/**
 * Breadth-first search over the grid, with reusable scratch buffers: `marks` holds
 * the parent id of every discovered cell (the start is its own parent, -1 means
 * undiscovered) and `dists` the distance at which it was discovered.
 *
 * A cell outside the grid is treated as impassable, so the search never leaves
 * the grid.
 */
module Navigation {
  import opened Geometry
  import opened World
  import opened Wrappers

  /** getId: the cell id of a row-major grid of the given width. */
  function GetId(c: Vec2, width: nat): (id: int)
    ensures 0 <= c.x < width ==> id / width == c.y && id % width == c.x
  {
    if 0 <= c.x < width then DivUnique(c.y * width + c.x, width, c.y, c.x); c.y * width + c.x
    else c.y * width + c.x
  }

  lemma {:induction false} MulMonotone(a: nat, b: nat, c: nat)
    requires a <= b
    ensures a * c <= b * c
  {
    if a < b {
      MulMonotone(a, b - 1, c);
      assert b * c == (b - 1) * c + c;
    }
  }

  /** A cell of the grid has an id that indexes a buffer of `width * height` entries. */
  lemma {:induction false} IdInRange(c: Vec2, width: nat, height: nat)
    requires 0 <= c.x < width && 0 <= c.y < height
    ensures 0 <= GetId(c, width) < width * height
  {
    MulMonotone(c.y + 1, height, width);
    assert (c.y + 1) * width == c.y * width + width;
  }

  /** toVec2M: the cell of an id. */
  function ToVec2(id: int, width: nat): (c: Vec2)
    requires 0 <= id && width > 0
    ensures GetId(c, width) == id
  {
    var y := id / width;
    Vec2(id - y * width, y)
  }

  lemma {:induction false} DivUnique(n: int, w: int, q: int, r: int)
    requires w > 0 && 0 <= r < w && n == q * w + r
    ensures n / w == q
  {
    var q' := n / w;
    var r' := n % w;
    assert (q - q') * w == q * w - q' * w == r' - r;
    assert (q' - q) * w == q' * w - q * w == r - r';
    if q - q' >= 1 {
      MulMonotone(1, q - q', w);
      assert false;
    } else if q' - q >= 1 {
      MulMonotone(1, q' - q, w);
      assert false;
    }
  }

  /** Converting a cell within the grid's columns to an id and back gives the cell. */
  lemma {:induction false} IdRoundTrip(c: Vec2, width: nat)
    requires 0 <= c.x < width && 0 <= c.y
    ensures ToVec2(GetId(c, width), width) == c
  {
    DivUnique(c.y * width + c.x, width, c.y, c.x);
  }

  predicate InBounds(grid: Grid, c: Vec2) {
    0 <= c.x < grid.width && 0 <= c.y < grid.height
  }

  /** checkCell: a cell can be walked through when every occupant is either not blocking or a
      creature (creatures can be fought through, walls cannot). */
  predicate Passable(grid: Grid, c: Vec2): (r: bool)
    reads grid
    ensures r ==> InBounds(grid, c)
    ensures InBounds(grid, c) && grid.Get(c) == [] ==> r
    ensures r <==> InBounds(grid, c) && forall a :: a in grid.Get(c) && a.collision == Block ==> IsCreature(a.kind)
  {
    var occ := grid.Get(c);
    InBounds(grid, c) && forall i :: 0 <= i < |occ| ==> occ[i].collision != Block || IsCreature(occ[i].kind)
  }

  function IfPassable(grid: Grid, c: Vec2): seq<Vec2>
    reads grid
  {
    if Passable(grid, c) then [c] else []
  }

  /** neighbours: the passable cells among the four around `c`, in the order up, down, right, left. */
  function Neighbours(grid: Grid, c: Vec2): (r: seq<Vec2>)
    reads grid
    ensures forall n :: n in r ==> Passable(grid, n) && Adjacent(c, n)
  {
    IfPassable(grid, Vec2(c.x, c.y + 1)) + IfPassable(grid, Vec2(c.x, c.y - 1))
    + IfPassable(grid, Vec2(c.x + 1, c.y)) + IfPassable(grid, Vec2(c.x - 1, c.y))
  }

  /** Any reordering of the neighbours holds passable cells next to `c` only. */
  lemma Reordered(grid: Grid, c: Vec2, ns: seq<Vec2>)
    requires multiset(ns) == multiset(Neighbours(grid, c))
    ensures forall n :: n in ns ==> Passable(grid, n) && Adjacent(c, n)
  {
    assert forall n :: n in ns ==> n in multiset(Neighbours(grid, c));
  }

  lemma AdjacentCases(c: Vec2, n: Vec2)
    requires Adjacent(c, n)
    ensures n == Vec2(c.x, c.y + 1) || n == Vec2(c.x, c.y - 1) || n == Vec2(c.x + 1, c.y) || n == Vec2(c.x - 1, c.y)
  {
  }

  /** No passable cell next to `c` is missed. */
  lemma {:induction false} NeighboursComplete(grid: Grid, c: Vec2, n: Vec2)
    requires Adjacent(c, n) && Passable(grid, n)
    ensures n in Neighbours(grid, c)
  {
    AdjacentCases(c, n);
  }

  /** The parent-pointer facts about the cell of id `i`, for buffers `m` (parents) and `d` (distances). */
  ghost predicate Linked(grid: Grid, w: nat, m: seq<int>, d: seq<int>, sid: int, i: int)
    reads grid
    requires w > 0 && |m| == |d| && 0 <= i < |m|
  {
    && (m[i] >= 0 <==> d[i] >= 0)
    && (m[i] >= 0 && i != sid ==>
          && 0 <= m[i] < |m| && m[m[i]] >= 0
          && d[i] == d[m[i]] + 1
          && Adjacent(ToVec2(i, w), ToVec2(m[i], w))
          && Passable(grid, ToVec2(i, w)))
  }

  /** The discovered cells form a tree rooted at the start `sid`: the start is its own parent at
      distance 0, and every other discovered cell is passable, adjacent to its discovered parent
      and one step further away. */
  ghost predicate IsTree(grid: Grid, w: nat, m: seq<int>, d: seq<int>, sid: int)
    reads grid
  {
    && w > 0 && |m| == |d| && 0 <= sid < |m|
    && m[sid] == sid && d[sid] == 0
    && forall i :: 0 <= i < |m| ==> Linked(grid, w, m, d, sid, i)
  }

  /** Discovering an undiscovered passable cell next to a discovered one, with that one as parent
      and one more than its distance, keeps the tree a tree. */
  lemma {:induction false} TreeGrows(grid: Grid, w: nat, m: seq<int>, d: seq<int>, sid: int, parent: int, child: int)
    requires IsTree(grid, w, m, d, sid)
    requires 0 <= parent < |m| && m[parent] >= 0
    requires 0 <= child < |m| && m[child] < 0
    requires Adjacent(ToVec2(child, w), ToVec2(parent, w)) && Passable(grid, ToVec2(child, w))
    ensures IsTree(grid, w, m[child := parent], d[child := d[parent] + 1], sid)
  {
    var m', d' := m[child := parent], d[child := d[parent] + 1];
    assert Linked(grid, w, m, d, sid, parent);
    forall i | 0 <= i < |m'|
      ensures Linked(grid, w, m', d', sid, i)
    {
      if i != child {
        assert Linked(grid, w, m, d, sid, i);
      }
    }
  }

  /** A walk back from a cell: consecutive cells are adjacent, every one is passable and differs
      from `start`, and the last one is next to `start`. */
  ghost predicate WalkTo(grid: Grid, path: seq<Vec2>, start: Vec2)
    reads grid
  {
    && (forall k :: 0 <= k < |path| ==> Passable(grid, path[k]) && path[k] != start)
    && (forall k :: 0 <= k < |path| - 1 ==> Adjacent(path[k], path[k + 1]))
    && (path != [] ==> Adjacent(path[|path| - 1], start))
  }

  /** Every unit step changes the Manhattan distance by one, so a walk is at least as
      long as the distance between its ends. */
  lemma {:induction false} WalkLengthBound(grid: Grid, path: seq<Vec2>, start: Vec2)
    requires path != [] && WalkTo(grid, path, start)
    ensures Distance(path[0], start) <= |path|
  {
    if |path| > 1 {
      WalkLengthBound(grid, path[1..], start);
      DistanceTriangle(path[0], path[1], start);
    }
  }

  /** What a search looks for. */
  datatype Goal =
    | Nearest(f: seq<Actor> -> bool)  // a cell whose occupants satisfy f
    | NextTo(f: seq<Actor> -> bool)   // a cell next to an earlier-reached cell whose occupants satisfy f

  /** The search state: the scratch buffers and the deque of cells waiting to be expanded. */
  class NavigationGraph {
    const grid: Grid
    const marks: array<int>
    const dists: array<int>
    var deque: seq<Vec2>

    function Size(): nat {
      grid.width * grid.height
    }

    function Id(c: Vec2): (id: int)
      ensures InBounds(grid, c) ==> 0 <= id < Size()
    {
      if InBounds(grid, c) then IdInRange(c, grid.width, grid.height); GetId(c, grid.width)
      else GetId(c, grid.width)
    }

    ghost predicate Valid() {
      marks.Length == Size() && dists.Length == Size() && marks != dists
    }

    constructor (grid: Grid)
      ensures this.grid == grid && Valid() && fresh(marks) && fresh(dists)
      ensures forall i :: 0 <= i < Size() ==> marks[i] == -1 && dists[i] == -1
      ensures deque == []
    {
      this.grid := grid;
      marks := new int[grid.width * grid.height](_ => -1);
      dists := new int[grid.width * grid.height](_ => -1);
      deque := [];
    }

    ghost predicate Tree(sid: int)
      reads this, grid, marks, dists
    {
      IsTree(grid, grid.width, marks[..], dists[..], sid)
    }

    /** Every cell on the deque is in the grid and discovered. */
    ghost predicate Queued()
      reads this, marks
      requires Valid()
    {
      forall k :: 0 <= k < |deque| ==> InBounds(grid, deque[k]) && marks[Id(deque[k])] >= 0
    }

    /** The ids not yet discovered. */
    ghost function Unmarked(): set<int>
      reads marks
    {
      set i | 0 <= i < marks.Length && marks[i] < 0
    }

    /** The search goes out layer by layer, for parents `m`, distances `d` and deque `q`: every
        discovered cell not yet expanded (`popped`) is on the deque, the expanded ones lie no
        further than `pd`, and the deque holds distances `pd` and `pd + 1` only, in
        nondecreasing order. */
    ghost predicate LayeredIn(m: seq<int>, d: seq<int>, q: seq<Vec2>, popped: set<int>, pd: int)
      requires |m| == |d| == Size() && forall k :: 0 <= k < |q| ==> InBounds(grid, q[k])
    {
      && (forall i :: 0 <= i < Size() && m[i] >= 0 && i !in popped ==>
            exists k :: 0 <= k < |q| && Id(q[k]) == i)
      && (forall i :: i in popped ==> 0 <= i < Size() && m[i] >= 0 && d[i] <= pd)
      && (forall k :: 0 <= k < |q| ==> pd <= d[Id(q[k])] <= pd + 1)
      && (forall j, k :: 0 <= j < k < |q| ==> d[Id(q[j])] <= d[Id(q[k])])
    }

    ghost predicate Layered(popped: set<int>, pd: int)
      reads this, marks, dists
      requires Valid() && Queued()
    {
      LayeredIn(marks[..], dists[..], deque, popped, pd)
    }

    /** Discovering the cells `nw`, whose ids are those leaving the undiscovered set `u0`, at
        distance `pd + 1` and appending them to the deque `q` keeps the layering. */
    lemma {:induction false} LayeredGrow(m0: seq<int>, ds0: seq<int>, q: seq<Vec2>, nw: seq<Vec2>,
                                         u0: set<int>, u1: set<int>, parent: int, dp: int, popped: set<int>, pd: int)
      requires Valid() && Queued() && |m0| == |ds0| == Size() && dp == pd
      requires forall k :: 0 <= k < |q| ==> InBounds(grid, q[k]) && m0[Id(q[k])] >= 0
      requires forall i :: i in u0 ==> 0 <= i < Size() && m0[i] < 0
      requires LayeredIn(m0, ds0, q, popped, pd)
      requires deque == q + nw
      requires forall x :: x in nw ==> Id(x) in u0 - u1
      requires forall i :: i in u0 - u1 ==> exists x :: x in nw && Id(x) == i
      requires forall i :: 0 <= i < Size() ==>
        if i in u0 - u1 then marks[i] == parent && dists[i] == dp + 1
        else marks[i] == m0[i] && dists[i] == ds0[i]
      ensures Layered(popped, pd)
    {
      forall i | 0 <= i < Size() && marks[i] >= 0 && i !in popped
        ensures exists k :: 0 <= k < |deque| && Id(deque[k]) == i
      {
        if i in u0 - u1 {
          var x :| x in nw && Id(x) == i;
          var j :| 0 <= j < |nw| && nw[j] == x;
          assert deque[|q| + j] == x;
        } else {
          var k :| 0 <= k < |q| && Id(q[k]) == i;
          assert deque[k] == q[k];
        }
      }
      forall k | 0 <= k < |deque|
        ensures dists[Id(deque[k])] == if k < |q| then ds0[Id(q[k])] else pd + 1
      {
        if k < |q| {
          assert deque[k] == q[k];
        } else {
          assert deque[k] == nw[k - |q|];
          assert nw[k - |q|] in nw;
        }
      }
    }

    function NextToHolds(f: seq<Actor> -> bool, c: Vec2): bool
      reads this, grid, dists
      requires Valid() && InBounds(grid, c)
    {
      var ns := Neighbours(grid, c);
      exists k :: 0 <= k < |ns| && 0 < dists[Id(ns[k])] < dists[Id(c)] && f(grid.Get(ns[k]))
    }

    /** The any-neighbour test of nextToNearest holds exactly when some passable cell next to
        `c` was reached closer than `c`, yet not at distance 0 (not the start), and its occupants
        satisfy `f`. */
    lemma NextToAdjacent(f: seq<Actor> -> bool, c: Vec2)
      requires Valid() && InBounds(grid, c)
      ensures NextToHolds(f, c) <==>
        exists n :: Adjacent(c, n) && Passable(grid, n) && 0 < dists[Id(n)] < dists[Id(c)] && f(grid.Get(n))
    {
      if n :| Adjacent(c, n) && Passable(grid, n) && 0 < dists[Id(n)] < dists[Id(c)] && f(grid.Get(n)) {
        NeighboursComplete(grid, c, n);
        var ns := Neighbours(grid, c);
        var k :| 0 <= k < |ns| && ns[k] == n;
      }
    }

    function GoalHolds(goal: Goal, c: Vec2): bool
      reads this, grid, dists
      requires Valid() && InBounds(grid, c)
    {
      match goal
      case Nearest(f) => f(grid.Get(c))
      case NextTo(f) => NextToHolds(f, c)
    }

    /** Every buffer back to "undiscovered" and the deque emptied. */
    method Reset()
      requires Valid()
      modifies this`deque, marks, dists
      ensures deque == []
      ensures forall i :: 0 <= i < Size() ==> marks[i] == -1 && dists[i] == -1
    {
      for i := 0 to marks.Length
        invariant forall j :: 0 <= j < i ==> marks[j] == -1
      {
        marks[i] := -1;
      }
      for i := 0 to dists.Length
        invariant forall j :: 0 <= j < i ==> dists[j] == -1
        invariant forall j :: 0 <= j < marks.Length ==> marks[j] == -1
      {
        dists[i] := -1;
      }
      deque := [];
    }

    /** The body of the neighbour loop: an undiscovered neighbour gets the current cell as parent,
        one more than its distance, and goes to the back of the deque. */
    method Discover(nb: Vec2, cell: Vec2, ghost sid: int)
      requires Valid() && Tree(sid) && Queued()
      requires InBounds(grid, cell) && marks[Id(cell)] >= 0
      requires Passable(grid, nb) && Adjacent(cell, nb)
      modifies this`deque, marks, dists
      ensures Tree(sid) && Queued()
      ensures old(marks[Id(nb)]) < 0 ==>
        && deque == old(deque) + [nb]
        && marks[..] == old(marks[..])[Id(nb) := Id(cell)]
        && dists[..] == old(dists[..])[Id(nb) := old(dists[Id(cell)]) + 1]
        && Id(nb) in old(Unmarked()) && Unmarked() == old(Unmarked()) - {Id(nb)}
      ensures old(marks[Id(nb)]) >= 0 ==> deque == old(deque) && unchanged(marks) && unchanged(dists)
      ensures deque == old(deque) + (if Id(nb) in old(Unmarked()) then [nb] else [])
      ensures Unmarked() == old(Unmarked()) - {Id(nb)}
    {
      var itId := Id(nb);
      var id := Id(cell);
      if marks[itId] < 0 {
        IdRoundTrip(nb, grid.width);
        IdRoundTrip(cell, grid.width);
        DistanceSymmetric(cell, nb);
        TreeGrows(grid, grid.width, marks[..], dists[..], sid, id, itId);
        ghost var before := Unmarked();
        deque := deque + [nb];
        marks[itId] := id;
        dists[itId] := dists[id] + 1;
        assert marks[..] == old(marks[..])[itId := id];
        assert Unmarked() == before - {itId};
      }
    }

    /** The search set up from `start`: only the start discovered, at distance 0, and on the deque. */
    method Begin(start: Vec2) returns (sid: int)
      requires Valid() && InBounds(grid, start)
      modifies this`deque, marks, dists
      ensures sid == Id(start) && Tree(sid) && Queued() && deque == [start] && Layered({}, 0)
      ensures forall i :: 0 <= i < Size() ==>
        && marks[i] == (if i == sid then sid else -1)
        && dists[i] == (if i == sid then 0 else -1)
    {
      Reset();
      sid := Id(start);
      marks[sid] := sid;
      dists[sid] := 0;
      deque := [start];
      forall i | 0 <= i < Size()
        ensures Linked(grid, grid.width, marks[..], dists[..], sid, i)
      {
      }
      assert Id(deque[0]) == sid;
    }

    /** pollFirst: the head of the deque, taken off. Under the layering, every discovered cell
        closer than the head has already been expanded. */
    method Pop(ghost popped: set<int>, ghost pd: int) returns (cell: Vec2)
      requires Valid() && Queued() && deque != [] && Layered(popped, pd)
      modifies this`deque
      ensures cell == old(deque[0]) && deque == old(deque[1..]) && Queued()
      ensures InBounds(grid, cell) && marks[Id(cell)] >= 0 && pd <= dists[Id(cell)]
      ensures forall i :: 0 <= i < Size() && marks[i] >= 0 && dists[i] < dists[Id(cell)] ==> i in popped
      ensures Layered(popped + {Id(cell)}, dists[Id(cell)])
    {
      ghost var q := deque;
      cell := deque[0];
      deque := deque[1..];
      var dc := dists[Id(cell)];
      forall i | 0 <= i < Size() && marks[i] >= 0 && i !in popped
        ensures Id(cell) == i || exists k :: 0 <= k < |deque| && Id(deque[k]) == i
      {
        var k :| 0 <= k < |q| && Id(q[k]) == i;
        if k > 0 {
          assert Id(deque[k - 1]) == i;
        }
      }
      forall k | 0 <= k < |deque|
        ensures dc <= dists[Id(deque[k])] <= dc + 1
      {
        assert deque[k] == q[k + 1];
      }
    }

    /** The ids still undiscovered after the neighbour loop has gone through `ns`, when
        `undiscovered` were before it. */
    ghost function StillUndiscovered(ns: seq<Vec2>, undiscovered: set<int>): (r: set<int>)
      ensures r <= undiscovered
      ensures forall n :: n in ns ==> Id(n) !in r
    {
      if ns == [] then undiscovered
      else StillUndiscovered(ns[..|ns| - 1], undiscovered) - {Id(ns[|ns| - 1])}
    }

    /** The cells of `ns` the neighbour loop discovers, in the order it appends them to the deque. */
    ghost function Newly(ns: seq<Vec2>, undiscovered: set<int>): seq<Vec2>
    {
      if ns == [] then []
      else
        var n := ns[|ns| - 1];
        Newly(ns[..|ns| - 1], undiscovered)
        + (if Id(n) in StillUndiscovered(ns[..|ns| - 1], undiscovered) then [n] else [])
    }

    /** Every cell the loop discovers leaves the undiscovered set, so the two together keep
        their size. */
    lemma {:induction false} NewlyCount(ns: seq<Vec2>, undiscovered: set<int>)
      ensures |Newly(ns, undiscovered)| + |StillUndiscovered(ns, undiscovered)| == |undiscovered|
    {
      if ns != [] {
        NewlyCount(ns[..|ns| - 1], undiscovered);
      }
    }

    /** The cells the loop discovers are exactly those whose ids leave the undiscovered set. */
    lemma {:induction false} NewlyIds(ns: seq<Vec2>, undiscovered: set<int>)
      ensures forall x :: x in Newly(ns, undiscovered) ==>
        Id(x) in undiscovered - StillUndiscovered(ns, undiscovered)
      ensures forall i :: i in undiscovered - StillUndiscovered(ns, undiscovered) ==>
        exists x :: x in Newly(ns, undiscovered) && Id(x) == i
    {
      if ns != [] {
        var init, n := ns[..|ns| - 1], ns[|ns| - 1];
        var still, newly := StillUndiscovered(init, undiscovered), Newly(init, undiscovered);
        var added := if Id(n) in still then [n] else [];
        assert StillUndiscovered(ns, undiscovered) == still - {Id(n)};
        assert Newly(ns, undiscovered) == newly + added;
        NewlyIds(init, undiscovered);
        forall x | x in newly + added
          ensures Id(x) in undiscovered - (still - {Id(n)})
        {
          if x !in newly {
            assert x == n;
          }
        }
        forall i | i in undiscovered - (still - {Id(n)})
          ensures exists x :: x in newly + added && Id(x) == i
        {
          if i in still {
            assert n in newly + added;
          } else {
            assert i in undiscovered - still;
            var x :| x in newly && Id(x) == i;
            assert x in newly + added;
          }
        }
      }
    }

    /** One turn of the neighbour loop, unfolded. */
    lemma NewlySnoc(ns: seq<Vec2>, undiscovered: set<int>, k: nat)
      requires k < |ns|
      ensures StillUndiscovered(ns[..k + 1], undiscovered) == StillUndiscovered(ns[..k], undiscovered) - {Id(ns[k])}
      ensures Newly(ns[..k + 1], undiscovered)
              == Newly(ns[..k], undiscovered)
                 + (if Id(ns[k]) in StillUndiscovered(ns[..k], undiscovered) then [ns[k]] else [])
    {
      assert ns[..k + 1][..k] == ns[..k];
    }

    /** One turn of the neighbour loop: the `k`-th neighbour is discovered if it was not yet. */
    method Visit(cell: Vec2, ns: seq<Vec2>, k: nat, ghost sid: int, ghost u0: set<int>, ghost d0: seq<Vec2>,
                 ghost m0: seq<int>, ghost ds0: seq<int>)
      requires Valid() && Tree(sid) && Queued()
      requires InBounds(grid, cell) && marks[Id(cell)] >= 0
      requires k < |ns| && Passable(grid, ns[k]) && Adjacent(cell, ns[k])
      requires deque == d0 + Newly(ns[..k], u0) && Unmarked() == StillUndiscovered(ns[..k], u0)
      requires |m0| == |ds0| == Size() && Id(cell) !in u0
      requires forall i :: 0 <= i < Size() ==>
        if i in u0 - Unmarked() then marks[i] == Id(cell) && dists[i] == ds0[Id(cell)] + 1
        else marks[i] == m0[i] && dists[i] == ds0[i]
      modifies this`deque, marks, dists
      ensures Tree(sid) && Queued()
      ensures deque == d0 + Newly(ns[..k + 1], u0) && Unmarked() == StillUndiscovered(ns[..k + 1], u0)
      ensures forall i :: 0 <= i < Size() ==>
        if i in u0 - Unmarked() then marks[i] == Id(cell) && dists[i] == ds0[Id(cell)] + 1
        else marks[i] == m0[i] && dists[i] == ds0[i]
    {
      NewlySnoc(ns, u0, k);
      Discover(ns[k], cell, sid);
    }

    /** The neighbour loop of one expanded cell: the deque gains exactly the neighbours not yet
        discovered, in the order of `ns`, and they leave the undiscovered set. */
    method Expand(cell: Vec2, ns: seq<Vec2>, ghost sid: int, ghost popped: set<int>, ghost pd: int)
      requires Valid() && Tree(sid) && Queued() && Layered(popped, pd)
      requires InBounds(grid, cell) && marks[Id(cell)] >= 0 && dists[Id(cell)] == pd
      requires forall n :: n in ns ==> Passable(grid, n) && Adjacent(cell, n)
      modifies this`deque, marks, dists
      ensures Tree(sid) && Queued()
      ensures deque == old(deque) + Newly(ns, old(Unmarked()))
      ensures Unmarked() == StillUndiscovered(ns, old(Unmarked()))
      ensures forall i :: 0 <= i < Size() ==>
        if i in old(Unmarked()) - Unmarked() then marks[i] == Id(cell) && dists[i] == old(dists[Id(cell)]) + 1
        else marks[i] == old(marks[i]) && dists[i] == old(dists[i])
      ensures |Unmarked()| + |deque| == old(|Unmarked()| + |deque|)
      ensures Layered(popped, pd)
    {
      ghost var u0 := Unmarked();
      ghost var d0 := deque;
      ghost var m0, ds0 := marks[..], dists[..];
      assert LayeredIn(m0, ds0, d0, popped, pd);
      assert forall k :: 0 <= k < |d0| ==> InBounds(grid, d0[k]) && m0[Id(d0[k])] >= 0;
      assert forall i :: i in u0 ==> 0 <= i < Size() && m0[i] < 0;
      for k := 0 to |ns|
        invariant Tree(sid) && Queued()
        invariant marks[Id(cell)] >= 0
        invariant deque == d0 + Newly(ns[..k], u0) && Unmarked() == StillUndiscovered(ns[..k], u0)
        invariant forall i :: 0 <= i < Size() ==>
          if i in u0 - Unmarked() then marks[i] == Id(cell) && dists[i] == ds0[Id(cell)] + 1
          else marks[i] == m0[i] && dists[i] == ds0[i]
      {
        assert ns[k] in ns;
        Visit(cell, ns, k, sid, u0, d0, m0, ds0);
      }
      assert ns[..|ns|] == ns;
      NewlyCount(ns, u0);
      NewlyIds(ns, u0);
      LayeredGrow(m0, ds0, d0, Newly(ns, u0), u0, Unmarked(), Id(cell), ds0[Id(cell)], popped, pd);
    }

    /** When every discovered cell closer than `cell` has been expanded and rejected, no
        discovered cell closer than `cell` satisfies `f`. */
    lemma NoneCloser(f: seq<Actor> -> bool, popped: set<int>, cell: Vec2)
      requires Valid() && InBounds(grid, cell)
      requires forall i :: 0 <= i < Size() && marks[i] >= 0 && dists[i] < dists[Id(cell)] ==> i in popped
      requires forall i :: i in popped && 0 <= i ==> !f(grid.Get(ToVec2(i, grid.width)))
      ensures forall c :: InBounds(grid, c) && marks[Id(c)] >= 0 && dists[Id(c)] < dists[Id(cell)] ==>
        !f(grid.Get(c))
    {
      forall c | InBounds(grid, c) && marks[Id(c)] >= 0 && dists[Id(c)] < dists[Id(cell)]
        ensures !f(grid.Get(c))
      {
        assert Id(c) in popped;
        IdRoundTrip(c, grid.width);
      }
    }

    /**
     * bfs: breadth-first from `start`, testing each popped cell against the goal. The search
     * gives up at the first popped cell whose Manhattan distance from the start exceeds
     * `maxDistance`. Neighbours are expanded in the order `shuffle` gives them.
     */
    method Bfs(start: Vec2, maxDistance: int, goal: Goal, shuffle: seq<Vec2> -> seq<Vec2>)
      returns (found: Option<Vec2>)
      requires Valid() && InBounds(grid, start)
      requires forall s :: multiset(shuffle(s)) == multiset(s)
      modifies this`deque, marks, dists
      ensures Tree(Id(start))
      ensures found.Some? ==> InBounds(grid, found.value) && marks[Id(found.value)] >= 0
      ensures found.Some? ==> Distance(start, found.value) <= maxDistance
      ensures found.Some? ==> GoalHolds(goal, found.value)
      ensures maxDistance >= 0 && goal.Nearest? && goal.f(grid.Get(start)) ==> found == Some(start)
      ensures found.Some? && goal.Nearest? ==>
        forall c :: InBounds(grid, c) && marks[Id(c)] >= 0 && dists[Id(c)] < dists[Id(found.value)] ==>
          !goal.f(grid.Get(c))
    {
      var sid := Begin(start);
      ghost var first := true;
      ghost var startWins := maxDistance >= 0 && goal.Nearest? && goal.f(grid.Get(start));
      ghost var popped: set<int> := {};
      ghost var pd := 0;
      while deque != []
        invariant Valid() && Tree(sid) && Queued() && Layered(popped, pd)
        invariant first ==> deque == [start]
        invariant !first ==> !startWins
        invariant goal.Nearest? ==> forall i :: i in popped ==> !goal.f(grid.Get(ToVec2(i, grid.width)))
        decreases |Unmarked()| + |deque|
      {
        ghost var measure := |Unmarked()| + |deque|;
        var cell := Pop(popped, pd);
        assert |Unmarked()| + |deque| < measure;
        if Distance(start, cell) > maxDistance {
          return None;
        }
        if GoalHolds(goal, cell) {
          if goal.Nearest? {
            NoneCloser(goal.f, popped, cell);
          }
          return Some(cell);
        }
        first := false;
        IdRoundTrip(cell, grid.width);
        popped, pd := popped + {Id(cell)}, dists[Id(cell)];
        var ns := shuffle(Neighbours(grid, cell));
        Reordered(grid, cell, ns);
        Expand(cell, ns, sid, popped, pd);
      }
      return None;
    }

    /** findPath: follows the parent pointers from `target` back to the start, collecting every
        cell but the start. */
    method FindPath(target: Vec2, ghost sid: int) returns (path: seq<Vec2>)
      requires Valid() && Tree(sid) && InBounds(grid, target) && marks[Id(target)] >= 0
      ensures |path| == dists[Id(target)]
      ensures WalkTo(grid, path, ToVec2(sid, grid.width))
      ensures Id(target) != sid ==> path != [] && path[0] == target
    {
      var w := grid.width;
      var id := Id(target);
      path := [];
      IdRoundTrip(target, w);
      assert Linked(grid, w, marks[..], dists[..], sid, id);
      while marks[id] != id
        invariant 0 <= id < Size() && marks[id] >= 0 && dists[id] >= 0
        invariant |path| + dists[id] == dists[Id(target)]
        invariant path == [] <==> id == Id(target)
        invariant path != [] ==> path[0] == target && Adjacent(path[|path| - 1], ToVec2(id, w))
        invariant forall k :: 0 <= k < |path| ==> Passable(grid, path[k]) && path[k] != ToVec2(sid, w)
        invariant forall k :: 0 <= k < |path| - 1 ==> Adjacent(path[k], path[k + 1])
        decreases dists[id]
      {
        assert Linked(grid, w, marks[..], dists[..], sid, id);
        assert Linked(grid, w, marks[..], dists[..], sid, marks[id]);
        DistanceSymmetric(ToVec2(id, w), ToVec2(marks[id], w));
        path := path + [ToVec2(id, w)];
        id := marks[id];
      }
      assert Linked(grid, w, marks[..], dists[..], sid, id);
    }

    /** nearest: the first cell the search reaches whose occupants satisfy `f`. */
    method NearestCell(start: Vec2, maxDistance: int, f: seq<Actor> -> bool, shuffle: seq<Vec2> -> seq<Vec2>)
      returns (r: Option<Vec2>)
      requires Valid() && InBounds(grid, start)
      requires forall s :: multiset(shuffle(s)) == multiset(s)
      modifies this`deque, marks, dists
      ensures r.Some? ==> InBounds(grid, r.value) && (Passable(grid, r.value) || r.value == start)
      ensures r.Some? ==> f(grid.Get(r.value)) && Distance(start, r.value) <= maxDistance
      ensures maxDistance >= 0 && f(grid.Get(start)) ==> r == Some(start)
      ensures r.Some? ==> Tree(Id(start)) && marks[Id(r.value)] >= 0
      ensures r.Some? ==> forall c :: InBounds(grid, c) && marks[Id(c)] >= 0 && f(grid.Get(c)) ==>
        dists[Id(r.value)] <= dists[Id(c)]
    {
      r := Bfs(start, maxDistance, Nearest(f), shuffle);
      if r.Some? && r.value != start {
        IdRoundTrip(start, grid.width);
        IdRoundTrip(r.value, grid.width);
        assert Linked(grid, grid.width, marks[..], dists[..], Id(start), Id(r.value));
      }
    }

    /** pathToNearest: the path from the nearest matching cell back towards the start, the start
        itself left out. */
    method PathToNearest(start: Vec2, maxDistance: int, f: seq<Actor> -> bool, shuffle: seq<Vec2> -> seq<Vec2>)
      returns (r: Option<seq<Vec2>>)
      requires Valid() && InBounds(grid, start)
      requires forall s :: multiset(shuffle(s)) == multiset(s)
      modifies this`deque, marks, dists
      ensures r.Some? ==> WalkTo(grid, r.value, start)
      ensures r.Some? && r.value != [] ==>
        && f(grid.Get(r.value[0])) && Distance(start, r.value[0]) <= maxDistance
        && Distance(r.value[0], start) <= |r.value|
      ensures r.Some? && r.value == [] ==> f(grid.Get(start))
      ensures maxDistance >= 0 && f(grid.Get(start)) ==> r == Some([])
      ensures r.Some? ==> forall c :: InBounds(grid, c) && marks[Id(c)] >= 0 && f(grid.Get(c)) ==>
        |r.value| <= dists[Id(c)]
    {
      var nearest := Bfs(start, maxDistance, Nearest(f), shuffle);
      if nearest.None? {
        return None;
      }
      IdRoundTrip(start, grid.width);
      IdRoundTrip(nearest.value, grid.width);
      var path := FindPath(nearest.value, Id(start));
      if path != [] {
        WalkLengthBound(grid, path, start);
      }
      return Some(path);
    }

    /** nextToNearest: searching one step further, the first cell next to an already reached cell
        (neither the start nor undiscovered, and closer than it) whose occupants satisfy `f`. */
    method NextToNearest(start: Vec2, maxDistance: int, f: seq<Actor> -> bool, shuffle: seq<Vec2> -> seq<Vec2>)
      returns (r: Option<Vec2>)
      requires Valid() && InBounds(grid, start)
      requires forall s :: multiset(shuffle(s)) == multiset(s)
      modifies this`deque, marks, dists
      ensures r.Some? ==> InBounds(grid, r.value) && Distance(start, r.value) <= maxDistance + 1
      ensures r.Some? ==> NextToHolds(f, r.value)
    {
      r := Bfs(start, maxDistance + 1, NextTo(f), shuffle);
    }
  }
}
