/**
 * Actors, the creatures among them, the grid that indexes them by cell and the
 * game that applies deferred spawns and destroys once per tick.
 *
 * These live in one module because the entities refer to each other: an actor
 * knows the game it was started in, a creature knows the grid it walks on, and
 * the grid and the game hold actors.
 */
module World {
  import opened Geometry
  import opened Json

  // ---------------------------------------------------------------------------
  // Kinds, collision and draw order
  // ---------------------------------------------------------------------------

  /** How an actor reacts when another one tries to enter its cell. */
  datatype Collision = Block | Overlap | Pass

  /** The combination rule of two collision kinds (Collision.collide); the model takes it as given. */
  type CollisionRule = (Collision, Collision) -> Collision

  datatype ViewOrder = Background | Default | Foreground

  /** The tick dispatch tiers that the modelled code names. */
  datatype TickOrder = DefaultTick | BeforeDrawUi

  /** The concrete actor classes the factory knows. */
  datatype Kind = Wall | Player | Mob | DropBag

  /** Player and Mob derive from Creature; WallActor and DropBag do not. */
  predicate IsCreature(k: Kind) {
    k == Player || k == Mob
  }

  /** The TYPE_ID tag each concrete class writes into its snapshot. */
  function TypeId(k: Kind): string {
    match k
    case Wall => "wall"
    case Player => "player"
    case Mob => "mob"
    case DropBag => "drop_bag"
  }

  /** Distinct classes carry distinct tags, so the tag names the class. */
  lemma TypeIdInjective(k: Kind, l: Kind)
    ensures TypeId(k) == TypeId(l) <==> k == l
  {
  }

  /** Kotlin's Int. */
  type Int32 = n: int | -0x8000_0000 <= n < 0x8000_0000

  /** Enum.compareTo compares declaration positions. */
  function Ordinal(o: ViewOrder): int {
    match o
    case Background => 0
    case Default => 1
    case Foreground => 2
  }

  /** What compareTo looks at: the view order and the view priority. */
  datatype DrawKey = DrawKey(order: ViewOrder, priority: Int32)

  /** compareTo as the source writes it: `other.viewPriority - viewPriority` in 32-bit arithmetic. */
  function CompareAsWritten(a: DrawKey, b: DrawKey): (r: int)
    ensures Ordinal(a.order) < Ordinal(b.order) ==> r < 0
    ensures Ordinal(a.order) > Ordinal(b.order) ==> r > 0
    ensures a.order == b.order ==>
      -0x8000_0000 <= r < 0x8000_0000 && (r - (b.priority - a.priority)) % TwoTo32 == 0
  {
    var firstOrder := Ordinal(a.order) - Ordinal(b.order);
    if firstOrder == 0 then Wrap32(b.priority - a.priority) else firstOrder
  }

  /** The draw order compareTo is meant to be: by view order, then higher priority first. */
  function Compare(a: DrawKey, b: DrawKey): (r: int)
    ensures Ordinal(a.order) < Ordinal(b.order) ==> r < 0
    ensures Ordinal(a.order) > Ordinal(b.order) ==> r > 0
    ensures a.order == b.order ==> (r < 0 <==> a.priority > b.priority)
    ensures a.order == b.order ==> (r > 0 <==> a.priority < b.priority)
  {
    var firstOrder := Ordinal(a.order) - Ordinal(b.order);
    if firstOrder == 0 then Sign(b.priority - a.priority) else firstOrder
  }

  lemma CompareReflexive(a: DrawKey)
    ensures Compare(a, a) == 0
  {
  }

  lemma CompareAntisymmetric(a: DrawKey, b: DrawKey)
    ensures Sign(Compare(a, b)) == -Sign(Compare(b, a))
  {
  }

  lemma CompareTransitive(a: DrawKey, b: DrawKey, c: DrawKey)
    requires Compare(a, b) <= 0 && Compare(b, c) <= 0
    ensures Compare(a, c) <= 0
  {
  }

  /** While the priorities stay within 30 bits the subtraction cannot wrap, and the
      written comparison orders exactly as the intended one. */
  lemma {:induction false} AsWrittenAgreesWhenBounded(a: DrawKey, b: DrawKey)
    requires -0x4000_0000 <= a.priority < 0x4000_0000
    requires -0x4000_0000 <= b.priority < 0x4000_0000
    ensures Sign(CompareAsWritten(a, b)) == Sign(Compare(a, b))
  {
    var d := b.priority - a.priority;
    assert -0x8000_0000 < d < 0x8000_0000;
    assert d % TwoTo32 == if d >= 0 then d else d + TwoTo32;
  }

  /** With priorities 0 and Int.MIN_VALUE both orders of the written comparison are
      negative: each actor claims to be drawn before the other. */
  lemma AsWrittenNotAntisymmetric()
    ensures var a, b := DrawKey(Default, 0), DrawKey(Default, -0x8000_0000);
            CompareAsWritten(a, b) < 0 && CompareAsWritten(b, a) < 0
  {
    var a, b := DrawKey(Default, 0), DrawKey(Default, -0x8000_0000);
    assert CompareAsWritten(a, b) == Wrap32(-0x8000_0000) == -0x8000_0000;
    assert CompareAsWritten(b, a) == Wrap32(0x8000_0000) == -0x8000_0000;
  }

  /** The snapshot record of an actor: its position under `x`, `y` and its tag under `t`. */
  function Snapshot(kind: Kind, pos: Vec2): JsonObject {
    map["x" := JInt(pos.x), "y" := JInt(pos.y), "t" := JStr(TypeId(kind))]
  }

  /** The snapshot carries the position under `x` and `y` and the class tag under `t`. */
  lemma SnapshotFields(kind: Kind, pos: Vec2)
    ensures var r := Snapshot(kind, pos);
            && "x" in r && r["x"] == JInt(pos.x)
            && "y" in r && r["y"] == JInt(pos.y)
            && "t" in r && r["t"] == JStr(TypeId(kind))
  {
  }

  /** CreatureStatus.damage: health decreases by the damage and stops at zero. */
  function Damage(health: int, dmg: int): (r: int)
    ensures r >= 0
    ensures health - dmg >= 0 ==> r == health - dmg
    ensures health - dmg <= 0 ==> r == 0
  {
    if health - dmg < 0 then 0 else health - dmg
  }

  // ---------------------------------------------------------------------------
  // Event registrations
  // ---------------------------------------------------------------------------

  datatype Channel = TickChannel(order: TickOrder) | DestroyActorChannel | SpawnActorChannel

  /** The handle an event handler subscription returns; finishing it unsubscribes the handler. */
  class Registration {
    const channel: Channel
    var finished: bool

    constructor (channel: Channel)
      ensures this.channel == channel && !finished
    {
      this.channel := channel;
      finished := false;
    }

    method Finish()
      modifies this
      ensures finished
    {
      finished := true;
    }
  }

  /** How many of `regs` still deliver events of `ch`. */
  function LiveCount(regs: seq<Registration>, ch: Channel): (n: nat)
    reads regs
    ensures n <= |regs|
  {
    if regs == [] then 0
    else
      var last := regs[|regs| - 1];
      LiveCount(regs[..|regs| - 1], ch) + if last.channel == ch && !last.finished then 1 else 0
  }

  function Copies(a: Actor, n: nat): (r: seq<Actor>)
    ensures |r| == n && forall i :: 0 <= i < n ==> r[i] == a
  {
    seq(n, _ => a)
  }

  // ---------------------------------------------------------------------------
  // The grid: each cell holds the actors standing on it
  // ---------------------------------------------------------------------------

  type Cells = map<Vec2, seq<Actor>>

  function CellAt(cells: Cells, p: Vec2): seq<Actor> {
    if p in cells then cells[p] else []
  }

  /** The cell's actors without `a`. */
  function Without(s: seq<Actor>, a: Actor): (r: seq<Actor>)
    ensures a !in r
    ensures forall i :: 0 <= i < |r| ==> r[i] in s
    ensures forall i :: 0 <= i < |s| && s[i] != a ==> s[i] in r
    ensures |r| <= |s|
  {
    if s == [] then []
    else if s[0] == a then Without(s[1..], a)
    else [s[0]] + Without(s[1..], a)
  }

  function Added(cells: Cells, a: Actor, p: Vec2): Cells {
    cells[p := CellAt(cells, p) + [a]]
  }

  function Removed(cells: Cells, a: Actor, p: Vec2): Cells {
    cells[p := Without(CellAt(cells, p), a)]
  }

  /** An actor that moved from `from` to `to` refiled under its new cell. */
  function Relocated(cells: Cells, a: Actor, from: Vec2, to: Vec2): (r: Cells)
    ensures a !in CellAt(r, from) || from == to
    ensures a in CellAt(r, to)
    ensures forall p :: p != from && p != to ==> CellAt(r, p) == CellAt(cells, p)
    ensures forall p, i :: 0 <= i < |CellAt(cells, p)| && CellAt(cells, p)[i] != a ==> CellAt(cells, p)[i] in CellAt(r, p)
    ensures forall p, i :: 0 <= i < |CellAt(r, p)| && CellAt(r, p)[i] != a ==> CellAt(r, p)[i] in CellAt(cells, p)
  {
    Added(Removed(cells, a, from), a, to)
  }

  /** A creature whose health has reached zero. */
  predicate Dead(a: Actor)
    reads a
  {
    IsCreature(a.kind) && a.health == 0
  }

  /** The actors of a cell that are not dead, in their order. */
  function Survivors(s: seq<Actor>): (r: seq<Actor>)
    reads s
    ensures forall i :: 0 <= i < |r| ==> r[i] in s && !Dead(r[i])
    ensures forall i :: 0 <= i < |s| && !Dead(s[i]) ==> s[i] in r
    ensures |r| <= |s|
  {
    if s == [] then []
    else if Dead(s[0]) then Survivors(s[1..])
    else [s[0]] + Survivors(s[1..])
  }

  predicate Distinct(s: seq<Actor>) {
    forall i, j :: 0 <= i < j < |s| ==> s[i] != s[j]
  }

  /** The spatial index of a map: from cell to the actors standing on it. */
  class Grid {
    const width: nat
    const height: nat
    var cells: Cells

    constructor (width: nat, height: nat)
      ensures this.width == width && this.height == height && cells == map[]
    {
      this.width := width;
      this.height := height;
      cells := map[];
    }

    function Get(p: Vec2): seq<Actor>
      reads this
    {
      CellAt(cells, p)
    }

    /** Every actor in some cell. */
    function Actors(): set<Actor>
      reads this
    {
      set p, a | p in cells && a in cells[p] :: a
    }

    /** add: files the actor under the cell of its position. */
    method Add(a: Actor)
      modifies this
      ensures cells == Added(old(cells), a, a.pos)
    {
      cells := Added(cells, a, a.pos);
    }

    /** remove: takes the actor out of the cell of its position. */
    method Remove(a: Actor)
      modifies this
      ensures cells == Removed(old(cells), a, a.pos)
    {
      cells := Removed(cells, a, a.pos);
    }

    /** updateOne(from): refiles an actor that has left `from` under its current position. */
    method Relocate(a: Actor, from: Vec2)
      modifies this
      ensures cells == Relocated(old(cells), a, from, a.pos)
    {
      cells := Relocated(cells, a, from, a.pos);
    }

    /** filterDead(p): drops the dead creatures from one cell. */
    method FilterDead(p: Vec2)
      modifies this
      ensures cells == old(cells)[p := Survivors(old(Get(p)))]
    {
      cells := cells[p := Survivors(Get(p))];
    }
  }

  // ---------------------------------------------------------------------------
  // Collision resolution
  // ---------------------------------------------------------------------------

  /** What one occupant of the destination cell went through during a move. */
  datatype Interaction =
    | NoInteraction              // Pass: nothing happens
    | OverlapNotified            // Overlap: notified, never vetoes
    | BlockSkipped               // Block after an earlier veto: not interacted with
    | BlockInteracted(allowed: bool)  // Block: interacted with, allowed or vetoed the move

  /** No Block occupant that was interacted with vetoed. */
  predicate AllAllowed(s: seq<Interaction>) {
    forall k :: 0 <= k < |s| ==> (s[k].BlockInteracted? ==> s[k].allowed)
  }

  lemma AllAllowedAppend(s: seq<Interaction>, o: Interaction)
    ensures AllAllowed(s + [o]) <==> AllAllowed(s) && (o.BlockInteracted? ==> o.allowed)
  {
    if AllAllowed(s) && (o.BlockInteracted? ==> o.allowed) {
      forall k | 0 <= k < |s + [o]| ensures (s + [o])[k].BlockInteracted? ==> (s + [o])[k].allowed {
        if k < |s| { assert (s + [o])[k] == s[k]; }
      }
    }
    if AllAllowed(s + [o]) {
      assert (s + [o])[|s|] == o;
      forall k | 0 <= k < |s| ensures s[k].BlockInteracted? ==> s[k].allowed {
        assert (s + [o])[k] == s[k];
      }
    }
  }

  /** The outcome `o` of occupant `a` (health `h0` before, `h1` after), where `allowedSoFar` says
      whether no earlier occupant vetoed. */
  ghost predicate ResolvedOne(mover: Actor, a: Actor, h0: int, h1: int, allowedSoFar: bool, o: Interaction,
                              combine: CollisionRule)
  {
    var c := combine(mover.collision, a.collision);
    && (c == Block && allowedSoFar ==> o == BlockInteracted(IsCreature(a.kind) && h1 == 0))
    && (c == Block && !allowedSoFar ==> o == BlockSkipped)
    && (c == Overlap ==> o == OverlapNotified)
    && (c != Block && c != Overlap ==> o == NoInteraction)
    && h1 == if o.BlockInteracted? && IsCreature(a.kind) then Damage(h0, mover.attack) else h0
  }

  /** The whole pass of a mover over the occupants `occ` of the destination. */
  ghost predicate Resolution(mover: Actor, occ: seq<Actor>, before: seq<int>, after: seq<int>,
                             outcomes: seq<Interaction>, combine: CollisionRule)
  {
    && |before| == |occ| && |after| == |occ| && |outcomes| == |occ|
    && forall i :: 0 <= i < |occ| ==>
         ResolvedOne(mover, occ[i], before[i], after[i], AllAllowed(outcomes[..i]), outcomes[i], combine)
  }

  /** One more occupant handled: the pass over a prefix extends by its outcome. */
  lemma ResolutionSnoc(mover: Actor, occ: seq<Actor>, before: seq<int>, hs: seq<int>, outcomes: seq<Interaction>,
                       o: Interaction, h: int, combine: CollisionRule)
    requires |before| == |occ| && |hs| == |occ| && |outcomes| < |occ|
    requires var i := |outcomes|; Resolution(mover, occ[..i], before[..i], hs[..i], outcomes, combine)
    requires ResolvedOne(mover, occ[|outcomes|], before[|outcomes|], h, AllAllowed(outcomes), o, combine)
    ensures var i := |outcomes|; Resolution(mover, occ[..i + 1], before[..i + 1], hs[i := h][..i + 1], outcomes + [o], combine)
  {
    var i := |outcomes|;
    var outs := outcomes + [o];
    forall j | 0 <= j <= i ensures outs[..j] == outcomes[..j] {
      assert outs[..j] == outcomes[..j];
    }
  }

  function Healths(s: seq<Actor>): (r: seq<int>)
    reads s`health
    ensures |r| == |s| && forall i :: 0 <= i < |s| ==> r[i] == s[i].health
  {
    if s == [] then [] else [s[0].health] + Healths(s[1..])
  }

  /** The cell contents after a successful move of `a` from `from` to `to`. */
  function AfterMove(cells: Cells, a: Actor, from: Vec2, to: Vec2): Cells
    reads CellAt(Relocated(cells, a, from, to), to)
  {
    var moved := Relocated(cells, a, from, to);
    moved[to := Survivors(CellAt(moved, to))]
  }

  // ---------------------------------------------------------------------------
  // Actors
  // ---------------------------------------------------------------------------

  /**
   * A map actor. The creature part (health, attack, the grid it walks on) is only
   * meaningful when the kind is a creature.
   */
  class Actor {
    const kind: Kind
    const collision: Collision
    const tickOrder: TickOrder
    const attack: int
    const grid: Grid?
    var viewOrder: ViewOrder
    var viewPriority: Int32
    var pos: Vec2
    var alive: bool
    var game: Game?
    var eventTick: Registration?
    var health: int

    constructor (kind: Kind, collision: Collision, tickOrder: TickOrder, game: Game?, pos: Vec2,
                 health: int, attack: int, grid: Grid?)
      ensures this.kind == kind && this.collision == collision && this.tickOrder == tickOrder
      ensures this.pos == pos && this.health == health && this.attack == attack && this.grid == grid
      ensures viewOrder == Default && viewPriority == 0
      ensures !alive && this.game == game && eventTick == null
    {
      this.kind := kind;
      this.collision := collision;
      this.tickOrder := tickOrder;
      this.attack := attack;
      this.grid := grid;
      viewOrder := Default;
      viewPriority := 0;
      this.pos := pos;
      alive := false;
      this.game := game;
      eventTick := null;
      this.health := health;
    }

    function Key(): DrawKey
      reads this
    {
      DrawKey(viewOrder, viewPriority)
    }

    /** compareTo, in its intended form. */
    function CompareTo(other: Actor): (r: int)
      reads this, other
      ensures Ordinal(viewOrder) != Ordinal(other.viewOrder) ==>
        (r < 0 <==> Ordinal(viewOrder) < Ordinal(other.viewOrder))
      ensures viewOrder == other.viewOrder ==> (r < 0 <==> viewPriority > other.viewPriority)
      ensures r == 0 <==> viewOrder == other.viewOrder && viewPriority == other.viewPriority
    {
      Compare(Key(), other.Key())
    }

    /** The default collide: the rule applied to the two actors' collision kinds. */
    function Collide(other: Actor, combine: CollisionRule): Collision {
      combine(collision, other.collision)
    }

    /**
     * The default collide looks at nothing but the two collision kinds. This follows from
     * `Collide` being a function of those kinds alone; the lemma records the promise and proves
     * nothing beyond that.
     */
    lemma CollideDependsOnKinds(other: Actor, a: Actor, b: Actor, combine: CollisionRule)
      requires a.collision == collision && b.collision == other.collision
      ensures Collide(other, combine) == a.Collide(b, combine)
    {
    }

    function ToJson(): (r: JsonObject)
      reads this
      ensures r.Keys == {"x", "y", "t"}
      ensures r["x"] == JInt(pos.x) && r["y"] == JInt(pos.y) && r["t"] == JStr(TypeId(kind))
    {
      Snapshot(kind, pos)
    }

    /** onBeginGame: records the game, subscribes to ticks in the actor's tier and becomes alive. */
    method OnBeginGame(g: Game)
      modifies this`game, this`eventTick, this`alive
      ensures game == g && alive
      ensures eventTick != null && fresh(eventTick)
      ensures eventTick.channel == TickChannel(tickOrder) && !eventTick.finished
    {
      game := g;
      eventTick := new Registration(TickChannel(tickOrder));
      alive := true;
    }

    /** onDestroy: finishes the tick subscription. */
    method OnDestroy()
      modifies eventTick
      ensures eventTick != null ==> eventTick.finished
    {
      if eventTick != null {
        eventTick.Finish();
      }
    }

    /** destroy: not alive any more, the destroy event goes to the game's handlers, the tick subscription ends.
        Nothing guards a second call: it publishes again. */
    method Destroy()
      modifies this`alive, (if game == null then {} else {game})`actorsToDestroy, eventTick
      ensures !alive && game == old(game) && eventTick == old(eventTick)
      ensures game != null ==>
        game.actorsToDestroy == old(game.actorsToDestroy)
                                + Copies(this, old(LiveCount(game.eventsRegistrations, DestroyActorChannel)))
      ensures eventTick != null ==> eventTick.finished
    {
      alive := false;
      if game != null {
        game.PublishDestroy(this);
      }
      OnDestroy();
    }

    /** hit: the damage is applied; the result says whether the creature is now at zero health. */
    method Hit(dmg: int) returns (dead: bool)
      requires IsCreature(kind)
      modifies this`health
      ensures health == Damage(old(health), dmg)
      ensures dead <==> health == 0
    {
      health := Damage(health, dmg);
      dead := health == 0;
    }

    /** checkDead: zero health means dead, and only then does the tick subscription end. */
    method CheckDead() returns (isDead: bool)
      requires IsCreature(kind)
      modifies eventTick
      ensures isDead <==> health == 0
      ensures isDead && eventTick != null ==> eventTick.finished
      ensures !isDead ==> eventTick == null || unchanged(eventTick)
    {
      isDead := health == 0;
      if isDead {
        OnDestroy();
      }
    }

    /** blockInteract of a creature: it strikes a creature it is blocked by with its attack and
        passes if that creature is now dead; anything else blocks it for good. */
    method BlockInteract(a: Actor) returns (ok: bool)
      requires IsCreature(kind)
      modifies a`health
      ensures ok <==> IsCreature(a.kind) && a.health == 0
      ensures a.health == if IsCreature(a.kind) then Damage(old(a.health), attack) else old(a.health)
    {
      if IsCreature(a.kind) {
        ok := a.Hit(attack);
      } else {
        ok := false;
      }
    }

    /** One occupant's turn in resolveCollision; `allowedSoFar` is the result accumulated so far. */
    method InteractWith(a: Actor, allowedSoFar: bool, combine: CollisionRule) returns (o: Interaction)
      requires IsCreature(kind)
      modifies a`health
      ensures ResolvedOne(this, a, old(a.health), a.health, allowedSoFar, o, combine)
    {
      var c := Collide(a, combine);
      if c == Block {
        if allowedSoFar {
          var ok := BlockInteract(a);
          o := BlockInteracted(ok);
        } else {
          o := BlockSkipped;
        }
      } else if c == Overlap {
        o := OverlapNotified;
      } else {
        o := NoInteraction;
      }
    }

    /** resolveCollision: folds the occupants of the destination into allow or veto. */
    method ResolveCollision(occ: seq<Actor>, combine: CollisionRule) returns (result: bool, outcomes: seq<Interaction>)
      requires IsCreature(kind)
      requires Distinct(occ)
      modifies occ`health
      ensures Resolution(this, occ, old(Healths(occ)), Healths(occ), outcomes, combine)
      ensures result <==> AllAllowed(outcomes)
    {
      ghost var before := Healths(occ);
      ghost var hs := before;
      result := true;
      outcomes := [];
      for i := 0 to |occ|
        invariant |outcomes| == i && |hs| == |occ|
        invariant result <==> AllAllowed(outcomes)
        invariant Resolution(this, occ[..i], before[..i], hs[..i], outcomes, combine)
        invariant forall j :: i <= j < |occ| ==> hs[j] == before[j]
        invariant forall j :: 0 <= j < |occ| ==> allocated(occ[j]) && occ[j].health == hs[j]
      {
        var o := InteractWith(occ[i], result, combine);
        ResolutionSnoc(this, occ, before, hs, outcomes, o, occ[i].health, combine);
        hs := hs[i := occ[i].health];
        AllAllowedAppend(outcomes, o);
        result := result && !(o.BlockInteracted? && !o.allowed);
        outcomes := outcomes + [o];
      }
      assert occ[..|occ|] == occ && before[..|occ|] == before && hs[..|occ|] == hs;
      assert Healths(occ) == hs;
    }

    /** move: the creature enters the cell at `pos + dir` if the occupants let it; then the grid
        refiles it and drops the creatures it killed there. A veto changes neither. */
    method Move(dir: Vec2, combine: CollisionRule) returns (moved: bool, outcomes: seq<Interaction>)
      requires IsCreature(kind) && grid != null
      requires Distinct(grid.Get(Plus(pos, dir)))
      modifies this`pos, grid, grid.Get(Plus(pos, dir))`health
      ensures Resolution(this, old(grid.Get(Plus(pos, dir))), old(Healths(grid.Get(Plus(pos, dir)))),
                         Healths(old(grid.Get(Plus(pos, dir)))), outcomes, combine)
      ensures moved <==> AllAllowed(outcomes)
      ensures moved ==> pos == Plus(old(pos), dir) && grid.cells == AfterMove(old(grid.cells), this, old(pos), pos)
      ensures !moved ==> pos == old(pos) && grid.cells == old(grid.cells)
    {
      var occ := grid.Get(Plus(pos, dir));
      moved, outcomes := ResolveCollision(occ, combine);
      if moved {
        Step(dir);
      }
    }

    /** The allowed half of move: the creature steps by `dir`, and the grid refiles it and drops
        the dead creatures from its new cell. */
    method Step(dir: Vec2)
      requires grid != null
      modifies this`pos, grid
      ensures pos == Plus(old(pos), dir)
      ensures grid.cells == AfterMove(old(grid.cells), this, old(pos), pos)
    {
      var oldPos := pos;
      pos := Plus(pos, dir);
      grid.Relocate(this, oldPos);
      grid.FilterDead(pos);
    }

    /** moveTo: one step towards `target` along the sign of the difference. */
    method MoveTo(target: Vec2, combine: CollisionRule) returns (moved: bool, outcomes: seq<Interaction>)
      requires IsCreature(kind) && grid != null
      requires Distinct(grid.Get(Plus(pos, ResolveDirection(pos, target))))
      modifies this`pos, grid, grid.Get(Plus(pos, ResolveDirection(pos, target)))`health
      ensures var occ := old(grid.Get(Plus(pos, ResolveDirection(pos, target))));
              Resolution(this, occ, old(Healths(occ)), Healths(occ), outcomes, combine)
      ensures moved <==> AllAllowed(outcomes)
      ensures moved ==> pos == Plus(old(pos), ResolveDirection(old(pos), target))
      ensures moved ==> grid.cells == AfterMove(old(grid.cells), this, old(pos), pos)
      ensures moved && old(pos) != target ==> Distance(pos, target) < Distance(old(pos), target)
      ensures !moved ==> pos == old(pos) && grid.cells == old(grid.cells)
    {
      moved, outcomes := Move(ResolveDirection(pos, target), combine);
    }
  }

  /** resolveDirection: the sign-normalised difference, a step that never moves away from the target. */
  function ResolveDirection(pos: Vec2, target: Vec2): (d: Vec2)
    ensures -1 <= d.x <= 1 && -1 <= d.y <= 1
    ensures Distance(Plus(pos, d), target) == Distance(pos, target) - (Abs(d.x) + Abs(d.y))
    ensures pos != target ==> Distance(Plus(pos, d), target) < Distance(pos, target)
    ensures (d.x > 0 <==> target.x > pos.x) && (d.x < 0 <==> target.x < pos.x)
    ensures (d.y > 0 <==> target.y > pos.y) && (d.y < 0 <==> target.y < pos.y)
  {
    NormalizedStepApproaches(pos, target);
    Normalize(Minus(target, pos))
  }

  // ---------------------------------------------------------------------------
  // The game loop
  // ---------------------------------------------------------------------------

  function Positions(s: seq<Actor>): (ps: seq<Vec2>)
    reads s`pos
    ensures |ps| == |s| && forall i :: 0 <= i < |s| ==> ps[i] == s[i].pos
  {
    if s == [] then [] else [s[0].pos] + Positions(s[1..])
  }

  /** The cells after removing `ds[i]` from the cell `ps[i]`, for each `i` in order. */
  function RemoveAll(cells: Cells, ds: seq<Actor>, ps: seq<Vec2>): Cells
    requires |ds| == |ps|
  {
    if ds == [] then cells
    else Removed(RemoveAll(cells, ds[..|ds| - 1], ps[..|ps| - 1]), ds[|ds| - 1], ps[|ps| - 1])
  }

  /** The cells after appending `ss[i]` to the cell `ps[i]`, for each `i` in order. */
  function AddAll(cells: Cells, ss: seq<Actor>, ps: seq<Vec2>): Cells
    requires |ss| == |ps|
  {
    if ss == [] then cells
    else Added(AddAll(cells, ss[..|ss| - 1], ps[..|ps| - 1]), ss[|ss| - 1], ps[|ps| - 1])
  }

  /** Unfolding one more request at the end of a prefix. */
  lemma RemoveAllSnoc(cells: Cells, ds: seq<Actor>, ps: seq<Vec2>, i: nat)
    requires |ds| == |ps| && i < |ds|
    ensures RemoveAll(cells, ds[..i + 1], ps[..i + 1]) == Removed(RemoveAll(cells, ds[..i], ps[..i]), ds[i], ps[i])
  {
    assert ds[..i + 1][..i] == ds[..i];
    assert ps[..i + 1][..i] == ps[..i];
  }

  lemma AddAllSnoc(cells: Cells, ss: seq<Actor>, ps: seq<Vec2>, i: nat)
    requires |ss| == |ps| && i < |ss|
    ensures AddAll(cells, ss[..i + 1], ps[..i + 1]) == Added(AddAll(cells, ss[..i], ps[..i]), ss[i], ps[i])
  {
    assert ss[..i + 1][..i] == ss[..i];
    assert ps[..i + 1][..i] == ps[..i];
  }

  /** Every destroyed actor is gone from the cell it was removed from. */
  lemma {:induction false} RemoveAllAbsent(cells: Cells, ds: seq<Actor>, ps: seq<Vec2>, k: nat)
    requires |ds| == |ps| && k < |ds|
    ensures ds[k] !in CellAt(RemoveAll(cells, ds, ps), ps[k])
  {
    var n := |ds| - 1;
    if k < n {
      RemoveAllAbsent(cells, ds[..n], ps[..n], k);
    }
  }

  /** Removing never adds: a cell after the removals holds only actors it held before. */
  lemma {:induction false} RemoveAllShrinks(cells: Cells, ds: seq<Actor>, ps: seq<Vec2>, p: Vec2, a: Actor)
    requires |ds| == |ps|
    requires a in CellAt(RemoveAll(cells, ds, ps), p)
    ensures a in CellAt(cells, p)
  {
    if ds != [] {
      var n := |ds| - 1;
      RemoveAllShrinks(cells, ds[..n], ps[..n], p, a);
    }
  }

  /** Every spawned actor stands in the cell it was added to. */
  lemma {:induction false} AddAllPresent(cells: Cells, ss: seq<Actor>, ps: seq<Vec2>, k: nat)
    requires |ss| == |ps| && k < |ss|
    ensures ss[k] in CellAt(AddAll(cells, ss, ps), ps[k])
  {
    var n := |ss| - 1;
    if k < n {
      AddAllPresent(cells, ss[..n], ps[..n], k);
    }
  }

  /** Adding only appends: what a cell held before is still there, in front. */
  lemma {:induction false} AddAllKeeps(cells: Cells, ss: seq<Actor>, ps: seq<Vec2>, p: Vec2)
    requires |ss| == |ps|
    ensures CellAt(cells, p) <= CellAt(AddAll(cells, ss, ps), p)
    ensures forall a :: a in CellAt(cells, p) ==> a in CellAt(AddAll(cells, ss, ps), p)
  {
    if ss != [] {
      var n := |ss| - 1;
      AddAllKeeps(cells, ss[..n], ps[..n], p);
    }
  }

  /** A cell that no request names is left as it was. */
  lemma {:induction false} TickLeavesOtherCells(cells: Cells, ds: seq<Actor>, dps: seq<Vec2>,
                                                ss: seq<Actor>, sps: seq<Vec2>, p: Vec2)
    requires |ds| == |dps| && |ss| == |sps|
    requires p !in dps && p !in sps
    ensures CellAt(AddAll(RemoveAll(cells, ds, dps), ss, sps), p) == CellAt(cells, p)
  {
    if ss != [] {
      var n := |ss| - 1;
      assert p !in sps[..n];
      TickLeavesOtherCells(cells, ds, dps, ss[..n], sps[..n], p);
    } else if ds != [] {
      var n := |ds| - 1;
      assert p !in dps[..n];
      TickLeavesOtherCells(cells, ds[..n], dps[..n], [], [], p);
    }
  }

  /** The actor has begun the game `g`: alive, attached to `g`, with a live tick registration. */
  predicate Begun(a: Actor, g: Game)
    reads a, a.eventTick
  {
    a.alive && a.game == g && a.eventTick != null && !a.eventTick.finished
  }

  /** The game: a tick counter and the deferred destroy and spawn queues over one map's grid. */
  class Game {
    const grid: Grid
    var tickTime: int
    var actorsToDestroy: seq<Actor>
    var actorsToSpawn: seq<Actor>
    var eventsRegistrations: seq<Registration>

    constructor (grid: Grid)
      ensures this.grid == grid && tickTime == 0
      ensures actorsToDestroy == [] && actorsToSpawn == [] && eventsRegistrations == []
    {
      this.grid := grid;
      tickTime := 0;
      actorsToDestroy := [];
      actorsToSpawn := [];
      eventsRegistrations := [];
    }

    /** A destroy event reaches the game's queue once per live destroy handler the game registered. */
    method PublishDestroy(a: Actor)
      modifies this`actorsToDestroy
      ensures actorsToDestroy == old(actorsToDestroy) + Copies(a, LiveCount(eventsRegistrations, DestroyActorChannel))
    {
      var i := 0;
      while i < |eventsRegistrations|
        invariant 0 <= i <= |eventsRegistrations|
        invariant actorsToDestroy
                  == old(actorsToDestroy) + Copies(a, LiveCount(eventsRegistrations[..i], DestroyActorChannel))
      {
        var r := eventsRegistrations[i];
        if r.channel == DestroyActorChannel && !r.finished {
          actorsToDestroy := actorsToDestroy + [a];
        }
        assert eventsRegistrations[..i + 1][..i] == eventsRegistrations[..i];
        i := i + 1;
      }
      assert eventsRegistrations[..i] == eventsRegistrations;
    }

    /** A spawn event reaches the game's queue once per live spawn handler the game registered. */
    method PublishSpawn(a: Actor)
      modifies this`actorsToSpawn
      ensures actorsToSpawn == old(actorsToSpawn) + Copies(a, LiveCount(eventsRegistrations, SpawnActorChannel))
    {
      var i := 0;
      while i < |eventsRegistrations|
        invariant 0 <= i <= |eventsRegistrations|
        invariant actorsToSpawn
                  == old(actorsToSpawn) + Copies(a, LiveCount(eventsRegistrations[..i], SpawnActorChannel))
      {
        var r := eventsRegistrations[i];
        if r.channel == SpawnActorChannel && !r.finished {
          actorsToSpawn := actorsToSpawn + [a];
        }
        assert eventsRegistrations[..i + 1][..i] == eventsRegistrations[..i];
        i := i + 1;
      }
      assert eventsRegistrations[..i] == eventsRegistrations;
    }

    /** destroyActors: every queued actor is removed from the grid, then the queue is cleared. */
    method DestroyActors()
      modifies this`actorsToDestroy, grid
      ensures grid.cells == RemoveAll(old(grid.cells), old(actorsToDestroy), old(Positions(actorsToDestroy)))
      ensures actorsToDestroy == []
    {
      var ds := actorsToDestroy;
      ghost var ps := Positions(ds);
      ghost var c0 := grid.cells;
      for i := 0 to |ds|
        invariant grid.cells == RemoveAll(c0, ds[..i], ps[..i])
      {
        assert ds[i].pos == ps[i];
        grid.Remove(ds[i]);
        RemoveAllSnoc(c0, ds, ps, i);
      }
      assert ds[..|ds|] == ds;
      assert ps[..|ps|] == ps;
      actorsToDestroy := [];
    }

    /** One turn of spawnActors' loop: the `i`-th queued actor goes on the grid and begins the game,
        and the actors before it stay begun. */
    method Enter(a: Actor, ss: seq<Actor>, i: nat)
      requires i < |ss| && ss[i] == a
      requires forall j :: 0 <= j < i ==> Begun(ss[j], this)
      modifies grid, a`game, a`eventTick, a`alive
      ensures grid.cells == Added(old(grid.cells), a, a.pos)
      ensures forall j :: 0 <= j <= i ==> Begun(ss[j], this)
      ensures fresh(a.eventTick)
    {
      grid.Add(a);
      a.OnBeginGame(this);
    }

    /** The loop of spawnActors: each actor in turn goes on the grid and begins the game. */
    method EnterAll(ss: seq<Actor>)
      modifies grid, ss`game, ss`eventTick, ss`alive
      ensures grid.cells == AddAll(old(grid.cells), ss, old(Positions(ss)))
      ensures forall a :: a in ss ==> Begun(a, this)
    {
      ghost var ps := Positions(ss);
      ghost var c0 := grid.cells;
      for i := 0 to |ss|
        invariant grid.cells == AddAll(c0, ss[..i], ps[..i])
        invariant forall j :: 0 <= j < i ==> Begun(ss[j], this)
        invariant forall j :: 0 <= j < |ss| ==> allocated(ss[j])
      {
        assert ss[i].pos == ps[i];
        Enter(ss[i], ss, i);
        AddAllSnoc(c0, ss, ps, i);
      }
      assert ss[..|ss|] == ss;
      assert ps[..|ps|] == ps;
    }

    /** spawnActors: every queued actor is added to the grid and begins the game, then the queue is cleared. */
    method SpawnActors()
      modifies this`actorsToSpawn, grid, actorsToSpawn`game, actorsToSpawn`eventTick, actorsToSpawn`alive
      ensures grid.cells == AddAll(old(grid.cells), old(actorsToSpawn), old(Positions(actorsToSpawn)))
      ensures forall a :: a in old(actorsToSpawn) ==> Begun(a, this)
      ensures actorsToSpawn == []
    {
      EnterAll(actorsToSpawn);
      actorsToSpawn := [];
    }

    /** onTick: the clock advances by one, then the pending destroys are applied, then the pending spawns. */
    method OnTick()
      modifies this`tickTime, this`actorsToDestroy, this`actorsToSpawn, grid, actorsToSpawn`game, actorsToSpawn`eventTick, actorsToSpawn`alive
      ensures tickTime == old(tickTime) + 1
      ensures grid.cells == AddAll(RemoveAll(old(grid.cells), old(actorsToDestroy), old(Positions(actorsToDestroy))),
                                   old(actorsToSpawn), old(Positions(actorsToSpawn)))
      ensures forall a :: a in old(actorsToSpawn) ==> Begun(a, this)
      ensures actorsToDestroy == [] && actorsToSpawn == []
    {
      ghost var c0, ds, dps := grid.cells, actorsToDestroy, Positions(actorsToDestroy);
      ghost var ss, sps := actorsToSpawn, Positions(actorsToSpawn);
      tickTime := tickTime + 1;
      DestroyActors();
      ghost var removed := grid.cells;
      assert removed == RemoveAll(c0, ds, dps);
      assert actorsToSpawn == ss;
      assert Positions(ss) == sps;
      SpawnActors();
      assert grid.cells == AddAll(removed, ss, sps);
    }

    /** startGame: subscribes the destroy and spawn handlers, begins the game for every actor
        already on the grid, then subscribes the tick handler. */
    method StartGame()
      modifies this`eventsRegistrations, grid.Actors()`game, grid.Actors()`eventTick, grid.Actors()`alive
      ensures |eventsRegistrations| == |old(eventsRegistrations)| + 3
      ensures eventsRegistrations[..|old(eventsRegistrations)|] == old(eventsRegistrations)
      ensures var n := |old(eventsRegistrations)|;
              && eventsRegistrations[n].channel == DestroyActorChannel
              && eventsRegistrations[n + 1].channel == SpawnActorChannel
              && eventsRegistrations[n + 2].channel == TickChannel(BeforeDrawUi)
      ensures forall i :: |old(eventsRegistrations)| <= i < |eventsRegistrations| ==>
        fresh(eventsRegistrations[i]) && !eventsRegistrations[i].finished
      ensures forall a :: a in old(grid.Actors()) ==> Begun(a, this) && fresh(a.eventTick)
    {
      var onDestroy := new Registration(DestroyActorChannel);
      var onSpawn := new Registration(SpawnActorChannel);
      eventsRegistrations := eventsRegistrations + [onDestroy, onSpawn];
      var todo := grid.Actors();
      ghost var done: set<Actor> := {};
      while todo != {}
        invariant eventsRegistrations == old(eventsRegistrations) + [onDestroy, onSpawn]
        invariant todo + done == old(grid.Actors()) && todo !! done
        invariant forall a :: a in done ==> Begun(a, this) && fresh(a.eventTick)
        invariant !onDestroy.finished && !onSpawn.finished
        decreases todo
      {
        var a :| a in todo;
        a.OnBeginGame(this);
        todo := todo - {a};
        done := done + {a};
      }
      var onTick := new Registration(TickChannel(BeforeDrawUi));
      eventsRegistrations := eventsRegistrations + [onTick];
    }

    /** endGame: finishes every registration the game recorded. */
    method EndGame()
      modifies eventsRegistrations
      ensures forall r :: r in eventsRegistrations ==> r.finished
    {
      for i := 0 to |eventsRegistrations|
        invariant forall j :: 0 <= j < i ==> eventsRegistrations[j].finished
      {
        eventsRegistrations[i].Finish();
      }
    }
  }
}
