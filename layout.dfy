/**
 * The size arithmetic of a sequential (horizontal or vertical) layout: which children
 * are laid out, how much of the main axis they take, and how the space left over is
 * shared among the children that fill.
 */
module Layout {

  /** How a child takes space on the main axis: its own initial size, or a share of what is left. */
  datatype SlotSize = Constant | Fill

  /** The main axis of a layout; the direction controller picks the width or the height by it. */
  datatype Axis = Horizontal | Vertical

  /** A child as far as sizing sees it: the padding of its slot on each axis, its slot's
      size mode and its view's initial size. */
  datatype Child = Child(padHorizontal: int, padVertical: int, size: SlotSize, initWidth: int, initHeight: int)

  /** The request handed to the controller's resizeChildren: the laid-out index range
      (empty when `first > last`), the size of every filling child, and how many of them
      get one extra unit. */
  datatype ResizeRequest = ResizeRequest(first: int, last: int, fillChildSize: int, fatChildrenCount: int)

  const IntMax: int := 0x7fff_ffff

  /** chooseDimension: the main-axis one of two sizes. */
  function ChooseDimension(axis: Axis, width: int, height: int): int {
    match axis
    case Horizontal => width
    case Vertical => height
  }

  function Max(a: int, b: int): (r: int)
    ensures r >= a && r >= b && (r == a || r == b)
  {
    if a >= b then a else b
  }

  function Min(a: int, b: int): (r: int)
    ensures r <= a && r <= b && (r == a || r == b)
  {
    if a <= b then a else b
  }

  /** The main-axis padding summed over a sequence of children. */
  function PaddingSum(axis: Axis, cs: seq<Child>): int {
    if cs == [] then 0
    else
      var c := cs[|cs| - 1];
      PaddingSum(axis, cs[..|cs| - 1]) + ChooseDimension(axis, c.padHorizontal, c.padVertical)
  }

  /** The main-axis initial size summed over the children of constant size only. */
  function ConstantSum(axis: Axis, cs: seq<Child>): int {
    if cs == [] then 0
    else
      var c := cs[|cs| - 1];
      ConstantSum(axis, cs[..|cs| - 1])
      + (if c.size == Constant then ChooseDimension(axis, c.initWidth, c.initHeight) else 0)
  }

  /** The number of filling children. */
  function FillCount(cs: seq<Child>): (n: nat)
    ensures n <= |cs|
  {
    if cs == [] then 0
    else
      var n := FillCount(cs[..|cs| - 1]);
      if cs[|cs| - 1].size == Fill then n + 1 else n
  }

  /** There are no filling children exactly when every child has a constant size. */
  lemma {:induction false} NoFillIffAllConstant(cs: seq<Child>)
    ensures FillCount(cs) == 0 <==> forall k :: 0 <= k < |cs| ==> cs[k].size == Constant
  {
    if cs != [] {
      var cs' := cs[..|cs| - 1];
      assert forall k :: 0 <= k < |cs'| ==> cs'[k] == cs[k];
      NoFillIffAllConstant(cs');
    }
  }

  /** The space the children claim before any filling: all padding, plus the constant children. */
  function Known(axis: Axis, cs: seq<Child>): int {
    PaddingSum(axis, cs) + ConstantSum(axis, cs)
  }

  /** Children side by side claim the sum of what each group claims. */
  lemma {:induction false} KnownAdditive(axis: Axis, a: seq<Child>, b: seq<Child>)
    ensures Known(axis, a + b) == Known(axis, a) + Known(axis, b)
    ensures FillCount(a + b) == FillCount(a) + FillCount(b)
    decreases |b|
  {
    if b != [] {
      var b' := b[..|b| - 1];
      assert (a + b)[..|a + b| - 1] == a + b';
      KnownAdditive(axis, a, b');
    } else {
      assert a + b == a;
    }
  }

  /** A filling child's own size never counts: when every child fills, only the padding is known. */
  lemma {:induction false} AllFillKnowsPadding(axis: Axis, cs: seq<Child>)
    requires forall k :: 0 <= k < |cs| ==> cs[k].size == Fill
    ensures Known(axis, cs) == PaddingSum(axis, cs)
    ensures FillCount(cs) == |cs|
  {
    if cs != [] {
      var cs' := cs[..|cs| - 1];
      assert forall k :: 0 <= k < |cs'| ==> cs'[k] == cs[k];
      AllFillKnowsPadding(axis, cs');
    }
  }

  /** The final arithmetic of updateSize: what is left of the main size, never negative, split as
      evenly as integers allow among `k` filling children. */
  function Distribute(mainSize: int, known: int, k: nat): (r: (int, int))
    ensures var retained := Max(mainSize - known, 0);
            k > 0 ==> r.0 >= 0 && r.0 * k + r.1 == retained && 0 <= r.1 < k
    ensures k == 0 ==> r == (0, 0)
  {
    var retainedSize := Max(mainSize - known, 0);
    if k == 0 then (0, 0) else (retainedSize / k, retainedSize % k)
  }

  /** The part of the layout's state sizing works on, with the direction controller's own copy
      of the size. */
  class SequenceLayout {
    const axis: Axis
    var width: int
    var height: int
    var children: seq<Child>
    var limitsFirst: int
    var limitsLast: int
    var controllerWidth: int
    var controllerHeight: int

    constructor (axis: Axis, width: int, height: int)
      ensures this.axis == axis && this.width == width && this.height == height
      ensures children == [] && limitsFirst == 0 && limitsLast == IntMax
    {
      this.axis := axis;
      this.width := width;
      this.height := height;
      children := [];
      limitsFirst := 0;
      limitsLast := IntMax;
    }

    /** An index of a child within the limits. */
    predicate Shown(i: int)
      reads this
    {
      0 <= i < |children| && limitsFirst <= i <= limitsLast
    }

    /** range: the indices laid out, from `lo` to `hi` inclusive; an index is in it exactly when it
        is a child's index and within the limits. */
    function Range(): (r: (int, int))
      reads this
      ensures forall i :: r.0 <= i <= r.1 <==> Shown(i)
      ensures r.0 >= 0 && r.1 < |children|
    {
      (Max(0, limitsFirst), Min(|children| - 1, limitsLast))
    }

    /** The children within the range, in order. */
    function Laid(): (cs: seq<Child>)
      reads this
      ensures var (lo, hi) := Range();
              && |cs| == Max(hi - lo + 1, 0)
              && forall k :: 0 <= k < |cs| ==> cs[k] == children[lo + k]
    {
      var (lo, hi) := Range();
      if lo <= hi then children[lo..hi + 1] else []
    }

    function MainSize(): int
      reads this
    {
      ChooseDimension(axis, width, height)
    }

    /** addChild: the new child goes at the end, and nothing else changes. */
    method AddChild(c: Child)
      modifies this`children
      ensures children == old(children) + [c]
    {
      children := children + [c];
    }

    /** limits is a public property; setting it changes only it. */
    method SetLimits(first: int, last: int)
      modifies this`limitsFirst, this`limitsLast
      ensures limitsFirst == first && limitsLast == last
    {
      limitsFirst := first;
      limitsLast := last;
    }

    /** Whether the controller sizes by the layout's own size. */
    predicate ControllerAgrees()
      reads this
    {
      controllerWidth == width && controllerHeight == height
    }

    /** setSize: the layout and its controller take the new size. */
    method SetSize(w: int, h: int)
      modifies this`width, this`height, this`controllerWidth, this`controllerHeight
      ensures width == w && height == h && ControllerAgrees()
    {
      width := w;
      height := h;
      controllerWidth := w;
      controllerHeight := h;
    }

    /**
     * updateSize: sums the known size and counts the filling children over the range, then
     * splits what is left of the main size. The request is what the controller is asked to
     * apply; the layout itself is left as it was.
     */
    method UpdateSize() returns (req: ResizeRequest)
      ensures (req.first, req.last) == Range()
      ensures var cs := Laid();
              var k := FillCount(cs);
              var retained := Max(MainSize() - Known(axis, cs), 0);
              && (k > 0 ==> req.fillChildSize * k + req.fatChildrenCount == retained
                            && 0 <= req.fatChildrenCount < k && req.fillChildSize >= 0)
              && (k == 0 ==> req.fillChildSize == 0 && req.fatChildrenCount == 0)
    {
      var knownSize := 0;
      var fillChildCount := 0;
      var (lo, hi) := Range();
      var cs := Laid();
      for j := 0 to |cs|
        invariant knownSize == Known(axis, cs[..j])
        invariant fillChildCount == FillCount(cs[..j])
      {
        var child := children[lo + j];
        assert cs[..j + 1] == cs[..j] + [child];
        KnownAdditive(axis, cs[..j], [child]);
        knownSize := knownSize + ChooseDimension(axis, child.padHorizontal, child.padVertical);
        match child.size {
          case Constant =>
            knownSize := knownSize + ChooseDimension(axis, child.initWidth, child.initHeight);
          case Fill =>
            fillChildCount := fillChildCount + 1;
        }
      }
      assert cs[..|cs|] == cs;
      var mainSize := ChooseDimension(axis, width, height);
      var (fillChildSize, fatChildrenCount) := Distribute(mainSize, knownSize, fillChildCount);
      req := ResizeRequest(lo, hi, fillChildSize, fatChildrenCount);
    }
  }
}
