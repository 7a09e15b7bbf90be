/** Integer plane geometry: points, Manhattan distance, sign normalisation, clamping. */
module Geometry {

  /** A point (or a displacement) on the integer grid. Equality is by coordinates. */
  datatype Vec2 = Vec2(x: int, y: int)

  /** A rectangle given by its top-left corner `a` and its bottom-right corner `b`. */
  datatype Borders = Borders(a: Vec2, b: Vec2)

  /** The point built by the no-argument constructor. */
  const Origin := Vec2(0, 0)

  function Abs(n: int): (r: nat)
    ensures r == n || r == -n
  {
    if n < 0 then -n else n
  }

  /** Integer.signum. */
  function Sign(n: int): (r: int)
    ensures -1 <= r <= 1
    ensures r > 0 <==> n > 0
    ensures r < 0 <==> n < 0
    ensures r * n == Abs(n)
  {
    if n > 0 then 1 else if n < 0 then -1 else 0
  }

  /** isZero: the point is the origin. */
  predicate IsZero(v: Vec2): (r: bool)
    ensures r <==> v == Origin
  {
    v.x == 0 && v.y == 0
  }

  function Neg(v: Vec2): (r: Vec2)
    ensures Plus(v, r) == Origin
  {
    Vec2(-v.x, -v.y)
  }

  function Plus(v: Vec2, w: Vec2): Vec2 {
    Vec2(v.x + w.x, v.y + w.y)
  }

  /** plus displaces a point by exactly the length of `w`, and leaves it in place exactly for a
      zero displacement. */
  lemma PlusDisplaces(v: Vec2, w: Vec2)
    ensures Distance(v, Plus(v, w)) == Abs(w.x) + Abs(w.y)
    ensures Plus(v, w) == v <==> IsZero(w)
  {
  }

  function Minus(v: Vec2, w: Vec2): (r: Vec2)
    ensures Plus(r, w) == v
  {
    Vec2(v.x - w.x, v.y - w.y)
  }

  /** Adding a displacement and subtracting it again gives the point back. */
  lemma PlusMinus(v: Vec2, w: Vec2)
    ensures Minus(Plus(v, w), w) == v
  {
  }

  lemma NegNeg(v: Vec2)
    ensures Neg(Neg(v)) == v
  {
  }

  /** Componentwise maximum: an upper bound of both arguments made of their coordinates. */
  function MixMax(v: Vec2, w: Vec2): (r: Vec2)
    ensures r.x >= v.x && r.x >= w.x && (r.x == v.x || r.x == w.x)
    ensures r.y >= v.y && r.y >= w.y && (r.y == v.y || r.y == w.y)
  {
    Vec2(if v.x >= w.x then v.x else w.x, if v.y >= w.y then v.y else w.y)
  }

  /** Componentwise minimum: a lower bound of both arguments made of their coordinates. */
  function MixMin(v: Vec2, w: Vec2): (r: Vec2)
    ensures r.x <= v.x && r.x <= w.x && (r.x == v.x || r.x == w.x)
    ensures r.y <= v.y && r.y <= w.y && (r.y == v.y || r.y == w.y)
  {
    Vec2(if v.x <= w.x then v.x else w.x, if v.y <= w.y then v.y else w.y)
  }

  /** Manhattan distance. */
  function Distance(v: Vec2, w: Vec2): (r: nat)
    ensures r == 0 <==> v == w
    ensures r >= Abs(w.x - v.x) && r >= Abs(w.y - v.y)
  {
    Abs(w.x - v.x) + Abs(w.y - v.y)
  }

  lemma DistanceSymmetric(v: Vec2, w: Vec2)
    ensures Distance(v, w) == Distance(w, v)
  {
  }

  lemma DistanceTriangle(u: Vec2, v: Vec2, w: Vec2)
    ensures Distance(u, w) <= Distance(u, v) + Distance(v, w)
  {
  }

  /** Two cells are 4-adjacent when they are one unit step apart. */
  predicate Adjacent(v: Vec2, w: Vec2) {
    Distance(v, w) == 1
  }

  /** Each coordinate replaced by its sign. */
  function Normalize(v: Vec2): (r: Vec2)
    ensures -1 <= r.x <= 1 && -1 <= r.y <= 1
    ensures (r.x > 0 <==> v.x > 0) && (r.x < 0 <==> v.x < 0)
    ensures (r.y > 0 <==> v.y > 0) && (r.y < 0 <==> v.y < 0)
    ensures IsZero(r) <==> IsZero(v)
  {
    Vec2(Sign(v.x), Sign(v.y))
  }

  /** Stepping from `p` by the normalised difference towards `t` brings it closer
      by one unit for every coordinate in which the two differ. */
  lemma {:induction false} NormalizedStepApproaches(p: Vec2, t: Vec2)
    ensures var d := Normalize(Minus(t, p));
            Distance(Plus(p, d), t) == Distance(p, t) - (Abs(d.x) + Abs(d.y))
    ensures p != t ==> Distance(Plus(p, Normalize(Minus(t, p))), t) < Distance(p, t)
  {
    var d := Normalize(Minus(t, p));
    assert Abs(t.x - (p.x + d.x)) == Abs(t.x - p.x) - Abs(d.x);
    assert Abs(t.y - (p.y + d.y)) == Abs(t.y - p.y) - Abs(d.y);
  }

  /** MyMath.clamp: `x` forced into `[lo, hi]`. */
  function Clamp(x: int, lo: int, hi: int): (r: int)
    ensures lo <= hi ==> lo <= r <= hi
    ensures lo <= x <= hi ==> r == x
    ensures lo <= hi && x < lo ==> r == lo
    ensures lo <= hi && x > hi ==> r == hi
  {
    if x < lo then lo else if x > hi then hi else x
  }

  /** The borders enclose at least one cell when the far corner is excluded. */
  predicate NonEmpty(bs: Borders) {
    bs.a.x <= bs.b.x - 1 && bs.a.y <= bs.b.y - 1
  }

  predicate Inside(v: Vec2, bs: Borders) {
    bs.a.x <= v.x < bs.b.x && bs.a.y <= v.y < bs.b.y
  }

  predicate InsideIncluded(v: Vec2, bs: Borders) {
    bs.a.x <= v.x <= bs.b.x && bs.a.y <= v.y <= bs.b.y
  }

  /** Fits a point into the borders with the far corner excluded. */
  function FitIn(v: Vec2, bs: Borders): (r: Vec2)
    ensures NonEmpty(bs) ==> Inside(r, bs)
    ensures Inside(v, bs) ==> r == v
  {
    Vec2(Clamp(v.x, bs.a.x, bs.b.x - 1), Clamp(v.y, bs.a.y, bs.b.y - 1))
  }

  lemma FitInIdempotent(v: Vec2, bs: Borders)
    requires NonEmpty(bs)
    ensures FitIn(FitIn(v, bs), bs) == FitIn(v, bs)
  {
  }

  /** Fits a point into the borders with the far corner included. */
  function FitInIncluded(v: Vec2, bs: Borders): (r: Vec2)
    ensures bs.a.x <= bs.b.x && bs.a.y <= bs.b.y ==> InsideIncluded(r, bs)
    ensures InsideIncluded(v, bs) ==> r == v
  {
    Vec2(Clamp(v.x, bs.a.x, bs.b.x), Clamp(v.y, bs.a.y, bs.b.y))
  }

  const TwoTo32: int := 0x1_0000_0000

  /** Reduction of an integer into the range of a signed 32-bit Int (two's complement wrap-around). */
  function Wrap32(n: int): (r: int)
    ensures -0x8000_0000 <= r < 0x8000_0000
    ensures (r - n) % TwoTo32 == 0
  {
    var m := n % TwoTo32;
    if m >= 0x8000_0000 then m - TwoTo32 else m
  }

  /** hashCode: `0xffff * x + y` evaluated in 32-bit arithmetic. */
  function Hash(v: Vec2): (r: int)
    ensures -0x8000_0000 <= r < 0x8000_0000
    ensures (r - (0xffff * v.x + v.y)) % TwoTo32 == 0
  {
    Wrap32(0xffff * v.x + v.y)
  }

  /**
   * hashCode agrees with equality: points equal by coordinates hash alike. This follows from
   * the hash being a function of the two coordinates alone; the lemma records the promise and
   * proves nothing beyond that.
   */
  lemma HashRespectsEquality(v: Vec2, w: Vec2)
    requires v.x == w.x && v.y == w.y
    ensures Hash(v) == Hash(w)
  {
  }
}
