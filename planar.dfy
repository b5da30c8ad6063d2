/** Points, half-planes, the orientation test `ccw` and the line
    intersection `intersection` of plots/plot_convex_set_2.py, over exact
    reals. */
module Planar {
  import opened Wrappers

  /** A point or a 2-vector; `x` and `y` are the entries `[0]` and `[1]`. */
  datatype Point = Point(x: real, y: real)

  /** The constraint `normal . p <= offset`, read as the line
      `normal . p == offset` when two of them are intersected. */
  datatype HalfPlane = HalfPlane(normal: Point, offset: real)

  /** Determinants at most this large in magnitude count as zero. */
  const EPSILON: real := 1.0 / 1000000.0

  function Dot(u: Point, v: Point): real {
    u.x * v.x + u.y * v.y
  }

  function Abs(r: real): real {
    if r < 0.0 then -r else r
  }

  predicate OnLine(h: HalfPlane, p: Point) {
    Dot(h.normal, p) == h.offset
  }

  // ---------------------------------------------------------------------------
  // Orientation

  /** `ccw(A, B, C)`: the strict cross-product sign test, exactly as written.
      Only a triangle with three distinct corners can pass it. */
  predicate Ccw(a: Point, b: Point, c: Point)
    ensures Ccw(a, b, c) ==> a != b && b != c && c != a
  {
    (c.y - a.y) * (b.x - a.x) > (b.y - a.y) * (c.x - a.x)
  }

  /** Twice the signed area of the triangle a, b, c. */
  function Cross(a: Point, b: Point, c: Point): real {
    (b.x - a.x) * (c.y - a.y) - (b.y - a.y) * (c.x - a.x)
  }

  /** The test is a sign test on the signed area: true iff c is strictly to
      the left of the directed line from a to b. */
  lemma CcwIsPositiveArea(a: Point, b: Point, c: Point)
    ensures Ccw(a, b, c) <==> Cross(a, b, c) > 0.0
    ensures Ccw(a, c, b) <==> Cross(a, b, c) < 0.0
  {
    assert (c.y - a.y) * (b.x - a.x) == (b.x - a.x) * (c.y - a.y);
    assert (b.y - a.y) * (c.x - a.x) == (c.x - a.x) * (b.y - a.y);
  }

  /** Swapping the last two points never leaves both orders counter-clockwise. */
  lemma CcwAsymmetric(a: Point, b: Point, c: Point)
    ensures !(Ccw(a, b, c) && Ccw(a, c, b))
  {
  }

  /** For a point c on the line through a and b, neither order is
      counter-clockwise. */
  lemma CcwCollinear(a: Point, b: Point, t: real)
    ensures var c := Point(a.x + t * (b.x - a.x), a.y + t * (b.y - a.y));
            !Ccw(a, b, c) && !Ccw(a, c, b)
  {
    var c := Point(a.x + t * (b.x - a.x), a.y + t * (b.y - a.y));
    var u, v := b.x - a.x, b.y - a.y;
    assert c.x - a.x == t * u && c.y - a.y == t * v;
    assert (t * v) * u == (v * t) * u == v * (t * u);
    CcwIsPositiveArea(a, b, c);
  }

  /** The orientation of a triangle does not depend on which vertex is
      named first. */
  lemma CcwRotate(a: Point, b: Point, c: Point)
    ensures Ccw(a, b, c) == Ccw(b, c, a)
  {
    CcwIsPositiveArea(a, b, c);
    CcwIsPositiveArea(b, c, a);
    assert Cross(a, b, c) == Cross(b, c, a) by {
      assert Cross(a, b, c) == b.x * c.y - b.x * a.y - a.x * c.y - b.y * c.x + b.y * a.x + a.y * c.x;
      assert Cross(b, c, a) == c.x * a.y - c.x * b.y - b.x * a.y - c.y * a.x + c.y * b.x + b.y * a.x;
    }
  }

  // ---------------------------------------------------------------------------
  // Intersection of two lines

  /** `det(A)` for the matrix whose rows are n1 and n2: zero when the rows
      are equal, and non-zero only when neither row is zero. */
  function Det(n1: Point, n2: Point): (d: real)
    ensures n1 == n2 ==> d == 0.0
    ensures d != 0.0 ==> n1 != Point(0.0, 0.0) && n2 != Point(0.0, 0.0)
  {
    n1.x * n2.y - n1.y * n2.x
  }

  /** Cramer's rule: the point where the lines of l1 and l2 meet; the same
      point as `inv(A) @ b` for the matrix A with rows l1.normal, l2.normal. */
  function Cramer(l1: HalfPlane, l2: HalfPlane): (p: Point)
    requires Det(l1.normal, l2.normal) != 0.0
    ensures OnLine(l1, p) && OnLine(l2, p)
  {
    var n1, n2, b1, b2 := l1.normal, l2.normal, l1.offset, l2.offset;
    var d := Det(n1, n2);
    var px, py := n2.y * b1 - n1.y * b2, n1.x * b2 - n2.x * b1;
    assert n1.x * px + n1.y * py == b1 * d;
    assert n2.x * px + n2.y * py == b2 * d;
    assert Dot(n1, Point(px / d, py / d)) == (n1.x * px + n1.y * py) / d;
    assert Dot(n2, Point(px / d, py / d)) == (n2.x * px + n2.y * py) / d;
    Point(px / d, py / d)
  }

  /** Two lines with non-zero determinant meet in one point only. */
  lemma OnBothLinesUnique(l1: HalfPlane, l2: HalfPlane, p: Point, q: Point)
    requires Det(l1.normal, l2.normal) != 0.0
    requires OnLine(l1, p) && OnLine(l2, p)
    requires OnLine(l1, q) && OnLine(l2, q)
    ensures p == q
  {
    var n1, n2 := l1.normal, l2.normal;
    var d := Det(n1, n2);
    var dx, dy := p.x - q.x, p.y - q.y;
    assert n1.x * dx + n1.y * dy == 0.0;
    assert n2.x * dx + n2.y * dy == 0.0;
    assert d * dx == n2.y * (n1.x * dx + n1.y * dy) - n1.y * (n2.x * dx + n2.y * dy);
    assert d * dy == n1.x * (n2.x * dx + n2.y * dy) - n2.x * (n1.x * dx + n1.y * dy);
  }

  /** `intersection(line1, line2)`: `None` exactly when the determinant is
      within EPSILON of zero, otherwise a point on both lines. */
  function Intersection(l1: HalfPlane, l2: HalfPlane): (r: Option<Point>)
    ensures r.None? <==> Abs(Det(l1.normal, l2.normal)) <= EPSILON
    ensures r.Some? ==> OnLine(l1, r.value) && OnLine(l2, r.value)
  {
    if Abs(Det(l1.normal, l2.normal)) > EPSILON then Some(Cramer(l1, l2)) else None
  }

  /** The point Intersection returns is the only point on both lines. */
  lemma IntersectionIsOnlyCommonPoint(l1: HalfPlane, l2: HalfPlane, q: Point)
    requires Intersection(l1, l2).Some?
    requires OnLine(l1, q) && OnLine(l2, q)
    ensures q == Intersection(l1, l2).value
  {
    OnBothLinesUnique(l1, l2, Intersection(l1, l2).value, q);
  }

  /** The order of the two lines makes no difference to the outcome. */
  lemma IntersectionSymmetric(l1: HalfPlane, l2: HalfPlane)
    ensures Intersection(l1, l2) == Intersection(l2, l1)
  {
    assert Det(l2.normal, l1.normal) == -Det(l1.normal, l2.normal);
    var r, s := Intersection(l1, l2), Intersection(l2, l1);
    if r.Some? {
      IntersectionIsOnlyCommonPoint(l1, l2, s.value);
    }
  }

  // ---------------------------------------------------------------------------
  // Systems of inequalities

  /** The constraint system `A x <= b`, row k being `A[k] . x <= b[k]`. */
  datatype System = System(A: seq<Point>, b: seq<real>) {
    predicate WellFormed() {
      |A| == |b|
    }

    function Row(k: nat): HalfPlane
      requires WellFormed() && k < |A|
    {
      HalfPlane(A[k], b[k])
    }
  }

  /** The feasibility test of plot_convex_set/plot_convex_set_1.py: p
      satisfies every row. */
  predicate Feasible(s: System, p: Point)
    requires s.WellFormed()
    ensures |s.A| == 0 ==> Feasible(s, p)
  {
    forall k :: 0 <= k < |s.A| ==> Dot(s.A[k], p) <= s.b[k]
  }
}
