/** The constraint augmentation of `plot_convex_set` in
    plots/plot_convex_set_2.py: optional bounding-box values become extra
    rows under `A x <= b`, and the augmented system is handed to the vertex
    walk. */
module BoundingBox {
  import opened Wrappers
  import opened Errors
  import opened Planar
  import opened VertexWalk

  /** The optional arguments `xmin`, `xmax`, `ymin`, `ymax`. */
  datatype Bounds = Bounds(xmin: Option<real>, xmax: Option<real>, ymin: Option<real>, ymax: Option<real>)

  /** 1 for a given bound, 0 for a missing one. */
  function Present(o: Option<real>): nat {
    if o.Some? then 1 else 0
  }

  /** The number of bounds given. */
  function Count(bd: Bounds): nat {
    Present(bd.xmin) + Present(bd.xmax) + Present(bd.ymin) + Present(bd.ymax)
  }

  predicate AllAbsent(bd: Bounds) {
    bd.xmin.None? && bd.xmax.None? && bd.ymin.None? && bd.ymax.None?
  }

  /** p lies within every bound that is given. */
  predicate InBox(bd: Bounds, p: Point) {
    && (bd.xmin.Some? ==> bd.xmin.value <= p.x)
    && (bd.xmax.Some? ==> p.x <= bd.xmax.value)
    && (bd.ymin.Some? ==> bd.ymin.value <= p.y)
    && (bd.ymax.Some? ==> p.y <= bd.ymax.value)
  }

  /** `np.vstack([A, vectors])` together with `np.vstack([b, intercepts])`. */
  function Stack(s: System, t: System): (r: System)
    ensures s.WellFormed() && t.WellFormed() ==> r.WellFormed()
    ensures |r.A| == |s.A| + |t.A| && |r.b| == |s.b| + |t.b|
    ensures s.A <= r.A && s.b <= r.b
  {
    System(s.A + t.A, s.b + t.b)
  }

  /** The row a bound contributes, `normal . p <= sign * bound`, or none. */
  function BoundRow(o: Option<real>, normal: Point, sign: real): (r: System)
    ensures r.WellFormed() && |r.A| == Present(o)
    ensures forall k :: 0 <= k < |r.A| ==> r.A[k] == normal
  {
    if o.Some? then System([normal], [sign * o.value]) else System([], [])
  }

  /** The rows lines 119-130 collect, in the order xmin, xmax, ymin, ymax. */
  function BoxRows(bd: Bounds): (r: System)
    ensures r.WellFormed() && |r.A| == Count(bd)
  {
    Stack(Stack(Stack(BoundRow(bd.xmin, Point(-1.0, 0.0), -1.0),
                      BoundRow(bd.xmax, Point(1.0, 0.0), 1.0)),
                BoundRow(bd.ymin, Point(0.0, -1.0), -1.0)),
          BoundRow(bd.ymax, Point(0.0, 1.0), 1.0))
  }

  /** Row k of a stacked system is row k of the upper part, or the row
      below it in the lower part. */
  lemma StackRow(s: System, t: System, k: nat)
    requires s.WellFormed() && t.WellFormed() && k < |s.A| + |t.A|
    ensures Stack(s, t).WellFormed()
    ensures Stack(s, t).Row(k) == if k < |s.A| then s.Row(k) else t.Row(k - |s.A|)
  {
  }

  /** The box rows: one per given bound, each normal an axis direction. */
  lemma BoxRowsShape(bd: Bounds)
    ensures var r := BoxRows(bd);
            && r.WellFormed() && |r.A| == Count(bd)
            && (forall k :: 0 <= k < |r.A| ==>
                  r.A[k] in {Point(-1.0, 0.0), Point(1.0, 0.0), Point(0.0, -1.0), Point(0.0, 1.0)})
  {
  }

  /** Each given bound sits at the position the bounds before it leave for
      it: xmin first, then xmax, ymin and ymax. */
  lemma BoxRowsOrder(bd: Bounds)
    ensures var r := BoxRows(bd);
            && r.WellFormed()
            && (bd.xmin.Some? ==> r.Row(0) == HalfPlane(Point(-1.0, 0.0), -bd.xmin.value))
            && (bd.xmax.Some? ==> r.Row(Present(bd.xmin)) == HalfPlane(Point(1.0, 0.0), bd.xmax.value))
            && (bd.ymin.Some? ==>
                  r.Row(Present(bd.xmin) + Present(bd.xmax)) == HalfPlane(Point(0.0, -1.0), -bd.ymin.value))
            && (bd.ymax.Some? ==>
                  r.Row(Present(bd.xmin) + Present(bd.xmax) + Present(bd.ymin)) ==
                  HalfPlane(Point(0.0, 1.0), bd.ymax.value))
  {
    var a := BoundRow(bd.xmin, Point(-1.0, 0.0), -1.0);
    var b := BoundRow(bd.xmax, Point(1.0, 0.0), 1.0);
    var c := BoundRow(bd.ymin, Point(0.0, -1.0), -1.0);
    var d := BoundRow(bd.ymax, Point(0.0, 1.0), 1.0);
    var ab := Stack(a, b);
    var abc := Stack(ab, c);
    if bd.xmin.Some? {
      StackRow(abc, d, 0);
      StackRow(ab, c, 0);
      StackRow(a, b, 0);
    }
    if bd.xmax.Some? {
      var k := Present(bd.xmin);
      StackRow(abc, d, k);
      StackRow(ab, c, k);
      StackRow(a, b, k);
    }
    if bd.ymin.Some? {
      var k := Present(bd.xmin) + Present(bd.xmax);
      StackRow(abc, d, k);
      StackRow(ab, c, k);
    }
    if bd.ymax.Some? {
      var k := Present(bd.xmin) + Present(bd.xmax) + Present(bd.ymin);
      StackRow(abc, d, k);
    }
  }

  /** A point satisfies a stacked system iff it satisfies both parts. */
  lemma FeasibleStack(s: System, t: System, p: Point)
    requires s.WellFormed() && t.WellFormed()
    ensures Feasible(Stack(s, t), p) <==> Feasible(s, p) && Feasible(t, p)
  {
    var st := Stack(s, t);
    if Feasible(s, p) && Feasible(t, p) {
      forall k | 0 <= k < |st.A| ensures Dot(st.A[k], p) <= st.b[k] {
        if k >= |s.A| {
          assert st.A[k] == t.A[k - |s.A|] && st.b[k] == t.b[k - |s.A|];
        }
      }
    }
    if Feasible(st, p) {
      forall k | 0 <= k < |s.A| ensures Dot(s.A[k], p) <= s.b[k] {
        assert st.A[k] == s.A[k] && st.b[k] == s.b[k];
      }
      forall k | 0 <= k < |t.A| ensures Dot(t.A[k], p) <= t.b[k] {
        assert st.A[|s.A| + k] == t.A[k] && st.b[|s.A| + k] == t.b[k];
      }
    }
  }

  /** The row of a given bound holds where `normal . p <= sign * bound`; a
      missing bound holds everywhere. */
  lemma BoundRowFeasible(o: Option<real>, normal: Point, sign: real, p: Point)
    ensures BoundRow(o, normal, sign).WellFormed()
    ensures Feasible(BoundRow(o, normal, sign), p) <==> (o.Some? ==> Dot(normal, p) <= sign * o.value)
  {
    if o.Some? {
      assert BoundRow(o, normal, sign).A[0] == normal;
    }
  }

  /** The rows of the x bounds hold exactly between them. */
  lemma XBoundRowsHold(bd: Bounds, p: Point)
    ensures Feasible(BoundRow(bd.xmin, Point(-1.0, 0.0), -1.0), p) <==> (bd.xmin.Some? ==> bd.xmin.value <= p.x)
    ensures Feasible(BoundRow(bd.xmax, Point(1.0, 0.0), 1.0), p) <==> (bd.xmax.Some? ==> p.x <= bd.xmax.value)
  {
    BoundRowFeasible(bd.xmin, Point(-1.0, 0.0), -1.0, p);
    BoundRowFeasible(bd.xmax, Point(1.0, 0.0), 1.0, p);
    assert Dot(Point(-1.0, 0.0), p) == -p.x;
    assert Dot(Point(1.0, 0.0), p) == p.x;
  }

  /** The rows of the y bounds hold exactly between them. */
  lemma YBoundRowsHold(bd: Bounds, p: Point)
    ensures Feasible(BoundRow(bd.ymin, Point(0.0, -1.0), -1.0), p) <==> (bd.ymin.Some? ==> bd.ymin.value <= p.y)
    ensures Feasible(BoundRow(bd.ymax, Point(0.0, 1.0), 1.0), p) <==> (bd.ymax.Some? ==> p.y <= bd.ymax.value)
  {
    BoundRowFeasible(bd.ymin, Point(0.0, -1.0), -1.0, p);
    BoundRowFeasible(bd.ymax, Point(0.0, 1.0), 1.0, p);
    assert Dot(Point(0.0, -1.0), p) == -p.y;
    assert Dot(Point(0.0, 1.0), p) == p.y;
  }

  /** The box rows cut out exactly the bounding box. */
  lemma BoxRowsFeasible(bd: Bounds, p: Point)
    ensures BoxRows(bd).WellFormed()
    ensures Feasible(BoxRows(bd), p) <==> InBox(bd, p)
  {
    var a := BoundRow(bd.xmin, Point(-1.0, 0.0), -1.0);
    var b := BoundRow(bd.xmax, Point(1.0, 0.0), 1.0);
    var c := BoundRow(bd.ymin, Point(0.0, -1.0), -1.0);
    var d := BoundRow(bd.ymax, Point(0.0, 1.0), 1.0);
    XBoundRowsHold(bd, p);
    YBoundRowsHold(bd, p);
    FeasibleStack(a, b, p);
    FeasibleStack(Stack(a, b), c, p);
    FeasibleStack(Stack(Stack(a, b), c), d, p);
  }

  /** Lines 117-130: one row per given bound, appended in the order xmin,
      xmax, ymin, ymax; the rows are the box rows. */
  method CollectBoundRows(bd: Bounds) returns (vectors: seq<Point>, intercepts: seq<real>)
    ensures System(vectors, intercepts) == BoxRows(bd)
    ensures |vectors| == |intercepts| == Count(bd)
  {
    vectors, intercepts := [], [];
    if bd.xmin.Some? {
      vectors := vectors + [Point(-1.0, 0.0)];
      intercepts := intercepts + [-bd.xmin.value];
    }
    ghost var rows := BoundRow(bd.xmin, Point(-1.0, 0.0), -1.0);
    assert System(vectors, intercepts) == rows;
    if bd.xmax.Some? {
      vectors := vectors + [Point(1.0, 0.0)];
      intercepts := intercepts + [bd.xmax.value];
    }
    rows := Stack(rows, BoundRow(bd.xmax, Point(1.0, 0.0), 1.0));
    assert System(vectors, intercepts) == rows;
    if bd.ymin.Some? {
      vectors := vectors + [Point(0.0, -1.0)];
      intercepts := intercepts + [-bd.ymin.value];
    }
    rows := Stack(rows, BoundRow(bd.ymin, Point(0.0, -1.0), -1.0));
    assert System(vectors, intercepts) == rows;
    if bd.ymax.Some? {
      vectors := vectors + [Point(0.0, 1.0)];
      intercepts := intercepts + [bd.ymax.value];
    }
    rows := Stack(rows, BoundRow(bd.ymax, Point(0.0, 1.0), 1.0));
    assert System(vectors, intercepts) == rows;
  }

  /** Lines 114-136: collect a row per given bound, then stack the rows
      under `A` and the offsets under `b`. The first |A| rows are `A`
      unchanged, the bound rows follow in the order xmin, xmax, ymin, ymax,
      and the points satisfying the result are those satisfying `A x <= b`
      within the box. Stacking fails when no bound is given. */
  method AugmentConstraints(A: seq<Point>, b: seq<real>, bd: Bounds) returns (r: Result<System, Failure>)
    requires |b| == |A|
    ensures r.Ok? || r == Err(NoBounds)
    ensures r == Err(NoBounds) <==> AllAbsent(bd)
    ensures r.Ok? ==> r.value == Stack(System(A, b), BoxRows(bd))
    ensures r.Ok? ==> r.value.WellFormed() && |r.value.A| == |A| + Count(bd)
    ensures r.Ok? ==> r.value.A[..|A|] == A && r.value.b[..|A|] == b
    ensures r.Ok? ==> forall p :: Feasible(r.value, p) <==> Feasible(System(A, b), p) && InBox(bd, p)
  {
    var vectors, intercepts := CollectBoundRows(bd);
    if |vectors| == 0 {
      return Err(NoBounds);
    }
    r := Ok(Stack(System(A, b), System(vectors, intercepts)));
    forall p ensures Feasible(r.value, p) <==> Feasible(System(A, b), p) && InBox(bd, p) {
      FeasibleStack(System(A, b), BoxRows(bd), p);
      BoxRowsFeasible(bd, p);
    }
  }

  /** The axis normals have a positive length. */
  predicate AxesHavePositiveNorm(norm: Point -> real) {
    && norm(Point(-1.0, 0.0)) > 0.0 && norm(Point(1.0, 0.0)) > 0.0
    && norm(Point(0.0, -1.0)) > 0.0 && norm(Point(0.0, 1.0)) > 0.0
  }

  /** Line 138: the vertices `find_vertices` computes for the augmented
      system. With at least one bound the system has a row, so a result has
      one entry more than the system has rows, and needs three rows. */
  method ConvexSetNodes(A: seq<Point>, b: seq<real>, bd: Bounds, heading: Point -> real, norm: Point -> real)
    returns (r: Result<seq<Option<Point>>, Failure>)
    requires |b| == |A|
    requires forall k :: 0 <= k < |A| ==> norm(A[k]) > 0.0
    requires AxesHavePositiveNorm(norm)
    ensures r == Err(NoBounds) <==> AllAbsent(bd)
    ensures !AllAbsent(bd) ==> r == Vertices(Normalize(Stack(System(A, b), BoxRows(bd)), norm), heading)
    ensures r.Ok? ==> |r.value| == |A| + Count(bd) + 1 && |A| + Count(bd) >= 3
  {
    var augmented := AugmentConstraints(A, b, bd);
    if augmented.Err? {
      return Err(augmented.error);
    }
    var s := augmented.value;
    BoxRowsShape(bd);
    assert forall k :: 0 <= k < |s.A| ==> norm(s.A[k]) > 0.0 by {
      forall k | 0 <= k < |s.A| ensures norm(s.A[k]) > 0.0 {
        if k >= |A| {
          assert s.A[k] == BoxRows(bd).A[k - |A|];
        } else {
          assert s.A[k] == A[k];
        }
      }
    }
    r := FindVertices(s.A, s.b, heading, norm);
  }
}
