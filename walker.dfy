/** `find_vertices` of plots/plot_convex_set_2.py: normalise the rows, then
    walk from constraint to constraint, intersecting each one with its
    nearest neighbour on either side and collecting the vertices. */
module VertexWalk {
  import opened Wrappers
  import opened Errors
  import opened Planar
  import opened Angular

  // ---------------------------------------------------------------------------
  // Deleting one entry, as np.delete does

  /** Where the j-th entry of a list with entry i deleted sits in the full
      list. */
  function Unskip(i: nat, j: nat): (k: nat)
    ensures k != i
    ensures j < i ==> k < i
    ensures i <= j ==> i < k
  {
    if j < i then j else j + 1
  }

  /** `np.delete(s, i)`: s without its entry i. */
  function Without<T>(s: seq<T>, i: nat): (r: seq<T>)
    requires i < |s|
    ensures |r| == |s| - 1
    ensures forall j :: 0 <= j < |r| ==> r[j] == s[Unskip(i, j)]
  {
    seq(|s| - 1, j requires 0 <= j < |s| - 1 => s[Unskip(i, j)])
  }

  /** `np.arange(n)`. */
  function Indices(n: nat): (r: seq<nat>)
    ensures |r| == n
    ensures forall k :: 0 <= k < n ==> r[k] == k
  {
    seq(n, k requires 0 <= k < n => k)
  }

  // ---------------------------------------------------------------------------
  // Normalisation

  /** `A / norms`, `b / norms`: row k and its offset divided by the positive
      scale norm(A[k]), the Euclidean length of the row in the source. */
  function Normalize(s: System, norm: Point -> real): (r: System)
    requires s.WellFormed()
    requires forall k :: 0 <= k < |s.A| ==> norm(s.A[k]) > 0.0
    ensures r.WellFormed() && |r.A| == |s.A|
    ensures forall k :: 0 <= k < |s.A| ==>
              r.A[k].x * norm(s.A[k]) == s.A[k].x && r.A[k].y * norm(s.A[k]) == s.A[k].y &&
              r.b[k] * norm(s.A[k]) == s.b[k]
  {
    System(seq(|s.A|, k requires 0 <= k < |s.A| => Point(s.A[k].x / norm(s.A[k]), s.A[k].y / norm(s.A[k]))),
           seq(|s.A|, k requires 0 <= k < |s.A| => s.b[k] / norm(s.A[k])))
  }

  /** Dividing a row and its offset by the same positive number keeps the
      set of points that satisfy it. */
  lemma ScaledRowSameHalfPlane(a: Point, b: real, a': Point, b': real, c: real, p: Point)
    requires c > 0.0
    requires a'.x * c == a.x && a'.y * c == a.y && b' * c == b
    ensures Dot(a, p) <= b <==> Dot(a', p) <= b'
  {
    assert Dot(a, p) == c * Dot(a', p);
    assert b == c * b';
  }

  /** Normalisation keeps the feasible region. */
  lemma NormalizeKeepsFeasible(s: System, norm: Point -> real, p: Point)
    requires s.WellFormed()
    requires forall k :: 0 <= k < |s.A| ==> norm(s.A[k]) > 0.0
    ensures Feasible(s, p) <==> Feasible(Normalize(s, norm), p)
  {
    var r := Normalize(s, norm);
    forall k | 0 <= k < |s.A|
      ensures Dot(s.A[k], p) <= s.b[k] <==> Dot(r.A[k], p) <= r.b[k]
    {
      ScaledRowSameHalfPlane(s.A[k], s.b[k], r.A[k], r.b[k], norm(s.A[k]), p);
    }
  }

  // ---------------------------------------------------------------------------
  // One step of the walk

  /** The wrapped angle from the normal of row j to the normal of row i. */
  function AngleDiff(normals: seq<Point>, heading: Point -> real, i: nat, j: nat): real
    requires i < |normals| && j < |normals|
  {
    Wrap(heading(normals[i]) - heading(normals[j]))
  }

  /** The two neighbours of row i: `max_neg_index` and `min_pos_index`. */
  datatype Choice = Choice(maxNeg: nat, minPos: nat)

  /** Row k is another row than i, at a negative angle from it, and no row
      lies at a negative angle nearer zero, nor at the same angle with a
      lower number. */
  predicate NearestNegative(normals: seq<Point>, heading: Point -> real, i: nat, k: nat)
    requires i < |normals|
  {
    && k < |normals| && k != i
    && AngleDiff(normals, heading, i, k) < 0.0
    && (forall j :: 0 <= j < |normals| && j != i && AngleDiff(normals, heading, i, j) < 0.0 ==>
          AngleDiff(normals, heading, i, j) <= AngleDiff(normals, heading, i, k))
    && (forall j :: 0 <= j < k && j != i && AngleDiff(normals, heading, i, j) < 0.0 ==>
          AngleDiff(normals, heading, i, j) < AngleDiff(normals, heading, i, k))
  }

  /** Row k is another row than i, at a positive angle from it, and no row
      lies at a positive angle nearer zero, nor at the same angle with a
      lower number. */
  predicate NearestPositive(normals: seq<Point>, heading: Point -> real, i: nat, k: nat)
    requires i < |normals|
  {
    && k < |normals| && k != i
    && AngleDiff(normals, heading, i, k) > 0.0
    && (forall j :: 0 <= j < |normals| && j != i && AngleDiff(normals, heading, i, j) > 0.0 ==>
          AngleDiff(normals, heading, i, k) <= AngleDiff(normals, heading, i, j))
    && (forall j :: 0 <= j < k && j != i && AngleDiff(normals, heading, i, j) > 0.0 ==>
          AngleDiff(normals, heading, i, k) < AngleDiff(normals, heading, i, j))
  }

  /** Lines 75-83: rank the other rows by angle and map the two positions
      `find_max_neg_min_pos` picks back through `other_indices`. The chosen
      rows are rows of the system, and the step fails only when a side is
      empty; NeighboursNearest says which rows are chosen and when it fails. */
  function Neighbours(normals: seq<Point>, heading: Point -> real, i: nat): (r: Result<Choice, Failure>)
    requires i < |normals|
    ensures r.Ok? || r == Err(NoNegativeAngle) || r == Err(NoPositiveAngle)
    ensures r.Ok? ==> r.value.maxNeg < |normals| && r.value.minPos < |normals|
  {
    var angleList := Angles(Without(normals, i), normals[i], heading);
    var otherIndices := Without(Indices(|normals|), i);
    match FindMaxNegMinPos(angleList)
    case Err(e) => Err(e)
    case Ok((neg, pos)) => Ok(Choice(otherIndices[neg], otherIndices[pos]))
  }

  /** The rows Neighbours chooses are other rows than i, the nearest on the
      negative and on the positive side (the lowest-numbered on ties), and it
      fails exactly when a side has no row, the negative side looked at
      first. */
  lemma NeighboursNearest(normals: seq<Point>, heading: Point -> real, i: nat)
    requires i < |normals|
    ensures var r := Neighbours(normals, heading, i);
            r.Ok? ==> NearestNegative(normals, heading, i, r.value.maxNeg) &&
                      NearestPositive(normals, heading, i, r.value.minPos)
    ensures var r := Neighbours(normals, heading, i);
            r == Err(NoNegativeAngle) <==>
              forall j :: 0 <= j < |normals| && j != i ==> AngleDiff(normals, heading, i, j) >= 0.0
    ensures var r := Neighbours(normals, heading, i);
            r == Err(NoPositiveAngle) <==>
              (exists j :: 0 <= j < |normals| && j != i && AngleDiff(normals, heading, i, j) < 0.0) &&
              (forall j :: 0 <= j < |normals| && j != i ==> AngleDiff(normals, heading, i, j) <= 0.0)
  {
    var angleList := Angles(Without(normals, i), normals[i], heading);
    AnglesOfOthers(normals, heading, i);
    SelectionInRowNumbers(normals, heading, i, FindMaxNegMinPos(angleList));
  }

  /** Where row k != i sits in the list of the other rows. */
  function Skip(i: nat, k: nat): (j: nat)
    requires k != i
    ensures Unskip(i, j) == k
  {
    if k < i then k else k - 1
  }

  /** Entry j of the angle list of row i is the angle of the row it came
      from, and every other row is the source of one entry. */
  lemma AnglesOfOthers(normals: seq<Point>, heading: Point -> real, i: nat)
    requires i < |normals|
    ensures var angleList := Angles(Without(normals, i), normals[i], heading);
            var otherIndices := Without(Indices(|normals|), i);
            && |angleList| == |otherIndices| == |normals| - 1
            && (forall j :: 0 <= j < |angleList| ==>
                  otherIndices[j] == Unskip(i, j) &&
                  angleList[j] == AngleDiff(normals, heading, i, Unskip(i, j)))
            && (forall k :: 0 <= k < |normals| && k != i ==> Skip(i, k) < |angleList|)
  {
  }

  /** The largest negative entry of the angle list of row i stands for the
      row nearest to i on the negative side. */
  lemma MaxNegInRowNumbers(normals: seq<Point>, heading: Point -> real, i: nat, neg: nat)
    requires i < |normals|
    requires IsMaxNeg(Angles(Without(normals, i), normals[i], heading), neg)
    ensures NearestNegative(normals, heading, i, Unskip(i, neg))
  {
    var angleList := Angles(Without(normals, i), normals[i], heading);
    AnglesOfOthers(normals, heading, i);
    var k := Unskip(i, neg);
    forall j | 0 <= j < |normals| && j != i && AngleDiff(normals, heading, i, j) < 0.0
      ensures AngleDiff(normals, heading, i, j) <= AngleDiff(normals, heading, i, k)
    {
      assert angleList[Skip(i, j)] == AngleDiff(normals, heading, i, j);
    }
    forall j | 0 <= j < k && j != i && AngleDiff(normals, heading, i, j) < 0.0
      ensures AngleDiff(normals, heading, i, j) < AngleDiff(normals, heading, i, k)
    {
      assert angleList[Skip(i, j)] == AngleDiff(normals, heading, i, j);
    }
  }

  /** The smallest positive entry of the angle list of row i stands for the
      row nearest to i on the positive side. */
  lemma MinPosInRowNumbers(normals: seq<Point>, heading: Point -> real, i: nat, pos: nat)
    requires i < |normals|
    requires IsMinPos(Angles(Without(normals, i), normals[i], heading), pos)
    ensures NearestPositive(normals, heading, i, Unskip(i, pos))
  {
    var angleList := Angles(Without(normals, i), normals[i], heading);
    AnglesOfOthers(normals, heading, i);
    var k := Unskip(i, pos);
    forall j | 0 <= j < |normals| && j != i && AngleDiff(normals, heading, i, j) > 0.0
      ensures AngleDiff(normals, heading, i, k) <= AngleDiff(normals, heading, i, j)
    {
      assert angleList[Skip(i, j)] == AngleDiff(normals, heading, i, j);
    }
    forall j | 0 <= j < k && j != i && AngleDiff(normals, heading, i, j) > 0.0
      ensures AngleDiff(normals, heading, i, k) < AngleDiff(normals, heading, i, j)
    {
      assert angleList[Skip(i, j)] == AngleDiff(normals, heading, i, j);
    }
  }

  /** A side of the angle list is empty exactly when that side of row i has
      no row. */
  lemma SidesInRowNumbers(normals: seq<Point>, heading: Point -> real, i: nat)
    requires i < |normals|
    ensures var angleList := Angles(Without(normals, i), normals[i], heading);
            && ((forall j :: 0 <= j < |angleList| ==> angleList[j] >= 0.0) <==>
                (forall k :: 0 <= k < |normals| && k != i ==> AngleDiff(normals, heading, i, k) >= 0.0))
            && ((forall j :: 0 <= j < |angleList| ==> angleList[j] <= 0.0) <==>
                (forall k :: 0 <= k < |normals| && k != i ==> AngleDiff(normals, heading, i, k) <= 0.0))
            && ((exists j :: 0 <= j < |angleList| && angleList[j] < 0.0) <==>
                (exists k :: 0 <= k < |normals| && k != i && AngleDiff(normals, heading, i, k) < 0.0))
  {
    var angleList := Angles(Without(normals, i), normals[i], heading);
    AnglesOfOthers(normals, heading, i);
    assert forall k :: 0 <= k < |normals| && k != i ==>
        angleList[Skip(i, k)] == AngleDiff(normals, heading, i, k);
  }

  /** What `find_max_neg_min_pos` says about the angle list, said about the
      rows the chosen positions stand for. */
  lemma SelectionInRowNumbers(normals: seq<Point>, heading: Point -> real, i: nat,
                              sel: Result<(nat, nat), Failure>)
    requires i < |normals|
    requires sel == FindMaxNegMinPos(Angles(Without(normals, i), normals[i], heading))
    ensures var otherIndices := Without(Indices(|normals|), i);
            sel.Ok? ==> sel.value.0 < |otherIndices| && sel.value.1 < |otherIndices|
    ensures var otherIndices := Without(Indices(|normals|), i);
            sel.Ok? ==> (NearestNegative(normals, heading, i, otherIndices[sel.value.0]) &&
                         NearestPositive(normals, heading, i, otherIndices[sel.value.1]))
    ensures sel == Err(NoNegativeAngle) <==>
              forall j :: 0 <= j < |normals| && j != i ==> AngleDiff(normals, heading, i, j) >= 0.0
    ensures sel == Err(NoPositiveAngle) <==>
              (exists j :: 0 <= j < |normals| && j != i && AngleDiff(normals, heading, i, j) < 0.0) &&
              (forall j :: 0 <= j < |normals| && j != i ==> AngleDiff(normals, heading, i, j) <= 0.0)
  {
    AnglesOfOthers(normals, heading, i);
    SidesInRowNumbers(normals, heading, i);
    if sel.Ok? {
      MaxNegInRowNumbers(normals, heading, i, sel.value.0);
      MinPosInRowNumbers(normals, heading, i, sel.value.1);
    }
  }

  /** Lines 93-103: what one step does with the vertex list. The first step
      appends pc and pa; a later one appends pa when pb is missing or when
      pa, pb, pc are not counter-clockwise, fails when `ccw` would subscript
      a missing point, and raises when they are counter-clockwise. */
  function Emit(vertices: seq<Option<Point>>, pc: Option<Point>, pa: Option<Point>, pb: Option<Point>)
    : (r: Result<seq<Option<Point>>, Failure>)
    ensures vertices == [] ==> r == Ok([pc, pa])
    ensures vertices != [] && pb.None? ==> r == Ok(vertices + [pa])
    ensures vertices != [] && pb.Some? && (pa.None? || pc.None?) ==> r == Err(MissingPoint)
    ensures vertices != [] && pb.Some? && pa.Some? && pc.Some? ==>
              r == if Ccw(pa.value, pb.value, pc.value) then Err(BadOrientation) else Ok(vertices + [pa])
  {
    if |vertices| == 0 then Ok([pc, pa])
    else if pb.None? then Ok(vertices + [pa])
    else if pa.None? || pc.None? then Err(MissingPoint)
    else if !Ccw(pa.value, pb.value, pc.value) then Ok(vertices + [pa])
    else Err(BadOrientation)
  }

  /** The neighbour rule evaluated at every row: entry k is what lines
      75-83 compute when the walk stands at row k. It depends on nothing but
      the row, so the walk may look it up instead of recomputing it. */
  function NeighbourTable(s: System, heading: Point -> real): (t: seq<Result<Choice, Failure>>)
    ensures |t| == |s.A|
    ensures forall k :: 0 <= k < |s.A| ==> t[k] == Neighbours(s.A, heading, k)
    ensures TableFits(s, t)
  {
    seq(|s.A|, k requires 0 <= k < |s.A| => Neighbours(s.A, heading, k))
  }

  /** A table of neighbour choices that names rows of s only, and whose
      failures are those of the selection. */
  predicate TableFits(s: System, table: seq<Result<Choice, Failure>>) {
    && |table| == |s.A|
    && (forall k :: 0 <= k < |table| && table[k].Ok? ==>
          table[k].value.maxNeg < |s.A| && table[k].value.minPos < |s.A|)
    && (forall k :: 0 <= k < |table| && table[k].Err? ==>
          table[k].error == NoNegativeAngle || table[k].error == NoPositiveAngle)
  }

  /** Entry k of the table is the neighbour rule at row k. */
  predicate TableIsRule(s: System, heading: Point -> real, table: seq<Result<Choice, Failure>>)
    requires s.WellFormed()
  {
    && TableFits(s, table)
    && forall k {:trigger Neighbours(s.A, heading, k)} :: 0 <= k < |s.A| ==> table[k] == Neighbours(s.A, heading, k)
  }

  /** One iteration of the loop at row i, with the neighbours c chosen there
      (lines 84-105): the row to go on with, `min_pos_index`, and the vertex
      list afterwards. */
  function Step(s: System, i: nat, c: Result<Choice, Failure>, vertices: seq<Option<Point>>)
    : (r: Result<(nat, seq<Option<Point>>), Failure>)
    requires s.WellFormed() && i < |s.A|
    requires c.Ok? ==> c.value.maxNeg < |s.A| && c.value.minPos < |s.A|
    ensures r.Ok? ==> c.Ok? && r.value.0 == c.value.minPos
    ensures r.Ok? ==> |r.value.1| == |vertices| + if vertices == [] then 2 else 1
    ensures r.Ok? ==> vertices <= r.value.1
  {
    match c
    case Err(e) => Err(e)
    case Ok(c) =>
      var lineA, lineB, lineC := s.Row(c.maxNeg), s.Row(i), s.Row(c.minPos);
      var pc, pa, pb := Intersection(lineA, lineB), Intersection(lineB, lineC), Intersection(lineC, lineA);
      match Emit(vertices, pc, pa, pb)
      case Err(e) => Err(e)
      case Ok(vs) => Ok((c.minPos, vs))
  }

  /** The remaining `steps` iterations of the walk, from row i with the
      vertices collected so far, each step taking its neighbours from the
      table. */
  function Walk(s: System, table: seq<Result<Choice, Failure>>, i: nat, steps: nat,
                vertices: seq<Option<Point>>): (r: Result<seq<Option<Point>>, Failure>)
    requires s.WellFormed() && TableFits(s, table)
    requires i < |s.A| || steps == 0
    ensures r.Ok? ==> vertices <= r.value
    decreases steps
  {
    if steps == 0 then Ok(vertices)
    else
      match Step(s, i, table[i], vertices)
      case Err(e) => Err(e)
      case Ok((next, vs)) => Walk(s, table, next, steps - 1, vs)
  }

  /** A walk of one or more steps is its first step followed by the rest. */
  lemma WalkUnfold(s: System, table: seq<Result<Choice, Failure>>, i: nat, steps: nat,
                   vertices: seq<Option<Point>>, next: nat, vs: seq<Option<Point>>)
    requires s.WellFormed() && TableFits(s, table)
    requires i < |s.A| && steps > 0
    requires Step(s, i, table[i], vertices) == Ok((next, vs))
    ensures next < |s.A|
    ensures Walk(s, table, i, steps, vertices) == Walk(s, table, next, steps - 1, vs)
  {
  }

  /** A walk with no steps left returns the vertices it has. */
  lemma WalkDone(s: System, table: seq<Result<Choice, Failure>>, i: nat, steps: nat,
                 vertices: seq<Option<Point>>)
    requires s.WellFormed() && TableFits(s, table)
    requires steps == 0
    ensures Walk(s, table, i, steps, vertices) == Ok(vertices)
  {
  }

  /** A walk of one or more steps whose first step fails fails with it. */
  lemma WalkStops(s: System, table: seq<Result<Choice, Failure>>, i: nat, steps: nat,
                  vertices: seq<Option<Point>>, e: Failure)
    requires s.WellFormed() && TableFits(s, table)
    requires i < |s.A| && steps > 0
    requires Step(s, i, table[i], vertices) == Err(e)
    ensures Walk(s, table, i, steps, vertices) == Err(e)
  {
  }

  /** A walk that succeeds keeps the vertices it started with and adds one
      per step, plus one more when it starts from an empty list. */
  lemma {:induction false} WalkLength(s: System, table: seq<Result<Choice, Failure>>, i: nat, steps: nat,
                                      vertices: seq<Option<Point>>)
    requires s.WellFormed() && TableFits(s, table)
    requires i < |s.A| || steps == 0
    ensures var r := Walk(s, table, i, steps, vertices);
            r.Ok? ==>
              && |r.value| == |vertices| + steps + (if vertices == [] && steps > 0 then 1 else 0)
              && vertices <= r.value
    decreases steps
  {
    if steps > 0 {
      var st := Step(s, i, table[i], vertices);
      if st.Ok? {
        WalkLength(s, table, st.value.0, steps - 1, st.value.1);
      }
    }
  }

  /** The walk stops for one of four reasons only: no row on the negative
      side, no row on the positive side, a missing intersection point handed
      to `ccw`, or the raise of line 103. */
  lemma {:induction false} WalkFailures(s: System, table: seq<Result<Choice, Failure>>, i: nat, steps: nat,
                                        vertices: seq<Option<Point>>)
    requires s.WellFormed() && TableFits(s, table)
    requires i < |s.A| || steps == 0
    ensures var r := Walk(s, table, i, steps, vertices);
            r.Err? ==> r.error in {NoNegativeAngle, NoPositiveAngle, MissingPoint, BadOrientation}
    decreases steps
  {
    if steps > 0 {
      var st := Step(s, i, table[i], vertices);
      if st.Ok? {
        WalkFailures(s, table, st.value.0, steps - 1, st.value.1);
      }
    }
  }

  /** A step from row i succeeds only if there are at least three rows: row
      i and one other on each side of it. */
  lemma WalkNeedsThreeRows(s: System, heading: Point -> real, i: nat, steps: nat,
                           vertices: seq<Option<Point>>)
    requires s.WellFormed()
    requires i < |s.A| && steps > 0
    requires Walk(s, NeighbourTable(s, heading), i, steps, vertices).Ok?
    ensures |s.A| >= 3
  {
    var c := Neighbours(s.A, heading, i);
    NeighboursNearest(s.A, heading, i);
    assert c.Ok?;
    var m, p := c.value.maxNeg, c.value.minPos;
    assert NearestNegative(s.A, heading, i, m);
    assert NearestPositive(s.A, heading, i, p);
    assert AngleDiff(s.A, heading, i, m) < 0.0 < AngleDiff(s.A, heading, i, p);
  }

  // ---------------------------------------------------------------------------
  // The walker

  /** The outcome of `find_vertices` on the normalised system s: the walk of
      |s.A| steps from row 0 with no vertices yet. */
  function Vertices(s: System, heading: Point -> real): (r: Result<seq<Option<Point>>, Failure>)
    requires s.WellFormed()
    ensures r.Ok? ==> |r.value| == if |s.A| == 0 then 0 else |s.A| + 1
  {
    WalkLength(s, NeighbourTable(s, heading), 0, |s.A|, []);
    Walk(s, NeighbourTable(s, heading), 0, |s.A|, [])
  }

  /** A successful walk over n > 0 rows yields n + 1 vertices (the first
      step yields two), and needs at least three rows. */
  lemma VerticesShape(s: System, heading: Point -> real)
    requires s.WellFormed()
    ensures var r := Vertices(s, heading);
            r.Ok? ==> |r.value| == (if |s.A| == 0 then 0 else |s.A| + 1) && (|s.A| == 0 || |s.A| >= 3)
    ensures var r := Vertices(s, heading);
            r.Err? ==> r.error in {NoNegativeAngle, NoPositiveAngle, MissingPoint, BadOrientation}
  {
    var n := |s.A|;
    WalkLength(s, NeighbourTable(s, heading), 0, n, []);
    WalkFailures(s, NeighbourTable(s, heading), 0, n, []);
    if Vertices(s, heading).Ok? && n > 0 {
      WalkNeedsThreeRows(s, heading, 0, n, []);
    }
  }

  /** Lines 75-83 at row i: the angles of the other rows, the positions
      `find_max_neg_min_pos` picks among them, mapped back to row numbers. */
  method SelectNeighbours(normals: seq<Point>, indices: seq<nat>, heading: Point -> real, i: nat)
    returns (c: Result<Choice, Failure>)
    requires i < |normals| && indices == Indices(|normals|)
    ensures c == Neighbours(normals, heading, i)
  {
    var ni := normals[i];
    var otherVectors := Without(normals, i);
    var otherIndices := Without(indices, i);
    var angleList := Angles(otherVectors, ni, heading);
    var selected := FindMaxNegMinPos(angleList);
    if selected.Err? {
      return Err(selected.error);
    }
    SelectionInRowNumbers(normals, heading, i, selected);
    var maxNegIndex, minPosIndex := otherIndices[selected.value.0], otherIndices[selected.value.1];
    c := Ok(Choice(maxNegIndex, minPosIndex));
  }

  /** Lines 84-105 at row i with neighbours c: intersect the three lines,
      extend the vertex list or raise, and go on at `min_pos_index`. */
  method Advance(s: System, i: nat, c: Choice, vertices: seq<Option<Point>>)
    returns (r: Result<(nat, seq<Option<Point>>), Failure>)
    requires s.WellFormed() && i < |s.A| && c.maxNeg < |s.A| && c.minPos < |s.A|
    ensures r == Step(s, i, Ok(c), vertices)
  {
    var maxNegIndex, minPosIndex := c.maxNeg, c.minPos;
    var lineA := HalfPlane(s.A[maxNegIndex], s.b[maxNegIndex]);
    var lineB := HalfPlane(s.A[i], s.b[i]);
    var lineC := HalfPlane(s.A[minPosIndex], s.b[minPosIndex]);
    var pc := Intersection(lineA, lineB);
    var pa := Intersection(lineB, lineC);
    var pb := Intersection(lineC, lineA);
    var vs := vertices;
    if |vs| == 0 {
      vs := [pc, pa];
    } else if pb.None? {
      vs := vs + [pa];
    } else if pa.None? || pc.None? {
      return Err(MissingPoint);
    } else if !Ccw(pa.value, pb.value, pc.value) {
      vs := vs + [pa];
    } else {
      return Err(BadOrientation);
    }
    r := Ok((minPosIndex, vs));
  }

  /** One iteration of the loop body, lines 74-105, read against the walk:
      when it fails the walk fails with it, otherwise the walk still to do
      is the rest of the same walk from the row and vertices it returns. */
  method Iterate(s: System, indices: seq<nat>, heading: Point -> real, ghost table: seq<Result<Choice, Failure>>,
                 i: nat, ghost remaining: nat, vertices: seq<Option<Point>>)
    returns (next: Result<(nat, seq<Option<Point>>), Failure>)
    requires s.WellFormed() && TableIsRule(s, heading, table)
    requires i < |s.A| && indices == Indices(|s.A|) && remaining > 0
    ensures next.Err? ==> Walk(s, table, i, remaining, vertices) == Err(next.error)
    ensures next.Ok? ==> next.value.0 < |s.A|
    ensures next.Ok? ==>
              Walk(s, table, i, remaining, vertices) == Walk(s, table, next.value.0, remaining - 1, next.value.1)
  {
    var c := SelectNeighbours(s.A, indices, heading, i);
    assert table[i] == c;
    if c.Err? {
      WalkStops(s, table, i, remaining, vertices, c.error);
      return Err(c.error);
    }
    next := Advance(s, i, c.value, vertices);
    if next.Err? {
      WalkStops(s, table, i, remaining, vertices, next.error);
    } else {
      WalkUnfold(s, table, i, remaining, vertices, next.value.0, next.value.1);
    }
  }

  /** The loop of `find_vertices` over the normalised system s: start at
      row 0 with no vertices and take |s.A| steps, each moving to the
      nearest row on the positive side. `remaining` counts the iterations
      of `for _ in range(n)` still to run. */
  method WalkRows(s: System, heading: Point -> real, ghost table: seq<Result<Choice, Failure>>)
    returns (r: Result<seq<Option<Point>>, Failure>)
    requires s.WellFormed() && TableIsRule(s, heading, table)
    ensures r == Walk(s, table, 0, |s.A|, [])
  {
    var indices := Indices(|s.A|);
    ghost var outcome := Walk(s, table, 0, |s.A|, []);
    var vertices: seq<Option<Point>> := [];
    var i: nat := 0;
    var remaining: nat := |s.A|;
    while remaining > 0
      invariant i < |s.A| || remaining == 0
      invariant Walk(s, table, i, remaining, vertices) == outcome
    {
      var next := Iterate(s, indices, heading, table, i, remaining, vertices);
      if next.Err? {
        return Err(next.error);
      }
      assert Walk(s, table, next.value.0, remaining - 1, next.value.1) == outcome;
      i, vertices := next.value.0, next.value.1;
      remaining := remaining - 1;
    }
    WalkDone(s, table, i, remaining, vertices);
    r := Ok(vertices);
  }

  /** `find_vertices(A, b)`: normalise the rows, then walk them; the result
      has n+1 entries for n > 0 rows (none for no rows), or is the failure of
      the step that stops the walk. */
  method FindVertices(A: seq<Point>, b: seq<real>, heading: Point -> real, norm: Point -> real)
    returns (r: Result<seq<Option<Point>>, Failure>)
    requires |b| == |A|
    requires forall k :: 0 <= k < |A| ==> norm(A[k]) > 0.0
    ensures r == Vertices(Normalize(System(A, b), norm), heading)
    ensures r.Ok? ==> |r.value| == if |A| == 0 then 0 else |A| + 1
    ensures r.Ok? ==> |A| == 0 || |A| >= 3
    ensures r.Err? ==> r.error in {NoNegativeAngle, NoPositiveAngle, MissingPoint, BadOrientation}
  {
    var s := Normalize(System(A, b), norm);
    r := WalkRows(s, heading, NeighbourTable(s, heading));
    VerticesShape(s, heading);
  }
}
