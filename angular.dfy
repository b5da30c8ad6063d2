/** The angle arithmetic of `angles` and the neighbour selection
    `find_max_neg_min_pos` of plots/plot_convex_set_2.py. */
module Angular {
  import opened Wrappers
  import opened Errors
  import opened Planar

  // ---------------------------------------------------------------------------
  // Wrapping an angle difference

  /** True iff r has no fractional part. */
  predicate IsInteger(r: real) {
    r == r.Floor as real
  }

  /** `((d + 180) % 360) - 180` with Python's remainder, whose result takes
      the sign of the divisor: the representative of d modulo 360 degrees in
      [-180, 180). */
  function Wrap(d: real): (r: real)
    ensures -180.0 <= r < 180.0
    ensures IsInteger((d - r) / 360.0)
  {
    var s := d + 180.0;
    var turns := (s / 360.0).Floor;
    assert (d - (s - 360.0 * turns as real - 180.0)) / 360.0 == turns as real;
    s - 360.0 * turns as real - 180.0
  }

  /** Wrap picks the only value of [-180, 180) that differs from d by whole
      turns. */
  lemma WrapUnique(d: real, e: real)
    requires -180.0 <= e < 180.0
    requires IsInteger((d - e) / 360.0)
    ensures Wrap(d) == e
  {
    var k := ((d - e) / 360.0).Floor;
    var s := d + 180.0;
    assert s / 360.0 == (e + 180.0) / 360.0 + k as real;
    assert 0.0 <= (e + 180.0) / 360.0 < 1.0;
    assert (s / 360.0).Floor == k;
  }

  /** Wrapping twice is wrapping once. */
  lemma WrapIdempotent(d: real)
    ensures Wrap(Wrap(d)) == Wrap(d)
  {
    var e := Wrap(d);
    assert (e - e) / 360.0 == 0.0;
    WrapUnique(e, e);
  }

  /** Whole turns added to the difference do not change the wrapped value. */
  lemma WrapPeriodic(d: real, k: int)
    ensures Wrap(d + 360.0 * k as real) == Wrap(d)
  {
    var e := Wrap(d);
    var m := ((d - e) / 360.0).Floor;
    var shifted := d + 360.0 * k as real;
    assert (shifted - e) / 360.0 == (m + k) as real by {
      assert (d - e) / 360.0 == m as real;
      assert (shifted - e) / 360.0 == (d - e) / 360.0 + k as real;
    }
    assert ((m + k) as real).Floor == m + k;
    WrapUnique(shifted, e);
  }

  /** `angles(vectors, current_vector)` with `arctan2` abstracted: heading(v)
      is the direction of v in degrees, and entry k is the wrapped difference
      from the direction of vectors[k] to that of current. */
  function Angles(vectors: seq<Point>, current: Point, heading: Point -> real): (r: seq<real>)
    ensures |r| == |vectors|
    ensures forall k :: 0 <= k < |r| ==>
              -180.0 <= r[k] < 180.0 && IsInteger((heading(current) - heading(vectors[k]) - r[k]) / 360.0)
  {
    seq(|vectors|, k requires 0 <= k < |vectors| => Wrap(heading(current) - heading(vectors[k])))
  }

  // ---------------------------------------------------------------------------
  // Selecting the nearest neighbour on each side

  predicate IsNegative(r: real) { r < 0.0 }

  predicate IsPositive(r: real) { r > 0.0 }

  /** True iff the entries of s increase strictly. */
  predicate Increasing(s: seq<nat>) {
    forall p, q :: 0 <= p < q < |s| ==> s[p] < s[q]
  }

  /** `[i for i in range(m) if keep(values[i])]`: the positions below m whose
      value passes the test, in ascending order. */
  function Positions(values: seq<real>, keep: real -> bool, m: nat): (r: seq<nat>)
    requires m <= |values|
    ensures Increasing(r)
    ensures forall q :: 0 <= q < |r| ==> r[q] < m && keep(values[r[q]])
    ensures forall j :: 0 <= j < m && keep(values[j]) ==> j in r
    decreases m
  {
    if m == 0 then []
    else Positions(values, keep, m - 1) + (if keep(values[m - 1]) then [m - 1] else [])
  }

  /** `values[idx]` in numpy's indexing by a list of positions. */
  function Pick(values: seq<real>, idx: seq<nat>): (r: seq<real>)
    requires forall q :: 0 <= q < |idx| ==> idx[q] < |values|
    ensures |r| == |idx|
    ensures forall q :: 0 <= q < |r| ==> r[q] == values[idx[q]]
  {
    seq(|idx|, q requires 0 <= q < |idx| => values[idx[q]])
  }

  /** `np.argmax`: the first position of a largest entry. */
  function ArgMax(xs: seq<real>): (k: nat)
    requires |xs| > 0
    ensures k < |xs|
    ensures forall j :: 0 <= j < |xs| ==> xs[j] <= xs[k]
    ensures forall j :: 0 <= j < k ==> xs[j] < xs[k]
    decreases |xs|
  {
    if |xs| == 1 then 0
    else
      var k := ArgMax(xs[..|xs| - 1]);
      if xs[|xs| - 1] > xs[k] then |xs| - 1 else k
  }

  /** `np.argmin`: the first position of a smallest entry. */
  function ArgMin(xs: seq<real>): (k: nat)
    requires |xs| > 0
    ensures k < |xs|
    ensures forall j :: 0 <= j < |xs| ==> xs[k] <= xs[j]
    ensures forall j :: 0 <= j < k ==> xs[k] < xs[j]
    decreases |xs|
  {
    if |xs| == 1 then 0
    else
      var k := ArgMin(xs[..|xs| - 1]);
      if xs[|xs| - 1] < xs[k] then |xs| - 1 else k
  }

  /** k holds the negative value nearest zero, and no earlier position holds
      the same value. */
  predicate IsMaxNeg(values: seq<real>, k: nat) {
    && k < |values|
    && values[k] < 0.0
    && (forall j :: 0 <= j < |values| && values[j] < 0.0 ==> values[j] <= values[k])
    && (forall j :: 0 <= j < k && values[j] < 0.0 ==> values[j] < values[k])
  }

  /** k holds the positive value nearest zero, and no earlier position holds
      the same value. */
  predicate IsMinPos(values: seq<real>, k: nat) {
    && k < |values|
    && values[k] > 0.0
    && (forall j :: 0 <= j < |values| && values[j] > 0.0 ==> values[k] <= values[j])
    && (forall j :: 0 <= j < k && values[j] > 0.0 ==> values[k] < values[j])
  }

  /** The selection contract names one position only. */
  lemma MaxNegUnique(values: seq<real>, k1: nat, k2: nat)
    requires IsMaxNeg(values, k1) && IsMaxNeg(values, k2)
    ensures k1 == k2
  {
  }

  /** The same holds on the positive side. */
  lemma MinPosUnique(values: seq<real>, k1: nat, k2: nat)
    requires IsMinPos(values, k1) && IsMinPos(values, k2)
    ensures k1 == k2
  {
  }

  /** The entry at position positions[a] of values, chosen by ArgMax or ArgMin
      over Pick(values, positions), is the first of its kind among the kept
      positions. */
  lemma PickedIsFirst(values: seq<real>, positions: seq<nat>, a: nat, j: nat)
    requires Increasing(positions)
    requires forall q :: 0 <= q < |positions| ==> positions[q] < |values|
    requires a < |positions| && j in positions && j < positions[a]
    ensures exists q :: 0 <= q < a && positions[q] == j
  {
    var q :| 0 <= q < |positions| && positions[q] == j;
  }

  /** Over kept positions that hold exactly the negative entries, the
      position ArgMax picks is the largest negative value, the first one on
      ties. */
  lemma ArgMaxOverNegatives(values: seq<real>, neg: seq<nat>)
    requires Increasing(neg) && neg != []
    requires forall q :: 0 <= q < |neg| ==> neg[q] < |values| && values[neg[q]] < 0.0
    requires forall j :: 0 <= j < |values| && values[j] < 0.0 ==> j in neg
    ensures IsMaxNeg(values, neg[ArgMax(Pick(values, neg))])
  {
    var picked := Pick(values, neg);
    var a := ArgMax(picked);
    var k := neg[a];
    forall j | 0 <= j < |values| && values[j] < 0.0 ensures values[j] <= values[k] {
      var q :| 0 <= q < |neg| && neg[q] == j;
      assert picked[q] <= picked[a];
    }
    forall j | 0 <= j < k && values[j] < 0.0 ensures values[j] < values[k] {
      PickedIsFirst(values, neg, a, j);
      var q :| 0 <= q < a && neg[q] == j;
      assert picked[q] < picked[a];
    }
  }

  /** Over kept positions that hold exactly the positive entries, the
      position ArgMin picks is the smallest positive value, the first one on
      ties. */
  lemma ArgMinOverPositives(values: seq<real>, pos: seq<nat>)
    requires Increasing(pos) && pos != []
    requires forall q :: 0 <= q < |pos| ==> pos[q] < |values| && values[pos[q]] > 0.0
    requires forall j :: 0 <= j < |values| && values[j] > 0.0 ==> j in pos
    ensures IsMinPos(values, pos[ArgMin(Pick(values, pos))])
  {
    var picked := Pick(values, pos);
    var c := ArgMin(picked);
    var k := pos[c];
    forall j | 0 <= j < |values| && values[j] > 0.0 ensures values[k] <= values[j] {
      var q :| 0 <= q < |pos| && pos[q] == j;
      assert picked[c] <= picked[q];
    }
    forall j | 0 <= j < k && values[j] > 0.0 ensures values[k] < values[j] {
      PickedIsFirst(values, pos, c, j);
      var q :| 0 <= q < c && pos[q] == j;
      assert picked[c] < picked[q];
    }
  }

  /** `find_max_neg_min_pos(values)`: the position of the largest negative
      value and of the smallest positive value, the first one on ties; it
      fails when either side is empty, the negative side being looked at
      first. */
  function FindMaxNegMinPos(values: seq<real>): (r: Result<(nat, nat), Failure>)
    ensures r.Ok? || r == Err(NoNegativeAngle) || r == Err(NoPositiveAngle)
    ensures r == Err(NoNegativeAngle) <==> forall j :: 0 <= j < |values| ==> values[j] >= 0.0
    ensures r == Err(NoPositiveAngle) <==>
              (exists j :: 0 <= j < |values| && values[j] < 0.0) &&
              (forall j :: 0 <= j < |values| ==> values[j] <= 0.0)
    ensures r.Ok? ==> IsMaxNeg(values, r.value.0) && IsMinPos(values, r.value.1)
  {
    var neg := Positions(values, IsNegative, |values|);
    var pos := Positions(values, IsPositive, |values|);
    if |neg| == 0 then
      Err(NoNegativeAngle)
    else
      ArgMaxOverNegatives(values, neg);
      var maxNeg := neg[ArgMax(Pick(values, neg))];
      if |pos| == 0 then
        Err(NoPositiveAngle)
      else
        ArgMinOverPositives(values, pos);
        Ok((maxNeg, pos[ArgMin(Pick(values, pos))]))
  }
}
