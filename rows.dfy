/**
 * Dense constraint rows over the segment currents: one coefficient per
 * segment, as the numpy rows of wireframe.py:350-459 and 761-770 hold them.
 */
module Rows {
  import opened Grid

  function Zeros(n: nat): (r: seq<real>)
    ensures |r| == n && forall k | 0 <= k < n :: r[k] == 0.0
  {
    seq(n, _ => 0.0)
  }

  /** The row times the current vector. */
  function Dot(r: seq<real>, x: seq<real>): real
    requires |r| == |x|
    decreases |r|
  {
    if r == [] then 0.0 else Dot(r[..|r| - 1], x[..|x| - 1]) + r[|r| - 1] * x[|x| - 1]
  }

  /** Changing one coefficient changes the product by that coefficient's share. */
  lemma {:induction false} DotUpdate(r: seq<real>, x: seq<real>, k: nat, v: real)
    requires |r| == |x| && k < |r|
    ensures Dot(r[k := v], x) == Dot(r, x) + (v - r[k]) * x[k]
    decreases |r|
  {
    var n := |r|;
    if k < n - 1 {
      assert r[k := v][..n - 1] == r[..n - 1][k := v];
      DotUpdate(r[..n - 1], x[..n - 1], k, v);
    } else {
      assert r[k := v][..n - 1] == r[..n - 1];
    }
  }

  lemma {:induction false} DotZeros(x: seq<real>)
    ensures Dot(Zeros(|x|), x) == 0.0
    decreases |x|
  {
    if x != [] {
      assert Zeros(|x|)[..|x| - 1] == Zeros(|x| - 1);
      DotZeros(x[..|x| - 1]);
    }
  }

  lemma {:induction false} DotWithZeros(r: seq<real>)
    ensures Dot(r, Zeros(|r|)) == 0.0
    decreases |r|
  {
    if r != [] {
      assert Zeros(|r|)[..|r| - 1] == Zeros(|r| - 1);
      DotWithZeros(r[..|r| - 1]);
    }
  }

  /** Element-wise sum of two current vectors: `tf_currents + self.currents`. */
  function Plus(x: seq<real>, y: seq<real>): (z: seq<real>)
    requires |x| == |y|
    ensures |z| == |x| && forall k | 0 <= k < |x| :: z[k] == x[k] + y[k]
  {
    seq(|x|, k requires 0 <= k < |x| => x[k] + y[k])
  }

  /** A row is linear in the currents. */
  lemma {:induction false} DotPlus(r: seq<real>, x: seq<real>, y: seq<real>)
    requires |r| == |x| == |y|
    ensures Dot(r, Plus(x, y)) == Dot(r, x) + Dot(r, y)
    decreases |r|
  {
    if r != [] {
      var n := |r|;
      assert Plus(x, y)[..n - 1] == Plus(x[..n - 1], y[..n - 1]);
      DotPlus(r[..n - 1], x[..n - 1], y[..n - 1]);
    }
  }

  /** The row of a segment pin: coefficient 1 on segment k (wireframe.py:495-496). */
  function UnitRow(n: nat, k: nat): seq<real>
    requires k < n
  {
    Zeros(n)[k := 1.0]
  }

  /** A segment pin reads exactly the current of its segment. */
  lemma DotUnit(x: seq<real>, k: nat)
    requires k < |x|
    ensures Dot(UnitRow(|x|, k), x) == x[k]
  {
    DotZeros(x);
    DotSetSign(Zeros(|x|), x, k, true);
  }

  predicate SlotsIn(l: Links, n: nat)
  {
    0 <= l.torIn < n && 0 <= l.polIn < n && 0 <= l.torOut < n && 0 <= l.polOut < n
  }

  predicate SlotsDistinct(l: Links)
  {
    l.torIn != l.polIn && l.torIn != l.torOut && l.torIn != l.polOut
    && l.polIn != l.torOut && l.polIn != l.polOut && l.torOut != l.polOut
  }

  /**
   * The continuity row of a node: -1 on the incoming segments and +1 on the
   * outgoing ones, the later assignment winning where slots coincide
   * (wireframe.py:766-768).
   */
  function ContinuityRow(n: nat, l: Links): (r: seq<real>)
    requires SlotsIn(l, n)
    ensures |r| == n
  {
    Zeros(n)[l.torIn := -1.0][l.polIn := -1.0][l.torOut := 1.0][l.polOut := 1.0]
  }

  /** Setting a zero coefficient to +1 or -1 adds or subtracts that segment's current. */
  lemma DotSetSign(r: seq<real>, x: seq<real>, k: nat, positive: bool)
    requires |r| == |x| && k < |r| && r[k] == 0.0
    ensures Dot(r[k := if positive then 1.0 else -1.0], x) == if positive then Dot(r, x) + x[k] else Dot(r, x) - x[k]
  {
    DotUpdate(r, x, k, if positive then 1.0 else -1.0);
  }

  /** For four distinct segments the continuity row states Kirchhoff's law at the node. */
  lemma ContinuityDot(l: Links, x: seq<real>)
    requires SlotsIn(l, |x|) && SlotsDistinct(l)
    ensures Dot(ContinuityRow(|x|, l), x) == x[l.torOut] + x[l.polOut] - x[l.torIn] - x[l.polIn]
  {
    var n := |x|;
    var r0 := Zeros(n);
    var r1 := r0[l.torIn := -1.0];
    var r2 := r1[l.polIn := -1.0];
    var r3 := r2[l.torOut := 1.0];
    DotZeros(x);
    DotSetSign(r0, x, l.torIn, false);
    DotSetSign(r1, x, l.polIn, false);
    DotSetSign(r2, x, l.torOut, true);
    DotSetSign(r3, x, l.polOut, true);
  }

  /** The row of the toroidal current constraint: 1 on the first nTheta segments (wireframe.py:427-428). */
  function ToroidalCurrentRow(n: nat, nTheta: nat): seq<real>
  {
    seq(n, k => if k < nTheta then 1.0 else 0.0)
  }

  /** numpy's `row[start:stop:step] = 1`. */
  function SliceOnes(row: seq<real>, start: nat, stop: nat, step: nat): (r: seq<real>)
    requires step > 0 && stop <= |row|
    ensures |r| == |row|
    decreases stop - start
  {
    if start >= stop then row else SliceOnes(row[start := 1.0], start + step, stop, step)
  }

  /** The entries a strided slice sets are those a whole number of steps past its start. */
  lemma {:induction false} SliceOnesAt(row: seq<real>, start: nat, stop: nat, step: nat, k: nat)
    requires step > 0 && stop <= |row| && k < |row|
    ensures SliceOnes(row, start, stop, step)[k] ==
              if start <= k < stop && Unflatten(k - start, step).1 == 0 then 1.0 else row[k]
    decreases stop - start
  {
    if start < stop {
      SliceOnesAt(row[start := 1.0], start + step, stop, step, k);
      if k >= start + step {
        assert Unflatten(k - start, step) == (Unflatten(k - (start + step), step).0 + 1, Unflatten(k - (start + step), step).1);
      }
    }
  }

  /**
   * The row of the poloidal current constraint (wireframe.py:366-379): one
   * poloidal segment on the first symmetry plane, then two strided slices.
   */
  function PoloidalCurrentRow(g: Dims): (r: seq<real>)
    requires g.Valid()
    ensures |r| == g.NSegments()
  {
    var h, nT, nSeg := g.Half(), g.nTheta, g.NSegments();
    var ind0 := g.NTorSegments() + h - 1;
    var ind1a := ind0 + h;
    var ind1b := ind1a + 1;
    var ind2b := nSeg - nT + 1;
    var r0 := Zeros(nSeg)[ind0 := 1.0];
    SliceOnes(SliceOnes(r0, ind1a, nSeg, nT), ind1b, ind2b, nT)
  }

  /** The sum of the entries of x that sel selects. */
  function SumSelected(x: seq<real>, sel: seq<bool>): real
    requires |sel| == |x|
    decreases |x|
  {
    if x == [] then 0.0
    else SumSelected(x[..|x| - 1], sel[..|sel| - 1]) + (if sel[|sel| - 1] then x[|x| - 1] else 0.0)
  }

  /** A row of ones and zeros sums the entries where it holds a one. */
  lemma {:induction false} DotIndicator(r: seq<real>, x: seq<real>, sel: seq<bool>)
    requires |r| == |x| == |sel|
    requires forall k | 0 <= k < |r| :: r[k] == if sel[k] then 1.0 else 0.0
    ensures Dot(r, x) == SumSelected(x, sel)
    decreases |r|
  {
    if r != [] {
      DotIndicator(r[..|r| - 1], x[..|x| - 1], sel[..|sel| - 1]);
    }
  }

  /** |v|, for the residual test. */
  function Abs(v: real): real { if v < 0.0 then -v else v }

  /** A row meets x only where one of the two is zero: the product vanishes. */
  lemma {:induction false} DotVanishes(r: seq<real>, x: seq<real>)
    requires |r| == |x| && forall k | 0 <= k < |r| :: r[k] == 0.0 || x[k] == 0.0
    ensures Dot(r, x) == 0.0
    decreases |r|
  {
    if r != [] {
      DotVanishes(r[..|r| - 1], x[..|x| - 1]);
    }
  }

  /** A Kirchhoff row vanishes on currents that are zero on all four of the node's links. */
  lemma ContinuityVanishes(l: Links, x: seq<real>)
    requires SlotsIn(l, |x|)
    requires x[l.torIn] == 0.0 && x[l.polIn] == 0.0 && x[l.torOut] == 0.0 && x[l.polOut] == 0.0
    ensures Dot(ContinuityRow(|x|, l), x) == 0.0
  {
    DotVanishes(ContinuityRow(|x|, l), x);
  }
}
