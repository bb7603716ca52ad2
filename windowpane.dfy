/**
 * The `windowpane_wireframe` factory (wireframe.py:1442-1532): a wireframe
 * whose only free segments trace nCoilsTor x nCoilsPol rectangular coils.
 * Each coil spans sizeTor x sizePol cells; neighbouring coils are gapTor
 * and gapPol cells apart, and half a gap separates the outer coils from the
 * grid edges.
 *
 * The source collects the ids of the coil segments with index arithmetic,
 * marks them in a mask of all segments and pins every segment outside the
 * mask. Two of its index formulas go wrong when a gap is zero: with
 * gap_tor == 0 the coil sides land on the symmetry planes and their ids run
 * past the last segment, and with gap_pol == 0 the top edge of the highest
 * coil row is placed one column further on. `WindowpaneWireframeAsWritten`
 * models the code as it stands; `WindowpaneWireframe` rejects a zero
 * toroidal gap and wraps the top edge round the poloidal direction.
 */
module Windowpane {
  import opened Wrappers
  import opened Names
  import opened Grid
  import opened Rows
  import opened Constraints
  import opened Circuit
  import opened Export
  import opened Wireframe

  /** The six integer arguments, once known to be non-negative. */
  datatype Layout = Layout(nCoilsTor: nat, nCoilsPol: nat, sizeTor: nat, sizePol: nat, gapTor: nat, gapPol: nat)
  {
    predicate Even()
    {
      sizeTor % 2 == 0 && sizePol % 2 == 0 && gapTor % 2 == 0 && gapPol % 2 == 0
    }

    function UnitTor(): nat { sizeTor + gapTor }
    function UnitPol(): nat { sizePol + gapPol }
    function NPhi(): nat { nCoilsTor * UnitTor() }
    function NTheta(): nat { nCoilsPol * UnitPol() }
    /** `int(0.5*gap_tor)` of an even, non-negative gap. */
    function HalfGapTor(): nat { gapTor / 2 }
    function HalfGapPol(): nat { gapPol / 2 }
    function GridDims(): Dims { Dims(NPhi(), NTheta()) }

    /** Layouts the corrected factory places coils on: even, non-empty, with a toroidal gap. */
    predicate Placeable()
    {
      Even() && nCoilsTor > 0 && nCoilsPol > 0 && UnitPol() > 0 && gapTor > 0
    }
  }

  /**
   * The argument checks: the evenness test of the source (wireframe.py:1482),
   * then non-negativity, which the source leaves unchecked.
   */
  function LayoutOf(nCoilsTor: int, nCoilsPol: int, sizeTor: int, sizePol: int, gapTor: int, gapPol: int): (r: Result<Layout, Error>)
    ensures r.Ok? <==> sizeTor % 2 == 0 && sizePol % 2 == 0 && gapTor % 2 == 0 && gapPol % 2 == 0
                       && nCoilsTor >= 0 && nCoilsPol >= 0 && sizeTor >= 0 && sizePol >= 0 && gapTor >= 0 && gapPol >= 0
    ensures r.Ok? ==> r.value.Even()
                      && r.value.nCoilsTor == nCoilsTor && r.value.nCoilsPol == nCoilsPol
                      && r.value.sizeTor == sizeTor && r.value.sizePol == sizePol
                      && r.value.gapTor == gapTor && r.value.gapPol == gapPol
    ensures r.Err? ==> r.error == if sizeTor % 2 != 0 || sizePol % 2 != 0 || gapTor % 2 != 0 || gapPol % 2 != 0
                                  then OddWindowpaneSizes else NegativeWindowpaneSize
  {
    if sizeTor % 2 != 0 || sizePol % 2 != 0 || gapTor % 2 != 0 || gapPol % 2 != 0 then Err(OddWindowpaneSizes)
    else if nCoilsTor < 0 || nCoilsPol < 0 || sizeTor < 0 || sizePol < 0 || gapTor < 0 || gapPol < 0 then
      Err(NegativeWindowpaneSize)
    else Ok(Layout(nCoilsTor, nCoilsPol, sizeTor, sizePol, gapTor, gapPol))
  }

  /** A product with an even factor is even. */
  lemma EvenProduct(a: nat, b: nat)
    requires b % 2 == 0
    ensures (a * b) % 2 == 0
  {
    assert a * b == 2 * (a * (b / 2));
  }

  /** The grid of a layout has even dimensions; it is a valid grid once both are positive. */
  lemma LayoutGrid(L: Layout)
    requires L.Even()
    ensures L.NPhi() % 2 == 0 && L.NTheta() % 2 == 0
    ensures L.NPhi() > 0 && L.NTheta() > 0 ==> L.GridDims().Valid()
  {
    EvenProduct(L.nCoilsTor, L.UnitTor());
    EvenProduct(L.nCoilsPol, L.UnitPol());
  }

  // ---------------------------------------------------------------------------
  // The coil segment ids (wireframe.py:1491-1523)

  /** `np.arange(start, stop, step)` for a positive step. */
  function Arange(start: int, stop: int, step: nat): (r: seq<int>)
    requires step > 0
    decreases stop - start
  {
    if start >= stop then [] else [start] + Arange(start + step, stop, step)
  }

  /** arange lists start, start + step, ... up to but not including stop: the next one would reach it. */
  lemma {:induction false} ArangeSpec(start: int, stop: int, step: nat)
    requires step > 0
    ensures forall t | 0 <= t < |Arange(start, stop, step)| :: Arange(start, stop, step)[t] == start + t * step < stop
    ensures start + |Arange(start, stop, step)| * step >= stop
    decreases stop - start
  {
    if start < stop {
      var r, rest := Arange(start, stop, step), Arange(start + step, stop, step);
      ArangeSpec(start + step, stop, step);
      forall t | 1 <= t < |r|
        ensures r[t] == start + t * step
      {
        assert r[t] == rest[t - 1];
        assert (t - 1) * step + step == t * step;
      }
      assert (|rest| + 1) * step == |rest| * step + step;
    }
  }

  /** arange holds count values when the last of them falls below stop and the next one does not. */
  lemma {:induction false} ArangeCount(start: int, stop: int, step: nat, count: nat)
    requires step > 0 && stop <= start + count * step
    requires count > 0 ==> start + (count - 1) * step < stop
    ensures |Arange(start, stop, step)| == count
    decreases count
  {
    if count > 0 {
      assert (count - 1) * step + step == count * step;
      if count > 1 {
        assert (count - 2) * step + step == (count - 1) * step;
      }
      ArangeCount(start + step, stop, step, count - 1);
    }
  }

  /** Counting from an offset below one step up to count whole steps gives count values. */
  lemma ArangeLength(start: nat, count: nat, step: nat)
    requires step > 0 && start < step
    ensures |Arange(start, count * step, step)| == count
  {
    if count > 0 {
      assert (count - 1) * step + step == count * step;
    }
    ArangeCount(start, count * step, step, count);
  }

  /** Strict products with a common positive factor order their other factors. */
  lemma MulLt(a: nat, b: nat, c: nat)
    requires a * c < b * c
    ensures a < b
  {
    assert b * c - a * c == (b - a) * c;
  }

  /** A numpy array plus a scalar. */
  function Shift(xs: seq<int>, d: int): (r: seq<int>)
    ensures |r| == |xs| && forall t | 0 <= t < |r| :: r[t] == xs[t] + d
  {
    seq(|xs|, t requires 0 <= t < |xs| => xs[t] + d)
  }

  /** A poloidal row of the periodic grid: row nTheta is row 0 again. */
  function Wrap(x: int, nTheta: nat): int
  {
    if x >= nTheta then x - nTheta else x
  }

  function WrapRows(rows: seq<int>, d: nat, nTheta: nat): (r: seq<int>)
    ensures |r| == |rows| && forall t | 0 <= t < |r| :: r[t] == Wrap(rows[t] + d, nTheta)
  {
    seq(|rows|, t requires 0 <= t < |rows| => Wrap(rows[t] + d, nTheta))
  }

  /** The rows of the coils' bottom edges: `np.arange(half_gap_pol, nTheta, unit_pol)`. */
  function BottomRows(L: Layout): seq<int>
    requires L.UnitPol() > 0
  {
    Arange(L.HalfGapPol(), L.NTheta(), L.UnitPol())
  }

  /**
   * `inds_bot` and `inds_top` of toroidal column j of coil column i. As
   * written the top edge is the bottom edge plus size_pol; with wrapTop the
   * row is taken round the poloidal direction.
   */
  function TorPart(L: Layout, i: nat, j: nat, wrapTop: bool): seq<int>
    requires L.UnitPol() > 0
  {
    var offs := i * (L.UnitTor() * L.NTheta()) + j * L.NTheta();
    var bot := Shift(BottomRows(L), offs);
    bot + (if wrapTop then Shift(WrapRows(BottomRows(L), L.sizePol, L.NTheta()), offs) else Shift(bot, L.sizePol))
  }

  /** `offs_left` of coil (i, j). */
  function OffsLeft(L: Layout, i: nat, j: nat): int
  {
    var nT := L.NTheta();
    i * (L.UnitTor() * nT) + L.HalfGapTor() * nT - nT / 2 + j * L.UnitPol() + L.GridDims().NTorSegments()
  }

  /** `inds_left` and `inds_right` of coil (i, j). */
  function PolPart(L: Layout, i: nat, j: nat): seq<int>
  {
    var inds := Arange(L.HalfGapPol(), L.HalfGapPol() + L.sizePol, 1);
    Shift(inds, OffsLeft(L, i, j)) + Shift(inds, OffsLeft(L, i, j) + L.sizeTor * L.NTheta())
  }

  /** The toroidal parts of coil column i for the columns before j. */
  function TorColumns(L: Layout, i: nat, j: nat, wrapTop: bool): seq<int>
    requires L.UnitPol() > 0
    decreases j
  {
    if j <= L.HalfGapTor() then [] else TorColumns(L, i, j - 1, wrapTop) + TorPart(L, i, j - 1, wrapTop)
  }

  /** The toroidal parts of the coil columns before i. */
  function TorCoils(L: Layout, i: nat, wrapTop: bool): seq<int>
    requires L.UnitPol() > 0
  {
    if i == 0 then [] else TorCoils(L, i - 1, wrapTop) + TorColumns(L, i - 1, L.HalfGapTor() + L.sizeTor, wrapTop)
  }

  /** The poloidal parts of coil column i for the coil rows before j. */
  function PolRows(L: Layout, i: nat, j: nat): seq<int>
  {
    if j == 0 then [] else PolRows(L, i, j - 1) + PolPart(L, i, j - 1)
  }

  function PolCoils(L: Layout, i: nat): seq<int>
  {
    if i == 0 then [] else PolCoils(L, i - 1) + PolRows(L, i - 1, L.nCoilsPol)
  }

  /** `inds_coils` once both double loops have run. */
  function CoilIds(L: Layout, wrapTop: bool): seq<int>
    requires L.UnitPol() > 0
  {
    TorCoils(L, L.nCoilsTor, wrapTop) + PolCoils(L, L.nCoilsTor)
  }

  /** The inner loop over the toroidal columns of coil column i. */
  method TorColumnSegments(L: Layout, i: nat, wrapTop: bool) returns (ids: seq<int>)
    requires L.UnitPol() > 0
    ensures ids == TorColumns(L, i, L.HalfGapTor() + L.sizeTor, wrapTop)
  {
    var nT := L.NTheta();
    ids := [];
    for j := L.HalfGapTor() to L.HalfGapTor() + L.sizeTor
      invariant ids == TorColumns(L, i, j, wrapTop)
    {
      var offs := i * (L.UnitTor() * nT) + j * nT;
      var rows := Arange(L.HalfGapPol(), nT, L.UnitPol());
      var bot := Shift(rows, offs);
      var top := if wrapTop then Shift(WrapRows(rows, L.sizePol, nT), offs) else Shift(bot, L.sizePol);
      assert bot + top == TorPart(L, i, j, wrapTop);
      ids := ids + (bot + top);
    }
  }

  /** The inner loop over the coil rows of coil column i. */
  method PolRowSegments(L: Layout, i: nat) returns (ids: seq<int>)
    ensures ids == PolRows(L, i, L.nCoilsPol)
  {
    var nT := L.NTheta();
    ids := [];
    for j := 0 to L.nCoilsPol
      invariant ids == PolRows(L, i, j)
    {
      var offsLeft := i * (L.UnitTor() * nT) + L.HalfGapTor() * nT - nT / 2 + j * L.UnitPol() + L.GridDims().NTorSegments();
      var offsRight := offsLeft + L.sizeTor * nT;
      var inds := Arange(L.HalfGapPol(), L.HalfGapPol() + L.sizePol, 1);
      ids := ids + (Shift(inds, offsLeft) + Shift(inds, offsRight));
    }
  }

  /** The two double loops of the factory, appending to one list of ids. */
  method CoilSegments(L: Layout, wrapTop: bool) returns (ids: seq<int>)
    requires L.UnitPol() > 0
    ensures ids == CoilIds(L, wrapTop)
  {
    ids := [];
    for i := 0 to L.nCoilsTor
      invariant ids == TorCoils(L, i, wrapTop)
    {
      var part := TorColumnSegments(L, i, wrapTop);
      ids := ids + part;
    }
    ghost var tor := ids;
    for i := 0 to L.nCoilsTor
      invariant ids == tor + PolCoils(L, i)
    {
      var part := PolRowSegments(L, i);
      assert tor + PolCoils(L, i + 1) == (tor + PolCoils(L, i)) + part;
      ids := ids + part;
    }
  }

  // ---------------------------------------------------------------------------
  // Where the corrected ids lie on the grid

  /** The grid column of toroidal column j of coil column i. */
  function Column(L: Layout, i: nat, j: nat): nat { i * L.UnitTor() + j }

  function BottomRow(L: Layout, m: nat): nat { L.HalfGapPol() + m * L.UnitPol() }

  function TopRow(L: Layout, m: nat): int { Wrap(BottomRow(L, m) + L.sizePol, L.NTheta()) }

  /** The grid columns of the left and right sides of the coils in coil column i. */
  function LeftColumn(L: Layout, i: nat): nat { i * L.UnitTor() + L.HalfGapTor() }

  function RightColumn(L: Layout, i: nat): nat { LeftColumn(L, i) + L.sizeTor }

  /** Row k of the sides of the coils in coil row j. */
  function SideRow(L: Layout, j: nat, k: nat): nat { j * L.UnitPol() + L.HalfGapPol() + k }

  lemma ColumnOffset(i: nat, u: nat, j: nat, n: nat)
    ensures (i * u + j) * n == i * (u * n) + j * n
  {
  }

  /** There are nCoilsPol bottom rows, each below nTheta. */
  lemma BottomRowsSpec(L: Layout)
    requires L.Placeable()
    ensures |BottomRows(L)| == L.nCoilsPol
    ensures forall m | 0 <= m < L.nCoilsPol :: BottomRows(L)[m] == BottomRow(L, m) < L.NTheta()
  {
    ArangeSpec(L.HalfGapPol(), L.NTheta(), L.UnitPol());
    ArangeLength(L.HalfGapPol(), L.nCoilsPol, L.UnitPol());
  }

  /**
   * Corrected toroidal part: the bottom and top edges of the coils in one
   * grid column, each the segment leaving the node at that column and row.
   */
  lemma TorPartKeys(L: Layout, i: nat, j: nat)
    requires L.Placeable() && i < L.nCoilsTor && L.HalfGapTor() <= j < L.HalfGapTor() + L.sizeTor
    ensures Column(L, i, j) < L.NPhi()
    ensures |TorPart(L, i, j, true)| == 2 * L.nCoilsPol
    ensures forall m | 0 <= m < L.nCoilsPol ::
              && BottomRow(L, m) < L.NTheta() && 0 <= TopRow(L, m) < L.NTheta()
              && TorPart(L, i, j, true)[m] == TorSegmentKey(L.GridDims(), Column(L, i, j), BottomRow(L, m))
              && TorPart(L, i, j, true)[L.nCoilsPol + m] == TorSegmentKey(L.GridDims(), Column(L, i, j), TopRow(L, m))
  {
    var g, nT, c := L.GridDims(), L.NTheta(), Column(L, i, j);
    MulLe(i + 1, L.nCoilsTor, L.UnitTor());
    BottomRowsSpec(L);
    ColumnOffset(i, L.UnitTor(), j, nT);
    MulLe(1, L.nCoilsPol, L.UnitPol());
  }

  /** A poloidal segment key at an interior column, written as the source's offsets compute it. */
  lemma InteriorKey(g: Dims, c: nat, row: nat)
    requires g.Valid() && 0 < c < g.nPhi && row < g.nTheta
    ensures PolSegmentKey(g, c, row) == g.NTorSegments() + c * g.nTheta - g.Half() + row
  {
    assert (c - 1) * g.nTheta == c * g.nTheta - g.nTheta;
  }

  /** With a positive toroidal gap the sides of every coil lie strictly between the symmetry planes. */
  lemma SidesInside(L: Layout, i: nat)
    requires L.Placeable() && i < L.nCoilsTor
    ensures 0 < LeftColumn(L, i) && RightColumn(L, i) < L.NPhi()
  {
    assert 1 <= L.HalfGapTor() < L.gapTor;
    MulLe(i + 1, L.nCoilsTor, L.UnitTor());
    assert (i + 1) * L.UnitTor() == i * L.UnitTor() + L.UnitTor();
  }

  lemma SideRowInside(L: Layout, j: nat, k: nat)
    requires L.Placeable() && j < L.nCoilsPol && k < L.sizePol
    ensures SideRow(L, j, k) < L.NTheta()
  {
    MulLe(j + 1, L.nCoilsPol, L.UnitPol());
  }

  lemma PolPartAt(L: Layout, i: nat, j: nat, k: nat)
    requires k < L.sizePol
    ensures |PolPart(L, i, j)| == 2 * L.sizePol
    ensures PolPart(L, i, j)[k] == OffsLeft(L, i, j) + L.HalfGapPol() + k
    ensures PolPart(L, i, j)[L.sizePol + k] == OffsLeft(L, i, j) + L.sizeTor * L.NTheta() + L.HalfGapPol() + k
  {
    ArangeSpec(L.HalfGapPol(), L.HalfGapPol() + L.sizePol, 1);
    ArangeCount(L.HalfGapPol(), L.HalfGapPol() + L.sizePol, 1, L.sizePol);
  }

  /** The left side's offset plus its row is the key of the segment at the left column. */
  lemma SideKeys(L: Layout, i: nat, j: nat, k: nat)
    requires L.Placeable() && i < L.nCoilsTor && j < L.nCoilsPol && k < L.sizePol
    requires L.GridDims().Valid()
    ensures 0 < LeftColumn(L, i) && RightColumn(L, i) < L.NPhi() && SideRow(L, j, k) < L.NTheta()
    ensures OffsLeft(L, i, j) + L.HalfGapPol() + k == PolSegmentKey(L.GridDims(), LeftColumn(L, i), SideRow(L, j, k))
    ensures OffsLeft(L, i, j) + L.sizeTor * L.NTheta() + L.HalfGapPol() + k
            == PolSegmentKey(L.GridDims(), RightColumn(L, i), SideRow(L, j, k))
  {
    var g, nT := L.GridDims(), L.NTheta();
    SidesInside(L, i);
    SideRowInside(L, j, k);
    InteriorKey(g, LeftColumn(L, i), SideRow(L, j, k));
    InteriorKey(g, RightColumn(L, i), SideRow(L, j, k));
    ColumnOffset(i, L.UnitTor(), L.HalfGapTor(), nT);
    assert RightColumn(L, i) * nT == LeftColumn(L, i) * nT + L.sizeTor * nT;
  }

  /**
   * Corrected poloidal part, for a positive toroidal gap: the left and right
   * sides of coil (i, j), at interior grid columns.
   */
  lemma PolPartKeys(L: Layout, i: nat, j: nat)
    requires L.Placeable() && i < L.nCoilsTor && j < L.nCoilsPol
    ensures 0 < LeftColumn(L, i) && RightColumn(L, i) < L.NPhi()
    ensures |PolPart(L, i, j)| == 2 * L.sizePol
    ensures forall k | 0 <= k < L.sizePol ::
              && SideRow(L, j, k) < L.NTheta()
              && PolPart(L, i, j)[k] == PolSegmentKey(L.GridDims(), LeftColumn(L, i), SideRow(L, j, k))
              && PolPart(L, i, j)[L.sizePol + k] == PolSegmentKey(L.GridDims(), RightColumn(L, i), SideRow(L, j, k))
  {
    LayoutGrid(L);
    SidesInside(L, i);
    ArangeCount(L.HalfGapPol(), L.HalfGapPol() + L.sizePol, 1, L.sizePol);
    forall k | 0 <= k < L.sizePol
      ensures SideRow(L, j, k) < L.NTheta()
      ensures PolPart(L, i, j)[k] == PolSegmentKey(L.GridDims(), LeftColumn(L, i), SideRow(L, j, k))
      ensures PolPart(L, i, j)[L.sizePol + k] == PolSegmentKey(L.GridDims(), RightColumn(L, i), SideRow(L, j, k))
    {
      PolPartAt(L, i, j, k);
      SideKeys(L, i, j, k);
    }
  }

  /** Concatenated id lists stay in range. */
  lemma InRangeConcat(a: seq<int>, b: seq<int>, n: nat)
    requires InRange(a, n) && InRange(b, n)
    ensures InRange(a + b, n)
  {
  }

  lemma TorPartInRange(L: Layout, i: nat, j: nat)
    requires L.Placeable() && i < L.nCoilsTor && L.HalfGapTor() <= j < L.HalfGapTor() + L.sizeTor
    ensures InRange(TorPart(L, i, j, true), L.GridDims().NSegments())
  {
    var g, p := L.GridDims(), TorPart(L, i, j, true);
    LayoutGrid(L);
    TorPartKeys(L, i, j);
    forall t | 0 <= t < |p|
      ensures 0 <= p[t] < g.NSegments()
    {
      var m := if t < L.nCoilsPol then t else t - L.nCoilsPol;
      KeySentinels(g, Column(L, i, j), BottomRow(L, m));
      KeySentinels(g, Column(L, i, j), TopRow(L, m));
    }
  }

  lemma PolPartInRange(L: Layout, i: nat, j: nat)
    requires L.Placeable() && i < L.nCoilsTor && j < L.nCoilsPol
    ensures InRange(PolPart(L, i, j), L.GridDims().NSegments())
  {
    var g, p := L.GridDims(), PolPart(L, i, j);
    LayoutGrid(L);
    PolPartKeys(L, i, j);
    forall t | 0 <= t < |p|
      ensures 0 <= p[t] < g.NSegments()
    {
      var k := if t < L.sizePol then t else t - L.sizePol;
      KeySentinels(g, LeftColumn(L, i), SideRow(L, j, k));
      KeySentinels(g, RightColumn(L, i), SideRow(L, j, k));
    }
  }

  lemma {:induction false} TorColumnsInRange(L: Layout, i: nat, j: nat)
    requires L.Placeable() && i < L.nCoilsTor && j <= L.HalfGapTor() + L.sizeTor
    ensures InRange(TorColumns(L, i, j, true), L.GridDims().NSegments())
    decreases j
  {
    if j > L.HalfGapTor() {
      TorColumnsInRange(L, i, j - 1);
      TorPartInRange(L, i, j - 1);
      InRangeConcat(TorColumns(L, i, j - 1, true), TorPart(L, i, j - 1, true), L.GridDims().NSegments());
    }
  }

  lemma {:induction false} TorCoilsInRange(L: Layout, i: nat)
    requires L.Placeable() && i <= L.nCoilsTor
    ensures InRange(TorCoils(L, i, true), L.GridDims().NSegments())
  {
    if i > 0 {
      TorCoilsInRange(L, i - 1);
      TorColumnsInRange(L, i - 1, L.HalfGapTor() + L.sizeTor);
      InRangeConcat(TorCoils(L, i - 1, true), TorColumns(L, i - 1, L.HalfGapTor() + L.sizeTor, true), L.GridDims().NSegments());
    }
  }

  lemma {:induction false} PolRowsInRange(L: Layout, i: nat, j: nat)
    requires L.Placeable() && i < L.nCoilsTor && j <= L.nCoilsPol
    ensures InRange(PolRows(L, i, j), L.GridDims().NSegments())
  {
    if j > 0 {
      PolRowsInRange(L, i, j - 1);
      PolPartInRange(L, i, j - 1);
      InRangeConcat(PolRows(L, i, j - 1), PolPart(L, i, j - 1), L.GridDims().NSegments());
    }
  }

  lemma {:induction false} PolCoilsInRange(L: Layout, i: nat)
    requires L.Placeable() && i <= L.nCoilsTor
    ensures InRange(PolCoils(L, i), L.GridDims().NSegments())
  {
    if i > 0 {
      PolCoilsInRange(L, i - 1);
      PolRowsInRange(L, i - 1, L.nCoilsPol);
      InRangeConcat(PolCoils(L, i - 1), PolRows(L, i - 1, L.nCoilsPol), L.GridDims().NSegments());
    }
  }

  /** With a toroidal gap, every corrected coil id names a segment of the grid. */
  lemma CoilIdsInRange(L: Layout)
    requires L.Placeable()
    ensures InRange(CoilIds(L, true), L.GridDims().NSegments())
  {
    TorCoilsInRange(L, L.nCoilsTor);
    PolCoilsInRange(L, L.nCoilsTor);
    InRangeConcat(TorCoils(L, L.nCoilsTor, true), PolCoils(L, L.nCoilsTor), L.GridDims().NSegments());
  }

  // ---------------------------------------------------------------------------
  // The correction changes nothing unless gap_pol == 0

  /** With a poloidal gap the top edge of every coil row stays below row nTheta. */
  lemma TopRowUnwrapped(L: Layout, t: nat)
    requires L.Even() && L.gapPol > 0 && t < |BottomRows(L)|
    ensures Wrap(BottomRows(L)[t] + L.sizePol, L.NTheta()) == BottomRows(L)[t] + L.sizePol
  {
    ArangeSpec(L.HalfGapPol(), L.NTheta(), L.UnitPol());
    assert BottomRows(L)[t] == L.HalfGapPol() + t * L.UnitPol() < L.nCoilsPol * L.UnitPol();
    MulLt(t, L.nCoilsPol, L.UnitPol());
    MulLe(t + 1, L.nCoilsPol, L.UnitPol());
  }

  lemma TorPartUnwrapped(L: Layout, i: nat, j: nat)
    requires L.Even() && L.gapPol > 0
    ensures TorPart(L, i, j, true) == TorPart(L, i, j, false)
  {
    var rows, offs := BottomRows(L), i * (L.UnitTor() * L.NTheta()) + j * L.NTheta();
    forall t | 0 <= t < |rows|
      ensures WrapRows(rows, L.sizePol, L.NTheta())[t] == rows[t] + L.sizePol
    {
      TopRowUnwrapped(L, t);
    }
    assert Shift(WrapRows(rows, L.sizePol, L.NTheta()), offs) == Shift(Shift(rows, offs), L.sizePol);
  }

  lemma {:induction false} TorColumnsUnwrapped(L: Layout, i: nat, j: nat)
    requires L.Even() && L.gapPol > 0
    ensures TorColumns(L, i, j, true) == TorColumns(L, i, j, false)
    decreases j
  {
    if j > L.HalfGapTor() {
      TorColumnsUnwrapped(L, i, j - 1);
      TorPartUnwrapped(L, i, j - 1);
    }
  }

  lemma {:induction false} TorCoilsUnwrapped(L: Layout, i: nat)
    requires L.Even() && L.gapPol > 0
    ensures TorCoils(L, i, true) == TorCoils(L, i, false)
  {
    if i > 0 {
      TorCoilsUnwrapped(L, i - 1);
      TorColumnsUnwrapped(L, i - 1, L.HalfGapTor() + L.sizeTor);
    }
  }

  /** With a poloidal gap no top edge reaches row nTheta, and the corrected ids are the source's. */
  lemma CorrectionOnlyAtZeroPolGap(L: Layout)
    requires L.Even() && L.gapPol > 0
    ensures CoilIds(L, true) == CoilIds(L, false)
  {
    TorCoilsUnwrapped(L, L.nCoilsTor);
  }

  // ---------------------------------------------------------------------------
  // The mask of unused segments (wireframe.py:1525-1527)

  /** numpy accepts index k into n entries when -n <= k < n. */
  predicate ValidIndex(k: int, n: nat) { -(n as int) <= k < n }

  /** The entry a valid numpy index selects: a negative one counts from the end. */
  function Wrapped(k: int, n: nat): (e: nat)
    requires ValidIndex(k, n)
    ensures e < n
  {
    if k < 0 then k + n else k
  }

  predicate AllIndices(ks: seq<int>, n: nat)
  {
    forall t | 0 <= t < |ks| :: ValidIndex(ks[t], n)
  }

  /** Entry e is selected by some index of ks. */
  predicate Hit(ks: seq<int>, n: nat, e: nat)
  {
    exists t | 0 <= t < |ks| :: ValidIndex(ks[t], n) && Wrapped(ks[t], n) == e
  }

  /** `unused_segs = np.full(n, True); unused_segs[ids] = False`; an index outside [-n, n) raises. */
  method UnusedSegments(n: nat, ids: seq<int>) returns (r: Result<seq<bool>, Error>)
    ensures r.Err? <==> !AllIndices(ids, n)
    ensures r.Err? ==> r.error == WindowpaneIndexError
    ensures r.Ok? ==> |r.value| == n && forall e | 0 <= e < n :: r.value[e] <==> !Hit(ids, n, e)
  {
    for t := 0 to |ids|
      invariant forall u | 0 <= u < t :: ValidIndex(ids[u], n)
    {
      if !ValidIndex(ids[t], n) {
        return Err(WindowpaneIndexError);
      }
    }
    var a := new bool[n](_ => true);
    for t := 0 to |ids|
      invariant forall e | 0 <= e < n :: a[e] <==> forall u | 0 <= u < t :: Wrapped(ids[u], n) != e
    {
      a[Wrapped(ids[t], n)] := false;
    }
    return Ok(a[..]);
  }

  /** For ids already inside [0, n) numpy's selection is plain membership. */
  lemma HitInRange(ids: seq<int>, n: nat)
    requires InRange(ids, n)
    ensures forall e: nat :: Hit(ids, n, e) <==> e in ids
  {
    forall e: nat
      ensures Hit(ids, n, e) <==> e in ids
    {
      if e in ids {
        var t :| 0 <= t < |ids| && ids[t] == e;
        assert ValidIndex(ids[t], n) && Wrapped(ids[t], n) == e;
      }
    }
  }

  // ---------------------------------------------------------------------------
  // Constraining the unused segments (wireframe.py:1529-1530)

  /** What `set_segments_constrained(np.where(unused_segs)[0])` leaves in a fresh wireframe. */
  function PinnedOutside(g: Dims, ks: seq<nat>): (Store, Outcome<Error>)
    requires g.Valid() && forall t | 0 <= t < |ks| :: ks[t] < g.NSegments()
  {
    PinEach(FreeEach(FreeEach(ContinuityStore(g), ks), ks), g.NSegments(), ks, false)
  }

  /** Freeing finds no pin in a fresh wireframe: the pinning starts from the continuity store itself. */
  lemma PinnedOutsideAppends(g: Dims, ks: seq<nat>)
    requires g.Valid() && Increasing(ks) && forall t | 0 <= t < |ks| :: ks[t] < g.NSegments()
    ensures FreeEach(FreeEach(ContinuityStore(g), ks), ks) == ContinuityStore(g)
    ensures PinnedOutside(g, ks).1 == Pass && PinnedOutside(g, ks).0.Valid()
    ensures PinnedOutside(g, ks).0.names == ContinuityStore(g).names + PinNames(ks, false)
    ensures Canonical(PinnedOutside(g, ks).0, g.NSegments())
  {
    var s, n := ContinuityStore(g), g.NSegments();
    ContinuityCanonical(g);
    ContinuityHasNoPins(g);
    FreeEachUnpinned(s, ks);
    assert DistinctIds(ks);
    PinEachAppends(s, n, ks, false);
    CanonicalPinEach(s, n, ks, false);
  }

  /**
   * A canonical store made of a pin-free store s followed by the pins of ks
   * leaves free exactly the segments outside ks.
   */
  lemma FreeOutside(s: Store, r: Store, n: nat, ks: seq<nat>, k: nat)
    requires Canonical(r, n) && FreeIds(r, n).Ok? && r.names == s.names + PinNames(ks, false)
    requires forall j: nat :: SegmentName(j) !in s.names && ImplicitSegmentName(j) !in s.names
    ensures k in FreeIds(r, n).value <==> k < n && k !in ks
  {
    if k < n {
      CanonicalFree(r, n, k);
      if k in ks {
        var i :| 0 <= i < |ks| && ks[i] == k;
        PinNamesAt(ks, false, i);
        assert SegmentName(k) in r.names;
      } else {
        NotPinnedOutside(ks, k);
        assert SegmentName(k) !in r.names && ImplicitSegmentName(k) !in r.names;
      }
    } else {
      FreeIdsBelow(r, n);
    }
  }

  /**
   * Pinning the distinct segments ks of a fresh wireframe succeeds and
   * leaves free exactly the segments outside ks.
   */
  lemma PinnedOutsideSpec(g: Dims, ks: seq<nat>)
    requires g.Valid() && Increasing(ks) && forall t | 0 <= t < |ks| :: ks[t] < g.NSegments()
    ensures PinnedOutside(g, ks).1 == Pass && PinnedOutside(g, ks).0.Valid()
    ensures FreeIds(PinnedOutside(g, ks).0, g.NSegments()).Ok?
    ensures forall k: nat :: k in FreeIds(PinnedOutside(g, ks).0, g.NSegments()).value <==> k < g.NSegments() && k !in ks
  {
    var s, n := ContinuityStore(g), g.NSegments();
    PinnedOutsideAppends(g, ks);
    var r := PinnedOutside(g, ks).0;
    CanonicalIds(r, n);
    ContinuityHasNoPins(g);
    ContinuityCanonical(g);
    forall k: nat
      ensures k in FreeIds(r, n).value <==> k < n && k !in ks
    {
      FreeOutside(s, r, n, ks, k);
    }
  }

  /** The pin names of ks name no other segment. */
  lemma NotPinnedOutside(ks: seq<nat>, k: nat)
    requires k !in ks
    ensures SegmentName(k) !in PinNames(ks, false) && ImplicitSegmentName(k) !in PinNames(ks, false)
  {
    forall i | 0 <= i < |ks|
      ensures PinNames(ks, false)[i] != SegmentName(k) && PinNames(ks, false)[i] != ImplicitSegmentName(k)
    {
      PinNamesAt(ks, false, i);
      NamesDistinct(ks[i], k);
    }
  }

  /**
   * Marks the coil ids in a mask and pins every segment outside it. An id
   * outside [-nSegments, nSegments) raises and leaves the wireframe as it was.
   */
  method ConstrainOutside(w: ToroidalWireframe, ids: seq<int>) returns (out: Outcome<Error>)
    requires w.Valid() && w.constraints == ContinuityStore(w.g)
    modifies w
    ensures w.Valid()
    ensures out.Fail? <==> !AllIndices(ids, w.g.NSegments())
    ensures out.Fail? ==> out.error == WindowpaneIndexError && w.constraints == old(w.constraints)
    ensures out.Pass? ==> FreeIds(w.constraints, w.g.NSegments()).Ok?
    ensures out.Pass? ==> forall k: nat ::
              k in FreeIds(w.constraints, w.g.NSegments()).value <==> k < w.g.NSegments() && Hit(ids, w.g.NSegments(), k)
  {
    var n := w.g.NSegments();
    var mask := UnusedSegments(n, ids);
    if mask.Err? {
      return Fail(mask.error);
    }
    var ks := ToroidalWireframe.WhereTrue(mask.value);
    WhereSpec(mask.value);
    assert AsIds(ks) == ks;
    out := w.SetSegmentsConstrained(ks, false);
    PinnedOutsideSpec(w.g, ks);
    assert w.constraints == PinnedOutside(w.g, ks).0 && out == PinnedOutside(w.g, ks).1;
  }

  // ---------------------------------------------------------------------------
  // The factory

  /**
   * Builds the wireframe of a checked layout. wrapTop selects the corrected
   * factory: the wrapped top edge and a constructor that refuses a
   * tolerance that is not positive; without it both are as written.
   */
  method Build(L: Layout, nfp: nat, tol: real, wrapTop: bool) returns (r: Result<ToroidalWireframe, Error>)
    requires nfp >= 1 && L.Even()
    ensures r.Err? <==> (wrapTop && tol <= 0.0) || L.NPhi() == 0 || L.NTheta() == 0
                        || !AllIndices(CoilIds(L, wrapTop), L.GridDims().NSegments())
    ensures r.Err? ==> r.error == if wrapTop && tol <= 0.0 then BadTolerance
                                  else if L.NPhi() == 0 || L.NTheta() == 0 then EmptyGrid
                                  else WindowpaneIndexError
    ensures r.Ok? ==> fresh(r.value) && r.value.Valid() && r.value.g == L.GridDims() && r.value.tol == tol
                      && r.value.currents[..] == Zeros(L.GridDims().NSegments())
    ensures r.Ok? ==> FreeIds(r.value.constraints, L.GridDims().NSegments()).Ok?
    ensures r.Ok? ==> forall k: nat ::
              k in FreeIds(r.value.constraints, L.GridDims().NSegments()).value
              <==> k < L.GridDims().NSegments() && Hit(CoilIds(L, wrapTop), L.GridDims().NSegments(), k)
  {
    LayoutGrid(L);
    var made;
    if wrapTop {
      made := ToroidalWireframe.New(L.NPhi(), L.NTheta(), nfp, tol);
    } else {
      made := ToroidalWireframe.NewAsWritten(L.NPhi(), L.NTheta(), nfp, tol);
    }
    if made.Err? {
      return Err(made.error);
    }
    var w := made.value;
    var ids := CoilSegments(L, wrapTop);
    var out := ConstrainOutside(w, ids);
    if out.Fail? {
      return Err(out.error);
    }
    return Ok(w);
  }

  /**
   * `windowpane_wireframe` as written: no check on the gaps beyond evenness,
   * the top edge of a coil at row nTheta read off the next grid column, and
   * any tolerance stored, since the constructor's test never fires.
   */
  method WindowpaneWireframeAsWritten(nCoilsTor: int, nCoilsPol: int, sizeTor: int, sizePol: int, gapTor: int, gapPol: int,
                                      nfp: nat, tol: real)
    returns (r: Result<ToroidalWireframe, Error>)
    requires nfp >= 1
    ensures LayoutOf(nCoilsTor, nCoilsPol, sizeTor, sizePol, gapTor, gapPol).Err? ==>
              r == Err(LayoutOf(nCoilsTor, nCoilsPol, sizeTor, sizePol, gapTor, gapPol).error)
    ensures LayoutOf(nCoilsTor, nCoilsPol, sizeTor, sizePol, gapTor, gapPol).Ok? ==>
              var L := LayoutOf(nCoilsTor, nCoilsPol, sizeTor, sizePol, gapTor, gapPol).value;
              && (r.Err? <==> L.NPhi() == 0 || L.NTheta() == 0
                              || !AllIndices(CoilIds(L, false), L.GridDims().NSegments()))
              && (r.Ok? ==> fresh(r.value) && r.value.Valid() && r.value.g == L.GridDims() && r.value.tol == tol
                            && r.value.currents[..] == Zeros(L.GridDims().NSegments())
                            && FreeIds(r.value.constraints, L.GridDims().NSegments()).Ok?
                            && forall k: nat ::
                                 k in FreeIds(r.value.constraints, L.GridDims().NSegments()).value
                                 <==> k < L.GridDims().NSegments() && Hit(CoilIds(L, false), L.GridDims().NSegments(), k))
    ensures (r.Err? && nCoilsTor * (sizeTor + gapTor) > 0 && nCoilsPol * (sizePol + gapPol) > 0
             && LayoutOf(nCoilsTor, nCoilsPol, sizeTor, sizePol, gapTor, gapPol).Ok?) ==> r.error == WindowpaneIndexError
  {
    var layout := LayoutOf(nCoilsTor, nCoilsPol, sizeTor, sizePol, gapTor, gapPol);
    if layout.Err? {
      return Err(layout.error);
    }
    r := Build(layout.value, nfp, tol, false);
  }

  /**
   * `windowpane_wireframe` corrected: a zero toroidal gap is refused and the
   * top edge wraps round the poloidal direction. Every layout that passes
   * the checks builds, and the free segments are exactly the coil segments.
   */
  method WindowpaneWireframe(nCoilsTor: int, nCoilsPol: int, sizeTor: int, sizePol: int, gapTor: int, gapPol: int,
                             nfp: nat, tol: real)
    returns (r: Result<ToroidalWireframe, Error>)
    requires nfp >= 1
    ensures LayoutOf(nCoilsTor, nCoilsPol, sizeTor, sizePol, gapTor, gapPol).Err? ==>
              r == Err(LayoutOf(nCoilsTor, nCoilsPol, sizeTor, sizePol, gapTor, gapPol).error)
    ensures LayoutOf(nCoilsTor, nCoilsPol, sizeTor, sizePol, gapTor, gapPol).Ok? && gapTor == 0 ==>
              r == Err(ZeroWindowpaneGap)
    ensures r.Ok? <==> LayoutOf(nCoilsTor, nCoilsPol, sizeTor, sizePol, gapTor, gapPol).Ok? && gapTor != 0 && tol > 0.0
                       && nCoilsTor * (sizeTor + gapTor) > 0 && nCoilsPol * (sizePol + gapPol) > 0
    ensures r.Ok? ==>
              var L := LayoutOf(nCoilsTor, nCoilsPol, sizeTor, sizePol, gapTor, gapPol).value;
              && L.Placeable()
              && fresh(r.value) && r.value.Valid() && r.value.g == L.GridDims()
              && r.value.currents[..] == Zeros(L.GridDims().NSegments())
              && FreeIds(r.value.constraints, L.GridDims().NSegments()).Ok?
              && forall k: nat :: k in FreeIds(r.value.constraints, L.GridDims().NSegments()).value <==> k in CoilIds(L, true)
  {
    var layout := LayoutOf(nCoilsTor, nCoilsPol, sizeTor, sizePol, gapTor, gapPol);
    if layout.Err? {
      return Err(layout.error);
    }
    var L := layout.value;
    if L.gapTor == 0 {
      return Err(ZeroWindowpaneGap);
    }
    if tol > 0.0 && L.NPhi() > 0 && L.NTheta() > 0 {
      CoilIdsInRange(L);
      HitInRange(CoilIds(L, true), L.GridDims().NSegments());
    }
    r := Build(L, nfp, tol, true);
  }
}
