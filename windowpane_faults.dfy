/**
 * Two inputs on which the coil ids of `windowpane_wireframe`
 * (wireframe.py:1491-1523) go wrong as written, each evaluated on the
 * model of the loops in module Windowpane.
 */
module WindowpaneFaults {
  import opened Grid
  import opened Windowpane

  // The gap_tor == 0 example is Layout(1, 1, 2, 2, 0, 2): one coil of 2 x 2
  // cells, gap_pol == 2, on a grid of 2 toroidal by 4 poloidal cells.

  lemma NoTorGapColumns()
    ensures TorCoils(Layout(1, 1, 2, 2, 0, 2), 1, false) == [1, 3, 5, 7]
  {
    assert Arange(5, 4, 4) == [];
    assert BottomRows(Layout(1, 1, 2, 2, 0, 2)) == [1];
    assert TorPart(Layout(1, 1, 2, 2, 0, 2), 0, 0, false) == [1, 3];
    assert TorPart(Layout(1, 1, 2, 2, 0, 2), 0, 1, false) == [5, 7];
    assert TorColumns(Layout(1, 1, 2, 2, 0, 2), 0, 0, false) == [];
    assert TorColumns(Layout(1, 1, 2, 2, 0, 2), 0, 1, false) == [1, 3];
    assert TorColumns(Layout(1, 1, 2, 2, 0, 2), 0, 2, false) == [1, 3, 5, 7];
  }

  lemma NoTorGapOffset()
    ensures OffsLeft(Layout(1, 1, 2, 2, 0, 2), 0, 0) == 6
    ensures Layout(1, 1, 2, 2, 0, 2).HalfGapPol() == 1 && Layout(1, 1, 2, 2, 0, 2).sizeTor * Layout(1, 1, 2, 2, 0, 2).NTheta() == 8
    ensures Layout(1, 1, 2, 2, 0, 2).GridDims().NSegments() == 16
  {
  }

  lemma NoTorGapSides()
    ensures PolCoils(Layout(1, 1, 2, 2, 0, 2), 1) == [7, 8, 15, 16]
  {
    NoTorGapOffset();
    assert Arange(3, 3, 1) == [];
    assert Arange(2, 3, 1) == [2];
    assert Arange(1, 3, 1) == [1, 2];
    assert PolPart(Layout(1, 1, 2, 2, 0, 2), 0, 0) == Shift([1, 2], 6) + Shift([1, 2], 14);
    assert Shift([1, 2], 6) == [7, 8] && Shift([1, 2], 14) == [15, 16];
    assert PolRows(Layout(1, 1, 2, 2, 0, 2), 0, 1) == PolPart(Layout(1, 1, 2, 2, 0, 2), 0, 0);
  }

  /**
   * gap_tor == 0: the right side of the coil gets id 16 on a grid of 16
   * segments, and numpy's indexing raises.
   */
  lemma ZeroTorGapOverruns()
    ensures Layout(1, 1, 2, 2, 0, 2).GridDims().NSegments() == 16
    ensures CoilIds(Layout(1, 1, 2, 2, 0, 2), false)[7] == 16
    ensures !AllIndices(CoilIds(Layout(1, 1, 2, 2, 0, 2), false), 16)
  {
    NoTorGapColumns();
    NoTorGapSides();
    NoTorGapOffset();
    assert CoilIds(Layout(1, 1, 2, 2, 0, 2), false) == [1, 3, 5, 7] + [7, 8, 15, 16];
  }

  // The gap_pol == 0 example is Layout(1, 1, 2, 2, 2, 0): one coil of 2 x 2
  // cells, gap_tor == 2, on a grid of 4 toroidal by 2 poloidal cells.

  lemma NoPolGapColumns()
    ensures TorCoils(Layout(1, 1, 2, 2, 2, 0), 1, false) == [2, 4, 4, 6]
    ensures TorCoils(Layout(1, 1, 2, 2, 2, 0), 1, true) == [2, 2, 4, 4]
  {
    assert Arange(2, 2, 2) == [];
    assert BottomRows(Layout(1, 1, 2, 2, 2, 0)) == [0];
    assert WrapRows([0], 2, 2) == [0];
    assert TorPart(Layout(1, 1, 2, 2, 2, 0), 0, 1, false) == [2, 4];
    assert TorPart(Layout(1, 1, 2, 2, 2, 0), 0, 2, false) == [4, 6];
    assert TorPart(Layout(1, 1, 2, 2, 2, 0), 0, 1, true) == [2, 2];
    assert TorPart(Layout(1, 1, 2, 2, 2, 0), 0, 2, true) == [4, 4];
    assert TorColumns(Layout(1, 1, 2, 2, 2, 0), 0, 1, false) == [] && TorColumns(Layout(1, 1, 2, 2, 2, 0), 0, 1, true) == [];
    assert TorColumns(Layout(1, 1, 2, 2, 2, 0), 0, 3, false) == [2, 4, 4, 6];
    assert TorColumns(Layout(1, 1, 2, 2, 2, 0), 0, 3, true) == [2, 2, 4, 4];
  }

  lemma NoPolGapOffset()
    ensures OffsLeft(Layout(1, 1, 2, 2, 2, 0), 0, 0) == 9
    ensures Layout(1, 1, 2, 2, 2, 0).HalfGapPol() == 0 && Layout(1, 1, 2, 2, 2, 0).sizeTor * Layout(1, 1, 2, 2, 2, 0).NTheta() == 4
  {
  }

  lemma NoPolGapSides()
    ensures PolCoils(Layout(1, 1, 2, 2, 2, 0), 1) == [9, 10, 13, 14]
  {
    NoPolGapOffset();
    assert Arange(2, 2, 1) == [];
    assert Arange(1, 2, 1) == [1];
    assert Arange(0, 2, 1) == [0, 1];
    assert PolPart(Layout(1, 1, 2, 2, 2, 0), 0, 0) == Shift([0, 1], 9) + Shift([0, 1], 13);
    assert Shift([0, 1], 9) == [9, 10] && Shift([0, 1], 13) == [13, 14];
    assert PolRows(Layout(1, 1, 2, 2, 2, 0), 0, 1) == PolPart(Layout(1, 1, 2, 2, 2, 0), 0, 0);
  }

  lemma NoPolGapIds()
    ensures CoilIds(Layout(1, 1, 2, 2, 2, 0), false) == [2, 4, 4, 6, 9, 10, 13, 14]
    ensures CoilIds(Layout(1, 1, 2, 2, 2, 0), true) == [2, 2, 4, 4, 9, 10, 13, 14]
  {
    NoPolGapColumns();
    NoPolGapSides();
    assert CoilIds(Layout(1, 1, 2, 2, 2, 0), false) == TorCoils(Layout(1, 1, 2, 2, 2, 0), 1, false) + PolCoils(Layout(1, 1, 2, 2, 2, 0), 1);
    assert CoilIds(Layout(1, 1, 2, 2, 2, 0), true) == TorCoils(Layout(1, 1, 2, 2, 2, 0), 1, true) + PolCoils(Layout(1, 1, 2, 2, 2, 0), 1);
  }

  lemma NoPolGapEdge()
    ensures TorSegmentKey(Layout(1, 1, 2, 2, 2, 0).GridDims(), 3, 0) == 6
    ensures Layout(1, 1, 2, 2, 2, 0).HalfGapTor() + Layout(1, 1, 2, 2, 2, 0).sizeTor == 3
  {
  }

  /**
   * gap_pol == 0: the source frees segment 6, the toroidal segment at column
   * 3 and row 0, although column 3 lies in the gap after the coil's columns
   * 1 and 2; the corrected ids put that edge at column 2, row 0 instead.
   */
  lemma ZeroPolGapFreesGapSegment()
    ensures TorSegmentKey(Layout(1, 1, 2, 2, 2, 0).GridDims(), 3, 0) == 6
    ensures Layout(1, 1, 2, 2, 2, 0).HalfGapTor() + Layout(1, 1, 2, 2, 2, 0).sizeTor == 3
    ensures 6 in CoilIds(Layout(1, 1, 2, 2, 2, 0), false)
    ensures 6 !in CoilIds(Layout(1, 1, 2, 2, 2, 0), true)
  {
    NoPolGapEdge();
    NoPolGapIds();
    assert CoilIds(Layout(1, 1, 2, 2, 2, 0), false)[3] == 6;
  }
}
