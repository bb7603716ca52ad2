/**
 * Grid topology of a toroidal wireframe over one half-period of a
 * stellarator-symmetric torus (wireframe.py:113-299).
 *
 * Nodes form an (nPhi+1) x nTheta grid; node (i,j) has index i*nTheta+j.
 * Toroidal segments (i,j)->(i+1,j) for i < nPhi are numbered first, then the
 * poloidal segments (i,j)->(i,j+1 mod nTheta), of which only the half with
 * j < nTheta/2 exists on the two symmetry planes i = 0 and i = nPhi. The key
 * tables give the id of the segment leaving a node, with -1 where there is none.
 *
 * Python's `(j+1) % nTheta`, `(j-1) % nTheta` and `(nTheta-j) % nTheta` are
 * written out as the conditionals they amount to for 0 <= j < nTheta.
 */
module Grid {

  datatype Dims = Dims(nPhi: nat, nTheta: nat) {
    /** Grids the wireframe accepts: even dimensions (wireframe.py:51), taken positive here. */
    predicate Valid() { nPhi >= 2 && nTheta >= 2 && nPhi % 2 == 0 && nTheta % 2 == 0 }
    function Half(): nat { nTheta / 2 }
    function NTorSegments(): nat { nTheta * nPhi }
    function NPolSegments(): nat { nTheta * nPhi }
    function NSegments(): nat { NTorSegments() + NPolSegments() }
    function NNodes(): nat { (nPhi + 1) * nTheta }
    function NCells(): nat { nTheta * nPhi }
    function Node(i: nat, j: nat): nat { i * nTheta + j }
    predicate OnGrid(i: int, j: int) { 0 <= i <= nPhi && 0 <= j < nTheta }
    predicate IsSegment(s: int) { 0 <= s < NSegments() }
    predicate IsNode(n: int) { 0 <= n < NNodes() }
    function Next(j: nat): nat
      requires j < nTheta
    {
      if j + 1 == nTheta then 0 else j + 1
    }
    function Prev(j: nat): nat
      requires j < nTheta
    {
      if j == 0 then nTheta - 1 else j - 1
    }
    /** Reflection of a poloidal index through a symmetry plane. */
    function Mirror(j: nat): nat
      requires j < nTheta
    {
      if j == 0 then 0 else nTheta - j
    }
  }

  // ---------------------------------------------------------------------------
  // Index arithmetic

  lemma MulLe(a: nat, b: nat, c: nat)
    requires a <= b
    ensures a * c <= b * c
  {
  }

  /** Row-major flattening stays inside the table. */
  lemma FlatBound(i: nat, j: nat, rows: nat, cols: nat)
    requires i < rows && j < cols
    ensures i * cols + j < rows * cols
  {
    MulLe(i + 1, rows, cols);
  }

  /** Row-major flattening is strictly monotone in the lexicographic order of (row, column). */
  lemma FlatLess(p: nat, q: nat, i: nat, j: nat, cols: nat)
    requires q < cols && j < cols && (p < i || (p == i && q < j))
    ensures p * cols + q < i * cols + j
  {
    if p < i {
      MulLe(p + 1, i, cols);
    }
  }

  /** Row and column of a row-major index. */
  function Unflatten(n: nat, cols: nat): (rc: (nat, nat))
    requires cols > 0
    ensures rc.1 < cols && rc.0 * cols + rc.1 == n
    decreases n
  {
    if n < cols then (0, n) else var rc := Unflatten(n - cols, cols); (rc.0 + 1, rc.1)
  }

  lemma UnflattenBelow(n: nat, rows: nat, cols: nat)
    requires cols > 0 && n < rows * cols
    ensures Unflatten(n, cols).0 < rows
  {
    var rc := Unflatten(n, cols);
    if rc.0 >= rows {
      MulLe(rows, rc.0, cols);
    }
  }

  /** Unflatten undoes row-major flattening. */
  lemma {:induction false} UnflattenFlat(i: nat, j: nat, cols: nat)
    requires j < cols
    ensures Unflatten(i * cols + j, cols) == (i, j)
  {
    if i > 0 {
      assert i * cols + j - cols == (i - 1) * cols + j;
      UnflattenFlat(i - 1, j, cols);
    }
  }

  lemma NodeInRange(g: Dims, i: nat, j: nat)
    requires g.OnGrid(i, j)
    ensures g.Node(i, j) < g.NNodes()
  {
    FlatBound(i, j, g.nPhi + 1, g.nTheta);
  }

  /** The row of node (i,j) in the node tables. */
  function NodeIndex(g: Dims, i: nat, j: nat): (n: nat)
    requires g.OnGrid(i, j)
    ensures n < g.NNodes()
  {
    NodeInRange(g, i, j);
    g.Node(i, j)
  }

  // ---------------------------------------------------------------------------
  // Key tables (wireframe.py:114-151)

  function TorSegmentKey(g: Dims, i: nat, j: nat): int
    requires g.OnGrid(i, j)
  {
    if i < g.nPhi then g.Node(i, j) else -1
  }

  function PolSegmentKey(g: Dims, i: nat, j: nat): int
    requires g.OnGrid(i, j)
  {
    var h := g.Half();
    if i == 0 then (if j < h then g.NTorSegments() + j else -1)
    else if i < g.nPhi then g.NTorSegments() + h + (i - 1) * g.nTheta + j
    else (if j < h then g.NTorSegments() + g.NPolSegments() - h + j else -1)
  }

  /** The -1 sentinels sit exactly where no segment leaves the node; every other entry is in range. */
  lemma KeySentinels(g: Dims, i: nat, j: nat)
    requires g.Valid() && g.OnGrid(i, j)
    ensures TorSegmentKey(g, i, j) == -1 <==> i == g.nPhi
    ensures TorSegmentKey(g, i, j) != -1 ==> 0 <= TorSegmentKey(g, i, j) < g.NTorSegments()
    ensures PolSegmentKey(g, i, j) == -1 <==> (i == 0 || i == g.nPhi) && j >= g.Half()
    ensures PolSegmentKey(g, i, j) != -1 ==>
              g.NTorSegments() <= PolSegmentKey(g, i, j) < g.NSegments()
  {
    if i < g.nPhi {
      FlatBound(i, j, g.nPhi, g.nTheta);
    }
    if 0 < i < g.nPhi {
      InteriorPolBound(g, i, j);
    }
  }

  lemma InteriorPolBound(g: Dims, i: nat, j: nat)
    requires g.Valid() && 0 < i < g.nPhi && j < g.nTheta
    ensures g.Half() + (i - 1) * g.nTheta + j < g.NPolSegments() - g.Half()
  {
    FlatBound(i - 1, j, g.nPhi - 1, g.nTheta);
    assert (g.nPhi - 1) * g.nTheta == g.NPolSegments() - g.nTheta;
  }

  // ---------------------------------------------------------------------------
  // Segment ids and grid positions

  /** A grid position that may own a segment: toroidal or poloidal, leaving node (i,j). */
  datatype Position = Tor(i: nat, j: nat) | Pol(i: nat, j: nat)

  function KeyAt(g: Dims, p: Position): int
    requires g.OnGrid(p.i, p.j)
  {
    match p
    case Tor(i, j) => TorSegmentKey(g, i, j)
    case Pol(i, j) => PolSegmentKey(g, i, j)
  }

  /** The grid position of a segment id: the inverse of the key tables. */
  function PositionOf(g: Dims, s: nat): (p: Position)
    requires g.Valid() && s < g.NSegments()
    ensures g.OnGrid(p.i, p.j) && KeyAt(g, p) == s
    ensures p.Tor? <==> s < g.NTorSegments()
  {
    var nT, h, nTor := g.nTheta, g.Half(), g.NTorSegments();
    if s < nTor then
      UnflattenBelow(s, g.nPhi, nT);
      var rc := Unflatten(s, nT);
      Tor(rc.0, rc.1)
    else
      var p := s - nTor;
      if p < h then Pol(0, p)
      else if p < g.NPolSegments() - h then
        UnflattenBelow(p - h, g.nPhi - 1, nT);
        var rc := Unflatten(p - h, nT);
        Pol(rc.0 + 1, rc.1)
      else Pol(g.nPhi, p - (g.NPolSegments() - h))
  }

  /**
   * Every existing segment has exactly one grid position: the key tables are
   * a bijection between non-sentinel positions and [0, nSegments).
   */
  lemma PositionOfKey(g: Dims, p: Position)
    requires g.Valid() && g.OnGrid(p.i, p.j) && KeyAt(g, p) != -1
    ensures g.IsSegment(KeyAt(g, p)) && PositionOf(g, KeyAt(g, p)) == p
  {
    match p
    case Tor(i, j) => PositionOfTorKey(g, i, j);
    case Pol(i, j) => PositionOfPolKey(g, i, j);
  }

  lemma PositionOfTorKey(g: Dims, i: nat, j: nat)
    requires g.Valid() && i < g.nPhi && j < g.nTheta
    ensures g.IsSegment(KeyAt(g, Tor(i, j))) && PositionOf(g, KeyAt(g, Tor(i, j))) == Tor(i, j)
  {
    FlatBound(i, j, g.nPhi, g.nTheta);
    UnflattenFlat(i, j, g.nTheta);
  }

  lemma PositionOfPolKey(g: Dims, i: nat, j: nat)
    requires g.Valid() && g.OnGrid(i, j) && KeyAt(g, Pol(i, j)) != -1
    ensures g.IsSegment(KeyAt(g, Pol(i, j))) && PositionOf(g, KeyAt(g, Pol(i, j))) == Pol(i, j)
  {
    if 0 < i < g.nPhi {
      PositionOfInteriorPolKey(g, i, j);
    } else {
      PositionOfPlanePolKey(g, i, j);
    }
  }

  lemma PositionOfPlanePolKey(g: Dims, i: nat, j: nat)
    requires g.Valid() && (i == 0 || i == g.nPhi) && j < g.Half()
    ensures g.IsSegment(KeyAt(g, Pol(i, j))) && PositionOf(g, KeyAt(g, Pol(i, j))) == Pol(i, j)
  {
    var nTor, nPol, h := g.NTorSegments(), g.NPolSegments(), g.Half();
    assert h <= nPol - h by {
      MulLe(1, g.nPhi, g.nTheta);
    }
    if i == 0 {
      assert KeyAt(g, Pol(i, j)) == nTor + j;
    } else {
      assert KeyAt(g, Pol(i, j)) == nTor + (nPol - h) + j;
    }
  }

  lemma PositionOfInteriorPolKey(g: Dims, i: nat, j: nat)
    requires g.Valid() && 0 < i < g.nPhi && j < g.nTheta
    ensures g.IsSegment(KeyAt(g, Pol(i, j))) && PositionOf(g, KeyAt(g, Pol(i, j))) == Pol(i, j)
  {
    var q := (i - 1) * g.nTheta + j;
    InteriorPolBound(g, i, j);
    UnflattenFlat(i - 1, j, g.nTheta);
    assert KeyAt(g, Pol(i, j)) == g.NTorSegments() + g.Half() + q;
  }

  lemma KeysInjective(g: Dims, p: Position, q: Position)
    requires g.Valid() && g.OnGrid(p.i, p.j) && g.OnGrid(q.i, q.j)
    requires KeyAt(g, p) != -1 && KeyAt(g, p) == KeyAt(g, q)
    ensures p == q
  {
    PositionOfKey(g, p);
    PositionOfKey(g, q);
  }

  // ---------------------------------------------------------------------------
  // Segment endpoints (wireframe.py:118-157)

  /** The two nodes of a segment, as the source lays out `segments_tor` and `segments_pol`. */
  function SegmentEnds(g: Dims, s: nat): (e: (nat, nat))
    requires g.Valid() && s < g.NSegments()
    ensures g.IsNode(e.0) && g.IsNode(e.1)
  {
    var nT, h, nTor, nPol := g.nTheta, g.Half(), g.NTorSegments(), g.NPolSegments();
    if s < nTor then
      (s, s + nT)
    else
      var p := s - nTor;
      if p < h then
        (p, p + 1)
      else if p < nPol - h then
        InteriorPolEnds(g, p - h)
      else
        var j := p - (nPol - h);
        NodeInRange(g, g.nPhi, j);
        NodeInRange(g, g.nPhi, j + 1);
        (g.Node(g.nPhi, j), g.Node(g.nPhi, j + 1))
  }

  /** Ends of the q-th poloidal segment strictly between the symmetry planes. */
  function InteriorPolEnds(g: Dims, q: nat): (e: (nat, nat))
    requires g.Valid() && q < (g.nPhi - 1) * g.nTheta
    ensures g.IsNode(e.0) && g.IsNode(e.1)
  {
    UnflattenBelow(q, g.nPhi - 1, g.nTheta);
    var rc := Unflatten(q, g.nTheta);
    var i, j := rc.0 + 1, rc.1;
    NodeInRange(g, i, j);
    NodeInRange(g, i, g.Next(j));
    (g.Node(i, j), g.Node(i, g.Next(j)))
  }

  /** The endpoints a grid position stands for: one step along phi or along theta. */
  function PositionEnds(g: Dims, p: Position): (nat, nat)
    requires p.j < g.nTheta
  {
    match p
    case Tor(i, j) => (g.Node(i, j), g.Node(i + 1, j))
    case Pol(i, j) => (g.Node(i, j), g.Node(i, g.Next(j)))
  }

  /** The segment table and the key tables describe the same segments. */
  lemma SegmentEndsMatchKeys(g: Dims, p: Position)
    requires g.Valid() && g.OnGrid(p.i, p.j) && KeyAt(g, p) != -1
    ensures g.IsSegment(KeyAt(g, p)) && SegmentEnds(g, KeyAt(g, p)) == PositionEnds(g, p)
  {
    PositionOfKey(g, p);
    match p
    case Tor(i, j) =>
    case Pol(i, j) =>
      if 0 < i < g.nPhi {
        UnflattenFlat(i - 1, j, g.nTheta);
      }
  }

  // ---------------------------------------------------------------------------
  // Node connectivity (wireframe.py:174-234)

  /** The four segments at a node, in the order [tor_in, pol_in, tor_out, pol_out]. */
  datatype Links = Links(torIn: int, polIn: int, torOut: int, polOut: int) {
    function Slots(): seq<int> { [torIn, polIn, torOut, polOut] }
  }

  /** Poloidal links of a symmetry-plane node, folded through the plane where needed. */
  function PlanePolLinks(g: Dims, i: nat, j: nat): (int, int)
    requires g.Valid() && g.OnGrid(i, j) && (i == 0 || i == g.nPhi)
  {
    var h := g.Half();
    if j == 0 then (PolSegmentKey(g, i, 0), PolSegmentKey(g, i, 0))
    else if j < h then (PolSegmentKey(g, i, j - 1), PolSegmentKey(g, i, j))
    else if j == h then (PolSegmentKey(g, i, j - 1), PolSegmentKey(g, i, j - 1))
    else (PolSegmentKey(g, i, g.nTheta - j), PolSegmentKey(g, i, g.nTheta - j - 1))
  }

  /** Row (i,j) of `connected_segments`: the three-way case analysis of wireframe.py:184-231. */
  function ConnectedAt(g: Dims, i: nat, j: nat): Links
    requires g.Valid() && g.OnGrid(i, j)
  {
    if i == 0 then
      var pol := PlanePolLinks(g, i, j);
      Links(TorSegmentKey(g, 0, g.Mirror(j)), pol.0, TorSegmentKey(g, 0, j), pol.1)
    else if i < g.nPhi then
      Links(TorSegmentKey(g, i - 1, j), PolSegmentKey(g, i, g.Prev(j)),
            TorSegmentKey(g, i, j), PolSegmentKey(g, i, j))
    else
      var pol := PlanePolLinks(g, i, j);
      Links(TorSegmentKey(g, i - 1, j), pol.0, TorSegmentKey(g, i - 1, g.Mirror(j)), pol.1)
  }

  /** Grid coordinates of a node index. */
  function NodeAt(g: Dims, n: nat): (ij: (nat, nat))
    requires g.Valid() && n < g.NNodes()
    ensures g.OnGrid(ij.0, ij.1) && g.Node(ij.0, ij.1) == n
  {
    UnflattenBelow(n, g.nPhi + 1, g.nTheta);
    Unflatten(n, g.nTheta)
  }

  lemma NodeAtNode(g: Dims, i: nat, j: nat)
    requires g.Valid() && g.OnGrid(i, j)
    ensures g.Node(i, j) < g.NNodes() && NodeAt(g, g.Node(i, j)) == (i, j)
  {
    NodeInRange(g, i, j);
    UnflattenFlat(i, j, g.nTheta);
  }

  /** Row `n` of `connected_segments`. */
  function ConnectedOfNode(g: Dims, n: nat): Links
    requires g.Valid() && n < g.NNodes()
  {
    var ij := NodeAt(g, n);
    ConnectedAt(g, ij.0, ij.1)
  }

  /**
   * No slot of `connected_segments` selects a -1 sentinel: the toroidal slots
   * hold toroidal segment ids and the poloidal slots poloidal ones.
   */
  lemma ConnectedValid(g: Dims, i: nat, j: nat)
    requires g.Valid() && g.OnGrid(i, j)
    ensures var l := ConnectedAt(g, i, j);
      && 0 <= l.torIn < g.NTorSegments() && 0 <= l.torOut < g.NTorSegments()
      && g.NTorSegments() <= l.polIn < g.NSegments()
      && g.NTorSegments() <= l.polOut < g.NSegments()
  {
    var nT, h := g.nTheta, g.Half();
    if i == 0 || i == g.nPhi {
      var ti := if i == 0 then 0 else i - 1;
      KeySentinels(g, ti, g.Mirror(j));
      KeySentinels(g, ti, j);
      KeySentinels(g, i, 0);
      if 0 < j <= h {
        KeySentinels(g, i, j - 1);
      }
      if j < h {
        KeySentinels(g, i, j);
      }
      if j > h {
        KeySentinels(g, i, nT - j);
        KeySentinels(g, i, nT - j - 1);
      }
    } else {
      KeySentinels(g, i - 1, j);
      KeySentinels(g, i, j);
      KeySentinels(g, i, g.Prev(j));
    }
  }

  /** Every slot of every node row is a segment id. */
  lemma ConnectedOfNodeValid(g: Dims, n: nat)
    requires g.Valid() && n < g.NNodes()
    ensures forall k | 0 <= k < 4 :: g.IsSegment(ConnectedOfNode(g, n).Slots()[k])
  {
    var ij := NodeAt(g, n);
    ConnectedValid(g, ij.0, ij.1);
  }

  /**
   * Between the symmetry planes the links are oriented: both "in" segments end
   * at the node and both "out" segments start there.
   */
  lemma InteriorOrientation(g: Dims, i: nat, j: nat)
    requires g.Valid() && 0 < i < g.nPhi && j < g.nTheta
    ensures var l := ConnectedAt(g, i, j);
      && g.IsSegment(l.torIn) && g.IsSegment(l.polIn) && g.IsSegment(l.torOut) && g.IsSegment(l.polOut)
      && SegmentEnds(g, l.torIn).1 == g.Node(i, j)
      && SegmentEnds(g, l.polIn).1 == g.Node(i, j)
      && SegmentEnds(g, l.torOut).0 == g.Node(i, j)
      && SegmentEnds(g, l.polOut).0 == g.Node(i, j)
  {
    ConnectedValid(g, i, j);
    SegmentEndsMatchKeys(g, Tor(i - 1, j));
    SegmentEndsMatchKeys(g, Tor(i, j));
    SegmentEndsMatchKeys(g, Pol(i, j));
    SegmentEndsMatchKeys(g, Pol(i, g.Prev(j)));
  }

  /** Segment s has an end at node (i,j) or, on a symmetry plane, at its mirror image. */
  predicate TouchesNode(g: Dims, i: nat, j: nat, s: nat)
    requires g.Valid() && g.OnGrid(i, j) && g.IsSegment(s)
  {
    var e := SegmentEnds(g, s);
    var m := g.Node(i, g.Mirror(j));
    e.0 == g.Node(i, j) || e.1 == g.Node(i, j) ||
    ((i == 0 || i == g.nPhi) && (e.0 == m || e.1 == m))
  }

  /** Every link of a node touches the node itself or, on a symmetry plane, its mirror image. */
  lemma LinksTouchNode(g: Dims, i: nat, j: nat)
    requires g.Valid() && g.OnGrid(i, j)
    ensures var l := ConnectedAt(g, i, j);
      && g.IsSegment(l.torIn) && g.IsSegment(l.polIn) && g.IsSegment(l.torOut) && g.IsSegment(l.polOut)
      && TouchesNode(g, i, j, l.torIn) && TouchesNode(g, i, j, l.polIn)
      && TouchesNode(g, i, j, l.torOut) && TouchesNode(g, i, j, l.polOut)
  {
    ConnectedValid(g, i, j);
    if 0 < i < g.nPhi {
      InteriorOrientation(g, i, j);
    } else {
      PlaneTorTouch(g, i, j);
      PlanePolTouch(g, i, j);
    }
  }

  lemma PlaneTorTouch(g: Dims, i: nat, j: nat)
    requires g.Valid() && g.OnGrid(i, j) && (i == 0 || i == g.nPhi)
    ensures var l := ConnectedAt(g, i, j);
      && g.IsSegment(l.torIn) && g.IsSegment(l.torOut)
      && TouchesNode(g, i, j, l.torIn) && TouchesNode(g, i, j, l.torOut)
  {
    ConnectedValid(g, i, j);
    var ti := if i == 0 then 0 else i - 1;
    SegmentEndsMatchKeys(g, Tor(ti, j));
    SegmentEndsMatchKeys(g, Tor(ti, g.Mirror(j)));
  }

  lemma PlanePolTouch(g: Dims, i: nat, j: nat)
    requires g.Valid() && g.OnGrid(i, j) && (i == 0 || i == g.nPhi)
    ensures var l := ConnectedAt(g, i, j);
      && g.IsSegment(l.polIn) && g.IsSegment(l.polOut)
      && TouchesNode(g, i, j, l.polIn) && TouchesNode(g, i, j, l.polOut)
  {
    ConnectedValid(g, i, j);
    var nT, h := g.nTheta, g.Half();
    if j == 0 {
      SegmentEndsMatchKeys(g, Pol(i, 0));
    } else if j < h {
      SegmentEndsMatchKeys(g, Pol(i, j - 1));
      SegmentEndsMatchKeys(g, Pol(i, j));
    } else if j == h {
      SegmentEndsMatchKeys(g, Pol(i, j - 1));
    } else {
      SegmentEndsMatchKeys(g, Pol(i, nT - j));
      SegmentEndsMatchKeys(g, Pol(i, nT - j - 1));
    }
  }

  /** Conversely, every segment is listed in the rows of both of its end nodes. */
  lemma EndsListSegment(g: Dims, s: nat)
    requires g.Valid() && g.IsSegment(s)
    ensures var e := SegmentEnds(g, s);
      s in ConnectedOfNode(g, e.0).Slots() && s in ConnectedOfNode(g, e.1).Slots()
  {
    var p := PositionOf(g, s);
    SegmentEndsMatchKeys(g, p);
    match p
    case Tor(i, j) =>
      NodeAtNode(g, i, j);
      NodeAtNode(g, i + 1, j);
    case Pol(i, j) =>
      NodeAtNode(g, i, j);
      NodeAtNode(g, i, g.Next(j));
  }

  // ---------------------------------------------------------------------------
  // Cells (wireframe.py:236-299)

  /** Four entries of a cell row: `cell_key` or `cell_neighbors`. */
  datatype Quad = Quad(a: int, b: int, c: int, d: int) {
    function At(k: nat): int
      requires k < 4
    {
      if k == 0 then a else if k == 1 then b else if k == 2 then c else d
    }
  }

  predicate OnCellGrid(g: Dims, i: int, j: int) { 0 <= i < g.nPhi && 0 <= j < g.nTheta }

  function Cell(g: Dims, i: nat, j: nat): nat { i * g.nTheta + j }

  /** The row of cell (i,j) in the cell tables. */
  function CellIndex(g: Dims, i: nat, j: nat): (c: nat)
    requires g.Valid() && OnCellGrid(g, i, j)
    ensures c < g.NCells()
  {
    FlatBound(i, j, g.nPhi, g.nTheta);
    Cell(g, i, j)
  }

  /** Border segments [tor_lower, pol_higher_tor, tor_higher, pol_lower_tor] of cell (i,j). */
  function CellKeyAt(g: Dims, i: nat, j: nat): Quad
    requires g.Valid() && OnCellGrid(g, i, j)
  {
    var nT, h := g.nTheta, g.Half();
    var tor1 := TorSegmentKey(g, i, j);
    var tor3 := TorSegmentKey(g, i, g.Next(j));
    if i == 0 then
      Quad(tor1, PolSegmentKey(g, i + 1, j), tor3,
           if j < h then PolSegmentKey(g, i, j) else PolSegmentKey(g, i, nT - j - 1))
    else if i < g.nPhi - 1 then
      Quad(tor1, PolSegmentKey(g, i + 1, j), tor3, PolSegmentKey(g, i, j))
    else
      Quad(tor1, if j < h then PolSegmentKey(g, i + 1, j) else PolSegmentKey(g, i + 1, nT - j - 1),
           tor3, PolSegmentKey(g, i, j))
  }

  /**
   * Coordinates of the neighbour of cell (i,j) in direction d:
   * 0 negative poloidal, 1 positive toroidal, 2 positive poloidal, 3 negative toroidal.
   * Across a symmetry plane the neighbour is the mirrored cell of the same row.
   */
  function NeighborPos(g: Dims, i: nat, j: nat, d: nat): (p: (nat, nat))
    requires g.Valid() && OnCellGrid(g, i, j) && d < 4
    ensures OnCellGrid(g, p.0, p.1)
  {
    var nT := g.nTheta;
    if d == 0 then (i, g.Prev(j))
    else if d == 2 then (i, g.Next(j))
    else if d == 1 then (if i < g.nPhi - 1 then (i + 1, j) else (i, nT - j - 1))
    else (if i == 0 then (i, nT - j - 1) else (i - 1, j))
  }

  /** Row (i,j) of `cell_neighbors`: the indices of the four adjacent cells. */
  function CellNeighborsAt(g: Dims, i: nat, j: nat): Quad
    requires g.Valid() && OnCellGrid(g, i, j)
  {
    var n0, n1, n2, n3 := NeighborPos(g, i, j, 0), NeighborPos(g, i, j, 1),
                          NeighborPos(g, i, j, 2), NeighborPos(g, i, j, 3);
    Quad(Cell(g, n0.0, n0.1), Cell(g, n1.0, n1.1), Cell(g, n2.0, n2.1), Cell(g, n3.0, n3.1))
  }

  /** Every `cell_key` entry is a segment id and every `cell_neighbors` entry a cell index. */
  lemma CellTablesValid(g: Dims, i: nat, j: nat)
    requires g.Valid() && OnCellGrid(g, i, j)
    ensures var key := CellKeyAt(g, i, j);
      && 0 <= key.a < g.NTorSegments() && 0 <= key.c < g.NTorSegments()
      && g.NTorSegments() <= key.b < g.NSegments()
      && g.NTorSegments() <= key.d < g.NSegments()
    ensures forall d | 0 <= d < 4 :: 0 <= CellNeighborsAt(g, i, j).At(d) < g.NCells()
  {
    var nT, h := g.nTheta, g.Half();
    KeySentinels(g, i, j);
    KeySentinels(g, i, g.Next(j));
    KeySentinels(g, i + 1, j);
    if j >= h {
      KeySentinels(g, i, nT - j - 1);
      KeySentinels(g, i + 1, nT - j - 1);
    }
    forall d | 0 <= d < 4
      ensures 0 <= CellNeighborsAt(g, i, j).At(d) < g.NCells()
    {
      var p := NeighborPos(g, i, j, d);
      FlatBound(p.0, p.1, g.nPhi, nT);
    }
  }

  /** The direction in which a neighbour sees the cell back. */
  function Back(g: Dims, i: nat, d: nat): nat
    requires d < 4
  {
    if d == 0 then 2
    else if d == 2 then 0
    else if d == 1 then (if i < g.nPhi - 1 then 3 else 1)
    else (if i == 0 then 3 else 1)
  }

  /**
   * Adjacency is symmetric and adjacent cells share the border segment between
   * them: the neighbour in direction d has the cell as its neighbour in
   * direction Back(d), and both name the same segment in those key slots.
   */
  lemma NeighborsShareBorder(g: Dims, i: nat, j: nat, d: nat)
    requires g.Valid() && OnCellGrid(g, i, j) && d < 4
    ensures var p := NeighborPos(g, i, j, d);
      && NeighborPos(g, p.0, p.1, Back(g, i, d)) == (i, j)
      && CellKeyAt(g, i, j).At(d) == CellKeyAt(g, p.0, p.1).At(Back(g, i, d))
  {
  }

  /**
   * The four sides of a cell join its four corners; on a symmetry plane the
   * folded poloidal side is the mirror image of the missing one.
   */
  lemma CellCorners(g: Dims, i: nat, j: nat)
    requires g.Valid() && OnCellGrid(g, i, j)
    ensures var key := CellKeyAt(g, i, j);
      var j1 := g.Next(j);
      var h := g.Half();
      && g.IsSegment(key.a) && g.IsSegment(key.b) && g.IsSegment(key.c) && g.IsSegment(key.d)
      && SegmentEnds(g, key.a) == (g.Node(i, j), g.Node(i + 1, j))
      && SegmentEnds(g, key.c) == (g.Node(i, j1), g.Node(i + 1, j1))
      && SegmentEnds(g, key.d) ==
           (if i == 0 && j >= h then (g.Node(0, g.Mirror(j1)), g.Node(0, g.Mirror(j)))
            else (g.Node(i, j), g.Node(i, j1)))
      && SegmentEnds(g, key.b) ==
           (if i + 1 == g.nPhi && j >= h then (g.Node(i + 1, g.Mirror(j1)), g.Node(i + 1, g.Mirror(j)))
            else (g.Node(i + 1, j), g.Node(i + 1, j1)))
  {
    CellTablesValid(g, i, j);
    SegmentEndsMatchKeys(g, Tor(i, j));
    SegmentEndsMatchKeys(g, Tor(i, g.Next(j)));
    CellLowerSide(g, i, j);
    CellUpperSide(g, i, j);
  }

  lemma CellLowerSide(g: Dims, i: nat, j: nat)
    requires g.Valid() && OnCellGrid(g, i, j)
    ensures var d := CellKeyAt(g, i, j).d;
      var j1 := g.Next(j);
      && g.IsSegment(d)
      && SegmentEnds(g, d) ==
           (if i == 0 && j >= g.Half() then (g.Node(0, g.Mirror(j1)), g.Node(0, g.Mirror(j)))
            else (g.Node(i, j), g.Node(i, j1)))
  {
    CellTablesValid(g, i, j);
    if i == 0 && j >= g.Half() {
      SegmentEndsMatchKeys(g, Pol(0, g.nTheta - j - 1));
    } else {
      SegmentEndsMatchKeys(g, Pol(i, j));
    }
  }

  lemma CellUpperSide(g: Dims, i: nat, j: nat)
    requires g.Valid() && OnCellGrid(g, i, j)
    ensures var b := CellKeyAt(g, i, j).b;
      var j1 := g.Next(j);
      && g.IsSegment(b)
      && SegmentEnds(g, b) ==
           (if i + 1 == g.nPhi && j >= g.Half() then (g.Node(i + 1, g.Mirror(j1)), g.Node(i + 1, g.Mirror(j)))
            else (g.Node(i + 1, j), g.Node(i + 1, j1)))
  {
    CellTablesValid(g, i, j);
    if i + 1 == g.nPhi && j >= g.Half() {
      SegmentEndsMatchKeys(g, Pol(i + 1, g.nTheta - j - 1));
    } else {
      SegmentEndsMatchKeys(g, Pol(i + 1, j));
    }
  }

  /** Grid coordinates of a cell index. */
  function CellAt(g: Dims, c: nat): (ij: (nat, nat))
    requires g.Valid() && c < g.NCells()
    ensures OnCellGrid(g, ij.0, ij.1) && Cell(g, ij.0, ij.1) == c
  {
    UnflattenBelow(c, g.nPhi, g.nTheta);
    Unflatten(c, g.nTheta)
  }

  lemma CellAtCell(g: Dims, i: nat, j: nat)
    requires g.Valid() && OnCellGrid(g, i, j)
    ensures Cell(g, i, j) < g.NCells() && CellAt(g, Cell(g, i, j)) == (i, j)
  {
    FlatBound(i, j, g.nPhi, g.nTheta);
    UnflattenFlat(i, j, g.nTheta);
  }

  /** Row c of `cell_key`. */
  function CellKeyOf(g: Dims, c: nat): Quad
    requires g.Valid() && c < g.NCells()
  {
    var ij := CellAt(g, c);
    CellKeyAt(g, ij.0, ij.1)
  }

  /** Row c of `cell_neighbors`. */
  function CellNeighborsOf(g: Dims, c: nat): Quad
    requires g.Valid() && c < g.NCells()
  {
    var ij := CellAt(g, c);
    CellNeighborsAt(g, ij.0, ij.1)
  }
}
