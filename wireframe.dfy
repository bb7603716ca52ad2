/**
 * The `ToroidalWireframe` class of wireframe.py: a half-period grid of
 * nodes joined by toroidal and poloidal segments, the ordered dictionary of
 * linear constraints on the segment currents, and the segment currents
 * themselves.
 */
module Wireframe {
  import opened Wrappers
  import opened Names
  import opened Grid
  import opened Rows
  import opened Constraints
  import opened Circuit
  import opened Propagation
  import opened Export

  /** The sign of positive current in half period k: reflected half periods run backwards. */
  function HalfPeriodSign(k: nat): real
  {
    if k % 2 == 0 then 1.0 else -1.0
  }

  /** Segment ids as numpy casts them, once the range check has passed. */
  function AsIds(segments: seq<int>): (ks: seq<nat>)
    requires forall t | 0 <= t < |segments| :: segments[t] >= 0
    ensures |ks| == |segments| && forall t | 0 <= t < |ks| :: ks[t] == segments[t]
  {
    seq(|segments|, t requires 0 <= t < |segments| => segments[t] as nat)
  }

  /** The `form` argument of `get_free_cells`. */
  datatype CellForm = Indices | Logical

  /** What `get_free_cells` returns for each form. */
  datatype FreeCells = CellIndices(cells: seq<nat>) | CellMask(mask: seq<bool>)

  class ToroidalWireframe {
    const g: Dims
    const nfp: nat
    /** `constraint_tol`. */
    const tol: real
    /** `seg_signs`, one entry per half period. */
    const segSigns: seq<real>
    /** `connected_segments`: [tor_in, pol_in, tor_out, pol_out] per node. */
    const connectedSegments: array<Links>
    /** `cell_key`: the four segments bordering each cell. */
    const cellKey: array<Quad>
    /** `cell_neighbors`: the four cells adjacent to each cell. */
    const cellNeighbors: array<Quad>
    const currents: array<real>
    /** The `constraints` OrderedDict. */
    var constraints: Store
    var implicitsUpdated: bool

    /** The connectivity and cell tables hold what the grid determines. */
    ghost predicate TablesValid()
      reads connectedSegments, cellKey, cellNeighbors
    {
      && g.Valid()
      && ConnectedFilled(g, connectedSegments, g.nPhi + 1, 0)
      && KeyFilled(g, cellKey, g.nPhi, 0)
      && NeighborsFilled(g, cellNeighbors, g.NCells())
    }

    ghost predicate Valid()
      reads this, connectedSegments, cellKey, cellNeighbors, currents
    {
      && TablesValid() && nfp >= 1
      && |segSigns| == 2 * nfp && (forall k | 0 <= k < |segSigns| :: segSigns[k] == HalfPeriodSign(k))
      && currents.Length == g.NSegments()
      && constraints.Valid() && Sized(constraints, g.NSegments())
    }

    /** Row n of `connected_segments` is the connectivity of node n. */
    lemma ConnectedRow(n: nat)
      requires TablesValid() && n < g.NNodes()
      ensures connectedSegments[n] == ConnectedOfNode(g, n)
    {
      var ij := NodeAt(g, n);
      assert ij.0 < g.nPhi + 1;
    }

    /** Row c of `cell_key` and `cell_neighbors` belongs to cell c. */
    lemma CellRow(c: nat)
      requires TablesValid() && c < g.NCells()
      ensures cellKey[c] == CellKeyOf(g, c) && cellNeighbors[c] == CellNeighborsOf(g, c)
    {
      var ij := CellAt(g, c);
      assert ij.0 < g.nPhi;
    }

    /** The construction of `seg_signs` (wireframe.py:81-111): +1, -1 for each field period. */
    static method SegmentSigns(nfp: nat) returns (signs: seq<real>)
      requires nfp >= 1
      ensures |signs| == 2 * nfp && forall k | 0 <= k < 2 * nfp :: signs[k] == HalfPeriodSign(k)
    {
      signs := [1.0, -1.0];
      for i := 1 to nfp
        invariant |signs| == 2 * i && forall k | 0 <= k < 2 * i :: signs[k] == HalfPeriodSign(k)
      {
        signs := signs + [1.0, -1.0];
      }
    }

    /** The rows of `connected_segments` for the nodes before (i,j) in row-major order are filled in. */
    static ghost predicate ConnectedFilled(g: Dims, a: array<Links>, i: nat, j: nat)
      requires g.Valid()
      reads a
    {
      && a.Length == g.NNodes()
      && forall p, q | g.OnGrid(p, q) && (p < i || (p == i && q < j)) :: a[NodeIndex(g, p, q)] == ConnectedAt(g, p, q)
    }

    static method SetConnectedRow(g: Dims, a: array<Links>, i: nat, j: nat)
      requires g.Valid() && g.OnGrid(i, j) && ConnectedFilled(g, a, i, j)
      modifies a
      ensures ConnectedFilled(g, a, i, j + 1)
    {
      forall p, q | g.OnGrid(p, q) && (p < i || (p == i && q < j))
        ensures NodeIndex(g, p, q) < NodeIndex(g, i, j)
      {
        FlatLess(p, q, i, j, g.nTheta);
      }
      a[NodeIndex(g, i, j)] := ConnectedAt(g, i, j);
    }

    /** `determine_connected_segments`: one row per node, filled in loop order. */
    static method DetermineConnectedSegments(g: Dims) returns (a: array<Links>)
      requires g.Valid()
      ensures fresh(a) && ConnectedFilled(g, a, g.nPhi + 1, 0)
    {
      a := new Links[g.NNodes()](_ => Links(0, 0, 0, 0));
      for i := 0 to g.nPhi + 1
        invariant ConnectedFilled(g, a, i, 0)
      {
        for j := 0 to g.nTheta
          invariant ConnectedFilled(g, a, i, j)
        {
          SetConnectedRow(g, a, i, j);
        }
      }
    }

    /** The rows of `cell_key` for the cells before (i,j) in row-major order are filled in. */
    static ghost predicate KeyFilled(g: Dims, key: array<Quad>, i: nat, j: nat)
      requires g.Valid()
      reads key
    {
      && key.Length == g.NCells()
      && forall p, q {:trigger CellKeyAt(g, p, q)} | OnCellGrid(g, p, q) && (p < i || (p == i && q < j)) :: key[CellIndex(g, p, q)] == CellKeyAt(g, p, q)
    }

    /** The first m rows of `cell_neighbors` are filled in. */
    static ghost predicate NeighborsFilled(g: Dims, nbrs: array<Quad>, m: nat)
      requires g.Valid()
      reads nbrs
    {
      && nbrs.Length == g.NCells()
      && forall c | 0 <= c < m && c < g.NCells() :: nbrs[c] == CellNeighborsOf(g, c)
    }

    static method SetKeyRow(g: Dims, key: array<Quad>, i: nat, j: nat)
      requires g.Valid() && OnCellGrid(g, i, j) && KeyFilled(g, key, i, j)
      modifies key
      ensures KeyFilled(g, key, i, j + 1)
    {
      forall p, q | OnCellGrid(g, p, q) && (p < i || (p == i && q < j))
        ensures CellIndex(g, p, q) < CellIndex(g, i, j)
      {
        FlatLess(p, q, i, j, g.nTheta);
      }
      key[CellIndex(g, i, j)] := CellKeyAt(g, i, j);
    }

    static method SetNeighborRow(g: Dims, nbrs: array<Quad>, i: nat, j: nat)
      requires g.Valid() && OnCellGrid(g, i, j) && NeighborsFilled(g, nbrs, CellIndex(g, i, j))
      modifies nbrs
      ensures NeighborsFilled(g, nbrs, CellIndex(g, i, j) + 1)
    {
      CellAtCell(g, i, j);
      nbrs[CellIndex(g, i, j)] := CellNeighborsAt(g, i, j);
    }

    /** `set_up_cell_key`: the border segments and the neighbours of every cell. */
    static method SetUpCellKey(g: Dims) returns (key: array<Quad>, nbrs: array<Quad>)
      requires g.Valid()
      ensures fresh(key) && fresh(nbrs) && KeyFilled(g, key, g.nPhi, 0) && NeighborsFilled(g, nbrs, g.NCells())
    {
      key := new Quad[g.NCells()](_ => Quad(0, 0, 0, 0));
      nbrs := new Quad[g.NCells()](_ => Quad(0, 0, 0, 0));
      for i := 0 to g.nPhi
        invariant KeyFilled(g, key, i, 0) && NeighborsFilled(g, nbrs, i * g.nTheta)
      {
        for j := 0 to g.nTheta
          invariant KeyFilled(g, key, i, j) && NeighborsFilled(g, nbrs, i * g.nTheta + j)
        {
          SetKeyRow(g, key, i, j);
          SetNeighborRow(g, nbrs, i, j);
        }
        assert i * g.nTheta + g.nTheta == (i + 1) * g.nTheta;
      }
      assert g.nPhi * g.nTheta == g.NCells();
    }

    /**
     * `__init__` for dimensions already known to be even and positive: zero
     * currents, the connectivity and cell tables, and one continuity
     * constraint per active node.
     */
    constructor (nPhi: nat, nTheta: nat, nfp: nat, tol: real)
      requires Dims(nPhi, nTheta).Valid() && nfp >= 1
      ensures Valid() && g == Dims(nPhi, nTheta) && this.nfp == nfp && this.tol == tol
      ensures fresh(connectedSegments) && fresh(cellKey) && fresh(cellNeighbors) && fresh(currents)
      ensures currents[..] == Zeros(g.NSegments())
      ensures constraints == ContinuityStore(g) && implicitsUpdated
    {
      g := Dims(nPhi, nTheta);
      this.nfp := nfp;
      this.tol := tol;
      var signs := SegmentSigns(nfp);
      segSigns := signs;
      currents := new real[Dims(nPhi, nTheta).NSegments()](_ => 0.0);
      var conn := DetermineConnectedSegments(Dims(nPhi, nTheta));
      connectedSegments := conn;
      var key, nbrs := SetUpCellKey(Dims(nPhi, nTheta));
      cellKey, cellNeighbors := key, nbrs;
      constraints := Empty;
      implicitsUpdated := true;
      new;
      var out := AddContinuityConstraints();
    }

    /**
     * `__init__`'s argument checks: odd dimensions raise, then a tolerance
     * that is not positive (the test the source means to make); empty grids
     * are refused too.
     */
    static method New(nPhi: int, nTheta: int, nfp: nat, tol: real) returns (r: Result<ToroidalWireframe, Error>)
      requires nfp >= 1
      ensures r.Err? <==> nPhi % 2 != 0 || nTheta % 2 != 0 || tol <= 0.0 || nPhi <= 0 || nTheta <= 0
      ensures r.Err? ==> r.error == if nPhi % 2 != 0 || nTheta % 2 != 0 then OddDimensions
                                    else if tol <= 0.0 then BadTolerance else EmptyGrid
      ensures r.Ok? ==> fresh(r.value) && r.value.Valid() && r.value.g == Dims(nPhi, nTheta) && r.value.tol == tol
      ensures r.Ok? ==> r.value.constraints == ContinuityStore(r.value.g) && r.value.currents[..] == Zeros(r.value.g.NSegments())
    {
      if nTheta % 2 != 0 || nPhi % 2 != 0 {
        return Err(OddDimensions);
      }
      if tol <= 0.0 {
        return Err(BadTolerance);
      }
      if nPhi <= 0 || nTheta <= 0 {
        return Err(EmptyGrid);
      }
      var w := new ToroidalWireframe(nPhi, nTheta, nfp, tol);
      return Ok(w);
    }

    /**
     * `__init__`'s argument checks as written: the tolerance test
     * `not isscalar(tol) and not tol > 0` never fires for a number, so any
     * tolerance is stored; odd dimensions raise and empty grids are refused.
     */
    static method NewAsWritten(nPhi: int, nTheta: int, nfp: nat, tol: real) returns (r: Result<ToroidalWireframe, Error>)
      requires nfp >= 1
      ensures r.Err? <==> nPhi % 2 != 0 || nTheta % 2 != 0 || nPhi <= 0 || nTheta <= 0
      ensures r.Err? ==> r.error == if nPhi % 2 != 0 || nTheta % 2 != 0 then OddDimensions else EmptyGrid
      ensures r.Ok? ==> fresh(r.value) && r.value.Valid() && r.value.g == Dims(nPhi, nTheta) && r.value.tol == tol
      ensures r.Ok? ==> r.value.constraints == ContinuityStore(r.value.g) && r.value.currents[..] == Zeros(r.value.g.NSegments())
    {
      if nTheta % 2 != 0 || nPhi % 2 != 0 {
        return Err(OddDimensions);
      }
      if nPhi <= 0 || nTheta <= 0 {
        return Err(EmptyGrid);
      }
      var w := new ToroidalWireframe(nPhi, nTheta, nfp, tol);
      return Ok(w);
    }

    /** `add_constraint`: a duplicate name or a row of the wrong length raises and changes nothing. */
    method AddConstraint(name: string, kind: string, row: seq<real>, constant: real) returns (out: Outcome<Error>)
      requires Valid()
      modifies this
      ensures Valid() && implicitsUpdated == old(implicitsUpdated)
      ensures (constraints, out) == AddResult(old(constraints), g.NSegments(), name, Constraint(kind, row, constant))
    {
      var r := Constraints.AddConstraint(constraints, g.NSegments(), name, Constraint(kind, row, constant));
      if r.Err? {
        return Fail(r.error);
      }
      InsertValid(constraints, name, Constraint(kind, row, constant));
      constraints := r.value;
      out := Pass;
    }

    /** `add_continuity_constraint`: net current into the node is zero. */
    method AddContinuityConstraint(node: nat, l: Links) returns (out: Outcome<Error>)
      requires Valid() && SlotsIn(l, g.NSegments())
      modifies this
      ensures Valid() && implicitsUpdated == old(implicitsUpdated)
      ensures (constraints, out) ==
              AddResult(old(constraints), g.NSegments(), ContinuityName(node), Constraint(ContinuityType, ContinuityRow(g.NSegments(), l), 0.0))
    {
      out := AddConstraint(ContinuityName(node), ContinuityType, ContinuityRow(g.NSegments(), l), 0.0);
    }

    /** The body of the loop of `add_continuity_constraints` at node (i,j). */
    method ContinuityNode(ghost s0: Store, i: nat, j: nat) returns (out: Outcome<Error>)
      requires Valid() && i <= g.nPhi && j < g.nTheta
      requires ContinuityUpTo(g, s0, i, j) == (constraints, Pass)
      modifies this
      ensures Valid() && implicitsUpdated == old(implicitsUpdated)
      ensures (constraints, out) == ContinuityUpTo(g, s0, i, j + 1)
    {
      if i == 0 {
        if j == 0 || j >= g.Half() {
          return Pass;
        }
      } else if i == g.nPhi {
        if j == 0 || j >= g.Half() {
          return Pass;
        }
      }
      var l := connectedSegments[NodeIndex(g, i, j)];
      ConnectedValid(g, i, j);
      assert l == ConnectedAt(g, i, j);
      assert Constraint(ContinuityType, ContinuityRow(g.NSegments(), l), 0.0) == ContinuityConstraint(g, i, j);
      out := AddContinuityConstraint(g.Node(i, j), l);
    }

    /** The inner loop of `add_continuity_constraints`: the nodes (i,0) .. (i,nTheta-1). */
    method ContinuityRing(ghost s0: Store, i: nat) returns (out: Outcome<Error>, ghost stop: nat)
      requires Valid() && i <= g.nPhi
      requires ContinuityUpTo(g, s0, i, 0) == (constraints, Pass)
      modifies this
      ensures Valid() && implicitsUpdated == old(implicitsUpdated)
      ensures stop <= g.nTheta && constraints == ContinuityUpTo(g, s0, i, stop).0 && out == ContinuityUpTo(g, s0, i, stop).1
      ensures out.Pass? ==> stop == g.nTheta
    {
      out := Pass;
      var j := 0;
      while j < g.nTheta && out.Pass?
        invariant Valid() && implicitsUpdated == old(implicitsUpdated)
        invariant j <= g.nTheta && constraints == ContinuityUpTo(g, s0, i, j).0 && out == ContinuityUpTo(g, s0, i, j).1
      {
        out := ContinuityNode(s0, i, j);
        j := j + 1;
      }
      stop := j;
    }

    /**
     * `add_continuity_constraints`: the nested loop over nodes, skipping the
     * symmetry-plane nodes whose constraint symmetry already implies.
     */
    method AddContinuityConstraints() returns (out: Outcome<Error>)
      requires Valid()
      modifies this
      ensures Valid() && implicitsUpdated == old(implicitsUpdated)
      ensures (constraints, out) == AddEach(old(constraints), g.NSegments(), AllContinuity(g))
    {
      ghost var s0 := constraints;
      out := Pass;
      for i := 0 to g.nPhi + 1
        invariant Valid() && implicitsUpdated == old(implicitsUpdated) && out == Pass
        invariant i <= g.nPhi ==> (constraints, out) == ContinuityUpTo(g, s0, i, 0)
        invariant i == g.nPhi + 1 ==> (constraints, out) == ContinuityUpTo(g, s0, g.nPhi, g.nTheta)
      {
        ghost var stop;
        out, stop := ContinuityRing(s0, i);
        if out.Fail? {
          ContinuityUpToFailed(g, s0, i, stop, g.nPhi, g.nTheta);
          ContinuityUpToFold(g, s0, g.nPhi, g.nTheta);
          return;
        }
      }
      ContinuityUpToFold(g, s0, g.nPhi, g.nTheta);
    }

    /** `remove_constraint` with one name: `del` raises on a missing name and changes nothing. */
    method RemoveConstraint(name: string) returns (out: Outcome<Error>)
      requires Valid()
      modifies this
      ensures Valid() && implicitsUpdated == old(implicitsUpdated)
      ensures out.Pass? <==> name in old(constraints.entries)
      ensures out.Pass? ==> constraints == old(constraints).Delete(name)
      ensures out.Fail? ==> constraints == old(constraints) && out.error == MissingName(name)
    {
      var r := Constraints.RemoveConstraint(constraints, name);
      if r.Err? {
        return Fail(MissingName(name));
      }
      DeleteValid(constraints, name);
      constraints := r.value;
      out := Pass;
    }

    /** `remove_constraint` with a list of names: deleted in order until one is missing. */
    method RemoveConstraints(names: seq<string>) returns (out: Outcome<Error>)
      requires Valid()
      modifies this
      ensures Valid() && implicitsUpdated == old(implicitsUpdated)
      ensures (constraints, out) == RemoveEach(old(constraints), names)
    {
      ghost var s0 := constraints;
      out := Pass;
      for t := 0 to |names|
        invariant Valid() && implicitsUpdated == old(implicitsUpdated) && out == Pass
        invariant (constraints, out) == RemoveEach(s0, names[..t])
      {
        assert names[..t + 1][..t] == names[..t];
        out := RemoveConstraint(names[t]);
        if out.Fail? {
          RemoveEachStops(s0, names, t + 1);
          return;
        }
      }
      assert names[..|names|] == names;
    }

    /** `add_poloidal_current_constraint`: raises if a poloidal current constraint is already stored. */
    method AddPoloidalCurrentConstraint(current: real) returns (out: Outcome<Error>)
      requires Valid()
      modifies this
      ensures Valid() && implicitsUpdated == old(implicitsUpdated)
      ensures out.Pass? <==> PoloidalCurrentName !in old(constraints.entries)
      ensures out.Pass? ==> constraints == old(constraints).Insert(PoloidalCurrentName, PoloidalCurrentConstraint(g, nfp, current))
      ensures out.Fail? ==> constraints == old(constraints) && out.error == DuplicateName(PoloidalCurrentName)
    {
      var c := PoloidalCurrentConstraint(g, nfp, current);
      out := AddConstraint(PoloidalCurrentName, c.kind, c.row, c.constant);
    }

    method RemovePoloidalCurrentConstraint() returns (out: Outcome<Error>)
      requires Valid()
      modifies this
      ensures Valid() && implicitsUpdated == old(implicitsUpdated)
      ensures out.Pass? <==> PoloidalCurrentName in old(constraints.entries)
      ensures out.Pass? ==> constraints == old(constraints).Delete(PoloidalCurrentName)
      ensures out.Fail? ==> constraints == old(constraints) && out.error == MissingName(PoloidalCurrentName)
    {
      out := RemoveConstraint(PoloidalCurrentName);
    }

    /**
     * `set_poloidal_current`: replaces the poloidal current constraint, or
     * adds one; it never raises, and the constraint moves to the end.
     */
    method SetPoloidalCurrent(current: real)
      requires Valid()
      modifies this
      ensures Valid() && implicitsUpdated == old(implicitsUpdated)
      ensures constraints.entries == old(constraints.entries)[PoloidalCurrentName := PoloidalCurrentConstraint(g, nfp, current)]
      ensures constraints.names == Without(old(constraints.names), PoloidalCurrentName) + [PoloidalCurrentName]
    {
      Replace(constraints, PoloidalCurrentName, PoloidalCurrentConstraint(g, nfp, current));
      if PoloidalCurrentName in constraints.entries {
        var removed := RemoveConstraint(PoloidalCurrentName);
      }
      var added := AddPoloidalCurrentConstraint(current);
    }

    /** `add_toroidal_current_constraint`: raises if a toroidal current constraint is already stored. */
    method AddToroidalCurrentConstraint(current: real) returns (out: Outcome<Error>)
      requires Valid()
      modifies this
      ensures Valid() && implicitsUpdated == old(implicitsUpdated)
      ensures out.Pass? <==> ToroidalCurrentName !in old(constraints.entries)
      ensures out.Pass? ==> constraints == old(constraints).Insert(ToroidalCurrentName, ToroidalCurrentConstraint(g, current))
      ensures out.Fail? ==> constraints == old(constraints) && out.error == DuplicateName(ToroidalCurrentName)
    {
      var c := ToroidalCurrentConstraint(g, current);
      out := AddConstraint(ToroidalCurrentName, c.kind, c.row, c.constant);
    }

    method RemoveToroidalCurrentConstraint() returns (out: Outcome<Error>)
      requires Valid()
      modifies this
      ensures Valid() && implicitsUpdated == old(implicitsUpdated)
      ensures out.Pass? <==> ToroidalCurrentName in old(constraints.entries)
      ensures out.Pass? ==> constraints == old(constraints).Delete(ToroidalCurrentName)
      ensures out.Fail? ==> constraints == old(constraints) && out.error == MissingName(ToroidalCurrentName)
    {
      out := RemoveConstraint(ToroidalCurrentName);
    }

    /** `set_toroidal_current`: replaces the toroidal current constraint, or adds one. */
    method SetToroidalCurrent(current: real)
      requires Valid()
      modifies this
      ensures Valid() && implicitsUpdated == old(implicitsUpdated)
      ensures constraints.entries == old(constraints.entries)[ToroidalCurrentName := ToroidalCurrentConstraint(g, current)]
      ensures constraints.names == Without(old(constraints.names), ToroidalCurrentName) + [ToroidalCurrentName]
    {
      Replace(constraints, ToroidalCurrentName, ToroidalCurrentConstraint(g, current));
      if ToroidalCurrentName in constraints.entries {
        var removed := RemoveConstraint(ToroidalCurrentName);
      }
      var added := AddToroidalCurrentConstraint(current);
    }

    /** `set_segments_free`: drops the explicit pin of each listed segment, or else its implicit pin. */
    method SetSegmentsFree(segments: seq<int>) returns (out: Outcome<Error>)
      requires Valid()
      modifies this
      ensures Valid()
      ensures out.Pass? <==> InRange(segments, g.NSegments())
      ensures out.Fail? ==> out.error == SegmentOutOfRange && constraints == old(constraints) && implicitsUpdated == old(implicitsUpdated)
      ensures out.Pass? ==> constraints == FreeEach(old(constraints), AsIds(segments)) && !implicitsUpdated
    {
      if !InRange(segments, g.NSegments()) {
        return Fail(SegmentOutOfRange);
      }
      ghost var s0 := constraints;
      var ks := AsIds(segments);
      for t := 0 to |ks|
        invariant Valid() && constraints == FreeEach(s0, ks[..t])
      {
        assert ks[..t + 1][..t] == ks[..t];
        if SegmentName(ks[t]) in constraints.entries {
          var removed := RemoveConstraint(SegmentName(ks[t]));
        } else if ImplicitSegmentName(ks[t]) in constraints.entries {
          var removed := RemoveConstraint(ImplicitSegmentName(ks[t]));
        }
      }
      assert ks[..|ks|] == ks;
      implicitsUpdated := false;
      out := Pass;
    }

    /**
     * `add_segment_constraints`: pins each listed segment to zero current,
     * after freeing them unless the pins are implicit. An index out of range
     * raises before anything changes; an existing pin name raises midway.
     */
    method AddSegmentConstraints(segments: seq<int>, implicit: bool) returns (out: Outcome<Error>)
      requires Valid()
      modifies this
      ensures Valid()
      ensures !InRange(segments, g.NSegments()) ==>
                out == Fail(SegmentOutOfRange) && constraints == old(constraints) && implicitsUpdated == old(implicitsUpdated)
      ensures InRange(segments, g.NSegments()) ==>
                (constraints, out) ==
                PinEach(if implicit then old(constraints) else FreeEach(old(constraints), AsIds(segments)), g.NSegments(), AsIds(segments), implicit)
      ensures InRange(segments, g.NSegments()) ==> implicitsUpdated == (implicit && out.Fail? && old(implicitsUpdated))
    {
      if !InRange(segments, g.NSegments()) {
        return Fail(SegmentOutOfRange);
      }
      var ks := AsIds(segments);
      if !implicit {
        out := SetSegmentsFree(segments);
      }
      out := PinSegments(ks, implicit);
    }

    /** The pinning loop of `add_segment_constraints`; only a completed loop clears the flag. */
    method PinSegments(ks: seq<nat>, implicit: bool) returns (out: Outcome<Error>)
      requires Valid() && forall t | 0 <= t < |ks| :: ks[t] < g.NSegments()
      modifies this
      ensures Valid()
      ensures (constraints, out) == PinEach(old(constraints), g.NSegments(), ks, implicit)
      ensures implicitsUpdated == (out.Fail? && old(implicitsUpdated))
    {
      ghost var s1 := constraints;
      out := Pass;
      for t := 0 to |ks|
        invariant Valid() && out == Pass && implicitsUpdated == old(implicitsUpdated)
        invariant (constraints, out) == PinEach(s1, g.NSegments(), ks[..t], implicit)
      {
        assert ks[..t + 1][..t] == ks[..t];
        out := AddConstraint(PinName(ks[t], implicit), PinType(implicit), UnitRow(g.NSegments(), ks[t]), 0.0);
        if out.Fail? {
          PinEachStops(s1, g.NSegments(), ks, implicit, t + 1);
          return;
        }
      }
      assert ks[..|ks|] == ks;
      implicitsUpdated := false;
    }

    /** `remove_segment_constraints`: deletes the listed pins of one kind; a missing pin raises midway. */
    method RemoveSegmentConstraints(segments: seq<int>, implicit: bool) returns (out: Outcome<Error>)
      requires Valid()
      modifies this
      ensures Valid()
      ensures !InRange(segments, g.NSegments()) ==>
                out == Fail(SegmentOutOfRange) && constraints == old(constraints) && implicitsUpdated == old(implicitsUpdated)
      ensures InRange(segments, g.NSegments()) ==> (constraints, out) == UnpinEach(old(constraints), AsIds(segments), implicit)
      ensures InRange(segments, g.NSegments()) ==> implicitsUpdated == (out.Fail? && old(implicitsUpdated))
    {
      if !InRange(segments, g.NSegments()) {
        return Fail(SegmentOutOfRange);
      }
      ghost var s0 := constraints;
      var ks := AsIds(segments);
      out := Pass;
      for t := 0 to |ks|
        invariant Valid() && out == Pass && implicitsUpdated == old(implicitsUpdated)
        invariant (constraints, out) == UnpinEach(s0, ks[..t], implicit)
      {
        assert ks[..t + 1][..t] == ks[..t];
        out := RemoveConstraint(PinName(ks[t], implicit));
        if out.Fail? {
          UnpinEachStops(s0, ks, implicit, t + 1);
          return;
        }
      }
      assert ks[..|ks|] == ks;
      implicitsUpdated := false;
    }

    /** `set_segments_constrained`: frees the listed segments, then pins them. */
    method SetSegmentsConstrained(segments: seq<int>, implicit: bool) returns (out: Outcome<Error>)
      requires Valid()
      modifies this
      ensures Valid()
      ensures !InRange(segments, g.NSegments()) ==>
                out == Fail(SegmentOutOfRange) && constraints == old(constraints) && implicitsUpdated == old(implicitsUpdated)
      ensures InRange(segments, g.NSegments()) ==>
                (constraints, out) ==
                PinEach(if implicit then FreeEach(old(constraints), AsIds(segments))
                        else FreeEach(FreeEach(old(constraints), AsIds(segments)), AsIds(segments)),
                        g.NSegments(), AsIds(segments), implicit)
      ensures InRange(segments, g.NSegments()) ==> !implicitsUpdated
    {
      out := SetSegmentsFree(segments);
      if out.Fail? {
        return;
      }
      out := AddSegmentConstraints(segments, implicit);
    }

    /** `free_all_segments`: deletes every pin, visiting a snapshot of the keys. */
    method FreeAllSegments()
      requires Valid()
      modifies this
      ensures Valid() && !implicitsUpdated
      ensures constraints == DropPins(old(constraints), old(constraints.names))
    {
      ghost var s0 := constraints;
      var keys := constraints.names;
      for t := 0 to |keys|
        invariant Valid() && constraints == DropPins(s0, keys[..t])
      {
        assert keys[..t + 1][..t] == keys[..t];
        if keys[t] in constraints.entries && IsPinType(constraints.entries[keys[t]].kind) {
          var removed := RemoveConstraint(keys[t]);
        }
      }
      assert keys[..|keys|] == keys;
      implicitsUpdated := false;
    }

    /** One free segment's share of the tally: every node it touches counts it. */
    method TallySegment(nodeSum: array<nat>, fs: seq<nat>, t: nat)
      requires TablesValid() && nodeSum.Length == g.NNodes() && t < |fs|
      requires forall n | 0 <= n < g.NNodes() :: nodeSum[n] == FreeCount(fs[..t], ConnectedOfNode(g, n))
      modifies nodeSum
      ensures forall n | 0 <= n < g.NNodes() :: nodeSum[n] == FreeCount(fs[..t + 1], ConnectedOfNode(g, n))
    {
      for n := 0 to g.NNodes()
        invariant forall m | 0 <= m < n :: nodeSum[m] == FreeCount(fs[..t + 1], ConnectedOfNode(g, m))
        invariant forall m | n <= m < g.NNodes() :: nodeSum[m] == FreeCount(fs[..t], ConnectedOfNode(g, m))
      {
        ConnectedRow(n);
        FreeCountSnoc(fs, t, ConnectedOfNode(g, n));
        if Touches(connectedSegments[n], fs[t]) {
          nodeSum[n] := nodeSum[n] + 1;
        }
      }
    }

    /** The tally of `update_implicit_constraints`: how many free segments meet at each node. */
    method Tally(fs: seq<nat>) returns (nodeSum: array<nat>)
      requires TablesValid()
      ensures fresh(nodeSum) && nodeSum.Length == g.NNodes()
      ensures forall n | 0 <= n < g.NNodes() :: nodeSum[n] == FreeCount(fs, ConnectedOfNode(g, n))
    {
      nodeSum := new nat[g.NNodes()](_ => 0);
      for t := 0 to |fs|
        invariant forall n | 0 <= n < g.NNodes() :: nodeSum[n] == FreeCount(fs[..t], ConnectedOfNode(g, n))
      {
        TallySegment(nodeSum, fs, t);
      }
      assert fs[..|fs|] == fs;
    }

    /** `np.where(node_sum == 1)`: the nodes with exactly one free segment, ascending. */
    static method LoneNodes(g: Dims, nodeSum: array<nat>, ghost fs: seq<nat>) returns (nodes: seq<nat>)
      requires g.Valid() && nodeSum.Length == g.NNodes()
      requires forall n | 0 <= n < g.NNodes() :: nodeSum[n] == FreeCount(fs, ConnectedOfNode(g, n))
      ensures nodes == Implicated(g, fs)
    {
      nodes := [];
      for n := 0 to g.NNodes()
        invariant nodes == ImplicatedBelow(g, fs, n)
      {
        if nodeSum[n] == 1 {
          nodes := nodes + [n];
        }
      }
    }

    /** The inner loop of a pass: each link of node n that no pin names gets an implicit pin. */
    method PinNode(n: nat)
      requires Valid() && n < g.NNodes()
      modifies this
      ensures Valid() && SlotsIn(ConnectedOfNode(g, n), g.NSegments())
      ensures constraints == PinSlots(old(constraints), g.NSegments(), ConnectedOfNode(g, n), 4)
      ensures |constraints.names| >= |old(constraints.names)|
      ensures implicitsUpdated == (old(implicitsUpdated) && |constraints.names| == |old(constraints.names)|)
    {
      LinksInRange(g, n);
      ConnectedRow(n);
      var l := connectedSegments[n];
      ghost var s0 := constraints;
      for q := 0 to 4
        invariant Valid() && constraints == PinSlots(s0, g.NSegments(), l, q)
        invariant |constraints.names| >= |s0.names|
        invariant implicitsUpdated == (old(implicitsUpdated) && |constraints.names| == |s0.names|)
      {
        var seg := l.Slots()[q];
        if SegmentName(seg as nat) !in constraints.entries && ImplicitSegmentName(seg as nat) !in constraints.entries {
          ghost var before := constraints;
          var out := AddSegmentConstraints([seg], true);
          assert AsIds([seg]) == [seg as nat];
          assert PinEach(before, g.NSegments(), [seg as nat], true) ==
                 AddResult(before, g.NSegments(), ImplicitSegmentName(seg as nat), Pin(g.NSegments(), seg as nat, true));
        }
      }
    }

    /** One pass of `update_implicit_constraints` over the implicated nodes. */
    method PinNodes(nodes: seq<nat>)
      requires Valid() && NodesIn(g, nodes)
      modifies this
      ensures Valid() && constraints == ImplicitPass(old(constraints), g, nodes)
      ensures |constraints.names| >= |old(constraints.names)|
      ensures implicitsUpdated == (old(implicitsUpdated) && |constraints.names| == |old(constraints.names)|)
    {
      ghost var s0 := constraints;
      for t := 0 to |nodes|
        invariant Valid() && NodesIn(g, nodes[..t]) && constraints == ImplicitPass(s0, g, nodes[..t])
        invariant |constraints.names| >= |s0.names|
        invariant implicitsUpdated == (old(implicitsUpdated) && |constraints.names| == |s0.names|)
      {
        assert nodes[..t + 1][..t] == nodes[..t];
        PinNode(nodes[t]);
      }
      assert nodes[..|nodes|] == nodes;
    }

    /**
     * `update_implicit_constraints`: passes until no node has a lone free
     * segment. A bad segment key raises; a pass that pins nothing would
     * repeat forever and is reported as Diverges.
     */
    method UpdateImplicitConstraints() returns (out: Outcome<Error>)
      requires Valid()
      modifies this
      ensures Valid()
      ensures (constraints, out) == ImplicitClosure(old(constraints), g)
      ensures out.Pass? ==> implicitsUpdated
      ensures out.Fail? ==> implicitsUpdated == (old(implicitsUpdated) && |constraints.names| == |old(constraints.names)|)
    {
      ghost var s0 := constraints;
      while true
        invariant Valid() && ImplicitClosure(constraints, g) == ImplicitClosure(s0, g)
        invariant |constraints.names| >= |s0.names|
        invariant implicitsUpdated == (old(implicitsUpdated) && |constraints.names| == |s0.names|)
        decreases UnpinnedSet(constraints, g.NSegments())
      {
        var free := FreeIds(constraints, g.NSegments());
        if free.Err? {
          return Fail(free.error);
        }
        var nodeSum := Tally(free.value);
        var nodes := LoneNodes(g, nodeSum, free.value);
        if nodes == [] {
          implicitsUpdated := true;
          return Pass;
        }
        ghost var before := constraints;
        var size := |constraints.names|;
        ImplicitPassAdds(before, g, nodes);
        PinNodes(nodes);
        if |constraints.names| == size {
          return Fail(Diverges);
        }
        GrowthShrinks(before, constraints, g.NSegments());
      }
    }

    /**
     * `constrained_segments`: the ids of the pinned segments of the chosen
     * kind, after bringing the implicit pins up to date when asked to.
     */
    method ConstrainedSegments(which: Include, update: bool) returns (r: Result<seq<nat>, Error>)
      requires Valid()
      modifies this
      ensures Valid()
      ensures !(update && !old(implicitsUpdated)) ==>
                constraints == old(constraints) && implicitsUpdated == old(implicitsUpdated) && r == ConstrainedIds(constraints, which)
      ensures update && !old(implicitsUpdated) ==>
                constraints == ImplicitClosure(old(constraints), g).0
                && r == match ImplicitClosure(old(constraints), g).1
                        case Fail(e) => Err(e)
                        case Pass => ConstrainedIds(constraints, which)
    {
      if update && !implicitsUpdated {
        var o := UpdateImplicitConstraints();
        if o.Fail? {
          return Err(o.error);
        }
      }
      r := ConstrainedIds(constraints, which);
    }

    /** `free_segments`: the ids of the segments with no pin, ascending. */
    method FreeSegments(update: bool) returns (r: Result<seq<nat>, Error>)
      requires Valid()
      modifies this
      ensures Valid()
      ensures !(update && !old(implicitsUpdated)) ==>
                constraints == old(constraints) && implicitsUpdated == old(implicitsUpdated) && r == FreeIds(constraints, g.NSegments())
      ensures update && !old(implicitsUpdated) ==>
                constraints == ImplicitClosure(old(constraints), g).0
                && r == match ImplicitClosure(old(constraints), g).1
                        case Fail(e) => Err(e)
                        case Pass => FreeIds(constraints, g.NSegments())
    {
      if update && !implicitsUpdated {
        var o := UpdateImplicitConstraints();
        if o.Fail? {
          return Err(o.error);
        }
      }
      r := FreeIds(constraints, g.NSegments());
    }

    /**
     * The inner slot loop of the loop search: the free segments among a
     * node's links are taken out of `free`, counted, and the last one taken
     * is the next segment of the walk.
     */
    static method TakeFree(l: Links, free: set<nat>) returns (rest: set<nat>, count: nat, next: nat)
      requires 0 <= l.torIn && 0 <= l.polIn && 0 <= l.torOut && 0 <= l.polOut
      ensures rest == free - FreeLinks(free, l)
      ensures count == |FreeLinks(free, l)|
      ensures count >= 1 ==> next in FreeLinks(free, l)
      ensures rest <= free && (count == 0 ==> rest == free) && (count >= 1 ==> next in free && next !in rest)
    {
      var slots := l.Slots();
      ghost var taken: set<nat> := {};
      rest, count, next := free, 0, 0;
      for q := 0 to 4
        invariant taken <= free && rest == free - taken && count == |taken|
        invariant forall s :: s in taken <==> s in free && s in slots[..q]
        invariant count >= 1 ==> next in taken
      {
        var seg: nat := slots[q];
        assert slots[..q + 1] == slots[..q] + [seg];
        if seg in rest {
          next := seg;
          rest := rest - {seg};
          taken := taken + {seg};
          count := count + 1;
        }
      }
      assert slots[..4] == slots;
      assert taken == FreeLinks(free, l);
    }

    /**
     * One step of the walk along segment e: the free segments at the first
     * end are taken; only when there are none, those at the second end.
     */
    method TakeAtEnds(e: (nat, nat), free: set<nat>) returns (rest: set<nat>, count: nat, next: nat)
      requires TablesValid() && e.0 < g.NNodes() && e.1 < g.NNodes()
      ensures var taken := TouchingFree(g, free, TakenEnd(g, e, free));
        && rest == free - taken
        && count == |taken|
        && (count >= 1 ==> next in taken)
    {
      ConnectedRow(e.0);
      LinksInRange(g, e.0);
      rest, count, next := TakeFree(connectedSegments[e.0], free);
      if count == 0 {
        ConnectedRow(e.1);
        LinksInRange(g, e.1);
        rest, count, next := TakeFree(connectedSegments[e.1], free);
      }
    }

    /**
     * One loop of the search, from seg0: while exactly one free segment
     * meets the current segment's first end (or, failing that, its second
     * end) the walk moves on to it; the first node met that has a
     * continuity constraint is marked. Two more free segments at the end
     * the walk stands on break the closed-loop assumption: with the current
     * segment, three of the loop's segments meet at one node.
     */
    method WalkLoop(seg0: nat, free: set<nat>) returns (rest: set<nat>, mark: Option<nat>, out: Outcome<Error>)
      requires TablesValid() && seg0 < g.NSegments() && seg0 !in free && forall s | s in free :: s < g.NSegments()
      ensures rest <= free
      ensures mark.Some? ==> mark.value < g.NNodes() && ContinuityName(mark.value) in constraints.entries
      ensures out.Fail? ==> out.error == LoopBranches && Branch(g, free + {seg0})
    {
      var segI: nat := seg0;
      var nodes := SegmentEnds(g, segI);
      rest, mark := free, None;
      while true
        invariant rest <= free && segI < g.NSegments() && nodes == SegmentEnds(g, segI)
        invariant segI in free + {seg0} && segI !in rest
        invariant mark.Some? ==> mark.value < g.NNodes() && ContinuityName(mark.value) in constraints.entries
        decreases |rest|
      {
        if mark.None? && ContinuityName(nodes.0) in constraints.entries {
          mark := Some(nodes.0);
        }
        var before := rest;
        var count, next;
        rest, count, next := TakeAtEnds(nodes, before);
        if count == 0 {
          return rest, mark, Pass;
        }
        if count > 1 {
          WalkBranch(g, free + {seg0}, before, segI);
          return rest, mark, Fail(LoopBranches);
        }
        SubsetSize(rest, before);
        assert next in before - rest;
        segI := next;
        nodes := SegmentEnds(g, segI);
      }
    }

    /** `free_segs` of `find_inactive_nodes`: the segments no pin names. */
    method UnpinnedSegments() returns (free: set<nat>)
      ensures free == UnpinnedSet(constraints, g.NSegments())
    {
      free := {};
      for k := 0 to g.NSegments()
        invariant free == set s: nat | s < k && Unpinned(constraints, s)
      {
        if SegmentName(k) !in constraints.entries && ImplicitSegmentName(k) !in constraints.entries {
          free := free + {k};
        }
      }
    }

    /**
     * The loop search of `find_inactive_nodes`: the unpinned segments are
     * split into loops, taken in any order, and one continuity constraint
     * per loop is marked redundant.
     */
    method LoopRepresentatives() returns (redundant: set<nat>, out: Outcome<Error>)
      requires TablesValid()
      ensures forall n | n in redundant :: n < g.NNodes() && ContinuityName(n) in constraints.entries
      ensures |redundant| <= |UnpinnedSet(constraints, g.NSegments())|
      ensures out.Fail? ==> out.error == LoopBranches && Branch(g, UnpinnedSet(constraints, g.NSegments()))
      ensures !Branch(g, UnpinnedSet(constraints, g.NSegments())) ==> out == Pass
    {
      var free := UnpinnedSegments();
      ghost var all := free;
      redundant, out := {}, Pass;
      while free != {}
        invariant all == UnpinnedSet(constraints, g.NSegments()) && out == Pass
        invariant free <= all && |redundant| + |free| <= |all|
        invariant forall n | n in redundant :: n < g.NNodes() && ContinuityName(n) in constraints.entries
        decreases |free|
      {
        var seg0 :| seg0 in free;
        free := free - {seg0};
        var mark;
        ghost var popped := free;
        free, mark, out := WalkLoop(seg0, free);
        SubsetSize(free, popped);
        if out.Fail? {
          BranchGrows(g, popped + {seg0}, all);
          return;
        }
        if mark.Some? {
          redundant := redundant + {mark.value};
        }
      }
    }

    /** The last step of `find_inactive_nodes`: the nodes with no free segment or a redundant constraint. */
    static method SelectInactive(g: Dims, nodeSum: array<nat>, ghost fs: seq<nat>, redundant: set<nat>) returns (nodes: seq<nat>)
      requires g.Valid() && nodeSum.Length == g.NNodes()
      requires forall n | 0 <= n < g.NNodes() :: nodeSum[n] == FreeCount(fs, ConnectedOfNode(g, n))
      ensures nodes == InactiveNodes(g, fs, redundant)
    {
      ghost var mask := InactiveMask(g, fs, redundant);
      nodes := [];
      for n := 0 to g.NNodes()
        invariant nodes == Where(mask[..n])
      {
        assert mask[..n + 1][..n] == mask[..n];
        if nodeSum[n] == 0 || n in redundant {
          nodes := nodes + [n];
        }
      }
      assert mask[..g.NNodes()] == mask;
    }

    /**
     * `find_inactive_nodes` once the free segments fs are known: the nodes
     * no free segment reaches, plus, when no crossings are assumed, one node
     * per loop of free segments whose continuity constraint is redundant. A
     * node with a lone free segment trips the source's assert.
     */
    method InactiveOf(fs: seq<nat>, assumeNoCrossings: bool) returns (r: Result<seq<nat>, Error>, redundant: set<nat>)
      requires Valid()
      ensures r.Ok? ==> Implicated(g, fs) == [] && r.value == InactiveNodes(g, fs, redundant)
      ensures r.Err? ==> (r.error == LoneFreeSegment && Implicated(g, fs) != [])
                         || (r.error == LoopBranches && assumeNoCrossings && Branch(g, UnpinnedSet(constraints, g.NSegments())))
      ensures !assumeNoCrossings ==> redundant == {}
      ensures forall n | n in redundant :: n < g.NNodes() && ContinuityName(n) in constraints.entries
      ensures |redundant| <= |UnpinnedSet(constraints, g.NSegments())|
    {
      redundant := {};
      var nodeSum := Tally(fs);
      var lone := LoneNodes(g, nodeSum, fs);
      if lone != [] {
        return Err(LoneFreeSegment), redundant;
      }
      if assumeNoCrossings {
        var out;
        redundant, out := LoopRepresentatives();
        if out.Fail? {
          return Err(out.error), redundant;
        }
      }
      var nodes := SelectInactive(g, nodeSum, fs, redundant);
      r := Ok(nodes);
    }

    /**
     * `find_inactive_nodes`: the free segments are read after bringing the
     * implicit pins up to date, so the source's assert can only trip when
     * the flag claimed an update that the constraints no longer reflect.
     */
    method FindInactiveNodes(assumeNoCrossings: bool) returns (r: Result<seq<nat>, Error>, redundant: set<nat>)
      requires Valid()
      modifies this
      ensures Valid()
      ensures constraints == if old(implicitsUpdated) then old(constraints) else ImplicitClosure(old(constraints), g).0
      ensures r.Ok? ==> FreeIds(constraints, g.NSegments()).Ok?
                        && Implicated(g, FreeIds(constraints, g.NSegments()).value) == []
                        && r.value == InactiveNodes(g, FreeIds(constraints, g.NSegments()).value, redundant)
      ensures !assumeNoCrossings ==> redundant == {}
      ensures forall n | n in redundant :: n < g.NNodes() && ContinuityName(n) in constraints.entries
      ensures |redundant| <= |UnpinnedSet(constraints, g.NSegments())|
      ensures r == Err(LoneFreeSegment) ==> old(implicitsUpdated)
      ensures r == Err(LoopBranches) ==> assumeNoCrossings && Branch(g, UnpinnedSet(constraints, g.NSegments()))
      ensures r != Err(NoRows)
      ensures old(implicitsUpdated) ==> implicitsUpdated
    {
      redundant := {};
      ClosureReadable(constraints, g);
      ClosureErrors(constraints, g);
      FreeIdsErrors(constraints, g.NSegments());
      var fr := FreeSegments(true);
      if fr.Err? {
        return Err(fr.error), redundant;
      }
      r, redundant := InactiveOf(fr.value, assumeNoCrossings);
    }

    /** The store once the implicit pins are brought up to date, when they were not already. */
    ghost function Refreshed(s: Store, updated: bool): Store
      requires s.Valid() && g.Valid()
    {
      if updated then s else ImplicitClosure(s, g).0
    }

    /** Bringing the implicit pins up to date fails. */
    ghost predicate UpdateFails(s: Store, updated: bool)
      requires s.Valid() && g.Valid()
    {
      !updated && ImplicitClosure(s, g).1.Fail?
    }

    /** The constraints `constraint_matrices` keeps, in insertion order. */
    ghost function Kept(inactive: seq<nat>, removeRedundancies: bool, removeConstrained: bool): seq<Constraint>
      reads this
      requires constraints.Valid()
    {
      InOrder(constraints, Excluded(constraints, inactive, removeRedundancies, removeConstrained))
    }

    /** Brings the implicit pins up to date unless the flag says they already are. */
    method Refresh() returns (out: Outcome<Error>)
      requires Valid()
      modifies this
      ensures Valid()
      ensures constraints == Refreshed(old(constraints), old(implicitsUpdated))
      ensures out.Fail? <==> UpdateFails(old(constraints), old(implicitsUpdated))
      ensures out.Fail? ==> out.error == ImplicitClosure(old(constraints), g).1.error
      ensures out.Pass? ==> implicitsUpdated
    {
      out := Pass;
      if !implicitsUpdated {
        out := UpdateImplicitConstraints();
      }
    }

    /**
     * `constraint_matrices`: B and d from the constraints not excluded, in
     * insertion order; continuity rows of inactive nodes are dropped when
     * redundancies are removed, and pins (rows and columns) when
     * constrained segments are removed.
     */
    method ConstraintMatrices(removeRedundancies: bool, removeConstrained: bool, assumeNoCrossings: bool)
      returns (r: Result<(seq<seq<real>>, seq<real>), Error>, inactive: seq<nat>)
      requires Valid()
      modifies this
      ensures Valid()
      ensures constraints == Refreshed(old(constraints), old(implicitsUpdated))
      ensures UpdateFails(old(constraints), old(implicitsUpdated)) ==> r == Err(ImplicitClosure(old(constraints), g).1.error)
      ensures !UpdateFails(old(constraints), old(implicitsUpdated)) ==> MatricesMeet(r, inactive, removeRedundancies, removeConstrained, assumeNoCrossings)
    {
      inactive := [];
      var o := Refresh();
      if o.Fail? {
        return Err(o.error), inactive;
      }
      r, inactive := MatricesOfStore(removeRedundancies, removeConstrained, assumeNoCrossings);
    }

    /** What `constraint_matrices` promises of its result, for the constraints as they now are. */
    ghost predicate MatricesMeet(r: Result<(seq<seq<real>>, seq<real>), Error>, inactive: seq<nat>,
                                 removeRedundancies: bool, removeConstrained: bool, assumeNoCrossings: bool)
      reads this
      requires constraints.Valid() && g.Valid()
    {
      && (!removeRedundancies ==> inactive == [])
      && (r.Ok? && removeRedundancies ==>
            FreeIds(constraints, g.NSegments()).Ok?
            && (forall n | 0 <= n < g.NNodes() && FreeCount(FreeIds(constraints, g.NSegments()).value, ConnectedOfNode(g, n)) == 0 :: n in inactive)
            && (!assumeNoCrossings ==> inactive == InactiveNodes(g, FreeIds(constraints, g.NSegments()).value, {})))
      && (r.Ok? ==> Kept(inactive, removeRedundancies, removeConstrained) != []
                    && |r.value.0| == |r.value.1| <= |constraints.names|
                    && r.value.1 == Constants(Kept(inactive, removeRedundancies, removeConstrained)))
      && (r.Ok? && !removeConstrained ==> r.value.0 == Matrix(Kept(inactive, removeRedundancies, removeConstrained)))
      && (r.Ok? && removeConstrained ==>
            FreeIds(constraints, g.NSegments()).Ok?
            && Wide(Matrix(Kept(inactive, removeRedundancies, removeConstrained)), g.NSegments())
            && (forall k | 0 <= k < |FreeIds(constraints, g.NSegments()).value| :: FreeIds(constraints, g.NSegments()).value[k] < g.NSegments())
            && r.value.0 == SelectColumns(Matrix(Kept(inactive, removeRedundancies, removeConstrained)), g.NSegments(), FreeIds(constraints, g.NSegments()).value))
      && (r == Err(NoRows) ==> Kept(inactive, removeRedundancies, removeConstrained) == [])
      && (!removeRedundancies && !removeConstrained ==>
            r == if InOrder(constraints, {}) == [] then Err(NoRows) else Ok((Matrix(InOrder(constraints, {})), Constants(InOrder(constraints, {})))))
    }

    /** The body of `constraint_matrices` after the implicit pins are brought up to date. */
    method MatricesOfStore(removeRedundancies: bool, removeConstrained: bool, assumeNoCrossings: bool)
      returns (r: Result<(seq<seq<real>>, seq<real>), Error>, inactive: seq<nat>)
      requires Valid() && implicitsUpdated
      modifies this
      ensures Valid() && constraints == old(constraints)
      ensures MatricesMeet(r, inactive, removeRedundancies, removeConstrained, assumeNoCrossings)
    {
      inactive := [];
      if removeRedundancies {
        var found, redundant := FindInactiveNodes(assumeNoCrossings);
        if found.Err? {
          return Err(found.error), inactive;
        }
        inactive := found.value;
        InactiveNodesSpec(g, FreeIds(constraints, g.NSegments()).value, redundant);
      }
      r := SelectRows(inactive, removeRedundancies, removeConstrained);
    }

    /** Picks the kept rows and, when constrained segments are removed, the free columns. */
    method SelectRows(inactive: seq<nat>, removeRedundancies: bool, removeConstrained: bool)
      returns (r: Result<(seq<seq<real>>, seq<real>), Error>)
      requires Valid() && implicitsUpdated
      requires !removeRedundancies ==> inactive == []
      modifies this
      ensures Valid() && constraints == old(constraints)
      ensures r.Ok? ==> Kept(inactive, removeRedundancies, removeConstrained) != []
                        && |r.value.0| == |r.value.1| <= |constraints.names|
                        && r.value.1 == Constants(Kept(inactive, removeRedundancies, removeConstrained))
      ensures r.Ok? && !removeConstrained ==> r.value.0 == Matrix(Kept(inactive, removeRedundancies, removeConstrained))
      ensures r.Ok? && removeConstrained ==>
                FreeIds(constraints, g.NSegments()).Ok?
                && Wide(Matrix(Kept(inactive, removeRedundancies, removeConstrained)), g.NSegments())
                && (forall k | 0 <= k < |FreeIds(constraints, g.NSegments()).value| :: FreeIds(constraints, g.NSegments()).value[k] < g.NSegments())
                && r.value.0 == SelectColumns(Matrix(Kept(inactive, removeRedundancies, removeConstrained)), g.NSegments(), FreeIds(constraints, g.NSegments()).value)
      ensures r == Err(NoRows) ==> Kept(inactive, removeRedundancies, removeConstrained) == []
      ensures !removeRedundancies && !removeConstrained ==>
                r == if InOrder(constraints, {}) == [] then Err(NoRows) else Ok((Matrix(InOrder(constraints, {})), Constants(InOrder(constraints, {}))))
    {
      var rows := InOrder(constraints, Excluded(constraints, inactive, removeRedundancies, removeConstrained));
      assert !removeRedundancies && !removeConstrained ==> Excluded(constraints, inactive, removeRedundancies, removeConstrained) == {};
      if rows == [] {
        return Err(NoRows);
      }
      ExclusionNeverAdds(constraints.names, constraints.entries, Excluded(constraints, inactive, removeRedundancies, removeConstrained));
      RowsOfCount(constraints.names, constraints.entries);
      if removeConstrained {
        FreeIdsErrors(constraints, g.NSegments());
        var free := FreeSegments(true);
        if free.Err? {
          return Err(free.error);
        }
        RowsOfSized(constraints.names, constraints.entries, Excluded(constraints, inactive, removeRedundancies, removeConstrained), g.NSegments());
        FreeIdsBelow(constraints, g.NSegments());
        r := Ok((SelectColumns(Matrix(rows), g.NSegments(), free.value), Constants(rows)));
      } else {
        assert !removeRedundancies ==> Excluded(constraints, inactive, removeRedundancies, removeConstrained) == {};
        r := Ok((Matrix(rows), Constants(rows)));
      }
    }

    /** The residual test of `check_constraints` once x and the tolerance are settled. */
    method Residuals(x: seq<real>, t: real) returns (r: Result<bool, Error>)
      requires Valid()
      modifies this
      ensures Valid()
      ensures constraints == Refreshed(old(constraints), old(implicitsUpdated))
      ensures UpdateFails(old(constraints), old(implicitsUpdated)) ==> r == Err(ImplicitClosure(old(constraints), g).1.error)
      ensures !UpdateFails(old(constraints), old(implicitsUpdated)) ==> r == CheckResult(constraints, x, t)
    {
      var m, _ := ConstraintMatrices(false, false, false);
      if m.Err? {
        return Err(m.error);
      }
      assert m.value == (Matrix(InOrder(constraints, {})), Constants(InOrder(constraints, {})));
      WithinMeans(InOrder(constraints, {}), x, t);
      r := Ok(Within(m.value.0, m.value.1, x, t));
    }

    /**
     * `check_constraints` as written: the tolerance test
     * `not isscalar(tol) and not tol > 0` never fires for a number, so a
     * tolerance that is not positive, given or stored, is accepted and
     * then fails every residual.
     */
    method CheckConstraintsAsWritten(given: Option<seq<real>>, tolGiven: Option<real>) returns (r: Result<bool, Error>)
      requires Valid()
      modifies this
      ensures Valid()
      ensures given.Some? && |given.value| != g.NSegments() ==> r == Err(CurrentsLength) && constraints == old(constraints)
      ensures !(given.Some? && |given.value| != g.NSegments()) ==>
                constraints == Refreshed(old(constraints), old(implicitsUpdated))
                && r == if UpdateFails(old(constraints), old(implicitsUpdated)) then Err(ImplicitClosure(old(constraints), g).1.error)
                        else CheckResult(constraints, if given.Some? then given.value else currents[..], if tolGiven.Some? then tolGiven.value else tol)
      ensures (if tolGiven.Some? then tolGiven.value else tol) <= 0.0 ==> r != Ok(true)
    {
      if given.Some? && |given.value| != g.NSegments() {
        return Err(CurrentsLength);
      }
      var x := if given.Some? then given.value else currents[..];
      var t := if tolGiven.Some? then tolGiven.value else tol;
      r := Residuals(x, t);
      if r.Ok? && t <= 0.0 {
        NonPositiveTolRejects(InOrder(constraints, {}), x, t);
      }
    }

    /**
     * `check_constraints` with the tolerance test it means to make: a
     * tolerance that is not positive is refused, whether given or stored by
     * the as-written constructor. The answer is true exactly when every
     * stored constraint holds for x within the tolerance.
     */
    method CheckConstraints(given: Option<seq<real>>, tolGiven: Option<real>) returns (r: Result<bool, Error>)
      requires Valid()
      modifies this
      ensures Valid()
      ensures given.Some? && |given.value| != g.NSegments() ==> r == Err(CurrentsLength) && constraints == old(constraints)
      ensures !(given.Some? && |given.value| != g.NSegments()) && (if tolGiven.Some? then tolGiven.value else tol) <= 0.0 ==>
                r == Err(BadTolerance) && constraints == old(constraints)
      ensures !(given.Some? && |given.value| != g.NSegments()) && (if tolGiven.Some? then tolGiven.value else tol) > 0.0 ==>
                constraints == Refreshed(old(constraints), old(implicitsUpdated))
                && r == if UpdateFails(old(constraints), old(implicitsUpdated)) then Err(ImplicitClosure(old(constraints), g).1.error)
                        else CheckResult(constraints, if given.Some? then given.value else currents[..], if tolGiven.Some? then tolGiven.value else tol)
      ensures r.Ok? ==> (r.value <==> forall n | n in constraints.entries ::
                          Meets(constraints.entries[n], if given.Some? then given.value else currents[..], if tolGiven.Some? then tolGiven.value else tol))
    {
      if given.Some? && |given.value| != g.NSegments() {
        return Err(CurrentsLength);
      }
      var x := if given.Some? then given.value else currents[..];
      var t := if tolGiven.Some? then tolGiven.value else tol;
      if t <= 0.0 {
        return Err(BadTolerance);
      }
      r := Residuals(x, t);
      if r.Ok? {
        CheckMeaning(constraints, x, t);
      }
    }

    /** `tf_currents`: the coil current on the poloidal segments of each TF slice, zero elsewhere. */
    static method TfCoilCurrents(g: Dims, nTf: nat, c: real) returns (tf: array<real>)
      requires g.Valid()
      ensures fresh(tf) && tf[..] == TfCurrents(g, nTf, c)
    {
      tf := new real[g.NSegments()](_ => 0.0);
      for k := 0 to nTf
        invariant tf.Length == g.NSegments()
        invariant forall s | 0 <= s < tf.Length :: tf[s] == if OnTfCoilUpTo(g, nTf, k, s) then c else 0.0
      {
        var t := TfIndex(g.nPhi, nTf, k);
        TfIndexBound(g.nPhi, nTf, k);
        TfSliceBounds(g, t);
        forall s: nat ensures OnTfCoilUpTo(g, nTf, k + 1, s) <==> OnTfCoilUpTo(g, nTf, k, s) || InTfSlice(g, t, s) {
          OnTfCoilStep(g, nTf, k, s);
        }
        var ind0, ind1 := TfSliceStart(g, t), TfSliceEnd(g, t);
        for s := ind0 to ind1
          invariant forall u | 0 <= u < tf.Length ::
                      tf[u] == if OnTfCoilUpTo(g, nTf, k, u) || ind0 <= u < s then c else 0.0
        {
          tf[s] := c;
        }
      }
      assert forall s | 0 <= s < tf.Length :: tf[s] == TfCurrents(g, nTf, c)[s];
    }

    /**
     * `add_tfcoil_currents`: n_tf planar coils spread over the half period.
     * The counts linspace and the division refuse raise first; the new
     * currents are kept only when they pass `check_constraints`, whose
     * tolerance test is the one as written: a tolerance that is not
     * positive refreshes the implicit pins and then refuses the currents.
     */
    method AddTfcoilCurrents(nTf: int, c: real, tolGiven: Option<real>) returns (out: Outcome<Error>)
      requires Valid()
      modifies this, currents
      ensures Valid()
      ensures nTf > g.nPhi ==> out == Fail(TooManyTfCoils)
      ensures nTf < 0 ==> out == Fail(NegativeCoilCount)
      ensures nTf == 0 ==> out == Fail(ZeroCoilCount)
      ensures !(0 < nTf <= g.nPhi) ==> constraints == old(constraints) && implicitsUpdated == old(implicitsUpdated)
      ensures out.Fail? ==> currents[..] == old(currents[..])
      ensures out.Pass? ==> 0 < nTf <= g.nPhi && currents[..] == Plus(TfCurrents(g, nTf, c), old(currents[..]))
      ensures out.Pass? ==> forall n | n in constraints.entries ::
                              Meets(constraints.entries[n], currents[..], if tolGiven.Some? then tolGiven.value else tol)
      ensures (if tolGiven.Some? then tolGiven.value else tol) <= 0.0 ==> out != Pass
      ensures 0 < nTf <= g.nPhi ==>
                constraints == Refreshed(old(constraints), old(implicitsUpdated))
                && (out.Pass? <==> CheckResult(constraints, Plus(TfCurrents(g, nTf, c), old(currents[..])),
                                                if tolGiven.Some? then tolGiven.value else tol) == Ok(true)
                                   && !UpdateFails(old(constraints), old(implicitsUpdated)))
    {
      if nTf > g.nPhi {
        return Fail(TooManyTfCoils);
      }
      if nTf < 0 {
        return Fail(NegativeCoilCount);
      }
      if nTf == 0 {
        return Fail(ZeroCoilCount);
      }
      var tf := TfCoilCurrents(g, nTf, c);
      var proposed := Plus(tf[..], currents[..]);
      var valid := CheckConstraintsAsWritten(Some(proposed), tolGiven);
      if valid.Err? {
        return Fail(valid.error);
      }
      if !valid.value {
        return Fail(ConstraintsNotMet);
      }
      CheckMeaning(constraints, proposed, if tolGiven.Some? then tolGiven.value else tol);
      forall i | 0 <= i < currents.Length {
        currents[i] := proposed[i];
      }
      assert currents[..] == proposed;
      out := Pass;
    }

    /** One constrained id's share of `constr_cells`: each border slot of a cell holding it counts once. */
    method CellTally(count: array<nat>, ids: seq<nat>, t: nat)
      requires TablesValid() && count.Length == g.NCells() && t < |ids|
      requires forall c | 0 <= c < g.NCells() :: count[c] == BorderHits(ids[..t], CellKeyOf(g, c))
      modifies count
      ensures forall c | 0 <= c < g.NCells() :: count[c] == BorderHits(ids[..t + 1], CellKeyOf(g, c))
    {
      for c := 0 to g.NCells()
        invariant forall m | 0 <= m < c :: count[m] == BorderHits(ids[..t + 1], CellKeyOf(g, m))
        invariant forall m | c <= m < g.NCells() :: count[m] == BorderHits(ids[..t], CellKeyOf(g, m))
      {
        CellRow(c);
        BorderHitsSnoc(ids, t, CellKeyOf(g, c));
        count[c] := count[c] + Hits(cellKey[c], ids[t]);
      }
    }

    /** `constr_cells`: for every cell, the border slots holding a constrained id. */
    method CellCounts(ids: seq<nat>) returns (count: array<nat>)
      requires TablesValid()
      ensures fresh(count) && count.Length == g.NCells()
      ensures forall c | 0 <= c < g.NCells() :: count[c] == BorderHits(ids, CellKeyOf(g, c))
    {
      count := new nat[g.NCells()](_ => 0);
      for t := 0 to |ids|
        invariant forall c | 0 <= c < g.NCells() :: count[c] == BorderHits(ids[..t], CellKeyOf(g, c))
      {
        CellTally(count, ids, t);
      }
      assert ids[..|ids|] == ids;
    }

    /** `constr_cells == 0`: the cells whose count is zero. */
    static method ZeroMask(g: Dims, count: array<nat>, ghost ids: seq<nat>) returns (mask: seq<bool>)
      requires g.Valid() && count.Length == g.NCells()
      requires forall c | 0 <= c < g.NCells() :: count[c] == BorderHits(ids, CellKeyOf(g, c))
      ensures mask == FreeCellMask(g, ids)
    {
      mask := [];
      for c := 0 to g.NCells()
        invariant |mask| == c && forall m | 0 <= m < c :: mask[m] == (count[m] == 0)
      {
        mask := mask + [count[c] == 0];
      }
    }

    /** `np.where(mask)`: the ascending indices where the mask holds. */
    static method WhereTrue(mask: seq<bool>) returns (ns: seq<nat>)
      ensures ns == Where(mask)
    {
      ns := [];
      for c := 0 to |mask|
        invariant ns == Where(mask[..c])
      {
        assert mask[..c + 1][..c] == mask[..c];
        if mask[c] {
          ns := ns + [c];
        }
      }
      assert mask[..|mask|] == mask;
    }

    /**
     * `get_free_cells`: the cells none of whose four border segments is
     * constrained, after bringing the implicit pins up to date.
     */
    method GetFreeCells(form: CellForm) returns (r: Result<FreeCells, Error>)
      requires Valid()
      modifies this
      ensures Valid()
      ensures constraints == Refreshed(old(constraints), old(implicitsUpdated))
      ensures UpdateFails(old(constraints), old(implicitsUpdated)) ==> r == Err(ImplicitClosure(old(constraints), g).1.error)
      ensures !UpdateFails(old(constraints), old(implicitsUpdated)) ==>
                match ConstrainedIds(constraints, All)
                case Err(e) => r == Err(e)
                case Ok(ids) => r == Ok(match form
                                        case Logical => CellMask(FreeCellMask(g, ids))
                                        case Indices => CellIndices(Where(FreeCellMask(g, ids))))
    {
      var ids := ConstrainedSegments(All, true);
      if ids.Err? {
        return Err(ids.error);
      }
      var count := CellCounts(ids.value);
      var mask := ZeroMask(g, count, ids.value);
      if form == Logical {
        r := Ok(CellMask(mask));
      } else {
        var cells := WhereTrue(mask);
        r := Ok(CellIndices(cells));
      }
    }
  }
}
