/**
 * What the wireframe hands out: the constraint matrices B and d
 * (wireframe.py:773-868), the inactive nodes whose continuity rows are
 * redundant (wireframe.py:870-947), the residual test of
 * `check_constraints` (wireframe.py:1011-1069) and the free cells
 * (wireframe.py:983-1009).
 */
module Export {
  import opened Wrappers
  import opened Names
  import opened Grid
  import opened Rows
  import opened Constraints
  import opened Circuit
  import opened Propagation

  /** `np.where(mask)[0]`: the positions where the mask holds, ascending. */
  function Where(mask: seq<bool>): (ns: seq<nat>)
    ensures forall t | 0 <= t < |ns| :: ns[t] < |mask|
    decreases |mask|
  {
    if mask == [] then []
    else Where(mask[..|mask| - 1]) + (if mask[|mask| - 1] then [|mask| - 1] else [])
  }

  predicate Increasing(ns: seq<nat>)
  {
    forall a, b | 0 <= a < b < |ns| :: ns[a] < ns[b]
  }

  /** Where lists exactly the positions that hold, each once, in increasing order. */
  lemma {:induction false} WhereSpec(mask: seq<bool>)
    ensures forall n: nat :: n in Where(mask) <==> n < |mask| && mask[n]
    ensures Increasing(Where(mask))
    decreases |mask|
  {
    if mask != [] {
      var init := mask[..|mask| - 1];
      WhereSpec(init);
      forall n: nat ensures n in Where(mask) <==> n < |mask| && mask[n] {
        if n < |init| {
          assert init[n] == mask[n];
        }
      }
    }
  }

  // ---------------------------------------------------------------------------
  // find_inactive_nodes

  /** `np.logical_or(node_inactive, redundant_for_loop)`: no free segment, or marked by the loop search. */
  function InactiveMask(g: Dims, fs: seq<nat>, redundant: set<nat>): (m: seq<bool>)
    requires g.Valid()
    ensures |m| == g.NNodes()
    ensures forall n | 0 <= n < |m| :: m[n] == (FreeCount(fs, ConnectedOfNode(g, n)) == 0 || n in redundant)
  {
    seq(g.NNodes(), n requires 0 <= n < g.NNodes() => FreeCount(fs, ConnectedOfNode(g, n)) == 0 || n in redundant)
  }

  /** The nodes `find_inactive_nodes` returns, given the loop search's marks. */
  function InactiveNodes(g: Dims, fs: seq<nat>, redundant: set<nat>): seq<nat>
    requires g.Valid()
  {
    Where(InactiveMask(g, fs, redundant))
  }

  /**
   * The inactive nodes are, in increasing order, exactly the nodes where no
   * free segment meets and the nodes the loop search marked.
   */
  lemma InactiveNodesSpec(g: Dims, fs: seq<nat>, redundant: set<nat>)
    requires g.Valid()
    ensures forall n: nat :: n in InactiveNodes(g, fs, redundant) <==>
              n < g.NNodes() && (FreeCount(fs, ConnectedOfNode(g, n)) == 0 || n in redundant)
    ensures Increasing(InactiveNodes(g, fs, redundant))
  {
    WhereSpec(InactiveMask(g, fs, redundant));
  }

  /** The segments of `free` among a node's links. */
  function FreeLinks(free: set<nat>, l: Links): set<nat>
  {
    set s | s in free && Touches(l, s)
  }

  /** The segments of `free` among node n's links. */
  function TouchingFree(g: Dims, free: set<nat>, n: nat): set<nat>
    requires g.Valid() && n < g.NNodes()
  {
    FreeLinks(free, ConnectedOfNode(g, n))
  }

  /** A subset's size and what is left of the superset add up to the superset's size. */
  lemma SubsetSize(a: set<nat>, b: set<nat>)
    requires a <= b
    ensures |a| + |b - a| == |b|
  {
    assert b == a + (b - a);
    assert a * (b - a) == {};
  }

  /**
   * A node where three or more segments of `free` meet. A closed current loop
   * passes a node along exactly two segments, so such a node is a branch point
   * that the loop search of wireframe.py:870-947 refuses.
   */
  ghost predicate Branch(g: Dims, free: set<nat>)
    requires g.Valid()
  {
    exists n | 0 <= n < g.NNodes() :: |TouchingFree(g, free, n)| >= 3
  }

  /** The end of segment e whose free segments the walk takes: the first, unless none meets it there. */
  function TakenEnd(g: Dims, e: (nat, nat), free: set<nat>): nat
    requires g.Valid() && e.0 < g.NNodes() && e.1 < g.NNodes()
  {
    if TouchingFree(g, free, e.0) != {} then e.0 else e.1
  }

  /**
   * The walk stands on segment s, already taken from `free` into `rest`'s
   * complement; if two more untaken segments meet at an end node of s, that
   * node has three segments of `free`.
   */
  lemma BranchAt(g: Dims, free: set<nat>, rest: set<nat>, n: nat, s: nat)
    requires g.Valid() && n < g.NNodes() && rest <= free && s in free && s !in rest
    requires Touches(ConnectedOfNode(g, n), s) && |TouchingFree(g, rest, n)| >= 2
    ensures Branch(g, free)
  {
    var t := TouchingFree(g, rest, n);
    assert t + {s} <= TouchingFree(g, free, n);
    SubsetSize(t + {s}, TouchingFree(g, free, n));
  }

  /**
   * The walk's refusal: standing on segment s, taken from `all` and no longer
   * in `rest`, it finds two or more segments of `rest` at the end it takes
   * from, so that node has three segments of `all`.
   */
  lemma WalkBranch(g: Dims, all: set<nat>, rest: set<nat>, s: nat)
    requires g.Valid() && g.IsSegment(s) && rest <= all && s in all && s !in rest
    requires |TouchingFree(g, rest, TakenEnd(g, SegmentEnds(g, s), rest))| >= 2
    ensures Branch(g, all)
  {
    EndsListSegment(g, s);
    BranchAt(g, all, rest, TakenEnd(g, SegmentEnds(g, s), rest), s);
  }

  /** A branch point among some segments is one among any superset of them. */
  lemma BranchGrows(g: Dims, a: set<nat>, b: set<nat>)
    requires g.Valid() && a <= b && Branch(g, a)
    ensures Branch(g, b)
  {
    var n :| 0 <= n < g.NNodes() && |TouchingFree(g, a, n)| >= 3;
    SubsetSize(TouchingFree(g, a, n), TouchingFree(g, b, n));
  }

  /** A free segment among a node's links makes the node's tally positive. */
  lemma {:induction false} FreeCountPositive(fs: seq<nat>, l: Links, k: nat)
    requires k in fs && Touches(l, k)
    ensures FreeCount(fs, l) > 0
    decreases |fs|
  {
    var init := fs[..|fs| - 1];
    if fs[|fs| - 1] != k {
      assert k in init;
      FreeCountPositive(init, l, k);
    }
  }

  /**
   * The reason `find_inactive_nodes` may drop a continuity row: when no
   * free segment meets node n, every current x that obeys the pins (zero
   * on each pinned segment) satisfies n's Kirchhoff row already.
   */
  lemma InactiveContinuityRedundant(g: Dims, s: Store, n: nat, x: seq<real>)
    requires g.Valid() && Canonical(s, g.NSegments()) && n < g.NNodes() && |x| == g.NSegments()
    requires FreeIds(s, g.NSegments()).Ok? && FreeCount(FreeIds(s, g.NSegments()).value, ConnectedOfNode(g, n)) == 0
    requires forall k | 0 <= k < |x| && !Unpinned(s, k) :: x[k] == 0.0
    ensures SlotsIn(ConnectedOfNode(g, n), |x|)
    ensures Dot(ContinuityRow(|x|, ConnectedOfNode(g, n)), x) == 0.0
  {
    var l := ConnectedOfNode(g, n);
    LinksInRange(g, n);
    var fs := FreeIds(s, g.NSegments()).value;
    PinnedLinkIdle(s, g.NSegments(), fs, l, l.torIn, x);
    PinnedLinkIdle(s, g.NSegments(), fs, l, l.polIn, x);
    PinnedLinkIdle(s, g.NSegments(), fs, l, l.torOut, x);
    PinnedLinkIdle(s, g.NSegments(), fs, l, l.polOut, x);
    ContinuityVanishes(l, x);
  }

  /** A link of a node with no free segment is pinned, so it carries no current. */
  lemma PinnedLinkIdle(s: Store, nSegments: nat, fs: seq<nat>, l: Links, k: nat, x: seq<real>)
    requires Canonical(s, nSegments) && FreeIds(s, nSegments) == Ok(fs) && FreeCount(fs, l) == 0
    requires Touches(l, k) && k < nSegments == |x|
    requires forall k | 0 <= k < |x| && !Unpinned(s, k) :: x[k] == 0.0
    ensures x[k] == 0.0
  {
    CanonicalFree(s, nSegments, k);
    if k in fs {
      FreeCountPositive(fs, l, k);
    }
  }

  // ---------------------------------------------------------------------------
  // constraint_matrices

  /** The continuity names of the given nodes. */
  function ContinuityNames(nodes: seq<nat>): set<string>
  {
    set t | 0 <= t < |nodes| :: ContinuityName(nodes[t])
  }

  /** The keys of the segment and implicit segment pins. */
  function PinKeys(s: Store): set<string>
  {
    set n | n in s.entries && IsPinType(s.entries[n].kind)
  }

  /** The names `constraint_matrices` leaves out. */
  function Excluded(s: Store, inactive: seq<nat>, removeRedundancies: bool, removeConstrained: bool): set<string>
  {
    (if removeRedundancies then ContinuityNames(inactive) else {}) + (if removeConstrained then PinKeys(s) else {})
  }

  /** The rows of B, one per constraint. */
  function Matrix(rows: seq<Constraint>): (b: seq<seq<real>>)
    ensures |b| == |rows| && forall t | 0 <= t < |b| :: b[t] == rows[t].row
  {
    seq(|rows|, t requires 0 <= t < |rows| => rows[t].row)
  }

  /** The column d of constants. */
  function Constants(rows: seq<Constraint>): (d: seq<real>)
    ensures |d| == |rows|
  {
    seq(|rows|, t requires 0 <= t < |rows| => rows[t].constant)
  }

  predicate Wide(b: seq<seq<real>>, n: nat)
  {
    forall t | 0 <= t < |b| :: |b[t]| == n
  }

  /** `B[:, cols]`. */
  function SelectColumns(b: seq<seq<real>>, n: nat, cols: seq<nat>): (c: seq<seq<real>>)
    requires Wide(b, n) && forall k | 0 <= k < |cols| :: cols[k] < n
    ensures |c| == |b| && Wide(c, |cols|)
  {
    seq(|b|, t requires 0 <= t < |b| => seq(|cols|, k requires 0 <= k < |cols| => b[t][cols[k]]))
  }

  /** Every stored row has the store's width. */
  lemma RowsOfSized(names: seq<string>, entries: map<string, Constraint>, excluded: set<string>, n: nat)
    requires forall m | m in names :: m in entries && |entries[m].row| == n
    ensures Wide(Matrix(RowsOf(names, entries, excluded)), n)
  {
    var rows := RowsOf(names, entries, excluded);
    RowsOfMembers(names, entries, excluded);
    forall t | 0 <= t < |rows| ensures |rows[t].row| == n {
      assert rows[t] in rows;
    }
  }

  /** Excluding names never adds rows: the reduced system is no taller than the full one. */
  lemma {:induction false} ExclusionNeverAdds(names: seq<string>, entries: map<string, Constraint>, excluded: set<string>)
    requires forall m | m in names :: m in entries
    ensures |RowsOf(names, entries, excluded)| <= |RowsOf(names, entries, {})|
    decreases |names|
  {
    if names != [] {
      ExclusionNeverAdds(names[..|names| - 1], entries, excluded);
    }
  }

  // ---------------------------------------------------------------------------
  // check_constraints

  /** `np.all(np.abs(B x - d) < tol)` on the matrices themselves. */
  predicate Within(b: seq<seq<real>>, d: seq<real>, x: seq<real>, tol: real)
  {
    |b| == |d| && forall t | 0 <= t < |b| :: |b[t]| == |x| && Abs(Dot(b[t], x) - d[t]) < tol
  }

  /** Testing the matrices is testing the constraints they were built from. */
  lemma WithinMeans(rows: seq<Constraint>, x: seq<real>, tol: real)
    ensures Within(Matrix(rows), Constants(rows), x, tol) <==> Satisfies(rows, x, tol)
  {
    if Within(Matrix(rows), Constants(rows), x, tol) {
      forall t | 0 <= t < |rows| ensures Meets(rows[t], x, tol) {
        assert Matrix(rows)[t] == rows[t].row && Constants(rows)[t] == rows[t].constant;
      }
    }
    if Satisfies(rows, x, tol) {
      forall t | 0 <= t < |rows| ensures |Matrix(rows)[t]| == |x| && Abs(Dot(Matrix(rows)[t], x) - Constants(rows)[t]) < tol {
        assert Meets(rows[t], x, tol);
      }
    }
  }

  /**
   * With a tolerance that is not positive no residual can pass, so a
   * non-empty system is always reported as violated, even by currents that
   * meet every constraint exactly.
   */
  lemma NonPositiveTolRejects(rows: seq<Constraint>, x: seq<real>, tol: real)
    requires rows != [] && tol <= 0.0
    ensures !Satisfies(rows, x, tol)
  {
    assert !Meets(rows[0], x, tol);
  }

  /**
   * The answer of `check_constraints` on a store: concatenating no rows
   * raises, otherwise every residual must be below the tolerance.
   */
  function CheckResult(s: Store, x: seq<real>, tol: real): Result<bool, Error>
    requires s.Valid()
  {
    var rows := InOrder(s, {});
    if rows == [] then Err(NoRows) else Ok(Satisfies(rows, x, tol))
  }

  /**
   * `check_constraints` answers true exactly when every stored constraint,
   * excluded or not, has a residual below the tolerance.
   */
  lemma CheckMeaning(s: Store, x: seq<real>, tol: real)
    requires s.Valid() && s.names != []
    ensures CheckResult(s, x, tol) ==
              Ok(forall n | n in s.entries :: Meets(s.entries[n], x, tol))
  {
    RowsOfCount(s.names, s.entries);
    if forall n | n in s.entries :: Meets(s.entries[n], x, tol) {
      CheckComplete(s, x, tol);
    } else if Satisfies(InOrder(s, {}), x, tol) {
      CheckSound(s, x, tol);
    }
  }

  lemma CheckSound(s: Store, x: seq<real>, tol: real)
    requires s.Valid() && Satisfies(InOrder(s, {}), x, tol)
    ensures forall n | n in s.entries :: Meets(s.entries[n], x, tol)
  {
    var rows := InOrder(s, {});
    RowsOfMembers(s.names, s.entries, {});
    forall n | n in s.entries ensures Meets(s.entries[n], x, tol) {
      assert n in s.names;
      var t :| 0 <= t < |rows| && rows[t] == s.entries[n];
    }
  }

  lemma CheckComplete(s: Store, x: seq<real>, tol: real)
    requires s.Valid()
    requires forall n | n in s.entries :: Meets(s.entries[n], x, tol)
    ensures Satisfies(InOrder(s, {}), x, tol)
  {
    var rows := InOrder(s, {});
    RowsOfMembers(s.names, s.entries, {});
    forall t | 0 <= t < |rows| ensures Meets(rows[t], x, tol) {
      assert rows[t] in rows;
      var n :| n in s.names && rows[t] == s.entries[n];
    }
  }

  /** A freshly built wireframe with zero currents accepts any TF coils under a positive tolerance. */
  lemma FreshAcceptsTf(g: Dims, nTf: nat, c: real, tol: real)
    requires g.Valid() && tol > 0.0
    ensures ContinuityStore(g).Valid()
    ensures CheckResult(ContinuityStore(g), Plus(TfCurrents(g, nTf, c), Zeros(g.NSegments())), tol) == Ok(true)
  {
    ContinuityAcceptsTf(g, nTf, c, tol);
    assert Plus(TfCurrents(g, nTf, c), Zeros(g.NSegments())) == TfCurrents(g, nTf, c);
    ContinuityCount(g);
    ContinuityStoreBuilt(g);
    RowsOfCount(ContinuityStore(g).names, ContinuityStore(g).entries);
  }

  /**
   * The concrete case: on a new wireframe, zero currents pass the check for
   * every positive tolerance, yet with tolerance 0 they are reported as
   * violating the constraints.
   */
  lemma ZeroTolRejectsExactCurrents(g: Dims, tol: real)
    requires g.Valid() && tol > 0.0
    ensures ContinuityStore(g).Valid()
    ensures CheckResult(ContinuityStore(g), Zeros(g.NSegments()), tol) == Ok(true)
    ensures CheckResult(ContinuityStore(g), Zeros(g.NSegments()), 0.0) == Ok(false)
  {
    FreshAcceptsTf(g, 0, 0.0, tol);
    assert Plus(TfCurrents(g, 0, 0.0), Zeros(g.NSegments())) == Zeros(g.NSegments());
    NonPositiveTolRejects(InOrder(ContinuityStore(g), {}), Zeros(g.NSegments()), 0.0);
  }

  // ---------------------------------------------------------------------------
  // get_free_cells

  /** How many of a cell's border slots equal segment s. */
  function Hits(q: Quad, s: nat): nat
  {
    (if q.a == s then 1 else 0) + (if q.b == s then 1 else 0) + (if q.c == s then 1 else 0) + (if q.d == s then 1 else 0)
  }

  /** `constr_cells[c]`: the border slots of the cell that hold a constrained id, summed over the ids. */
  function BorderHits(ids: seq<nat>, q: Quad): nat
    decreases |ids|
  {
    if ids == [] then 0 else BorderHits(ids[..|ids| - 1], q) + Hits(q, ids[|ids| - 1])
  }

  /** One more id adds its hits on the cell's border. */
  lemma BorderHitsSnoc(ids: seq<nat>, t: nat, q: Quad)
    requires t < |ids|
    ensures BorderHits(ids[..t + 1], q) == BorderHits(ids[..t], q) + Hits(q, ids[t])
  {
    assert ids[..t + 1][..t] == ids[..t];
  }

  /** A cell counts no hit exactly when none of its four border segments is constrained. */
  lemma {:induction false} BorderHitsZero(ids: seq<nat>, q: Quad)
    ensures BorderHits(ids, q) == 0 <==> forall k | 0 <= k < |ids| :: q.a != ids[k] && q.b != ids[k] && q.c != ids[k] && q.d != ids[k]
    decreases |ids|
  {
    if ids != [] {
      BorderHitsZero(ids[..|ids| - 1], q);
    }
  }

  /** The `form='logical'` answer: cell c is free when no border segment is constrained. */
  function FreeCellMask(g: Dims, ids: seq<nat>): (m: seq<bool>)
    requires g.Valid()
    ensures |m| == g.NCells() && forall c | 0 <= c < |m| :: m[c] == (BorderHits(ids, CellKeyOf(g, c)) == 0)
  {
    seq(g.NCells(), c requires 0 <= c < g.NCells() => BorderHits(ids, CellKeyOf(g, c)) == 0)
  }

  /** `get_free_cells` marks a cell free exactly when none of its four border segments is constrained. */
  lemma FreeCellMeaning(g: Dims, ids: seq<nat>, c: nat)
    requires g.Valid() && c < g.NCells()
    ensures FreeCellMask(g, ids)[c] <==>
              forall d | 0 <= d < 4 :: CellKeyOf(g, c).At(d) !in ids
  {
    var q := CellKeyOf(g, c);
    BorderHitsZero(ids, q);
    if !FreeCellMask(g, ids)[c] {
      var k :| 0 <= k < |ids| && !(q.a != ids[k] && q.b != ids[k] && q.c != ids[k] && q.d != ids[k]);
      assert ids[k] in ids;
      if q.a == ids[k] { assert q.At(0) in ids; }
      else if q.b == ids[k] { assert q.At(1) in ids; }
      else if q.c == ids[k] { assert q.At(2) in ids; }
      else { assert q.At(3) in ids; }
    } else {
      forall d | 0 <= d < 4 ensures q.At(d) !in ids {
        forall k | 0 <= k < |ids| ensures ids[k] != q.At(d) {
        }
      }
    }
  }
}
