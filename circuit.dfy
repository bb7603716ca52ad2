/**
 * The electrical meaning of the wireframe's tables: which nodes carry a
 * continuity constraint and what it says (wireframe.py:742-770), how many
 * free segments meet at a node (the tallies of wireframe.py:652-656 and
 * 883-886), and where `add_tfcoil_currents` puts its coil currents
 * (wireframe.py:1091-1110).
 */
module Circuit {
  import opened Wrappers
  import opened Names
  import opened Grid
  import opened Rows
  import opened Constraints

  // ---------------------------------------------------------------------------
  // Continuity constraints

  /** Nodes that get a continuity constraint: all but symmetry-plane nodes with j == 0 or j >= nTheta/2. */
  predicate ContinuityActive(g: Dims, i: nat, j: nat)
  {
    !((i == 0 || i == g.nPhi) && (j == 0 || j >= g.Half()))
  }

  function ContinuityConstraint(g: Dims, i: nat, j: nat): Constraint
    requires g.Valid() && g.OnGrid(i, j)
  {
    ConnectedValid(g, i, j);
    Constraint(ContinuityType, ContinuityRow(g.NSegments(), ConnectedAt(g, i, j)), 0.0)
  }

  function ContinuityItem(g: Dims, i: nat, j: nat): (string, Constraint)
    requires g.Valid() && g.OnGrid(i, j)
  {
    (ContinuityName(g.Node(i, j)), ContinuityConstraint(g, i, j))
  }

  /** Loop order of the nested `for i / for j` loops. */
  predicate Before(p: (nat, nat), q: (nat, nat))
  {
    p.0 < q.0 || (p.0 == q.0 && p.1 < q.1)
  }

  /** The nodes before (i,j), in loop order, at which `add_continuity_constraints` adds a constraint. */
  function ActiveNodes(g: Dims, i: nat, j: nat): (ns: seq<(nat, nat)>)
    requires g.Valid() && i <= g.nPhi && j <= g.nTheta
    ensures forall t | 0 <= t < |ns| ::
              g.OnGrid(ns[t].0, ns[t].1) && ContinuityActive(g, ns[t].0, ns[t].1) && Before(ns[t], (i, j))
    decreases i, j
  {
    if j == 0 then
      (if i == 0 then [] else ActiveNodes(g, i - 1, g.nTheta))
    else ActiveNodes(g, i, j - 1) + (if ContinuityActive(g, i, j - 1) then [(i, j - 1)] else [])
  }

  /** The constraints the constructor adds, named after their nodes, in loop order. */
  function AllContinuity(g: Dims): (items: seq<(string, Constraint)>)
    requires g.Valid()
  {
    ItemsOf(g, ActiveNodes(g, g.nPhi, g.nTheta))
  }

  /** The continuity constraints of the given grid nodes, in order. */
  function ItemsOf(g: Dims, ns: seq<(nat, nat)>): (items: seq<(string, Constraint)>)
    requires g.Valid() && forall t | 0 <= t < |ns| :: g.OnGrid(ns[t].0, ns[t].1)
    ensures |items| == |ns|
  {
    seq(|ns|, t requires 0 <= t < |ns| => ContinuityItem(g, ns[t].0, ns[t].1))
  }

  /** One step of the inner loop appends the node's constraint when the node is active. */
  lemma ItemsStep(g: Dims, i: nat, j: nat)
    requires g.Valid() && i <= g.nPhi && j < g.nTheta
    ensures ItemsOf(g, ActiveNodes(g, i, j + 1)) ==
              ItemsOf(g, ActiveNodes(g, i, j)) + (if ContinuityActive(g, i, j) then [ContinuityItem(g, i, j)] else [])
  {
    var prev := ActiveNodes(g, i, j);
    var ns := ActiveNodes(g, i, j + 1);
    assert ns == prev + (if ContinuityActive(g, i, j) then [(i, j)] else []);
  }

  /**
   * The store and outcome once the loop of `add_continuity_constraints` has
   * visited the nodes before (i,j): each active node adds its constraint,
   * and after a raise nothing more happens.
   */
  function ContinuityUpTo(g: Dims, s: Store, i: nat, j: nat): (Store, Outcome<Error>)
    requires g.Valid() && i <= g.nPhi && j <= g.nTheta
    decreases i, j
  {
    if j == 0 then (if i == 0 then (s, Pass) else ContinuityUpTo(g, s, i - 1, g.nTheta))
    else
      var prev := ContinuityUpTo(g, s, i, j - 1);
      if prev.1.Fail? || !ContinuityActive(g, i, j - 1) then prev
      else AddResult(prev.0, g.NSegments(), ContinuityName(g.Node(i, j - 1)), ContinuityConstraint(g, i, j - 1))
  }

  /** The loop computes the fold of `add_constraint` over the active nodes' constraints, in loop order. */
  lemma {:induction false} ContinuityUpToFold(g: Dims, s: Store, i: nat, j: nat)
    requires g.Valid() && i <= g.nPhi && j <= g.nTheta
    ensures ContinuityUpTo(g, s, i, j) == AddEach(s, g.NSegments(), ItemsOf(g, ActiveNodes(g, i, j)))
    decreases i, j
  {
    if j == 0 {
      if i > 0 {
        ContinuityUpToFold(g, s, i - 1, g.nTheta);
        ContinuityUpToWrap(g, s, i);
      } else {
        assert ItemsOf(g, ActiveNodes(g, 0, 0)) == [];
      }
    } else {
      ContinuityUpToFold(g, s, i, j - 1);
      ContinuityUpToStep(g, s, i, j - 1);
    }
  }

  lemma ContinuityUpToWrap(g: Dims, s: Store, i: nat)
    requires g.Valid() && 0 < i <= g.nPhi
    requires ContinuityUpTo(g, s, i - 1, g.nTheta) == AddEach(s, g.NSegments(), ItemsOf(g, ActiveNodes(g, i - 1, g.nTheta)))
    ensures ContinuityUpTo(g, s, i, 0) == AddEach(s, g.NSegments(), ItemsOf(g, ActiveNodes(g, i, 0)))
  {
    assert ActiveNodes(g, i, 0) == ActiveNodes(g, i - 1, g.nTheta);
  }

  lemma ContinuityUpToStep(g: Dims, s: Store, i: nat, j: nat)
    requires g.Valid() && i <= g.nPhi && j < g.nTheta
    requires ContinuityUpTo(g, s, i, j) == AddEach(s, g.NSegments(), ItemsOf(g, ActiveNodes(g, i, j)))
    ensures ContinuityUpTo(g, s, i, j + 1) == AddEach(s, g.NSegments(), ItemsOf(g, ActiveNodes(g, i, j + 1)))
  {
    var items := ItemsOf(g, ActiveNodes(g, i, j));
    ItemsStep(g, i, j);
    if !ContinuityActive(g, i, j) {
      assert items + [] == items;
    } else if AddEach(s, g.NSegments(), items).1.Fail? {
      AddEachFailed(s, g.NSegments(), items, ContinuityItem(g, i, j));
    } else {
      AddEachSnoc(s, g.NSegments(), items, ContinuityItem(g, i, j));
    }
  }

  /** Once the loop has raised, the remaining nodes change nothing. */
  lemma {:induction false} ContinuityUpToFailed(g: Dims, s: Store, i: nat, j: nat, i2: nat, j2: nat)
    requires g.Valid() && i2 <= g.nPhi && j <= g.nTheta && j2 <= g.nTheta
    requires i < i2 || (i == i2 && j <= j2)
    requires ContinuityUpTo(g, s, i, j).1.Fail?
    ensures ContinuityUpTo(g, s, i2, j2) == ContinuityUpTo(g, s, i, j)
    decreases i2, j2
  {
    if i == i2 && j == j2 {
    } else if j2 == 0 {
      ContinuityUpToFailed(g, s, i, j, i2 - 1, g.nTheta);
    } else {
      ContinuityUpToFailed(g, s, i, j, i2, j2 - 1);
    }
  }

  /** Active nodes of row i below column j. */
  function ActiveInRow(g: Dims, i: nat, j: nat): nat
    requires g.Valid()
  {
    if 0 < i < g.nPhi then j else if j <= 1 then 0 else (if j < g.Half() then j else g.Half()) - 1
  }

  lemma {:induction false} RowCount(g: Dims, i: nat, j: nat)
    requires g.Valid() && i <= g.nPhi && j <= g.nTheta
    ensures |ActiveNodes(g, i, j)| == |ActiveNodes(g, i, 0)| + ActiveInRow(g, i, j)
    decreases j
  {
    if j > 0 {
      RowCount(g, i, j - 1);
    }
  }

  lemma {:induction false} RowsCount(g: Dims, i: nat)
    requires g.Valid() && 0 < i <= g.nPhi
    ensures |ActiveNodes(g, i, 0)| == g.Half() - 1 + (i - 1) * g.nTheta
    decreases i
  {
    RowCount(g, i - 1, g.nTheta);
    if i > 1 {
      RowsCount(g, i - 1);
    }
  }

  /**
   * The constructor adds nTheta*nPhi - 2 continuity constraints, the count the
   * source notes beside `nConstraints` (wireframe.py:162).
   */
  lemma ContinuityCount(g: Dims)
    requires g.Valid()
    ensures |AllContinuity(g)| == g.NTorSegments() - 2
  {
    RowsCount(g, g.nPhi);
    RowCount(g, g.nPhi, g.nTheta);
    assert (g.nPhi - 1) * g.nTheta + g.nTheta == g.NTorSegments();
  }

  /** The loop visits nodes in increasing index order, so none twice. */
  lemma {:induction false} ActiveNodesIncreasing(g: Dims, i: nat, j: nat)
    requires g.Valid() && i <= g.nPhi && j <= g.nTheta
    ensures forall a, b | 0 <= a < b < |ActiveNodes(g, i, j)| :: Before(ActiveNodes(g, i, j)[a], ActiveNodes(g, i, j)[b])
    decreases i, j
  {
    if j == 0 {
      if i > 0 {
        ActiveNodesIncreasing(g, i - 1, g.nTheta);
        assert ActiveNodes(g, i, j) == ActiveNodes(g, i - 1, g.nTheta);
      }
    } else {
      ActiveNodesIncreasing(g, i, j - 1);
      var ns, prev := ActiveNodes(g, i, j), ActiveNodes(g, i, j - 1);
      assert ns == prev + (if ContinuityActive(g, i, j - 1) then [(i, j - 1)] else []);
      forall a, b | 0 <= a < b < |ns| ensures Before(ns[a], ns[b]) {
        assert ns[a] == prev[a];
        if b < |prev| {
          assert ns[b] == prev[b];
        } else {
          assert ns[b] == (i, j - 1);
          assert Before(prev[a], (i, j - 1));
        }
      }
    }
  }

  /** The store the constructor builds from an empty one. */
  function ContinuityStore(g: Dims): Store
    requires g.Valid()
  {
    AddEach(Empty, g.NSegments(), AllContinuity(g)).0
  }

  /** Continuity names are pairwise different, as the nodes they are named after are. */
  lemma ContinuityNamesDistinct(g: Dims)
    requires g.Valid()
    ensures Distinct(ItemNames(AllContinuity(g)))
  {
    var items := AllContinuity(g);
    var ns := ActiveNodes(g, g.nPhi, g.nTheta);
    ActiveNodesIncreasing(g, g.nPhi, g.nTheta);
    var names := ItemNames(items);
    forall a, b | 0 <= a < b < |names| ensures names[a] != names[b] {
      assert names[a] == ContinuityName(g.Node(ns[a].0, ns[a].1));
      assert names[b] == ContinuityName(g.Node(ns[b].0, ns[b].1));
      NodeAtNode(g, ns[a].0, ns[a].1);
      NodeAtNode(g, ns[b].0, ns[b].1);
      NamesDistinct(g.Node(ns[a].0, ns[a].1), g.Node(ns[b].0, ns[b].1));
    }
  }

  /**
   * The continuity loop never raises: it stores every item, named after its
   * node, in loop order.
   */
  lemma ContinuityStoreBuilt(g: Dims)
    requires g.Valid()
    ensures AddEach(Empty, g.NSegments(), AllContinuity(g)).1 == Pass
    ensures ContinuityStore(g).Valid()
    ensures ContinuityStore(g).names == ItemNames(AllContinuity(g))
    ensures forall t | 0 <= t < |AllContinuity(g)| ::
              ContinuityStore(g).entries[AllContinuity(g)[t].0] == AllContinuity(g)[t].1
  {
    var items := AllContinuity(g);
    ContinuityNamesDistinct(g);
    var ns := ActiveNodes(g, g.nPhi, g.nTheta);
    forall t | 0 <= t < |items| ensures |items[t].1.row| == g.NSegments() {
      assert items[t] == ContinuityItem(g, ns[t].0, ns[t].1);
    }
    AddEachFresh(Empty, g.NSegments(), items);
  }

  /** The continuity constraints are well typed: the store they make is canonical. */
  lemma ContinuityCanonical(g: Dims)
    requires g.Valid()
    ensures Canonical(ContinuityStore(g), g.NSegments())
  {
    ContinuityStoreBuilt(g);
    var s := ContinuityStore(g);
    var items := AllContinuity(g);
    var ns := ActiveNodes(g, g.nPhi, g.nTheta);
    forall n | n in s.entries
      ensures WellTyped(n, s.entries[n].kind, g.NSegments())
    {
      var t :| 0 <= t < |s.names| && s.names[t] == n;
      assert n == ContinuityName(g.Node(ns[t].0, ns[t].1));
      assert s.entries[n].kind == ContinuityType;
      forall k: nat ensures n != SegmentName(k) && n != ImplicitSegmentName(k) {
        NamesDistinct(k, g.Node(ns[t].0, ns[t].1));
      }
    }
  }

  /** The store `__init__` builds pins no segment, explicitly or implicitly. */
  lemma ContinuityHasNoPins(g: Dims)
    requires g.Valid()
    ensures forall k: nat :: SegmentName(k) !in ContinuityStore(g).entries && ImplicitSegmentName(k) !in ContinuityStore(g).entries
  {
    ContinuityStoreBuilt(g);
    var s := ContinuityStore(g);
    var ns := ActiveNodes(g, g.nPhi, g.nTheta);
    forall n | n in s.entries
      ensures forall k: nat :: n != SegmentName(k) && n != ImplicitSegmentName(k)
    {
      var t :| 0 <= t < |s.names| && s.names[t] == n;
      assert n == ContinuityName(g.Node(ns[t].0, ns[t].1));
      forall k: nat ensures n != SegmentName(k) && n != ImplicitSegmentName(k) {
        NamesDistinct(k, g.Node(ns[t].0, ns[t].1));
      }
    }
  }

  /** At an active node the four linked segments are four different segments. */
  lemma ActiveSlotsDistinct(g: Dims, i: nat, j: nat)
    requires g.Valid() && g.OnGrid(i, j) && ContinuityActive(g, i, j)
    ensures SlotsDistinct(ConnectedAt(g, i, j))
  {
    ConnectedValid(g, i, j);
    if i == 0 || i == g.nPhi {
      KeySentinels(g, i, j);
    }
  }

  /** The continuity constraint of an active node is Kirchhoff's current law there. */
  lemma ContinuityIsKirchhoff(g: Dims, i: nat, j: nat, x: seq<real>)
    requires g.Valid() && g.OnGrid(i, j) && ContinuityActive(g, i, j) && |x| == g.NSegments()
    ensures var l := ConnectedAt(g, i, j);
      && SlotsIn(l, |x|)
      && Dot(ContinuityConstraint(g, i, j).row, x) == x[l.torOut] + x[l.polOut] - x[l.torIn] - x[l.polIn]
  {
    ConnectedValid(g, i, j);
    ActiveSlotsDistinct(g, i, j);
    ContinuityDot(ConnectedAt(g, i, j), x);
  }

  /** A constraint with constant 0 holds of the all-zero currents exactly when the tolerance is positive. */
  lemma ZeroCurrentsSatisfy(c: Constraint, tol: real)
    requires c.constant == 0.0
    ensures Abs(Dot(c.row, Zeros(|c.row|)) - c.constant) < tol <==> tol > 0.0
  {
    DotWithZeros(c.row);
  }

  // ---------------------------------------------------------------------------
  // Free segments per node

  /** Segment s is one of the node's four links. */
  predicate Touches(l: Links, s: int)
  {
    s == l.torIn || s == l.polIn || s == l.torOut || s == l.polOut
  }

  /** Free segments among a node's links. */
  function FreeAt(fs: seq<nat>, l: Links): set<nat>
  {
    set s | s in fs && Touches(l, s)
  }

  /** How many of the free segments `fs` appear among a node's links: `node_sum` in the source. */
  function FreeCount(fs: seq<nat>, l: Links): nat
    decreases |fs|
  {
    if fs == [] then 0 else FreeCount(fs[..|fs| - 1], l) + (if Touches(l, fs[|fs| - 1]) then 1 else 0)
  }

  /** One more segment of the list adds one to the tally of every node it touches. */
  lemma FreeCountSnoc(fs: seq<nat>, t: nat, l: Links)
    requires t < |fs|
    ensures FreeCount(fs[..t + 1], l) == FreeCount(fs[..t], l) + (if Touches(l, fs[t]) then 1 else 0)
  {
    assert fs[..t + 1][..t] == fs[..t];
  }

  /** For a list without repeats the tally is the number of distinct free segments at the node. */
  lemma {:induction false} FreeCountCounts(fs: seq<nat>, l: Links)
    requires DistinctIds(fs)
    ensures FreeCount(fs, l) == |FreeAt(fs, l)|
    decreases |fs|
  {
    if fs != [] {
      var init, x := fs[..|fs| - 1], fs[|fs| - 1];
      assert fs == init + [x];
      assert DistinctIds(init);
      FreeCountCounts(init, l);
      assert x !in init;
      if Touches(l, x) {
        assert FreeAt(fs, l) == FreeAt(init, l) + {x};
      } else {
        assert FreeAt(fs, l) == FreeAt(init, l);
      }
    }
  }

  // ---------------------------------------------------------------------------
  // TF coil currents

  /** `floor(linspace(0, nPhi, n_tf, endpoint=False)[k] + 0.5*nPhi/n_tf)`, computed exactly. */
  function TfIndex(nPhi: nat, nTf: nat, k: nat): nat
    requires k < nTf
  {
    ((2 * k + 1) * nPhi) / (2 * nTf)
  }

  lemma DivBelow(a: nat, b: nat, n: nat)
    requires b > 0 && a < b * n
    ensures a / b < n
  {
    var q, r := a / b, a % b;
    assert q * b + r == a;
    if q >= n {
      MulLe(n, q, b);
    }
  }

  lemma TfIndexBound(nPhi: nat, nTf: nat, k: nat)
    requires k < nTf && nPhi > 0
    ensures TfIndex(nPhi, nTf, k) < nPhi
  {
    MulLe(2 * k + 2, 2 * nTf, nPhi);
    DivBelow((2 * k + 1) * nPhi, 2 * nTf, nPhi);
  }

  /** The poloidal segments `tf_currents[ind0:ind1]` covers for toroidal index t. */
  predicate InTfSlice(g: Dims, t: nat, s: nat)
  {
    var nTor, h, nT := g.NTorSegments(), g.Half(), g.nTheta;
    if t == 0 then nTor <= s < nTor + h
    else nTor + h + (t - 1) * nT <= s < nTor + h + (t - 1) * nT + nT
  }

  lemma UnflattenRow(q: nat, cols: nat, r: nat)
    requires cols > 0
    ensures Unflatten(q, cols).0 == r <==> r * cols <= q < r * cols + cols
  {
    var rc := Unflatten(q, cols);
    if rc.0 < r {
      MulLe(rc.0 + 1, r, cols);
    } else if rc.0 > r {
      MulLe(r + 1, rc.0, cols);
    }
  }

  /** A TF slice is the whole poloidal ring at toroidal index t (half of it on the symmetry plane t = 0). */
  lemma TfSliceIsRing(g: Dims, t: nat, s: nat)
    requires g.Valid() && t < g.nPhi && s < g.NSegments()
    ensures InTfSlice(g, t, s) <==> PositionOf(g, s).Pol? && PositionOf(g, s).i == t
  {
    var nTor, h := g.NTorSegments(), g.Half();
    if s >= nTor {
      if s - nTor < h {
        TfSliceFirstPlane(g, t, s);
      } else if s - nTor < g.NPolSegments() - h {
        TfSliceMiddle(g, t, s);
      } else {
        TfSliceLastPlane(g, t, s);
      }
    }
  }

  lemma TfSliceFirstPlane(g: Dims, t: nat, s: nat)
    requires g.Valid() && t < g.nPhi && g.NTorSegments() <= s < g.NTorSegments() + g.Half()
    ensures InTfSlice(g, t, s) <==> PositionOf(g, s).Pol? && PositionOf(g, s).i == t
  {
    assert PositionOf(g, s) == Pol(0, s - g.NTorSegments());
    if t > 0 {
      MulNonNeg(t - 1, g.nTheta);
      assert !InTfSlice(g, t, s);
    }
  }

  lemma MulNonNeg(a: nat, b: nat)
    ensures a * b >= 0
  {
  }

  lemma TfSliceMiddle(g: Dims, t: nat, s: nat)
    requires g.Valid() && t < g.nPhi && s < g.NSegments()
    requires g.NTorSegments() + g.Half() <= s < g.NTorSegments() + g.NPolSegments() - g.Half()
    ensures InTfSlice(g, t, s) <==> PositionOf(g, s).Pol? && PositionOf(g, s).i == t
  {
    if t > 0 {
      TfSliceInterior(g, t, s - g.NTorSegments());
    }
  }

  lemma TfSliceLastPlane(g: Dims, t: nat, s: nat)
    requires g.Valid() && t < g.nPhi && s < g.NSegments()
    requires g.NTorSegments() + g.NPolSegments() - g.Half() <= s
    ensures InTfSlice(g, t, s) <==> PositionOf(g, s).Pol? && PositionOf(g, s).i == t
  {
    assert PositionOf(g, s).i == g.nPhi;
    if t > 0 {
      TfSliceBeforeLastPlane(g, t, s - g.NTorSegments());
    }
  }

  /** No TF slice reaches the poloidal segments of the last symmetry plane. */
  lemma TfSliceBeforeLastPlane(g: Dims, t: nat, p: nat)
    requires g.Valid() && 0 < t < g.nPhi && g.NPolSegments() - g.Half() <= p
    ensures p >= g.Half() + (t - 1) * g.nTheta + g.nTheta
  {
    var h, nT := g.Half(), g.nTheta;
    MulLe(t, g.nPhi - 1, nT);
    assert (t - 1) * nT + nT == t * nT;
    assert (g.nPhi - 1) * nT + nT == g.NPolSegments();
  }

  lemma TfSliceInterior(g: Dims, t: nat, p: nat)
    requires g.Valid() && 0 < t < g.nPhi && g.Half() <= p < g.NPolSegments() - g.Half()
    ensures var h, nT := g.Half(), g.nTheta;
      h + (t - 1) * nT <= p < h + (t - 1) * nT + nT <==> Unflatten(p - h, nT).0 + 1 == t
  {
    UnflattenRow(p - g.Half(), g.nTheta, t - 1);
  }

  /** `tf_currents`: the coil current on every segment of a TF slice, zero elsewhere. */
  function TfCurrents(g: Dims, nTf: nat, c: real): (x: seq<real>)
    requires g.Valid()
    ensures |x| == g.NSegments()
  {
    seq(g.NSegments(), s requires 0 <= s => if OnTfCoil(g, nTf, s) then c else 0.0)
  }

  /** Segment s lies on one of the nTf coils. */
  predicate OnTfCoil(g: Dims, nTf: nat, s: nat)
  {
    exists k | 0 <= k < nTf :: InTfSlice(g, TfIndex(g.nPhi, nTf, k), s)
  }

  /** Segment s lies on one of the first m of the nTf coils. */
  predicate OnTfCoilUpTo(g: Dims, nTf: nat, m: nat, s: nat)
    requires m <= nTf
  {
    exists k | 0 <= k < m :: InTfSlice(g, TfIndex(g.nPhi, nTf, k), s)
  }

  /** Adding coil m to the first m coils. */
  lemma OnTfCoilStep(g: Dims, nTf: nat, m: nat, s: nat)
    requires m < nTf
    ensures OnTfCoilUpTo(g, nTf, m + 1, s) <==> OnTfCoilUpTo(g, nTf, m, s) || InTfSlice(g, TfIndex(g.nPhi, nTf, m), s)
  {
    if OnTfCoilUpTo(g, nTf, m + 1, s) && !InTfSlice(g, TfIndex(g.nPhi, nTf, m), s) {
      var k :| 0 <= k < m + 1 && InTfSlice(g, TfIndex(g.nPhi, nTf, k), s);
      assert k < m;
    }
  }

  /** `ind0` of the TF loop for toroidal index t. */
  function TfSliceStart(g: Dims, t: nat): nat
  {
    if t == 0 then g.NTorSegments() else g.NTorSegments() + g.Half() + (t - 1) * g.nTheta
  }

  /** `ind1` of the TF loop for toroidal index t. */
  function TfSliceEnd(g: Dims, t: nat): nat
  {
    if t == 0 then g.NTorSegments() + g.Half() else g.NTorSegments() + g.Half() + (t - 1) * g.nTheta + g.nTheta
  }

  /** The slice `[ind0:ind1]` is the TF slice, and it lies within the segments. */
  lemma TfSliceBounds(g: Dims, t: nat)
    requires g.Valid() && t < g.nPhi
    ensures TfSliceStart(g, t) <= TfSliceEnd(g, t) <= g.NSegments()
    ensures forall s: nat :: InTfSlice(g, t, s) <==> TfSliceStart(g, t) <= s < TfSliceEnd(g, t)
  {
    if t > 0 {
      MulLe(t, g.nPhi - 1, g.nTheta);
      assert (t - 1) * g.nTheta + g.nTheta == t * g.nTheta;
      assert (g.nPhi - 1) * g.nTheta + g.nTheta == g.NPolSegments();
    }
  }

  /** No toroidal segment is on a coil. */
  lemma TorOffCoil(g: Dims, nTf: nat, s: nat)
    requires s < g.NTorSegments()
    ensures !OnTfCoil(g, nTf, s)
  {
    forall k | 0 <= k < nTf ensures !InTfSlice(g, TfIndex(g.nPhi, nTf, k), s) {
      var t := TfIndex(g.nPhi, nTf, k);
      if t > 0 {
        assert (t - 1) * g.nTheta >= 0;
      }
    }
  }

  /** Two poloidal segments of one ring are on a coil together or not at all. */
  lemma RingOnCoil(g: Dims, nTf: nat, a: nat, b: nat)
    requires g.Valid() && g.NTorSegments() <= a < g.NSegments() && g.NTorSegments() <= b < g.NSegments()
    requires PositionOf(g, a).i == PositionOf(g, b).i
    ensures OnTfCoil(g, nTf, a) <==> OnTfCoil(g, nTf, b)
  {
    forall k | 0 <= k < nTf
      ensures InTfSlice(g, TfIndex(g.nPhi, nTf, k), a) <==> InTfSlice(g, TfIndex(g.nPhi, nTf, k), b)
    {
      TfIndexBound(g.nPhi, nTf, k);
      SliceSameRing(g, TfIndex(g.nPhi, nTf, k), a, b);
    }
  }

  /** At an active node the toroidal links are toroidal and both poloidal links lie on the node's own ring. */
  lemma ActiveLinksOnRing(g: Dims, i: nat, j: nat)
    requires g.Valid() && g.OnGrid(i, j) && ContinuityActive(g, i, j)
    ensures var l := ConnectedAt(g, i, j);
      && 0 <= l.torIn < g.NTorSegments() && 0 <= l.torOut < g.NTorSegments()
      && g.NTorSegments() <= l.polIn < g.NSegments() && g.NTorSegments() <= l.polOut < g.NSegments()
      && PositionOf(g, l.polIn).i == i && PositionOf(g, l.polOut).i == i
  {
    ConnectedValid(g, i, j);
    if 0 < i < g.nPhi {
      PositionOfInteriorPolKey(g, i, g.Prev(j));
      PositionOfInteriorPolKey(g, i, j);
    } else {
      PositionOfPlanePolKey(g, i, j - 1);
      PositionOfPlanePolKey(g, i, j);
    }
  }

  /** A TF slice covers the whole of a poloidal ring or none of it. */
  lemma SliceSameRing(g: Dims, t: nat, a: nat, b: nat)
    requires g.Valid() && t < g.nPhi && g.NTorSegments() <= a < g.NSegments() && g.NTorSegments() <= b < g.NSegments()
    requires PositionOf(g, a).i == PositionOf(g, b).i
    ensures InTfSlice(g, t, a) <==> InTfSlice(g, t, b)
  {
    TfSliceIsRing(g, t, a);
    TfSliceIsRing(g, t, b);
  }

  /** TF coil currents close on themselves: every continuity constraint reads zero on them. */
  lemma TfCurrentsContinuous(g: Dims, nTf: nat, c: real, i: nat, j: nat)
    requires g.Valid() && g.OnGrid(i, j) && ContinuityActive(g, i, j)
    ensures Dot(ContinuityConstraint(g, i, j).row, TfCurrents(g, nTf, c)) == 0.0
  {
    var x := TfCurrents(g, nTf, c);
    var l := ConnectedAt(g, i, j);
    ContinuityIsKirchhoff(g, i, j, x);
    ActiveLinksOnRing(g, i, j);
    RingOnCoil(g, nTf, l.polIn, l.polOut);
    TorOffCoil(g, nTf, l.torIn);
    TorOffCoil(g, nTf, l.torOut);
  }

  /** One constraint holds for x within the tolerance: its residual is below tol. */
  predicate Meets(c: Constraint, x: seq<real>, tol: real)
  {
    |c.row| == |x| && Abs(Dot(c.row, x) - c.constant) < tol
  }

  /** `check_constraints`' test: every row's residual is below the tolerance. */
  predicate Satisfies(rows: seq<Constraint>, x: seq<real>, tol: real)
  {
    forall t | 0 <= t < |rows| :: Meets(rows[t], x, tol)
  }

  /** The wireframe as constructed accepts any set of TF coils as long as the tolerance is positive. */
  lemma ContinuityAcceptsTf(g: Dims, nTf: nat, c: real, tol: real)
    requires g.Valid() && tol > 0.0
    ensures ContinuityStore(g).Valid()
    ensures Satisfies(InOrder(ContinuityStore(g), {}), TfCurrents(g, nTf, c), tol)
  {
    ContinuityStoreBuilt(g);
    var s := ContinuityStore(g);
    var rows := InOrder(s, {});
    RowsOfMembers(s.names, s.entries, {});
    forall t | 0 <= t < |rows| ensures Meets(rows[t], TfCurrents(g, nTf, c), tol) {
      assert rows[t] in rows;
      var n :| n in s.names && rows[t] == s.entries[n];
      StoredRowMeetsTf(g, nTf, c, tol, n);
    }
  }

  /** One stored continuity row of the new wireframe holds for the TF currents. */
  lemma StoredRowMeetsTf(g: Dims, nTf: nat, c: real, tol: real, n: string)
    requires g.Valid() && tol > 0.0 && n in ContinuityStore(g).names
    ensures n in ContinuityStore(g).entries && Meets(ContinuityStore(g).entries[n], TfCurrents(g, nTf, c), tol)
  {
    ContinuityStoreBuilt(g);
    var items := AllContinuity(g);
    var ns := ActiveNodes(g, g.nPhi, g.nTheta);
    var u :| 0 <= u < |ContinuityStore(g).names| && ContinuityStore(g).names[u] == n;
    assert items[u] == ContinuityItem(g, ns[u].0, ns[u].1);
    TfCurrentsContinuous(g, nTf, c, ns[u].0, ns[u].1);
  }

  // ---------------------------------------------------------------------------
  // Current constraints (wireframe.py:350-431)

  /** The toroidal current row reads the toroidal segments leaving the first symmetry plane. */
  lemma ToroidalRowAt(g: Dims, s: nat)
    requires g.Valid() && s < g.NSegments()
    ensures ToroidalCurrentRow(g.NSegments(), g.nTheta)[s] == if PositionOf(g, s).Tor? && PositionOf(g, s).i == 0 then 1.0 else 0.0
  {
    if s < g.NTorSegments() {
      UnflattenRow(s, g.nTheta, 0);
    } else {
      MulLe(1, g.nPhi, g.nTheta);
    }
  }

  /** A poloidal segment with an end at the inboard midplane node (i, nTheta/2) of its ring. */
  predicate OnInboardMidplane(g: Dims, s: nat)
    requires g.Valid() && s < g.NSegments()
  {
    var p := PositionOf(g, s);
    p.Pol? && (p.j + 1 == g.Half() || p.j == g.Half())
  }

  /** Membership in `matrix_row[0, seg_ind1a:seg_ind2a:nTheta]`. */
  predicate InFirstStride(g: Dims, s: nat)
    requires g.Valid()
  {
    var start := g.NTorSegments() + 2 * g.Half() - 1;
    start <= s < g.NSegments() && Unflatten(s - start, g.nTheta).1 == 0
  }

  /** Membership in `matrix_row[0, seg_ind1b:seg_ind2b:nTheta]`. */
  predicate InSecondStride(g: Dims, s: nat)
    requires g.Valid()
  {
    var start := g.NTorSegments() + 2 * g.Half();
    start <= s < g.NSegments() - g.nTheta + 1 && Unflatten(s - start, g.nTheta).1 == 0
  }

  lemma FirstStrideInterior(g: Dims, i: nat, j: nat)
    requires g.Valid() && 0 < i < g.nPhi && j < g.nTheta
    ensures InFirstStride(g, g.NTorSegments() + g.Half() + (i - 1) * g.nTheta + j) <==> j + 1 == g.Half()
  {
    var nT, h := g.nTheta, g.Half();
    InteriorPolBound(g, i, j);
    if j + 1 >= h {
      UnflattenFlat(i - 1, j + 1 - h, nT);
    } else if i >= 2 {
      UnflattenFlat(i - 2, nT + j + 1 - h, nT);
      assert (i - 1) * nT == (i - 2) * nT + nT;
    }
  }

  /** The last poloidal segment the second slice may reach lies past every interior ring's midplane segment. */
  lemma MidplaneBeforeStop(g: Dims, i: nat)
    requires g.Valid() && 0 < i < g.nPhi
    ensures g.NTorSegments() + g.nTheta + (i - 1) * g.nTheta < g.NSegments() - g.nTheta + 1
  {
    var nT := g.nTheta;
    MulLe(i, g.nPhi - 1, nT);
    assert (i - 1) * nT + nT == i * nT;
    assert (g.nPhi - 1) * nT + nT == g.NPolSegments();
  }

  lemma SecondStrideInterior(g: Dims, i: nat, j: nat)
    requires g.Valid() && 0 < i < g.nPhi && j < g.nTheta
    ensures InSecondStride(g, g.NTorSegments() + g.Half() + (i - 1) * g.nTheta + j) <==> j == g.Half()
  {
    var nT, h := g.nTheta, g.Half();
    if j >= h {
      UnflattenFlat(i - 1, j - h, nT);
      if j == h {
        MidplaneBeforeStop(g, i);
      }
    } else if i >= 2 {
      UnflattenFlat(i - 2, nT + j - h, nT);
      assert (i - 1) * nT == (i - 2) * nT + nT;
    }
  }

  lemma StridesLastPlane(g: Dims, j: nat)
    requires g.Valid() && j < g.Half()
    ensures var s := g.NTorSegments() + g.NPolSegments() - g.Half() + j;
      && (InFirstStride(g, s) <==> j + 1 == g.Half())
      && !InSecondStride(g, s)
  {
    var nT, h := g.nTheta, g.Half();
    if j + 1 == h {
      UnflattenFlat(g.nPhi - 1, 0, nT);
      assert (g.nPhi - 1) * nT + nT == g.NPolSegments();
    } else {
      UnflattenFlat(g.nPhi - 2, nT + 1 + j - h, nT);
      assert (g.nPhi - 2) * nT + 2 * nT == g.NPolSegments();
    }
  }

  /** The row as numpy builds it: a 1 at seg_ind0 and on the two strided slices. */
  lemma PoloidalRowStrides(g: Dims, s: nat)
    requires g.Valid() && s < g.NSegments()
    ensures PoloidalCurrentRow(g)[s] ==
              if s + 1 == g.NTorSegments() + g.Half() || InFirstStride(g, s) || InSecondStride(g, s) then 1.0 else 0.0
  {
    var nT, h, nTor, nSeg := g.nTheta, g.Half(), g.NTorSegments(), g.NSegments();
    var ind0 := nTor + h - 1;
    var r0 := Zeros(nSeg)[ind0 := 1.0];
    var r1 := SliceOnes(r0, ind0 + h, nSeg, nT);
    SliceOnesAt(r0, ind0 + h, nSeg, nT, s);
    SliceOnesAt(r1, ind0 + h + 1, nSeg - nT + 1, nT, s);
  }

  /** The three pieces of the row together cover exactly the segments meeting the inboard midplane. */
  lemma MidplaneStrides(g: Dims, s: nat)
    requires g.Valid() && s < g.NSegments()
    ensures OnInboardMidplane(g, s) <==>
              s + 1 == g.NTorSegments() + g.Half() || InFirstStride(g, s) || InSecondStride(g, s)
  {
    var nT, h, nTor := g.nTheta, g.Half(), g.NTorSegments();
    match PositionOf(g, s)
    case Tor(_, _) =>
    case Pol(i, j) =>
      if i == 0 {
        assert s == nTor + j;
      } else if i < g.nPhi {
        FirstStrideInterior(g, i, j);
        SecondStrideInterior(g, i, j);
      } else {
        StridesLastPlane(g, j);
        MulLe(2, g.nPhi, nT);
      }
  }

  /**
   * The poloidal current row (wireframe.py:366-379) has a 1 exactly on the
   * poloidal segments that meet the inboard midplane: one on each symmetry
   * plane, two on every ring between them.
   */
  lemma PoloidalRowAt(g: Dims, s: nat)
    requires g.Valid() && s < g.NSegments()
    ensures PoloidalCurrentRow(g)[s] == if OnInboardMidplane(g, s) then 1.0 else 0.0
  {
    PoloidalRowStrides(g, s);
    MidplaneStrides(g, s);
  }

  /**
   * The poloidal constraint's constant: `current/(2*nfp*nPhi)` on each of
   * the 2*nPhi selected segments, i.e. the current of one field period.
   */
  function PoloidalConstant(current: real, nfp: nat, nPhi: nat): (r: real)
    requires nfp > 0 && nPhi > 0
    ensures r * (nfp as real) == current
  {
    current / (2.0 * nfp as real * nPhi as real) * nPhi as real * 2.0
  }

  /** The constraint `add_poloidal_current_constraint` stores. */
  function PoloidalCurrentConstraint(g: Dims, nfp: nat, current: real): (c: Constraint)
    requires g.Valid() && nfp > 0
    ensures c.kind == PoloidalCurrentType && |c.row| == g.NSegments() && c.constant * (nfp as real) == current
  {
    Constraint(PoloidalCurrentType, PoloidalCurrentRow(g), PoloidalConstant(current, nfp, g.nPhi))
  }

  function MidplaneMask(g: Dims): (m: seq<bool>)
    requires g.Valid()
    ensures |m| == g.NSegments() && forall s | 0 <= s < |m| :: m[s] == OnInboardMidplane(g, s)
  {
    seq(g.NSegments(), s requires 0 <= s < g.NSegments() => OnInboardMidplane(g, s))
  }

  /**
   * The poloidal current constraint holds exactly when the currents of the
   * poloidal segments at the inboard midplane add up to its constant, the
   * poloidal current of one field period.
   */
  lemma PoloidalCurrentMeaning(g: Dims, nfp: nat, current: real, x: seq<real>)
    requires g.Valid() && nfp > 0 && |x| == g.NSegments()
    ensures Dot(PoloidalCurrentConstraint(g, nfp, current).row, x) == SumSelected(x, MidplaneMask(g))
  {
    forall s | 0 <= s < g.NSegments()
      ensures PoloidalCurrentRow(g)[s] == if MidplaneMask(g)[s] then 1.0 else 0.0
    {
      PoloidalRowAt(g, s);
    }
    DotIndicator(PoloidalCurrentRow(g), x, MidplaneMask(g));
  }

  /** The constraint `add_toroidal_current_constraint` stores. */
  function ToroidalCurrentConstraint(g: Dims, current: real): (c: Constraint)
    requires g.Valid()
    ensures c.kind == ToroidalCurrentType && |c.row| == g.NSegments() && c.constant == current
  {
    Constraint(ToroidalCurrentType, ToroidalCurrentRow(g.NSegments(), g.nTheta), current)
  }

  /** The toroidal segments that leave the first symmetry plane. */
  function PlaneMask(g: Dims): (m: seq<bool>)
    requires g.Valid()
    ensures |m| == g.NSegments() && forall s | 0 <= s < |m| :: m[s] == (PositionOf(g, s).Tor? && PositionOf(g, s).i == 0)
  {
    seq(g.NSegments(), s requires 0 <= s < g.NSegments() => PositionOf(g, s).Tor? && PositionOf(g, s).i == 0)
  }

  /**
   * The toroidal current constraint holds exactly when the currents of the
   * toroidal segments crossing the first symmetry plane add up to its constant.
   */
  lemma ToroidalCurrentMeaning(g: Dims, current: real, x: seq<real>)
    requires g.Valid() && |x| == g.NSegments()
    ensures Dot(ToroidalCurrentConstraint(g, current).row, x) == SumSelected(x, PlaneMask(g))
  {
    forall s | 0 <= s < g.NSegments()
      ensures ToroidalCurrentRow(g.NSegments(), g.nTheta)[s] == if PlaneMask(g)[s] then 1.0 else 0.0
    {
      ToroidalRowAt(g, s);
    }
    DotIndicator(ToroidalCurrentRow(g.NSegments(), g.nTheta), x, PlaneMask(g));
  }
}
