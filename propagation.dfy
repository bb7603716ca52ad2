/**
 * The fixed point of `update_implicit_constraints` (wireframe.py:639-672):
 * every node where exactly one free segment meets pins its free links
 * implicitly, pass after pass, until no node has a lone free segment.
 */
module Propagation {
  import opened Wrappers
  import opened Names
  import opened Grid
  import opened Rows
  import opened Constraints
  import opened Circuit

  /** Neither pin name of segment k is stored: the name test of wireframe.py:664-666. */
  predicate Unpinned(s: Store, k: nat)
  {
    SegmentName(k) !in s.entries && ImplicitSegmentName(k) !in s.entries
  }

  /** The segments no pin names, a finite set that each productive pass shrinks. */
  function UnpinnedSet(s: Store, nSegments: nat): set<nat>
  {
    set k: nat | k < nSegments && Unpinned(s, k)
  }

  /** One slot of an implicated node: `add_segment_constraints(seg, implicit=True)` when no pin names it. */
  function PinIfFree(s: Store, nSegments: nat, k: nat): Store
    requires k < nSegments
  {
    if Unpinned(s, k) then s.Insert(ImplicitSegmentName(k), Pin(nSegments, k, true)) else s
  }

  /** The first `upto` slots of a node, in table order. */
  function PinSlots(s: Store, nSegments: nat, l: Links, upto: nat): Store
    requires SlotsIn(l, nSegments) && upto <= 4
    decreases upto
  {
    if upto == 0 then s else PinIfFree(PinSlots(s, nSegments, l, upto - 1), nSegments, l.Slots()[upto - 1] as nat)
  }

  lemma LinksInRange(g: Dims, n: nat)
    requires g.Valid() && n < g.NNodes()
    ensures SlotsIn(ConnectedOfNode(g, n), g.NSegments())
  {
    ConnectedOfNodeValid(g, n);
    var l := ConnectedOfNode(g, n);
    assert l.Slots()[0] == l.torIn && l.Slots()[1] == l.polIn && l.Slots()[2] == l.torOut && l.Slots()[3] == l.polOut;
  }

  predicate NodesIn(g: Dims, nodes: seq<nat>)
  {
    forall t | 0 <= t < |nodes| :: nodes[t] < g.NNodes()
  }

  /** One pass over the implicated nodes, in order. */
  function ImplicitPass(s: Store, g: Dims, nodes: seq<nat>): Store
    requires g.Valid() && NodesIn(g, nodes)
    decreases |nodes|
  {
    if nodes == [] then s
    else
      var n := nodes[|nodes| - 1];
      LinksInRange(g, n);
      PinSlots(ImplicitPass(s, g, nodes[..|nodes| - 1]), g.NSegments(), ConnectedOfNode(g, n), 4)
  }

  /** The nodes below m where exactly one free segment meets: `np.where(node_sum == 1)`. */
  function ImplicatedBelow(g: Dims, fs: seq<nat>, m: nat): (ns: seq<nat>)
    requires g.Valid() && m <= g.NNodes()
    ensures forall t | 0 <= t < |ns| :: ns[t] < m
    decreases m
  {
    if m == 0 then []
    else ImplicatedBelow(g, fs, m - 1) + (if FreeCount(fs, ConnectedOfNode(g, m - 1)) == 1 then [m - 1] else [])
  }

  function Implicated(g: Dims, fs: seq<nat>): seq<nat>
    requires g.Valid()
  {
    ImplicatedBelow(g, fs, g.NNodes())
  }

  /** No node is implicated exactly when no node has a lone free segment. */
  lemma {:induction false} ImplicatedBelowSpec(g: Dims, fs: seq<nat>, m: nat)
    requires g.Valid() && m <= g.NNodes()
    ensures forall n | 0 <= n < m :: n in ImplicatedBelow(g, fs, m) <==> FreeCount(fs, ConnectedOfNode(g, n)) == 1
    decreases m
  {
    if m > 0 {
      ImplicatedBelowSpec(g, fs, m - 1);
    }
  }

  /** The segment an implicit pin name refers to. */
  ghost function ImplicitId(n: string): nat
  {
    if exists k: nat :: n == ImplicitSegmentName(k) then var k: nat :| n == ImplicitSegmentName(k); k else 0
  }

  lemma ImplicitIdOf(k: nat)
    ensures ImplicitId(ImplicitSegmentName(k)) == k
  {
    var m: nat :| ImplicitSegmentName(k) == ImplicitSegmentName(m) && ImplicitId(ImplicitSegmentName(k)) == m;
    NamesDistinct(k, m);
  }

  /** Entry n of t is an implicit pin of a real segment that s left unpinned. */
  ghost predicate FreshImplicitPin(s: Store, t: Store, n: string, nSegments: nat)
    requires n in t.entries
  {
    var k := ImplicitId(n);
    k < nSegments && Unpinned(s, k) && n == ImplicitSegmentName(k) && t.entries[n] == Pin(nSegments, k, true)
  }

  /**
   * t is s with some implicit pins appended, each for a segment s left
   * unpinned: the only change a pass makes.
   */
  ghost predicate AddsImplicitPins(s: Store, t: Store, nSegments: nat)
  {
    && |s.names| <= |t.names| && t.names[..|s.names|] == s.names
    && (forall n | n in s.entries :: n in t.entries && t.entries[n] == s.entries[n])
    && (forall n | n in t.entries && n !in s.entries :: FreshImplicitPin(s, t, n, nSegments))
  }

  lemma AddsRefl(s: Store, nSegments: nat)
    requires s.Valid()
    ensures AddsImplicitPins(s, s, nSegments)
  {
  }

  lemma AddsUnpinned(s: Store, t: Store, nSegments: nat, k: nat)
    requires AddsImplicitPins(s, t, nSegments) && Unpinned(t, k)
    ensures Unpinned(s, k)
  {
  }

  lemma PinnedStays(s: Store, t: Store, nSegments: nat, k: nat)
    requires AddsImplicitPins(s, t, nSegments) && !Unpinned(s, k)
    ensures !Unpinned(t, k)
  {
  }

  lemma AddsTrans(s: Store, t: Store, u: Store, nSegments: nat)
    requires s.Valid() && AddsImplicitPins(s, t, nSegments) && AddsImplicitPins(t, u, nSegments)
    ensures AddsImplicitPins(s, u, nSegments)
  {
    assert u.names[..|s.names|] == u.names[..|t.names|][..|s.names|];
    forall n | n in u.entries && n !in s.entries
      ensures FreshImplicitPin(s, u, n, nSegments)
    {
      if n !in t.entries {
        AddsUnpinned(s, t, nSegments, ImplicitId(n));
      }
    }
  }

  lemma PinIfFreeAdds(s: Store, nSegments: nat, k: nat)
    requires s.Valid() && k < nSegments
    ensures PinIfFree(s, nSegments, k).Valid() && AddsImplicitPins(s, PinIfFree(s, nSegments, k), nSegments)
    ensures !Unpinned(PinIfFree(s, nSegments, k), k)
  {
    if Unpinned(s, k) {
      ImplicitIdOf(k);
      InsertValid(s, ImplicitSegmentName(k), Pin(nSegments, k, true));
      var t := PinIfFree(s, nSegments, k);
      assert t.names[..|s.names|] == s.names;
    }
  }

  lemma {:induction false} PinSlotsAdds(s: Store, nSegments: nat, l: Links, upto: nat)
    requires s.Valid() && SlotsIn(l, nSegments) && upto <= 4
    ensures PinSlots(s, nSegments, l, upto).Valid() && AddsImplicitPins(s, PinSlots(s, nSegments, l, upto), nSegments)
    decreases upto
  {
    if upto == 0 {
      AddsRefl(s, nSegments);
    } else {
      PinSlotsAdds(s, nSegments, l, upto - 1);
      var u := PinSlots(s, nSegments, l, upto - 1);
      PinIfFreeAdds(u, nSegments, l.Slots()[upto - 1] as nat);
      AddsTrans(s, u, PinSlots(s, nSegments, l, upto), nSegments);
    }
  }

  lemma {:induction false} PinSlotsPinned(s: Store, nSegments: nat, l: Links, upto: nat)
    requires s.Valid() && SlotsIn(l, nSegments) && upto <= 4
    ensures forall q | 0 <= q < upto :: !Unpinned(PinSlots(s, nSegments, l, upto), l.Slots()[q] as nat)
    decreases upto
  {
    if upto > 0 {
      PinSlotsPinned(s, nSegments, l, upto - 1);
      PinSlotsAdds(s, nSegments, l, upto - 1);
      var u := PinSlots(s, nSegments, l, upto - 1);
      var r := PinSlots(s, nSegments, l, upto);
      PinIfFreeAdds(u, nSegments, l.Slots()[upto - 1] as nat);
      forall q | 0 <= q < upto - 1 ensures !Unpinned(r, l.Slots()[q] as nat) {
        PinnedStays(u, r, nSegments, l.Slots()[q] as nat);
      }
    }
  }

  /** Every link of a node is pinned. */
  predicate LinksPinned(s: Store, l: Links)
  {
    && l.torIn >= 0 && !Unpinned(s, l.torIn as nat)
    && l.polIn >= 0 && !Unpinned(s, l.polIn as nat)
    && l.torOut >= 0 && !Unpinned(s, l.torOut as nat)
    && l.polOut >= 0 && !Unpinned(s, l.polOut as nat)
  }

  lemma PinLinksPinned(s: Store, nSegments: nat, l: Links)
    requires s.Valid() && SlotsIn(l, nSegments)
    ensures LinksPinned(PinSlots(s, nSegments, l, 4), l)
  {
    PinSlotsPinned(s, nSegments, l, 4);
    assert l.Slots()[0] == l.torIn && l.Slots()[1] == l.polIn && l.Slots()[2] == l.torOut && l.Slots()[3] == l.polOut;
  }

  /** Pins are never taken away by adding entries. */
  lemma LinksStayPinned(s: Store, t: Store, l: Links)
    requires s.entries.Keys <= t.entries.Keys && LinksPinned(s, l)
    ensures LinksPinned(t, l)
  {
  }

  /** One node's step of a pass keeps every entry and pins every link of the node. */
  lemma PassStep(u: Store, g: Dims, n: nat)
    requires u.Valid() && g.Valid() && n < g.NNodes()
    ensures SlotsIn(ConnectedOfNode(g, n), g.NSegments())
    ensures PinSlots(u, g.NSegments(), ConnectedOfNode(g, n), 4).Valid()
    ensures u.entries.Keys <= PinSlots(u, g.NSegments(), ConnectedOfNode(g, n), 4).entries.Keys
    ensures LinksPinned(PinSlots(u, g.NSegments(), ConnectedOfNode(g, n), 4), ConnectedOfNode(g, n))
  {
    LinksInRange(g, n);
    PinSlotsAdds(u, g.NSegments(), ConnectedOfNode(g, n), 4);
    PinLinksPinned(u, g.NSegments(), ConnectedOfNode(g, n));
  }

  /** A pass only appends implicit pins. */
  lemma {:induction false} ImplicitPassAdds(s: Store, g: Dims, nodes: seq<nat>)
    requires s.Valid() && g.Valid() && NodesIn(g, nodes)
    ensures ImplicitPass(s, g, nodes).Valid() && AddsImplicitPins(s, ImplicitPass(s, g, nodes), g.NSegments())
    decreases |nodes|
  {
    if nodes == [] {
      AddsRefl(s, g.NSegments());
    } else {
      var init, n := nodes[..|nodes| - 1], nodes[|nodes| - 1];
      assert NodesIn(g, init);
      ImplicitPassAdds(s, g, init);
      var u := ImplicitPass(s, g, init);
      LinksInRange(g, n);
      PinSlotsAdds(u, g.NSegments(), ConnectedOfNode(g, n), 4);
      AddsTrans(s, u, ImplicitPass(s, g, nodes), g.NSegments());
    }
  }

  /** After a pass every link of every implicated node is pinned. */
  lemma {:induction false} ImplicitPassPins(s: Store, g: Dims, nodes: seq<nat>)
    requires s.Valid() && g.Valid() && NodesIn(g, nodes)
    ensures ImplicitPass(s, g, nodes).Valid()
    ensures forall t | 0 <= t < |nodes| :: LinksPinned(ImplicitPass(s, g, nodes), ConnectedOfNode(g, nodes[t]))
    decreases |nodes|
  {
    if nodes != [] {
      var init, n := nodes[..|nodes| - 1], nodes[|nodes| - 1];
      assert NodesIn(g, init);
      ImplicitPassPins(s, g, init);
      var u := ImplicitPass(s, g, init);
      PassStep(u, g, n);
      var r := PinSlots(u, g.NSegments(), ConnectedOfNode(g, n), 4);
      assert ImplicitPass(s, g, nodes) == r;
      forall t | 0 <= t < |nodes| ensures LinksPinned(r, ConnectedOfNode(g, nodes[t])) {
        if t < |init| {
          assert nodes[t] == init[t];
          LinksStayPinned(u, r, ConnectedOfNode(g, init[t]));
        }
      }
    }
  }

  /** A pass that appends anything pins a segment that was unpinned, so the unpinned set shrinks. */
  lemma GrowthShrinks(s: Store, t: Store, nSegments: nat)
    requires s.Valid() && t.Valid() && AddsImplicitPins(s, t, nSegments) && |t.names| > |s.names|
    ensures UnpinnedSet(t, nSegments) < UnpinnedSet(s, nSegments)
  {
    var n := t.names[|s.names|];
    assert n !in s.entries;
    assert n in t.entries;
    var k := ImplicitId(n);
    assert k in UnpinnedSet(s, nSegments) && k !in UnpinnedSet(t, nSegments);
    forall m | m in UnpinnedSet(t, nSegments) ensures m in UnpinnedSet(s, nSegments) {
      AddsUnpinned(s, t, nSegments, m);
    }
  }

  /** Appending only implicit pins of real segments keeps a store canonical. */
  lemma AddsCanonical(s: Store, t: Store, nSegments: nat)
    requires Canonical(s, nSegments) && t.Valid() && AddsImplicitPins(s, t, nSegments)
    ensures Canonical(t, nSegments)
  {
    forall n | n in t.entries ensures WellTyped(n, t.entries[n].kind, nSegments) {
      if n !in s.entries {
        var k := ImplicitId(n);
        forall m: nat ensures n != SegmentName(m) && (n == ImplicitSegmentName(m) ==> m == k) {
          NamesDistinct(m, k);
        }
      }
    }
  }

  lemma {:induction false} FreeCountWitness(fs: seq<nat>, l: Links)
    requires FreeCount(fs, l) > 0
    ensures exists x | x in fs :: Touches(l, x)
    decreases |fs|
  {
    var init := fs[..|fs| - 1];
    if !Touches(l, fs[|fs| - 1]) {
      FreeCountWitness(init, l);
      var x :| x in init && Touches(l, x);
      assert x in fs;
    }
  }

  /**
   * In a canonical store a pass with an implicated node always appends a pin:
   * the lone free segment there was unpinned and is pinned afterwards. This is
   * why the loop of `update_implicit_constraints` terminates.
   */
  lemma PassProgress(s: Store, g: Dims)
    requires g.Valid() && Canonical(s, g.NSegments())
    ensures FreeIds(s, g.NSegments()).Ok?
    ensures var nodes := Implicated(g, FreeIds(s, g.NSegments()).value);
      NodesIn(g, nodes) && (nodes != [] ==> |ImplicitPass(s, g, nodes).names| > |s.names|)
  {
    CanonicalIds(s, g.NSegments());
    var fs := FreeIds(s, g.NSegments()).value;
    var nodes := Implicated(g, fs);
    if nodes != [] {
      var n := nodes[0];
      ImplicatedBelowSpec(g, fs, g.NNodes());
      var l := ConnectedOfNode(g, n);
      FreeCountWitness(fs, l);
      var x :| x in fs && Touches(l, x);
      CanonicalFree(s, g.NSegments(), x);
      ImplicitPassAdds(s, g, nodes);
      ImplicitPassPins(s, g, nodes);
      var r := ImplicitPass(s, g, nodes);
      assert LinksPinned(r, l);
      GrowsWhenPinned(s, r, g.NSegments(), x);
    }
  }

  /** A store that only adds pins and pins a segment that was unpinned has grown. */
  lemma GrowsWhenPinned(s: Store, t: Store, nSegments: nat, x: nat)
    requires s.Valid() && t.Valid() && AddsImplicitPins(s, t, nSegments)
    requires Unpinned(s, x) && !Unpinned(t, x)
    ensures |t.names| > |s.names|
  {
    var n := if SegmentName(x) in t.entries then SegmentName(x) else ImplicitSegmentName(x);
    assert n in t.names && n !in t.names[..|s.names|];
    var i :| 0 <= i < |t.names| && t.names[i] == n;
  }

  /**
   * `update_implicit_constraints` as a recursion over passes: the free
   * segments (a bad segment key raises), the implicated nodes, one pass. The
   * source loops forever when a pass appends nothing, which is reported
   * here as Diverges.
   */
  function ImplicitClosure(s: Store, g: Dims): (Store, Outcome<Error>)
    requires s.Valid() && g.Valid()
    decreases UnpinnedSet(s, g.NSegments())
  {
    match FreeIds(s, g.NSegments())
    case Err(e) => (s, Fail(e))
    case Ok(fs) =>
      var nodes := Implicated(g, fs);
      if nodes == [] then (s, Pass)
      else
        ImplicitPassAdds(s, g, nodes);
        var t := ImplicitPass(s, g, nodes);
        if |t.names| == |s.names| then (t, Fail(Diverges))
        else
          GrowthShrinks(s, t, g.NSegments());
          ImplicitClosure(t, g)
  }

  /** The update only appends implicit pins of segments that were unpinned. */
  lemma {:induction false} ClosureAdds(s: Store, g: Dims)
    requires s.Valid() && g.Valid()
    ensures ImplicitClosure(s, g).0.Valid() && AddsImplicitPins(s, ImplicitClosure(s, g).0, g.NSegments())
    decreases UnpinnedSet(s, g.NSegments())
  {
    AddsRefl(s, g.NSegments());
    var r := FreeIds(s, g.NSegments());
    if r.Ok? {
      var nodes := Implicated(g, r.value);
      if nodes != [] {
        ImplicitPassAdds(s, g, nodes);
        var t := ImplicitPass(s, g, nodes);
        if |t.names| != |s.names| {
          GrowthShrinks(s, t, g.NSegments());
          ClosureAdds(t, g);
          AddsTrans(s, t, ImplicitClosure(t, g).0, g.NSegments());
        }
      }
    }
  }

  /** When the update returns, no node is left with exactly one free segment. */
  lemma {:induction false} ClosureSettled(s: Store, g: Dims)
    requires s.Valid() && g.Valid() && ImplicitClosure(s, g).1.Pass?
    ensures ImplicitClosure(s, g).0.Valid()
    ensures FreeIds(ImplicitClosure(s, g).0, g.NSegments()).Ok?
    ensures Implicated(g, FreeIds(ImplicitClosure(s, g).0, g.NSegments()).value) == []
    ensures forall n | 0 <= n < g.NNodes() :: FreeCount(FreeIds(ImplicitClosure(s, g).0, g.NSegments()).value, ConnectedOfNode(g, n)) != 1
    decreases UnpinnedSet(s, g.NSegments())
  {
    ClosureAdds(s, g);
    var fs := FreeIds(s, g.NSegments()).value;
    var nodes := Implicated(g, fs);
    if nodes == [] {
      ImplicatedBelowSpec(g, fs, g.NNodes());
    } else {
      ImplicitPassAdds(s, g, nodes);
      var t := ImplicitPass(s, g, nodes);
      GrowthShrinks(s, t, g.NSegments());
      ClosureSettled(t, g);
    }
  }

  /** The update fails only by reading a bad key or by a pass that pins nothing. */
  lemma {:induction false} ClosureErrors(s: Store, g: Dims)
    requires s.Valid() && g.Valid()
    ensures ImplicitClosure(s, g).1.Fail? ==>
              ImplicitClosure(s, g).1.error.BadSegmentName? || ImplicitClosure(s, g).1.error == SegmentIndexError
              || ImplicitClosure(s, g).1.error == Diverges
    decreases UnpinnedSet(s, g.NSegments())
  {
    FreeIdsErrors(s, g.NSegments());
    var r := FreeIds(s, g.NSegments());
    if r.Ok? {
      var nodes := Implicated(g, r.value);
      if nodes != [] {
        ImplicitPassAdds(s, g, nodes);
        var t := ImplicitPass(s, g, nodes);
        if |t.names| != |s.names| {
          GrowthShrinks(s, t, g.NSegments());
          ClosureErrors(t, g);
        }
      }
    }
  }

  /**
   * After an update, reading the free segments either fails the way the
   * update failed or finds no node with a lone free segment.
   */
  lemma ClosureReadable(s: Store, g: Dims)
    requires s.Valid() && g.Valid()
    ensures ImplicitClosure(s, g).1.Fail? ==>
              ImplicitClosure(s, g).1.error != LoneFreeSegment && ImplicitClosure(s, g).1.error != LoopBranches
    ensures ImplicitClosure(s, g).1.Pass? ==>
              ImplicitClosure(s, g).0.Valid() && FreeIds(ImplicitClosure(s, g).0, g.NSegments()).Ok?
              && Implicated(g, FreeIds(ImplicitClosure(s, g).0, g.NSegments()).value) == []
  {
    ClosureErrors(s, g);
    if ImplicitClosure(s, g).1.Pass? {
      ClosureSettled(s, g);
    }
  }

  /** Updating again changes nothing: the result is a fixed point. */
  lemma ClosureIdempotent(s: Store, g: Dims)
    requires s.Valid() && g.Valid() && ImplicitClosure(s, g).1.Pass?
    ensures ImplicitClosure(s, g).0.Valid()
    ensures ImplicitClosure(ImplicitClosure(s, g).0, g) == ImplicitClosure(s, g)
  {
    ClosureSettled(s, g);
  }

  /**
   * On a store the wireframe's own methods built, the update always
   * terminates normally and the store stays canonical.
   */
  lemma {:induction false} ClosureCanonical(s: Store, g: Dims)
    requires g.Valid() && Canonical(s, g.NSegments())
    ensures ImplicitClosure(s, g).1 == Pass && Canonical(ImplicitClosure(s, g).0, g.NSegments())
    decreases UnpinnedSet(s, g.NSegments())
  {
    PassProgress(s, g);
    var fs := FreeIds(s, g.NSegments()).value;
    var nodes := Implicated(g, fs);
    if nodes != [] {
      ImplicitPassAdds(s, g, nodes);
      var t := ImplicitPass(s, g, nodes);
      GrowthShrinks(s, t, g.NSegments());
      AddsCanonical(s, t, g.NSegments());
      ClosureCanonical(t, g);
    }
  }
}
