/**
 * The wireframe's constraint store: an insertion-ordered dictionary from a
 * constraint's name to its type, coefficient row and constant
 * (wireframe.py:303-340), and the segment pins kept in it
 * (wireframe.py:461-637). The store is a sequence of names, which keeps the
 * order, plus a map from name to record.
 */
module Constraints {
  import opened Wrappers
  import opened Names
  import opened Rows

  const ContinuityType: string := "continuity"
  const SegmentType: string := "segment"
  const ImplicitSegmentType: string := "implicit_segment"
  const PoloidalCurrentType: string := "poloidal_current"
  const ToroidalCurrentType: string := "toroidal_current"

  /** One linear equality `row * x == constant` with the type tag the source stores beside it. */
  datatype Constraint = Constraint(kind: string, row: seq<real>, constant: real)

  /** The exceptions the wireframe raises, one constructor per distinct cause. */
  datatype Error =
    | OddDimensions                 // nPhi or nTheta odd (wireframe.py:51)
    | EmptyGrid                     // nPhi or nTheta zero
    | DuplicateName(name: string)   // add_constraint on an existing name
    | RowLength                     // add_constraint with a row of the wrong size
    | MissingName(name: string)     // del on a name that is not stored
    | SegmentOutOfRange             // a segment index outside [0, nSegments)
    | BadSegmentName(name: string)  // int() of a segment-typed name fails
    | SegmentIndexError             // a parsed segment id indexes past the mask
    | Diverges                      // a pass of the implicit update adds nothing
    | LoneFreeSegment               // the assertion of find_inactive_nodes
    | LoopBranches                  // the closed-loop assumption fails
    | NoRows                        // concatenating an empty list of rows
    | CurrentsLength                // check_constraints with the wrong vector length
    | NegativeCoilCount             // linspace with a negative sample count
    | ZeroCoilCount                 // 0.5 * nPhi / n_tf with n_tf == 0
    | BadTolerance                  // a tolerance that is not positive
    | TooManyTfCoils                // n_tf > nPhi
    | ConstraintsNotMet             // add_tfcoil_currents would violate a constraint
    | OddWindowpaneSizes            // windowpane sizes or gaps odd
    | ZeroWindowpaneGap             // a windowpane gap of zero
    | NegativeWindowpaneSize        // a negative windowpane count, size or gap
    | WindowpaneIndexError          // a coil segment id outside the mask numpy indexes

  /** `names` minus every occurrence of x, order kept. */
  function Without(names: seq<string>, x: string): (r: seq<string>)
    ensures forall y :: y in r <==> y in names && y != x
  {
    if names == [] then [] else (if names[0] == x then [] else [names[0]]) + Without(names[1..], x)
  }

  predicate Distinct(names: seq<string>)
  {
    forall a, b | 0 <= a < b < |names| :: names[a] != names[b]
  }

  lemma {:induction false} WithoutDistinct(names: seq<string>, x: string)
    requires Distinct(names)
    ensures Distinct(Without(names, x))
  {
    if names != [] {
      WithoutDistinct(names[1..], x);
      var rest := Without(names[1..], x);
      var head: seq<string> := if names[0] == x then [] else [names[0]];
      assert names[0] !in names[1..];
      forall a, b | 0 <= a < b < |head + rest|
        ensures (head + rest)[a] != (head + rest)[b]
      {
        if a < |head| {
          assert (head + rest)[b] in rest;
        }
      }
    }
  }

  datatype Store = Store(names: seq<string>, entries: map<string, Constraint>) {
    /** Names are unique and the order lists exactly the stored keys. */
    ghost predicate Valid()
    {
      Distinct(names) && forall n :: n in entries <==> n in names
    }

    /** Appending a new key, as assigning to a fresh key of an OrderedDict does. */
    function Insert(name: string, c: Constraint): Store
    {
      Store(names + [name], entries[name := c])
    }

    /** Removing a key, as `del` does; the others keep their order. */
    function Delete(name: string): Store
    {
      Store(Without(names, name), entries - {name})
    }
  }

  const Empty: Store := Store([], map[])

  /** Every stored row has one coefficient per segment, as `add_constraint` demands. */
  ghost predicate Sized(s: Store, nSegments: nat)
  {
    forall n | n in s.entries :: |s.entries[n].row| == nSegments
  }

  lemma InsertValid(s: Store, name: string, c: Constraint)
    requires s.Valid() && name !in s.entries
    ensures s.Insert(name, c).Valid()
  {
    var t := s.Insert(name, c);
    forall a, b | 0 <= a < b < |t.names| ensures t.names[a] != t.names[b] {
      if b == |s.names| {
        assert t.names[a] in s.names;
      }
    }
  }

  lemma DeleteValid(s: Store, name: string)
    requires s.Valid()
    ensures s.Delete(name).Valid()
  {
    WithoutDistinct(s.names, name);
  }

  /** The stored constraints in insertion order, skipping the excluded names. */
  function RowsOf(names: seq<string>, entries: map<string, Constraint>, excluded: set<string>): seq<Constraint>
    requires forall n | n in names :: n in entries
  {
    if names == [] then []
    else RowsOf(names[..|names| - 1], entries, excluded)
         + (if names[|names| - 1] in excluded then [] else [entries[names[|names| - 1]]])
  }

  function InOrder(s: Store, excluded: set<string>): seq<Constraint>
    requires s.Valid()
  {
    RowsOf(s.names, s.entries, excluded)
  }

  lemma {:induction false} RowsOfFrame(names: seq<string>, e1: map<string, Constraint>, e2: map<string, Constraint>, excluded: set<string>)
    requires forall n | n in names :: n in e1 && n in e2 && e1[n] == e2[n]
    ensures RowsOf(names, e1, excluded) == RowsOf(names, e2, excluded)
  {
    if names != [] {
      RowsOfFrame(names[..|names| - 1], e1, e2, excluded);
    }
  }

  /** The rows are the constraints of the names not excluded, and nothing else. */
  lemma {:induction false} RowsOfMembers(names: seq<string>, entries: map<string, Constraint>, excluded: set<string>)
    requires forall n | n in names :: n in entries
    ensures forall c | c in RowsOf(names, entries, excluded) :: exists n | n in names && n !in excluded :: c == entries[n]
    ensures forall n | n in names && n !in excluded :: entries[n] in RowsOf(names, entries, excluded)
    decreases |names|
  {
    if names != [] {
      var init, last := names[..|names| - 1], names[|names| - 1];
      assert names == init + [last];
      RowsOfMembers(init, entries, excluded);
      forall c | c in RowsOf(names, entries, excluded)
        ensures exists n | n in names && n !in excluded :: c == entries[n]
      {
        if c in RowsOf(init, entries, excluded) {
          var n :| n in init && n !in excluded && c == entries[n];
          assert n in names;
        } else {
          assert last in names;
        }
      }
    }
  }

  /** With nothing excluded there is one row per stored constraint. */
  lemma {:induction false} RowsOfCount(names: seq<string>, entries: map<string, Constraint>)
    requires forall n | n in names :: n in entries
    ensures |RowsOf(names, entries, {})| == |names|
    decreases |names|
  {
    if names != [] {
      RowsOfCount(names[..|names| - 1], entries);
    }
  }

  /** Inserting appends exactly the new constraint at the end of the row order. */
  lemma InsertAppends(s: Store, name: string, c: Constraint, excluded: set<string>)
    requires s.Valid() && name !in s.entries
    ensures s.Insert(name, c).Valid()
    ensures InOrder(s.Insert(name, c), excluded) == InOrder(s, excluded) + (if name in excluded then [] else [c])
  {
    InsertValid(s, name, c);
    var t := s.Insert(name, c);
    assert t.names[..|t.names| - 1] == s.names;
    RowsOfFrame(s.names, s.entries, t.entries, excluded);
  }

  lemma {:induction false} RowsOfWithout(names: seq<string>, entries: map<string, Constraint>, x: string, excluded: set<string>)
    requires forall n | n in names :: n in entries
    ensures forall n | n in Without(names, x) :: n in entries - {x}
    ensures RowsOf(Without(names, x), entries - {x}, excluded) == RowsOf(names, entries, excluded + {x})
    decreases |names|
  {
    if names != [] {
      var last := names[|names| - 1];
      var init := names[..|names| - 1];
      assert names == init + [last];
      WithoutAppend(init, last, x);
      RowsOfWithout(init, entries, x, excluded);
      var w := Without(init, x);
      if last != x {
        assert Without(names, x) == w + [last];
        assert Without(names, x)[..|Without(names, x)| - 1] == w;
      } else {
        assert Without(names, x) == w;
        assert names[..|names| - 1] == init;
      }
    }
  }

  lemma {:induction false} WithoutAppend(init: seq<string>, last: string, x: string)
    ensures Without(init + [last], x) == Without(init, x) + (if last == x then [] else [last])
    decreases |init|
  {
    if init == [] {
      assert [last][1..] == [];
    } else {
      assert (init + [last])[1..] == init[1..] + [last];
      WithoutAppend(init[1..], last, x);
    }
  }

  /** Deleting a constraint is the same as excluding it: the other rows keep their order. */
  lemma DeleteExcludes(s: Store, name: string, excluded: set<string>)
    requires s.Valid()
    ensures s.Delete(name).Valid()
    ensures InOrder(s.Delete(name), excluded) == InOrder(s, excluded + {name})
  {
    DeleteValid(s, name);
    RowsOfWithout(s.names, s.entries, name, excluded);
  }

  // ---------------------------------------------------------------------------
  // add_constraint / remove_constraint (wireframe.py:330-348)

  /** `add_constraint`: a duplicate name or a row of the wrong size raises, anything else is appended. */
  function AddConstraint(s: Store, nSegments: nat, name: string, c: Constraint): (r: Result<Store, Error>)
    ensures r.Ok? <==> name !in s.entries && |c.row| == nSegments
    ensures r.Err? ==> r.error == (if name in s.entries then DuplicateName(name) else RowLength)
  {
    if name in s.entries then Err(DuplicateName(name))
    else if |c.row| != nSegments then Err(RowLength)
    else Ok(s.Insert(name, c))
  }

  /** The store and the outcome after one `add_constraint` call: a raise leaves the store as it was. */
  function AddResult(s: Store, nSegments: nat, name: string, c: Constraint): (Store, Outcome<Error>)
  {
    match AddConstraint(s, nSegments, name, c)
    case Ok(t) => (t, Pass)
    case Err(e) => (s, Fail(e))
  }

  /** `remove_constraint` with one name: `del` raises on a missing key. */
  function RemoveConstraint(s: Store, name: string): (r: Result<Store, Error>)
    ensures r.Ok? <==> name in s.entries
  {
    if name in s.entries then Ok(s.Delete(name)) else Err(MissingName(name))
  }

  /** `remove_constraint` with a list: names are deleted one by one until one is missing. */
  function RemoveEach(s: Store, names: seq<string>): (Store, Outcome<Error>)
    decreases |names|
  {
    if names == [] then (s, Pass)
    else
      var prev := RemoveEach(s, names[..|names| - 1]);
      if prev.1.Fail? then prev
      else match RemoveConstraint(prev.0, names[|names| - 1])
        case Ok(t) => (t, Pass)
        case Err(e) => (prev.0, Fail(e))
  }

  /** Once a name of the list was missing, the rest of the list changes nothing. */
  lemma {:induction false} RemoveEachStops(s: Store, names: seq<string>, t: nat)
    requires t <= |names| && RemoveEach(s, names[..t]).1.Fail?
    ensures RemoveEach(s, names) == RemoveEach(s, names[..t])
    decreases |names|
  {
    if t < |names| {
      var init := names[..|names| - 1];
      assert init[..t] == names[..t];
      RemoveEachStops(s, init, t);
    } else {
      assert names[..t] == names;
    }
  }

  lemma {:induction false} WithoutAbsent(names: seq<string>, x: string)
    requires x !in names
    ensures Without(names, x) == names
    decreases |names|
  {
    if names != [] {
      assert names[1..] + [] == names[1..];
      WithoutAbsent(names[1..], x);
    }
  }

  /** Removing a constraint just added gives back the store it was added to. */
  lemma RemoveAfterAdd(s: Store, nSegments: nat, name: string, c: Constraint)
    requires s.Valid() && AddConstraint(s, nSegments, name, c).Ok?
    ensures RemoveConstraint(AddConstraint(s, nSegments, name, c).value, name) == Ok(s)
  {
    WithoutAppend(s.names, name, name);
    WithoutAbsent(s.names, name);
    assert Without(s.names + [name], name) == s.names + [];
    assert s.entries[name := c] - {name} == s.entries;
    assert s.Insert(name, c).Delete(name) == Store(s.names, s.entries);
  }

  /**
   * Removing a name if present and then adding it again: the entry is
   * replaced, the other entries are kept, and the name moves to the end.
   */
  lemma Replace(s: Store, name: string, c: Constraint)
    requires s.Valid()
    ensures var t := (if name in s.entries then s.Delete(name) else s).Insert(name, c);
      && t.Valid()
      && t.entries == s.entries[name := c]
      && t.names == Without(s.names, name) + [name]
  {
    if name !in s.entries {
      WithoutAbsent(s.names, name);
      InsertValid(s, name, c);
    } else {
      ReplacePresent(s, name, c);
    }
  }

  lemma ReplacePresent(s: Store, name: string, c: Constraint)
    requires s.Valid() && name in s.entries
    ensures s.Delete(name).Insert(name, c).Valid()
    ensures s.Delete(name).Insert(name, c).entries == s.entries[name := c]
  {
    DeleteValid(s, name);
    InsertValid(s.Delete(name), name, c);
    assert (s.entries - {name})[name := c] == s.entries[name := c];
  }

  /** Named constraints added one after another with `add_constraint`, stopping at the first that raises. */
  function AddEach(s: Store, nSegments: nat, items: seq<(string, Constraint)>): (Store, Outcome<Error>)
    decreases |items|
  {
    if items == [] then (s, Pass)
    else
      var prev := AddEach(s, nSegments, items[..|items| - 1]);
      var item := items[|items| - 1];
      if prev.1.Fail? then prev else AddResult(prev.0, nSegments, item.0, item.1)
  }

  /** One more item: the step of the fold. */
  lemma AddEachSnoc(s: Store, nSegments: nat, items: seq<(string, Constraint)>, x: (string, Constraint))
    ensures AddEach(s, nSegments, items + [x]) ==
              if AddEach(s, nSegments, items).1.Fail? then AddEach(s, nSegments, items)
              else AddResult(AddEach(s, nSegments, items).0, nSegments, x.0, x.1)
  {
    assert (items + [x])[..|items|] == items;
  }

  /** After a failure further items change nothing. */
  lemma AddEachFailed(s: Store, nSegments: nat, items: seq<(string, Constraint)>, x: (string, Constraint))
    requires AddEach(s, nSegments, items).1.Fail?
    ensures AddEach(s, nSegments, items + [x]) == AddEach(s, nSegments, items)
  {
    assert (items + [x])[..|items|] == items;
  }

  lemma {:induction false} AddEachFailedRest(s: Store, nSegments: nat, items: seq<(string, Constraint)>, more: seq<(string, Constraint)>)
    requires AddEach(s, nSegments, items).1.Fail?
    ensures AddEach(s, nSegments, items + more) == AddEach(s, nSegments, items)
    decreases |more|
  {
    if more != [] {
      var init := more[..|more| - 1];
      AddEachFailedRest(s, nSegments, items, init);
      assert items + more == (items + init) + [more[|more| - 1]];
      AddEachFailed(s, nSegments, items + init, more[|more| - 1]);
    } else {
      assert items + more == items;
    }
  }

  function ItemNames(items: seq<(string, Constraint)>): (r: seq<string>)
    ensures |r| == |items| && forall t | 0 <= t < |items| :: r[t] == items[t].0
  {
    seq(|items|, t requires 0 <= t < |items| => items[t].0)
  }

  /** A fresh item with a row of the right length is appended by the fold. */
  lemma FreshStep(s: Store, nSegments: nat, init: seq<(string, Constraint)>, last: (string, Constraint))
    requires AddEach(s, nSegments, init).1 == Pass
    requires last.0 !in AddEach(s, nSegments, init).0.entries && |last.1.row| == nSegments
    ensures AddEach(s, nSegments, init + [last]) == (AddEach(s, nSegments, init).0.Insert(last.0, last.1), Pass)
  {
    AddEachSnoc(s, nSegments, init, last);
  }

  /**
   * Items with new, pairwise different names and rows of the right length are
   * all added: the names are appended in order and the old entries kept.
   */
  lemma {:induction false} AddEachFresh(s: Store, nSegments: nat, items: seq<(string, Constraint)>)
    requires s.Valid() && Distinct(ItemNames(items))
    requires forall t | 0 <= t < |items| :: items[t].0 !in s.entries && |items[t].1.row| == nSegments
    ensures var r := AddEach(s, nSegments, items);
      && r.1 == Pass && r.0.Valid()
      && r.0.names == s.names + ItemNames(items)
      && (forall n | n in s.entries :: r.0.entries[n] == s.entries[n])
      && (forall t | 0 <= t < |items| :: r.0.entries[items[t].0] == items[t].1)
    decreases |items|
  {
    if items != [] {
      var init, last := items[..|items| - 1], items[|items| - 1];
      ItemsSnoc(items);
      DistinctSnoc(ItemNames(init), last.0);
      AddEachFresh(s, nSegments, init);
      var u := AddEach(s, nSegments, init).0;
      assert last.0 !in u.names by {
        assert last.0 !in s.names && last.0 !in ItemNames(init);
      }
      InsertValid(u, last.0, last.1);
      FreshStep(s, nSegments, init, last);
      var r := AddEach(s, nSegments, items);
      forall t | 0 <= t < |init|
        ensures r.0.entries[items[t].0] == items[t].1
      {
        assert items[t] == init[t] && ItemNames(init)[t] in ItemNames(init);
      }
    }
  }

  /** A non-empty item list is its prefix and its last item, and so are its names. */
  lemma ItemsSnoc(items: seq<(string, Constraint)>)
    requires items != []
    ensures items == items[..|items| - 1] + [items[|items| - 1]]
    ensures ItemNames(items) == ItemNames(items[..|items| - 1]) + [items[|items| - 1].0]
  {
  }

  lemma DistinctSnoc(names: seq<string>, x: string)
    requires Distinct(names + [x])
    ensures Distinct(names) && x !in names
  {
    var all := names + [x];
    forall a, b | 0 <= a < b < |names| ensures names[a] != names[b] {
      assert names[a] == all[a] && names[b] == all[b];
    }
    forall a | 0 <= a < |names| ensures names[a] != x {
      assert names[a] == all[a] && x == all[|names|];
    }
  }

  // ---------------------------------------------------------------------------
  // Segment pins (wireframe.py:461-637)

  function PinName(k: nat, implicit: bool): string
  {
    if implicit then ImplicitSegmentName(k) else SegmentName(k)
  }

  function PinType(implicit: bool): string
  {
    if implicit then ImplicitSegmentType else SegmentType
  }

  /** The constraint `x[k] == 0` that pins segment k. */
  function Pin(nSegments: nat, k: nat, implicit: bool): Constraint
    requires k < nSegments
  {
    Constraint(PinType(implicit), UnitRow(nSegments, k), 0.0)
  }

  predicate InRange(ks: seq<int>, nSegments: nat)
  {
    forall t | 0 <= t < |ks| :: 0 <= ks[t] < nSegments
  }

  /** One step of `set_segments_free`: drop `segment_k`, or else `implicit_segment_k`. */
  function FreeOne(s: Store, k: nat): Store
  {
    if SegmentName(k) in s.entries then s.Delete(SegmentName(k))
    else if ImplicitSegmentName(k) in s.entries then s.Delete(ImplicitSegmentName(k))
    else s
  }

  function FreeEach(s: Store, ks: seq<nat>): Store
    decreases |ks|
  {
    if ks == [] then s else FreeOne(FreeEach(s, ks[..|ks| - 1]), ks[|ks| - 1])
  }

  /** The pinning loop of `add_segment_constraints`: it stops at the first name already stored. */
  function PinEach(s: Store, nSegments: nat, ks: seq<nat>, implicit: bool): (Store, Outcome<Error>)
    requires forall t | 0 <= t < |ks| :: ks[t] < nSegments
    decreases |ks|
  {
    if ks == [] then (s, Pass)
    else
      var prev := PinEach(s, nSegments, ks[..|ks| - 1], implicit);
      var k := ks[|ks| - 1];
      if prev.1.Fail? then prev else AddResult(prev.0, nSegments, PinName(k, implicit), Pin(nSegments, k, implicit))
  }

  /** The loop of `remove_segment_constraints`: it stops at the first missing pin. */
  function UnpinEach(s: Store, ks: seq<nat>, implicit: bool): (Store, Outcome<Error>)
    decreases |ks|
  {
    if ks == [] then (s, Pass)
    else
      var prev := UnpinEach(s, ks[..|ks| - 1], implicit);
      if prev.1.Fail? then prev
      else match RemoveConstraint(prev.0, PinName(ks[|ks| - 1], implicit))
        case Ok(t) => (t, Pass)
        case Err(e) => (prev.0, Fail(e))
  }

  /** Once one pin name was already stored, the remaining ids change nothing. */
  lemma {:induction false} PinEachStops(s: Store, nSegments: nat, ks: seq<nat>, implicit: bool, t: nat)
    requires forall i | 0 <= i < |ks| :: ks[i] < nSegments
    requires t <= |ks| && PinEach(s, nSegments, ks[..t], implicit).1.Fail?
    ensures PinEach(s, nSegments, ks, implicit) == PinEach(s, nSegments, ks[..t], implicit)
    decreases |ks|
  {
    if t < |ks| {
      var init := ks[..|ks| - 1];
      assert init[..t] == ks[..t];
      PinEachStops(s, nSegments, init, implicit, t);
    } else {
      assert ks[..t] == ks;
    }
  }

  /** Once one pin was missing, the remaining ids change nothing. */
  lemma {:induction false} UnpinEachStops(s: Store, ks: seq<nat>, implicit: bool, t: nat)
    requires t <= |ks| && UnpinEach(s, ks[..t], implicit).1.Fail?
    ensures UnpinEach(s, ks, implicit) == UnpinEach(s, ks[..t], implicit)
    decreases |ks|
  {
    if t < |ks| {
      var init := ks[..|ks| - 1];
      assert init[..t] == ks[..t];
      UnpinEachStops(s, init, implicit, t);
    } else {
      assert ks[..t] == ks;
    }
  }

  predicate IsPinType(kind: string)
  {
    kind == SegmentType || kind == ImplicitSegmentType
  }

  /** The loop of `free_all_segments` over a snapshot of the keys. */
  function DropPins(s: Store, keys: seq<string>): Store
    decreases |keys|
  {
    if keys == [] then s
    else
      var t := DropPins(s, keys[..|keys| - 1]);
      var n := keys[|keys| - 1];
      if n in t.entries && IsPinType(t.entries[n].kind) then t.Delete(n) else t
  }

  /** At most one of the two pins of segment k is stored, as the pin methods keep it. */
  predicate AtMostOnePin(s: Store, k: nat)
  {
    !(SegmentName(k) in s.entries && ImplicitSegmentName(k) in s.entries)
  }

  predicate IsPinOf(n: string, ks: seq<nat>)
  {
    exists t | 0 <= t < |ks| :: n == SegmentName(ks[t]) || n == ImplicitSegmentName(ks[t])
  }

  lemma FreeOneSpec(s: Store, k: nat)
    requires s.Valid()
    ensures var t := FreeOne(s, k);
      && t.Valid()
      && (forall n | n in t.entries :: n in s.entries && t.entries[n] == s.entries[n])
      && (forall n | n in s.entries && n != SegmentName(k) && n != ImplicitSegmentName(k) :: n in t.entries)
      && (AtMostOnePin(s, k) ==> SegmentName(k) !in t.entries && ImplicitSegmentName(k) !in t.entries)
  {
    if SegmentName(k) in s.entries {
      DeleteValid(s, SegmentName(k));
    } else if ImplicitSegmentName(k) in s.entries {
      DeleteValid(s, ImplicitSegmentName(k));
    }
  }

  /**
   * `set_segments_free` only removes pins of the listed segments, and every
   * listed segment that had at most one pin is left with none.
   */
  lemma {:induction false} FreeEachSpec(s: Store, ks: seq<nat>)
    requires s.Valid()
    ensures var t := FreeEach(s, ks);
      && t.Valid()
      && (forall n | n in t.entries :: n in s.entries && t.entries[n] == s.entries[n])
      && (forall n | n in s.entries && !IsPinOf(n, ks) :: n in t.entries)
      && (forall i | 0 <= i < |ks| && AtMostOnePin(s, ks[i]) ::
            SegmentName(ks[i]) !in t.entries && ImplicitSegmentName(ks[i]) !in t.entries)
    decreases |ks|
  {
    if ks != [] {
      var init, k := ks[..|ks| - 1], ks[|ks| - 1];
      FreeEachSpec(s, init);
      var u := FreeEach(s, init);
      FreeOneSpec(u, k);
      var t := FreeEach(s, ks);
      forall n | n in s.entries && !IsPinOf(n, ks)
        ensures n in t.entries
      {
        assert forall i | 0 <= i < |init| :: init[i] == ks[i];
        assert n != SegmentName(ks[|ks| - 1]) && n != ImplicitSegmentName(ks[|ks| - 1]);
      }
      forall i | 0 <= i < |ks| && AtMostOnePin(s, ks[i])
        ensures SegmentName(ks[i]) !in t.entries && ImplicitSegmentName(ks[i]) !in t.entries
      {
        if i < |ks| - 1 {
          assert init[i] == ks[i];
        }
      }
    }
  }

  predicate DistinctIds(ks: seq<nat>)
  {
    forall a, b | 0 <= a < b < |ks| :: ks[a] != ks[b]
  }

  /** The names `add_segment_constraints` gives the pins of ks, in order. */
  function PinNames(ks: seq<nat>, implicit: bool): (r: seq<string>)
    ensures |r| == |ks|
    decreases |ks|
  {
    if ks == [] then [] else PinNames(ks[..|ks| - 1], implicit) + [PinName(ks[|ks| - 1], implicit)]
  }

  lemma {:induction false} PinNamesAt(ks: seq<nat>, implicit: bool, i: nat)
    requires i < |ks|
    ensures PinNames(ks, implicit)[i] == PinName(ks[i], implicit)
    decreases |ks|
  {
    if i < |ks| - 1 {
      PinNamesAt(ks[..|ks| - 1], implicit, i);
    }
  }

  /** Pin names of distinct segments are distinct. */
  lemma PinNameNotEarlier(ks: seq<nat>, implicit: bool)
    requires DistinctIds(ks) && |ks| > 0
    ensures PinName(ks[|ks| - 1], implicit) !in PinNames(ks[..|ks| - 1], implicit)
  {
    var init, k := ks[..|ks| - 1], ks[|ks| - 1];
    if PinName(k, implicit) in PinNames(init, implicit) {
      var i :| 0 <= i < |init| && PinNames(init, implicit)[i] == PinName(k, implicit);
      PinNamesAt(init, implicit, i);
      NamesDistinct(init[i], k);
      assert false;
    }
  }

  /**
   * Pinning distinct segments none of which has that pin yet succeeds and
   * appends exactly their pins, in order, at the end of the store.
   */
  lemma {:induction false} PinEachAppends(s: Store, nSegments: nat, ks: seq<nat>, implicit: bool)
    requires s.Valid() && DistinctIds(ks)
    requires forall i | 0 <= i < |ks| :: ks[i] < nSegments && PinName(ks[i], implicit) !in s.entries
    ensures var r := PinEach(s, nSegments, ks, implicit);
      && r.1 == Pass && r.0.Valid()
      && r.0.names == s.names + PinNames(ks, implicit)
      && (forall n | n in s.entries :: r.0.entries[n] == s.entries[n])
    decreases |ks|
  {
    if ks != [] {
      var init, k := ks[..|ks| - 1], ks[|ks| - 1];
      assert DistinctIds(init);
      PinEachAppends(s, nSegments, init, implicit);
      var u := PinEach(s, nSegments, init, implicit).0;
      PinNameNotEarlier(ks, implicit);
      assert PinName(k, implicit) !in u.entries;
      InsertValid(u, PinName(k, implicit), Pin(nSegments, k, implicit));
    }
  }

  /** Each pinned segment ends up with its pin constraint. */
  lemma {:induction false} PinEachStores(s: Store, nSegments: nat, ks: seq<nat>, implicit: bool, i: nat)
    requires s.Valid() && DistinctIds(ks) && i < |ks|
    requires forall j | 0 <= j < |ks| :: ks[j] < nSegments && PinName(ks[j], implicit) !in s.entries
    ensures var r := PinEach(s, nSegments, ks, implicit).0;
      PinName(ks[i], implicit) in r.entries && r.entries[PinName(ks[i], implicit)] == Pin(nSegments, ks[i], implicit)
    decreases |ks|
  {
    var init, k := ks[..|ks| - 1], ks[|ks| - 1];
    assert DistinctIds(init);
    PinEachAppends(s, nSegments, init, implicit);
    PinNameNotEarlier(ks, implicit);
    if i < |ks| - 1 {
      PinEachStores(s, nSegments, init, implicit, i);
      PinNamesAt(init, implicit, i);
      assert PinName(ks[i], implicit) in PinNames(init, implicit);
    }
  }

  // ---------------------------------------------------------------------------
  // constrained_segments / free_segments (wireframe.py:674-733)

  /** Which ids `constrained_segments` returns: its `include` argument. */
  datatype Include = All | Explicit | Implicit

  /** `[int(key.split('_')[part]) for key of the given type]`, in key order; the first bad key raises. */
  function PinIds(names: seq<string>, entries: map<string, Constraint>, kind: string, part: nat): Result<seq<nat>, Error>
    requires forall n | n in names :: n in entries
    decreases |names|
  {
    if names == [] then Ok([])
    else
      match PinIds(names[..|names| - 1], entries, kind, part)
      case Err(e) => Err(e)
      case Ok(ids) =>
        var n := names[|names| - 1];
        if entries[n].kind != kind then Ok(ids)
        else match NamePart(n, part)
          case None => Err(BadSegmentName(n))
          case Some(k) => Ok(ids + [k])
  }

  /** Both id lists are always computed, so a bad key of either type raises whatever `which` asks for. */
  function ConstrainedIds(s: Store, which: Include): Result<seq<nat>, Error>
    requires s.Valid()
  {
    match PinIds(s.names, s.entries, SegmentType, 1)
    case Err(e) => Err(e)
    case Ok(expl) =>
      match PinIds(s.names, s.entries, ImplicitSegmentType, 2)
      case Err(e) => Err(e)
      case Ok(impl) => Ok(match which case Explicit => expl case Implicit => impl case All => expl + impl)
  }

  /** The ascending ids below n that are not in cs. */
  function Below(n: nat, cs: set<nat>): seq<nat>
  {
    if n == 0 then [] else Below(n - 1, cs) + (if n - 1 in cs then [] else [n - 1])
  }

  /** Below lists every id under n outside cs, each once, in increasing order. */
  lemma {:induction false} BelowSpec(n: nat, cs: set<nat>)
    ensures forall k: nat :: k in Below(n, cs) <==> k < n && k !in cs
    ensures forall a, b | 0 <= a < b < |Below(n, cs)| :: Below(n, cs)[a] < Below(n, cs)[b]
  {
    if n > 0 {
      BelowSpec(n - 1, cs);
      var prev := Below(n - 1, cs);
      assert forall a | 0 <= a < |prev| :: prev[a] < n - 1 by {
        forall a | 0 <= a < |prev| ensures prev[a] < n - 1 {
          assert prev[a] in prev;
        }
      }
    }
  }

  /** `free_segments`: the ids not constrained, ascending; an id past the mask raises IndexError. */
  function FreeIds(s: Store, nSegments: nat): Result<seq<nat>, Error>
    requires s.Valid()
  {
    match ConstrainedIds(s, All)
    case Err(e) => Err(e)
    case Ok(ids) =>
      if forall t | 0 <= t < |ids| :: ids[t] < nSegments then Ok(Below(nSegments, set t | t in ids))
      else Err(SegmentIndexError)
  }

  /** Reading ids fails only on a key whose id part is not a number. */
  lemma {:induction false} PinIdsErrors(names: seq<string>, entries: map<string, Constraint>, kind: string, part: nat)
    requires forall n | n in names :: n in entries
    ensures PinIds(names, entries, kind, part).Err? ==> PinIds(names, entries, kind, part).error.BadSegmentName?
    decreases |names|
  {
    if names != [] {
      PinIdsErrors(names[..|names| - 1], entries, kind, part);
    }
  }

  /** Every free id is a segment of the grid. */
  lemma FreeIdsBelow(s: Store, nSegments: nat)
    requires s.Valid() && FreeIds(s, nSegments).Ok?
    ensures forall k | 0 <= k < |FreeIds(s, nSegments).value| :: FreeIds(s, nSegments).value[k] < nSegments
  {
    var cs := set t | t in ConstrainedIds(s, All).value;
    BelowSpec(nSegments, cs);
    forall k | 0 <= k < |FreeIds(s, nSegments).value| ensures FreeIds(s, nSegments).value[k] < nSegments {
      assert FreeIds(s, nSegments).value[k] in Below(nSegments, cs);
    }
  }

  /** `free_segments` fails only on an unreadable key or an id past the grid. */
  lemma FreeIdsErrors(s: Store, nSegments: nat)
    requires s.Valid()
    ensures FreeIds(s, nSegments).Err? ==>
              FreeIds(s, nSegments).error.BadSegmentName? || FreeIds(s, nSegments).error == SegmentIndexError
  {
    PinIdsErrors(s.names, s.entries, SegmentType, 1);
    PinIdsErrors(s.names, s.entries, ImplicitSegmentType, 2);
  }

  /** Every stored key of the type contributes its id. */
  lemma {:induction false} PinIdsComplete(names: seq<string>, entries: map<string, Constraint>, kind: string, part: nat, i: nat)
    requires forall n | n in names :: n in entries
    requires i < |names| && entries[names[i]].kind == kind && PinIds(names, entries, kind, part).Ok?
    ensures NamePart(names[i], part).Some? && NamePart(names[i], part).value in PinIds(names, entries, kind, part).value
    decreases |names|
  {
    if i < |names| - 1 {
      PinIdsComplete(names[..|names| - 1], entries, kind, part, i);
    }
  }

  /** Every id comes from a stored key of the type. */
  lemma {:induction false} PinIdsSound(names: seq<string>, entries: map<string, Constraint>, kind: string, part: nat, k: nat)
    requires forall n | n in names :: n in entries
    requires PinIds(names, entries, kind, part).Ok? && k in PinIds(names, entries, kind, part).value
    ensures exists i | 0 <= i < |names| :: entries[names[i]].kind == kind && NamePart(names[i], part) == Some(k)
    decreases |names|
  {
    var init := names[..|names| - 1];
    var ids := PinIds(init, entries, kind, part).value;
    if k in ids {
      PinIdsSound(init, entries, kind, part, k);
      var i :| 0 <= i < |init| && entries[init[i]].kind == kind && NamePart(init[i], part) == Some(k);
      assert names[i] == init[i];
    } else {
      assert entries[names[|names| - 1]].kind == kind && NamePart(names[|names| - 1], part) == Some(k);
    }
  }

  /** A key is well typed when pin names carry pin types and pin types carry pin names of real segments. */
  ghost predicate WellTyped(n: string, kind: string, nSegments: nat)
  {
    && (kind == SegmentType ==> exists k: nat | k < nSegments :: n == SegmentName(k))
    && (kind == ImplicitSegmentType ==> exists k: nat | k < nSegments :: n == ImplicitSegmentName(k))
    && (forall k: nat :: n == SegmentName(k) ==> kind == SegmentType)
    && (forall k: nat :: n == ImplicitSegmentName(k) ==> kind == ImplicitSegmentType)
  }

  /**
   * The shape the wireframe's own methods give the store: every key well
   * typed. User calls of `add_constraint` can break it.
   */
  ghost predicate Canonical(s: Store, nSegments: nat)
  {
    s.Valid() && forall n | n in s.entries :: WellTyped(n, s.entries[n].kind, nSegments)
  }

  /** In a canonical store every pin key parses, to a real segment id. */
  lemma {:induction false} CanonicalPinIds(names: seq<string>, entries: map<string, Constraint>, nSegments: nat, implicit: bool)
    requires forall n | n in names :: n in entries && WellTyped(n, entries[n].kind, nSegments)
    ensures var r := PinIds(names, entries, PinType(implicit), if implicit then 2 else 1);
      r.Ok? && forall t | 0 <= t < |r.value| :: r.value[t] < nSegments
    decreases |names|
  {
    if names != [] {
      CanonicalPinIds(names[..|names| - 1], entries, nSegments, implicit);
      var n := names[|names| - 1];
      if entries[n].kind == PinType(implicit) {
        if implicit {
          var k: nat :| k < nSegments && n == ImplicitSegmentName(k);
          SegmentNamesParse(k);
        } else {
          var k: nat :| k < nSegments && n == SegmentName(k);
          SegmentNamesParse(k);
        }
      }
    }
  }

  /** In a canonical store the id lists parse and stay inside the mask. */
  lemma CanonicalIds(s: Store, nSegments: nat)
    requires Canonical(s, nSegments)
    ensures ConstrainedIds(s, All).Ok? && FreeIds(s, nSegments).Ok?
    ensures ConstrainedIds(s, All).value ==
              PinIds(s.names, s.entries, SegmentType, 1).value + PinIds(s.names, s.entries, ImplicitSegmentType, 2).value
    ensures forall k: nat :: k in FreeIds(s, nSegments).value <==> k < nSegments && k !in ConstrainedIds(s, All).value
  {
    CanonicalPinIds(s.names, s.entries, nSegments, false);
    CanonicalPinIds(s.names, s.entries, nSegments, true);
    var expl := PinIds(s.names, s.entries, SegmentType, 1).value;
    var impl := PinIds(s.names, s.entries, ImplicitSegmentType, 2).value;
    var ids := expl + impl;
    forall t | 0 <= t < |ids| ensures ids[t] < nSegments {
      if t >= |expl| { assert ids[t] == impl[t - |expl|]; }
    }
    BelowSpec(nSegments, set t | t in ids);
  }

  /** A stored pin name makes its segment constrained. */
  lemma PinnedNotFree(s: Store, nSegments: nat, k: nat, implicit: bool)
    requires Canonical(s, nSegments) && PinName(k, implicit) in s.entries
    ensures FreeIds(s, nSegments).Ok? && k !in FreeIds(s, nSegments).value
  {
    CanonicalIds(s, nSegments);
    var i :| 0 <= i < |s.names| && s.names[i] == PinName(k, implicit);
    SegmentNamesParse(k);
    if implicit {
      PinIdsComplete(s.names, s.entries, ImplicitSegmentType, 2, i);
    } else {
      PinIdsComplete(s.names, s.entries, SegmentType, 1, i);
    }
  }

  /** A constrained id has one of its pin names stored. */
  lemma ConstrainedHasPin(s: Store, nSegments: nat, k: nat)
    requires Canonical(s, nSegments)
    ensures ConstrainedIds(s, All).Ok?
    ensures k in ConstrainedIds(s, All).value ==> SegmentName(k) in s.entries || ImplicitSegmentName(k) in s.entries
  {
    CanonicalIds(s, nSegments);
    var expl := PinIds(s.names, s.entries, SegmentType, 1).value;
    var impl := PinIds(s.names, s.entries, ImplicitSegmentType, 2).value;
    if k in expl {
      PinIdHasName(s, nSegments, k, false);
    } else if k in impl {
      PinIdHasName(s, nSegments, k, true);
    }
  }

  /** An id read from a pin key of a canonical store is the id of that key's pin name. */
  lemma PinIdHasName(s: Store, nSegments: nat, k: nat, implicit: bool)
    requires Canonical(s, nSegments)
    requires PinIds(s.names, s.entries, PinType(implicit), if implicit then 2 else 1).Ok?
    requires k in PinIds(s.names, s.entries, PinType(implicit), if implicit then 2 else 1).value
    ensures PinName(k, implicit) in s.entries
  {
    var part := if implicit then 2 else 1;
    PinIdsSound(s.names, s.entries, PinType(implicit), part, k);
    var i :| 0 <= i < |s.names| && s.entries[s.names[i]].kind == PinType(implicit) && NamePart(s.names[i], part) == Some(k);
    assert s.names[i] in s.entries;
    if implicit {
      var m: nat :| m < nSegments && s.names[i] == ImplicitSegmentName(m);
      SegmentNamesParse(m);
    } else {
      var m: nat :| m < nSegments && s.names[i] == SegmentName(m);
      SegmentNamesParse(m);
    }
  }

  /**
   * In a canonical store a segment is free by type exactly when neither of its
   * pin names is stored, so the name tests of `update_implicit_constraints`
   * and `find_inactive_nodes` agree with `free_segments`.
   */
  lemma CanonicalFree(s: Store, nSegments: nat, k: nat)
    requires Canonical(s, nSegments) && k < nSegments
    ensures FreeIds(s, nSegments).Ok?
    ensures k in FreeIds(s, nSegments).value <==>
              SegmentName(k) !in s.entries && ImplicitSegmentName(k) !in s.entries
  {
    CanonicalIds(s, nSegments);
    ConstrainedHasPin(s, nSegments, k);
    if SegmentName(k) in s.entries {
      PinnedNotFree(s, nSegments, k, false);
    } else if ImplicitSegmentName(k) in s.entries {
      PinnedNotFree(s, nSegments, k, true);
    }
  }

  // ---------------------------------------------------------------------------
  // The pin methods keep the store canonical

  lemma CanonicalInsertPin(s: Store, nSegments: nat, k: nat, implicit: bool)
    requires Canonical(s, nSegments) && k < nSegments && PinName(k, implicit) !in s.entries
    ensures Canonical(s.Insert(PinName(k, implicit), Pin(nSegments, k, implicit)), nSegments)
  {
    InsertValid(s, PinName(k, implicit), Pin(nSegments, k, implicit));
    forall m: nat ensures (PinName(k, implicit) == SegmentName(m) ==> !implicit)
                       && (PinName(k, implicit) == ImplicitSegmentName(m) ==> implicit) {
      NamesDistinct(k, m);
      NamesDistinct(m, k);
    }
  }

  /** A constraint whose name is no pin name and whose type is no pin type keeps the store canonical. */
  lemma CanonicalInsertOther(s: Store, nSegments: nat, name: string, c: Constraint)
    requires Canonical(s, nSegments) && name !in s.entries && !IsPinType(c.kind)
    requires forall m: nat :: name != SegmentName(m) && name != ImplicitSegmentName(m)
    ensures Canonical(s.Insert(name, c), nSegments)
  {
    InsertValid(s, name, c);
  }

  lemma CanonicalDelete(s: Store, nSegments: nat, name: string)
    requires Canonical(s, nSegments)
    ensures Canonical(s.Delete(name), nSegments)
  {
    DeleteValid(s, name);
  }

  lemma {:induction false} CanonicalPinEach(s: Store, nSegments: nat, ks: seq<nat>, implicit: bool)
    requires Canonical(s, nSegments) && forall t | 0 <= t < |ks| :: ks[t] < nSegments
    ensures Canonical(PinEach(s, nSegments, ks, implicit).0, nSegments)
    decreases |ks|
  {
    if ks != [] {
      var init, k := ks[..|ks| - 1], ks[|ks| - 1];
      CanonicalPinEach(s, nSegments, init, implicit);
      var u := PinEach(s, nSegments, init, implicit);
      if u.1.Pass? && PinName(k, implicit) !in u.0.entries {
        CanonicalInsertPin(u.0, nSegments, k, implicit);
      }
    }
  }

  lemma {:induction false} CanonicalUnpinEach(s: Store, nSegments: nat, ks: seq<nat>, implicit: bool)
    requires Canonical(s, nSegments)
    ensures Canonical(UnpinEach(s, ks, implicit).0, nSegments)
    decreases |ks|
  {
    if ks != [] {
      CanonicalUnpinEach(s, nSegments, ks[..|ks| - 1], implicit);
      var u := UnpinEach(s, ks[..|ks| - 1], implicit).0;
      CanonicalDelete(u, nSegments, PinName(ks[|ks| - 1], implicit));
    }
  }

  lemma {:induction false} CanonicalFreeEach(s: Store, nSegments: nat, ks: seq<nat>)
    requires Canonical(s, nSegments)
    ensures Canonical(FreeEach(s, ks), nSegments)
    decreases |ks|
  {
    if ks != [] {
      CanonicalFreeEach(s, nSegments, ks[..|ks| - 1]);
      var u := FreeEach(s, ks[..|ks| - 1]);
      CanonicalDelete(u, nSegments, SegmentName(ks[|ks| - 1]));
      CanonicalDelete(u, nSegments, ImplicitSegmentName(ks[|ks| - 1]));
    }
  }

  /** `free_all_segments` leaves a canonical store with no pin at all. */
  lemma {:induction false} DropPinsSpec(s: Store, nSegments: nat, keys: seq<string>)
    requires Canonical(s, nSegments)
    ensures var t := DropPins(s, keys);
      && Canonical(t, nSegments)
      && (forall n | n in t.entries :: n in s.entries && t.entries[n] == s.entries[n])
      && (forall n | n in s.entries && n !in keys :: n in t.entries)
      && (forall n | n in keys :: n in t.entries ==> !IsPinType(t.entries[n].kind))
    decreases |keys|
  {
    if keys != [] {
      var init, n := keys[..|keys| - 1], keys[|keys| - 1];
      DropPinsSpec(s, nSegments, init);
      var u := DropPins(s, init);
      CanonicalDelete(u, nSegments, n);
      assert forall m | m in keys :: m in init || m == n;
    }
  }

  /** Freeing segments none of whose pins is stored changes nothing. */
  lemma {:induction false} FreeEachUnpinned(s: Store, ks: seq<nat>)
    requires forall i | 0 <= i < |ks| :: SegmentName(ks[i]) !in s.entries && ImplicitSegmentName(ks[i]) !in s.entries
    ensures FreeEach(s, ks) == s
    decreases |ks|
  {
    if ks != [] {
      FreeEachUnpinned(s, ks[..|ks| - 1]);
    }
  }

  /**
   * `set_segments_constrained` on distinct segments, each with at most one
   * pin: the second freeing inside `add_segment_constraints` finds nothing
   * left, the pinning succeeds, every listed segment ends up with exactly
   * the requested pin, and every other constraint is kept.
   */
  lemma ConstrainSegments(s: Store, nSegments: nat, ks: seq<nat>, implicit: bool)
    requires s.Valid() && DistinctIds(ks)
    requires forall i | 0 <= i < |ks| :: ks[i] < nSegments && AtMostOnePin(s, ks[i])
    ensures FreeEach(FreeEach(s, ks), ks) == FreeEach(s, ks)
    ensures PinEach(FreeEach(s, ks), nSegments, ks, implicit).1 == Pass
    ensures forall i | 0 <= i < |ks| ::
      && PinName(ks[i], implicit) in PinEach(FreeEach(s, ks), nSegments, ks, implicit).0.entries
      && PinEach(FreeEach(s, ks), nSegments, ks, implicit).0.entries[PinName(ks[i], implicit)] == Pin(nSegments, ks[i], implicit)
      && PinName(ks[i], !implicit) !in PinEach(FreeEach(s, ks), nSegments, ks, implicit).0.entries
    ensures forall n | n in s.entries && !IsPinOf(n, ks) ::
      n in PinEach(FreeEach(s, ks), nSegments, ks, implicit).0.entries
      && PinEach(FreeEach(s, ks), nSegments, ks, implicit).0.entries[n] == s.entries[n]
  {
    FreeEachSpec(s, ks);
    var u := FreeEach(s, ks);
    FreeEachUnpinned(u, ks);
    PinEachAppends(u, nSegments, ks, implicit);
    var r := PinEach(u, nSegments, ks, implicit).0;
    forall i | 0 <= i < |ks|
      ensures PinName(ks[i], implicit) in r.entries && r.entries[PinName(ks[i], implicit)] == Pin(nSegments, ks[i], implicit)
      ensures PinName(ks[i], !implicit) !in r.entries
    {
      PinEachStores(u, nSegments, ks, implicit, i);
      if PinName(ks[i], !implicit) in PinNames(ks, implicit) {
        var j :| 0 <= j < |ks| && PinNames(ks, implicit)[j] == PinName(ks[i], !implicit);
        PinNamesAt(ks, implicit, j);
        NamesDistinct(ks[i], ks[j]);
        NamesDistinct(ks[j], ks[i]);
      }
      assert PinName(ks[i], !implicit) !in r.names;
    }
  }
}
