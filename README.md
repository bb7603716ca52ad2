# Toroidal wireframe: a verified model

This project models the `ToroidalWireframe` class of simsopt and its
`windowpane_wireframe` factory. A wireframe is a grid of current-carrying
segments on a toroidal surface:

- `nPhi` columns of toroidal segments span one half field period.
- `nTheta` rows of poloidal segments complete the grid.
- The currents are subject to linear equality constraints. These are
  Kirchhoff's current law at every node, constraints on the net poloidal and
  toroidal currents, and "pins" that force single segments to carry no
  current.

The wireframe keeps:

- the segment key tables (which segment joins which nodes);
- the node connectivity table and the cell tables;
- an insertion-ordered dictionary of named constraints;
- the vector of segment currents.

Its operations:

- add, remove and replace constraints;
- pin and free segments;
- propagate implicit pins to the segments left isolated by explicit ones;
- assemble the constraint matrices, removing redundant and pinned rows;
- find the nodes whose continuity constraint is inactive;
- check a current vector against the constraints;
- add the currents of planar toroidal-field coils;
- list the free cells.

`windowpane_wireframe` builds a wireframe and pins every segment that is not
part of a regular array of rectangular "windowpane" coils.

Modules:

- **Wrappers**: `Option`, `Result` and `Outcome`.
- **Names**: the decimal constraint names (`segment_k`, `implicit_segment_k`,
  `continuity_node_k`, ...) and how ids are parsed back out of them.
- **Grid**: the segment and node numbering, the key tables, the connectivity
  table and the cell tables. These are pure functions with their lemmas.
- **Rows**: dense constraint rows and their dot products.
- **Constraints**: the constraint store as a value. It holds the names in
  insertion order and a map from names to rows. The module also gives the
  add, remove, pin and free operations as folds.
- **Propagation**: the implicit-pin closure of `update_implicit_constraints`.
- **Export**: matrix assembly, the inactive-node mask, the residual check and
  free cells.
- **Circuit**: the continuity constraints, the current constraints and the
  TF-coil currents, with their physical meaning.
- **Wireframe**: the class `ToroidalWireframe`. Its array tables are filled by
  loops, its constraint store is a field, and each method is proved against
  the functions above.
- **Windowpane**: the factory, its index loops, and the geometry of the coils
  they select.
- **WindowpaneFaults**: concrete inputs on which the factory goes wrong as
  written.

Floating-point currents and tolerances are modelled as mathematical reals.

## Model

All source paths are in `src/simsopt/geo/wireframe.py`.

| member | source | states |
|---|---|---|
| Names.ParseNat | src/simsopt/geo/wireframe.py:702 | on the names the wireframe itself writes (`segment_%d` of a non-negative id), `int()` of the number part succeeds exactly on a non-empty ASCII digit string |
| Names.ParseDecimal | src/simsopt/geo/wireframe.py:498-499 | parsing the `%d` rendering of an id gives the id back |
| Names.DecimalInjective | src/simsopt/geo/wireframe.py:498-499 | distinct ids are rendered as distinct strings |
| Names.SplitJoin | src/simsopt/geo/wireframe.py:702 | `str.split` of a concatenation across a separator splits each side separately |
| Names.SplitNoSeparator | src/simsopt/geo/wireframe.py:702 | a string without the separator splits into itself alone |
| Names.SegmentNamesParse | src/simsopt/geo/wireframe.py:700-706 | the second `_` field of `segment_k` and the third of `implicit_segment_k` parse back to k |
| Names.NamesDistinct | src/simsopt/geo/wireframe.py:497-499 | segment, implicit and continuity names never collide with each other or with the two current-constraint names, and each family is injective in its id |
| Grid.NodeIndex | src/simsopt/geo/wireframe.py:78 | the node index of a grid point is below the number of nodes |
| Grid.NodeAtNode | src/simsopt/geo/wireframe.py:78 | the node index inverts back to the grid point |
| Grid.UnflattenFlat | src/simsopt/geo/wireframe.py:78 | row-major unflattening inverts the flat index |
| Grid.KeySentinels | src/simsopt/geo/wireframe.py:118-151 | a key is -1 exactly at the last toroidal plane or at the upper half of a symmetry plane; every other key is a segment id of its kind |
| Grid.PositionOf | src/simsopt/geo/wireframe.py:114-151 | every segment id is the key of some grid position; it is toroidal exactly when it is below nTorSegments |
| Grid.PositionOfKey | src/simsopt/geo/wireframe.py:118-151 | the position recovered from a key is the position that produced it |
| Grid.KeysInjective | src/simsopt/geo/wireframe.py:118-151 | two positions with the same non-sentinel key are the same position |
| Grid.SegmentEnds | src/simsopt/geo/wireframe.py:154-157 | both ends of every segment are nodes of the grid |
| Grid.SegmentEndsMatchKeys | src/simsopt/geo/wireframe.py:118-157 | the segment a key names runs from that node to its neighbour in the key's direction |
| Grid.ConnectedValid | src/simsopt/geo/wireframe.py:184-234 | toroidal slots of the connectivity table hold toroidal ids, poloidal slots hold poloidal ids, and no slot is -1 |
| Grid.ConnectedOfNodeValid | src/simsopt/geo/wireframe.py:184-234 | every slot of every node's row is a segment id |
| Grid.InteriorOrientation | src/simsopt/geo/wireframe.py:206-213 | at an interior node, incoming segments end at the node and outgoing ones start there |
| Grid.LinksTouchNode | src/simsopt/geo/wireframe.py:184-234 | each linked segment touches the node or the node's mirror across a symmetry plane |
| Grid.EndsListSegment | src/simsopt/geo/wireframe.py:184-234 | conversely, every segment appears in the `connected_segments` rows of both of its end nodes |
| Grid.CellTablesValid | src/simsopt/geo/wireframe.py:236-299 | the two sides along the toroidal direction are toroidal ids, the other two are poloidal ids, and every neighbour is a cell index |
| Grid.NeighborsShareBorder | src/simsopt/geo/wireframe.py:263-293 | the neighbour in each direction has the cell as its neighbour in the opposite direction, and both list the same border segment |
| Grid.CellCorners | src/simsopt/geo/wireframe.py:255-296 | the four sides of a cell join its four corner nodes |
| Grid.CellLowerSide | src/simsopt/geo/wireframe.py:255-260 | the poloidal side of a cell on its own plane joins its two corners there, read in mirror on the upper half of the first symmetry plane |
| Grid.CellUpperSide | src/simsopt/geo/wireframe.py:255-260 | the poloidal side of a cell on the next plane joins its two corners there, read in mirror on the upper half of the last symmetry plane |
| Grid.CellAtCell | src/simsopt/geo/wireframe.py:248 | the cell index inverts back to the cell position |
| Rows.Zeros | src/simsopt/geo/wireframe.py:160 | a zero row has the requested length and only zero entries |
| Rows.DotZeros | src/simsopt/geo/wireframe.py:160 | any row dotted with zero currents gives zero |
| Rows.DotPlus | src/simsopt/geo/wireframe.py:1119-1120 | the dot product is linear in the currents |
| Rows.DotUnit | src/simsopt/geo/wireframe.py:495-496 | a pin row reads exactly the current of its segment |
| Rows.ContinuityDot | src/simsopt/geo/wireframe.py:766-768 | a continuity row reads outflow minus inflow at the node |
| Rows.SliceOnesAt | src/simsopt/geo/wireframe.py:376-379 | the slice assignment puts ones exactly on the selected positions |
| Rows.DotIndicator | src/simsopt/geo/wireframe.py:376-379 | an indicator row sums the currents of the selected segments |
| Rows.DotVanishes | src/simsopt/geo/wireframe.py:1066 | a row that is zero wherever the currents are non-zero gives zero |
| Rows.ContinuityVanishes | src/simsopt/geo/wireframe.py:766-770 | a continuity row gives zero when every linked segment carries no current |
| Constraints.WithoutDistinct | src/simsopt/geo/wireframe.py:345 | removing a name from a list without duplicates keeps it without duplicates |
| Constraints.InsertValid | src/simsopt/geo/wireframe.py:337-340 | inserting a fresh name keeps the store well-formed: names are distinct and match the map keys |
| Constraints.DeleteValid | src/simsopt/geo/wireframe.py:345 | deleting keeps the store well-formed |
| Constraints.RowsOfMembers | src/simsopt/geo/wireframe.py:851-860 | the assembled rows are exactly the rows of the stored constraints that are not excluded |
| Constraints.RowsOfCount | src/simsopt/geo/wireframe.py:851-860 | with nothing excluded there is one assembled row per stored constraint |
| Constraints.InsertAppends | src/simsopt/geo/wireframe.py:337-340 | an insert appends the new row at the end of the insertion order |
| Constraints.DeleteExcludes | src/simsopt/geo/wireframe.py:345 | after a delete the rows are those of the old store without that name, in the same order |
| Constraints.AddConstraint | src/simsopt/geo/wireframe.py:306-340 | succeeds exactly when the name is new and the row has nSegments entries; otherwise the duplicate-name error comes first and the store is unchanged |
| Constraints.RemoveConstraint | src/simsopt/geo/wireframe.py:342-345 | succeeds exactly when the name is stored |
| Constraints.RemoveEachStops | src/simsopt/geo/wireframe.py:346-348 | removing a list stops at the first missing name; earlier removals stay |
| Constraints.RemoveAfterAdd | src/simsopt/geo/wireframe.py:306-345 | removing a constraint just added restores the previous store |
| Constraints.Replace | src/simsopt/geo/wireframe.py:405-410 | setting a current constraint leaves it as the last entry with the new row; the other entries are unchanged |
| Constraints.ReplacePresent | src/simsopt/geo/wireframe.py:405-410 | replacing a stored constraint keeps the store well-formed and changes only that entry |
| Constraints.AddEachFailedRest | src/simsopt/geo/wireframe.py:330-331 | once an add in a sequence fails, the rest of the sequence changes nothing |
| Constraints.AddEachFresh | src/simsopt/geo/wireframe.py:306-340 | adding constraints with distinct fresh names and right-sized rows succeeds and stores them all |
| Constraints.PinEachStops | src/simsopt/geo/wireframe.py:482-499 | pinning stops at the first out-of-range id or already-used name |
| Constraints.UnpinEachStops | src/simsopt/geo/wireframe.py:528-532 | unpinning stops at the first missing pin |
| Constraints.FreeOneSpec | src/simsopt/geo/wireframe.py:618-622 | freeing a segment keeps every other constraint unchanged, adds nothing, and removes the segment's pin when it has at most one |
| Constraints.FreeEachSpec | src/simsopt/geo/wireframe.py:609-622 | freeing a list keeps every constraint that is not one of their pins, adds nothing, and removes each listed segment's pin |
| Constraints.PinNamesAt | src/simsopt/geo/wireframe.py:497-499 | the pin names of a list of ids are those ids' names, in order |
| Constraints.PinNameNotEarlier | src/simsopt/geo/wireframe.py:497-499 | the name of an id later in a duplicate-free list is not among the earlier names |
| Constraints.PinEachAppends | src/simsopt/geo/wireframe.py:493-499 | pinning distinct fresh in-range ids appends their pins in order |
| Constraints.PinEachStores | src/simsopt/geo/wireframe.py:493-499 | after pinning, each id's pin row reads exactly that segment |
| Constraints.BelowSpec | src/simsopt/geo/wireframe.py:731-733 | the complement list holds exactly the ids below n that are not listed, in increasing order |
| Constraints.PinIdsErrors | src/simsopt/geo/wireframe.py:700-706 | reading pin ids fails only on a pin name whose id part is not a number |
| Constraints.FreeIdsBelow | src/simsopt/geo/wireframe.py:718-733 | every free id is a segment id |
| Constraints.FreeIdsErrors | src/simsopt/geo/wireframe.py:718-733 | listing free segments fails only on a malformed pin name or an out-of-range pinned id |
| Constraints.PinIdsComplete | src/simsopt/geo/wireframe.py:700-706 | every stored pin contributes its id |
| Constraints.PinIdsSound | src/simsopt/geo/wireframe.py:700-706 | every id listed comes from a stored pin |
| Constraints.CanonicalIds | src/simsopt/geo/wireframe.py:700-716 | in a canonical store, an id is constrained exactly when its explicit or implicit pin is stored |
| Constraints.PinnedNotFree | src/simsopt/geo/wireframe.py:718-733 | a pinned segment is never listed as free |
| Constraints.ConstrainedHasPin | src/simsopt/geo/wireframe.py:700-716 | a constrained id has a pin stored under its name |
| Constraints.CanonicalFree | src/simsopt/geo/wireframe.py:718-733 | in a canonical store, a segment is free exactly when neither of its pins is stored |
| Constraints.CanonicalPinEach | src/simsopt/geo/wireframe.py:493-499 | pinning keeps the store canonical |
| Constraints.CanonicalUnpinEach | src/simsopt/geo/wireframe.py:528-532 | unpinning keeps the store canonical |
| Constraints.CanonicalFreeEach | src/simsopt/geo/wireframe.py:609-622 | freeing keeps the store canonical |
| Constraints.DropPinsSpec | src/simsopt/geo/wireframe.py:632-635 | freeing all segments keeps every non-pin constraint unchanged, removes every pin, and leaves a canonical store |
| Constraints.FreeEachUnpinned | src/simsopt/geo/wireframe.py:609-622 | freeing segments that have no pin changes nothing |
| Constraints.ConstrainSegments | src/simsopt/geo/wireframe.py:551-554 | after free-then-pin, each listed segment has exactly one pin, of the requested kind, and every other constraint is untouched; freeing twice is freeing once |
| Propagation.LinksInRange | src/simsopt/geo/wireframe.py:662-668 | the segments linked at a node are segment ids |
| Propagation.ImplicatedBelowSpec | src/simsopt/geo/wireframe.py:660 | a node is implicated exactly when one free segment meets it |
| Propagation.PinIfFreeAdds | src/simsopt/geo/wireframe.py:665-668 | adds at most the segment's implicit pin, and afterwards the segment is pinned |
| Propagation.PinSlotsAdds | src/simsopt/geo/wireframe.py:662-668 | pinning a node's links only adds implicit pins of free segments |
| Propagation.PinSlotsPinned | src/simsopt/geo/wireframe.py:662-668 | afterwards every link of the node is pinned |
| Propagation.ImplicitPassAdds | src/simsopt/geo/wireframe.py:647-668 | one pass only appends implicit pins of segments that were free |
| Propagation.ImplicitPassPins | src/simsopt/geo/wireframe.py:647-668 | after one pass every link of each implicated node is pinned |
| Propagation.GrowthShrinks | src/simsopt/geo/wireframe.py:647-670 | every added pin reduces the number of free segments (the loop's termination measure) |
| Propagation.AddsCanonical | src/simsopt/geo/wireframe.py:662-668 | adding implicit pins of free segments keeps a store canonical |
| Propagation.PassProgress | src/simsopt/geo/wireframe.py:647-670 | when a node is implicated, a pass pins at least one new segment |
| Propagation.GrowsWhenPinned | src/simsopt/geo/wireframe.py:647-670 | a step that pins a segment that was free makes the store grow |
| Propagation.ClosureAdds | src/simsopt/geo/wireframe.py:639-672 | the update only adds implicit pins of segments that were free |
| Propagation.ClosureSettled | src/simsopt/geo/wireframe.py:639-672 | when the update succeeds, no node is left with exactly one free segment |
| Propagation.ClosureErrors | src/simsopt/geo/wireframe.py:639-672 | the update fails only on a malformed pin name, an out-of-range pinned id, or a pass that pins nothing |
| Propagation.ClosureReadable | src/simsopt/geo/wireframe.py:639-672 | the update never fails with a loop-search error; on success the free segments can be listed and no node is implicated |
| Propagation.ClosureIdempotent | src/simsopt/geo/wireframe.py:639-672 | running the update again changes nothing |
| Propagation.ClosureCanonical | src/simsopt/geo/wireframe.py:639-672 | on a canonical store the update always succeeds and keeps the store canonical |
| Export.WhereSpec | src/simsopt/geo/wireframe.py:733 | `np.where` lists exactly the true positions, in increasing order |
| Export.InactiveMask | src/simsopt/geo/wireframe.py:881-947 | a node is marked inactive exactly when no free segment meets it or it was chosen as redundant |
| Export.InactiveNodesSpec | src/simsopt/geo/wireframe.py:881-947 | the inactive nodes are exactly the marked nodes, in increasing order |
| Export.BranchAt | src/simsopt/geo/wireframe.py:925-941 | two untaken free segments at a node, plus the taken segment the walk stands on, make three free segments meeting there: a branch point |
| Export.WalkBranch | src/simsopt/geo/wireframe.py:915-941 | when the walk on segment s counts two or more free segments at the end it takes from, that end node has three free segments, s included |
| Export.BranchGrows | src/simsopt/geo/wireframe.py:894-945 | a branch point among a subset of the free segments is one among the whole set |
| Export.FreeCountPositive | src/simsopt/geo/wireframe.py:881-886 | a node touched by a free segment has a positive free count |
| Export.InactiveContinuityRedundant | src/simsopt/geo/wireframe.py:881-891 | at a node with no free segment, the continuity row vanishes on every current vector that is zero on pinned segments |
| Export.PinnedLinkIdle | src/simsopt/geo/wireframe.py:881-891 | a link of a node with no free segment carries no current in a vector that is zero on pinned segments |
| Export.Matrix | src/simsopt/geo/wireframe.py:851-868 | the matrix rows are the constraint rows, in order |
| Export.RowsOfSized | src/simsopt/geo/wireframe.py:851-860 | every assembled row has nSegments entries |
| Export.ExclusionNeverAdds | src/simsopt/geo/wireframe.py:836-860 | excluding names never gives more rows than excluding none |
| Export.WithinMeans | src/simsopt/geo/wireframe.py:1065-1069 | the matrix residual test holds exactly when every constraint is met row by row |
| Export.NonPositiveTolRejects | src/simsopt/geo/wireframe.py:1065-1069 | with a tolerance of zero or less, any non-empty system is reported violated |
| Export.CheckMeaning | src/simsopt/geo/wireframe.py:1059-1069 | the check answers true exactly when every stored constraint is met within the tolerance |
| Export.CheckSound | src/simsopt/geo/wireframe.py:1059-1069 | currents that pass the row-by-row test meet every stored constraint |
| Export.CheckComplete | src/simsopt/geo/wireframe.py:1059-1069 | currents that meet every stored constraint pass the row-by-row test |
| Export.FreshAcceptsTf | src/simsopt/geo/wireframe.py:1111-1122 | a fresh wireframe accepts the TF-coil currents for any positive tolerance |
| Export.ZeroTolRejectsExactCurrents | src/simsopt/geo/wireframe.py:57-58 | zero currents meet every continuity constraint exactly, yet a tolerance of 0 reports them violated |
| Export.BorderHitsSnoc | src/simsopt/geo/wireframe.py:998-1001 | the tally of a cell grows by the number of its sides each further constrained id hits |
| Export.BorderHitsZero | src/simsopt/geo/wireframe.py:998-1001 | a cell has a zero tally exactly when none of its sides is constrained |
| Export.FreeCellMask | src/simsopt/geo/wireframe.py:998-1006 | a cell is marked free exactly when none of its four sides is constrained |
| Export.FreeCellMeaning | src/simsopt/geo/wireframe.py:983-1009 | the free cells are exactly the cells whose four sides are all free |
| Circuit.ActiveNodes | src/simsopt/geo/wireframe.py:742-753 | every listed node is on the grid, is given a continuity constraint, and comes before the loop position |
| Circuit.ItemsStep | src/simsopt/geo/wireframe.py:742-759 | the continuity items grow by one node per inner step of the loop |
| Circuit.ContinuityUpToFold | src/simsopt/geo/wireframe.py:742-759 | the nested loop adds the same constraints as one fold over all active nodes |
| Circuit.ContinuityUpToFailed | src/simsopt/geo/wireframe.py:742-759 | once an add fails, the loop changes nothing more |
| Circuit.RowCount | src/simsopt/geo/wireframe.py:742-753 | the active nodes up to (i, j) are those before plane i plus the active ones of plane i below row j |
| Circuit.RowsCount | src/simsopt/geo/wireframe.py:742-753 | before plane i > 0 there are nTheta/2 - 1 + (i - 1)·nTheta active nodes |
| Circuit.ContinuityCount | src/simsopt/geo/wireframe.py:162 | there are nTorSegments - 2 continuity constraints, as the comment on `nConstraints` says |
| Circuit.ActiveNodesIncreasing | src/simsopt/geo/wireframe.py:742-743 | the loop visits nodes in increasing (plane, row) order |
| Circuit.ContinuityNamesDistinct | src/simsopt/geo/wireframe.py:764 | the continuity names of distinct nodes differ |
| Circuit.ContinuityStoreBuilt | src/simsopt/geo/wireframe.py:171-172 | adding the continuity constraints to an empty store never fails, and stores each one under its name in loop order |
| Circuit.ContinuityCanonical | src/simsopt/geo/wireframe.py:171-172 | the initial store is canonical |
| Circuit.ContinuityHasNoPins | src/simsopt/geo/wireframe.py:171-172 | the initial store holds no pins |
| Circuit.ActiveSlotsDistinct | src/simsopt/geo/wireframe.py:745-759 | the four links of an active node are distinct segments |
| Circuit.ContinuityIsKirchhoff | src/simsopt/geo/wireframe.py:761-770 | each continuity row says that inflow equals outflow at its node |
| Circuit.ZeroCurrentsSatisfy | src/simsopt/geo/wireframe.py:160 | zero currents meet a constraint with zero right-hand side exactly when the tolerance is positive |
| Circuit.FreeCountSnoc | src/simsopt/geo/wireframe.py:652-656 | the tally of a node grows by one for each free segment that meets it |
| Circuit.FreeCountCounts | src/simsopt/geo/wireframe.py:652-656 | the tally counts the free segments among the node's links |
| Circuit.TfIndexBound | src/simsopt/geo/wireframe.py:1095-1096 | each TF-coil column index is below nPhi |
| Circuit.TfSliceIsRing | src/simsopt/geo/wireframe.py:1101-1109 | the slice set for the coil at column t is exactly the poloidal segments of plane t |
| Circuit.TfSliceBounds | src/simsopt/geo/wireframe.py:1101-1109 | each coil's slice is a contiguous run of segment ids ending at most at nSegments |
| Circuit.TorOffCoil | src/simsopt/geo/wireframe.py:1098-1109 | no toroidal segment carries TF-coil current |
| Circuit.RingOnCoil | src/simsopt/geo/wireframe.py:1098-1109 | two poloidal segments of one plane are both on a TF coil or both off |
| Circuit.ActiveLinksOnRing | src/simsopt/geo/wireframe.py:761-770 | an active node's toroidal links are toroidal segments and its poloidal links are poloidal segments of its own plane |
| Circuit.SliceSameRing | src/simsopt/geo/wireframe.py:1101-1109 | two poloidal segments of one plane are both in a coil's slice or both out |
| Circuit.TfCurrentsContinuous | src/simsopt/geo/wireframe.py:1101-1112 | the TF-coil currents meet every continuity constraint exactly |
| Circuit.ContinuityAcceptsTf | src/simsopt/geo/wireframe.py:1111-1122 | the initial constraints, taken in order, are all met by the TF-coil currents |
| Circuit.StoredRowMeetsTf | src/simsopt/geo/wireframe.py:1111-1122 | each stored continuity constraint is met by the TF-coil currents for any positive tolerance |
| Circuit.ToroidalRowAt | src/simsopt/geo/wireframe.py:427-428 | the toroidal current row is 1 exactly on the toroidal segments leaving the first plane |
| Circuit.PoloidalRowStrides | src/simsopt/geo/wireframe.py:369-379 | the poloidal current row is 1 exactly at the single index and the two strided slices the source sets |
| Circuit.MidplaneStrides | src/simsopt/geo/wireframe.py:366-379 | those positions are exactly the poloidal segments crossing the inboard midplane |
| Circuit.PoloidalRowAt | src/simsopt/geo/wireframe.py:366-379 | the poloidal current row is 1 exactly on the segments crossing the inboard midplane |
| Circuit.PoloidalConstant | src/simsopt/geo/wireframe.py:366-367 | the right-hand side times nfp is the requested total poloidal current |
| Circuit.PoloidalCurrentConstraint | src/simsopt/geo/wireframe.py:366-382 | the constraint has the poloidal-current kind, a full-length row, and a right-hand side that is the current per field period |
| Circuit.ToroidalCurrentConstraint | src/simsopt/geo/wireframe.py:427-431 | the constraint has the toroidal-current kind, a full-length row, and the requested current as right-hand side |
| Circuit.PoloidalCurrentMeaning | src/simsopt/geo/wireframe.py:350-382 | the row dotted with the currents is the sum of the currents crossing the inboard midplane |
| Circuit.ToroidalCurrentMeaning | src/simsopt/geo/wireframe.py:412-431 | the row dotted with the currents is the sum of the currents on the toroidal segments leaving the first plane |
| Circuit.MidplaneMask | src/simsopt/geo/wireframe.py:366-379 | marks exactly the segments crossing the inboard midplane |
| Circuit.PlaneMask | src/simsopt/geo/wireframe.py:427-428 | marks exactly the toroidal segments leaving the first plane |
| Wireframe.AsIds | src/simsopt/geo/wireframe.py:482-484 | non-negative integer ids pass unchanged, one for one |
| Wireframe.ToroidalWireframe.SegmentSigns | src/simsopt/geo/wireframe.py:81-111 | one sign per half period, 2·nfp in all, +1 and -1 alternating |
| Wireframe.ToroidalWireframe.SetConnectedRow | src/simsopt/geo/wireframe.py:186-232 | fills one row of the connectivity table with the links of its nodes |
| Wireframe.ToroidalWireframe.DetermineConnectedSegments | src/simsopt/geo/wireframe.py:174-234 | the connectivity table holds the links of every node as Grid defines them |
| Wireframe.ToroidalWireframe.SetKeyRow | src/simsopt/geo/wireframe.py:243-261 | fills one row of the cell-key table |
| Wireframe.ToroidalWireframe.SetNeighborRow | src/simsopt/geo/wireframe.py:263-296 | fills one row of the cell-neighbour table |
| Wireframe.ToroidalWireframe.SetUpCellKey | src/simsopt/geo/wireframe.py:236-299 | both cell tables match Grid's definitions |
| Wireframe.ToroidalWireframe.constructor | src/simsopt/geo/wireframe.py:38-172 | a new wireframe has valid tables, zero currents, exactly the continuity constraints and the given tolerance |
| Wireframe.ToroidalWireframe.New | src/simsopt/geo/wireframe.py:48-59 | corrected: fails exactly on odd dimensions (checked first), a non-positive tolerance or an empty grid; otherwise gives a valid fresh wireframe with that tolerance |
| Wireframe.ToroidalWireframe.NewAsWritten | src/simsopt/geo/wireframe.py:48-59 | as written: fails exactly on odd dimensions (checked first) or an empty grid; any tolerance, zero or negative included, is stored |
| Wireframe.ToroidalWireframe.AddConstraint | src/simsopt/geo/wireframe.py:306-340 | the store becomes that of Constraints.AddConstraint, with the same outcome; the implicit-update flag is unchanged |
| Wireframe.ToroidalWireframe.AddContinuityConstraint | src/simsopt/geo/wireframe.py:761-770 | adds the Kirchhoff row of one node |
| Wireframe.ToroidalWireframe.ContinuityNode | src/simsopt/geo/wireframe.py:755-759 | one inner step of the continuity loop, as in Circuit.ContinuityUpTo |
| Wireframe.ToroidalWireframe.ContinuityRing | src/simsopt/geo/wireframe.py:742-759 | the inner loop over one toroidal plane |
| Wireframe.ToroidalWireframe.AddContinuityConstraints | src/simsopt/geo/wireframe.py:735-759 | the store becomes the fold of all continuity constraints over the old store |
| Wireframe.ToroidalWireframe.RemoveConstraint | src/simsopt/geo/wireframe.py:342-345 | removes a stored name or reports it missing |
| Wireframe.ToroidalWireframe.RemoveConstraints | src/simsopt/geo/wireframe.py:346-348 | removes a list of names, stopping at the first missing one |
| Wireframe.ToroidalWireframe.AddPoloidalCurrentConstraint | src/simsopt/geo/wireframe.py:350-382 | adds the poloidal current constraint |
| Wireframe.ToroidalWireframe.RemovePoloidalCurrentConstraint | src/simsopt/geo/wireframe.py:384-386 | removes it or reports it missing |
| Wireframe.ToroidalWireframe.SetPoloidalCurrent | src/simsopt/geo/wireframe.py:388-410 | replaces the constraint if present, otherwise adds it |
| Wireframe.ToroidalWireframe.AddToroidalCurrentConstraint | src/simsopt/geo/wireframe.py:412-431 | adds the toroidal current constraint |
| Wireframe.ToroidalWireframe.RemoveToroidalCurrentConstraint | src/simsopt/geo/wireframe.py:433-435 | removes it or reports it missing |
| Wireframe.ToroidalWireframe.SetToroidalCurrent | src/simsopt/geo/wireframe.py:437-459 | replaces the constraint if present, otherwise adds it |
| Wireframe.ToroidalWireframe.SetSegmentsFree | src/simsopt/geo/wireframe.py:599-624 | the store becomes Constraints.FreeEach's; no freed segment keeps a pin |
| Wireframe.ToroidalWireframe.AddSegmentConstraints | src/simsopt/geo/wireframe.py:461-501 | rejects any negative or out-of-range id before changing anything; explicit pins first free their segments; then pins in order as Constraints.PinEach does |
| Wireframe.ToroidalWireframe.PinSegments | src/simsopt/geo/wireframe.py:493-499 | the pinning loop computes Constraints.PinEach |
| Wireframe.ToroidalWireframe.RemoveSegmentConstraints | src/simsopt/geo/wireframe.py:503-534 | unpins in order, stopping at the first missing pin |
| Wireframe.ToroidalWireframe.SetSegmentsConstrained | src/simsopt/geo/wireframe.py:536-554 | frees the segments then pins them; each gets exactly one pin of the requested kind |
| Wireframe.ToroidalWireframe.FreeAllSegments | src/simsopt/geo/wireframe.py:626-637 | drops every pin and keeps every other constraint in order |
| Wireframe.ToroidalWireframe.TallySegment | src/simsopt/geo/wireframe.py:652-656 | adds one free segment to the tallies of the nodes it touches |
| Wireframe.ToroidalWireframe.Tally | src/simsopt/geo/wireframe.py:652-656 | each node's tally is its number of free links |
| Wireframe.ToroidalWireframe.LoneNodes | src/simsopt/geo/wireframe.py:660 | lists exactly the implicated nodes |
| Wireframe.ToroidalWireframe.PinNode | src/simsopt/geo/wireframe.py:662-668 | pins the free links of one node, as Propagation.PinSlots does |
| Wireframe.ToroidalWireframe.PinNodes | src/simsopt/geo/wireframe.py:661-668 | one pass of the update, as Propagation.ImplicitPass does |
| Wireframe.ToroidalWireframe.UpdateImplicitConstraints | src/simsopt/geo/wireframe.py:639-672 | the store and outcome are Propagation.ImplicitClosure's; the flag is set on success |
| Wireframe.ToroidalWireframe.ConstrainedSegments | src/simsopt/geo/wireframe.py:674-716 | lists the pinned ids of the requested kind, after the update when it is asked for |
| Wireframe.ToroidalWireframe.FreeSegments | src/simsopt/geo/wireframe.py:718-733 | lists the ids with no pin, after the update when it is asked for |
| Wireframe.ToroidalWireframe.TakeFree | src/simsopt/geo/wireframe.py:925-936 | removes a node's free links from the pool and counts them |
| Wireframe.ToroidalWireframe.TakeAtEnds | src/simsopt/geo/wireframe.py:915-943 | removes exactly the free links of the first end of the segment, or, when it has none, of the second end; the count is their number and the next segment is one of them |
| Wireframe.ToroidalWireframe.WalkLoop | src/simsopt/geo/wireframe.py:908-945 | walks one loop of free segments, marking at most one stored continuity node; it fails only when three of the free segments, the popped one included, meet at one node |
| Wireframe.ToroidalWireframe.UnpinnedSegments | src/simsopt/geo/wireframe.py:898-899 | the pool is exactly the segments with no pin |
| Wireframe.ToroidalWireframe.LoopRepresentatives | src/simsopt/geo/wireframe.py:894-945 | marks at most one stored continuity node per free segment; fails only when three unpinned segments meet at one node, so with no such node it passes |
| Wireframe.ToroidalWireframe.SelectInactive | src/simsopt/geo/wireframe.py:947 | lists exactly the nodes of Export.InactiveNodes |
| Wireframe.ToroidalWireframe.InactiveOf | src/simsopt/geo/wireframe.py:881-947 | the inactive nodes of a free set, or the lone-segment error, or the loop error only when three unpinned segments meet at a node |
| Wireframe.ToroidalWireframe.FindInactiveNodes | src/simsopt/geo/wireframe.py:870-947 | updates if needed, then gives Export.InactiveNodes of the free segments; the loop error only when three unpinned segments meet at a node |
| Wireframe.ToroidalWireframe.Refresh | src/simsopt/geo/wireframe.py:831-832 | runs the update only when the flag is clear |
| Wireframe.ToroidalWireframe.ConstraintMatrices | src/simsopt/geo/wireframe.py:773-868 | the matrices hold the rows of the refreshed store minus the excluded ones, restricted to free columns when asked |
| Wireframe.ToroidalWireframe.SelectRows | src/simsopt/geo/wireframe.py:849-860 | the right-hand sides are those of the kept constraints, and the matrix is their rows (cut to the free columns when asked) |
| Wireframe.ToroidalWireframe.Residuals | src/simsopt/geo/wireframe.py:1059-1069 | the check loop gives Export.CheckResult |
| Wireframe.ToroidalWireframe.CheckConstraintsAsWritten | src/simsopt/geo/wireframe.py:1011-1069 | as written: any tolerance is accepted, and a non-positive one, given or stored, can never give true |
| Wireframe.ToroidalWireframe.CheckConstraints | src/simsopt/geo/wireframe.py:1011-1069 | true exactly when every stored constraint is met within the tolerance; a non-positive tolerance, given or stored, is rejected without refreshing |
| Wireframe.ToroidalWireframe.TfCoilCurrents | src/simsopt/geo/wireframe.py:1094-1109 | computes Circuit.TfCurrents |
| Wireframe.ToroidalWireframe.AddTfcoilCurrents | src/simsopt/geo/wireframe.py:1071-1122 | bad coil counts are rejected; otherwise the implicit pins are refreshed and the currents are committed exactly when the result meets every constraint; through the as-written check, a tolerance of zero or less never commits |
| Wireframe.ToroidalWireframe.CellTally | src/simsopt/geo/wireframe.py:998-1001 | adds one constrained segment to the tallies of its cells |
| Wireframe.ToroidalWireframe.CellCounts | src/simsopt/geo/wireframe.py:998-1001 | each cell's tally counts its constrained sides |
| Wireframe.ToroidalWireframe.WhereTrue | src/simsopt/geo/wireframe.py:1004 | lists the true positions, as Export.Where does |
| Wireframe.ToroidalWireframe.GetFreeCells | src/simsopt/geo/wireframe.py:983-1009 | the free cells as a mask or as indices, after the update |
| Windowpane.LayoutOf | src/simsopt/geo/wireframe.py:1482-1483 | odd sizes or gaps are rejected first, then negative values; otherwise the layout holds exactly the given values |
| Windowpane.EvenProduct | src/simsopt/geo/wireframe.py:1485-1486 | a product with an even factor is even |
| Windowpane.LayoutGrid | src/simsopt/geo/wireframe.py:1485-1489 | nPhi and nTheta are even, and form a valid grid when both are non-zero |
| Windowpane.ArangeSpec | src/simsopt/geo/wireframe.py:1506 | `np.arange` lists start, start + step, ... below stop |
| Windowpane.ArangeCount | src/simsopt/geo/wireframe.py:1506 | `np.arange` has the expected number of entries |
| Windowpane.ArangeLength | src/simsopt/geo/wireframe.py:1506 | from an offset below one step up to count·step, `np.arange` has count entries |
| Windowpane.WrapRows | src/simsopt/geo/wireframe.py:1506-1507 | each shifted row is the row plus the shift, wrapped round nTheta |
| Windowpane.TorColumnSegments | src/simsopt/geo/wireframe.py:1500-1508 | the toroidal loop computes the toroidal coil segments |
| Windowpane.PolRowSegments | src/simsopt/geo/wireframe.py:1511-1523 | the poloidal loop computes the poloidal coil segments |
| Windowpane.CoilSegments | src/simsopt/geo/wireframe.py:1491-1523 | both loops together compute the coil ids |
| Windowpane.BottomRowsSpec | src/simsopt/geo/wireframe.py:1506 | there is one bottom edge per coil row, half a gap above the row's start and inside the grid |
| Windowpane.TorPartKeys | src/simsopt/geo/wireframe.py:1502-1508 | the toroidal ids are the keys of the coils' bottom and top edges in each column |
| Windowpane.InteriorKey | src/simsopt/geo/wireframe.py:1513-1517 | the source's poloidal offset is the key of a poloidal segment in an interior column |
| Windowpane.SidesInside | src/simsopt/geo/wireframe.py:1513-1517 | with a toroidal gap, both sides of a coil lie in interior columns |
| Windowpane.SideRowInside | src/simsopt/geo/wireframe.py:1519 | every side row lies inside the grid |
| Windowpane.PolPartAt | src/simsopt/geo/wireframe.py:1519-1521 | entry by entry, the side ids are offsets of the side rows |
| Windowpane.SideKeys | src/simsopt/geo/wireframe.py:1513-1521 | the side ids are keys of poloidal segments |
| Windowpane.PolPartKeys | src/simsopt/geo/wireframe.py:1513-1521 | the poloidal ids are the keys of the coils' left and right sides |
| Windowpane.TorCoilsInRange | src/simsopt/geo/wireframe.py:1500-1508 | every toroidal coil id is a segment id |
| Windowpane.PolCoilsInRange | src/simsopt/geo/wireframe.py:1511-1523 | with a toroidal gap, every poloidal coil id is a segment id |
| Windowpane.CoilIdsInRange | src/simsopt/geo/wireframe.py:1491-1527 | with a toroidal gap, every corrected coil id indexes the mask |
| Windowpane.TorCoilsUnwrapped | src/simsopt/geo/wireframe.py:1506-1507 | with a poloidal gap, the corrected toroidal ids equal those as written |
| Windowpane.CorrectionOnlyAtZeroPolGap | src/simsopt/geo/wireframe.py:1506-1507 | with a poloidal gap, the corrected ids equal the ids as written |
| Windowpane.Wrapped | src/simsopt/geo/wireframe.py:1527 | a valid numpy index selects an entry inside the array |
| Windowpane.UnusedSegments | src/simsopt/geo/wireframe.py:1526-1527 | an id outside numpy's index range is an IndexError; otherwise the mask is false exactly at the segments some coil id selects |
| Windowpane.HitInRange | src/simsopt/geo/wireframe.py:1527 | for in-range ids, an entry is selected exactly when it is listed |
| Windowpane.PinnedOutsideAppends | src/simsopt/geo/wireframe.py:1530 | pinning the unused segments appends their pins to the initial store |
| Windowpane.PinnedOutsideSpec | src/simsopt/geo/wireframe.py:1530 | afterwards the free segments are exactly those not in the pinned list |
| Windowpane.ConstrainOutside | src/simsopt/geo/wireframe.py:1525-1530 | after pinning, a segment is free exactly when a coil id selects it |
| Windowpane.Build | src/simsopt/geo/wireframe.py:1485-1532 | fails exactly on a non-positive tolerance (corrected variant only), an empty grid or an out-of-range coil id; otherwise the free segments are exactly the coil segments and the tolerance is stored |
| Windowpane.WindowpaneWireframeAsWritten | src/simsopt/geo/wireframe.py:1442-1532 | the factory as written: Build on the unwrapped ids with the as-written constructor, so an overrun index is an error and any tolerance is accepted |
| Windowpane.WindowpaneWireframe | src/simsopt/geo/wireframe.py:1442-1532 | the corrected factory succeeds exactly on a valid, non-empty layout with a toroidal gap; its free segments are exactly the coil segments |
| WindowpaneFaults.ZeroTorGapOverruns | src/simsopt/geo/wireframe.py:1511-1527 | with gap_tor = 0, a poloidal coil id is nSegments, which indexes past the mask |
| WindowpaneFaults.ZeroPolGapFreesGapSegment | src/simsopt/geo/wireframe.py:1500-1508 | with gap_pol = 0, a segment in the toroidal gap is left free and the top edge of the coil is not selected |

## Left out

- Surface geometry is not modelled. The model does not compute node
  coordinates, segment endpoints in space, the `gamma` of the surface or the
  stellarator-symmetry rotations (wireframe.py:61-111). The model takes
  `nfp` as a parameter, where the source reads `surface.nfp`. Only the grid
  topology and the segment signs are kept.
- Plotting, `constrain_colliding_segments`, the C++ helpers, the example
  scripts and the tests are not part of this model.
  - `constrain_colliding_segments` depends on a user-supplied geometric test
    of each segment. Its effect is a call of `set_segments_constrained`,
    which is modelled.
- Run-time type checks are not modelled, because the model's parameters are
  typed. These are the `isinstance` and integer checks (wireframe.py:40-49,
  1476-1480), numpy scalar-versus-array arguments and invalid strings for
  `include` or `form`.
  - A single id becomes a one-element list.
  - `include` and `form` are datatypes.
- Floating point is not modelled. Currents, tolerances and coil currents are
  exact reals. Rounding in the `floor` of the TF-coil columns is computed
  exactly.
- `get_cell_key` and `get_cell_neighbors` return the table arrays themselves.
  The tables are the class's `cellKey` and `cellNeighbors` fields, and
  Grid.CellTablesValid states what they hold.
- Partial updates are modelled as written. An error raised part-way through
  a loop of pins, unpins, removals or continuity adds keeps the changes
  already made.
- Wireframe.ToroidalWireframe.New rejects a grid with no cells (EmptyGrid),
  which the source does not check. It also rejects a non-positive tolerance;
  see Findings. NewAsWritten keeps the EmptyGrid check but stores any
  tolerance.
- Wireframe.ToroidalWireframe.constructor requires a non-empty grid, as New
  and NewAsWritten guarantee.
- Windowpane.LayoutOf rejects negative counts, sizes and gaps
  (NegativeWindowpaneSize). The source would pass them on to `np.arange` and
  indexing with unintended results.
- Propagation.ImplicitClosure stops with `Diverges` where a pass would pin
  nothing. The source would loop forever there. ClosureCanonical proves this
  cannot happen on a canonical store, which every wireframe method keeps.
- Wireframe.ToroidalWireframe.LoopRepresentatives does not model which
  element the source's `set.pop()` returns. Each loop starts from an
  arbitrary free segment, so the redundant nodes are bounded (at most one
  per free segment, each a stored continuity node) but not pinned down.
  For the same reason it does not promise the converse of its failure
  condition. Three unpinned segments meeting at a node need not make the
  search fail: a walk can take one of them at its other end, run into a dead
  end and stop, leaving the node with only two.
- Names.ParseNat accepts exactly non-empty ASCII digit strings. Python's
  `int()` also accepts a sign, surrounding whitespace, underscores between
  digits and non-ASCII decimal digits. A constraint the user adds with a
  name such as `segment_-1` and a segment-typed kind parses to -1 in the
  source, and `free_segments` then treats the last segment as pinned. The model
  refuses such a name with BadSegmentName. Names the wireframe writes itself
  are unaffected.
- Wireframe.ToroidalWireframe.FindInactiveNodes states the source's
  `assert` at wireframe.py:890 as the error LoneFreeSegment, reached only
  when the implicit update had already been flagged as done.

## Findings

| source | as written | input that shows it | evidently intended | confidence | as-written member | corrected member |
|---|---|---|---|---|---|---|
| src/simsopt/geo/wireframe.py:57-58 and 1052-1053 | `not np.isscalar(tol) and not tol > 0` never raises for a scalar, so a tolerance of 0 or less is accepted; the check `abs(residual) >= tol` then always fails | `constraint_tol = 0` with zero currents, which meet every constraint exactly, gives False | reject any tolerance that is not a positive scalar (`or` in place of `and`) | not executed | Wireframe.ToroidalWireframe.NewAsWritten, Wireframe.ToroidalWireframe.CheckConstraintsAsWritten, Wireframe.ToroidalWireframe.AddTfcoilCurrents, Windowpane.WindowpaneWireframeAsWritten, Export.ZeroTolRejectsExactCurrents | Wireframe.ToroidalWireframe.New, Wireframe.ToroidalWireframe.CheckConstraints, Windowpane.WindowpaneWireframe |
| src/simsopt/geo/wireframe.py:1513-1527 | with `gap_tor = 0`, `offs_left` moves a whole column back and half a column up | windowpane_wireframe(1, 1, 2, 2, 0, 2): the poloidal ids are [7, 8, 15, 16] on a grid of 16 segments, so id 16 overruns the mask and 7 is a toroidal segment | refuse a zero toroidal gap, since coil sides would then lie on the symmetry plane | not executed | Windowpane.WindowpaneWireframeAsWritten, WindowpaneFaults.ZeroTorGapOverruns | Windowpane.WindowpaneWireframe, Windowpane.CoilIdsInRange |
| src/simsopt/geo/wireframe.py:1506-1507 | with `gap_pol = 0` the top edge of the last coil row is at row nTheta; `inds_bot + size_pol` does not wrap it to row 0, so it selects row 0 of the next column | windowpane_wireframe(1, 1, 2, 2, 2, 0): id 6, a toroidal segment in the gap after the coil, is left free | wrap the top-edge row round the poloidal direction | not executed | Windowpane.WindowpaneWireframeAsWritten, WindowpaneFaults.ZeroPolGapFreesGapSegment | Windowpane.WindowpaneWireframe, Windowpane.TorPartKeys, Windowpane.CorrectionOnlyAtZeroPolGap |
