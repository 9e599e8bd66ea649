# ADC database layer: a verified model

ADC keeps several views of one binary in `src/db` and has to keep them consistent: containers of
fields addressed by key, a tree of segments that maps file offsets, virtual addresses and display
rows onto each other, loci that descend from an address to the innermost field, a cache of
displayed rows with a cursor over it, and namespaces. This project models these five parts in Dafny
and proves what they keep.

State that the program changes in place is a class whose methods carry the program's loops and
branches (`Database`, `Locus`, `Module`, `SegmentTable`, `DumpVisitor`, `NamesMgr`,
`CircularVector`, `TaskList`). Each method is proved equal to a specification function on values,
and the theorems are about these functions.

| file | contents |
|---|---|
| `Wrappers.dfy`, `FieldMap.dfy`, `TypeDb.dfy`, `Sizes.dfy` | sorted field maps with unique insertion and end markers; types and their containment graph; sizes, and what they depend on |
| `Containment.dfy`, `History.dfy` | the inclusion walk, `SetType`, and acyclicity over all runs of operations |
| `Relocation.dfy`, `Resize.dfy`, `RoundTrip.dfy`, `Sweep.dfy`, `Database.dfy` | moving fields between containers, sizes, growing and shrinking, absorbing labels |
| `Locus.dfy`, `LocusObject.dfy` | descent to the innermost field and the way back |
| `Geometry.dfy`, `Views.dfy`, `ModuleObject.dfy` | the section table, its inverse walks, views, addresses |
| `Segments.dfy`, `Coordinates.dfy` | creating nested segments, the walk from addresses to raw offsets, and its agreement with the section table |
| `RowCache.dfy`, `CursorObject.dfy` | the row cache filled on demand, and its cursor |
| `Naming.dfy`, `Namespaces.dfy`, `Scopes.dfy`, `BitFields.dfy`, `TaskQueue.dfy` | names, scopes, bit fields, the task queue |

## Where the code does not meet its promise

Each of these is kept as it is in the code; the named lemma gives the exact condition, or a concrete
state, or both.

- `SetType` and `CheckRelocEligability` compare types by identity, and their walk does not look
  behind a modifier (a constant or an alias). So an import or export wrapper of a structure, and a
  modifier of something that contains it, hide the structure. A step keeps containment acyclic
  exactly if nothing that hides the container is included in what it is given:
  `Containment.SetTypeAcyclicIff`, `Relocation.MovedAcyclicIff`. `History.HiddenRecursion` and
  `History.HiddenMove` have a state for each kind of wrapper and for a modifier.
- `SetStrucSize` without force compares the absolute end of one field with the relative size of the
  structure. A size above the last field's address is reached exactly if the two differ or the
  structure has that size already: `Resize.UnforcedSizeIff`. For a last field alone at its address
  the test is wrong exactly at a base other than zero (`Resize.LoneLastFieldIff`); where several
  fields share the last address it fails at base zero as well (`Resize.SharedLastAddress`).
- So growing a structure inside a segment and shrinking it back, which `SetFunctionEnd` does without
  force, restores the fields of both containers but not always the sizes: `RoundTrip.GrowThenShrink`
  says exactly when, for structures of known and of open size. `RoundTrip.UnforcedGrowthMisses` and
  `RoundTrip.UnforcedReturnMisses` give a state for either way; a procedure that ends in code is
  open, and comes back with a fixed size, forced or not: `RoundTrip.OpenSizeIsFixed`.
- `RelocateFields` puts an old end marker back only if the moved fields leave the target neither
  empty nor open, and relative to `base2`; the old size comes back exactly if the fields give it, or
  the marker returns and `base2` is the base of the target: `Sweep.OldEosRestoredIff`. A target
  left empty loses its size even at its own base: `Sweep.EmptiedAtBase`.
- Relocation inserts uniquely and ignores the result: nothing is lost exactly if the target
  addresses are distinct and free: `Relocation.TargetConserved`, `FieldMaps.InsertAllConserves`.
  Which fields are refused is in `FieldMaps.AcceptedIff`; `Relocation.TakenAddressLoses` has a field
  that ends up in neither container.
- The view size is trace plus oversize, and `R2D2` agrees with the section table, exactly if no
  terminal segment (that ends before the offset) is of open size: `Geometry.ViewSizeIff`,
  `Geometry.LocateExactIff`. An open segment usually leaves no trace; `Geometry.OpenSegmentMisplaces`
  has one at the start of a module.
- `viewOffsAt` adds up the own oversize of those direct subsegments that start below the address. It
  is exact if and only if no earlier subsegment holds nested oversize or an open terminal segment,
  or has oversize of its own and starts at the address itself: `SegmentViews.GapRowsAndAddresses`,
  with a state for each of the first two in `SegmentViews.GrowthHidden`.
- `MakeSegment` nests the raw block exactly if its arguments are sane; an open size, a zero size
  beyond the end of the block, an address below the base, or a sum that wraps around is accepted
  as well: `Segments.MadeLinkOkIff`, `Segments.InsaneAccepted`. `VA2FP` also accepts the address
  one past the end: `Segments.WalkIsCached`.
- The already-dumped test does not look at the span of the last cached group:
  `RowCache.BeginsIff`, `RowCache.LastSpanIgnored`.
- Forcing on an object the name it already has gives it a number: `Namespaces.OwnNameIsTaken`.
- The length prefix of a compound name takes no part in its key: `Naming.KeyOfCompound`,
  `Naming.KeysCollide`; a module separator inside a tag breaks decoding:
  `Naming.CompoundRoundTripIff`, `Naming.SeparatorInTag`.

## Model

| member | source | states |
|---|---|---|
| FieldMaps.InsertUniqueSorted | src/db/type_struc.cpp:861-900 | unique insertion keeps the field map strictly ordered, whether it inserts, replaces the end marker or is refused |
| FieldMaps.InsertUniqueFree | src/db/type_struc.cpp:861-900 | a free address takes the field; the other fields stay in place |
| FieldMaps.InsertRefusedIff | src/db/type_struc.cpp:861-902 | insertion is refused, and changes nothing, exactly if something other than the end marker has the address |
| FieldMaps.InsertUniqueMeans | src/db/type_struc.cpp:861-902 | otherwise the field is in and everything else stays, but for the marker whose address it took |
| FieldMaps.InsertAllConserves | src/db/anlzbin.cpp:1381 | inserting a list of fields one by one loses nothing if and only if their addresses are distinct and free |
| FieldMaps.AcceptedIff | src/db/anlzbin.cpp:1381 | of a list of fields exactly those are refused whose address is taken, by what was there or by an earlier one, and not by an end marker alone |
| FieldMaps.AcceptedCounts | src/db/anlzbin.cpp:1381 | what is typed or named stays, and is joined by exactly the accepted fields |
| TypeDb.AcyclicIffRanked | src/db/info_proj.cpp:2034-2047 | no type contains itself exactly if some numbering falls along every containment, the termination measure of sizes and walks |
| TypeDb.SkipArray | src/db/anlzbin.cpp:1290-1296 | ends on a non-array type at any nesting depth, no higher in the containment order |
| TypeDb.GroupSizeIs | src/db/type_struc.cpp:305-374 | the size of the last group of fields is the largest in it, each counting at least one byte, and open exactly if one of them is |
| TypeDb.GroupSize | src/db/type_struc.cpp:305-374 | the last group of fields counts at least one byte and at least every member seen so far, unless it is open |
| Sizes.SizeSame | src/db/type_struc.cpp:305-374 | a size depends only on what is contained; the fields of a contained segment do not matter |
| Sizes.SizeInserted | src/db/type_struc.cpp:305-374 | a marker that is inserted below the last address does not change a known size to another one; procedures are never unions |
| Containment.StartStep | src/db/type_struc.h:118-136 | the walk starts with exactly the nested fields pending |
| Containment.PushStep | src/db/type_struc.cpp:20-37 | stepping into a structure keeps what is pending and reduces the work |
| Containment.BumpStep | src/db/type_struc.cpp:20-37 | passing over a field without a structure keeps what is pending and reduces the work |
| Containment.PopStep | src/db/type_struc.cpp:34-36 | leaving a finished structure loses nothing that is pending |
| Containment.InclusionIsContainment | src/db/info_proj.cpp:2002-2016 | the inclusion test is exact: a structure is contained in a type if and only if the walk finds it or something that hides it |
| Containment.ReachesIncludes | src/db/info_proj.cpp:2002-2016 | what is contained, through fields, arrays, wrappers and modifiers of any nesting, is found by the walk, itself or hidden |
| Containment.IncludesReaches | src/db/info_proj.cpp:2002-2016 | what the walk finds is contained |
| Containment.HiderReaches | src/db/types.cpp:263-299 | what hides a structure contains it |
| Containment.SetTypeAcyclicIff | src/db/info_proj.cpp:2026-2059 | an accepted type keeps containment acyclic if and only if nothing that hides the owner is included in it |
| Containment.ClearTypeKeepsAcyclic | src/db/info_proj.cpp:2018-2024 | taking a type away keeps containment closed and acyclic |
| History.DoKeepsValid | src/db/info_proj.cpp:2026-2059 | every operation on fields, sizes and containers keeps the database sorted, closed and acyclic, if nothing that hides the container that takes something is included in it |
| History.RunsStayAcyclic | src/db/info_proj.cpp:2002-2059 | over every run of such operations, with owners that are not function prototypes, containment stays acyclic; wrappers and modifiers of containers may be there |
| History.HiddenRecursion | src/db/info_proj.cpp:2034-2047 | for an import wrapper, an export wrapper and a modifier, a database in which a structure accepts that of itself |
| History.HiddenMove | src/db/anlzbin.cpp:1298-1326 | for each of them a database in which an eligible field makes its new container recursive |
| Relocation.EligibleIff | src/db/anlzbin.cpp:1298-1326 | a typed field is eligible and does not hide the target exactly if it is not exported, is of no excluded kind, and does not contain the target |
| Relocation.EligibleReachesIff | src/db/anlzbin.cpp:1298-1326 | an eligible field contains the target exactly if it includes something that hides it |
| Relocation.EligibleRun | src/db/anlzbin.cpp:1350-1360 | the run is eligible throughout, and ends at the range's end, at the end marker, or at the first ineligible field |
| Relocation.NestedStable | src/db/anlzbin.cpp:1354-1380 | the inclusion test for the target does not depend on the fields of source and target themselves, unless something that hides the target is inside |
| Relocation.EligibleStable | src/db/anlzbin.cpp:1354-1380 | eligibility can be judged before the first move: earlier moves do not change the verdict on later fields, unless they include something that hides the target |
| Relocation.MovedKeeps | src/db/anlzbin.cpp:1354-1382 | a move of eligible fields in which nothing hides the target makes nothing recursive |
| Relocation.MovedAcyclicIff | src/db/anlzbin.cpp:1354-1382 | a move of eligible fields to free addresses keeps containment acyclic if and only if none of them includes something that hides the target |
| Relocation.RelocatedKeepsValid | src/db/anlzbin.cpp:1328-1393 | a relocation whose run does not hide the target leaves sorted, closed and acyclic containers, and no other one changed |
| Relocation.SourceConserved | src/db/anlzbin.cpp:1328-1393 | after the whole relocation the source has lost exactly the longest eligible prefix of the range; its other typed or named fields keep their order |
| Relocation.TargetConserved | src/db/anlzbin.cpp:1328-1393 | after the whole relocation, the old marker put back, the target's typed or named fields are all there, and of the run, displaced by `base2 - base`, exactly those whose insertion is accepted; that is all of them, and nothing is lost, if and only if the addresses are free |
| Relocation.TakenAddressLoses | src/db/anlzbin.cpp:1381 | a concrete field that is lost because its new address is taken |
| Resize.SetStrucSizeExact | src/db/info_proj.cpp:219-293 | a reported success gives the requested size, leaves the fields alone and puts one marker above all of them |
| Resize.SizeReachedIff | src/db/info_proj.cpp:219-293 | forced or not, a structure has the requested size afterwards exactly if it had it before or the guards let it pass |
| Resize.UnforcedSizeIff | src/db/info_proj.cpp:262-270 | without force a size above the last field's address is reached if and only if the field's absolute end differs from it or the structure has that size already |
| Resize.LoneLastFieldIff | src/db/info_proj.cpp:262-270 | a last field alone at its address defeats the test exactly at a base other than zero |
| Resize.SharedLastAddress | src/db/info_proj.cpp:262-270 | a concrete structure at base zero whose last address is shared, and which misses its size |
| Resize.ResizedKeepsValid | src/db/anlzbin.cpp:1411-1458 | resizing keeps the database valid |
| RoundTrip.GrowExact | src/db/anlzbin.cpp:1429-1442 | growing, forced or not, takes in exactly the outer fields of the new range, displaced, with at most one marker above them, and reaches the requested size exactly if it is forced or the end test is not taken in |
| RoundTrip.ShrinkBack | src/db/anlzbin.cpp:1443-1453 | shrinking, forced or not, gives the fields beyond the new size back to their addresses in the segment, and reaches the size exactly if it is forced, the last member passes the end test, or the members have that size |
| RoundTrip.GrowThenShrink | src/db/anlzbin.cpp:1411-1458 | growing inside a segment and shrinking back restores every field of both containers for either flag each way, and gives the exact condition for each size and for the return of the size before, known or open |
| RoundTrip.UnforcedGrowthMisses | src/db/anlzbin.cpp:1242-1278 | a concrete unforced growth that misses its size where the forced one reaches it |
| RoundTrip.UnforcedReturnMisses | src/db/anlzbin.cpp:1242-1278 | a concrete unforced round trip that reaches the larger size and misses the old one |
| RoundTrip.OpenSizeIsFixed | src/db/anlzbin.cpp:1418-1422 | a concrete procedure of open size that has a fixed one after the round trip, whatever the flags |
| Sweep.AbsorbableIsEligible | src/db/anlzbin.cpp:809-823 | every label a procedure may absorb passes the relocation test |
| Sweep.SweepAbsorbsWholeRun | src/db/anlzbin.cpp:987-1019 | the procedure takes exactly the maximal run of absorbable labels below the swept end, at unchanged addresses; relocation never stops early |
| Sweep.OldEosRestoredIff | src/db/anlzbin.cpp:1384-1391 | a target has its old fixed size afterwards if and only if its fields give it, or they give a smaller positive one and `base2` is its base |
| Sweep.MarkerFixesOrNot | src/db/anlzbin.cpp:1384-1391 | a marker put anywhere in a structure of known size fixes the size, leaves it, or leaves none |
| Sweep.EmptiedAtBase | src/db/anlzbin.cpp:1384-1391 | a concrete target with nothing but a marker that loses its size at its own base |
| DatabaseObject.Database.SkipArrays | src/db/anlzbin.cpp:1290-1296 | the loop reaches the element type under all arrays |
| DatabaseObject.Database.NextField | src/db/type_struc.cpp:20-37 | one step of the walk keeps what is pending and reduces the work |
| DatabaseObject.Database.CheckTypeInclusion | src/db/info_proj.cpp:2002-2016 | the walk answers inclusion exactly |
| DatabaseObject.Database.SetType | src/db/info_proj.cpp:2026-2059 | accepts or refuses as specified, and changes one field's type or nothing |
| DatabaseObject.Database.ClearType | src/db/info_proj.cpp:2018-2024 | takes one field's type away |
| DatabaseObject.Database.CheckRelocEligability | src/db/anlzbin.cpp:1298-1326 | decides eligibility as specified |
| DatabaseObject.Database.TakeEosField | src/db/anlzbin.cpp:1395-1409 | takes the end marker off and tells the size it fixed |
| DatabaseObject.Database.InsertFieldAt | src/db/info_proj.cpp:1546-1563 | the field is inserted, and only a marker at its address gives way, if and only if nothing else has the address; else nothing changes |
| DatabaseObject.Database.RelocateFields | src/db/anlzbin.cpp:1328-1393 | the loop leaves the specified database and counts the fields that left |
| DatabaseObject.Database.SetStrucSize | src/db/info_proj.cpp:219-293 | moves or creates the end marker as specified, and reports it |
| DatabaseObject.Database.ResizeStruc | src/db/anlzbin.cpp:1411-1458 | exchanges fields with the outer container and fixes the size as specified |
| DatabaseObject.Database.FindUpperLabel | src/db/anlzbin.cpp:825-840 | finds the first label that is beyond the end or may not be absorbed |
| DatabaseObject.Database.SweepProc | src/db/anlzbin.cpp:987-1019 | leaves the specified database, and a valid one |
| LocusDescent.RaIsVa | src/db/locus.cpp:206-238 | raw offset and virtual address of a locus differ by the segment's raw offset and base, inside the raw block |
| LocusDescent.PickIsNearest | src/db/info_proj_s.cpp:812-820 | the field picked is the first of those nearest to the address from below |
| LocusDescent.StepShape | src/db/info_proj_s.cpp:800-973 | a step leaves the outer frames alone and enters a smaller container |
| LocusDescent.StepKeepsVa | src/db/info_proj_s.cpp:800-973 | a step keeps the virtual address, except for rounding to the start of a scalar array element |
| LocusDescent.StepKeepsRaw | src/db/info_proj_s.cpp:800-973 | a step keeps block and position together, and a backed position backed |
| LocusDescent.DescentShape | src/db/info_proj_s.cpp:792-798 | the descent only adds frames |
| LocusDescent.DescentKeepsVa | src/db/info_proj_s.cpp:792-973 | the descent ends, at the same virtual address or at the start of the scalar array element that contains it |
| LocusDescent.DescentIsTerminal | src/db/info_proj_s.cpp:792-973 | the descent ends on a field that covers the position and is neither a structure nor an array of structures, or where no such field is near |
| LocusDescent.DescentIsLinked | src/db/info_proj_s.cpp:792-973 | every container entered is the one behind the field picked above it |
| LocusDescent.RawOffsetsAgree | src/db/locus.cpp:36-41 | the innermost frame's own raw offset is the raw offset of the whole locus, if what wrappers show has base zero |
| LocusObject.StrippedIsVa | src/db/locus.cpp:530-543 | the way back ends on the segment's frame at the locus's virtual address |
| LocusObject.ReducedKeepsVa | src/db/locus.cpp:435-449 | dropping the top frame keeps the virtual address |
| LocusObject.DownAndBack | src/db/locus.cpp:530-543 | descent and way back return to the address, or to the start of the scalar array element that contains it |
| LocusObject.Locus.TerminalFieldAt0 | src/db/info_proj_s.cpp:800-973 | one step on the frame list as specified |
| LocusObject.Locus.TerminalFieldAt | src/db/info_proj_s.cpp:792-798 | the loop ends, since containment is acyclic, with the specified frames |
| LocusObject.Locus.VirtualAddress | src/db/locus.cpp:206-218 | the loop adds up the virtual address |
| LocusObject.Locus.RawAddress | src/db/locus.cpp:220-238 | the loop adds up the raw offset, or fails outside the raw block |
| LocusObject.Locus.StripToSeg | src/db/locus.cpp:530-543 | the loop strips the frames as specified |
| LocusObject.Locus.Reduce | src/db/locus.cpp:435-449 | drops the top frame and keeps the virtual address |
| Geometry.TableTiles | src/db/info_module.cpp:820-888 | the sections have positive sizes and tile the rows without gap or overlap |
| Geometry.TableRawTiles | src/db/info_module.cpp:820-888 | the raw-backed sections, in row order, tile the raw block exactly once |
| Geometry.RowsToRawBijection | src/db/info_module.cpp:820-888 | rows to raw offsets is strictly rising, onto the raw block, and one to one |
| Geometry.RowsClosedForm | src/db/info_proj_s.cpp:1388-1411 | the view size is trace plus recursive oversize plus what the closed form misses |
| Geometry.ViewSizeIff | src/db/info_proj_s.cpp:1388-1411 | the closed form is exact if and only if no terminal segment is of open size |
| Geometry.RowShowsRaw | src/db/info_module.cpp:1471-1507 | every raw offset of the trace is shown by the section on its row |
| Geometry.LocateIsRow | src/db/info_module.cpp:1471-1507 | the walk finds a segment exactly inside the trace; its row is the true one less the rows missed by the closed form |
| Geometry.LocateExactIff | src/db/info_module.cpp:1471-1507 | the walk's row is mapped back to the raw offset by the table if and only if no terminal segment that ends before it is of open size |
| Geometry.OpenSegmentMisplaces | src/db/info_module.cpp:1471-1507 | a concrete module with an open segment, where closed form and walk are both wrong |
| SegmentViews.ViewKeys | src/db/info_module.cpp:886 | every segment of the tree, and no other, is given a view |
| SegmentViews.Slice | src/db/info_module.cpp:820-888 | a segment's own table is a slice of the whole table at its view; the rest belongs to others |
| SegmentViews.ViewsAreRows | src/db/info_module.cpp:886-887 | a segment's rows are exactly its recorded view interval |
| SegmentViews.TerminalRowsAndAddresses | src/db/dump_bin.cpp:1126-1135 | on terminal segments rows and virtual addresses are inverse; rows beyond the size have no address |
| SegmentViews.GapRowsAndAddresses | src/db/type_seg.cpp:664-680 | between subsegments an address is shown on its row, and `viewOffsAt` finds that row if and only if it counts what every earlier subsegment has grown by: no open terminal segment, no nested oversize, none of its own at the address itself |
| SegmentViews.GrowthHidden | src/db/type_seg.cpp:664-680 | two concrete segments in which `viewOffsAt` misses the row, one with an open subsegment and one with nested oversize |
| ModuleObject.Module.UpdateSegGeometry | src/db/info_module.cpp:820-888 | the pass with its accumulators appends the specified sections and views |
| ModuleObject.Module.UpdateViewGeometry | src/db/info_module.cpp:890-894 | the pass over the module builds the whole table |
| ModuleObject.Module.Find | src/db/type_module.h:44-55 | the look-up finds the section that covers a row, or none if there is none |
| ModuleObject.Module.R2D2 | src/db/info_module.cpp:1471-1507 | the recursive walk as specified |
| ModuleObject.Module.FindRaw | src/db/dump_bin.cpp:1027-1030 | the walk's row is looked up to a raw-backed section that maps it to the same raw offset |
| ModuleObject.RawAtFound | src/db/dump_bin.cpp:1113-1124 | the raw offset of a row is that of the section found for it |
| Segments.MadeLinkOkIff | src/db/info_module.cpp:2087-2168 | a created segment's raw block is nested in its super-segment's, behind its trace, if and only if the arguments are sane |
| Segments.InsaneAccepted | src/db/info_module.cpp:2087-2168 | concrete arguments of all four kinds that are accepted without nesting |
| Segments.RawNested | src/db/info_module.cpp:2149 | every raw block lies inside the file |
| Segments.InsertedOrdered | src/db/type_seg.cpp:472-493 | registering keeps the subsegments in the order of their addresses, each once |
| Segments.MadeKeepsInv | src/db/info_module.cpp:2087-2168 | creation keeps the segment table consistent, accepted or not |
| Segments.PlacedKeepsInv | src/db/type_seg.cpp:1072-1079 | giving a segment without subsegments its base keeps the table consistent |
| Segments.WalkIsCached | src/db/info_module.cpp:990-1054 | the walk gives the cached raw offset plus the distance from the base, on the trace and one past it inside the file, and nothing elsewhere |
| Segments.RunsAgree | src/db/info_module.cpp:990-1054 | after every run of creations and placements walk and cache agree, raw blocks are nested, subsegments ordered |
| Segments.SegmentTable.MakeSegment | src/db/info_module.cpp:2087-2168 | creates, trims or refuses as specified |
| Segments.SegmentTable.RegisterSubseg | src/db/type_seg.cpp:472-493 | the loop puts the subsegment at the specified place |
| Segments.SegmentTable.VA2FP | src/db/info_module.cpp:990-1054 | the loop walks as specified |
| Coordinates.TreeWellFormed | src/db/info_module.cpp:2087-2168 | created segments whose traces do not overlap form a well-formed tree for the geometry pass |
| Coordinates.TreeDistinct | src/db/info_proj_s.cpp:1232-1252 | no segment is registered in two places of the tree |
| Coordinates.EverySegmentOccurs | src/db/info_proj_s.cpp:1232-1252 | every created segment is reached from the module |
| Coordinates.CachedRawFits | src/db/info_module.cpp:849 | the raw offset accumulated by the geometry pass is the one cached at creation |
| Coordinates.CoordinatesAgree | src/db/info_module.cpp:990-1054 | on a terminal segment, address to row to raw offset through the section table equals address to raw offset through the traces, and the row maps back to the address |
| Coordinates.RunsAgreeOnCoordinates | src/db/info_module.cpp:820-1054 | the same after every run of creations and placements |
| Coordinates.GapCoordinates | src/db/info_module.cpp:990-1054 | between subsegments, too, the section table and the walk over the traces give an address the same raw offset, and its row shows it |
| Coordinates.RunsAgreeBetween | src/db/info_module.cpp:820-1054 | the same after every run of creations and placements |
| RowCache.CoveredIff | src/db/dump_iter.cpp:63-131 | whether a row is covered is seen from the line found for it |
| RowCache.BeginsIff | src/db/dump_target.cpp:69-117 | the already-dumped test is exact except above the last key of the cache |
| RowCache.LastSpanIgnored | src/db/dump_target.cpp:69-117 | a concrete covered row that is dumped again |
| RowCache.SeekFinds | src/db/dump_iter.cpp:63-131 | a seek succeeds exactly on covered rows, on the asked line or on the last line of the group that spans the row |
| RowCache.EdgeBelowIs | src/db/dump_visit.cpp:147-203 | an edge is reported exactly where no line follows, at an uncovered row or the end of the scope |
| RowCache.ForwardStep | src/db/dump_visit.cpp:205-270 | moves on by exactly one line, fills gaps first, and ends exactly with the scope |
| RowCache.BackwardStep | src/db/dump_visit.cpp:272-346 | moves back by exactly one line, fills gaps first, and is refused exactly on the first row |
| RowCache.ForwardThenBackward | src/db/dump_visit.cpp:205-346 | going on and back returns to the same line; without a gap to the same state |
| RowCache.BackwardThenForward | src/db/dump_visit.cpp:205-346 | going back and on returns to the same line; without a gap to the same state |
| RowCache.SeekArrives | src/db/dump_visit.cpp:86-145 | a seek inside the scope always arrives, and fills only uncovered rows |
| RowCache.RunsKeepCursor | src/db/dump_visit.cpp:86-346 | after any mix of moves the line of a non-end cursor is the number of earlier lines of the same row |
| RowCache.WalkVisitsAll | src/db/info_proj.cpp:345-357 | a walk visits every line once, in order, and leaves no gap behind it |
| RowCache.FullWalk | src/db/info_proj.cpp:345-357 | a walk from the scope's first row tiles the scope up to its upper bound, for any dumper that fills the gap it is asked for |
| RowCache.OneRowIsHonest | src/db/dump_target.cpp:510-547 | dumping one line for the asked row meets what is expected of a dumper |
| CursorObject.DumpVisitor.LowerIt | src/db/dump_iter.cpp:148-158 | the corrected multimap look-up is the first line at or above the row |
| CursorObject.DumpVisitor.DumpZ | src/db/dump_visit.cpp:63-76 | dumps unless the row has been dumped |
| CursorObject.DumpVisitor.SeekIt | src/db/dump_iter.cpp:63-131 | the loops place the cursor as specified |
| CursorObject.DumpVisitor.RowSpan | src/db/dump_iter.cpp:43-61 | the group's span on its last line, else nothing |
| CursorObject.DumpVisitor.CheckEdgeBelow | src/db/dump_visit.cpp:147-203 | finds the edge as specified |
| CursorObject.DumpVisitor.CheckEdgeAbove | src/db/dump_visit.cpp:272-296 | finds the edge as specified |
| CursorObject.DumpVisitor.MoveForward | src/db/dump_visit.cpp:205-270 | moves as specified and keeps the cursor consistent |
| CursorObject.DumpVisitor.MoveBackward | src/db/dump_visit.cpp:298-346 | moves as specified and keeps the cursor consistent |
| CursorObject.DumpVisitor.SeekTo | src/db/dump_visit.cpp:86-145 | arrives as specified |
| Naming.AtoiDec | src/db/info_proj_s.cpp:117 | a written number is read back |
| Naming.ChopDup | src/db/info_proj_s.cpp:107-130 | chopping recovers base and number, whatever the base |
| Naming.ChopPlain | src/db/info_proj_s.cpp:107-130 | a name without a terminator is left alone |
| Naming.CompoundRoundTripIff | src/db/names.cpp:40-122 | decoding inverts coding on two and three parts if and only if the tag has no module separator |
| Naming.SeparatorInTag | src/db/names.cpp:40-122 | a concrete name that decoding does not give back |
| Naming.KeyOfCompound | src/db/names.h:58-73 | coded names are the same key exactly if their joined parts are equal |
| Naming.KeysCollide | src/db/names.h:58-73 | two different coded names with the same key |
| Naming.SkipLenPfx | src/db/names.h:113-137 | the scan finds what follows the prefix, and the number in it, each character counted by its distance from '0' |
| Namespaces.DupKeysDiffer | src/db/info_module.cpp:702-708 | numbered names have different keys |
| Namespaces.TakenBound | src/db/info_module.cpp:700-711 | not more numbers are taken than there are names |
| Namespaces.FirstFree | src/db/info_module.cpp:700-711 | the smallest free number exists and exceeds the size of the namespace by at most one |
| Namespaces.AddedKeepsOneToOne | src/db/info_module.cpp:504-615 | adding, replacing or refusing a name keeps names and objects in one-to-one correspondence |
| Namespaces.ForcedIsNamed | src/db/info_module.cpp:683-719 | the object gets the name, or the name with a bounded number from which chopping recovers it; others keep theirs |
| Namespaces.OwnNameIsTaken | src/db/info_module.cpp:683-719 | forcing on an object its own name gives it a number |
| Namespaces.RunsStayOneToOne | src/db/info_module.cpp:504-719 | over every run no two objects share a name |
| Namespaces.NamesMgr.InsertIfNotExist | src/db/names.cpp:177-189 | afterwards the key is there, whoever had a name still has it, and success means one name more, the object's |
| Namespaces.NamesMgr.AddName | src/db/info_module.cpp:504-615 | adds as specified |
| Namespaces.NamesMgr.ForceName | src/db/info_module.cpp:683-719 | the retry loop ends with the smallest free number |
| Scopes.SamePlace | src/db/info_proj_s.cpp:321-341 | a common node has the same depth on both chains |
| Scopes.CommonScope | src/db/info_proj_s.cpp:314-344 | the depth-aligned search returns what the quadratic search returns, in either order |
| BitFields.PartRestored | src/db/dump_bin.cpp:4105-4116 | moving a field's bits down and up again loses nothing |
| BitFields.DrawBitset | src/db/dump_bin.cpp:4098-4139 | the shown values and the residual make up the word, share no bit, and the residual belongs to no field |
| TaskQueue.CirclePush | src/shared/circvec.h:46-55 | one element more behind the tail, around the end of the buffer |
| TaskQueue.CirclePop | src/shared/circvec.h:76-88 | one element less at the head, around the end of the buffer |
| TaskQueue.CircularVector.Expand | src/shared/circvec.h:206-234 | doubling a full buffer keeps the elements in order |
| TaskQueue.CircularVector.PushBack | src/shared/circvec.h:46-55 | appends one element |
| TaskQueue.CircularVector.PopFront | src/shared/circvec.h:76-88 | removes the first element |
| TaskQueue.CircularVector.Size | src/shared/circvec.h:115-123 | counts the elements |
| TaskQueue.PoppedAddresses | src/db/anlzbin.h:263-282 | the address of the oldest task is in its set, and in it no more without that task |
| TaskQueue.TaskList.PushTaskBack | src/db/anlzbin.h:239-258 | queues a task unless one of the same kind, or for a function, waits at its address; the sets stay the addresses of the queued tasks |
| TaskQueue.TaskList.PopTaskFront | src/db/anlzbin.h:263-282 | takes the oldest task; its address is always in its set |

## Left out

- Bit sets and context-dependent structures in the descent: `Locus_t::va` is not bit-aware, and the latter have no fixed fields.
- Unions as containers of an edit (the public hierarchy flag), thunks, bit sets as structures, aliases without a target, and the array a modifier may index.
- Relocation.Eligible: for a type that is neither simple nor shows a structure, such as a modifier, the inclusion test asserts and then reads a structure that is not there (src/db/type_struc.h:145-148); here it finds nothing.
- DatabaseObject.Database.RelocateFields: names that move from the source's namespace to the target's (src/db/anlzbin.cpp:1368-1376) are not modelled; the fields and sizes of both containers do not depend on them.
- Ownership links, reference counts, dirty flags and messages.
- The base of an unshared nested structure follows its parent field's key in the code; here a base is a given number of the container, so a structure is edited where it lies.
- 32-bit wrap-around of addresses and sizes, except in `MakeSegment`; object identities and memory management.
- The byte-count mask on array totals, and segments as types of fields, elements or modifiers: `LocusDescent.LocusOk` excludes them.
- LocusDescent.RawOffsetsAgree: what a wrapper shows is taken to have base zero, as it has no parent field (src/db/type_struc.cpp:128-137); the addresses do not need that.
- The size a segment gets from its range set is an attribute of the segment; range sets themselves and segment splitting are not modelled.
- Segments.SegmentTable.VA2FP: for a segment without a trace the code climbs through range sets, which hold no raw bytes; the model gives no offset there.
- Whether a trace can be inserted into its super-segment (`InsertField`) is a parameter of creation, so that traces do not overlap is a condition of `Coordinates`; phantom segments are always new.
- `VA2DA` from a structure climbs to its segment by parent fields; only the segment's own part is modelled.
- Where the swept code ends (`SweepCode`) is a parameter of `SweepProc`.
- The outer frames that `wrapUp` adds for super-segments: sums stop at the innermost segment, so they do not take part.
- Geometry.LocateExactIff: in a gap the walk names the segment behind it, as the code does; nothing is promised of that name.
- The page machinery of the dumper, columns, colours and exceptions: any function that only adds lines in the uncovered gap it is asked for, and covers the row asked for, takes its place.
- CursorObject.DumpVisitor.RowSpan: posterior lines, which are kept at an adjusted row, are not modelled; the cache holds lines at their own rows, and the last line of a group carries its span.
- RowCache.RunsKeepCursor: seeks are to rows at or above the scope's first, as the dumper has nothing to show below it.
- Other cursors on the same cache while it grows, and the 16-bit width of the line counter.
- Forward at the end position reports success and counts its line up, as in the code; the walk stops before that.
- Namespaces.NamesMgr.AddName: shared names (`bShare`) are not modelled, nor is taking the name off a type, a branch that reads the null field (src/db/info_module.cpp:549).
- Namespaces.ForcedIsNamed: names whose length prefix is not closed are excluded, since the code reads past their end.
- Prefix search, path normalisation, `R2D`, live debugging, user interface, scripts, loading and saving, instruction decoding.
- Bit fields of 32 bits and more, whose mask is made by an undefined shift.
