# Verified models of xschem's schematic kernels

xschem is a schematic editor written in C. This project models the parts of it that other code silently
relies on, and proves what they are for. Each file is one module:

| file | what it models |
|---|---|
| `Geometry.dfy` | wire segments, `check_includes`, `check_breaks`, `touch` and the parallelism test |
| `Nets.dfy` | electrical connectivity of a set of wires, and what cutting, deleting and merging wires do to it |
| `SpatialHash.dfy` | the wrapped grid in which wires are looked up |
| `Wires.dfy`, `Merging.dfy`, `Labels.dfy` | the wire array: cutting, compaction, the merge phase, where labels come from |
| `Schematics.dfy` | `trim_wires` and its helpers as methods of the schematic context |
| `Clipping.dfy` | Cohen-Sutherland clipping and the point-to-segment distance |
| `Nearest.dfy` | the staged search for the object nearest to the mouse |
| `BusValue.dfy` | the hex digits shown for a bus of analog samples |
| `TextHash.dfy`, `Escaping.dfy` | the line-end insensitive file hash; backslash escaping into a growing buffer |
| `Words.dfy`, `Bindings.dfy` | splitting, joining, fields and decimal numbers; the remappable input-binding table |
| `Windows.dfy` | which window context is active while events arrive nested in one another |
| `Hierarchy.dfy` | the hierarchy stack and the port map of vector instances |
| `Options.dfy` | a value that may be missing |

`dafny verify dfyconfig.toml` checks the whole project.

## The main results

**Trimming wires.** Two wires are on one net when a chain of wires joins them, each touching the next with an
endpoint, as in the netlister's walk (`TouchingExactly`); wires that only cross are not connected. For every set of
ordered axis-parallel wires, zero-length ones and duplicates included, `TrimWires` ends; any two points are on one net
after it exactly when they were before; the same points are covered by wires; the wires that `skip_wire` excludes keep
their content and order; and what is left is in normal form: no wire has an endpoint of another strictly inside, none
includes another, and two collinear wires meet end to start only where a wire in another direction taps the joint. A
drawing already in normal form is left as it is, but for its endpoint counters. Every wire left starts on an input
wire whose properties it carries, and lies on the net of that wire, so no label moves to another net. The label of an
absorbed or included wire is lost (`AbsorbedLabelIsLost`). A wire left with an old identity starts on the wire of that
identity and reaches its end. The merge phase selects a wire if and only if it includes a selected one, as the last of
these; over the whole run a selected wire has a part that was selected the same way, and an unselected one is made of
unselected parts (`SelectedExactlyWhen` for drawings in which no selected wire runs along an unselected one). The
reasons are separate lemmas: breaking uses up a finite supply of cuts, because a cut creates no endpoint; after
breaking, deleting an included wire is safe, and without breaking it is not (`DeleteNeedsBreaks`); merging at a joint
is safe because both endpoint counters are zero, and otherwise it is not (`MergeNeedsLoneJoint`). Cutting a wire at a
place that is no endpoint keeps the nets if and only if every wire through the place was already on its net; breaking
a wire at a crossing therefore shorts the two nets (`CutAtCrossingShorts`).

**Geometry.** `touch` and `check_breaks` are exact for every ordered segment, slanted ones included, except that
`touch` looks at the ordinate only when the segment has length zero. `check_includes` compares boxes and directions:
what it reports may be deleted safely for exactly those wires that do not rise from left to right.

**Clipping and distance.** `Lineclip` returns the parameters of the clipped stretch; the stretch is exactly the
intersection of segment and rectangle, in the original direction, the answer is negative exactly when the intersection
is empty, at most four cuts are made, and no divisor is zero. `Dist` is the least squared distance to a point of the
segment.

**Bindings.** Bind and unbind fail, and then change nothing, exactly on words that do not parse, on unknown actions
and on a new signature for a full table. After any run of bind and unbind commands the table has no duplicate
signature, stays within capacity and answers like the finite map given the same updates; replaying the dumped rows
into an empty table rebuilds the same array.

**Windows.** Handlers hold the semaphore of the active context differently for a while: dialogs raise it, some
commands lower it, others free it, and what is written back goes to whichever context is active by then. A hold
returns when its own context is active again at its end, or when that one was left with its own value and the
write-back gives the new one its own value and the pending increments. For every tree of nested events and such
handlers, every step of every handler leaves nothing behind but the increments of its call if and only if every hold
returns (`SteadyExactlyWhen`). For trees whose handlers lower or free the semaphore at most once each, every call of
`callback` leaves all contexts as it found them if and only if every hold returns (`CallsExactlyWhen`); with two in
one handler the losses can cancel (`LossesCancel`). When the holds return, a tree handled while the active context is
busy changes nothing. Handlers that free the semaphore only after looking at it, and inside a hold only raise it,
always return as long as no other context is busy, so any sequence of such events leaves every semaphore at zero
(`StaysIdle`). A handler that frees it without looking can lose it (`LauncherLosesSemaphore`). That an Expose also
leaves the active window as found is not true in general: the way back is refused when the exposed window was itself
busy, and, with tabs, when the window left behind has no top-level window of its own. `ExposeExactly` gives the
outcome for every tree whose holds return, `ExposeTreeExactly` for trees of Expose events alone. With nobody copying,
an event for another window moves the focus if and only if the pointer enters it while the mouse leads the focus, or
it gets the focus while the mouse does not (`FocusMovesExactlyWhen`).

**Hierarchy.** The copy entered is the one given, or else typed (`CopyEntered`, `TypedNumberIsUsed`). The port-map
index of a vector instance is injective exactly when the net is at least as wide as the vector; on a net of just that
width each net bit is seen from exactly one bit of one instance, and so is each bit of an automatic net, unless the
pin has one bit and the vector several copies (`AutoNetsDistinctExactlyWhen`). Any run below a level that comes back
restores that level, its port map included. The paths of all levels stay chained along a run if and only if it never
changes the path away from a copy whose name has a dot. Changing the copy after a descent gives the path, copy and
view of having descended into that copy if and only if the name of the first copy has no dot; it gives the whole state
if and only if, besides, every pin sees the same nets from both copies, since `change_sch_path` does not rebuild the
port map. A pin on named nets does if both copies start at the same place of the net.

**Nearest object.** What may be picked is read off the coordinates for each of the seven kinds
(`PickableExactlyWhen`). The search returns the first of the nearest admissible objects if and only if no nearer
locked object of the same kind shadows it. With locks overridden it returns the nearest object of the drawing if and
only if that is not a locked arc.

**Text.** The file hash is the hash of a canonical text which a file and its DOS version share. Escaping with the
default set is undone by unescaping, for every string; with a caller's set it is undone if and only if the set
contains the backslash. Texts that differ in a single byte have different hashes. The bus digits, read back as a hex
number, give the number on the bus.

## Where the code and its description differ

- `hash_file` (`src/actions.c:64`, `src/actions.c:70`): the comment says that only a CR followed by LF is skipped.
  The code drops every CR of a run but one, and all of them before an LF. `CanonIsStripExactlyWhen`: they agree
  exactly on texts without two CRs in a row.
- `callback` (`src/callback.c:5939-5942`): no nested call can change the window to go back to, as the comment says, but
  the context can still be stranded, because the way back can be refused. `ExposeRestoresExactlyWhen` gives the
  condition, `DetachedWindowKeepsFocus` a case with tabs.
- `find_closest_obj` (`src/findnet.c:389-390`): the lock of an arc counts even when locks are overridden; and a
  locked object is not passed over but hides free ones behind it (`LockHides`, `LockedArcHides`).
- `change_sch_path` (`src/actions.c:2501-2503`) is described as a change to another copy of the instance one has
  descended into. The port map stays that of the copy entered: with pin A of X1[1:0] on the nets N1,N0 the second copy
  resolves A to N1 (`ChangedCopyKeepsOldNets`).
- The commands that free the semaphore test it first (as at `src/callback.c:4986`), except for the launcher
  (`src/callback.c:4071-4075`, `src/callback.c:5614-5617`, `src/callback.c:5623-5631`).

## Model

| member | source | states |
|---|---|---|
| Geometry.TouchIsOnSegment | src/clip.c:234-245 | for every ordered segment of non-zero length, also slanted, `touch` holds exactly for the points of the segment |
| Geometry.TouchOnDegenerate | src/clip.c:239-243 | on a zero-length segment `touch` holds for every point of the same ordinate, while the segment is one point |
| Geometry.TouchExactlyWhen | src/clip.c:234-245 | over all ordered segments `touch` is right except for points beside a zero-length one at its height |
| Geometry.BreaksIsInterior | src/check.c:38-46 | `check_breaks` holds exactly for the points of an ordered segment other than its endpoints |
| Geometry.IncludesIsInclusion | src/check.c:27-36 | between axis-parallel wires `check_includes` is inclusion of point sets |
| Geometry.IncludesSoundExactlyWhen | src/check.c:27-36 | all that `check_includes` reports for an ordered wire is included in it if and only if the wire does not rise from left to right |
| Geometry.FallingIncludesOnlyItself | src/check.c:30-31 | a falling slanted wire is reported to include nothing but a copy of itself |
| Geometry.RisingCounterexample | src/check.c:30-31 | each rising wire is reported to include a wire with a point off it |
| Geometry.ParallelOrtho | src/check.c:318-319 | the cross-product test says of axis-parallel wires that both are horizontal or both vertical, a zero-length wire being both |
| Nets.TouchingExactly | src/netlist.c:1043-1047 | the netlister's test for passing a net on is adjacency of the wires, except that a zero-length wire also touches every wire with an endpoint at its height |
| Nets.JoinedMeans | src/netlist.c:1043-1057 | the box tests in the definition of a net are membership in the true segments |
| Nets.SplitKeepsNets | src/check.c:226-229 | cutting a wire at an endpoint of another keeps nets, covered points and the set of endpoints |
| Nets.SplitKeepsNetsExactlyWhen | src/check.c:465-477 | cutting a wire at any inner point keeps the nets if and only if every wire through the point was on its net |
| Nets.CutAtCrossingShorts | src/check.c:465-477 | cutting one of two crossing wires at the crossing joins their nets |
| Nets.DeleteKeepsNets | src/check.c:265-284 | with no endpoint strictly inside a wire, deleting wires included in remaining ones keeps nets and covered points |
| Nets.DeleteNeedsBreaks | src/check.c:180-284 | without the breaking phase deletion can disconnect a net |
| Nets.MergeKeepsNets | src/check.c:346-360 | merging two collinear wires through a joint no other wire meets keeps nets and covered points |
| Nets.MergeNeedsLoneJoint | src/check.c:352-353 | merging over a tapped joint can disconnect a net |
| SpatialHash.PointIsVisited | src/netlist.c:532-552 | the cell of every point in the box of a wire is visited, although the grid wraps and the scan stops after 50 cells |
| SpatialHash.VisitsExactlyWhen | src/netlist.c:520-552 | a wire is entered in the cells of the points of its box and in no others |
| SpatialHash.SquareSharedExactlyWhen | src/netlist.c:433-445 | two points share a cell if and only if their squares of 400 by 400 units are a multiple of 50 apart both ways |
| SpatialHash.Unlink | src/netlist.c:381-397 | removing an entry from a cell adds nothing and keeps the entries of all other wires |
| SpatialHash.UnlinkOne | src/netlist.c:381-397 | removal takes away one entry and no more |
| Wires.SplitSelKeepsEndpoints | src/check.c:212-226 | a cut keeps the selection of the two old endpoints and selects the joint exactly when the whole wire was selected |
| Wires.SplitPreserves | src/check.c:226-229 | a cut of the breaking phase keeps nets, coverage, excluded wires and the set of endpoints |
| Wires.SplitUsesACut | src/check.c:181-238 | each cut lowers the number of places where an endpoint lies strictly inside a wire |
| Wires.KeepOrigin | src/store.c:416-433 | compaction keeps exactly the unflagged wires, in their order |
| Wires.KeepBystanders | src/store.c:416-433 | compaction keeps all excluded wires in order when none of them is flagged |
| Wires.DeletePreserves | src/check.c:241-284 | deleting flagged wires, each included in a kept one, keeps nets, coverage and excluded wires |
| Wires.ApartNoBreaks | src/check.c:181-238 | wires pairwise apart leave nothing to break |
| Merging.NoThird | src/check.c:346-353 | no third collinear wire reaches the joint of two abutting ones without overlapping one of them |
| Merging.JointIsLone | src/check.c:346-353 | at a joint with both counters zero every other kept wire misses the joint, also after other wires have grown |
| Merging.AbsorbKeepsNets | src/check.c:346-360 | one merge step keeps nets and coverage of the kept wires |
| Merging.AbsorbKeepsApart | src/check.c:346-360 | one merge step keeps the kept wires pairwise apart |
| Merging.AbsorbGrows | src/check.c:346-360 | one merge step keeps the whole state of the merge phase: wires only grow past their ends, keep their properties and identity, and are selected as the last selected wire inside them was |
| Merging.MergedSelection | src/check.c:357 | a merged wire is selected if and only if a wire inside it was, and then as the last of these along it |
| Merging.GrownPreserves | src/check.c:335-373 | the merge phase, once its flagged wires are deleted, keeps nets, coverage, excluded wires and apartness |
| Merging.NormalIffNothingMergeable | src/check.c:346-353 | with the counters right, no pair satisfies the merge test if and only if the wires are in normal form |
| Labels.SplitWithin | src/store.c:383-408 | both halves of a cut wire carry its properties, run within it, and are selected as that part of it was |
| Labels.SplitTraced | src/store.c:383-408 | the head of a cut wire takes a new identity, the tail keeps the old one and ends where the wire ended |
| Labels.KeepWithin | src/store.c:416-433 | compaction leaves every kept wire with its own properties |
| Labels.GrownSameStarts | src/check.c:355-373 | every wire left by the merge phase includes a wire with its properties and identity and starts where that one starts |
| Labels.GrownReselected | src/check.c:357 | after the merge phase a wire is selected if and only if it includes a selected wire, and then as the last of these |
| Labels.SelectedExactlyWhen | src/check.c:207-357 | where no selected wire runs along an unselected one, a trimmed wire is selected if and only if it runs along a selected wire |
| Labels.IncludedSelectionIsLost | src/check.c:265-284 | of two equal wires the second, selected one is deleted, and no wire left is selected |
| Labels.TracedSameStarts | src/check.c:226-360 | a wire left with an old identity starts on the wire of that identity and reaches the end of it |
| Labels.WithinSameStarts | src/check.c:173-382 | after breaking, deleting and merging every wire starts on an input wire whose properties it carries |
| Labels.RootedStaysOnNet | src/check.c:161-386 | where the nets are kept, every wire left carries the properties of an input wire and lies on its net |
| Labels.AbsorbedLabelIsLost | src/check.c:355-373 | two wires that can be merged, the second with a label: once they are, no wire carries it |
| Schematics.IndexedFinds | src/check.c:341-342 | a wire whose box has a point is listed in the cell of that point |
| Schematics.NewestFirstNext | src/netlist.c:399-410 | entering the wires in order leaves each cell listing its wires newest first |
| Schematics.SplitIndexed | src/check.c:226-232 | inserting the new half and re-entering the shortened wire, with its new coordinates, keep the grid complete |
| Schematics.SettledSplit | src/check.c:226-229 | a cut never puts a settled point back strictly inside a wire |
| Schematics.BreakingCut | src/check.c:203-235 | a cut keeps what the breaking loop has achieved and uses up a cut |
| Schematics.BreakingDone | src/check.c:181-238 | when the loop ends no endpoint lies strictly inside a wire, although wires were appended |
| Schematics.FlagStep | src/check.c:265-274 | flagging an included wire leaves every flagged wire inside a kept one, across chains and duplicates |
| Schematics.WitnessedIncluded | src/check.c:241-284 | the flagged wires may be deleted, and none is flagged if the wires were apart |
| Schematics.IncludedTouchesEnd | src/check.c:246-260 | looking only in the cells of the two endpoints misses no included wire |
| Schematics.TapCountMeaning | src/check.c:300-331 | a counter is zero exactly when no wire in another direction meets the endpoint |
| Schematics.TapWeightReads | src/check.c:315-329 | a wire in another direction adds 2 to the counter of an endpoint strictly inside it, 1 to that of one it shares, and otherwise nothing |
| Schematics.MergingAbsorbs | src/check.c:346-360 | merging a pair that passes the test keeps the invariant of the merge loop |
| Schematics.NothingFound | src/check.c:339-361 | a scan of the cell of the end of a wire misses no wire that could be merged, although wires have grown since the grid was built |
| Schematics.MergingDone | src/check.c:335-373 | the merge phase keeps everything, and deletes nothing exactly when the wires were in normal form |
| Schematics.MergePhaseKeeps | src/check.c:294-373 | counting, merging, resetting and deleting together keep everything, and the number of wires drops unless they were in normal form |
| Schematics.DeletedIncluded | src/check.c:241-284 | the deletion phase keeps everything, leaves the wires pairwise apart, and deletes nothing if they were |
| Schematics.Schematic.constructor | src/check.c:161-169 | a context holds the given wires, with the grid not prepared |
| Schematics.Schematic.HashWire | src/netlist.c:505-553 | the wire is entered into, or removed from, exactly the cells its box meets, and its counters are reset; excluded wires are passed over |
| Schematics.Schematic.HashWires | src/netlist.c:555-563 | afterwards every wire is listed in each cell its box meets, newest first if the grid was rebuilt; only counters change |
| Schematics.Schematic.Split | src/check.c:211-232 | the array is as given by the cut, identities stay unique, the grid stays complete |
| Schematics.Schematic.BreakAround | src/check.c:184-236 | either one wire that the endpoints of wire i break is cut, or neither endpoint lies strictly inside a wire |
| Schematics.Schematic.VisitWire | src/check.c:181-238 | each visit keeps the loop invariant and either moves on or uses up a cut |
| Schematics.Schematic.BreakWires | src/check.c:180-238 | the loop ends, keeps nets, coverage and excluded wires, leaves no endpoint strictly inside a wire, and changes nothing if there was none |
| Schematics.Schematic.FlagIncluded | src/check.c:240-276 | no kept wire includes or breaks another; each flagged one lies inside a kept one |
| Schematics.Schematic.FlagIncludedIn | src/check.c:243-276 | afterwards wire i includes no other kept wire |
| Schematics.Schematic.FlagAtEnd | src/check.c:250-275 | afterwards wire i includes no kept wire that meets the endpoint; flags are only set |
| Schematics.Schematic.DeleteCompact | src/store.c:416-433 | the array holds exactly the unflagged wires in order; the number deleted is returned |
| Schematics.Schematic.CountEnds | src/check.c:294-332 | each counter is zero exactly when no wire in another direction meets the endpoint; nothing else changes |
| Schematics.Schematic.CountWire | src/check.c:296-331 | the same for the two counters of one wire |
| Schematics.Schematic.CountAt | src/check.c:300-331 | the counter is the sum over the cell of 2 for an inner touch and 1 for an end touch, and zero exactly when untapped |
| Schematics.Schematic.MergeAbutting | src/check.c:335-362 | the invariant of the merge phase holds for all wires |
| Schematics.Schematic.MergeAt | src/check.c:337-361 | either nothing changes, or one wire is lengthened over another, takes over its selection if it has one, and that other is flagged; the invariant moves on by one wire |
| Schematics.Schematic.FindMergeable | src/check.c:339-353 | a wire is found that passes the merge test, or none in the cell does |
| Schematics.Schematic.ResetEnds | src/check.c:366-368 | all counters are -1 and nothing else changes |
| Schematics.Schematic.DeleteIncluded | src/check.c:240-284 | nets, coverage, excluded wires kept; wires pairwise apart; the grid is marked stale if a wire went |
| Schematics.Schematic.Reduce | src/check.c:175-288 | the first half of a pass leaves wires pairwise apart, and reports no change if they were |
| Schematics.Schematic.Merge | src/check.c:290-373 | the second half keeps everything, selects each wire as the last selected wire inside it was, and reports a change exactly when the wires were not in normal form, and then there are fewer |
| Schematics.Schematic.TrimPass | src/check.c:173-382 | one pass reports a change exactly when the wires were not in normal form; if they were apart a changing pass lowers their number |
| Schematics.Schematic.TrimWires | src/check.c:161-386 | termination; nets, covered points and excluded wires kept; normal form; a label left is on a net that carried it; an identity left is on a wire that continues the one it named; a wire left is selected as some part of it was, and unselected only if it is made of unselected parts; no change on a normal form; `modified` set exactly otherwise; all endpoint counters reset |
| Clipping.CutMeets | src/clip.c:94-102 | a cut at a level the stretch crosses lies on it, at that level, and cuts off only points beyond the level |
| Clipping.CutOther | src/clip.c:94-102 | the code's interpolated coordinate is the coordinate of the segment at the cut |
| Clipping.CutStep | src/clip.c:87-107 | a pass divides by no zero, cuts off no point of the rectangle, and causes rejection or lowers the number of outcode bits |
| Clipping.Lineclip | src/clip.c:80-109 | the result spans exactly segment and rectangle in the original direction, or there is no common point; at most four cuts |
| Clipping.StretchIsIntersection | src/clip.c:80-109 | a stretch holding exactly the parameters inside the rectangle is the set intersection |
| Clipping.DistanceAt | src/clip.c:178-232 | squared length times squared distance splits into an along and an across part |
| Clipping.NearestEnd | src/clip.c:210-213 | with the foot of the perpendicular outside the segment the endpoint on that side is nearest |
| Clipping.FootReading | src/clip.c:193-217 | the test on the computed foot holds exactly when the foot falls strictly within the segment |
| Clipping.LineDistanceReading | src/clip.c:203-209 | the quotient returned in that case is the squared distance to the line |
| Clipping.DistIsMinimum | src/clip.c:178-232 | for every ordered segment `dist` is the minimum of the squared distances to its points, and is attained |
| Clipping.DistZeroIffTouch | src/clip.c:178-245 | `dist` is zero exactly on the segment, and for non-zero length exactly where `touch` holds |
| Nearest.WireDistance | src/findnet.c:39-45 | the number compared for a wire is its least squared distance to the mouse |
| Nearest.EdgeDistance | src/findnet.c:144-154 | the same for a polygon edge, which is put in order first |
| Nearest.RectDistance | src/clip.c:160-176 | `dist_from_rect` is the least squared distance to the lines of the four sides |
| Nearest.LineOffered | src/findnet.c:179-190 | a line may be picked if and only if its layer is enabled, no lock counts, and its least squared distance is within the square of the threshold |
| Nearest.BoxOffered | src/findnet.c:407-423 | a box may be picked if and only if its layer is enabled, no lock counts, and the mouse is within the threshold of it but not that far inside of all its sides; its distance is to the lines of its sides |
| Nearest.TextOffered | src/findnet.c:487-501 | a text may be picked if and only if no lock counts and the mouse is in its box |
| Nearest.ElementOffered | src/findnet.c:437-453 | an instance may be picked if and only if no lock counts and the mouse is in the box it is looked up by; its distance is to the sides of its body |
| Nearest.StagesInOrder | src/findnet.c:506-520 | the kinds are searched in the order line, polygon, box, arc, text, wire, instance |
| Nearest.PickableExactlyWhen | src/findnet.c:28-503 | for every drawing and each of the seven kinds, polygons edge by edge: what may be picked, read off the coordinates, is what the stage of that kind offers |
| Nearest.PicksNearest | src/findnet.c:506-520 | when no lock counts, nothing that may be picked is nearer than the object found, nor as near and of a kind searched before; nothing is found only if nothing may be picked |
| Nearest.WinnerIsFirstNearest | src/findnet.c:39-45 | a scan ends on the first of the nearest admitted objects closer than the running distance |
| Nearest.FindsFirstNearestExactlyWhen | src/findnet.c:506-520 | with any locks: the first nearest admissible object is returned if and only if no locked object of its kind is nearer, or as near and earlier |
| Nearest.FindsNearest | src/findnet.c:506-520 | when no lock counts an object of least distance is returned, ties going to the earlier stage, and nothing exactly when nothing is admissible |
| Nearest.OverrideFindsNearestExactlyWhen | src/findnet.c:506-520 | with locks overridden, on every drawing: the nearest object, ties going to the earlier stage, is returned if and only if it is not a locked arc; nothing is returned when nothing is near enough |
| Nearest.OverrideUnlocks | src/findnet.c:389-390 | with locks overridden the lock of a candidate counts if and only if it is a locked arc |
| Nearest.LockHides | src/findnet.c:39-51 | on a drawing of two wires the locked one hides the free one within reach |
| Nearest.LockedArcHides | src/findnet.c:389-394 | a drawing on which, with locks overridden, a locked arc is nearest, a free arc is within reach, and nothing is returned |
| Nearest.Finder.RunStage | src/findnet.c:28-52 | the shared distance and selection move to the winner exactly when it is near enough and not locked |
| Nearest.Finder.FindClosestObj | src/findnet.c:506-520 | the seven calls return what the search over the seven stages selects; when no lock counts that is, in the coordinates of the drawing, the nearest object that may be picked within 12 times zoom and scaling |
| BusValue.NextBit | src/draw.c:2726-2748 | what one turn of the loop accumulates or writes is right for the digit: X, a partial code, or the finished digit |
| BusValue.LastBits | src/draw.c:2749-2757 | the shift for a short top nibble gives the right digit |
| BusValue.GetBusValue | src/draw.c:2716-2759 | every digit is X when a bit of its nibble is transitioning, else the right hex digit; the terminator follows; nothing else is written |
| BusValue.DigitShift | src/draw.c:2726-2748 | the digits of a bus are those of the bus without its last nibble, and one more |
| BusValue.StringDenotesBus | src/draw.c:2716-2759 | with no bit transitioning the string, read as a hex number, is the number on the bus, for every width |
| BusValue.NumberBits | src/draw.c:2721-2725 | bit t of that number is 1 if and only if the sample t places from the right is at or above the upper threshold, an undefined one counting as 0 |
| BusValue.UnknownExactlyWhen | src/draw.c:2724-2731 | a digit is X if and only if one of its samples lies between the thresholds, these included |
| TextHash.CanonIgnoresLineEnds | src/actions.c:63-75 | a text and its DOS version have one canonical text, also with CRs inside or at the end |
| TextHash.CanonIsStripExactlyWhen | src/actions.c:63-75 | the code hashes what its comment describes if and only if no two CRs are adjacent |
| TextHash.CanonDiffersFromStrip | src/actions.c:65-73 | a text on which they differ |
| TextHash.PendingSnoc | src/actions.c:63-75 | what one more byte adds to the text hashed so far, with a final CR held back |
| TextHash.HashByte | src/actions.c:63-75 | one turn of the inner loop keeps the hash and the pending CR right |
| TextHash.HashLine | src/actions.c:63-75 | the inner loop keeps them right over a line, with CRs pending across lines |
| TextHash.HashFile | src/actions.c:40-80 | the value is the plain hash of the canonical text of the lines not skipped |
| TextHash.SameHashUnixDos | src/actions.c:40-80 | with no lines skipped a text and its DOS version have the same value, however they are cut into lines |
| TextHash.HashedLine | src/actions.c:50-61 | every line counts where it stands, except path lines when these are to be skipped |
| TextHash.SkippedExactlyWhen | src/actions.c:52-60 | the lines skipped: longer than 14 bytes, with a path mark after two bytes or an include at the start |
| TextHash.HashIsHorner | src/actions.c:74 | the value is the number with the bytes as digits in base 33 after a leading 5381, modulo 2^32 |
| TextHash.OneByteSeen | src/actions.c:74 | texts that differ in a single byte have different values |
| Escaping.EscapeChars | src/actions.c:255-314 | the buffer holds the escaped text and the terminator, every write being within the buffer |
| Escaping.Grow | src/actions.c:270-273 | reallocation adds two bytes and keeps the content |
| Escaping.UnescapeEscape | src/actions.c:274-301 | with the default set unescaping recovers every string |
| Escaping.UnquoteEscapeExactlyWhen | src/actions.c:302-309 | with a caller's set every string is recovered if and only if the set has the backslash |
| Escaping.LostBackslash | src/actions.c:302-309 | a string lost when the set has no backslash |
| Escaping.EscapeGuards | src/actions.c:274-301 | no character of the default set is left bare |
| Escaping.EscapeGrows | src/actions.c:274-310 | one backslash for each character to be escaped and nothing else; a text without any is left as it is |
| Escaping.EscapeIsOneLine | src/actions.c:276-283 | with the default set the result has no newline and no tab |
| Words.SplitJoin | src/callback.c:3195-3213 | splitting undoes joining when no word has the separator |
| Words.FindNthIsToken | src/token.c:4113-4160 | without backslashes the n-th field is the n-th non-empty piece between separators, and empty beyond the last |
| Words.FindNthProtected | src/token.c:4136-4157 | any non-empty words are read back field by field if separators and backslashes in them have a backslash before them |
| Words.AtoiItoa | src/callback.c:3185-3193 | reading a printed number gives the number |
| Words.AtoiReads | src/callback.c:3192 | a number is read after any white space and one sign, up to the first character that is no digit |
| Bindings.ParseModsName | src/callback.c:3195-3246 | every modifier combination is read back from its name, which fits its buffer |
| Bindings.ParseNames | src/callback.c:3177-3252 | device, code and context are read back from their names |
| Bindings.ParseModsExactly | src/callback.c:3195-3213 | a modifier argument is refused if and only if one of its words names none, and asks for exactly the modifiers its words name |
| Bindings.WordsRead | src/callback.c:3177-3221 | what each word of a signature that parses stands for |
| Bindings.SameSignature | src/callback.c:3311-3355 | bind and unbind read the same signature out of the same words |
| Bindings.BindRefusedExactlyWhen | src/callback.c:3301-3335 | bind fails, and then changes nothing, if and only if a word does not parse, the action is unknown, or the signature is new and the table full |
| Bindings.UnbindRefusedExactlyWhen | src/callback.c:3338-3359 | unbind fails, and then changes nothing, if and only if a word does not parse |
| Bindings.UnbindDumped | src/callback.c:3338-3359 | the first four words of a dumped row, given to unbind, remove that row and no other; the answer is 1 if and only if there was one |
| Bindings.RowTextReads | src/callback.c:3373-3380 | the text of a dumped row |
| Bindings.CodeNameReads | src/callback.c:3228-3234 | a code is named by its decimal number, with a sign only if it is negative |
| Bindings.ModsNameOrder | src/callback.c:3236-3246 | modifiers are named in the order control, shift, alt, super, and none of them as 0 |
| Bindings.IndexOf | src/callback.c:2873-2881 | the position is of a row with the signature, and missing exactly when there is none |
| Bindings.SetRowView | src/callback.c:2886-2900 | binding updates the map at one signature, keeps the idle flag of a replaced row, and is refused exactly when the table is full and the signature new |
| Bindings.SetIdleView | src/callback.c:3330-3332 | setting the idle flag changes it at that signature only |
| Bindings.UnsetRowView | src/callback.c:2926-2937 | unbinding by moving the last row into the gap removes that signature only |
| Bindings.ViewSize | src/callback.c:2867-2870 | the map has as many entries as the table has rows |
| Bindings.ExecuteAgrees | src/callback.c:3301-3359 | each command gives the status and the map that the finite map gives, and keeps the table free of duplicates and within capacity |
| Bindings.RunAgrees | src/callback.c:3301-3359 | the same for every run of commands, with every lookup |
| Bindings.RowRebinds | src/callback.c:3301-3383 | a dumped row, given to bind, asks for the same signature, id and idle flag |
| Bindings.RowAppends | src/callback.c:3325-3332 | binding the next row of a table to the rows before it appends it |
| Bindings.ReplayRebuilds | src/callback.c:3362-3383 | replaying the first n dumped rows into an empty table gives the first n rows |
| Bindings.RunKeepsGood | src/callback.c:3301-3359 | every table reached by commands can be dumped and rebuilt |
| Bindings.DumpReplay | src/callback.c:3301-3383 | after any run, replaying the dump into an empty table rebuilds the same array |
| Bindings.BindingTable.constructor | src/callback.c:2867-2870 | a table with no rows and capacity 256 |
| Bindings.BindingTable.FindBinding | src/callback.c:2873-2881 | the row of the signature, or none |
| Bindings.BindingTable.SetInputBinding | src/callback.c:2886-2900 | the rows and the result are those of the specification above, duplicates excluded |
| Bindings.BindingTable.UnsetInputBinding | src/callback.c:2926-2937 | the same for removal, with the number removed |
| Bindings.BindingTable.Bind | src/callback.c:3301-3335 | the command on the array: rows and status of the specification, errors leaving the table alone |
| Bindings.BindingTable.Unbind | src/callback.c:3338-3359 | the same for unbind |
| Bindings.BindingTable.DumpRows | src/callback.c:3362-3383 | one text per row, in order |
| Bindings.BindingTable.Dispatch | src/callback.c:3124-3131 | the row of the event's own context, else of the global one |
| Bindings.DispatchPrefersOwnContext | src/callback.c:3124-3131 | an event runs the row of its own context if there is one, else the context-independent one, and none only if neither is bound |
| Bindings.DispatchAfterCommand | src/callback.c:3124-3359 | what is bound to a signature is what its events run; once it is unbound they run the context-independent row, if any |
| Windows.Enter | src/callback.c:5860-5930 | entering moves at most the active window, and not that if the active context is busy; where it moves it is stated, over whole calls, by the six members that follow |
| Windows.HandledInPlace | src/callback.c:5860-5930 | events of other kinds, and events for windows that cannot be switched to, leave the display as found |
| Windows.FocusMovesExactlyWhen | src/callback.c:5915-5923 | from an idle context, with nobody copying, an event for another window that is no Expose leaves that window active if and only if it is EnterNotify with mouse_follows_focus or FocusIn without, and changes nothing else |
| Windows.CopyTakenAlong | src/callback.c:5883-5887 | entering a window while the active one is copying and the copy file exists leaves that window active, whoever leads the focus |
| Windows.CopySourceBorrowed | src/callback.c:5893-5899 | entering the window that is copying otherwise only borrows it |
| Windows.BusyTakesTwo | src/callback.c:5901-5989 | a busy window entered for redrawing only is held twice: a handler that lowers the semaphore twice cannot leave it, while one handled in place can |
| Windows.GuardedSkipped | src/callback.c:5981-5989 | a guarded handler does nothing in a borrowed window or in one that was busy |
| Windows.WriteBackExactlyWhen | src/callback.c:4071-4075 | at the end of a hold the contexts differ from those found only by the pending increments on the active one, if and only if the hold returns in the stated sense |
| Windows.HoldExactlyWhen | src/callback.c:4985-4990 | the same for a hold with everything handled during it |
| Windows.HoldAndSwitch | src/callback.c:4003-4007 | what switching to another window inside each kind of hold does: refused, or the old window is left idle and the new one gets one more, or the saved value |
| Windows.RaisedThenLowered | src/editprop.c:278-280 | raising and lowering again is as if neither were done |
| Windows.SteadyExactlyWhen | src/callback.c:5983-6109 | for every display and event tree: every step of every handler in it leaves nothing behind but the increments of its call, and no semaphore drops below zero, if and only if every hold returns; then the whole effect is a move of the focus, and none from a busy context |
| Windows.CallsExactlyWhen | src/callback.c:5983-6109 | for every display and every tree whose handlers lower or free the semaphore at most once: each call in it leaves all contexts as found and no semaphore drops below zero, if and only if every hold returns |
| Windows.SteadyCalls | src/callback.c:5983-6109 | on every tree, what holds at every step of every handler holds at every call |
| Windows.LossShows | src/callback.c:6104-6109 | the decrements at the end of a call never make up for the write-back of a hold that did not return |
| Windows.BusyFocusEvent | src/xinit.c:1591 | from a busy context no tree whose holds return moves the focus |
| Windows.BusyUnmoved | src/callback.c:5983-6109 | while the active context is busy a tree whose holds return changes nothing |
| Windows.SemaphoresRestored | src/callback.c:5989-6106 | a tree whose holds return leaves every semaphore as found, none being negative before |
| Windows.QuietIsTame | src/editprop.c:278-280 | where handlers only raise the semaphore every hold returns, on every display |
| Windows.DisciplinedIsTame | src/callback.c:4985-4990 | where handlers free the semaphore only after looking at it, and inside a hold only raise it, every hold returns, as long as no context but the active one is busy |
| Windows.NestedLoweringNotTame | src/callback.c:4003-4007 | lowering inside a freed hold takes the semaphore below zero, also from an idle display |
| Windows.StaysIdle | src/callback.c:4985-4990 | any sequence of events with such handlers, from an idle display, leaves every semaphore at zero |
| Windows.FreedSwitchHandsOver | src/callback.c:4985-4990 | from an idle display saving, freeing, switching and writing back hands the focus over and changes no semaphore |
| Windows.LauncherLosesSemaphore | src/callback.c:4071-4075 | Ctrl-h in a busy window while the mouse enters an idle one leaves the first free, the second busy and active |
| Windows.LossesCancel | src/callback.c:4071-4075 | with two freed holds in one handler every call can leave all contexts as found although neither hold returns |
| Windows.ExposeExactly | src/callback.c:5901-5906 | an Expose whose tree returns leaves everything as found, except that a borrow that cannot be undone leaves the exposed window active |
| Windows.ExposeRestoresExactlyWhen | src/callback.c:6104-6109 | below an Expose every step of every handler leaves nothing behind and the display is as found, if and only if every hold returns and the borrow can be undone; for handlers that lower the semaphore at most once, the same of every call |
| Windows.ExposeTreeExactly | src/callback.c:5901-6109 | for trees of Expose events alone, on every display: each call leaves all contexts as found, and the display is as found if and only if the outermost borrow can be undone |
| Windows.ExposuresRestore | src/callback.c:5901-6109 | without tabs, while idle, any sequence of exposures with events of disciplined handlers nested in them restores the display |
| Windows.DetachedWindowKeepsFocus | src/xinit.c:2373-2375 | with tabs, exposing a detached window while the main window is active leaves it active |
| Windows.Session.Callback | src/callback.c:5935-6111 | the method, with its call-local restore window and nested calls, does what the specification says |
| Windows.Session.ActAll | src/callback.c:6030-6102 | the work of a handler, action by action, does what the specification says |
| Windows.Session.Act | src/callback.c:4071-4075 | the same for one action, the saved semaphore being a local and the write-back going to the context active then |
| Hierarchy.NetIndexInjectiveExactlyWhen | src/actions.c:2669-2670 | the index stays in range for every net width, and is injective if and only if the net is at least as wide as the vector |
| Hierarchy.NetIndexOnto | src/actions.c:2669-2670 | on a net of the vector's width every bit is reached |
| Hierarchy.AutoIndexMirrors | src/actions.c:2672-2675 | the subscript of an automatic net counts down where the net index counts up, within 0 to M*W-1 |
| Hierarchy.AutoIndexOnto | src/actions.c:2672-2675 | every subscript from 0 to M*W-1 is reached |
| Hierarchy.SubscriptsNonNegative | src/actions.c:2674 | the printed subscript is never negative |
| Hierarchy.PortMapReads | src/actions.c:2651-2684 | with distinct bit names the port map sends every bit of every pin to the net it sees |
| Hierarchy.PortMapLast | src/actions.c:2651-2684 | of several bits of one name the last one counts |
| Hierarchy.VectorSeesNetsInOrder | src/actions.c:2669-2675 | counted through the whole vector, bit q sees bit q of a named net, starting over at its end, and of an automatic one the subscript M*W-1-q |
| Hierarchy.EachNetBitSeenOnce | src/actions.c:2651-2684 | each bit of a named net of the vector's width is seen from exactly one bit of exactly one instance |
| Hierarchy.CopiesSeeDifferentNets | src/actions.c:2651-2684 | a pin on such a net makes the port maps of any two copies different |
| Hierarchy.PortMapsAgreeExactlyWhen | src/actions.c:2651-2684 | two copies have the same port map if and only if every bit of every pin sees the same net from both |
| Hierarchy.NamedPinAgreesExactlyWhen | src/actions.c:2669-2670 | a pin of width w on N distinct named nets sees the same nets from two copies if and only if they start at the same place modulo N |
| Hierarchy.AutoPinAgreesExactlyWhen | src/actions.c:2672-2675 | a pin on an automatic net does if and only if the copies are one or the pin has one bit |
| Hierarchy.EachAutoBitSeenOnce | src/actions.c:2672-2675 | each bit of an automatic net, by its printed subscript, is seen from exactly one bit of exactly one instance when the pin has several bits |
| Hierarchy.AutoNetsDistinctExactlyWhen | src/actions.c:2672-2675 | no two bits of the vector see one automatic net name if and only if the pin has several bits or there is one copy |
| Hierarchy.BuildPortMap | src/actions.c:2651-2684 | the loops over pins and bits build that port map |
| Hierarchy.Normal | src/actions.c:2641-2643 | a valid number is kept, a negative one counts from the right, anything else means the leftmost copy |
| Hierarchy.TypedNumberIsUsed | src/actions.c:2625-2638 | a number that is typed counts as if it had been given, 0 as the leftmost copy, and a cancel leaves the stack alone |
| Hierarchy.DescendRefusedExactlyWhen | src/actions.c:2563-2638 | descending leaves everything as it was if and only if the stack is full, the instance cannot be entered, or the user cancels |
| Hierarchy.CopyEntered | src/actions.c:2623-2705 | the copy entered is the one given or typed, counted from the right if negative and the first if there is none such; its name extends the path and its number is recorded |
| Hierarchy.PlainEntered | src/actions.c:2608-2619 | without choosing a copy the first name of the list extends the path, or nothing if the instance has no name |
| Hierarchy.GoBackStaysExactlyWhen | src/actions.c:2756-2786 | going back stays where it is if and only if it is at the top or the user keeps the level |
| Hierarchy.ChangeRefusedExactlyWhen | src/actions.c:2512-2523 | changing the path fails, and then changes nothing, if and only if it is called at the top or the path has no dot before its last character; 0 and 1 both mean the leftmost copy |
| Hierarchy.StemOfChild | src/actions.c:2521-2528 | what `change_sch_path` takes for the parent's path is that path if and only if the instance name has no dot |
| Hierarchy.ChangePathIsDescendExactlyWhen | src/actions.c:2504-2544 | descending into one copy and changing to another gives the level, path, copy, names and view of descending into that other if and only if the first copy's name has no dot, and the whole state if and only if, besides, both copies have the same port map |
| Hierarchy.ChangePathIsDescendPerPin | src/actions.c:2504-2544 | with distinct bit names the whole state agrees if and only if the name has no dot and every bit of every pin sees the same net from both copies |
| Hierarchy.ChangedCopyKeepsOldNets | src/actions.c:2504-2544 | an instance X1[1:0] whose pin still resolves to the net of the first copy after the change to the second |
| Hierarchy.LevelsAboveKept | src/actions.c:2504-2839 | a run that never comes up above a level leaves the levels above alone, port maps included, but for the copy at the level just above |
| Hierarchy.BalancedRunRestores | src/actions.c:2646-2838 | a descent, any run below it that ends at its depth, and one return restore level, path, copies, names, view and the port maps |
| Hierarchy.DoKeepsLinkedExactlyWhen | src/actions.c:2504-2705 | each command keeps every path its parent's path plus the instance entered plus a dot, unless it changes the path away from a copy whose name has a dot, and then it does not |
| Hierarchy.RunLinkedExactlyWhen | src/actions.c:2504-2839 | for every run: the paths are so chained at every step if and only if no step is such a change |
| Hierarchy.DoKeepsTied | src/actions.c:2526-2532 | what the path was extended by stays the name of the copy on record, through descents into a copy and changes |
| Hierarchy.RunPaths | src/actions.c:2504-2839 | along such runs the path of every level is its parent's path, the name of the recorded copy, and a dot |
| Hierarchy.Context.constructor | src/actions.c:2563-2566 | a context at the top level with path "." and an empty port map |
| Hierarchy.Context.DescendSchematic | src/actions.c:2554-2749 | the arrays are those of the specification, refusals leaving them alone; the result is that of loading the child, the level being entered also when that fails |
| Hierarchy.Context.ChooseCopy | src/actions.c:2608-2644 | the copy entered, by the number given or typed, 0 exactly if the user cancels; its part of the path and the number of copies |
| Hierarchy.Context.PushLevel | src/actions.c:2646-2705 | the arrays then hold the old levels, one more, and the new path, view and port map |
| Hierarchy.Context.Ascend | src/actions.c:2756-2839 | the same for `go_back`; the port map of the level left is emptied |
| Hierarchy.Context.SetTop | src/actions.c:2526-2532 | the path and the copy on record are replaced, everything else stays |
| Hierarchy.Context.ChangeSchPath | src/actions.c:2504-2544 | the same for `change_sch_path`, which leaves the port maps alone |

## Left out

- Floating point: coordinates, distances and samples are exact reals. Rounding, infinities and NaN are not modelled.
- Machine integers: array indices, the endpoint counters (`unsigned short` in the wire record) and semaphores are unbounded; the conversion of a cell index to `int` is taken to be exact. The 32-bit hash value does wrap around.
- Slanted and unordered wires in `trim_wires`: the theorems are about ordered axis-parallel wires. `IncludesSoundExactlyWhen` shows what goes wrong for a rising wire.
- Windows.ExposeExactly: the handler of the Expose itself is taken to hold the semaphore throughout, as redrawing does; the events handled meanwhile are arbitrary.
- Windows.SteadyExactlyWhen: handlers are trees of nested events, window switches and holds; creating and closing windows, which changes the set of contexts, and Ctrl-q (`src/callback.c:4423-4430`), which leaves the semaphore at zero on its way out, are not covered.
- `skip_wire` is a flag of the wire; the properties it reads are not modelled. `prop_ptr`, `bus`, `node` and `flags` are one property text, since a cut copies and a merge keeps all of them together.
- `hash_wire` in its `incremental` mode, and the iterators over the grid.
- `update_conn_cues`, redrawing and the undo stack around trimming.
- `break_wires_at_point` and `break_wires_at_pins` as loops: their cut is the subject of `SplitKeepsNetsExactlyWhen`; snapping to the grid, deleting wires under symbols and selection bookkeeping are not modelled.
- `clip` is the loop of `lineclip` on the drawing area; `rectclip` is four comparisons.
- Nearest.Finder.FindClosestObj: the layer reported for a text, a wire or an instance, which have none, is 0 here, while the code leaves that of an earlier find; the distance to an arc and whether the mouse is at its angle, and the box of a text, are inputs; bezier polygons are not modelled; the initial `DBL_MAX` is larger than every distance.
- BusValue.GetBusValue: the caller's choice of thresholds and sample index is not modelled.
- TextHash.HashFile: reading the file is not modelled; the lines are any sequence of byte strings. A line with a NUL byte, on which the skipping rule would stop early, is compared in full.
- Escaping.EscapeChars: freeing the static buffer on a null argument is not modelled; the source text has no NUL.
- Bindings.BindingTable.Dispatch: running the action found, logging and the read-only check are not modelled.
- Bindings: modifiers are four booleans, so bits of an event's state outside the four masks are not modelled; the built-in rows of an initial table and the action registry are inputs, registered ids being non-empty, without spaces and under 64 characters; codes are unbounded, so the 160-byte row buffer is not discussed.
- Windows: whether a Tk window still exists, titles, and the Tcl variables saved with a context.
- Hierarchy.Context.DescendSchematic: finding, saving and loading the child, and the checks on the instance type, are one input; so are the expansion of an instance name, the number typed and the view after the descent.
- Hierarchy.BuildPortMap: pins without a name or without a net are not among the pins given to it, and none are given when the caller asks for no port map; the hash table is a map.
- `new_wire`, the chunking of polylines in `draw_graph_points` and `my_memmem`: they would add only easy members.
- Drawing, Tcl evaluation, property parsing, file formats, netlisting and the dialogs.
