# Advent of Code 2024 solvers, modelled in Dafny

This project models the solvers of a set of Advent of Code 2024 puzzles and
proves properties of them.

## The disk compactor (day 9)

This is the largest part of the model. The solver does three things:

- It reads a dense disk map. Its digits alternate between the size of a file
  and the size of the free space after it.
- It expands the map into a doubly linked list of extents. Each node holds a
  file part or free space, and a sort key.
- It compacts the disk in two ways and computes a checksum after each:
  - a block-level pass that moves single units of files into the leftmost
    free space;
  - a whole-file pass that moves each file, once, from the right into the
    first free extent large enough to hold it.

The list is modelled as the class `DiskCompactor.Disk`:

- Its nodes are indices into sequence fields: item, key, next and prev,
  with -1 for "none".
- A ghost sequence `nodes` lists the nodes from the head to the tail.
- `Extents()` gives the list as a value. The pure module `DiskModel`
  specifies each operation on that value: decoding, the tape of units, the
  checksum, file units and relocation.
- `FragmentModel` specifies the block-level pass as a pure pass over the
  list value, `RunFixed`, and `Fragment` is proved to do exactly what it
  does. It also holds the pass as the source writes it, which can run its
  cursors past each other (see Findings).
- `CompactModel` specifies the whole-file pass in the same way: the
  first-fit scan `Fit`, one move `Move`, one step `Step` and the pass
  `CompactFrom`, which `Compact` is proved to follow step by step.

The source dereferences a missing predecessor in two places. Both become
error outcomes rather than preconditions:

- `Fragment` returns false.
- `Compact` and `MoveFileIntoEmptySpace` return `NoPredecessor`.

## The smaller solvers

| day | what the solver does | Dafny module |
|---|---|---|
| 1 | Total distance between two sorted columns, and a similarity score | `LocationLists` |
| 2 | Safe reports, and reports made safe by dropping one level | `Reports` |
| 3 | Sums of `mul` instructions, all of them and those enabled by `do()`/`don't()` | `MulTimeline` |
| 5 | Page-ordering rules: parsing, checking updates and reordering them | `PageOrdering` |
| 7 | Calibration equations solved by a worklist search over `+`, `*` and concatenation | `Calibration` |
| 11 | Stones in a linked list, each changed by one blink | `Stones` |

For day 11 the stones are real Dafny objects with `next` and `prev` fields.
`Decimal` holds the decimal text of naturals that days 7 and 11 need.

## Model

| member | source | states |
|---|---|---|
| DiskModel.DecodeSizes | day_09.py:70-84 | A zero digit makes no node: every decoded extent has at least one unit, and there is one extent per non-zero digit |
| DiskModel.DecodeAlternates | day_09.py:70-84 | Zero digits still flip between file and free space: used units sum the digits at file positions and free units the digits at space positions |
| DiskModel.DecodeIds | day_09.py:77-81 | Files are numbered 0, 1, 2, ... in the order they appear |
| DiskModel.DecodeStartsWithFile | day_09.py:61-80 | Proof step (follows from the decoder's definition): a map starting with a non-zero digit decodes to a list whose first extent is file 0 of that size |
| DiskCompactor.Disk.Decompress | day_09.py:60-97 | Succeeds exactly when every character is a digit (`int(c)` raises otherwise); the list from head to tail is then the decoded map, with keys 0, 1, 2, ... in list order |
| DiskCompactor.Disk.DecodeDigit | day_09.py:70-93 | One digit appends the extent it describes (none for zero), flips file/space and advances the file id only after a file |
| DiskCompactor.Disk.Checksum | day_09.py:287-307 | The result is the tape checksum: the sum of id times position over the used units, where positions count free units too |
| DiskModel.TapeChecksumAllFree | day_09.py:294-298 | Free units add nothing to the checksum |
| DiskModel.SplitFreeSameTape | day_09.py:287-307 | Two adjacent free extents give the same tape, and hence the same checksum, as one merged extent |
| DiskModel.FileUnitsCountsTape | day_09.py:294-300 | The units of file `id` on the tape are exactly the units its extents hold |
| DiskModel.RightPackedTape | day_09.py:99-162 | When no free extent precedes a file, no free unit precedes a used one on the tape |
| DiskCompactor.Disk.Fragment | day_09.py:99-162 | On a non-empty list the loop does exactly what the corrected pass `RunFixed` does from the head and the tail: it succeeds exactly when that pass finishes, and then leaves its list. Every file keeps its units and the total size does not grow. On success, no free extent precedes a file. Failure happens only when the free extent to split is the head |
| DiskCompactor.Disk.FragmentStep | day_09.py:105-162 | One turn of the loop is one corrected turn `StepFixed` of the list before it: the new list and cursor positions are those of the turn, and a failure is the turn that crashes, with the list unchanged |
| DiskCompactor.Disk.MoveBlocks | day_09.py:114-162 | With free space under the head cursor and a file under the tail cursor, the list and cursors become those of `StepFixed`: a swap, a fill or a split, and failure exactly on a split of the head |
| DiskCompactor.Disk.SwapBlocks | day_09.py:114-124 | An equal-size swap gives the list and cursors of `StepFixed`, the tail cursor staying put when the cursors become neighbours |
| DiskCompactor.Disk.SwapItems | day_09.py:114-121 | The two nodes trade items; links, keys and order are unchanged |
| DiskCompactor.Disk.FillFrom | day_09.py:126-132 | The smaller free extent becomes a part of the file as large as itself, and the file shrinks by that much |
| DiskCompactor.Disk.SplitInto | day_09.py:137-162 | A copy of the file goes before the larger free extent, keyed halfway to its successor; the free extent shrinks and the file's node is unlinked; the tail cursor moves to its predecessor |
| FragmentModel.SwappedKeeps | day_09.py:114-121 | A swap keeps every file's units and the total size |
| FragmentModel.FilledKeeps | day_09.py:126-132 | Filling keeps every file's units; the list loses the free extent's size in total |
| FragmentModel.SplitKeeps | day_09.py:141-162 | Splitting keeps every file's units; the list loses the file's size in total |
| FragmentModel.PackingStart | day_09.py:99-101 | Proof step (follows from the definitions): the invariant holds with the cursors on the head and the tail |
| FragmentModel.HeadStep | day_09.py:105-107 | Proof step (follows from the definitions): passing a file with the head cursor keeps the invariant |
| FragmentModel.TailStep | day_09.py:108-110 | Proof step (follows from the definitions): passing free space with the tail cursor keeps the invariant |
| FragmentModel.SwapStep | day_09.py:114-124 | An equal-size swap keeps the invariant, the tail cursor staying put when the cursors become adjacent |
| FragmentModel.FillStep | day_09.py:126-135 | Filling keeps the invariant |
| FragmentModel.SplitStep | day_09.py:137-162 | Splitting a free extent that is not the head keeps the invariant |
| FragmentModel.PackingDone | day_09.py:101 | Proof step (follows from the definitions): once the cursors meet, no free extent precedes a file |
| FragmentModel.StepAsWritten | day_09.py:101-162 | One turn of the loop as written keeps both cursors within the list or just past an end, and never ends the pass by itself |
| FragmentModel.CursorsCrossOn111 | day_09.py:101-124 | On the map "111", the loop as written swaps, swaps back, runs the head cursor off the list and then dereferences None |
| FragmentModel.StepFixed | day_09.py:105-162 | A running corrected turn keeps both cursors on the list, in order, and strictly closer together |
| FragmentModel.FixedAgreesAsWritten | day_09.py:105-162 | The corrected turn is the turn as written, except on an equal-size swap of neighbours, where the one as written puts the head cursor past the tail cursor and the corrected one stops both on the same node |
| FragmentModel.StepFixedPacks | day_09.py:105-162 | A corrected turn keeps the packing invariant, never finishes the pass by itself, and crashes only on a list that did not start with a file |
| FragmentModel.RunFixedPacks | day_09.py:99-162 | The corrected pass from a packing position always ends, finished or crashed. Finished, no free extent precedes a file, every file keeps its units and the total size has not grown. It crashes only on a list that did not start with a file |
| FragmentModel.FragmentFixed | day_09.py:99-162 | The corrected pass over a whole list from its head and tail ends packed with every file's units kept, or crashes on a list that starts with free space |
| FragmentModel.FixedOn111 | day_09.py:99-124 | On the map "111" the corrected pass swaps file 1 into the free unit and finishes with the cursors met |
| DiskCompactor.Disk.Compact | day_09.py:164-209 | The loop does exactly what the pure pass `CompactFrom` does from the start position: it ends `Ok` exactly when that pass succeeds, and then leaves that pass's list and keys. The result is never `SpaceTooSmall`. After `Ok`, the list and its key order are intact and file extents are the same multiset with the same total size. A list that starts with a file always ends `Ok` and still starts with a file |
| DiskCompactor.Disk.CompactStep | day_09.py:170-209 | One position of the tail cursor is one `Step` of the pure pass: `Ok` leaves the list, keys and cursor positions of that step, and `NoPredecessor` is the step that fails. The invariant is kept and the termination measure drops |
| DiskCompactor.Disk.PlaceTail | day_09.py:175-209 | For a file under the tail cursor: the scan, then the move when a space is found; the outcome is the `Step` of the pure pass, the invariant is kept and the measure drops |
| DiskCompactor.Disk.PlaceFound | day_09.py:199-209 | Moving the file into the space the scan found is `Move` of the pure pass: `Ok` exactly when `Move` succeeds, with its list, keys and cursors; the measure strictly drops |
| DiskCompactor.Disk.MoveAndAdvance | day_09.py:199-209 | The move and the cursor update give exactly `Move`: `Ok` exactly when it succeeds, with its list, keys and cursors; the invariant is kept and the measure drops |
| DiskCompactor.Disk.FindSpace | day_09.py:177-204 | The scan returns the first-fit `Fit`: the first free node from the last-empty cursor large enough for the file, met before the file itself or a key not below the file's, every node before it passed; otherwise none, the scan having stopped. The last-empty cursor ends at `LastEmpty`, the first free node met |
| DiskCompactor.Disk.Scan | day_09.py:175-204 | The inner loop from the last-empty cursor: the space it returns is `Fit`, the cursor it leaves is `LastEmpty`, and the pass invariant still holds |
| CompactModel.Fit | day_09.py:180-201 | The first fit lies on the scanned part of the list, is free and large enough, and every position before it is neither a stop nor a fit |
| CompactModel.FirstFree | day_09.py:192-197 | The first free extent the scan meets has only files before it |
| CompactModel.LastEmptyBeforeFit | day_09.py:196-204 | The last-empty cursor moves over files only and never passes the chosen space |
| CompactModel.ScanPassFile | day_09.py:192-194 | The scan passing a file keeps what it has established |
| CompactModel.ScanPassSpace | day_09.py:196-204 | The scan passing a free extent too small keeps what it has established, the last-empty cursor staying on the first one |
| CompactModel.ScanStopped | day_09.py:181-184 | A scan that stops has found no fit and leaves the last-empty cursor at `LastEmpty` |
| CompactModel.ScanFound | day_09.py:196-201 | A scan that finds a fit has found `Fit` and leaves the last-empty cursor at `LastEmpty` |
| CompactModel.RelocateKeysAscend | day_09.py:219-248 | A move into a larger space keeps the keys ascending along the list |
| CompactModel.Move | day_09.py:199-248 | A move fails exactly when the space is larger than the file and is the head |
| CompactModel.StepPasses | day_09.py:170-209 | A file for which the scan finds no space is passed, the last-empty cursor going to `LastEmpty` |
| CompactModel.StepMoves | day_09.py:170-209 | A file for which the scan finds a space is moved by `Move` into it |
| CompactModel.StepKeeps | day_09.py:170-209 | A step keeps the pass sound, keeps file extents and the total size, lowers the measure, and never fails on a list that starts with a file |
| CompactModel.MoveKeeps | day_09.py:199-248 | A move keeps the pass sound and file extents whole, and strictly lowers the measure |
| CompactModel.CompactFrom | day_09.py:164-209 | The pure pass ends with the tail cursor past the head, the same multiset of file extents and the same total size, and never fails on a list that starts with a file |
| CompactModel.CompactFromStep | day_09.py:170-209 | The pass from a position is the pass from where its step leads, and fails where the step fails |
| CompactModel.CompactSmall | day_09.py:164-209 | On a free unit followed by a one-unit file, the pass moves the file first and ends |
| DiskCompactor.Disk.MoveFileIntoEmptySpace | day_09.py:211-248 | A space too small is refused and changes nothing. A larger space that is the head reports `NoPredecessor`, already shrunk. Otherwise the list becomes `Relocate` of the old one, the keys become `RelocateKeys` of the old ones (unchanged for equal sizes), and key order is kept |
| DiskCompactor.Disk.MoveIntoLarger | day_09.py:219-248 | With a predecessor, the larger-space move gives exactly `Relocate` |
| DiskCompactor.Disk.SwapEqual | day_09.py:215-217 | For a space of the file's size, the two nodes trade items and the list becomes `Relocate` of the old one, with the links and keys unchanged |
| DiskCompactor.Disk.PlaceFile | day_09.py:219-230 | The space shrinks by the file's size and a copy of the file is linked before it, keyed between the space and its predecessor |
| DiskCompactor.Disk.Vacate | day_09.py:232-248 | The vacated units grow the free successor, else the free predecessor, else become a new free node with the file's key |
| DiskCompactor.Disk.FreeInPlace | day_09.py:241-246 | A new free node of the file's size and key takes the file node's place |
| DiskCompactor.Disk.Absorb | day_09.py:232-240 | The file's units grow the chosen free neighbour and the file node is unlinked |
| DiskCompactor.RelocateFromPlaced | day_09.py:219-248 | Placing, then vacating, is exactly `Relocate` |
| DiskModel.RelocateConserves | day_09.py:211-248 | A move keeps file extents whole (the same multiset) and keeps the total size |
| DiskModel.RelocateKeepsPrefix | day_09.py:219-230 | Nothing before the space changes, and the file now starts where the space started |
| DiskModel.RelocateKeepsPositive | day_09.py:211-248 | No extent becomes empty |
| DiskModel.WholeFileStep | day_09.py:199-209 | One move, with the cursors it leaves, keeps files whole, keeps files before the last-empty cursor and a leading file, and lowers the measure up to the tail cursor |
| DiskModel.RelocateLowersFiles | day_09.py:199-209 | A move strictly lowers the sum of file positions up to the new tail cursor |
| DiskModel.RelocateCanLeaveAdjacentFree | day_09.py:232-240 | When both neighbours of the vacated file are free, only the successor grows, so two free extents can end up side by side |
| DiskCompactor.Disk.LinkBefore | day_09.py:227-230 | A node is linked just before a listed node; the list gains it at that position and other links are unchanged |
| DiskCompactor.Disk.ReplaceNode | day_09.py:250-257 | The new node takes the old node's place in the list; the old node's own links stay as they were |
| DiskCompactor.Disk.DeleteNode | day_09.py:259-264 | The node leaves the list, its neighbours are joined, and its own links stay as they were |
| LocationLists.Columns | day_01.py:15-17 | The two columns are the first and second numbers of the rows, in order |
| LocationLists.Sort | day_01.py:19 | The result is sorted and a permutation of the input |
| LocationLists.SortedUnique | day_01.py:19 | Two sorted permutations of each other are equal, so `sorted` has one answer |
| LocationLists.DistanceReorder | day_01.py:19 | The total distance depends only on the multisets of the columns |
| LocationLists.DistanceOfSameIds | day_01.py:19 | Columns holding the same ids are at distance zero |
| LocationLists.Solve | day_01.py:15-30 | The two results are the distance of the sorted columns and the similarity score |
| LocationLists.SimilarityScore | day_01.py:24-28 | The loop sums each left id times its count on the right |
| LocationLists.SimilaritySymmetric | day_01.py:24-28 | The similarity score is symmetric in the two columns |
| LocationLists.SimilarityOfAbsent | day_01.py:26-28 | An id absent from the right column adds nothing |
| LocationLists.SimilarityAppendRight | day_01.py:24-28 | A new right id `m` adds `m` once per occurrence of `m` on the left |
| Reports.ReportIsSafe | day_02.py:34-58 | The result is true exactly when every step is 1 to 3 and all steps go the same way |
| Reports.BadStep | day_02.py:39-43 | An equal pair, or a step larger than 3, makes a report unsafe |
| Reports.AgainstDirection | day_02.py:45-54 | A step against the direction of the first step makes a report unsafe |
| Reports.DirectionOfFirstStep | day_02.py:45-54 | In a safe report the first step fixes the direction |
| Reports.CanSuppressOne | day_02.py:25-29 | The result is true exactly when dropping some single level gives a safe report |
| Reports.Solve | day_02.py:14-32 | The counts of safe reports, and of safe plus dampened reports |
| MulTimeline.Sort | day_03.py:41 | The timeline is sorted by (start, kind, value) and is a permutation of the matches |
| MulTimeline.MulEntries | day_03.py:28-35 | One timeline entry per `mul` match, in match order, at its start and valued at the product of its operands |
| MulTimeline.Marks | day_03.py:26-27 | One timeline entry per `do()` or `don't()` match, in match order, at its start and valued 1 |
| MulTimeline.MulSumSort | day_03.py:37-41 | Sorting keeps the sum of all `mul` values |
| MulTimeline.NoDontAfterSort | day_03.py:41 | Sorting adds no `don't()` |
| MulTimeline.Fold | day_03.py:39-54 | The loop sums the `mul` values whose latest preceding control is not `don't()` |
| MulTimeline.EnabledAtMost | day_03.py:39-54 | The enabled sum never exceeds the sum of all `mul` values |
| MulTimeline.EnabledWithoutDont | day_03.py:39-54 | Without `don't()` the enabled sum is the full sum |
| MulTimeline.TimelineSums | day_03.py:37-54 | On the sorted timeline, the second result is at most the first, and equal when there is no `don't()` |
| MulTimeline.Solve | day_03.py:24-56 | The two results, and their relation |
| PageOrdering.Split | day_05.py:49-54 | `str.split`: pieces without the separator that join back to the text, and more than one piece exactly when the separator occurs |
| PageOrdering.SplitOfJoin | day_05.py:49-54 | Splitting a join of separator-free pieces gives the pieces back |
| PageOrdering.RuleLineRoundTrip | day_05.py:48-50 | A rule line, two naturals X and Y around a bar, parses to the rule that X precedes Y |
| PageOrdering.ParseIntOfNat | day_05.py:49 | The decimal text of a natural parses back to it |
| PageOrdering.ParseInt | day_05.py:49-54 | `int()` succeeds only on text that, once stripped, is not empty and ends in a digit; a negative result needs a leading minus sign |
| PageOrdering.ParseIntOfNegative | day_05.py:49-54 | A minus sign before the decimal text of a natural reads back as its negation |
| PageOrdering.ParseInts | day_05.py:54 | `list(map(int, parts))` succeeds exactly when every piece parses, and then holds each piece's number at its position |
| PageOrdering.Mid | day_05.py:22-24 | `ManualUpdate.mid` is a page of the update with as many pages after it as before it, or one fewer |
| PageOrdering.MidTrim | day_05.py:22-24 | Dropping as many pages from the front as from the back keeps the middle page |
| PageOrdering.ParseLine | day_05.py:48-59 | A rule line holds a bar, an update line holds at least two pages, and only a blank line without separators is blank |
| PageOrdering.ParseLines | day_05.py:47-59 | Fails exactly when some line is invalid; otherwise gives the rules and updates in order |
| PageOrdering.Applicable | day_05.py:69-73 | The map groups, under each page, the rules for that page whose two pages are both in the update |
| PageOrdering.ApplicableMeaning | day_05.py:71-73 | A rule is applicable to a page exactly when it is a rule for that page and both its pages are printed |
| PageOrdering.VerifyUpdate | day_05.py:87-101 | The result is true exactly when every applicable rule's predecessor comes earlier in the update |
| PageOrdering.VerifiedMeaning | day_05.py:87-101 | Verifying against the applicable rules means every rule whose two pages are printed is respected |
| PageOrdering.ReshuffleUpdate | day_05.py:103-135 | The result is exactly `Sweeps` from an empty placement: the order the repeated sweeps build and its middle page. That order is a reordering of the distinct pages that respects every applicable rule. A failure is a stuck partial placement. An update already in order is returned unchanged |
| PageOrdering.Sweep | day_05.py:108-129 | One sweep appends exactly the pages `SweepOnce` appends, in update order. The placement stays valid and keeps its prefix, and the sweep changes nothing only when no page can be placed. On an update already in order, the first sweep places every page where it stands |
| PageOrdering.SweepOnce | day_05.py:111-129 | A sweep keeps the placement valid and only appends to it |
| PageOrdering.SweepOnceSkips | day_05.py:112-125 | Proof step: a page already placed, or one still waiting for a printed predecessor, is passed |
| PageOrdering.SweepOncePlaces | day_05.py:115-129 | Proof step: an unplaced page that waits for nothing is appended, and the placement stays valid |
| PageOrdering.SweepOnceStuck | day_05.py:108-133 | A sweep that places nothing leaves every unplaced page waiting for a printed predecessor that is not placed |
| PageOrdering.OrderedSweep | day_05.py:108-129 | On an update already in order, one sweep places every page where it stands |
| PageOrdering.SweepsOutcome | day_05.py:103-135 | The repeated sweeps end with every page placed once, each after its printed predecessors, and with the middle page. Otherwise they end with a stuck placement |
| PageOrdering.SweepsOn123 | day_05.py:103-135 | On the update 1,2,3 with the single rule that 3 comes before 1, the sweeps give 2,3,1 and the middle page 3 |
| PageOrdering.AllFulfilled | day_05.py:120-125 | True exactly when every printed predecessor of the page is already placed |
| PageOrdering.Place | day_05.py:127-129 | Placing a page whose printed predecessors are all placed keeps the placement valid |
| PageOrdering.PlacedAll | day_05.py:108 | A placement as long as the update contains every page, and the update has no repeats |
| PageOrdering.CycleNotPlaced | day_05.py:103-133 | When the rules form a cycle over printed pages, some page of the cycle is never placed, so correction fails |
| PageOrdering.ChainOrder | day_05.py:103-133 | Placed pages along a rule chain appear in chain order |
| Calibration.EquationCanBeResolved | day_07.py:58-103 | The worklist search succeeds exactly when some choice of operators, evaluated left to right, reaches the test value |
| Calibration.ReachableIffResolvable | day_07.py:58-103 | The search order reaches the same answer as the plain recursive definition |
| Calibration.ChildrenReachable | day_07.py:91-103 | The pushed entries together succeed exactly when their parent can |
| Calibration.ConcatValue | day_07.py:100 | `int(str(a) + str(b))` equals `a * 10^digits(b) + b` |
| Calibration.ConcatOnlyAdds | day_07.py:35-43 | An equation solvable without concatenation is solvable with it |
| Calibration.Solve | day_07.py:24-48 | The two sums, the second at least the first |
| Decimal.NatToStringLength | day_11.py:34 | `len(str(v))` is the digit count of `v` |
| Decimal.ValueOfNatToString | day_07.py:100 | The decimal text of a natural reads back as that natural |
| Stones.BlinkChange | day_11.py:28-40 | 0 becomes 1. An even digit count splits into a left and a right half that recombine to the value. Otherwise the value becomes one new, different value |
| Stones.LeftHalfRange | day_11.py:34-37 | The left half has exactly half the digits |
| Stones.SplitHalvesText | day_11.py:34-37 | The two halves are the values of the two halves of the decimal text |
| Stones.Stone.constructor | day_11.py:10-14 | A stone with the given value and links |
| Stones.Stone.Blinked | day_11.py:16-25 | The stone takes the first new value. Without a split it returns its old successor. With a split it returns None and a fresh stone follows it, linked back to it and on to the old successor |
| Stones.BlinkStone | day_11.py:16-25 | One blink in a list of stones replaces the stone's value by its change. The list stays linked. Back links stay intact without a split and when the last stone splits; they break when a split stone has a successor |
| Stones.BlinkSplit | day_11.py:16-25 | A split inserts the fresh stone after the stone. The back links break when the stone had a successor and stay intact when it was the last |
| Stones.LoadStones | day_11.py:80-91 | Builds a forward and backward linked list of fresh stones holding the values in order |
| Stones.Append | day_11.py:86-89 | One turn of the loading loop links a fresh stone with the next value after the last stone, forward and back |
| Stones.CountStones | day_11.py:93-99 | The count is the length of the list |

## Left out

- Reading input, printing and timing:
  - `print_disk`, debug output and the `datetime` prints are left out.
  - Input is given as a parameter.
- Regular-expression extraction in day 3 is left out: `Solve` takes the match starts and operands. The same goes for `read_lines_typed`, `read_lines_re` and `load_equations`, which become typed parameters.
- `blink` (day_11.py:73-77) and the 25/50-blink driver are left out:
  - `blink` takes `.next` of what `blinked` returns. That is None after a split (AttributeError), and otherwise it skips the following stone.
  - The model gives the step for one stone, `BlinkStone`.
- `_print_stones` and `del` statements have no counterpart.
- `run.py`, `create_file.py`, `template.py` and `lib.py` are the runner and shared helpers of the solvers and are not part of this model. Days 4, 6, 8 and 10 are not part of this model either.
- `int()` on text is modelled for ASCII digits, a sign and ASCII whitespace. Underscores between digits, non-ASCII digits and non-ASCII whitespace are left out.
- Calibration and Stones: values are naturals. Negative operands and stones do not occur in the puzzles.
- Calibration.EquationCanBeResolved: the iteration counter `it` is only printed, so it is left out.
- Calibration.EquationCanBeResolved and Stones.LoadStones require a non-empty list, where the source would raise on an empty one.
- LocationLists.SimilarityScore: `Counter` is modelled as a multiset.
- PageOrdering: the two result sums over the updates are left out. The model gives the per-update answers (`VerifyUpdate`, `ReshuffleUpdate`).
- PageOrdering.ReshuffleUpdate: the `RuntimeError` becomes `CouldNotCorrect`. Its `placed` field is the stuck placement.
- DiskCompactor.Disk.Compact: requires the keys to ascend along the list. `Decompress` guarantees this by numbering nodes 0, 1, 2, ...
- DiskCompactor.Disk.Compact: promises nothing about the list after `NoPredecessor`. The source raises there.
- DiskCompactor.Disk.Fragment: the keys given to split copies are not tracked.
- Reports.ReportIsSafe and Reports.Solve require non-empty reports, where the source raises `IndexError` on an empty one (day_02.py:36).
- Reports.CanSuppressOne requires at least two levels. With one level, the only shortened report is empty and `report_is_safe` raises `IndexError` on it (day_02.py:36). `solve` never gets there, since a one-level report is safe.
- Stones.Stone.Blinked: the new stone's successor keeps its `prev` link to the split stone, as in the source. The contracts state which back links break.

## Findings

| source | as written | input that shows it | evidently intended | confidence | as-written member | corrected member |
|---|---|---|---|---|---|---|
| day_09.py:114-124 | An equal-size swap moves both cursors even when they are neighbours, so they cross and the loop goes on | The map "111": the loop swaps, swaps back, runs the head cursor off the list, and reads `disk_item` of None | The pass ends once the cursors meet | not executed | FragmentModel.CursorsCrossOn111 | DiskCompactor.Disk.Fragment |
