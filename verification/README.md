# hexport: a verified model of its algorithms

hexport is a headless server over a disassembler's databases, with a Python exporter as its main
client. Under both sit hand-written algorithms that the rest leans on: a hash map, a sort, string and
calendar routines that use no library, a text filter, a bridge that survives crashing workers, a
graph discovery, a paging protocol and a repair tool that edits a database by trial. This project
models those algorithms in Dafny, in the form the source has (classes whose methods change fields,
loops over arrays in place, pure arithmetic), and proves what they are for.

How to check everything: `dafny verify dfyconfig.toml`.

## What is in each file

| file | what it models |
|---|---|
| `options.dfy`, `selections.dfy`, `ordering.dfy`, `logarithm.dfy` | a value that may be missing; lists taken from others in order; strict weak orderings, the comparator that counts its calls, sortedness, rearrangement; the floor of log2 |
| `insertion_sort.dfy`, `heap_sort.dfy`, `partition.dfy`, `introsort.dfy`, `sort.dfy` | `kstl::sort` and all its parts, with the comparisons they make |
| `pigeonhole.dfy`, `probing.dfy`, `lanes.dfy` | the triangular group walk over a power-of-two table; sixteen-lane masks |
| `hash_table.dfy`, `hash_probe.dfy`, `hash_sound.dfy`, `hash_walks.dfy`, `hash_capacity.dfy`, `hash_reserve.dfy` | the table's invariant, what each write does to it, what each walk finds, when it is rebuilt and what `reserve` promises |
| `hash_map.dfy`, `hash_runs.dfy`, `hash_fill.dfy` | the class `kstl::hash_map` method by method, whole runs of calls, and calls that take any given run of the counters |
| `calendar.dfy`, `system_time.dfy` | the calendar arithmetic of `kuser.hpp` and its lock-free read of kernel time |
| `arch_filter.dfy`, `filter_structure.dfy`, `condition_text.dfy` | the filter over conditional directives in `gen_intrin.py`, what it leaves of a text's structure, and all it does with a condition's text |
| `bridge.dfy` | the bridge between a client and a worker process |
| `text.dfy`, `string_length.dfy` | `find_sub`, `compare`, `operator==` and `strlen_` of `kstl/string.hpp` |
| `discovery.dfy` | breadth-first discovery of a call graph by parallel workers |
| `paging.dfy` | disassembly pages, and the two client loops that join them |
| `repair.dfy` | trial-and-revert repair of types against the decompiler |

## Where the code does less than its documentation says

- `reserve(n)` is documented as making a bulk insert free of rebuilds. It looks at the capacity alone,
  and an insert asks for room before it looks for its key, so tombstones can break that and so can a
  repeated key. The condition, `HashReserve.Roomy`, is that n entries, the tombstones left and, if keys
  are repeated, one more fit below the fill limit. Where it holds, no fill up to n entries rebuilds the
  table of any map (`HashFills.FillKeepsTable`); where it fails, a map whose hash reaches every slot has a
  fill up to n entries that does (`HashFills.FillMovesTable`), and 64-bit integer keys, hashed to
  themselves, reach every slot (`HashFills.IntegersReach`). A hash with few probe paths may be luckier,
  as its new keys may find the tombstones. `HashFills.ReserveCanFail` and `HashFills.RepeatedKeyCanGrow`
  bring a new map with any hash to tables where the promise fails. For requests no 32-bit capacity can
  hold `reserve` does not end at all: `HashReserve.ReserveEnds`.
- The filter takes an `#elif` of a decided `#if` for false when it cannot decide it.
  `ArchFilter.AgreesExactlyWhenFaithful` says exactly when the filtered text still means the same, and
  `ArchFilter.UndecidedElifLosesText` shows a text that loses a line.
- `eval_cond` does not always give a legal condition its value or leave it undecided. The rewriting
  takes a closing parenthesis it has no opening one for, so `#if (defined _M_X64)` raises; it finds
  `defined` at the head of a longer name, so `#if defined_M_X64` is taken for a test; and `#if 01`
  raises in the evaluation. `ConditionText.EvalTextIs` gives the outcome for every legal condition and
  `ConditionText.TextAgreesExactly` says exactly when it is the one meant.
- Direct call edges are deduplicated by the lower-cased operand before it is looked up.
  `Paging.EdgesAreFirstTransfers` says exactly which edges are found, `Paging.EdgesAreTransfers` exactly
  when none is missed, and `Paging.CaseTwinIsLost` shows one that is.
- The word test of `strlen_` is said to mark zero bytes and nothing else. A borrow can mark the byte
  above one: exactly when that byte is 1 (`StringLength.MarksTrueExactly`). The lowest mark, the only one
  used, is always right (`StringLength.MarksFindFirstZero`).
- A fix that helped when it was made need not last: `Repairs.LaterFixCanBreakEarlier`. A function once
  cured stays cured in every run if and only if no single turn of the tool, for any function and on any
  types, can undo it (`Repairs.LastsExactly`); then the functions recovered are at least those settled at
  their turn (`Repairs.RecoveredAtLeast`). The counts the tool reports are right all the same.
- Sizes near the ends of the 32-bit types are not met by the code: the block loop of `find_sub`
  (`Text.GuardIsRight`), the leaf test of the heapsort (`HeapSorts.LeavesAreKnown`), and doubling the
  largest capacity (`HashCapacity.SizeLimitIsExact`) each have their exact limit.
- Churn is said not to grow the map. A table of sixteen it does grow (`HashCapacity.SmallestTableGrows`).
- A worker that fails with an empty message is taken for one that succeeded and found nothing: it is not
  listed as a failure (`Discovery.FailuresListed`, `Discovery.SilentFailure`).

## Model

| member | source | states |
|---|---|---|
| Ordering.SortedFromNeighbours | mcp/hexport/src/kstl/algorithm.hpp:328-358 | under any strict weak ordering a range with no element below its predecessor is sorted as a whole, which is what the sort's first scan concludes from neighbours alone |
| Ordering.FramedSorted | mcp/hexport/src/kstl/algorithm.hpp:276-324 | sorting one part of a range sorts the range when everything before the part is in place and not above it, and everything after it in place and not below |
| Logarithm.Log2FloorBrackets | mcp/hexport/src/kstl/algorithm.hpp:263-272 | the depth measure is the exponent of the largest power of two not above n |
| Logarithm.ILog2 | mcp/hexport/src/kstl/algorithm.hpp:263-272 | the shifting loop computes that exponent, and 0 for a difference that has turned negative |
| InsertionSorts.SinkLeft | mcp/hexport/src/kstl/algorithm.hpp:246-255 | one element sinks to the leftmost place it belongs in, the elements it passes keep their order and are exactly those above it, and the comparisons spent are bounded by the distance |
| InsertionSorts.ShiftsAreInversions | mcp/hexport/src/kstl/algorithm.hpp:244-256 | the places an element sinks are exactly the inversions it has with the elements before it, in whatever order those stood |
| InsertionSorts.PlaceNext | mcp/hexport/src/kstl/algorithm.hpp:246-256 | one step of the loop extends the sorted prefix by one element and shifts by its inversions |
| InsertionSorts.InsertionSort | mcp/hexport/src/kstl/algorithm.hpp:62-76 | leaves the range sorted and rearranged, nothing outside touched, in at most n(n-1)/2 comparisons |
| InsertionSorts.PartialInsertionSort | mcp/hexport/src/kstl/algorithm.hpp:237-261 | finishes, with the range sorted, if and only if at most eight pairs stood the wrong way round; giving up still leaves a rearrangement; comparisons are linear either way |
| HeapSorts.RootIsLargest | mcp/hexport/src/kstl/algorithm.hpp:78-107 | in a heap no element is above the root, by induction over parents |
| HeapSorts.SiftDown | mcp/hexport/src/kstl/algorithm.hpp:78-93 | turns a heap but for its root into a heap, rearranging only the heap, with two comparisons a level |
| HeapSorts.MoveLargestLast | mcp/hexport/src/kstl/algorithm.hpp:102-106 | moving the root behind the heap keeps the tail sorted and above the rest, and leaves a heap but for its root |
| HeapSorts.HeapSort | mcp/hexport/src/kstl/algorithm.hpp:95-107 | sorts any range of up to 2^31 elements within an n log n number of comparisons, with 32-bit child indices that do not wrap |
| HeapSorts.LeavesAreKnown | mcp/hexport/src/kstl/algorithm.hpp:78-93 | with child indices computed in 32 bits the test for a leaf is right at every node if and only if the heap has at most 2^31 elements |
| Partitions.MedianIsBetween | mcp/hexport/src/kstl/algorithm.hpp:111-117 | of three distinct positions the chosen one has another not above it and another not below it |
| Partitions.PivotLeavesSentinel | mcp/hexport/src/kstl/algorithm.hpp:119-151 | whatever the data, once the ninther or median is swapped to the front some later element is not below it, so an unguarded scan to the right must stop |
| Partitions.ChoosePivot | mcp/hexport/src/kstl/algorithm.hpp:126-151 | leaves such a sentinel for every range of three or more, rearranging only the range, in a fixed number of comparisons |
| Partitions.ScanUp | mcp/hexport/src/kstl/algorithm.hpp:161-163 | a scan without a bounds test stops no later than a known sentinel, at the first element that does not belong left |
| Partitions.ScanDown | mcp/hexport/src/kstl/algorithm.hpp:172-174 | the scan the other way stops no earlier than its sentinel, at the last element that belongs left |
| Partitions.SwapAcross | mcp/hexport/src/kstl/algorithm.hpp:177-186 | each swap leaves sentinels for the next pair of scans, so the loop stays in the range and ends with the scans one step crossed, each element looked at once |
| Partitions.PartitionRight | mcp/hexport/src/kstl/algorithm.hpp:155-191 | the pivot lands where everything before is below it and nothing after is; `already` means no element but the pivot moved; at most n+1 comparisons, every load in range |
| Partitions.PartitionLeft | mcp/hexport/src/kstl/algorithm.hpp:196-231 | the mirror image: nothing up to the pivot is above it and everything after is, for any range with an element in it, every load in range |
| Introsorts.PeeledOnce | mcp/hexport/src/kstl/algorithm.hpp:290-296 | after the equals of a pivot are peeled off everything left is strictly above the element before the range, so the peel cannot fire twice in a row |
| Introsorts.PendingPeeled | mcp/hexport/src/kstl/algorithm.hpp:290-296 | what the peel cuts off is already in its final place and sorting the rest sorts the whole |
| Introsorts.PendingRight | mcp/hexport/src/kstl/algorithm.hpp:311-315 | after the shorter left side is sorted, sorting the right side alone sorts the whole, and the pivot still stands before it for the equality test |
| Introsorts.PendingLeft | mcp/hexport/src/kstl/algorithm.hpp:317-321 | the same the other way round, with the left side keeping its own element before it |
| Introsorts.SplitBudget | mcp/hexport/src/kstl/algorithm.hpp:276-324 | the comparisons of one partition pass and two partial insertion sorts fit between the budget of a range and those of its sides, at one depth less |
| Introsorts.FinishOrdered | mcp/hexport/src/kstl/algorithm.hpp:305-308 | finishing both sides by insertion keeps the division at the pivot even when it is abandoned, and sorts the range when it is not |
| Introsorts.PartitionAndFinish | mcp/hexport/src/kstl/algorithm.hpp:299-309 | partition and the abandoned or completed finish keep every side on its side of the pivot |
| Introsorts.Introsort | mcp/hexport/src/kstl/algorithm.hpp:276-324 | sorts through every path, within the budget even when the heapsort backstop is reached; each live call inside another has less `room`, which may start at log2 of the range |
| Sorting.Reverse | mcp/hexport/src/kstl/algorithm.hpp:45-56 | the range comes out mirrored and nothing else moves |
| Sorting.FallingRunSortsReversed | mcp/hexport/src/kstl/algorithm.hpp:337-347 | a strictly falling range is sorted once mirrored |
| Sorting.RunEnd | mcp/hexport/src/kstl/algorithm.hpp:333-355 | the scan ends at the first neighbours that break the run, and no sooner |
| Sorting.Sort | mcp/hexport/src/kstl/algorithm.hpp:328-358 | for every strict weak ordering and every range up to 2^31: sorted, a rearrangement, nothing outside touched, at most 22 n (log2 n + 1) comparisons, calls nested at most log2 n deep by the `room` they are given; a range already in order is not touched and one that falls strictly is turned round, in n comparisons |
| Sorting.LongRangesHaveNoDepth | mcp/hexport/src/kstl/algorithm.hpp:356 | from 2^31 elements on the depth goes negative, so the range goes straight to the heapsort, where beyond 2^31 some leaf is taken for an inner node |
| Probing.TriDistinct | mcp/hexport/src/kstl/hash_map.hpp:435-451 | two triangular numbers below a power of two never agree modulo it |
| Probing.TriCovers | mcp/hexport/src/kstl/hash_map.hpp:435-451 | so the triangular jumps visit every group |
| Probing.AnchorStep | mcp/hexport/src/kstl/hash_map.hpp:693-694 | adding a growing step under the mask walks exactly the triangular anchors, for any home slot |
| Probing.ProbeCovers | mcp/hexport/src/kstl/hash_map.hpp:435-451 | from any home, aligned or not, the groups of one round cover every slot |
| Probing.ProbeOnce | mcp/hexport/src/kstl/hash_map.hpp:435-451 | and no slot twice |
| Probing.PositionOf | mcp/hexport/src/kstl/hash_map.hpp:435-451 | every slot has one position in the walk and it is the one the walk reaches it at |
| Probing.GroupHit | mcp/hexport/src/kstl/hash_map.hpp:386-393 | the k-th group contains a slot exactly when the slot's position falls in the k-th sixteen, which is how the statistics walk recognises it |
| Probing.WalkBounded | mcp/hexport/src/kstl/hash_map.hpp:593-620 | a walk that looks for any of a nonempty set of slots ends within one round |
| HashTable.HomeInRange | mcp/hexport/src/kstl/hash_map.hpp:554-557 | for every hash function the top bits of the mixed hash are a slot of the table |
| HashTable.PlaceKeeps | mcp/hexport/src/kstl/hash_map.hpp:682-692 | putting a new key at a free slot with no empty slot before it on its path keeps every key findable and adds exactly that pair |
| HashTable.EraseKeeps | mcp/hexport/src/kstl/hash_map.hpp:264-280 | a tombstone in a key's slot removes exactly that key and hides no other |
| HashTable.AssignKeeps | mcp/hexport/src/kstl/hash_map.hpp:190-200 | writing a value in place changes that key's value and no path |
| HashTable.NotPastEmpty | mcp/hexport/src/kstl/hash_map.hpp:450-452 | no key lives past an empty slot of its own path |
| HashTable.AbsentAtEmpty | mcp/hexport/src/kstl/hash_map.hpp:593-620 | a probe that meets an empty slot before the key has proved it absent |
| HashTable.SomeEmpty | mcp/hexport/src/kstl/hash_map.hpp:435-442 | entries and tombstones below the capacity leave an empty slot for walks to stop at |
| HashProbe.LoadWraps | mcp/hexport/src/kstl/hash_map.hpp:426-433 | with the sixteen mirrored bytes a load at any slot reads the slots a wrapped index would |
| HashProbe.SearchBounded | mcp/hexport/src/kstl/hash_map.hpp:593-620 | a probe that has met no empty slot still has a whole group left in its round |
| HashProbe.SearchMiss | mcp/hexport/src/kstl/hash_map.hpp:598-618 | no fingerprint match before the first empty slot, in this group and all before it, means the key is not in the map |
| HashProbe.FreeLane | mcp/hexport/src/kstl/hash_map.hpp:672-681 | the remembered slot is the first in probe order that is free, tombstone or empty alike |
| HashSound.StateSetMirrored | mcp/hexport/src/kstl/hash_map.hpp:453-458 | a state write changes one slot and keeps the tail a copy of the head |
| HashSound.PlaceSound | mcp/hexport/src/kstl/hash_map.hpp:682-692 | an insertion keeps the whole invariant: arrays, mirror, both counters and the map |
| HashSound.EraseSound | mcp/hexport/src/kstl/hash_map.hpp:264-280 | so does an erase, turning one live slot into one tombstone |
| HashSound.ContentsDetermined | mcp/hexport/src/kstl/hash_map.hpp:453-462 | arrays and counters that satisfy the invariant stand for one map only |
| HashSound.MovedNext | mcp/hexport/src/kstl/hash_map.hpp:750-755 | each live slot of the old table holds a key not moved before |
| HashSound.MovedAll | mcp/hexport/src/kstl/hash_map.hpp:750-755 | after the last slot exactly the old map has been moved |
| HashWalks.EntriesEnumerate | mcp/hexport/src/kstl/hash_map.hpp:305-345 | the live slots in order list every pair of the map once |
| HashWalks.MatchedAll | mcp/hexport/src/kstl/hash_map.hpp:249-260 | equal sizes and every live entry found with its value in the other map mean equal maps |
| HashCapacity.MakeRoomFits | mcp/hexport/src/kstl/hash_map.hpp:625-637 | purge or double, the rebuilt table has room for the pending insert and an empty slot besides, and is a legal table, unless the largest capacity would have to double |
| HashCapacity.MakeRoomIs | mcp/hexport/src/kstl/hash_map.hpp:501-507 | in numbers: an insert rebuilds the table when entries and tombstones with the new one exceed seven eighths; at the same capacity while the entries with the new one are at most 25/32 of it, otherwise at twice it, a table of sixteen always at 32 and no table at 16; and it then has no tombstones |
| HashCapacity.SizeLimitIsExact | mcp/hexport/src/kstl/hash_map.hpp:625-637 | an insert never needs a capacity above 2^31, whatever the history, if and only if 32 times the entries is below 25 times 2^31 |
| HashCapacity.ChurnKeepsCapacity | mcp/hexport/src/kstl/hash_map.hpp:503-507 | over every run whose inserts each start with entries below 25/32 of the capacity it never changes, the smallest capacity apart |
| HashCapacity.SmallestTableGrows | mcp/hexport/src/kstl/hash_map.hpp:503-507 | which does: six entries and eight tombstones of sixteen, and the next insert doubles the table |
| HashCapacity.RebuildsAreSpaced | mcp/hexport/src/kstl/hash_map.hpp:627-637 | between two rebuilds caused by inserts, the first to capacity c, at least 3c/32 never-used slots are filled |
| HashReserve.ReserveThenFill | mcp/hexport/src/kstl/hash_map.hpp:148-156 | for the counters: no insert-only run up to n entries, in any mix of never-used slots, reused tombstones and present keys, rebuilds the table `reserve(n)` leaves if and only if `Roomy` holds; without tombstones and repeated keys it always does |
| HashReserve.TightFillRebuilds | mcp/hexport/src/kstl/hash_map.hpp:625-637 | where it fails, filling up the never-used slots and inserting once more is such a run and rebuilds at its last insert |
| HashReserve.ReserveEnds | mcp/hexport/src/kstl/hash_map.hpp:149-156 | the wrapping doubling loop ends if and only if the largest 32-bit power of two holds n, and then at the first capacity that does |
| HashMaps.HashMap.SetState | mcp/hexport/src/kstl/hash_map.hpp:453-458 | writes the byte and its mirror and no other byte |
| HashMaps.HashMap.FindInGroup | mcp/hexport/src/kstl/hash_map.hpp:598-618 | one group finds the key at a slot before its first empty one or shows that no such slot holds it |
| HashMaps.HashMap.Locate | mcp/hexport/src/kstl/hash_map.hpp:554-621 | finds the slot of a key with its value exactly when the key is in the map, with or without the home early-out, and ends |
| HashMaps.HashMap.ProbeToPlace | mcp/hexport/src/kstl/hash_map.hpp:638-696 | either the key's own slot, or the first slot of the key's path that is free |
| HashMaps.HashMap.FindOrPlace | mcp/hexport/src/kstl/hash_map.hpp:638-696 | a missing key is added with the caller's value, a present one left alone; a reused tombstone is counted off, and a new key whose home slot is free reuses one exactly when the home slot is a tombstone |
| HashMaps.HashMap.FirstBlank | mcp/hexport/src/kstl/hash_map.hpp:707-724 | in a new table the walk ends at the first empty slot on the key's path |
| HashMaps.HashMap.MoveInto | mcp/hexport/src/kstl/hash_map.hpp:704-732 | the first empty slot of the first group that has one is a right place for a key not yet moved, and the new table stays sound |
| HashMaps.HashMap.Allocate | mcp/hexport/src/kstl/hash_map.hpp:736-741 | fresh storage of a legal capacity is a sound empty table, mirror included |
| HashMaps.HashMap.Rehash | mcp/hexport/src/kstl/hash_map.hpp:734-763 | at any legal capacity that holds the entries: same pairs, no tombstones, invariant re-established |
| HashMaps.HashMap.EmplaceSlot | mcp/hexport/src/kstl/hash_map.hpp:623-696 | the slot returned holds the key; the map gains it exactly when it was missing; the counters take one step of the capacity machine, decided by the home slot where that is free; the arrays are replaced exactly when the counters ask for room, at the capacity the fractions 7/8 and 25/32 give |
| HashMaps.HashMap.Insert | mcp/hexport/src/kstl/hash_map.hpp:190-200 | the key maps to the new value whether or not it was there, and the answer says which |
| HashMaps.HashMap.Index | mcp/hexport/src/kstl/hash_map.hpp:180-188 | the slot of the key with the stored value, or with the default which is then stored; the counters take one step of the capacity machine |
| HashMaps.HashMap.AssignThrough | mcp/hexport/src/kstl/hash_map.hpp:180-188 | assigning through the reference returned changes that key's value and nothing else |
| HashMaps.HashMap.TryEmplace | mcp/hexport/src/kstl/hash_map.hpp:219-227 | never changes a value that is there; the counters take one step of the capacity machine |
| HashMaps.HashMap.Find | mcp/hexport/src/kstl/hash_map.hpp:158-164 | the stored value exactly for live keys |
| HashMaps.HashMap.Erase | mcp/hexport/src/kstl/hash_map.hpp:264-280 | removes exactly that key and says whether it was there; live entries become tombstones one for one |
| HashMaps.HashMap.Clear | mcp/hexport/src/kstl/hash_map.hpp:282-297 | the empty map at the same capacity, without tombstones |
| HashMaps.HashMap.Reserve | mcp/hexport/src/kstl/hash_map.hpp:149-156 | same pairs, and the first capacity of the doubling that holds the request, if that is more; otherwise nothing moves |
| HashMaps.HashMap.ForEach | mcp/hexport/src/kstl/hash_map.hpp:305-345 | visits each live pair once and nothing else, eight state bytes at a time |
| HashMaps.HashMap.HitProbes | mcp/hexport/src/kstl/hash_map.hpp:380-397 | the groups counted for an entry are those up to the one that holds it, and the walk ends |
| HashMaps.HashMap.MissProbes | mcp/hexport/src/kstl/hash_map.hpp:400-418 | the groups counted from a home end with the first that has an empty slot, within one round |
| HashMaps.HashMap.ClearAndFree | mcp/hexport/src/kstl/hash_map.hpp:772-779 | the empty map without storage |
| HashMaps.HashMap.InsertLive | mcp/hexport/src/kstl/hash_map.hpp:765-770 | the loop over another table's live entries brings in all its pairs and no other without one rebuild |
| HashMaps.HashMap.ReinsertFrom | mcp/hexport/src/kstl/hash_map.hpp:765-770 | an empty map with room becomes equal to the other without growing |
| HashMaps.HashMap.FillFrom | mcp/hexport/src/kstl/hash_map.hpp:34 | reserving first makes the refill free of rebuilds: the capacity is the reserved one |
| HashMaps.HashMap.Copy | mcp/hexport/src/kstl/hash_map.hpp:34 | a copy holds the same pairs in storage of its own, without tombstones, at the capacity reserved for them |
| HashMaps.HashMap.Assign | mcp/hexport/src/kstl/hash_map.hpp:43-48 | assignment too; assigned to itself the map is left as it is |
| HashMaps.Equals | mcp/hexport/src/kstl/hash_map.hpp:249-260 | true exactly when both hold the same pairs, whatever their histories and capacities |
| HashRuns.Perform | mcp/hexport/src/kstl/hash_map.hpp:149-297 | each public call, assignment through `operator[]` included, answers and acts as on a finite map and moves the counters by one step of the capacity machine |
| HashRuns.Run | mcp/hexport/src/kstl/hash_map.hpp:149-297 | over every run of calls from any state, up to a call that would need a capacity past the largest, all answers and the contents are those of the finite map; while no call asks for a capacity the counters take the machine's steps and the arrays stay exactly when no insert among them has to rebuild |
| HashRuns.RunChurn | mcp/hexport/src/kstl/hash_map.hpp:503-507 | over every run of the map itself whose inserts each start with entries below 25/32 of the capacity it stays what it was, unless it is sixteen |
| HashRuns.RunBetweenRebuilds | mcp/hexport/src/kstl/hash_map.hpp:627-637 | from a call that rebuilds the map at capacity c to the next that has to, at least 3c/32 new keys are put into never-used slots |
| HashRuns.LastWordOnKey | mcp/hexport/src/kstl/hash_map.hpp:149-297 | after any run a key holds what the last insert that touched it gave it, or nothing after the last erase |
| HashFills.IntegersReach | mcp/hexport/src/kstl/hash.hpp:79-80 | 64-bit integers, hashed to themselves and multiplied by FIB, have in every table for every slot more keys at home there than the table can hold |
| HashFills.FingerprintIndependent | mcp/hexport/src/kstl/hash_map.hpp:516-520 | slot and fingerprint do not constrain each other: for every slot of every table and every fingerprint there is an integer key with both |
| HashFills.Realise | mcp/hexport/src/kstl/hash_map.hpp:149-297 | every run of the counters that needs no capacity past the largest is taken, step by step, by calls of the map, for a hash that reaches every slot; the arrays stay exactly when the run is quiet |
| HashFills.FillKeepsTable | mcp/hexport/src/kstl/hash_map.hpp:148-156 | with `Roomy` no run of inserts that leaves n entries at most rebuilds the table, whatever the hash |
| HashFills.FillMovesTable | mcp/hexport/src/kstl/hash_map.hpp:625-637 | without it, for a hash that reaches every slot, inserts are made that leave n entries at most and rebuild the table |
| HashFills.ReserveCanFail | mcp/hexport/src/kstl/hash_map.hpp:148-156 | with any hash, a new map filled with 56 keys and emptied again has 56 tombstones, which `reserve(40)` leaves, and rebuilds at the next insert |
| HashFills.RepeatedKeyCanGrow | mcp/hexport/src/kstl/hash_map.hpp:625-637 | with any hash, 55 keys, `reserve(56)` and one more key inserted twice: 56 entries and the capacity doubled from 64 |
| Calendar.CivilIsRight | mcp/hexport/src/kuser.hpp:693-706 | for every day number the result is a date of the Gregorian calendar and that date's day count is the number |
| Calendar.CivilIsInverse | mcp/hexport/src/kuser.hpp:693-706 | every valid date is reached from its own day count |
| Calendar.CivilIntermediates | mcp/hexport/src/kuser.hpp:693-706 | era day, year of era, day of year and month run in their commented ranges for every day number and no unsigned difference goes below zero |
| Calendar.DatetimeIsRight | mcp/hexport/src/kuser.hpp:662-691 | fields in range, recomposing to the file time cut to milliseconds, and the weekday counted from a known Sunday |
| Calendar.DatetimeKeepsOrder | mcp/hexport/src/kuser.hpp:662-691 | field by field order is the order of the file times, in milliseconds |
| Calendar.DayOfYearIsOffset | mcp/hexport/src/kuser.hpp:394-403 | one more than the days since 1 January of the same year, between 1 and the length of the year |
| Calendar.FiletimeYears | mcp/hexport/src/kuser.hpp:662-691 | the year of every 64-bit file time lies between 1601 and 60056, so it fits the int it is cast to |
| SystemTime.NeverTorn | mcp/hexport/src/kuser.hpp:648-660 | any interleaving of three loads with the kernel's stores that is accepted gives a time the kernel published, the one of the middle load |
| SystemTime.QuietReadReturns | mcp/hexport/src/kuser.hpp:648-660 | with no store in between the read is accepted and right |
| SystemTime.OtherOrderTears | mcp/hexport/src/kuser.hpp:648-660 | a kernel storing the words in the other order could be read as a time it never published |
| SystemTime.GoingBackTears | mcp/hexport/src/kuser.hpp:648-660 | so could a kernel whose time goes back |
| SystemTime.QuietRoundAccepted | mcp/hexport/src/kuser.hpp:652-659 | a round that begins between two updates and meets no store is accepted, and every round while the high word does not change |
| SystemTime.SharedTime.Read | mcp/hexport/src/kuser.hpp:648-660 | the retry loop against a kernel that stores between any two loads: it returns in the first round whose first and last load see the same high word, with the time of that round's middle load, and turns on only while no round does |
| ArchFilter.DecidedHolds | mcp/hexport/tools/gen_intrin.py:103-110 | a condition tree decided from the known macros has that value in every environment consistent with them |
| ConditionText.RewriteSays | mcp/hexport/tools/gen_intrin.py:105-109 | whatever text follows, rewriting a condition leaves open one parenthesis more for each it eats, and is let through exactly when every leaf is a constant or taken for a test of a known macro |
| ConditionText.EvalTextIs | mcp/hexport/tools/gen_intrin.py:103-110 | rewriting and evaluating by the precedences of `not`, `and` and `or`: every legal condition is left undecided, raises, or gets the value of its leaves, and which of these is read off the condition |
| ConditionText.TextAgreesExactly | mcp/hexport/tools/gen_intrin.py:103-110 | the text comes to what its tree does if and only if some leaf is unknown, or no longer name is taken for a test, no parenthesis is eaten and no constant led by a zero |
| ConditionText.DecidedTextHolds | mcp/hexport/tools/gen_intrin.py:103-110 | a text without plain names that is decided has that value in every environment consistent with the known macros |
| ConditionText.ConstantIs | mcp/hexport/tools/gen_intrin.py:108-110 | a constant alone is true if it begins with 1, false if all its digits are 0, and otherwise raises |
| ConditionText.NameIs | mcp/hexport/tools/gen_intrin.py:105-109 | a name alone is left undecided unless it is a known macro's with `defined` before it, which is decided as a test of that macro |
| ConditionText.ParenthesisedTestRaises | mcp/hexport/tools/gen_intrin.py:105-110 | `(defined _M_X64)` raises |
| ConditionText.ZeroLedConstantRaises | mcp/hexport/tools/gen_intrin.py:108-110 | so does `01` |
| ConditionText.LongerNameIsDecided | mcp/hexport/tools/gen_intrin.py:105-110 | `defined_M_X64` is decided for true although it may be defined to anything |
| ArchFilter.RunFilter | mcp/hexport/tools/gen_intrin.py:113-147 | the loop over a stack of frames computes the filter the theorems are about, failing on an unmatched directive |
| FilterStructure.ClosedTextKept | mcp/hexport/tools/gen_intrin.py:117-146 | every text whose conditionals close is made of lines and nested conditionals, and the filter leaves: the lines, undecidable conditionals whole with each branch filtered, and of a decided one the filtered text of its first branch decided for true, or of its #else, and no directive |
| FilterStructure.PreprocessKeeps | mcp/hexport/tools/gen_intrin.py:113-147 | the meaning texts are compared by: of every conditional the lines of its first branch that holds, or of its #else |
| FilterStructure.FailsExactly | mcp/hexport/tools/gen_intrin.py:133-135 | the filter fails exactly on texts that go on or close a conditional where none is open |
| FilterStructure.OutputUndecided | mcp/hexport/tools/gen_intrin.py:117-146 | of any text, no line that opens a decidable conditional is left |
| FilterStructure.DecidedTextIsPlain | mcp/hexport/tools/gen_intrin.py:117-146 | a text whose openings are all decidable comes out without a directive |
| ArchFilter.RelatedLive | mcp/hexport/tools/gen_intrin.py:113-147 | at every point a line is live in the original exactly when the filter emits it and it is live in what was emitted |
| ArchFilter.StepKeepsRelated | mcp/hexport/tools/gen_intrin.py:117-146 | one directive or line keeps filter, original and filtered text in step unless an #elif is misjudged |
| ArchFilter.FilterPreserves | mcp/hexport/tools/gen_intrin.py:113-147 | for every nesting: the filtered text preprocesses to the same lines, and when the original closes all its conditionals so does the filtered text |
| ArchFilter.AgreesExactlyWhenFaithful | mcp/hexport/tools/gen_intrin.py:143-146 | text put anywhere is kept or dropped alike in both texts if and only if no #elif taken for false is true |
| ArchFilter.DecidedTextPreserved | mcp/hexport/tools/gen_intrin.py:113-147 | a text whose reached #elifs of decided #ifs are all decidable keeps its meaning in every consistent environment |
| ArchFilter.UndecidedElifLosesText | mcp/hexport/tools/gen_intrin.py:143-146 | a text that loses a live line to an undecidable #elif |
| ArchFilter.FilterIdempotent | mcp/hexport/tools/gen_intrin.py:113-147 | filtering again changes nothing, and balance is kept |
| Bridges.FirstNewline | mcp/hexport/src/bridge.cpp:130-152 | however a reply line is cut into chunks, the first newline seen is its last byte |
| Bridges.Worker.Shutdown | mcp/hexport/src/bridge.cpp:26-46 | no handle, no process and no byte of an earlier exchange is left |
| Bridges.Worker.Alive | mcp/hexport/src/bridge.cpp:21-24 | true exactly of a process that is there and running |
| Bridges.Worker.Spawn | mcp/hexport/src/bridge.cpp:53-116 | all three handles or none, a process started for the current database, nothing pending |
| Bridges.Worker.Send | mcp/hexport/src/bridge.cpp:118-125 | true only when a process was handed exactly the line; otherwise nothing was delivered |
| Bridges.Worker.Recv | mcp/hexport/src/bridge.cpp:128-153 | with any chunking, either line ending and a crash anywhere: the reply's exact text and nothing left over, or false exactly when the process died before its newline |
| Bridges.Worker.Attempt | mcp/hexport/src/bridge.cpp:280-299 | one pass starts a process only for one found dead or lost on the way, gives up only when that start fails, and otherwise forwards the reply to this very line or has replaced the worker, leaving no byte behind |
| Bridges.Worker.Serve | mcp/hexport/src/bridge.cpp:263-302 | at most two attempts, and fewer only when the request is answered or a dead process could not be replaced; the line is handed over unchanged, the one reply forwarded is this request's, by a process of the database wanted; processes started are one for a changed database, one for each found dead and one for each attempt that failed |
| Bridges.RunBridge | mcp/hexport/src/bridge.cpp:235-307 | over every run of request lines and every worker behaviour: outputs, deliveries, completed replies, failures and process starts are those the per-request outcomes account for, in request order |
| Bridges.OneLineEach | mcp/hexport/src/bridge.cpp:254-303 | each request with an id has exactly one output line, standing right after those of the requests before it |
| Bridges.RequestOrder | mcp/hexport/src/bridge.cpp:254-303 | of two requests with ids the earlier has its output line first |
| Bridges.ForwardsEveryReply | mcp/hexport/src/bridge.cpp:282-294 | the replies forwarded are the replies workers completed: none lost, repeated, stale or out of order |
| Bridges.UntroubledRun | mcp/hexport/src/bridge.cpp:277-302 | every request is answered at its first delivery if and only if no start or delivery fails and no delivered line is lost |
| Bridges.SendsBounded | mcp/hexport/src/bridge.cpp:278-279 | a run delivers no more than two lines a request |
| Text.FindNaiveIsLeast | mcp/hexport/src/kstl/string.hpp:61-102 | the plain search gives the least matching index from a start on, or none if there is none |
| Text.EndsDiffer | mcp/hexport/src/kstl/string.hpp:91-94 | a position rejected by its first or last byte is no match |
| Text.FindSub | mcp/hexport/src/kstl/string.hpp:61-102 | sixteen positions a step and a scalar tail give what the plain search gives, empty needles and late starts included, with both block loads inside the haystack, wherever the 32-bit guard is right |
| Text.GuardIsRight | mcp/hexport/src/kstl/string.hpp:72 | the 32-bit guard of the block loop is right at every position the loop can reach if and only if sixteen past the last of them is still a 32-bit number |
| Text.ScansFitUpTo | mcp/hexport/src/kstl/string.hpp:72 | which every needle and start satisfies if and only if the haystack has at most 0xFFFFFFEF bytes |
| Text.SwappedOrder | mcp/hexport/src/kstl/string.hpp:359-365 | byte-swapped little-endian words compare as their bytes do lexicographically |
| Text.Compare | mcp/hexport/src/kstl/string.hpp:353-372 | lexicographic comparison of unsigned bytes, a prefix before its extensions |
| Text.LexZeroIsEqual | mcp/hexport/src/kstl/string.hpp:353-372 | zero exactly for equal strings |
| Text.LexAntisymmetric | mcp/hexport/src/kstl/string.hpp:374-375 | swapping the operands flips the sign |
| Text.LexTransitive | mcp/hexport/src/kstl/string.hpp:374-375 | below is transitive; with the two above a strict total order |
| Text.Equal | mcp/hexport/src/kstl/string.hpp:292-316 | words, the overlapping tail and the byte tail together decide equality, in agreement with comparison |
| Text.OverlapCovers | mcp/hexport/src/kstl/string.hpp:307-311 | two four-byte reads that overlap decide a tail of four to eight bytes |
| StringLength.MarksFindFirstZero | mcp/hexport/src/kstl/string.hpp:21-22 | the word test marks something exactly when a byte is zero and its lowest mark is the first such byte, borrows notwithstanding |
| StringLength.MarkIs | mcp/hexport/src/kstl/string.hpp:21-22 | each of the eight marks is set exactly when its byte is zero, or is 1 and the mark below it is set |
| StringLength.MarksTrueExactly | mcp/hexport/src/kstl/string.hpp:21-22 | every mark stands on a zero byte if and only if no byte 1 stands directly above a zero byte |
| StringLength.WordTest | mcp/hexport/src/kstl/string.hpp:36-46 | the same about eight loaded bytes in memory order |
| StringLength.HigherMarksCanLie | mcp/hexport/src/kstl/string.hpp:21-22 | a word for which a mark above the lowest stands on a byte that is not zero |
| StringLength.AlignedWordInside | mcp/hexport/src/kstl/string.hpp:22-24 | an aligned word that starts in readable pages ends in them |
| StringLength.StrLen | mcp/hexport/src/kstl/string.hpp:25-48 | from any alignment the distance to the first zero byte, as a 32-bit count, zero for null, with every load in readable memory |
| Discovery.LevelsAt | ida_mcp_export.py:2862-2903 | after n levels exactly the functions within n calls of the root are seen and the frontier is those at distance n |
| Discovery.RunLevel | ida_mcp_export.py:2862-2903 | results arriving in any order are put together in frontier order |
| Discovery.DiscoversReachable | ida_mcp_export.py:2841-2904 | each reachable function once, with its shortest distance as depth, and no other |
| Discovery.EdgesSpan | ida_mcp_export.py:2881-2898 | edges not marked duplicate are a spanning tree; all edges are every call of every function looked at, once; failed functions add none and those with a message are listed |
| Discovery.FailuresListed | ida_mcp_export.py:2878-2881 | a run that ended lists every function that failed if and only if none failed with an empty message |
| Discovery.SilentFailure | ida_mcp_export.py:2878-2881 | a root that fails with an empty message ends the run with no edge and no failure listed |
| Discovery.RunsAgree | ida_mcp_export.py:2864-2877 | any two runs that end agree on functions, order, edges and failures |
| Discovery.Discover | ida_mcp_export.py:2841-2904 | on a finite graph the level loop ends with all of this |
| Paging.BuildDisasm | mcp/hexport/src/mcp_commands.cpp:366-428 | the lines are the slice of the instructions that offset and size name, and `more` says whether any is left |
| Paging.Disasm | mcp/hexport/src/mcp_commands.cpp:430-467 | the tool's answer for any size and offset: at most as many lines as asked for, 50000 for sizes outside 1..50000, and just that many when more follow |
| Paging.CodeInOrder | mcp/hexport/src/mcp_commands.cpp:366-428 | the instructions paged are the heads that are code, each once and in order |
| Paging.PageAt | mcp/hexport/src/mcp_commands.cpp:430-467 | a page joins on to what came before it, and is whole or the last |
| Paging.FetchFullDisasm | ida_mcp_export.py:643-666 | for every page size the client gets the one-shot listing, nothing lost or repeated, at offsets one page apart, and never meets a cursor it refuses |
| Paging.ReadPage | ida_mcp_export.py:717-741 | going on over one more page gives the candidates of all the lines so far |
| Paging.ResolveTargets | ida_mcp_export.py:756-785 | the loop over candidates gives the edges the theorems are about |
| Paging.FetchDirectCodeEdges | ida_mcp_export.py:681-787 | for every page size the edges found are those of the whole listing |
| Paging.CandidateIsFirst | ida_mcp_export.py:717-741 | a candidate is the first transfer named under its kind and lower-cased operand |
| Paging.CandidateFor | ida_mcp_export.py:717-741 | every transfer named has a candidate under its key |
| Paging.CandidatesDiffer | ida_mcp_export.py:736-740 | no two candidates share a key |
| Paging.TargetsAre | ida_mcp_export.py:756-785 | an edge is there exactly when a candidate leads to its target, internal jumps excepted, and once |
| Paging.EdgesAreFirstTransfers | ida_mcp_export.py:717-785 | an edge is there exactly when an operand that is the first of its kind and lower-cased spelling leads to its target |
| Paging.EdgesInOrder | ida_mcp_export.py:717-785 | the edges stand in instruction order, each with the place of the first instruction that first names an operand leading to its target |
| Paging.EdgesAreTransfers | ida_mcp_export.py:681-787 | no edge is invented; and none is missed if and only if whatever an operand leads to, some first-named operand of its kind leads to as well, which holds when operands that differ in case alone name the same function |
| Paging.CaseTwinIsLost | ida_mcp_export.py:736-740 | calls of `Run` and `run`, two functions, give one edge, keys being lower-cased |
| Repairs.FixForIsComplete | mcp/hexport/src/mcp_commands.cpp:1580-1641 | a function is left alone exactly when it decompiles, or no address its call may reach through a pointer would cure it with a pointer prototype and none it calls directly with a function prototype; a direct call is blamed only when no indirect one can be |
| Repairs.PhaseIsComplete | mcp/hexport/src/mcp_commands.cpp:1593-1640 | one kind gives no fix exactly when no address of that kind cures the function with a prototype of that kind, and otherwise the first that does, in order |
| Repairs.OnlyCulpritsChange | mcp/hexport/src/mcp_commands.cpp:1395-1397 | a type changes only at an address some recorded fix names as culprit |
| Repairs.LastFixStands | mcp/hexport/src/mcp_commands.cpp:1598-1639 | and there it is the type of the last such fix |
| Repairs.EveryFixEarned | mcp/hexport/src/mcp_commands.cpp:1395-1397 | each recorded fix was needed when it was made, cured its function, and was the first trial of its kind that would |
| Repairs.TurnOf | mcp/hexport/src/mcp_commands.cpp:1580-1641 | after its turn a function decompiles if and only if an earlier fix covered it or some address its call may reach cures it |
| Repairs.LaterFixCanBreakEarlier | mcp/hexport/src/mcp_commands.cpp:1643-1659 | two fixes that each helped can leave one function failing, so counting fixes would be wrong |
| Repairs.LastsExactly | mcp/hexport/src/mcp_commands.cpp:1580-1656 | in every run a function that decompiles after some turn does so at the end, if and only if the fix of no single turn, whatever function it is for and on whatever types, stops it |
| Repairs.FixesLast | mcp/hexport/src/mcp_commands.cpp:1580-1656 | the same for one run: a function no single turn can stop, once it decompiles, does so on the final types |
| Repairs.RecoveredAtLeast | mcp/hexport/src/mcp_commands.cpp:1643-1659 | if no single turn can stop any of the listed functions, those recovered are at least those fixed or already covered at their turn |
| Repairs.Session.Try | mcp/hexport/src/mcp_commands.cpp:1600-1638 | a trial that does not help leaves every type as it was, its absence included |
| Repairs.Session.SearchPhase | mcp/hexport/src/mcp_commands.cpp:1595-1639 | all candidates of a kind with all its prototypes, stopping at the first that works, every other trial undone |
| Repairs.Session.Search | mcp/hexport/src/mcp_commands.cpp:1590-1640 | the nested loops find the first trial that works, indirect calls first, and change only that type |
| Repairs.Session.FixAll | mcp/hexport/src/mcp_commands.cpp:1578-1641 | the fixes of the whole list in order, each sought over the types the earlier ones left |
| Repairs.Session.CollectFailing | mcp/hexport/src/mcp_commands.cpp:1552-1563 | the functions that fail with a bad call, and where each one does |
| Repairs.Session.CollectUnfixed | mcp/hexport/src/mcp_commands.cpp:1643-1656 | the listed functions that do not decompile now, and how many |
| Repairs.ResolvedInOrder | mcp/hexport/src/mcp_commands.cpp:1527-1540 | of a list of addresses the functions scanned are those it resolves to, in its order, repeats included |
| Repairs.FailingInOrder | mcp/hexport/src/mcp_commands.cpp:1552-1563 | the failing functions are those of the scan that end in code -12, in its order, repeats included |
| Repairs.UnfixedInOrder | mcp/hexport/src/mcp_commands.cpp:1643-1656 | the functions still failing are those of the list that do not decompile, in its order |
| Repairs.Session.RepairBadcall | mcp/hexport/src/mcp_commands.cpp:1513-1665 | the types left are the old ones with the reported fixes made in order; recovered and still failing add up and agree with the decompiler on the final types; without `apply` nothing changes |

## Left out

- Sorting.Sort: ranges above 2^31 elements, which the source does not handle: `HeapSorts.LeavesAreKnown` and `Sorting.LongRangesHaveNoDepth` say why and that the bound is exact. The same bound stands on Introsort, HeapSort and SiftDown.
- HashMaps.HashMap.EmplaceSlot: an insert that would have to double a capacity of 2^31, which wraps to nothing in the source; the same on Insert, Index and TryEmplace. It also takes the value its callers construct in the new slot afterwards, so a slot is never seen without a value.
- HashMaps.HashMap.Reserve: requests on which the source's loop does not end, which are exactly those `HashReserve.ReserveEnds` names.
- HashMaps.HashMap.MissProbes: the averages and the stride over homes of the statistics; the two walks they are made of are modelled.
- HashRuns.Run: stops at an insert that would have to double a capacity of 2^31 (no such insert comes while the map has fewer than 25/32 of 2^31 entries, `HashCapacity.SizeLimitIsExact`) and at a `reserve` that does not end; moves and swaps of maps, iterators, and maps that alias their arguments.
- HashFills.FillMovesTable: where the rebuild itself would have to double a capacity of 2^31; and for hashes that do not reach every slot only the other half, `HashFills.FillKeepsTable`, is stated.
- Text.FindSub: scans whose block guard wraps, which are exactly those `Text.GuardIsRight` names; the source then reads past the haystack.
- SystemTime.SharedTime.Read: the kernel's store order and a time that never goes back are assumptions, and a schedule that runs out stands for a loop still turning.
- ArchFilter.FilterPreserves: texts with a directive after the #else of the same group, which are not valid, and the reading of lines into directives.
- ConditionText.EvalTextIs: the cutting of a line into words, signs and digits; a constant is a run of the digits 0 and 1, and any other is a word the filter does not know. A condition that raises stops the filter, whose model takes condition trees.
- Bridges.RunBridge: requests a worker leaves unanswered (notifications and unparseable lines), on which the source waits; a worker writes one line for a line, or part of one and dies. The scanners for the id and the database are parameters, and a read fails only at the end of the pipe.
- Discovery.Discover: timeouts, retries, names and instruction addresses; looking at a function is a function of its key.
- Paging.FetchFullDisasm: the final join and strip of the text; the database does not change between pages.
- Paging.FetchDirectCodeEdges: timeouts; reading an instruction's text and looking a name up are parameters.
- Repairs.Session.RepairBadcall: renaming a culprit; candidate lists do not depend on types; and whatever type an address has can be applied to it again, without which a failed trial could not be taken back.
- Raw memory in the hash map: lifetimes, null arrays (empty ones here), the pointer arithmetic from a value back to its slot, prefetching, and the threshold of the home early-out, which is a parameter.
- Vector registers: a block load and compare is a list of sixteen or eight lane truths; the mask on an index is its remainder by the power-of-two capacity.
- Comparators and hash functions with effects.
- The disassembler and decompiler themselves, transports, processes and pipes of the operating system, licensing, consoles and status lines.
- Generated intrinsic headers and the rest of their generator, `vector.hpp`, `pair.hpp`, `string_view.hpp`, printing and number formatting.
