# Entropy collapse, linked list and binary search — a Dafny model

This project models three pieces of a small C++ header collection:

- **The entropy-collapse engine** (`wave_function_collapse.hpp`). A 9×9 grid of cells
  starts with entropy 9 everywhere. The engine then repeats the following until the
  largest value in the grid is 0:
  - select a cell of least positive entropy, breaking ties at random;
  - collapse it to a random smaller value;
  - narrow each positive orthogonal neighbour into the open interval between the
    collapsed value and its own old value;
  - record the grid;
  - rescan the grid.
- **The singly linked list** `linked_list<T>` (`linked_list.hpp`). It is modelled as the
  sequence of its nodes' data plus the separate `l_size` counter.
- **`binary_search`** (`functions.hpp`). It sorts the vector ascending and then halves
  a window `[L, R]` until it finds the target or the window is empty.

Modules:

- `Rng` (`rng.dfy`) holds the random source. It is reduced to the range contract that
  `Random::number` documents: a draw is an arbitrary integer of the inclusive range,
  written as a `:|` choice. Every property proved about a caller therefore holds for
  every random outcome. `std::shuffle` is modelled as "any permutation".
- `WaveFunctionCollapse` (`wave_function_collapse.dfy`):
  - The grid is a row-major `seq<Cell>`: the cell at row x, column y sits at offset
    `9x + y`.
  - The engine's members (`array`, `lowest`, `highest`, `vec`) form one `State` value.
  - Each source routine is a method from one state to the next.
  - A snapshot written by `readGraph` is the row-major list of values. `Start`
    returns the list of all snapshots.
- `LinkedList` (`linked_list.dfy`): pure functions over `List(items, size)`.
  `Valid` is the class invariant: `size` equals the number of nodes reachable from
  `start`.
- `Functions` (`functions.dfy`): `BinarySearch` over integers. `Sort` is an insertion
  sort that stands in for `std::sort`. `SortedPermutationUnique` shows that any other
  sorted permutation of integers is the same sequence.

Modelling decisions:

- **Empty propagation range.** The source draws a neighbour's new value from
  `[collapsed + 1, old - 1]` without a guard. That range is empty when the old value is
  exactly `collapsed + 1`. The model adopts a *skip* policy: such a neighbour keeps its
  value (`Propagate`, `Narrowable`). The unguarded range is logged under Findings.
- **Sentinel bound.** The minimum scan starts at `Sentinel = 10`. It finds the least
  positive value when every value lies in `[0, Sentinel - 1]`.
  `FindLowestEntropy` requires exactly that bound. The run keeps it, because values
  stay in `[0, InitialEntropy]` with `InitialEntropy = 9`.
- **The code's own behaviour is followed.**
  - The grid has a fixed size of 9, and there is no error for a bad size.
  - There are no grid accessors that fail on bad coordinates.
  - The tie list is shuffled even when it has one member.
- **The real random source.** `Random::number` draws a real from `[min, max)` and
  truncates it to an integer. Its outputs are therefore a subset of the documented
  inclusive range `[min, max]` that `Rng.Number` allows, so every property proved here
  also holds for it.
- **Wrap-around in `insert`.** In `insert(item, 0)`, the loop bound `index - 1`
  wraps to the largest `size_t`. The walk then runs to the tail and returns, so the net
  effect is `add`. The model writes the wrap explicitly (`SizeMax`).

## Model

| member | source | states |
|---|---|---|
| Rng.Number | rng.hpp:161-180 | A draw lies in the inclusive range `[lo, hi]`, and the range must not be inverted. |
| WaveFunctionCollapse.CreateGraph | wave_function_collapse.hpp:68-79 | Every cell holds 9 and carries its own row and column. The selection and the maximum both start as the corner cell with value 9. The tie list is empty. |
| WaveFunctionCollapse.ScanCellStep | wave_function_collapse.hpp:83-91 | `ScanCell` is the per-cell branch of the scan. Each scanned cell keeps two things true: the running minimum is the least positive value seen so far, and the list holds exactly the cells seen at it. Before any positive cell, the sentinel and the incoming list are untouched. |
| WaveFunctionCollapse.ScanComplete | wave_function_collapse.hpp:80-93 | After a full scan of a grid with a positive cell, the list is non-empty and holds exactly the least positive cells. |
| WaveFunctionCollapse.FindLowestEntropy | wave_function_collapse.hpp:80-96 | If some cell is positive, the list is exactly the set of least positive cells, each listed once (its multiset equals that of the row-major `Ties` list), and the selection is one of them. With no positive cell and an empty list, nothing changes. The grid and the maximum are untouched. |
| WaveFunctionCollapse.FindHighestEntropy | wave_function_collapse.hpp:97-110 | The recorded maximum is a value present in the grid and no cell exceeds it. No cell, the selection and the list are unchanged. |
| WaveFunctionCollapse.EnactEntropy | wave_function_collapse.hpp:111-116 | A selection below 1 changes nothing. Otherwise the selected cell drops to a value in `[0, old - 1]`, the selection follows it, and no other cell changes. |
| WaveFunctionCollapse.Propagate | wave_function_collapse.hpp:119-121 | A positive neighbour with a non-empty range moves strictly between the collapsed value and its old value. Every other cell, and a neighbour with an empty range, is unchanged. |
| WaveFunctionCollapse.PropagateIf | wave_function_collapse.hpp:120-130 | One direction's bounds test: a neighbour that exists is narrowed as `Propagate` states, and a missing neighbour changes nothing. |
| WaveFunctionCollapse.FourNarrowings | wave_function_collapse.hpp:117-131 | The four directions reach distinct offsets, so four successive directional updates amount to one narrowing of all the in-bounds neighbours. |
| WaveFunctionCollapse.AdjacentOffsets | wave_function_collapse.hpp:117-131 | The offsets that the up/down/left/right bounds tests reach are exactly the cells whose coordinates differ from the selection's by one step. |
| WaveFunctionCollapse.NarrowedNeighbours | wave_function_collapse.hpp:117-131 | Narrowing at the neighbour offsets is the same as narrowing the adjacent cells. |
| WaveFunctionCollapse.GetNeighbours | wave_function_collapse.hpp:117-131 | Only adjacent, positive neighbours with a non-empty range change. Each lands strictly between the collapsed value and its old value. The selected cell, zero neighbours and all other cells keep their values. |
| WaveFunctionCollapse.SumDecreases | wave_function_collapse.hpp:152-160 | If no value rises and one value falls, the sum of values falls. This is the loop's termination measure. |
| WaveFunctionCollapse.Collapse | wave_function_collapse.hpp:154-155 | One step on a positive selection keeps every value in `[0, 9]`. No value rises, the selected cell falls, and the sum of values falls. |
| WaveFunctionCollapse.Start | wave_function_collapse.hpp:148-161 | The run terminates within 9·9·9 steps with every cell and the maximum at 0. There is one snapshot before the loop and one per step. Each snapshot is a full grid, and no cell's value rises from one snapshot to the next. |
| WaveFunctionCollapse.PropagationRange | wave_function_collapse.hpp:121 | The range the code computes is non-empty exactly when the neighbour exceeds the collapsed value by at least two. When non-empty, it lies strictly between the two values. |
| WaveFunctionCollapse.InvertedRangeExample | wave_function_collapse.hpp:113-121 | Take a grid with two adjacent cells at 1 and all others at 0. The selected corner collapses to 0, and its positive neighbour then gets the inverted range `[1, 0]`. |
| LinkedList.New | linked_list.hpp:179-183 | A new list satisfies the size invariant and has no nodes. |
| LinkedList.Empty | linked_list.hpp:24-27 | `empty()` holds exactly when the chain has no nodes. |
| LinkedList.Size | linked_list.hpp:28-31 | `size()` is the number of nodes in the chain. |
| LinkedList.Add | linked_list.hpp:32-44 | The item becomes the first element, the old elements follow in order, and the size grows by one. |
| LinkedList.WalkFrom | linked_list.hpp:50-54 | The walk stops at position `bound` when the chain is longer than `bound`, and otherwise falls off the tail. |
| LinkedList.Insert | linked_list.hpp:45-65 | With `0 < i ≤ size`, the result is `s[..i] + [item] + s[i..]`. With `i == 0` it acts as `add`. With `i > size` the list is unchanged. The size invariant is kept in every case. |
| LinkedList.UnlinkFirst | linked_list.hpp:71-90 | The walk drops exactly the element at the first position holding the value, or nothing when the value is absent. |
| LinkedList.RemoveValue | linked_list.hpp:66-91 | Only the first occurrence is deleted. The elements before it (none equal to the value) and after it keep their order, and the size drops by one. An absent value changes nothing. |
| LinkedList.UnlinkAll | linked_list.hpp:97-117 | The result has no occurrence of the value, has every other element with its multiplicity, and its length drops by the value's count. |
| LinkedList.RemoveValueAll | linked_list.hpp:92-118 | Every occurrence is removed, all other elements are kept with their counts, and the size drops by the number removed. The result is the filter `UnlinkAll`, whose order of kept elements `UnlinkAllAppend` and `UnlinkAllAbsent` fix. |
| LinkedList.RemoveIndex | linked_list.hpp:119-163 | An empty list or an index at or past the size changes nothing. Otherwise exactly element `i` is removed, the others keep their order, and the size drops by one. |
| LinkedList.AddThenRemoveIndex | linked_list.hpp:119-163 | `remove_index(0)` undoes `add`. |
| LinkedList.InsertThenRemoveIndex | linked_list.hpp:45-65 | `remove_index(i)` undoes `insert(item, i)` for every in-range `i`, including 0. |
| LinkedList.RemoveValueIsRemoveIndex | linked_list.hpp:66-91 | `remove_value(v)` removes the same node as `remove_index` at the first position holding `v`. When `v` is absent, both leave the list alone. |
| LinkedList.AddThenRemoveValue | linked_list.hpp:66-91 | `remove_value(item)` undoes `add(item)`. |
| LinkedList.UnlinkAllAppend | linked_list.hpp:92-118 | Filtering distributes over concatenation, so the kept elements stay in their original order. |
| LinkedList.UnlinkAllAbsent | linked_list.hpp:92-118 | A list without the value passes through the filter unchanged. |
| LinkedList.RemoveValueAllIdempotent | linked_list.hpp:92-118 | Applying `remove_value_all` twice is the same as applying it once. |
| Functions.Sort | functions.hpp:49 | The result is sorted ascending and is a permutation of the input. |
| Functions.SortedPermutationUnique | functions.hpp:49 | Two sorted permutations of the same integers are equal, so the choice of sort does not matter. |
| Functions.BinarySearch | functions.hpp:47-59 | The returned vector is a sorted permutation of the input. The result is -1 or an index of it. A non-negative result indexes the target. The result is -1 exactly when the target is absent, including for an empty vector. |

## Left out

- Snapshot output: `readGraph`'s file handling is not modelled. That covers appending
  to `output.txt`, the line breaks, and silently giving up when the file cannot be
  opened. A snapshot is the list of values, and `Start` returns them all.
- Random number generation: the Mersenne-Twister state, time seeding and
  floating-point distributions are not modelled. Shuffle fairness is statistical and
  cannot be stated, so the tie-break is an arbitrary choice.
- Console printing (`print.hpp`, `linked_list::print`, and the messages printed by
  `remove_index`) is not modelled.
- The linked list's destructor and node deallocation are not modelled, because the
  sequence abstraction has no pointers to free.
- `lin_growth` and `percent` are not modelled. They are floating-point arithmetic and
  type inspection.
- Functions.BinarySearch: the template is modelled on `int` only, and `(L + R)` is
  computed without the 32-bit overflow the source can hit on huge vectors. The
  `size_t`-to-`int` conversion of `size() - 1` is taken to give -1 for an empty vector
  and to be exact otherwise.
- LinkedList.Insert: for `index == 0` the result is stated as `add` only for lists
  shorter than the largest `size_t`. The node counter `l_size` is an unbounded
  natural, so its own wrap-around is not modelled; no list in memory can reach it.
- WaveFunctionCollapse.FindLowestEntropy: requires every value to lie in
  `[0, Sentinel - 1]`, which the run never leaves. Outside that range the scan still
  finds the least positive value whenever one lies below the sentinel, and goes wrong
  in two cases only. A negative cell is taken as the minimum. When no positive value
  lies below the sentinel, a cell at exactly the sentinel is appended to the incoming
  list, and larger cells are skipped.
- WaveFunctionCollapse.GetNeighbours: states the skip policy for an empty range. The
  source instead calls the random source with an inverted range, which is undefined
  behaviour (see Findings).
- Grid size and initial entropy are the source's fixed constants 9 and 9. The model
  does not generalise them.

## Findings

| source | as written | input that shows it | evidently intended | confidence | as-written member | corrected member |
|---|---|---|---|---|---|---|
| wave_function_collapse.hpp:121 | Each positive neighbour draws from `[lowest.value + 1, old - 1]` with no check that the range is non-empty. `uniform_real_distribution` requires `min <= max`. | A grid whose only positive cells are two adjacent cells at 1: the selected one collapses to 0 (its range is `[0, 0]`), and its neighbour at 1 gets the range `[1, 0]`. A run from the all-9 grid reaches the same situation: (1) the corner collapses to 0 and (0,1) and (1,0) are narrowed to 1; (2) (0,1) is selected and collapses to 0, narrowing (1,1) to 1; (3) (1,0) is selected and collapses to 0, and its neighbour (1,1) gets `[1, 0]`. | A neighbour whose range is empty is left as it is, so it stays strictly above the collapsed value and never rises. | high that the range is inverted; not executed | WaveFunctionCollapse.PropagationRange, WaveFunctionCollapse.InvertedRangeExample | WaveFunctionCollapse.GetNeighbours |
