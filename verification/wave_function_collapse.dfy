/** The entropy-collapse engine: a square grid of cells, each holding an entropy value,
    is repeatedly reduced by collapsing a cell of least positive entropy to a smaller
    value and narrowing its orthogonal neighbours, until every cell holds zero.

    The grid is stored row-major: the cell at row x, column y sits at offset
    x * Size + y. The engine's working state (the grid plus the `lowest`, `highest`
    and `vec` members) is a value, and each step returns the next one. */
module WaveFunctionCollapse {
  import Rng

  /** ARRAY_SIZE: the side length of the grid. */
  const Size: int := 9
  /** The entropy every cell starts with. */
  const InitialEntropy: int := 9
  /** The starting value of the minimum scan; it must exceed every cell value. */
  const Sentinel: int := 10

  datatype Cell = Cell(value: int, x: int, y: int)

  type Grid = seq<Cell>

  /** The engine's fields: the grid, the selected cell, the grid maximum (kept in a
      cell whose coordinates are never used) and the tie list of the last scan. */
  datatype State = State(grid: Grid, lowest: Cell, highest: Cell, vec: seq<Cell>)

  function Index(x: int, y: int): int {
    x * Size + y
  }

  predicate InBounds(x: int, y: int) {
    0 <= x < Size && 0 <= y < Size
  }

  /** Every cell carries the coordinates of its own offset. */
  predicate WellFormed(g: Grid) {
    |g| == Size * Size &&
    forall k :: 0 <= k < |g| ==> g[k].x == k / Size && g[k].y == k % Size
  }

  predicate ValuesWithin(g: Grid, lo: int, hi: int) {
    forall k :: 0 <= k < |g| ==> lo <= g[k].value <= hi
  }

  /** The run's invariant: a well-formed grid whose values lie in [0, InitialEntropy]. */
  predicate Valid(g: Grid) {
    WellFormed(g) && ValuesWithin(g, 0, InitialEntropy)
  }

  /** The four orthogonal neighbours: up, down, left and right. */
  predicate Adjacent(a: Cell, b: Cell) {
    (b.x == a.x - 1 && b.y == a.y) || (b.x == a.x + 1 && b.y == a.y) ||
    (b.x == a.x && b.y == a.y - 1) || (b.x == a.x && b.y == a.y + 1)
  }

  ghost predicate AnyPositive(s: seq<Cell>) {
    exists c :: c in s && c.value > 0
  }

  /** `m` is the least positive value among the cells of `s`. */
  ghost predicate LeastPositiveValue(s: seq<Cell>, m: int) {
    m > 0 &&
    (exists c :: c in s && c.value == m) &&
    (forall c :: c in s && c.value > 0 ==> m <= c.value)
  }

  /** `c` is a cell of `g` holding the least positive value of the grid. */
  ghost predicate IsLeastPositive(g: Grid, c: Cell) {
    c in g && c.value > 0 && forall d :: d in g && d.value > 0 ==> c.value <= d.value
  }

  /** `m` is the greatest value of the grid. */
  ghost predicate IsMaximum(g: Grid, m: int) {
    (exists k :: 0 <= k < |g| && g[k].value == m) &&
    (forall k :: 0 <= k < |g| ==> g[k].value <= m)
  }

  /** The cells among the first `k` whose value is `m`, in row-major order. */
  ghost function Ties(g: Grid, k: nat, m: int): seq<Cell>
    requires k <= |g|
  {
    if k == 0 then []
    else Ties(g, k - 1, m) + (if g[k - 1].value == m then [g[k - 1]] else [])
  }

  /** The values of the grid, row-major: what one snapshot records. */
  function Values(g: Grid): (v: seq<int>)
    ensures |v| == |g|
    ensures forall k :: 0 <= k < |g| ==> v[k] == g[k].value
  {
    seq(|g|, k requires 0 <= k < |g| => g[k].value)
  }

  /** No entry of `after` exceeds the entry of `before` at the same offset. */
  predicate NonIncreasing(before: seq<int>, after: seq<int>) {
    |before| == |after| && forall k :: 0 <= k < |before| ==> after[k] <= before[k]
  }

  /** The sum of all values, which every step strictly lowers. */
  function Sum(g: Grid): int {
    if |g| == 0 then 0 else g[0].value + Sum(g[1..])
  }

  // ---------------------------------------------------------------------------
  // Operations

  /** createGraph(): every cell gets the initial entropy and its own coordinates, and
      both the selection and the maximum start at the corner cell's value. */
  method CreateGraph() returns (s: State)
    ensures WellFormed(s.grid)
    ensures forall k :: 0 <= k < |s.grid| ==> s.grid[k].value == InitialEntropy
    ensures s.lowest == Cell(InitialEntropy, 0, 0) && s.lowest == s.grid[0]
    ensures s.highest == Cell(InitialEntropy, 0, 0)
    ensures s.vec == []
  {
    var g: Grid := [];
    var i := 0;
    while i < Size
      invariant 0 <= i <= Size
      invariant |g| == i * Size
      invariant forall k :: 0 <= k < |g| ==> g[k] == Cell(InitialEntropy, k / Size, k % Size)
    {
      var j := 0;
      while j < Size
        invariant 0 <= j <= Size
        invariant |g| == i * Size + j
        invariant forall k :: 0 <= k < |g| ==> g[k] == Cell(InitialEntropy, k / Size, k % Size)
      {
        g := g + [Cell(InitialEntropy, i, j)];
        j := j + 1;
      }
      i := i + 1;
    }
    s := State(g, Cell(g[0].value, 0, 0), Cell(g[0].value, 0, 0), []);
  }

  lemma {:induction false} TiesMembers(g: Grid, k: nat, m: int, c: Cell)
    requires k <= |g|
    ensures c in Ties(g, k, m) <==> c in g[..k] && c.value == m
  {
    if k > 0 {
      assert g[..k] == g[..k - 1] + [g[k - 1]];
      TiesMembers(g, k - 1, m, c);
    }
  }

  lemma TiesEmpty(g: Grid, k: nat, m: int)
    requires k <= |g|
    requires forall c :: c in g[..k] ==> c.value != m
    ensures Ties(g, k, m) == []
  {
  }

  /** What the scan of findLowestEntropy() does with one cell: skip it when it lies
      above the running minimum or is already collapsed, append it on a tie, and
      restart the list from it otherwise. */
  function ScanCell(check: int, vec: seq<Cell>, c: Cell): (int, seq<Cell>) {
    if c.value > check || c.value == 0 then (check, vec)
    else if c.value > 0 && c.value == check then (check, vec + [c])
    else (c.value, [c])
  }

  /** After the first `k` cells the running minimum is the least positive value seen and
      the list holds exactly the cells seen at it; before any positive cell the sentinel
      and the incoming list are untouched. */
  ghost predicate ScanInvariant(g: Grid, k: nat, vec0: seq<Cell>, check: int, vec: seq<Cell>) {
    k <= |g| &&
    (AnyPositive(g[..k]) ==> LeastPositiveValue(g[..k], check) && vec == Ties(g, k, check)) &&
    (!AnyPositive(g[..k]) ==> check == Sentinel && vec == vec0)
  }

  lemma ScanCellStep(g: Grid, k: nat, vec0: seq<Cell>, check: int, vec: seq<Cell>)
    requires k < |g|
    requires 0 <= g[k].value < Sentinel
    requires ScanInvariant(g, k, vec0, check, vec)
    ensures ScanInvariant(g, k + 1, vec0, ScanCell(check, vec, g[k]).0, ScanCell(check, vec, g[k]).1)
  {
    var c := g[k];
    assert g[..k + 1] == g[..k] + [c];
    if AnyPositive(g[..k]) {
      var w :| w in g[..k] && w.value > 0;
      assert w in g[..k + 1];
      if c.value > 0 && c.value < check {
        TiesEmpty(g, k, c.value);
      }
    } else if c.value > 0 {
      TiesEmpty(g, k, c.value);
    } else {
      assert !AnyPositive(g[..k + 1]);
    }
  }

  /** Once the whole grid is scanned, the list is exactly the set of least positive
      cells, and it is non-empty when some cell is positive. */
  lemma ScanComplete(g: Grid, vec0: seq<Cell>, check: int, vec: seq<Cell>)
    requires ScanInvariant(g, |g|, vec0, check, vec)
    requires AnyPositive(g)
    ensures vec != []
    ensures forall c :: c in vec <==> IsLeastPositive(g, c)
  {
    assert g[..|g|] == g;
    var w :| w in g && w.value == check;
    TiesMembers(g, |g|, check, w);
    forall c
      ensures c in vec <==> IsLeastPositive(g, c)
    {
      TiesMembers(g, |g|, check, c);
    }
  }

  /** findLowestEntropy(): a row-major scan collects the cells at the least positive
      value (the scan clears its list whenever a smaller positive value turns up), the
      list is shuffled and its front becomes the selection. With no positive cell the
      list and the selection are left as they were. */
  method FindLowestEntropy(s: State) returns (s': State)
    requires ValuesWithin(s.grid, 0, Sentinel - 1)
    ensures s'.grid == s.grid && s'.highest == s.highest
    ensures AnyPositive(s.grid) ==> s'.vec != []
    ensures AnyPositive(s.grid) ==> forall c :: c in s'.vec <==> IsLeastPositive(s.grid, c)
    ensures AnyPositive(s.grid) ==>
      exists m :: LeastPositiveValue(s.grid, m) && multiset(s'.vec) == multiset(Ties(s.grid, |s.grid|, m))
    ensures !AnyPositive(s.grid) ==> multiset(s'.vec) == multiset(s.vec)
    ensures !AnyPositive(s.grid) && s.vec == [] ==> s' == s
    ensures s'.vec == [] ==> s'.lowest == s.lowest
    ensures s'.vec != [] ==> s'.lowest == s'.vec[0]
  {
    var g := s.grid;
    var check := Sentinel;
    var vec := s.vec;
    var k := 0;
    while k < |g|
      invariant ScanInvariant(g, k, s.vec, check, vec)
    {
      ScanCellStep(g, k, s.vec, check, vec);
      var next := ScanCell(check, vec, g[k]);
      check, vec := next.0, next.1;
      k := k + 1;
    }
    assert g[..k] == g;
    if AnyPositive(g) {
      ScanComplete(g, s.vec, check, vec);
    }
    if vec == [] {
      return s.(vec := vec);
    }
    // std::shuffle: any arrangement of the list
    var shuffled :| multiset(shuffled) == multiset(vec);
    forall c
      ensures c in shuffled <==> c in vec
    {
      assert c in shuffled <==> c in multiset(shuffled);
    }
    assert AnyPositive(g) ==>
      LeastPositiveValue(g, check) && multiset(shuffled) == multiset(Ties(g, |g|, check));
    s' := s.(lowest := shuffled[0], vec := shuffled);
  }

  /** findHighestEntropy(): a scan seeded with the corner cell records the largest
      value; no cell changes. */
  method FindHighestEntropy(s: State) returns (s': State)
    requires |s.grid| > 0
    ensures s'.grid == s.grid && s'.lowest == s.lowest && s'.vec == s.vec
    ensures s'.highest.x == s.highest.x && s'.highest.y == s.highest.y
    ensures IsMaximum(s.grid, s'.highest.value)
  {
    var g := s.grid;
    var check := g[0].value;
    ghost var at := 0;
    var k := 0;
    while k < |g|
      invariant 0 <= k <= |g|
      invariant 0 <= at < |g| && g[at].value == check
      invariant forall j :: 0 <= j < k ==> g[j].value <= check
    {
      if g[k].value >= check {
        check := g[k].value;
        at := k;
      }
      k := k + 1;
    }
    s' := s.(highest := s.highest.(value := check));
  }

  /** enactEntropy(): a selection below 1 is left alone; otherwise the selected cell
      drops to a random value below its current one, and the selection follows it. */
  method EnactEntropy(s: State) returns (s': State)
    requires WellFormed(s.grid)
    requires InBounds(s.lowest.x, s.lowest.y)
    requires s.lowest.value >= 1 ==> s.grid[Index(s.lowest.x, s.lowest.y)].value >= 1
    ensures s'.highest == s.highest && s'.vec == s.vec
    ensures s.lowest.value < 1 ==> s' == s
    ensures s.lowest.value >= 1 ==>
      var k := Index(s.lowest.x, s.lowest.y);
      |s'.grid| == |s.grid| &&
      0 <= s'.lowest.value < s.grid[k].value &&
      s'.grid[k] == s.grid[k].(value := s'.lowest.value) &&
      s'.lowest == s.lowest.(value := s'.lowest.value) &&
      forall j :: 0 <= j < |s.grid| && j != k ==> s'.grid[j] == s.grid[j]
  {
    if s.lowest.value < 1 {
      return s;
    }
    var k := Index(s.lowest.x, s.lowest.y);
    var r := Rng.Number(0, s.grid[k].value - 1);
    s' := s.(grid := s.grid[k := s.grid[k].(value := r)], lowest := s.lowest.(value := r));
  }

  /** A neighbour can be narrowed when it is positive and some integer lies strictly
      between the collapsed value and its own. */
  predicate Narrowable(collapsed: int, current: int) {
    current > 0 && collapsed + 1 <= current - 1
  }

  /** Between `g` and `g'` exactly the narrowable cells at the offsets in `targets`
      moved, each into the open interval between `collapsed` and its old value, keeping
      its coordinates; every other cell is as it was. */
  ghost predicate NarrowedAt(g: Grid, g': Grid, collapsed: int, targets: set<int>) {
    |g'| == |g| &&
    forall k :: 0 <= k < |g| ==>
      if k in targets && Narrowable(collapsed, g[k].value) then
        g'[k] == g[k].(value := g'[k].value) && collapsed < g'[k].value < g[k].value
      else
        g'[k] == g[k]
  }

  /** One direction of getNeighbours(): a positive neighbour takes a random value in
      [collapsed + 1, old - 1]. When that range is empty the neighbour is skipped. */
  method Propagate(g: Grid, k: int, collapsed: int) returns (g': Grid)
    requires 0 <= k < |g|
    ensures NarrowedAt(g, g', collapsed, {k})
  {
    g' := g;
    if g[k].value > 0 {
      var lo, hi := collapsed + 1, g[k].value - 1;
      if lo <= hi {
        var r := Rng.Number(lo, hi);
        g' := g[k := g[k].(value := r)];
      }
    }
  }

  /** One bounds-tested direction of getNeighbours(): propagate to offset `k` only when
      the neighbour exists. */
  method PropagateIf(g: Grid, inBounds: bool, k: int, collapsed: int) returns (g': Grid)
    requires inBounds ==> 0 <= k < |g|
    ensures NarrowedAt(g, g', collapsed, if inBounds then {k} else {})
  {
    g' := g;
    if inBounds {
      g' := Propagate(g, k, collapsed);
    }
  }

  /** The offsets of the in-bounds orthogonal neighbours of `c`, one set per direction. */
  function Up(c: Cell): set<int> {
    if c.x > 0 then {Index(c.x - 1, c.y)} else {}
  }
  function Down(c: Cell): set<int> {
    if c.x < Size - 1 then {Index(c.x + 1, c.y)} else {}
  }
  function Left(c: Cell): set<int> {
    if c.y > 0 then {Index(c.x, c.y - 1)} else {}
  }
  function Right(c: Cell): set<int> {
    if c.y < Size - 1 then {Index(c.x, c.y + 1)} else {}
  }
  function NeighbourOffsets(c: Cell): set<int> {
    Up(c) + Down(c) + Left(c) + Right(c)
  }

  /** Offsets of the in-bounds neighbours are exactly the offsets of adjacent cells. */
  lemma AdjacentOffsets(g: Grid, c: Cell, k: int)
    requires WellFormed(g) && InBounds(c.x, c.y)
    requires 0 <= k < |g|
    ensures Adjacent(c, g[k]) <==> k in NeighbourOffsets(c)
  {
  }

  /** Four successive narrowings at the four directions' offsets, which are distinct,
      amount to one narrowing at all of them. */
  lemma FourNarrowings(g0: Grid, g1: Grid, g2: Grid, g3: Grid, g4: Grid, c: Cell)
    requires InBounds(c.x, c.y)
    requires NarrowedAt(g0, g1, c.value, Up(c))
    requires NarrowedAt(g1, g2, c.value, Down(c))
    requires NarrowedAt(g2, g3, c.value, Left(c))
    requires NarrowedAt(g3, g4, c.value, Right(c))
    ensures NarrowedAt(g0, g4, c.value, NeighbourOffsets(c))
  {
  }

  /** Narrowing at the neighbour offsets is narrowing at the adjacent cells. */
  lemma NarrowedNeighbours(g: Grid, g': Grid, c: Cell)
    requires WellFormed(g) && InBounds(c.x, c.y)
    requires NarrowedAt(g, g', c.value, NeighbourOffsets(c))
    ensures forall k :: 0 <= k < |g| ==>
      if Adjacent(c, g[k]) && Narrowable(c.value, g[k].value) then
        g'[k] == g[k].(value := g'[k].value) && c.value < g'[k].value < g[k].value
      else
        g'[k] == g[k]
  {
  }

  /** getNeighbours(): each in-bounds orthogonal neighbour of the selection that is
      still positive is narrowed into the open interval between the collapsed value and
      its own value; every other cell, the selection's own included, keeps its value. */
  method GetNeighbours(s: State) returns (s': State)
    requires WellFormed(s.grid)
    requires InBounds(s.lowest.x, s.lowest.y)
    ensures s'.lowest == s.lowest && s'.highest == s.highest && s'.vec == s.vec
    ensures |s'.grid| == |s.grid|
    ensures forall k :: 0 <= k < |s.grid| ==>
      if Adjacent(s.lowest, s.grid[k]) && Narrowable(s.lowest.value, s.grid[k].value) then
        s'.grid[k] == s.grid[k].(value := s'.grid[k].value) &&
        s.lowest.value < s'.grid[k].value < s.grid[k].value
      else
        s'.grid[k] == s.grid[k]
  {
    var x, y, v := s.lowest.x, s.lowest.y, s.lowest.value;
    var up := PropagateIf(s.grid, x > 0, Index(x - 1, y), v);
    var down := PropagateIf(up, x < Size - 1, Index(x + 1, y), v);
    var left := PropagateIf(down, y > 0, Index(x, y - 1), v);
    var g := PropagateIf(left, y < Size - 1, Index(x, y + 1), v);
    FourNarrowings(s.grid, up, down, left, g, s.lowest);
    NarrowedNeighbours(s.grid, g, s.lowest);
    s' := s.(grid := g);
  }

  // ---------------------------------------------------------------------------
  // The run

  lemma {:induction false} SumNonNegative(g: Grid)
    requires ValuesWithin(g, 0, InitialEntropy)
    ensures Sum(g) >= 0
    decreases |g|
  {
    if |g| > 0 {
      SumNonNegative(g[1..]);
    }
  }

  lemma {:induction false} SumUniform(g: Grid, v: int)
    requires forall k :: 0 <= k < |g| ==> g[k].value == v
    ensures Sum(g) == v * |g|
    decreases |g|
  {
    if |g| > 0 {
      SumUniform(g[1..], v);
    }
  }

  /** Lowering no cell and at least one cell lowers the sum. */
  lemma {:induction false} SumDecreases(a: Grid, b: Grid, k: int)
    requires NonIncreasing(Values(a), Values(b))
    requires 0 <= k < |a| && b[k].value < a[k].value
    ensures Sum(b) < Sum(a)
    decreases |a|
  {
    assert NonIncreasing(Values(a[1..]), Values(b[1..]));
    if k == 0 {
      SumMonotone(a[1..], b[1..]);
    } else {
      SumDecreases(a[1..], b[1..], k - 1);
    }
  }

  lemma {:induction false} SumMonotone(a: Grid, b: Grid)
    requires NonIncreasing(Values(a), Values(b))
    ensures Sum(b) <= Sum(a)
    decreases |a|
  {
    if |a| > 0 {
      assert NonIncreasing(Values(a[1..]), Values(b[1..]));
      SumMonotone(a[1..], b[1..]);
    }
  }

  /** A cell of a well-formed grid sits at the offset of its own coordinates. */
  lemma CellPosition(g: Grid, c: Cell)
    requires WellFormed(g) && c in g
    ensures InBounds(c.x, c.y) && g[Index(c.x, c.y)] == c
  {
  }

  /** One step's mutation, enactEntropy() then getNeighbours(), on a selection that
      names a positive cell of the grid: the grid stays within [0, InitialEntropy], no
      value rises, the selected cell falls, so the sum of values falls. */
  method Collapse(s: State) returns (s': State)
    requires Valid(s.grid)
    requires s.lowest in s.grid && s.lowest.value > 0
    ensures Valid(s'.grid)
    ensures NonIncreasing(Values(s.grid), Values(s'.grid))
    ensures s'.grid[Index(s.lowest.x, s.lowest.y)].value < s.lowest.value
    ensures Sum(s'.grid) < Sum(s.grid)
    ensures s'.highest == s.highest && s'.vec == s.vec
  {
    CellPosition(s.grid, s.lowest);
    var k := Index(s.lowest.x, s.lowest.y);
    var e := EnactEntropy(s);
    s' := GetNeighbours(e);
    assert !Adjacent(e.lowest, e.grid[k]);
    assert s'.grid[k] == e.grid[k];
    SumDecreases(s.grid, s'.grid, k);
  }

  /** start(): build the grid, record it, and step until the maximum is zero; each step
      collapses, propagates, records the grid, clears the tie list and re-runs both
      scans. Returns the final state, every recorded snapshot, and the number of steps.
      The run ends with every cell at zero after at most Size * Size * InitialEntropy
      steps, and each snapshot is no larger, cell by cell, than the one before. */
  method Start() returns (s: State, snapshots: seq<seq<int>>, steps: nat)
    ensures Valid(s.grid)
    ensures s.highest.value == 0
    ensures forall k :: 0 <= k < |s.grid| ==> s.grid[k].value == 0
    ensures |snapshots| == steps + 1
    ensures steps <= Size * Size * InitialEntropy
    ensures forall i :: 0 <= i < |snapshots| ==> |snapshots[i]| == Size * Size
    ensures forall k :: 0 <= k < |snapshots[0]| ==> snapshots[0][k] == InitialEntropy
    ensures snapshots[steps] == Values(s.grid)
    ensures forall i :: 0 < i < |snapshots| ==> NonIncreasing(snapshots[i - 1], snapshots[i])
  {
    s := CreateGraph();
    snapshots := [Values(s.grid)];
    steps := 0;
    SumUniform(s.grid, InitialEntropy);
    while s.highest.value > 0
      invariant Valid(s.grid)
      invariant IsMaximum(s.grid, s.highest.value)
      invariant s.highest.value > 0 ==> s.lowest in s.grid && s.lowest.value > 0
      invariant |snapshots| == steps + 1
      invariant forall i :: 0 <= i < |snapshots| ==> |snapshots[i]| == Size * Size
      invariant forall k :: 0 <= k < |snapshots[0]| ==> snapshots[0][k] == InitialEntropy
      invariant snapshots[steps] == Values(s.grid)
      invariant forall i :: 0 < i < |snapshots| ==> NonIncreasing(snapshots[i - 1], snapshots[i])
      invariant steps + Sum(s.grid) <= Size * Size * InitialEntropy
      decreases Sum(s.grid)
    {
      s := Collapse(s);
      snapshots := snapshots + [Values(s.grid)];
      steps := steps + 1;
      s := s.(vec := []);
      s := FindLowestEntropy(s);
      ghost var selected := s;
      s := FindHighestEntropy(s);
      if s.highest.value > 0 {
        var k :| 0 <= k < |s.grid| && s.grid[k].value == s.highest.value;
        assert s.grid[k] in s.grid;
        assert AnyPositive(s.grid);
        assert s.lowest == selected.vec[0] && selected.vec[0] in selected.vec;
      }
      SumNonNegative(s.grid);
    }
    SumNonNegative(s.grid);
  }

  // ---------------------------------------------------------------------------
  // The unguarded propagation range

  /** The range getNeighbours() passes to the random source for a neighbour, as the
      source computes it: it holds a value only when the neighbour exceeds the
      collapsed value by at least two. */
  function PropagationRange(collapsed: int, current: int): (range: (int, int))
    ensures range.0 <= range.1 <==> collapsed + 2 <= current
    ensures range.0 <= range.1 ==> collapsed < range.0 && range.1 < current
  {
    (collapsed + 1, current - 1)
  }

  /** A grid whose only positive cells are the two leftmost of the top row, both at 1. */
  function TwoAdjacentOnes(): Grid {
    seq(Size * Size, k requires 0 <= k < Size * Size => Cell(if k < 2 then 1 else 0, k / Size, k % Size))
  }

  /** In that grid the corner cell is a least positive cell, so the tie-break may select
      it; its collapse range is [0, 0], so it collapses to 0; its right-hand neighbour is
      positive, and the range computed for it is [1, 0], which is inverted. The skip
      policy of Propagate leaves that neighbour at 1. */
  lemma InvertedRangeExample()
    ensures WellFormed(TwoAdjacentOnes())
    ensures IsLeastPositive(TwoAdjacentOnes(), TwoAdjacentOnes()[0])
    ensures TwoAdjacentOnes()[0].value - 1 == 0
    ensures Adjacent(TwoAdjacentOnes()[0], TwoAdjacentOnes()[1]) && TwoAdjacentOnes()[1].value > 0
    ensures PropagationRange(0, TwoAdjacentOnes()[1].value) == (1, 0)
    ensures !Narrowable(0, TwoAdjacentOnes()[1].value)
  {
  }
}
