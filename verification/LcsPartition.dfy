/** The work partition in main of plcs/plcs.c: every anti-diagonal of the table is
    cut into consecutive blocks of rows, one per worker. */
module LcsPartition {
  /** thread_todo_list[round][id]; all zero where main writes nothing. */
  datatype Entry = Entry(startCol: int, startRow: int, endRow: int)

  const NO_WORK := Entry(0, 0, 0)

  function FirstRow(m: nat, round: nat): nat {
    if round < m then 0 else round - m + 1
  }

  function LastRow(n: nat, round: nat): int {
    if round < n then round else n - 1
  }

  /** Row y of diagonal x is a cell of the n by m table. */
  predicate IsCell(n: nat, m: nat, x: int, y: int) {
    0 <= y < n && 0 <= x - y < m
  }

  lemma DiagonalRows(n: nat, m: nat, x: nat, y: int)
    requires n >= 1 && m >= 1 && x < n + m - 1
    ensures FirstRow(m, x) <= LastRow(n, x)
    ensures FirstRow(m, x) <= y <= LastRow(n, x) <==> IsCell(n, m, x, y)
  {
  }

  function Size(n: nat, m: nat, round: nat): int {
    LastRow(n, round) - FirstRow(m, round) + 1
  }

  /** How many workers get a block on a diagonal of the given size. */
  function Needed(size: nat, t: nat): nat {
    if size < t then size else t
  }

  /** First row, counted from the diagonal's first, of block id (from 1). */
  function BlockStart(size: nat, t: nat, id: nat): nat
    requires t >= 1 && id >= 1
  {
    if size < t then id - 1
    else (id - 1) * (size / t) + (if id - 1 < size % t then id - 1 else size % t)
  }

  /** The partition as a function: what worker id finds in round. */
  function Todo(n: nat, m: nat, t: nat, round: nat, id: nat): Entry
    requires n >= 1 && m >= 1 && t >= 1 && round < n + m - 1 && id >= 1
  {
    DiagonalRows(n, m, round, 0);
    var size := Size(n, m, round);
    if id > Needed(size, t) then NO_WORK
    else
      var first := FirstRow(m, round) + BlockStart(size, t, id);
      Entry(round - first, first, FirstRow(m, round) + BlockStart(size, t, id + 1) - 1)
  }

  lemma BlockBounds(size: nat, t: nat, id: nat)
    requires t >= 1 && size >= 1 && 1 <= id <= Needed(size, t)
    ensures BlockStart(size, t, 1) == 0
    ensures BlockStart(size, t, id) < BlockStart(size, t, id + 1)
    ensures BlockStart(size, t, Needed(size, t) + 1) == size
  {
    if size >= t {
      var q := size / t;
      assert id * q == (id - 1) * q + q;
      assert t * q + size % t == size;
      assert q >= 1;
    }
  }

  lemma {:induction false} BlocksMonotone(size: nat, t: nat, i: nat, j: nat)
    requires t >= 1 && size >= 1 && 1 <= i <= j <= Needed(size, t) + 1
    ensures BlockStart(size, t, i) <= BlockStart(size, t, j)
    decreases j
  {
    if i < j {
      BlockBounds(size, t, j - 1);
      BlocksMonotone(size, t, i, j - 1);
    }
  }

  /** Worker id's block on diagonal x contains row y. */
  predicate Owns(n: nat, m: nat, t: nat, x: nat, y: int, id: nat)
    requires n >= 1 && m >= 1 && t >= 1 && x < n + m - 1 && id >= 1
  {
    && id <= Needed(Size(n, m, x), t)
    && Todo(n, m, t, x, id).startRow <= y <= Todo(n, m, t, x, id).endRow
  }

  /** The worker whose block contains row y. */
  function Owner(n: nat, m: nat, t: nat, x: nat, y: int): (id: nat)
    requires n >= 1 && m >= 1 && t >= 1 && x < n + m - 1 && IsCell(n, m, x, y)
    ensures 1 <= id <= t && Owns(n, m, t, x, y, id)
  {
    DiagonalRows(n, m, x, y);
    BlockBounds(Size(n, m, x), t, 1);
    OwnerFrom(n, m, t, x, y, 1)
  }

  function OwnerFrom(n: nat, m: nat, t: nat, x: nat, y: int, id: nat): (r: nat)
    requires n >= 1 && m >= 1 && t >= 1 && x < n + m - 1 && IsCell(n, m, x, y)
    requires 1 <= id <= Needed(Size(n, m, x), t)
    requires FirstRow(m, x) + BlockStart(Size(n, m, x), t, id) <= y
    ensures id <= r <= Needed(Size(n, m, x), t) && Owns(n, m, t, x, y, r)
    decreases Needed(Size(n, m, x), t) - id
  {
    DiagonalRows(n, m, x, y);
    BlockBounds(Size(n, m, x), t, id);
    if y <= Todo(n, m, t, x, id).endRow then id else OwnerFrom(n, m, t, x, y, id + 1)
  }

  /** Every cell of the diagonal lies in exactly one block, every block lies on the
      diagonal and is not empty, and the all-zero entry that means "nothing to do"
      is never the work of a worker other than number 1. */
  lemma PartitionExact(n: nat, m: nat, t: nat, x: nat, id: nat)
    requires n >= 1 && m >= 1 && t >= 1 && x < n + m - 1 && 1 <= id <= t
    ensures Todo(n, m, t, x, id).startRow <= Todo(n, m, t, x, id).endRow
    ensures id <= Needed(Size(n, m, x), t) ==> Todo(n, m, t, x, id).startCol + Todo(n, m, t, x, id).startRow == x
    ensures forall y :: Owns(n, m, t, x, y, id) ==> IsCell(n, m, x, y) && Owner(n, m, t, x, y) == id
    ensures Todo(n, m, t, x, id) == NO_WORK && id != 1 ==> id > Needed(Size(n, m, x), t)
    ensures id == 1 ==> id <= Needed(Size(n, m, x), t)
  {
    DiagonalRows(n, m, x, 0);
    var size := Size(n, m, x);
    if id <= Needed(size, t) {
      BlockBounds(size, t, id);
      BlocksMonotone(size, t, 1, id);
      BlocksMonotone(size, t, id + 1, Needed(size, t) + 1);
      if id > 1 { BlockBounds(size, t, id - 1); BlocksMonotone(size, t, 1, id - 1); }
      forall y | Owns(n, m, t, x, y, id) ensures IsCell(n, m, x, y) && Owner(n, m, t, x, y) == id {
        DiagonalRows(n, m, x, y);
        var o := Owner(n, m, t, x, y);
        if o < id { BlocksMonotone(size, t, o + 1, id); }
        else if id < o { BlocksMonotone(size, t, id + 1, o); }
      }
    }
  }

  function Rows(n: nat, m: nat, t: nat, x: nat, id: nat): int
    requires n >= 1 && m >= 1 && t >= 1 && x < n + m - 1 && id >= 1
  {
    Todo(n, m, t, x, id).endRow - Todo(n, m, t, x, id).startRow + 1
  }

  /** The work is shared out evenly: as many workers as the diagonal has cells get some, up
      to all of them, and no two of them differ by more than one row, earlier ones having
      the longer blocks. */
  lemma PartitionEven(n: nat, m: nat, t: nat, x: nat, a: nat, b: nat)
    requires n >= 1 && m >= 1 && t >= 1 && x < n + m - 1 && 1 <= a <= b
    ensures Size(n, m, x) >= 1
    ensures b <= t && b <= Size(n, m, x) ==> Rows(n, m, t, x, b) >= 1 && 0 <= Rows(n, m, t, x, a) - Rows(n, m, t, x, b) <= 1
    ensures b > t || b > Size(n, m, x) ==> Todo(n, m, t, x, b) == NO_WORK
  {
    DiagonalShape(n, m, x);
    TodoValue(n, m, t, x, a);
    TodoValue(n, m, t, x, b);
    NextBlock(Size(n, m, x), t, a);
    NextBlock(Size(n, m, x), t, b);
    if b <= Needed(Size(n, m, x), t) { BlockBounds(Size(n, m, x), t, b); }
    hide Todo, BlockStart, Size, BaseSize;
  }

  /** The partition loop of main. */
  method FillTodo(n: nat, m: nat, t: nat) returns (todo: array2<Entry>)
    requires n >= 1 && m >= 1 && t >= 2
    ensures fresh(todo) && todo.Length0 == n + m - 1 && todo.Length1 == t + 1
    ensures forall r: nat, id: nat :: r < n + m - 1 && 1 <= id <= t ==> todo[r, id] == Todo(n, m, t, r, id)
  {
    todo := new Entry[n + m - 1, t + 1]((_, _) => NO_WORK);
    for round := 0 to n + m - 1
      invariant forall r: nat, id: nat :: r < round && 1 <= id <= t ==> todo[r, id] == Todo(n, m, t, r, id)
      invariant forall r: nat, id: nat :: round <= r < n + m - 1 && 1 <= id <= t ==> todo[r, id] == NO_WORK
    {
      FillRound(n, m, t, round, todo);
    }
  }

  /** One iteration of it: the entries of a single diagonal. */
  method FillRound(n: nat, m: nat, t: nat, round: nat, todo: array2<Entry>)
    requires n >= 1 && m >= 1 && t >= 2 && round < n + m - 1
    requires todo.Length0 == n + m - 1 && todo.Length1 == t + 1
    requires forall id: nat :: 1 <= id <= t ==> todo[round, id] == NO_WORK
    modifies todo
    ensures forall r: nat, id: nat :: r < n + m - 1 && r != round && id <= t ==> todo[r, id] == old(todo[r, id])
    ensures forall id: nat :: 1 <= id <= t ==> todo[round, id] == Todo(n, m, t, round, id)
  {
    hide BlockStart, Extra, Todo, BaseSize, Needed, Size, FirstRow, LastRow;
    var diagonalStartCol := if round < m then round else m - 1;
    var diagonalStartRow := if round < m then 0 else round - m + 1;
    var diagonalEndRow := if round < n then round else n - 1;
    var diagonalSize := diagonalEndRow - diagonalStartRow + 1;
    DiagonalShape(n, m, round);
    var startRow := diagonalStartRow;
    var startCol := diagonalStartCol;
    var blockSize := diagonalSize / t;
    var neededThreads := t;
    var remainPart := diagonalSize % t;
    if diagonalSize < t {
      neededThreads := diagonalSize;
      blockSize := 1;
      remainPart := 0;
    }
    FirstBlock(diagonalSize, t);
    var i := 1;
    while i <= neededThreads
      invariant 1 <= i <= neededThreads + 1
      invariant remainPart == Extra(diagonalSize, t, i)
      invariant startRow == diagonalStartRow + BlockStart(diagonalSize, t, i)
      invariant startCol == round - startRow
      invariant forall r: nat, id: nat :: r < n + m - 1 && r != round && id <= t ==> todo[r, id] == old(todo[r, id])
      invariant forall id: nat :: 1 <= id < i ==> todo[round, id] == Todo(n, m, t, round, id)
      invariant forall id: nat :: i <= id <= t ==> todo[round, id] == NO_WORK
    {
      BlockStep(n, m, t, round, i);
      var threadBlockSize := blockSize;
      if remainPart > 0 {
        threadBlockSize := threadBlockSize + 1;
        remainPart := remainPart - 1;
      }
      var endRow := startRow + threadBlockSize - 1;
      if endRow > diagonalEndRow {
        endRow := diagonalEndRow;
      }
      todo[round, i] := Entry(startCol, startRow, endRow);
      startCol := startCol - (endRow - startRow) - 1;
      startRow := endRow + 1;
      i := i + 1;
    }
    RestIdle(n, m, t, round);
  }

  /** The diagonal's ends as the loop computes them. */
  lemma DiagonalShape(n: nat, m: nat, round: nat)
    requires n >= 1 && m >= 1 && round < n + m - 1
    ensures FirstRow(m, round) == if round < m then 0 else round - m + 1
    ensures LastRow(n, round) == if round < n then round else n - 1
    ensures Size(n, m, round) == LastRow(n, round) - FirstRow(m, round) + 1 >= 1
  {
    DiagonalRows(n, m, round, 0);
  }

  /** One block: its entry, and what the next one starts from. */
  lemma BlockStep(n: nat, m: nat, t: nat, round: nat, i: nat)
    requires n >= 1 && m >= 1 && t >= 1 && round < n + m - 1 && 1 <= i
    requires Size(n, m, round) >= 0 && i <= Needed(Size(n, m, round), t)
    ensures var (size, row) := (Size(n, m, round), FirstRow(m, round));
            var (first, next) := (row + BlockStart(size, t, i), row + BlockStart(size, t, i + 1));
            && Todo(n, m, t, round, i) == Entry(round - first, first, next - 1)
            && first < next <= row + size && next == first + BaseSize(size, t) + (if Extra(size, t, i) > 0 then 1 else 0)
            && Extra(size, t, i + 1) == if Extra(size, t, i) > 0 then Extra(size, t, i) - 1 else 0
  {
    DiagonalShape(n, m, round);
    NextBlock(Size(n, m, round), t, i);
    TodoValue(n, m, t, round, i);
    BlockBounds(Size(n, m, round), t, i);
    BlocksMonotone(Size(n, m, round), t, i + 1, Needed(Size(n, m, round), t) + 1);
    hide BlockStart, Extra, Todo, BaseSize, FirstRow, LastRow, Size;
  }

  lemma RestIdle(n: nat, m: nat, t: nat, round: nat)
    requires n >= 1 && m >= 1 && t >= 1 && round < n + m - 1 && Size(n, m, round) >= 0
    ensures forall id: nat :: Needed(Size(n, m, round), t) < id <= t ==> Todo(n, m, t, round, id) == NO_WORK
  {
    forall id: nat | Needed(Size(n, m, round), t) < id <= t ensures Todo(n, m, t, round, id) == NO_WORK {
      TodoValue(n, m, t, round, id);
    }
  }

  lemma TodoValue(n: nat, m: nat, t: nat, round: nat, id: nat)
    requires n >= 1 && m >= 1 && t >= 1 && round < n + m - 1 && id >= 1
    ensures FirstRow(m, round) <= LastRow(n, round)
    ensures var size := Size(n, m, round);
            var first := FirstRow(m, round) + BlockStart(size, t, id);
            Todo(n, m, t, round, id) ==
              if id > Needed(size, t) then NO_WORK
              else Entry(round - first, first, FirstRow(m, round) + BlockStart(size, t, id + 1) - 1)
  {
    DiagonalRows(n, m, round, 0);
  }

  /** How many of the one-row extras are left before block i. */
  function Extra(size: nat, t: nat, i: nat): nat
    requires t >= 1 && i >= 1
  {
    if size < t || size % t <= i - 1 then 0 else size % t - (i - 1)
  }

  function BaseSize(size: nat, t: nat): nat
    requires t >= 1
  {
    if size < t then 1 else size / t
  }

  lemma FirstBlock(size: nat, t: nat)
    requires t >= 1
    ensures BlockStart(size, t, 1) == 0 && Extra(size, t, 1) == (if size < t then 0 else size % t)
    ensures BaseSize(size, t) == (if size < t then 1 else size / t) && Needed(size, t) == if size < t then size else t
  {
  }

  lemma NextBlock(size: nat, t: nat, i: nat)
    requires t >= 1 && i >= 1
    ensures BlockStart(size, t, i + 1) ==
            BlockStart(size, t, i) + BaseSize(size, t) + (if Extra(size, t, i) > 0 then 1 else 0)
    ensures Extra(size, t, i + 1) == if Extra(size, t, i) > 0 then Extra(size, t, i) - 1 else 0
  {
    assert i * (size / t) == (i - 1) * (size / t) + size / t;
  }
}
