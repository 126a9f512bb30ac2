/**
 * The "conditional code" of a gateway: a number between 1 and 264 is laid
 * out on a 4x4 table whose columns stand for the weights 50, 10, 5 and 1
 * (coloured Red, Orange, Yellow and Green).  Column j is planned to hold
 * min(remaining / weight, 4) cells, written from row 0 downward; a running
 * count of the cells written across all columns stops a column early when
 * it meets the current remaining value.
 */
module ConditionalCode {

  /** Colour written into the cells of each column. */
  const Colors: seq<string> := ["Red", "Orange", "Yellow", "Green"]

  /** Weight of one cell of each column. */
  const Values: seq<nat> := [50, 10, 5, 1]

  /** Content of a cell that is not filled. */
  const Blank: string := " "

  /** Rows (and columns) of the table, and the most cells a column holds. */
  const Size: nat := 4

  const MinGateway: int := 1
  const MaxGateway: int := 264

  /** The argument the caller passes: an integer or any other value. */
  datatype Argument = Integer(n: int) | NonInteger

  /** The two ways the argument is refused. */
  datatype Error = NotAnInteger | OutOfRange(n: int)

  datatype Result<T, E> = Success(value: T) | Failure(error: E)

  /** What the source prints: the table, the planned count of every column
      and the value it prints as "the gateway number" (the final remainder). */
  datatype Encoding = Encoding(table: array2<string>, planned: seq<nat>, shown: int)

  function Min(a: int, b: int): int
  {
    if a < b then a else b
  }

  /** The type and range checks made before anything is built. */
  function Validate(arg: Argument): (r: Result<nat, Error>)
    ensures r.Success? <==> arg.Integer? && MinGateway <= arg.n <= MaxGateway
    ensures r.Success? ==> r.value == arg.n
    ensures arg.NonInteger? ==> r == Failure(NotAnInteger)
    ensures arg.Integer? && !(MinGateway <= arg.n <= MaxGateway) ==> r == Failure(OutOfRange(arg.n))
  {
    match arg
    case NonInteger => Failure(NotAnInteger)
    case Integer(n) =>
      if n < MinGateway || n > MaxGateway then Failure(OutOfRange(n)) else Success(n)
  }

  // ---------------------------------------------------------------------
  // One column
  // ---------------------------------------------------------------------

  /** Weight of `k` cells of column j, that is `k * Values[j]`.  The column
      arithmetic is written out per column, so that every product and
      division has a constant factor (see ColumnArithmetic). */
  function CellsWeight(k: nat, j: nat): nat
    requires j < Size
  {
    if j == 0 then 50 * k else if j == 1 then 10 * k else if j == 2 then 5 * k else k
  }

  /** `rem / Values[j]`, written out per column. */
  function Quotient(rem: nat, j: nat): nat
    requires j < Size
  {
    if j == 0 then rem / 50 else if j == 1 then rem / 10 else if j == 2 then rem / 5 else rem
  }

  /** `rem % Values[j]`, written out per column. */
  function Leftover(rem: nat, j: nat): nat
    requires j < Size
  {
    if j == 0 then rem % 50 else if j == 1 then rem % 10 else if j == 2 then rem % 5 else 0
  }

  /** The per-column arithmetic is the arithmetic on `Values[j]`. */
  lemma ColumnArithmetic(rem: nat, k: nat, j: nat)
    requires j < Size
    ensures CellsWeight(k, j) == k * Values[j]
    ensures Quotient(rem, j) == rem / Values[j]
    ensures Leftover(rem, j) == rem % Values[j]
  {
  }

  /** Cells planned for column j when `rem` is left: `rem / Values[j]`,
      capped at 4 (see PlanFits). */
  function Plan(rem: nat, j: nat): (r: nat)
    requires j < Size
    ensures r <= 4
  {
    Min(Quotient(rem, j), Size)
  }

  /** Value left after column j (see CarryTakesPlanned). */
  function Carry(rem: nat, j: nat): (r: nat)
    requires j < Size
    ensures r <= rem
  {
    if Plan(rem, j) == Size then rem - CellsWeight(Size, j) else Leftover(rem, j)
  }

  /** The planned count is the largest count of at most 4 cells whose
      weight does not exceed `rem`. */
  lemma PlanFits(rem: nat, j: nat)
    requires j < Size
    ensures CellsWeight(Plan(rem, j), j) <= rem
    ensures Plan(rem, j) < Size ==> rem < CellsWeight(Plan(rem, j) + 1, j)
  {
  }

  /** The new remaining value is the old one minus exactly the planned
      cells' weight, and below the column's value when it is not full. */
  lemma CarryTakesPlanned(rem: nat, j: nat)
    requires j < Size
    ensures Carry(rem, j) == rem - CellsWeight(Plan(rem, j), j)
    ensures Plan(rem, j) < Size ==> Carry(rem, j) < Values[j]
  {
  }

  /** Cells actually written in a column planned for `planned` cells when
      `count` cells were written before it and `rem` is the current
      remaining value: writing stops as soon as the running count equals
      `rem`. */
  function Fill(count: nat, rem: nat, planned: nat): (r: nat)
    ensures r <= planned
    ensures r < planned <==> 0 < rem - count < planned
    ensures r < planned ==> count + r == rem
  {
    if 0 < rem - count < planned then rem - count else planned
  }

  // ---------------------------------------------------------------------
  // All columns
  // ---------------------------------------------------------------------

  /** Value left before column j when encoding n. */
  function Remainder(n: nat, j: nat): (r: nat)
    requires j <= Size
    ensures r <= n
  {
    if j == 0 then n else Carry(Remainder(n, j - 1), j - 1)
  }

  /** Planned cells of column j. */
  function PlannedAt(n: nat, j: nat): nat
    requires j < Size
  {
    Plan(Remainder(n, j), j)
  }

  /** Cells written in the columns before column j. */
  function Count(n: nat, j: nat): (r: nat)
    requires j <= Size
    ensures r <= 4 * j
  {
    if j == 0 then 0
    else
      var c := Count(n, j - 1);
      c + Fill(c, Remainder(n, j - 1), PlannedAt(n, j - 1))
  }

  /** Cells actually written in column j. */
  function WrittenAt(n: nat, j: nat): nat
    requires j < Size
  {
    Fill(Count(n, j), Remainder(n, j), PlannedAt(n, j))
  }

  /** Planned cells of every column, in column order. */
  function PlannedCounts(n: nat): seq<nat>
  {
    [PlannedAt(n, 0), PlannedAt(n, 1), PlannedAt(n, 2), PlannedAt(n, 3)]
  }

  /** Written cells of every column, in column order. */
  function WrittenCounts(n: nat): seq<nat>
  {
    [WrittenAt(n, 0), WrittenAt(n, 1), WrittenAt(n, 2), WrittenAt(n, 3)]
  }

  /** Planned cells of the columns before column j, in column order. */
  function PlannedUpTo(n: nat, j: nat): (r: seq<nat>)
    requires j <= Size
    ensures |r| == j
  {
    if j == 0 then [] else PlannedUpTo(n, j - 1) + [PlannedAt(n, j - 1)]
  }

  /** Content of the cell at row r, column c of the table for n. */
  function Cell(n: nat, r: nat, c: nat): string
    requires r < Size && c < Size
  {
    if r < WrittenAt(n, c) then Colors[c] else Blank
  }

  /** The table for n, as a list of rows. */
  function TableOf(n: nat): seq<seq<string>>
  {
    seq(Size, r requires 0 <= r < Size => seq(Size, c requires 0 <= c < Size => Cell(n, r, c)))
  }

  /** Total weight of the counts of the first |counts| columns. */
  function Weight(counts: seq<nat>): nat
    requires |counts| <= Size
  {
    if counts == [] then 0
    else Weight(counts[..|counts| - 1]) + CellsWeight(counts[|counts| - 1], |counts| - 1)
  }

  /** Most weight the columns j.. can hold: 4 cells in each. */
  function Capacity(j: nat): nat
    requires j <= Size
    decreases Size - j
  {
    if j == Size then 0 else CellsWeight(Size, j) + Capacity(j + 1)
  }

  // ---------------------------------------------------------------------
  // The procedure
  // ---------------------------------------------------------------------

  /** The inner loop: writes column j's colour into rows 0, 1, ... of
      `table` for up to `cellsToFill` rows, stopping after the row at which
      the running count, starting at `count`, equals `rem`. */
  method FillColumn(table: array2<string>, j: nat, cellsToFill: nat, count: nat, rem: nat)
    returns (written: nat)
    requires j < Size && cellsToFill <= Size
    requires table.Length0 == Size && table.Length1 == Size
    modifies table
    ensures written == Fill(count, rem, cellsToFill)
    ensures forall r :: 0 <= r < Size ==> table[r, j] == if r < written then Colors[j] else old(table[r, j])
    ensures forall r, c :: 0 <= r < Size && 0 <= c < Size && c != j ==> table[r, c] == old(table[r, c])
  {
    written := 0;
    while written < cellsToFill
      invariant 0 <= written <= cellsToFill
      invariant !(count < rem <= count + written)
      invariant forall r :: 0 <= r < Size ==> table[r, j] == if r < written then Colors[j] else old(table[r, j])
      invariant forall r, c :: 0 <= r < Size && 0 <= c < Size && c != j ==> table[r, c] == old(table[r, c])
    {
      table[written, j] := Colors[j];
      written := written + 1;
      if count + written == rem {
        break;
      }
    }
  }

  /** The 4x4 `table` holds the table for n in its first j columns and is
      blank in the others. */
  predicate FilledUpTo(table: array2<string>, n: nat, j: nat)
    requires j <= Size
    reads table
  {
    table.Length0 == Size && table.Length1 == Size &&
    forall r, c :: 0 <= r < Size && 0 <= c < Size ==>
      table[r, c] == if c < j then Cell(n, r, c) else Blank
  }

  /** One pass of the outer loop: plans column j from the remaining value
      `rem`, writes it with the inner loop starting from the running
      `count`, and computes the remaining value for the next column.  When
      `rem` and `count` are those of column j for `n`, the results are
      column j's plan and written cells and the values for column j + 1. */
  method FillNextColumn(table: array2<string>, ghost n: nat, j: nat, rem: nat, count: nat)
    returns (cellsToFill: nat, written: nat, next: nat)
    requires j < Size
    requires table.Length0 == Size && table.Length1 == Size
    requires rem == Remainder(n, j) && count == Count(n, j)
    requires FilledUpTo(table, n, j)
    modifies table
    ensures cellsToFill == PlannedAt(n, j)
    ensures written == WrittenAt(n, j)
    ensures count + written == Count(n, j + 1)
    ensures next == Remainder(n, j + 1)
    ensures FilledUpTo(table, n, j + 1)
  {
    cellsToFill := Min(rem / Values[j], Size);
    written := FillColumn(table, j, cellsToFill, count, rem);
    ColumnArithmetic(rem, cellsToFill, j);
    if cellsToFill == Size {
      next := rem - cellsToFill * Values[j];
    } else {
      next := rem % Values[j];
    }
  }

  /** The body of the procedure once the argument is accepted: fills a
      fresh 4x4 table column by column and returns it with the planned
      counts and the final remaining value. */
  method FillTable(n: nat) returns (table: array2<string>, planned: seq<nat>, rem: nat)
    ensures fresh(table) && table.Length0 == Size && table.Length1 == Size
    ensures forall i, j :: 0 <= i < Size && 0 <= j < Size ==> table[i, j] == Cell(n, i, j)
    ensures planned == PlannedCounts(n)
    ensures rem == Remainder(n, Size)
  {
    table := new string[Size, Size]((i, j) => Blank);
    var count := 0;
    rem := n;
    planned := [];
    for j := 0 to Size
      invariant rem == Remainder(n, j)
      invariant count == Count(n, j)
      invariant planned == PlannedUpTo(n, j)
      invariant FilledUpTo(table, n, j)
    {
      var cellsToFill, w, next := FillNextColumn(table, n, j, rem, count);
      count := count + w;
      planned := planned + [cellsToFill];
      rem := next;
    }
    UpToAll(n);
  }

  /** After the last column, the lists built column by column are the
      planned and written counts. */
  lemma UpToAll(n: nat)
    ensures PlannedUpTo(n, Size) == PlannedCounts(n)
  {
    assert PlannedUpTo(n, 1) == [PlannedAt(n, 0)];
    assert PlannedUpTo(n, 2) == [PlannedAt(n, 0), PlannedAt(n, 1)];
    assert PlannedUpTo(n, 3) == [PlannedAt(n, 0), PlannedAt(n, 1), PlannedAt(n, 2)];
  }

  /** Checks the argument, then fills a fresh 4x4 table column by column. */
  method GetConditionalCode(arg: Argument) returns (r: Result<Encoding, Error>)
    ensures Validate(arg).Failure? <==> r.Failure?
    ensures r.Failure? ==> r.error == Validate(arg).error
    ensures r.Success? ==>
      var n := Validate(arg).value;
      var e := r.value;
      fresh(e.table) && e.table.Length0 == Size && e.table.Length1 == Size &&
      (forall i, j :: 0 <= i < Size && 0 <= j < Size ==> e.table[i, j] == Cell(n, i, j)) &&
      e.planned == PlannedCounts(n) &&
      e.shown == Remainder(n, Size) == 0
  {
    match Validate(arg)
    case Failure(err) =>
      return Failure(err);
    case Success(n) =>
      var table, planned, rem := FillTable(n);
      FinalRemainderIsZero(n);
      return Success(Encoding(table, planned, rem));
  }

  // ---------------------------------------------------------------------
  // Planned counts: a mixed-radix decomposition of n
  // ---------------------------------------------------------------------

  /** The planned counts of the first j columns carry all of n that is not
      left over as the remainder before column j. */
  lemma {:induction false} PlannedPrefix(n: nat, j: nat)
    requires j <= Size
    ensures Weight(PlannedUpTo(n, j)) + Remainder(n, j) == n
  {
    if j > 0 {
      PlannedPrefix(n, j - 1);
      CarryTakesPlanned(Remainder(n, j - 1), j - 1);
      assert PlannedUpTo(n, j)[..j - 1] == PlannedUpTo(n, j - 1);
    }
  }

  /** A weight of at most 4 cells per column is at most what those columns hold. */
  lemma {:induction false} WeightAtMostCapacity(counts: seq<nat>)
    requires |counts| <= Size
    requires forall k :: 0 <= k < |counts| ==> counts[k] <= Size
    ensures Weight(counts) <= Capacity(0) - Capacity(|counts|)
  {
    if counts != [] {
      var m := |counts| - 1;
      WeightAtMostCapacity(counts[..m]);
      assert CellsWeight(counts[m], m) <= CellsWeight(Size, m);
    }
  }

  /** Each column's weight exceeds what the later columns hold by at most
      one, so a column that is not full leaves no more than they hold. */
  lemma {:induction false} RemainderFits(n: nat, j: nat)
    requires n <= Capacity(0) && j <= Size
    ensures Remainder(n, j) <= Capacity(j)
  {
    if j > 0 {
      RemainderFits(n, j - 1);
      CarryTakesPlanned(Remainder(n, j - 1), j - 1);
      assert Values[j - 1] <= Capacity(j) + 1;
    }
  }

  /** The remainder after the last column is 0 exactly when n is at most 264. */
  lemma FinalRemainderIsZero(n: nat)
    ensures Remainder(n, Size) == 0 <==> n <= MaxGateway
  {
    if n <= MaxGateway {
      RemainderFits(n, Size);
    } else {
      PlannedPrefix(n, Size);
      UpToAll(n);
      WeightAtMostCapacity(PlannedCounts(n));
    }
  }

  /** The planned counts reproduce n, each between 0 and 4, exactly when
      n is in range. */
  lemma PlannedCountsEncode(n: nat)
    ensures |PlannedCounts(n)| == Size
    ensures forall j :: 0 <= j < Size ==> PlannedCounts(n)[j] <= Size
    ensures Weight(PlannedCounts(n)) == n <==> n <= MaxGateway
  {
    PlannedPrefix(n, Size);
    UpToAll(n);
    FinalRemainderIsZero(n);
  }

  // ---------------------------------------------------------------------
  // Written cells: the early stop
  // ---------------------------------------------------------------------

  /** A column is written short of its plan exactly when the running count
      meets the current remaining value first, and then it stops there. */
  lemma WrittenVersusPlanned(n: nat, j: nat)
    requires j < Size
    ensures WrittenAt(n, j) <= PlannedAt(n, j) <= Size
    ensures WrittenAt(n, j) < PlannedAt(n, j) <==>
      0 < Remainder(n, j) - Count(n, j) < PlannedAt(n, j)
    ensures WrittenAt(n, j) < PlannedAt(n, j) ==>
      Count(n, j + 1) == Remainder(n, j)
  {
  }

  /** Red, Orange and Yellow are always written in full: the running count
      is too small to meet their remainder. */
  lemma {:induction false} OnlyGreenIsCut(n: nat, j: nat)
    requires j < Size - 1
    ensures WrittenAt(n, j) == PlannedAt(n, j)
  {
    PlanFits(Remainder(n, j), j);
  }

  /** For a number in range the Green column is planned for exactly the
      remainder, and is cut short exactly when some cells were written
      before it but fewer than that remainder. */
  lemma GreenCut(n: nat)
    requires n <= MaxGateway
    ensures PlannedAt(n, 3) == Remainder(n, 3)
    ensures WrittenAt(n, 3) < PlannedAt(n, 3) <==> 0 < Count(n, 3) < Remainder(n, 3)
    ensures WrittenAt(n, 3) < PlannedAt(n, 3) ==> WrittenAt(n, 3) == Remainder(n, 3) - Count(n, 3)
  {
    RemainderFits(n, 3);
  }

  /** Counts that are each at most another's weigh at most as much, and
      the same only when they are the same counts. */
  lemma {:induction false} WeightMonotone(a: seq<nat>, b: seq<nat>)
    requires |a| == |b| <= Size
    requires forall k :: 0 <= k < |a| ==> a[k] <= b[k]
    ensures Weight(a) <= Weight(b)
    ensures Weight(a) == Weight(b) <==> a == b
  {
    if a != [] {
      var m := |a| - 1;
      WeightMonotone(a[..m], b[..m]);
      if a[..m] == b[..m] && a[m] == b[m] {
        assert a == a[..m] + [a[m]];
        assert b == b[..m] + [b[m]];
      }
    }
  }

  /** Column by column, the written counts never exceed the planned ones. */
  lemma WrittenBelowPlanned(n: nat)
    ensures |WrittenCounts(n)| == |PlannedCounts(n)| == Size
    ensures forall k :: 0 <= k < Size ==> WrittenCounts(n)[k] <= PlannedCounts(n)[k]
  {
    var w, p := WrittenCounts(n), PlannedCounts(n);
    assert w[0] == WrittenAt(n, 0) && p[0] == PlannedAt(n, 0);
    assert w[1] == WrittenAt(n, 1) && p[1] == PlannedAt(n, 1);
    assert w[2] == WrittenAt(n, 2) && p[2] == PlannedAt(n, 2);
    assert w[3] == WrittenAt(n, 3) && p[3] == PlannedAt(n, 3);
  }

  /** The written cells weigh at most n, and exactly n only when no column
      was cut short. */
  lemma WrittenWeight(n: nat)
    requires n <= MaxGateway
    ensures Weight(WrittenCounts(n)) <= n
    ensures Weight(WrittenCounts(n)) == n <==> WrittenCounts(n) == PlannedCounts(n)
  {
    PlannedCountsEncode(n);
    WrittenBelowPlanned(n);
    WeightMonotone(WrittenCounts(n), PlannedCounts(n));
  }

  // ---------------------------------------------------------------------
  // The table
  // ---------------------------------------------------------------------

  /** The table is 4x4; every cell of column c is blank or c's colour, and
      the coloured cells of a column are its first WrittenAt rows. */
  lemma TableShape(n: nat)
    ensures |TableOf(n)| == Size
    ensures forall r :: 0 <= r < Size ==> |TableOf(n)[r]| == Size
    ensures forall r, c :: 0 <= r < Size && 0 <= c < Size ==> TableOf(n)[r][c] == Cell(n, r, c)
    ensures forall r, c :: 0 <= r < Size && 0 <= c < Size ==>
      TableOf(n)[r][c] == Blank || TableOf(n)[r][c] == Colors[c]
    ensures forall r, c :: 0 <= r < Size && 0 <= c < Size ==>
      (TableOf(n)[r][c] == Colors[c] <==> r < WrittenAt(n, c))
    ensures forall r, r', c :: 0 <= r' <= r < Size && 0 <= c < Size && TableOf(n)[r][c] == Colors[c] ==>
      TableOf(n)[r'][c] == Colors[c]
  {
  }

  // ---------------------------------------------------------------------
  // Worked cases
  // ---------------------------------------------------------------------

  /** 264 fills every cell. */
  lemma FullTable()
    ensures PlannedCounts(264) == [4, 4, 4, 4] == WrittenCounts(264)
    ensures forall r, c :: 0 <= r < Size && 0 <= c < Size ==> TableOf(264)[r][c] == Colors[c]
  {
    assert Remainder(264, 1) == 64;
    assert Remainder(264, 2) == 24;
    assert Remainder(264, 3) == 4;
  }

  /** 50 fills only row 0 of the Red column. */
  lemma FiftyIsOneRed()
    ensures PlannedCounts(50) == [1, 0, 0, 0] == WrittenCounts(50)
    ensures forall r, c :: 0 <= r < Size && 0 <= c < Size ==>
      TableOf(50)[r][c] == if r == 0 && c == 0 then "Red" else Blank
  {
    assert PlannedAt(50, 0) == 1 && WrittenAt(50, 0) == 1;
    assert Remainder(50, 1) == 0;
    assert PlannedAt(50, 1) == 0 && PlannedAt(50, 2) == 0 && PlannedAt(50, 3) == 0;
  }

  /** 11 fills row 0 of the Orange and of the Green column. */
  lemma ElevenIsOrangeAndGreen()
    ensures PlannedCounts(11) == [0, 1, 0, 1] == WrittenCounts(11)
    ensures forall r, c :: 0 <= r < Size && 0 <= c < Size ==>
      TableOf(11)[r][c] == if r == 0 && c == 1 then "Orange" else if r == 0 && c == 3 then "Green" else Blank
  {
    assert Remainder(11, 2) == 1;
  }

  /** 52 is planned as one Red and two Green cells, but the running count
      meets the remainder 2 after the first Green cell, so the table only
      shows 51. */
  lemma FiftyTwoLosesAGreenCell()
    ensures PlannedCounts(52) == [1, 0, 0, 2]
    ensures WrittenCounts(52) == [1, 0, 0, 1]
    ensures Weight(WrittenCounts(52)) == 51
  {
    var p0, p1, p2, p3 := PlannedAt(52, 0), PlannedAt(52, 1), PlannedAt(52, 2), PlannedAt(52, 3);
    assert p0 == 1;
    assert p1 == 0 && p2 == 0 && p3 == 2;
    var w: seq<nat> := [1, 0, 0, 1];
    assert WrittenCounts(52) == w;
    var w1: seq<nat>, w2: seq<nat>, w3: seq<nat> := [1], [1, 0], [1, 0, 0];
    assert w1[..0] == [] && w2[..1] == w1 && w3[..2] == w2 && w[..3] == w3;
    assert Weight(w1) == 50;
    assert Weight(w3) == 50;
  }
}
