# Colour-coded gateway: the conditional code of a gateway number

This project models `get_conditional_code` from the ColorCodedGateway
repository. The function takes a gateway number between 1 and 264 and lays it
out on a 4×4 table of colour names. The columns are Red, Orange, Yellow and
Green, and a cell in them is worth 50, 10, 5 and 1.

- Column `j` is planned to hold `min(remaining / value[j], 4)` cells.
- Those cells go into rows 0, 1, … of the column.
- The remaining value then drops by `4 * value[j]` when the column is full.
  Otherwise it becomes `remaining % value[j]`.
- A running count of written cells is kept across all columns. The inner loop
  stops as soon as that count equals the current remaining value. This stop
  can leave a column short of its plan: 52 is planned as one Red and two Green
  cells, but only one Green cell is written.

The model is one module, `ConditionalCode` (`conditional_code.dfy`):

- `GetConditionalCode` is the procedure itself. It checks the argument and
  then calls `FillTable`, which fills a fresh `array2<string>` with nested
  loops. One pass of the outer loop is `FillNextColumn`; the inner loop,
  including its `break`, is `FillColumn`.
- It returns the table, the planned count of every column, and the value the
  source prints as "the gateway number" (the final remainder). It does not
  print them.
- It is proved against specification functions. `Plan`, `Carry` and `Fill`
  describe one column. `Remainder`, `Count`, `PlannedAt`, `WrittenAt`, `Cell`
  and `TableOf` describe the whole table. The lemmas then prove what the
  source promises about those functions.
- The specification functions do their arithmetic through `CellsWeight`,
  `Quotient` and `Leftover`. These spell out `k * values[j]`,
  `rem // values[j]` and `rem % values[j]` for each of the four columns, and
  `ColumnArithmetic` proves them equal to the general forms. The methods
  compute with `Values[j]`, as the source does.

The model reproduces the early stop as the source has it. The lemmas keep two
things apart:

- The planned counts are a mixed-radix decomposition of the number. Their
  weight is `n` exactly when `n <= 264`.
- The written cells weigh at most `n`. They weigh exactly `n` only when no
  column was cut short.

Only the Green column can ever be cut short (`OnlyGreenIsCut`). So the `break`
leaving only the inner loop makes no visible difference to later columns. The
remainder, and therefore every later plan, is computed from the planned
counts, never from the written ones (`Remainder` does not depend on `Count`).

## Model

| member | source | states |
|---|---|---|
| `ConditionalCode.Validate` | main.py:9-16 | a non-integer argument is refused as not an integer; an integer outside [1, 264] is refused as out of range; any other argument is accepted unchanged |
| `ConditionalCode.ColumnArithmetic` | main.py:6 | the per-column weight, quotient and remainder are `k * values[j]`, `rem // values[j]` and `rem % values[j]` for the four values 50, 10, 5, 1 |
| `ConditionalCode.Plan` | main.py:25 | the planned count of a column is at most 4 |
| `ConditionalCode.PlanFits` | main.py:25 | the planned cells weigh no more than the remaining value, and when fewer than 4 are planned one more cell would weigh more than it |
| `ConditionalCode.Carry` | main.py:31-34 | the new remaining value never exceeds the old one |
| `ConditionalCode.CarryTakesPlanned` | main.py:31-34 | both branches of the update leave the old value minus exactly the planned cells' weight, and a column that is not full leaves less than its value |
| `ConditionalCode.Fill` | main.py:26-30 | a column gets at most its planned cells; it gets fewer exactly when the running count reaches the remaining value first, and then the count stops at that value |
| `ConditionalCode.Remainder` | main.py:23-34 | the remaining value before any column never exceeds the number |
| `ConditionalCode.Count` | main.py:22-28 | the running count before column j is at most 4·j |
| `ConditionalCode.FillColumn` | main.py:26-30 | the inner loop writes the column's colour into exactly its first `Fill(count, rem, cellsToFill)` rows and leaves every other cell unchanged |
| `ConditionalCode.FillNextColumn` | main.py:24-34 | one pass of the outer loop, started from column j's remainder and running count, plans `PlannedAt(n, j)` cells, writes `WrittenAt(n, j)` of them, and hands on column j + 1's remainder and count with the first j + 1 columns of the table filled and the rest blank |
| `ConditionalCode.FillTable` | main.py:18-34 | the two loops leave a fresh 4×4 table equal to `Cell(n, i, j)` in every cell, the planned counts `PlannedCounts(n)` and the remainder after the last column |
| `ConditionalCode.GetConditionalCode` | main.py:1-34 | a refused argument yields that error and builds nothing; otherwise a fresh 4×4 table equal to `Cell(n, i, j)` in every cell, the planned counts `PlannedCounts(n)`, and a final remainder of 0 |
| `ConditionalCode.PlannedPrefix` | main.py:23-34 | the weight of the planned counts of the first j columns plus the remainder before column j equals the number |
| `ConditionalCode.WeightAtMostCapacity` | main.py:6 | counts of at most 4 per column weigh at most what those columns can hold (264 for all four) |
| `ConditionalCode.RemainderFits` | main.py:23-34 | for a number up to 264, the remainder before column j is at most what columns j.. can hold (264, 64, 24, 4, 0) |
| `ConditionalCode.FinalRemainderIsZero` | main.py:23-34 | the remainder after the last column is 0 if and only if the number is at most 264 |
| `ConditionalCode.PlannedCountsEncode` | main.py:23-34 | there are four planned counts, each between 0 and 4, and their weight equals the number if and only if the number is at most 264 |
| `ConditionalCode.WrittenVersusPlanned` | main.py:26-30 | written cells never exceed planned cells (at most 4); a column falls short exactly when the running count hits the current remainder, and the count then equals it |
| `ConditionalCode.OnlyGreenIsCut` | main.py:26-30 | the Red, Orange and Yellow columns always receive all their planned cells |
| `ConditionalCode.GreenCut` | main.py:26-30 | for a number in range, Green is planned for exactly the remainder and is cut short exactly when the running count is positive and below it, leaving remainder minus count cells |
| `ConditionalCode.WeightMonotone` | main.py:6 | counts each at most another's weigh no more, and weigh the same only when they are equal |
| `ConditionalCode.WrittenBelowPlanned` | main.py:25-30 | in every column the written count is at most the planned count |
| `ConditionalCode.WrittenWeight` | main.py:23-34 | the written cells weigh at most the number, and exactly the number if and only if every column got its plan |
| `ConditionalCode.TableShape` | main.py:19-27 | the table as a list of rows is 4×4 and agrees with `Cell`; each cell of column c is blank or c's colour; the coloured cells of a column are exactly its first WrittenAt rows, with no gaps |
| `ConditionalCode.FullTable` | main.py:23-34 | 264 is planned and written as 4 cells in every column, filling the whole table |
| `ConditionalCode.FiftyIsOneRed` | main.py:23-34 | 50 fills only row 0 of the Red column |
| `ConditionalCode.ElevenIsOrangeAndGreen` | main.py:23-34 | 11 fills only row 0 of Orange and row 0 of Green |
| `ConditionalCode.FiftyTwoLosesAGreenCell` | main.py:23-34 | 52 is planned as 1, 0, 0, 2 but written as 1, 0, 0, 1, a table worth 51 |

## Left out

- The interactive loop at main.py:50-58 is console I/O and is not modelled. It reads a line, parses it with `int(...)` and prints any exception.
- Printing the table and the legend (main.py:36-47) is output formatting. The method returns the table, the planned counts and the printed remainder instead.
- Validate: the error messages are reduced to their kind. `OutOfRange` carries the refused number, where the source's text names the bounds 1 and 264.
- Validate: the argument is either an integer or "not an integer". Python's rule that `bool` values pass the `isinstance(..., int)` check is not modelled.
- The table is a two-dimensional array, not a list of row lists. The source builds each row as a separate list, so rows never alias, and nothing is lost.
- There is no decoding in this code. So the model has no `decode(encode(n)) == n` round trip, and that round trip would be false for the written table anyway (for example 52 and 53). `WrittenWeight` states exactly when the written table carries the full number.
