# Conway's Game of Life: a verified model of `conwayArq.c`

The program reads a pattern file, then shows one generation of Conway's
Game of Life per iteration, for as many iterations as the user asks for.

- **The file.** The first line holds two integers, the number of rows and
  the number of columns. Each following line is one row of cells.
- **The matrix.** It is an `int **` with `rows + 1` rows. Row 0 is a
  sentinel holding the two dimensions. Rows 1..rows hold `cols` cells each.
  A cell is 1 when alive.
- **The board.** It is finite and does not wrap around: a neighbour off the
  board counts as dead.
- **One generation** (`simulaJogo`) allocates a working buffer and copies
  the matrix into it. It then applies the rule to every cell of the buffer,
  counting neighbours in the old matrix (`contaVizinhos`), and copies the
  buffer back. If a buffer row cannot be allocated, the generation is
  skipped.

The model has five modules.

- **`Life`** is the pure specification over `seq<seq<int>>`. It uses the
  program's layout: row 0 is the sentinel, then 1-based rows and 0-based
  columns. It defines:
  - the neighbour count `Neighbours`
  - the rule `Rule`
  - the next generation `NextGen`
  - `n` generations, `Evolve`

  It proves their properties, together with the behaviour of the block and
  the blinker.
- **`Matrix`** models the `int **` matrix as an `array<array<int>>` with
  unaliased rows. It reads the matrix back as a grid value with `Rows`.
- **`Engine`** holds the imperative code, each piece proved against `Life`:
  - the neighbour-counting loop
  - the step through its working buffer, including allocation failure
  - the simulation loop of `main`

  Allocation outcomes are a parameter: one flag per row allocation.
- **`Loader`** models the reading of the pattern file, in two forms:
  - a specification, `Parse`, that gives either the grid or the reason the
    file is rejected
  - a method, `Load`, that builds the matrix and is proved to agree with
    `Parse`

  The `sscanf("%d %d")` of the dimension line is modelled character by
  character. A writer, `Format`, produces a file that `Parse` reads back as
  the same grid, for 0/1 grids whose sentinel holds their dimensions.
- **`Program`** models `main`: it loads the file and then runs the loop.

## Model

| member | source | states |
|---|---|---|
| Life.Rule | conwayArq.c:159-167 | On a 0/1 cell the result is 0/1 and is alive iff the count is 3, or the cell is alive and the count is 2; any other cell value is kept unless the count is 3, which makes it 1 |
| Life.NextGen | conwayArq.c:172-176 | The next generation has the grid's shape, and row 0 (the sentinel) is not touched |
| Life.NextGenCells | conwayArq.c:155-169 | Every body cell of the next generation is the rule applied to the cell and to its count in the OLD grid |
| Life.NextGenIs | conwayArq.c:155-169 | A grid that agrees with the rule at every cell and keeps the sentinel is the next generation |
| Life.Evolve | conwayArq.c:205-211 | Any number of generations keeps the grid's shape and its sentinel |
| Life.Neighbours | conwayArq.c:115-130 | The count is the sum of the eight Moore neighbours, each counted as 0 off the board (on a 0/1 grid, the number of live neighbours) |
| Life.NeighboursScope | conwayArq.c:118-126 | The count depends only on the in-board neighbours: not on the cell itself, the sentinel row or anything off the board |
| Life.NeighboursRange | conwayArq.c:115-130 | On a 0/1 grid the count lies in 0..8 |
| Life.CornerNeighboursAtMostThree | conwayArq.c:123 | At a corner of a 0/1 grid the count is at most 3 |
| Life.NextGenLocal | conwayArq.c:155-157 | A cell's next value depends only on its 3x3 window of the old grid |
| Life.NextGenBinary | conwayArq.c:159-167 | A 0/1 grid stays a 0/1 grid |
| Life.DeadGridIsFixed | conwayArq.c:155-169 | The all-dead grid is a fixed point |
| Life.LoneCellDies | conwayArq.c:159-166 | A lone live cell dies anywhere on the board, and nothing is born |
| Life.BlockIsStill | conwayArq.c:155-169 | On any board, a 2x2 block at any body position, with every other cell dead, is a still life |
| Life.BlinkerTurns | conwayArq.c:155-169 | On any board, a horizontal blinker at any position where both phases fit becomes the vertical blinker with the same centre |
| Life.BlinkerTurnsBack | conwayArq.c:155-169 | On any board, a vertical blinker at any position where both phases fit becomes the horizontal blinker with the same centre |
| Life.BlinkerHasPeriodTwo | conwayArq.c:205-211 | On any board, at any position where both phases fit, a horizontal blinker differs from the start after one generation and is back after two |
| Engine.CountNeighbours | conwayArq.c:115-130 | The loop over the 3x3 window returns exactly `Neighbours` of the matrix read as a grid |
| Engine.NewBuffer | conwayArq.c:134-145 | The buffer is obtained iff every row allocation succeeds; its rows are fresh, distinct, `cols` long and disjoint from the matrix |
| Engine.CopyRows | conwayArq.c:148-152 | Every body row of the destination becomes the source's row; the source and the destination's row 0 are unchanged |
| Engine.UpdateCell | conwayArq.c:157-167 | The buffer cell becomes the next-generation cell, other cells of the row are kept, and the matrix is not written |
| Engine.ApplyRuleToRow | conwayArq.c:156-168 | A body row of the buffer becomes the next-generation row; the other buffer rows and the matrix are unchanged |
| Engine.ApplyRule | conwayArq.c:155-169 | Every body row of the buffer becomes the next generation of the unchanged matrix |
| Engine.Step | conwayArq.c:133-183 | The step succeeds iff every row allocation does; then the matrix holds `NextGen` of its old contents, and otherwise it is unchanged |
| Engine.Successes | conwayArq.c:205-211 | A run of n iterations advances at most n generations |
| Engine.SuccessesAll | conwayArq.c:205-211 | A run advances one generation per iteration iff no allocation fails in any of them |
| Engine.Advance | conwayArq.c:209 | One iteration advances the grid one generation iff its allocations succeed, and counts it |
| Engine.Simulate | conwayArq.c:205-211 | After the loop the matrix holds `Evolve` of the initial grid over the number of successful steps; a failed step leaves the grid alone and the loop goes on |
| Loader.SkipSpaces | conwayArq.c:32 | `%d` skips exactly the white space from the position on: every skipped character is white space, and the one it stops at is not (or the line has ended) |
| Loader.ScanInt | conwayArq.c:32 | A successful `%d` conversion consumes at least one character and stops within the line; what it reads is stated by `ScanIntReads` and `ScanIntRejects` |
| Loader.ScanIntReads | conwayArq.c:32 | After white space, an optional '+' or '-' and a run of digits (leading zeros allowed) followed by a non-digit, `%d` reads the run's value, negated after '-', and stops after the last digit |
| Loader.ScanIntRejects | conwayArq.c:32 | `%d` fails when no digit follows the white space and the optional sign |
| Loader.LeadingZeroIgnored | conwayArq.c:32 | A leading zero does not change the value `%d` reads |
| Loader.ScanDims | conwayArq.c:32 | `"%d %d"` is two `%d` conversions, the second starting where the first stopped; which lines it accepts and what it reads is stated by `ScanDimsReads`, `ScanDimsRejectsFirst` and `ScanDimsRejectsSecond` |
| Loader.ScanDimsReads | conwayArq.c:32 | On any line holding white space, an optional sign and digits, then white space, an optional sign and digits, then a non-digit or the end, `"%d %d"` reads the two signed values, leading zeros allowed and any trailing text ignored |
| Loader.ScanDimsRejectsFirst | conwayArq.c:32-36 | A line on which no digit follows the leading white space and optional sign is rejected |
| Loader.ScanDimsRejectsSecond | conwayArq.c:32-36 | A line whose first number reads but on which no digit follows the next white space and optional sign is rejected |
| Loader.ScanDimsPlusSign | conwayArq.c:32 | `"+3 4"` reads as (3, 4) |
| Loader.ScanDimsLeadingZeros | conwayArq.c:32 | `"007 4"` reads as (7, 4) |
| Loader.ScanDimsMinusWithoutBlank | conwayArq.c:32 | `"3-4"` reads as (3, -4) |
| Loader.ScanDimsTrailingText | conwayArq.c:32 | `"3 4 5"` reads as (3, 4): text after the second number is ignored |
| Loader.ScanDimsNoDigit | conwayArq.c:32 | `"3x4"` and `"- 3 4"` are rejected |
| Loader.DigitsEnd | conwayArq.c:32 | `%d` reads the maximal run of digits |
| Loader.ScanIntReadsNumeral | conwayArq.c:32 | After any white space, `%d` reads a decimal numeral with an optional '-' back as its value, stopping at the first non-digit |
| Loader.ScanDimsReadsDimensionLine | conwayArq.c:32 | `"%d %d"` reads a dimension line back as its two integers, whatever their signs |
| Loader.BadDimensionsRejected | conwayArq.c:39-43 | A file whose dimensions are not both positive is rejected, with the dimensions that were read |
| Loader.CheckRows | conwayArq.c:67-87 | There is no error iff every body line is present and long enough; otherwise the error names the first bad row, and it is `MissingRow` iff that line is absent |
| Loader.TruncatedFileRejected | conwayArq.c:79-87 | A file cut off before its last body line is rejected at the first missing row |
| Loader.Parse | conwayArq.c:14-96 | A file is accepted iff its first line holds two positive integers and every body line is present and long enough; the grid then has those dimensions, a sentinel holding them, and cell (i, j) equal to character j of line i minus '0'; each rejection states its reason |
| Loader.ParseFormat | conwayArq.c:14-96 | Reading the file written for a 0/1 grid whose sentinel holds its dimensions gives that grid back |
| Loader.CellOfDigit | conwayArq.c:90 | A cell character becomes its digit value: the value is in 0..9 iff the character is a digit, 1 iff it is '1' and 0 iff it is '0' |
| Loader.NewlineCellKept | conwayArq.c:89-91 | A body line one cell short that ends in a newline is accepted, and the newline's cell holds `'\n' - '0'` = -38, as the source stores it |
| Loader.ShortLastLineRejected | conwayArq.c:89-91 | The same line without its newline is rejected with `ShortRow` |
| Loader.ReadRow | conwayArq.c:89-91 | The new row holds character j of the line minus '0' at every column j |
| Loader.ReadBody | conwayArq.c:53-92 | No matrix is built iff some body line is missing or short; otherwise the matrix is fresh and unaliased, its sentinel is [rows, cols] and it holds the grid the lines describe |
| Loader.Load | conwayArq.c:14-96 | No matrix is built iff `Parse` rejects the file; otherwise the matrix, read as a grid, is what `Parse` returns |
| Program.Run | conwayArq.c:185-211 | A file that does not load ends the run without a matrix; otherwise the final matrix is the loaded grid evolved by the number of successful steps |

## Left out

- Rendering (`imprimeMatriz`, `conwayArq.c:99-112`), the prompt, `sleep` and the screen clearing are output and pacing only; they do not change the grid.
- Opening the file (`fopen`, line 19) is I/O. The model starts from the file's lines, and a file that cannot be opened is not modelled.
- Run: the iteration count read by `scanf` (line 202) becomes the length of `runs`. A negative count runs no iteration, which matches an empty `runs`. A non-numeric input, which leaves the count unset in the source, is not modelled.
- Freeing memory (lines 139-142, 178-182, 213-217) has no counterpart, because Dafny's heap is garbage-collected.
- Load: the allocations of the matrix and its rows (lines 46-60 and 68-77) are assumed to succeed, so their failure paths are not modelled.
- Step: the outer allocation of the buffer's row table (line 134) is not checked in the source, and the model assumes it succeeds. `novaMatriz[0]` is never used and is not modelled.
- Load: `fgets` reads at most 99 characters into its 100-byte buffer (lines 16, 26, 79). The model treats each line as a whole. A longer line, which the source would split over several reads, is not modelled. For the dimension line (line 26), the rest of a longer line would then be read as body line 1.
- Error messages: the `printf`s on the error paths (lines 21, 27, 33, 40, 48, 56, 70, 80, 138, 193) are output only. The model returns the reason as a `LoadError` instead. `main`'s exit status 1 on a failed load (line 194) becomes `Run` returning no matrix.
- ScanInt: its own contract only bounds where the conversion stops; the value it reads is stated by the lemmas `ScanIntReads` and `ScanIntRejects`.
- ScanDims: its own contract only says that it composes two conversions; which lines it accepts and what it reads are stated by the lemmas `ScanDimsReads`, `ScanDimsRejectsFirst` and `ScanDimsRejectsSecond`.
- ScanInt: integers are unbounded. A numeral outside the range of `int`, whose `%d` conversion is undefined in C, is not modelled.
- CellOf: a cell is a Dafny `char` code minus the code of '0', while the source subtracts from a C `char` (a byte). Non-digit characters, the newline included, are stored raw in both.
- Parse: a body line with fewer than `cols` characters, counting its newline, is rejected with `ShortRow`. This is a deliberate change from the source, which has no such check (lines 89-91) and reads on into the rest of the 100-byte `fgets` buffer. What it reads there is mostly defined: the terminating NUL stores `'\0' - '0'` (-48), and bytes left by an earlier `fgets` store whatever that line held there. Only bytes that no `fgets` ever wrote hold indeterminate values, and only a column at or past 100 reads outside the buffer, which is undefined. For example, a last line `01` with no newline and `cols` 3 gives the row [0, 1, -48] in the source and `ShortRow` in the model (`ShortLastLineRejected`). Lines keep their newline in the model, so a line one cell short that ends in a newline is accepted, with -38 stored for the newline, exactly as in the source (`NewlineCellKept`).
- Simulate: a failed step does not stop the loop. `simulaJogo` only returns early (line 143), and `main` goes on with its next iteration (lines 205-211), so the model follows the code here. The model does not end the run at the first failure.
