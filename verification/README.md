# Nonogram solver core, modelled in Dafny

The program solves nonograms with the z3 SMT solver. A nonogram is a grid whose
rows and columns each carry a clue: the lengths of the blocks of filled cells
in that line, in order. `Nonogram` holds the column and row clues (and an
optional title and author). For every block of every line `set_variables`
creates an integer start variable, and for every cell a Boolean variable.
`add_constraints` then asserts three things about each line:

- every block lies inside the line;
- every block starts at least one cell after the previous block ends;
- a cell is filled exactly when some block of the line covers it.

`solve` asks z3 for a model and reads the grid out of it. Puzzles are read
from the `.non` text format by `process_blocks` and `parse_from_non`, and
`parse_nonogram` picks a reader by file extension.

The model, module by module:

- `Placement` holds the theory of one line. A placement of a clue gives each
  block a start offset. It is *valid* when it meets the bounds and gap
  assertions, and the line it *fills* is the set of covered cells. A valid
  placement exists exactly when the clue fits.
- `LineRuns` holds the maximal runs of filled cells in a line. The line filled
  by a valid placement has the clue's runs, and every line is filled by the
  placement of its own runs. So a line satisfies the encoding exactly when it
  reads as its clue.
- `Encoding` models:
  - the variables and their names, with the names proved distinct;
  - the assertion list in the order `add_constraints` emits it, and what it
    means;
  - the grid read from an assignment.

  It proves the encoding sound and complete: the assignments that satisfy
  every assertion are exactly the encodings of grids that satisfy every clue.
  The z3 call itself is a parameter, namely the model the solver returns.
- `Decimal` and `PyStr` give the Python string operations the parser relies
  on:
  - `%d` formatting;
  - `str.rstrip`, `str.split` and the one-split `str.split(" ", 1)`;
  - `int()`, including surrounding whitespace and a sign.
- `NonParser` models `process_blocks` and `parse_from_non` over the sequence
  of the file's lines, none of which is empty. It includes the implicit `None` that
  `process_blocks` returns when the input ends inside a section. A writer for
  the format makes the round trip statable: reading a written puzzle gives it
  back.
- `Loader` models `os.path.splitext` as it behaves on POSIX, and the
  extension dispatch of `parse_nonogram`.

Clue entries are `int`, because `int()` accepts signs. The placement theorems
assume non-negative blocks, and the converse direction of the runs theorem
assumes positive blocks, as in any well-formed puzzle. A zero-length block
gets a start offset but covers no cell, so it leaves no run.

## Model

| member | source | states |
|---|---|---|
| Placement.PlacementExistsIffFits | nonogram.py:30-36 | For non-negative blocks, start offsets meeting the bounds and gap assertions exist exactly when the block lengths plus one empty cell between consecutive blocks add up to at most the line length. |
| Placement.LeftmostValid | nonogram.py:32-36 | Packing the blocks from an offset with single gaps is a valid placement whenever it ends inside the line. |
| Placement.StartLowerBound | nonogram.py:34-36 | In a valid placement block `b` starts no earlier than the lengths of the blocks before it plus one gap each. |
| Placement.BlocksOrdered | nonogram.py:34-36 | The gap assertion on consecutive blocks orders all blocks: any earlier block ends, with an empty cell to spare, before any later one starts. |
| LineRuns.RunsOfPlacement | nonogram.py:37-40 | The line a valid placement fills (cell filled iff a block covers it) has as its maximal runs of filled cells exactly the clue's non-zero blocks, in order. |
| LineRuns.PlacementOfRuns | nonogram.py:32-40 | Conversely, any line is filled by the valid placement that puts one block on each of its runs. |
| LineRuns.LineFitsIffRuns | nonogram.py:29-40 | A line satisfying the assertions for a clue reads as the clue's non-zero blocks; for a clue of positive blocks, a line of the right length satisfies them exactly when its runs are the clue. |
| Encoding.NameInjective | nonogram.py:25-27 | The names `C_r_c`, `RS_r_b` and `CS_c_b` of two variables coincide only when the variables are the same, so z3 never merges two of them. |
| Encoding.SetVariables | nonogram.py:24-27 | One cell variable per cell of a rows-by-columns grid, named `C_r_c`. One start variable per block of each row clue, named `RS_r_b`, and per block of each column clue, named `CS_c_b`. |
| Encoding.VariablesDistinct | nonogram.py:24-27 | All the variables created are pairwise distinct: different cells, different row blocks and different column blocks get different names, and no cell shares a name with a start. |
| Encoding.BlockConstraintsMeaning | nonogram.py:31-36 | The assertions added for one block hold exactly when its start is within `0 .. n - length` and, after the first block, beyond the end of the previous block. |
| Encoding.CellConstraintMeaning | nonogram.py:37-40 | The assertion added for a cell holds exactly when the cell is filled iff the placement the assignment encodes covers it. |
| Encoding.LineConstraintsMeaning | nonogram.py:30-40 | All assertions of one line hold exactly when the assignment encodes a valid placement of its clue and the line's cells are those the placement covers. |
| Encoding.AxisConstraintsMeaning | nonogram.py:42-50 | The assertions for a run of lines hold exactly when each of those lines is encoded; columns use the same construction with the cell indices swapped. |
| Encoding.AddConstraints | nonogram.py:24-50 | Every assertion refers only to variables `set_variables` creates: cells inside the grid and starts of existing blocks, so no table lookup is out of range. What the list means is stated by `AddConstraintsMeaning`. |
| Encoding.AddConstraintsMeaning | nonogram.py:29-50 | The full assertion list holds exactly when every row and every column is a valid placement of its clue that fills exactly its filled cells. |
| Encoding.EvaluateGrid | nonogram.py:52-54 | The grid read from an assignment has one row per row clue and one cell per column clue in each row. |
| Encoding.EvaluatedLines | nonogram.py:52-54 | Row `r` of the read grid is row `r`'s cell values and column `c` is column `c`'s cell values. |
| Encoding.ModelGridSatisfies | nonogram.py:14-19 | Soundness: the grid read from an assignment satisfying every assertion satisfies every row clue and every column clue. |
| Encoding.EncodingComplete | nonogram.py:29-50 | Completeness: every grid that satisfies all clues is the grid read from some assignment satisfying every assertion. |
| Encoding.GridSatisfiesIffRuns | nonogram.py:29-50 | A grid satisfying the encoded clues reads, line by line, as the clues' non-zero blocks; for positive clues that reading is also sufficient. |
| Encoding.Solve | nonogram.py:14-21 | As written: a model yields a grid of the puzzle's size satisfying every clue; when the solver has no model the call fails, and `(False, None)` is never produced. |
| Encoding.UnsatisfiableRaises | nonogram.py:18-21 | A one-cell puzzle whose row has no blocks and whose column has one block has no satisfying assignment, yet solving it fails instead of returning `(False, None)`. |
| Encoding.SolveChecked | nonogram.py:14-21 | With the check compared against `sat`: a grid is returned exactly for a `sat` answer and satisfies all clues; for `unsat`, no grid satisfies the clues. |
| Decimal.ShowValue | nonogram.py:25 | The decimal digits `%d` writes for a natural number read back as that number. |
| PyStr.RStrip | nonogram.py:75 | `rstrip` removes exactly the trailing run of the given character: the result is a prefix, does not end in it, and only that character was removed. |
| PyStr.Split | nonogram.py:75 | `split` yields at least one piece, no piece contains the separator, and joining the pieces with it gives back the input. |
| PyStr.SplitJoin | nonogram.py:75 | Splitting the join of separator-free pieces gives back the pieces. |
| PyStr.SplitOnce | nonogram.py:90 | `split(" ", 1)` unpacks into two parts exactly when the line holds a space; then the key is the text before the first space and the value everything after it. |
| PyStr.Strip | nonogram.py:75 | The white space `int()` skips is removed exactly: the space and `\t\n\v\f\r` among ASCII characters, and the non-ASCII characters `str.isspace()` accepts. The result neither starts nor ends with such a character, and it is a slice of the input with only such characters outside it. |
| PyStr.PyInt | nonogram.py:75 | `int()` succeeds exactly on text that, once its white space is stripped, is one or more decimal digits with at most one leading `+` or `-`. The digits read as their decimal value, negated after `-`. So `1a`, `x`, `1 2` and `+` fail. The digit-count limit is not modelled (see below). |
| PyStr.IntSpaceExamples | nonogram.py:75 | `int(' 1\n')` is 1, while text led by the ASCII file separator U+001C does not read, although `str.isspace()` accepts that character. |
| PyStr.PyIntFormatInt | nonogram.py:75 | Every integer, written in decimal with a minus sign when negative, is read back by `int()` as itself. |
| NonParser.ParseFields | nonogram.py:75 | Converting the comma-separated fields either gives the clue whose entries are the fields' `int()` values, position by position, or fails with the `ValueError` of the first field `int()` rejects, every earlier field having converted. |
| NonParser.ClueOfLine | nonogram.py:72-75 | The line `0` gives the empty clue. Any other line gives the numbers its comma-separated fields read as, newline removed, or the `ValueError` of its first field that does not read. `ClueLineRoundTrip` is the inverse for written lines. |
| NonParser.ProcessBlocks | nonogram.py:67-75 | A section that is read ends at the first line not starting with a digit. It returns that line and the lines after it, unread. The clues, and that every line before it starts with a digit, are stated by `ProcessBlocksSection`. |
| NonParser.ProcessBlocksSection | nonogram.py:67-75 | A section read ends at the first line not starting with a digit; it holds one clue per line before it, in order, and returns that line and leaves the following ones unread. |
| NonParser.ProcessBlocksExhausted | nonogram.py:67-75 | The implicit `None` is returned exactly when every remaining line is a clue line that converts, so the input ends inside the section. |
| NonParser.ProcessBlocksRaises | nonogram.py:69-75 | An error comes from the first line that starts with a digit but does not convert, after lines that all converted. |
| NonParser.ProcessBlocksRoundTrip | nonogram.py:67-75 | Written clue lines followed by a terminator line read back as the same clues, that terminator and the untouched remaining lines. |
| NonParser.ProcessBlocksOfClueLines | nonogram.py:67-75 | Conversely to the section lemma, lines that each start with a digit and convert, followed by a line that does not start with a digit, are read as one section holding exactly their clues. |
| NonParser.ParseLoop | nonogram.py:80-94 | Reading never forgets a key: every key collected before a line is still present afterwards. |
| NonParser.ParseLoopMeta | nonogram.py:88-94 | Any line with a space that is read outside a section stores the text after its first space, trailing newlines removed, under the text before it. This includes the empty key of a line starting with a space. Reading then goes on with the next line, or ends with the input. |
| NonParser.ParseLoopIgnored | nonogram.py:88-94 | A line without a space that is no section header stores nothing. Reading goes on with the next line, or ends. |
| NonParser.ParseLoopSection | nonogram.py:82-87 | A `columns`/`rows` header followed by any lines that start with a digit and convert, then a line that does not start with a digit, stores exactly those clues under `c`/`r`. The line that ended the section is examined next, without reading another. |
| NonParser.Build | nonogram.py:95 | A puzzle is built exactly when `c` and `r` each hold a clue section or an empty text. A section gives its clues. An empty text gives no lines, because Python takes its length as zero. The `title` and `by` values become the title and author. A missing `c`, or else a missing `r`, is a `KeyError` for that key. |
| NonParser.ParseNon | nonogram.py:77-95 | An empty file fails with `KeyError('c')`. A puzzle with any columns (rows) is read only from a file holding a `columns` (`rows`) header line. `NonRoundTrip` is the inverse for written files. |
| NonParser.EmptyValueClues | nonogram.py:88-95 | The file made of the lines `c ` and `r ` is read as the puzzle with no columns, no rows, no title and no author. |
| NonParser.HeaderRead | nonogram.py:81-94 | Reading leaves clues under `c` (or `r`) where there were none only if a `columns` (or `rows`) header line was read, because metadata lines store only text. |
| NonParser.NonRoundTrip | nonogram.py:77-95 | Reading a written `.non` file gives back the puzzle: clues, title and author. |
| NonParser.RowsAtEndOfInput | nonogram.py:85-86 | A file that ends with the row clues and no line after them fails with a `TypeError`, because the row section returns the implicit `None`. |
| Loader.SplitExt | nonogram.py:98 | `splitext` splits the path into root and extension that concatenate to it; the extension is empty or one leading dot with no further dot or slash, and then the last component has a non-dot before it. |
| Loader.SplitExtIff | nonogram.py:98 | For a dotted extension `e`, `splitext` reports `e` exactly when the path ends in `e` and the last component has a character other than a dot before it. |
| Loader.ParseNonogram | nonogram.py:97-102 | A path with extension `.xml` goes to the XML reader, one with `.non` to the `.non` reader, and any other (including other letter cases) yields nothing. |

## Left out

- The z3 search: `Solver`, `check` and `model` are replaced by the solver's answer, passed in as a parameter. What a model or an `unsat` answer guarantees is stated as a precondition.
- `evaluate_grid` builds a pandas DataFrame; the model returns the same cells as a sequence of Boolean rows.
- `parse_from_xml` (nonogram.py:56-65) depends on an XML library; `Loader.ParseNonogram` only reports that the XML reader is chosen.
- File access: `open` and iteration over the file are replaced by the file's sequence of lines. Each line ends in a newline, except possibly the last, so no line is empty (`NonParser.Line`). The empty string stands only for what `readline` returns at the end of the file. Because no line is empty, `line[0]` in `process_blocks` cannot raise, and the model has no `IndexError`. The lines are those after text-mode newline translation, in which `\r\n` and `\r` are read as `\n`.
- main.py (command line, display) is not part of this model.
- `os` reaches nonogram.py only through `from z3 import *`. The model assumes it does, and models only the POSIX `splitext`, not the Windows one.
- PyStr.PyInt: underscores between digits and non-ASCII decimal digits, which Python's `int()` also accepts, are not modelled; such fields are rejected. Nor is the limit on the number of digits, 4300 by default since Python 3.11, configurable, and absent before. The model reads numbers of any length, where Python raises `ValueError`.
- NonParser.ProcessBlocks: a section ends at a line whose first character is not an ASCII digit. Python's `isdigit` also accepts other Unicode digits. On decimal digits such as `٣`, which `int()` reads, Python goes on reading the section. On others such as `²`, `int()` raises `ValueError`. The model ends the section at both kinds.
- NonParser.Build: a `c` or `r` line outside a section can store a non-empty text under one of those keys. Python then builds a puzzle whose clues are characters, and `add_constraints` raises `TypeError` when it subtracts one from an integer (nonogram.py:33, 45). The model reports `NotBlocks` when building.
- Encoding.Solve: models the code as written. It never returns `(False, None)`; see Findings.
- Placement.PlacementExistsIffFits and the runs lemmas assume non-negative blocks. A negative block length, which `int()` would accept, makes the encoding meaningless and is not given a meaning here.
- LineRuns.LineFitsIffRuns: the converse direction is proved only for positive blocks, because zero-length blocks leave no run to recover them from.
- NonParser.NonRoundTrip: only puzzles whose clues are non-negative and not the single block `[0]` are writable, since that clue's line `0` reads as the empty clue. Titles and authors must contain no `\n` and no `\r`, since text-mode reading ends a line at either.

## Findings

| source | as written | input that shows it | evidently intended | confidence | as-written member | corrected member |
|---|---|---|---|---|---|---|
| nonogram.py:18-21 | `if self.s.check():` tests the truth of z3's check result. That object has no Boolean conversion, so it is always true, and on an unsatisfiable puzzle `s.model()` raises. | Column clues `[[1]]`, row clues `[[]]`: one cell that must be both empty and filled. | Compare with `sat`, so that unsatisfiable or undecided puzzles return `(False, None)`. | high; not executed | Encoding.UnsatisfiableRaises | Encoding.SolveChecked |
