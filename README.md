# Spreadsheet model in Dafny

This project models the data model of a small console spreadsheet:
- the cell-formula expression tree (`exp.cpp`);
- the precedence-climbing formula parser (`parser.cpp`);
- `SSModel`, the class that owns the cells (`ssmodel.h` and `ssmodel.cpp`).

`SSModel` keeps:
- a map from upper-case cell names to records, each holding the formula, its display text and its numeric value;
- a dependency graph, with an arc from each cell to every cell whose formula reads it;
- a reverse index, `incomingNeighbors`.

Setting a cell runs these steps in order:
1. Parse the formula.
2. Collect the cells the formula reads.
3. Refuse the formula if it would close a cycle.
4. Replace the cell's incoming arcs.
5. Evaluate the cell.
6. Re-evaluate every cell that depends on it, directly or not, in the order a depth-first topological sort pops them.

Modules:

| file | module | what it holds |
|---|---|---|
| `wrappers.dfy` | `Wrappers` | `Option`, `Result`, `Outcome` |
| `util.dfy` | `Util` | small sequence and arithmetic facts the proofs use as single steps |
| `ascii.dfy` | `Ascii` | `toUpperCase` / `toLowerCase` on ASCII letters |
| `tokens.dfy` | `Tokens` | the tokens the scanner yields, and how `toString` lays them out |
| `sheet.dfy` | `Sheet` | grid bounds, the name/location conversion, the function table, `nameIsValid`, `rangeFnIsValid`, `validRange`, and the column-major expansion of a range |
| `exp.dfy` | `Exp` | the `Expr` datatype with `eval`, `toString`, `getType`, `getDependent`; `getCellData`; `applyRangeFunction` as a value; the `EvaluationContext` class |
| `parser.dfy` | `Parser`, `ParserProperties` | `readE`, `readT`, `parseExp` as functions on the remaining tokens, and their properties |
| `scanner.dfy` | `ScannerParser` | the same routines as methods over a scanner with a cursor, proved to agree with `Parser` |
| `graphs.dfy` | `Graphs` | reachability, what replacing a cell's incoming arcs does, the cycle test, and post-order / topological order |
| `recalc.dfy` | `Recalc` | the update loop as a function on the cell store, and why it leaves every cached value consistent |
| `ssmodel.dfy` | `SpreadsheetModel` | the `SSModel` class and its methods, with the invariant every edit keeps |

Behaviour that the model keeps as the source has it:
- **Self-reference gap.** `checkForCycle` only searches from dependencies that are already vertices. It also special-cases a formula that is exactly the cell itself. So a formula such as `A1 = A1 + B1`, on an `A1` that is not yet a vertex, is accepted and leaves an arc from `A1` to itself.
  - The graph invariant is therefore "no cycle through two different cells" (`Graphs.NoLongCycles`), not acyclicity.
  - A cell that reads itself is exempt from the consistency invariant.
  - `Graphs.SelfReferenceGap` states exactly when the gap occurs.
- **Non-atomic load.** `readFromStream` stops at the first line that fails, and the lines before it stay set.
- **Evaluation order.** `eval` of a compound evaluates the right operand before the left. Evaluation has no side effects, so the order cannot be observed.

## Model

| member | source | states |
|---|---|---|
| Ascii.Upper | ssmodel.cpp:116 | upper-casing keeps the length and maps each character through the ASCII capital conversion |
| Ascii.UpperIdempotent | ssmodel.cpp:116 | upper-casing an upper-cased name changes nothing, so stored keys are fixed points |
| Ascii.UpperOfLower | ssmodel.cpp:67-73 | upper-casing after lower-casing equals upper-casing alone |
| Ascii.Lower | ssmodel.cpp:67-73 | lower-casing keeps the length and maps each character through the ASCII lower-case conversion |
| Ascii.LowerIdempotent | ssmodel.cpp:67-73 | lower-casing twice equals lower-casing once, so a lower-case table key is found again |
| Tokens.SpellAppend | exp.cpp:155-157 | laying out a token stream distributes over concatenation |
| Sheet.NameIsValidIffNamesInBoundsLoc | ssmodel.cpp:48-60 | a name is valid exactly when, up to case, it names a location inside the grid's rows and columns |
| Sheet.NameIsValid | ssmodel.cpp:48-60 | nameIsValid: the name converts to a location inside the grid; `Sheet.NameIsValidIffNamesInBoundsLoc` characterises it by the names of in-grid locations |
| Sheet.RangeFnIsValid | ssmodel.cpp:67-73 | rangeFnIsValid: the lower-cased name is a key of the function table, so any casing of a table key is accepted (`Ascii.LowerIdempotent`) |
| Sheet.ValidRange | ssmodel.cpp:84-99 | validRange: both ends are valid names and the end is neither left of nor above the start; `Sheet.CellRefsShape` states the rectangle it then expands to |
| Sheet.UpperOfValidIsCanonical | ssmodel.cpp:48-60 | upper-casing a valid name gives a valid upper-case name of the same location |
| Sheet.NameOfLocIsCanonical | ssmodel.cpp:297-313 | the name of an in-grid location is a valid upper-case name that converts back to that location |
| Sheet.CanonicalNamesAreLocs | ssmodel.h:208-217 | two upper-case valid names are equal exactly when they name the same location, so keys and cells correspond one to one |
| Sheet.BlockLocsShape | ssmodel.cpp:297-313 | a rectangle expands to (columns × rows) locations, exactly those in the rectangle, in strictly column-major order |
| Sheet.CellRefsShape | ssmodel.cpp:297-313 | a valid range lists (endCol-startCol+1)*(endRow-startRow+1) names; a name is listed exactly when it is the canonical name of a cell in the rectangle; the list is column-major with no repeats |
| Sheet.CellRefs | ssmodel.cpp:297-313 | collectCellRef as a value: the range's names in column-major order, empty for an invalid range; its shape is stated by `Sheet.CellRefsShape` and the loop `SpreadsheetModel.SSModel.CollectCellRef` is proved to produce it |
| Sheet.CellRefsCanonical | ssmodel.cpp:297-313 | every name a range expands to is a valid upper-case name |
| Exp.GetType | exp.cpp:47 | each variant has its own tag: the tag is the text-string, double, identifier, compound or range type exactly when the formula is that variant |
| Exp.Eval | exp.cpp:143-153 | eval of every variant (number exp.cpp:39-41, text 70-72, reference 101-103, compound 143-153, range 197-199); its meaning is stated by `Exp.EvalFrame` (the value depends only on the cells getDependent reports), `Exp.ConstantEval` and `Recalc.ReferenceEval` |
| Exp.GetDependent | exp.cpp:163-166 | getDependent of every variant (reference exp.cpp:116-118, compound 163-166, range 213-215): the cells a formula reads, left to right; `Exp.EvalFrame` shows they are all eval reads and `Exp.DependentsCanonical` that they are canonical names |
| Exp.ToString | exp.cpp:155-157 | toString of every variant (number exp.cpp:43, text 74-76, reference 105-107, compound 155-157, range 201-203); `Exp.ToStringSpellsTokenForm` shows it spells out the token form that `ParserProperties.ParseTokenForm` parses back |
| Exp.GetCellData | ssmodel.cpp:265-272 | getCellData: the cached value under the upper-cased name, 0 for a missing cell; `Recalc.GetCellDataCases` adds that a string cell reads as 0 |
| Exp.ApplyRangeFunction | ssmodel.cpp:277-281 | applyRangeFunction as a value: the table's function for the lower-cased name on the range's values; the method `SpreadsheetModel.SSModel.ApplyRangeFunction` is proved to compute it |
| Exp.CellValues | ssmodel.cpp:286-292 | the collected values have one entry per name, each being getCellData of that name |
| Exp.EvalFrame | exp.cpp:143-153 | two stores that agree on every cell getDependent reports give the formula the same value |
| Exp.ConstantEval | exp.cpp:39-41 | a formula without references or ranges reads no cell, and evaluates to its arithmetic value whatever the store holds (strings count as 0) |
| Exp.DependentsCanonical | exp.cpp:163-166 | every cell a parsed formula reads is a valid upper-case name |
| Exp.ToStringSpellsTokenForm | exp.cpp:155-157 | toString writes out the formula's tokens: compounds fully parenthesised, operators set off by one space, strings quoted, ranges as `fn(start:end)` |
| Exp.EvaluationContext.constructor | exp.cpp:236-246 | a new context defines no name |
| Exp.EvaluationContext.SetValue | exp.cpp:236-238 | after setValue the name is defined with that value, and every other name keeps its definedness and value |
| Parser.Precedence | parser.cpp:120-124 | precedence is 1 for `+` and `-`, 2 for `*` and `/`, and 0 for every other token and for end of input |
| Parser.ReadE | parser.cpp:45-57 | a successful readE consumes at least one token and stops before an operator that does not bind tighter than the given precedence |
| Parser.ReadRest | parser.cpp:48-54 | the loop of readE: a successful result leaves no more tokens than it was given and stops before an operator that does not bind tighter than the given precedence |
| Parser.ReadT | parser.cpp:69-112 | a successful readT consumes at least one token |
| Parser.ReadRange | parser.cpp:76-99 | the range-call part of readT: a successful read consumes exactly `( start : end )`; its errors are stated by `ParserProperties.RangeCallErrors` and its result by `ParserProperties.ParseRangeCall` |
| Parser.ParseExp | parser.cpp:26-32 | parseExp: one expression that uses every token; stated by `ParserProperties.ParseTokenForm`, `ParserProperties.TrailingTokenRejected` and `ParserProperties.ParseExpWellFormed` |
| ParserProperties.ParseExpWellFormed | parser.cpp:69-112 | every accepted formula has valid upper-case cell references and range ends, valid ranges, and lower-case range-function names from the table that are not cell names |
| ParserProperties.ParseTokenForm | parser.cpp:26-32 | parsing the tokens of a parsed formula's toString gives back that formula |
| ParserProperties.ReadTTokenForm | parser.cpp:69-112 | readT on a formula's tokens followed by anything returns the formula and exactly the following tokens |
| ParserProperties.TrailingTokenRejected | parser.cpp:26-32 | a complete formula followed by a non-operator token is rejected as an unexpected token, naming that token |
| ParserProperties.ThreeOperands | parser.cpp:45-57 | for any well-formed terms x, y, z, `x o1 y o2 z` groups left when o1 binds at least as tightly as o2 (so `-` and `/` are left-associative), and right otherwise |
| ParserProperties.ParseWord | parser.cpp:72-102 | a lone word is a reference to its upper-cased name if it is a valid cell name, even if it is also a function name; otherwise a function name without `(` is an error naming the function; anything else is an unexpected token |
| ParserProperties.ParseLiteral | parser.cpp:104-105 | a number token is a number literal; a string token is a text literal without its first and last characters |
| ParserProperties.ParseRangeCall | parser.cpp:75-99 | `fn ( s : t )` with valid cell names is the range call with `fn` lower-cased and both ends upper-cased, or an invalid-range error naming both ends when the end is left of or above the start |
| ParserProperties.RangeCallErrors | parser.cpp:75-95 | a range-function name followed by a malformed call is rejected with the error for the first token out of place: not `(`, a missing or invalid start cell, not `:`, a missing or invalid end cell, not `)` |
| ParserProperties.UnclosedParen | parser.cpp:108-111 | an opening parenthesis whose expression runs to the end of the input is reported as unbalanced |
| ScannerParser.TokenScanner.NextToken | parser.cpp:70 | nextToken returns the front token, or end of input without consuming anything |
| ScannerParser.TokenScanner.SaveToken | parser.cpp:55 | saveToken puts the token just read back at the front |
| ScannerParser.ReadE | parser.cpp:45-57 | the cursor-based readE returns the tree or error that `Parser.ReadE` gives for the tokens left at its start, and leaves the cursor where the function's leftover begins |
| ScannerParser.ReadT | parser.cpp:69-112 | the cursor-based readT agrees with `Parser.ReadT` in the same way, for every branch and error |
| ScannerParser.ParseExp | parser.cpp:26-32 | the cursor-based parseExp returns exactly `Parser.ParseExp` of the tokens left at its start |
| Graphs.ReplaceKeepsNoLongCycles | ssmodel.cpp:208-220 | if the cycle test passes, replacing the cell's incoming arcs with arcs from its dependencies closes no cycle through two different cells |
| Graphs.RejectedIsCircular | ssmodel.cpp:208-220 | a formula the test rejects names its own cell, or would close a cycle through its cell and another cell |
| Graphs.SelfReferenceGap | ssmodel.cpp:208-220 | a formula naming its own cell passes the test exactly when that cell is not yet a vertex and the formula is not the cell alone; when it passes, it leaves an arc from the cell to itself |
| Graphs.NotReachesIntoClosed | ssmodel.cpp:229-244 | a vertex outside a set that contains every predecessor of its members reaches no member (why an unsuccessful search proves absence) |
| Graphs.IntoReplace | ssmodel.cpp:172-197 | after replacement the cell's incoming neighbours are exactly its dependencies, and every other vertex's are unchanged |
| Graphs.ReversePostOrder | ssmodel.cpp:252-260 | popping a post-order stack without repeats yields each cell once, dependencies before dependents |
| Graphs.WalkOrder | ssmodel.cpp:124-130 | the cells popped after the start cell are exactly the other cells reachable from it, each once, dependencies first, and together with it no arc leaves them |
| Recalc.CellRecord | ssmodel.cpp:144-160 | the stored record keeps the formula; a string formula shows its text and has value 0, and any other formula shows its formatted value |
| Recalc.Recompute | ssmodel.cpp:124-130 | the update loop keeps the set of cells and every cell's formula |
| Recalc.Step | ssmodel.cpp:128-129 | one pass of the update loop: the popped cell is re-evaluated from its stored formula; `Recalc.RecomputeNext` states the record and notice it produces |
| Recalc.Formulas | ssmodel.h:208-217 | the formula of each cell of the map, with the same cells |
| Recalc.RecomputeKeepsFormulas | ssmodel.cpp:124-130 | re-evaluation changes no cell's formula and adds or removes no cell |
| Recalc.GetCellDataCases | ssmodel.cpp:265-272 | getCellData is 0 for an empty cell or a string cell, and the cached number otherwise; it ignores case |
| Recalc.ReferenceEval | exp.cpp:101-103 | a reference reads exactly its one cell and evaluates to that cell's getCellData |
| Recalc.RecomputeKeepsRecordsOk | ssmodel.cpp:124-130 | re-evaluation writes only records whose value and display text match their formula |
| Recalc.RecomputeUntouched | ssmodel.cpp:124-130 | a cell the loop does not visit keeps its record |
| Recalc.NoticesShowFinalText | ssmodel.cpp:124-130 | when no cell is visited twice, the loop shows each visited cell once, in order, with the text it ends up with |
| Recalc.LastWrite | ssmodel.cpp:124-130 | the record a visited cell ends with is the one computed on its turn |
| Recalc.UpdateRestoresConsistency | ssmodel.cpp:113-133 | if every cell but the edited one was consistent, then after the edit and a dependencies-first pass over everything the edited cell reaches, every cell that does not read itself holds the value of its formula |
| SpreadsheetModel.OrderHasRecords | ssmodel.cpp:127-130 | every cell the update loop visits after an accepted edit has a record, so `spreadsheet[nodeName]` never reads a missing cell |
| SpreadsheetModel.EditKeepsShape | ssmodel.cpp:113-133 | an accepted edit keeps the index in step with the arcs, keeps the graph free of long cycles, keeps vertices canonical, and keeps each cell's index entry equal to the cells its formula reads |
| SpreadsheetModel.EditKeepsConsistent | ssmodel.cpp:113-133 | after an accepted edit and its re-evaluation, every cached value that does not read its own cell agrees with its formula |
| SpreadsheetModel.EditKeepsSheetOk | ssmodel.cpp:113-133 | an accepted edit followed by re-evaluation restores the whole invariant: shape, well-built records, consistency |
| SpreadsheetModel.Header | ssmodel.cpp:381-390 | a line's header is accepted only when it has at least two tokens, the first is a valid cell name and the second is `=` |
| SpreadsheetModel.LineEdit | ssmodel.cpp:381-390 | the cell (upper-cased) and formula a file line sets when its header and formula are accepted |
| SpreadsheetModel.Loaded | ssmodel.cpp:362-373 | the formulas after the first n lines are set in turn: each accepted line overwrites its cell's formula |
| SpreadsheetModel.LoadedLastWrite | ssmodel.cpp:369-372 | last write wins: after loading, a cell holds the formula of the last line that set it |
| SpreadsheetModel.LoadedUntouched | ssmodel.cpp:369-372 | a cell no line sets keeps its formula, or stays empty |
| SpreadsheetModel.LoadedFacts | ssmodel.cpp:369-372 | loading accepted lines removes no cell, and each line's cell is present afterwards |
| SpreadsheetModel.SetLineFormulas | ssmodel.cpp:381-390 | an accepted line changes only its own cell's formula, to the line's formula |
| SpreadsheetModel.SSModel.constructor | ssmodel.cpp:27-32 | a new model has an empty sheet, graph and index, and satisfies the invariant |
| SpreadsheetModel.SSModel.DfsRecursive | ssmodel.cpp:229-244 | found means the end cell reaches the start cell; not found means the marked set grew to a backward-closed set holding the start and not the end |
| SpreadsheetModel.SSModel.CheckForCycle | ssmodel.cpp:208-220 | the answer is true exactly when some dependency that is already a vertex is reachable from the cell, or the dependencies are the cell alone |
| SpreadsheetModel.SSModel.AddDataToGraph | ssmodel.cpp:172-197 | the cell and its dependencies become vertices, its incoming arcs become exactly those from its dependencies, only its index entry changes, and the cells are untouched |
| SpreadsheetModel.SSModel.EvaluateExpression | ssmodel.cpp:144-160 | the upper-cased name gets the formula's record evaluated against the old cells, the cell is shown, and the graph is untouched |
| SpreadsheetModel.SSModel.TopologicalSort | ssmodel.cpp:252-260 | pushes the start last, above the previously unmarked cells it reaches, marking exactly those, and keeps the stack a post-order of finished cells |
| SpreadsheetModel.SSModel.UpdateDependents | ssmodel.cpp:121-130 | the cells re-evaluated are exactly the others reachable from the edited cell, dependencies first, and the cells and notices are those of the update loop over that order |
| SpreadsheetModel.SSModel.ReEvaluate | ssmodel.cpp:127-130 | popping the stack re-evaluates its cells top first, as the update loop over the reversed stack |
| SpreadsheetModel.SSModel.ApplyFormula | ssmodel.cpp:120-130 | an accepted formula rewires the cell's arcs and index, evaluates it, re-evaluates everything it reaches dependencies first, and keeps the invariant |
| SpreadsheetModel.SSModel.SetCellFromScanner | ssmodel.cpp:113-133 | a parse error is returned as is; otherwise the edit is refused as circular exactly when the cycle test fires; a refused edit changes nothing; an accepted one does what ApplyFormula states and keeps the invariant |
| SpreadsheetModel.SSModel.CollectCellRef | ssmodel.cpp:297-313 | appends exactly the range's names, columns outer and rows inner, and nothing for an invalid range |
| SpreadsheetModel.SSModel.CollectCellValues | ssmodel.cpp:286-292 | appends getCellData of each name of the range, in range order |
| SpreadsheetModel.SSModel.ApplyRangeFunction | ssmodel.cpp:277-281 | the table's function for the lower-cased name, applied to the values of the range in column-major order |
| SpreadsheetModel.SSModel.Clear | ssmodel.cpp:399-404 | shows the empty sheet and empties the cells, the graph and the index, keeping the invariant |
| SpreadsheetModel.SSModel.SetLinesFromFile | ssmodel.cpp:381-390 | a missing name, an invalid name or a missing `=` is reported in that order; otherwise the rest of the line is set exactly as setCellFromScanner sets it (same errors, the same rewired graph and index, cells re-evaluated in dependency order, the same notices); a failure changes nothing |
| SpreadsheetModel.SSModel.ReadFromStream | ssmodel.cpp:362-373 | lines are set in order until one fails, whose index and error are returned; the failing line changes nothing, so the formulas afterwards are exactly those the lines before it load onto the old ones (`Loaded`), which stay set; the invariant holds throughout |
| SpreadsheetModel.SSModel.LoadLine | ssmodel.cpp:369-372 | one pass of readFromStream's loop: an accepted line extends the loaded formulas by one line, a refused one leaves them as they were |
| SpreadsheetModel.SSModel.SetLine | ssmodel.cpp:369-372 | a line is set through a fresh scanner: on failure nothing changes; on success only the line's cell changes formula |

## Left out

- The tokenizer: the model starts from token sequences. Number tokens are already converted with `stringToReal`, and `readEntireFile` becomes a sequence of token lines.
- `stringToLocation` / `locationToString` are not part of this model. The configuration supplies them as a pair of conversions, assumed to be inverse to each other up to case (`Sheet.Bijective`).
- The number formatters `realToString` and `doubleToString` are a configuration parameter. Display text is only compared, never inspected.
- IEEE arithmetic: values are unbounded reals. A division by zero gives a value supplied by the configuration (standing for the infinities and NaN), and rounding is not modelled.
- The "Illegal operator" error of the compound evaluator is not modelled: the operator datatype holds only the four operators the parser builds.
- `printCellInformation` and `writeToStream` are output-only (they format cells to a stream) and are not part of this model.
- The view (`ssview.cpp`) is reduced to a ghost log of the `displayCell` and `displayEmptySpreadsheet` calls.
- Heap management: allocation and deletion of expression trees and graph vertices, and the `delete` of replaced formulas.
- `incomingNeighbors[x]` on a missing key inserts an empty set in C++. The model reads it with an empty default instead; the difference cannot be observed.
- Graph duplicate arcs: the graph is a set of arcs, so a formula that reads a cell twice adds one arc.
- Iteration order of the library's sets: the searches pick neighbours in any order, and every property is proved for all orders.
- Visited flags on vertices: the searches keep the marked cells in a local set instead of `graph.resetData` flags.
- `error(...)` exceptions become `Result` / `Outcome` values that carry which error was raised; the message texts are not modelled.
- SpreadsheetModel.SSModel.ReadFromStream: states the cells' formulas after the load and the invariant (values consistent, graph and index in step); the graph arcs and display notices of each line are stated by SetLinesFromFile and not folded over the lines.
- SpreadsheetModel.SSModel.SetLinesFromFile: a name and `=` that pass are not given back to the scanner, and the model does not restate where the scanner cursor ends.
