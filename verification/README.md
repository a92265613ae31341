# Ixion: a verified model of recalculation, formulas and column scans

This project models the three hardest parts of the Ixion spreadsheet engine in
Dafny and proves what they are for.

**Recalculation.** Formula cells listen to the cells they refer to. The dirty
cell tracker (`DirtyCellTracker`) closes the listener relation over an edit and
sorts what is dirty with a depth-first search (`DepthFirstSearch`). The cells
found are reset, a scan over their references (`CircularityScan`) marks those
that reach a reference cycle, and the rest are interpreted, one after another (`Calculation`) or on several threads
(`CellQueue`, `ThreadedCalculation`); `SortedCalculation` puts the passes
together for both. `Registration` states the references of a formula to the
tracker and takes them back. `Document` is the outer state machine of edits and
`calculate`, and `History` runs it. The reference point is
`Recalculation.Meaning`, the value of a cell defined on the final sheet alone:
the reference error if a reference cycle can be reached from the cell, else
its formula on the meanings of the cells it refers to. The main theorem is
`History.Replay`: whatever was edited and recalculated before, in whatever
order the hash sets iterate, recomputing only the stale cells leaves every
formula cell with its meaning and with the circularity mark that the sheet
gives it, or else an exception escapes, exactly when the scan of a stale cell
steps outside of the workbook. Each recalculation of the history may run on one
thread or on several, under any schedule of the threads, and histories go on
after exceptions.

On threads an interpretation reads the results of other cells one after
another, and what it reads next, or whether it reads on at all, depends on what
it has read: a condition selects its branch, an error ends the interpretation
(`AdaptiveReading`). `SequentialInterpretation` is the reference such runs are
measured against, and `ThreadedCalculation.ThreadedRecalculation` says that
every schedule that has ended has given every formula cell its meaning,
whichever of its references each interpretation read, in whatever order.
`EagerInterprets`, `StoppingInterprets` and `ChoosingInterprets` give ways of
reading that qualify: all references, up to the first error, one branch of two.
For formulas given by tokens `FormulaReading` derives the reader from the
interpreter itself and proves that it computes the formula, so that
`TokensRecalculated` asks nothing of the way interpretations read but that a
built-in function depends only on the cells it asks for.

**Formulas.** `FormulaLexer`, `FormulaParser`, `FormulaPrinter` and
`FormulaSpelling` cover text, `AddressA1` and `AddressR1C1` the two address
notations, `NamedExpressions` the expansion that comes before interpretation,
`FormulaInterpreter` the recursive descent over tokens with its stack of value
stacks, `ExpressionGrammar` and `ExpressionTheorems` the grammar written in its
comments, and `FormulaValues` what its operators do with numbers, strings,
errors and references. Beside these stand statements that name none of the
functions they are about: `FormulaArithmetic` and `FormulaComparisons` say what
is stored for given operands, `NamedFormulas` that a name means the
parenthesised tree of its body, `FormulaLexemes` where lexemes end,
`AddressTexts` which texts are addresses, and `AddressRanges` how two addresses
around a colon are read.
`FormulaLocality` joins the two parts: a formula given by tokens is one whose
result depends on the referenced cells only, which is what recalculation
needs, and interpreting it while some of them are unread stops at one of these
or ends with the same result. `DescentSimulation` is the fact about the descent
behind this. `FormulaAddresses` puts references in A1 notation into formulas
that are printed and read back.

**Column scans.** `ColumnStore` keeps a column as merged blocks of cells of one
type; `ColumnScans`, `ColumnWalks` and `DataRange` prove counting, walking, the
test for emptiness and the data range against the cell-by-cell view.

The classes of the source that update fields in place are classes here, loops
that update variables are methods with loops, and each such method is tied to
a specification function or predicate about which the lemmas are proved.
Exceptions are results (`Option`, `Outcome`, or a constructor of their own).
`Graph` and `Decimal` hold facts about paths and numerals that the rest uses,
`Wrappers` the option type.

What the proofs found, stated as exact conditions:

- A formula entered and overwritten by a value before the next calculation
  leaves its address among the modified formula cells, and `calculate` would
  then follow a null pointer. `History.OverwrittenExactly` says when this
  happens, `History.OverwriteBreaksRecalculation` shows the shortest history.
- A formula may refer to cells outside of the workbook; only the first corner
  of a reference is held against the sheet when it is parsed. The next
  `calculate` then throws while it scans for circular references, unless the
  scan meets a circular cell first, and keeps everything recorded as modified,
  so that the one after it throws again. `Calculation.StepsOutside` is the exact
  condition, `StepsOutsideExactly` says what it comes to for a cell on no cycle,
  `History.PastTheSheet` shows it on `A1:XFE1` and on `A1:B`, where entering a
  number in place of the formula does not help.
- The data range of a sheet with one row always begins at column 0, so leading
  empty columns are not left out; `DataRange.GetDataRange` says exactly when
  the result is the smallest rectangle, `LeadingColumnIsKept` shows a sheet of
  two cells where it is not.
- A reference to whole columns or rows, or one with its corners exchanged, is
  expanded and sorted when a formula is registered but not when it is
  unregistered, where the tracker refuses it: `Registration.TakenBackExactly`
  says exactly which formulas can be taken back, `StatedForGood` shows two that
  cannot, so that their cells can be neither overwritten nor emptied.
- A name that is only met twice, and is on no cycle, is refused like a circular
  one; `NamedExpressions.ExpandsExactly` and `RepeatedNameIsRefused`.
- Printing runs tokens together without blanks; which neighbours are read back
  differently is the condition of `FormulaPrinter.PrintedReadsBackExactly`, and
  `LessEqualFuses` and `NameSwallowsNumber` are neighbours of either kind.
- R1C1 addresses printed as `R`, `C` or `RC` are the ones not read back;
  A1 addresses are read back exactly up to the parser's column bound, and
  `AddressA1.ColumnBeyondBound` is the first that is not.
- As the first corner of a range `R` is read as the absolute first row, while
  `C` and `RC` are read back: `AddressRanges.RangeR1C1RoundTripExactly`. In A1
  notation the `$` of a whole row is taken for that of the column, so that
  `$1:$2` is read with relative rows: `AddressRanges.RangeA1RoundTripExactly`.
- Closing brackets in R1C1 addresses are looked at only where the text ends,
  and repeated `$` signs before an A1 address count as one:
  `AddressTexts.AcceptedR1C1Exactly` and `AcceptedExactly` give the texts that
  are addresses.

Where the code and its comments differ, the model follows the code: a call may
have one separator after its last argument although the comment's grammar has
none; tokens left over after an expression, and an empty formula, end with the
error "no error"; the matrix row separator is configurable when printing but
the tokenizer always takes `;`.

Preconditions of the recalculation theorems, each one forced by the code:
references have their corners in order and are not whole rows or columns (others
cannot be unregistered, and the circularity check does not reorder), though they
may reach out of the workbook; no pending formula has been overwritten; formulas
parse, cells are not grouped, and evaluation returns a value or a formula error.
With threads, the way each formula reads its references computes the formula,
and the schedule is one of the runs of the queue that end;
`SortedCalculation.ThreadsFit` says that there are such readers and schedules
for every sheet and thread count.

`dafny verify dfyconfig.toml` checks everything.

## Model

| member | source | states |
|---|---|---|
| DepthFirstSearch.Relations.Insert | src/include/depth_first_search.hpp:75-92 | records one more precedent edge and keeps all others |
| DepthFirstSearch.Search.constructor | src/include/depth_first_search.hpp:126-140 | maps every given node to its index |
| DepthFirstSearch.Search.Init | src/include/depth_first_search.hpp:143-153 | every node is white again under its own index, nothing is output |
| DepthFirstSearch.Search.Run | src/include/depth_first_search.hpp:156-170 | the index lookup never fails exactly when the recorded edges stay among the nodes; then each node is output once, and an edge whose precedent comes later lies on a cycle |
| DepthFirstSearch.Search.Visit | src/include/depth_first_search.hpp:173-200 | visiting a white node outputs it after everything it newly reaches, with only nodes on the current path still gray |
| DepthFirstSearch.Search.VisitPrecedent | src/include/depth_first_search.hpp:186-193 | after a precedent has been dealt with it is output already or is gray, hence on a cycle with the node |
| DepthFirstSearch.SortedIsPermutation | src/include/depth_first_search.hpp:156-170 | the output is a permutation of the nodes given |
| DepthFirstSearch.AcyclicPrecedentsFirst | src/include/depth_first_search.hpp:173-200 | on a relation without cycles every precedent comes strictly before its dependent |
| DirtyCellTracker.Tracker.Add | src/libixion/dirty_cell_tracker.cpp:106-153 | the relation gains exactly the triples (sheet, rectangle, listener) of the arguments; invalid arguments are refused with nothing changed |
| DirtyCellTracker.Tracker.Remove | src/libixion/dirty_cell_tracker.cpp:155-213 | the relation loses exactly the triples that adding the same arguments brings, and no empty listener set stays behind |
| DirtyCellTracker.Tracker.AddOnSheet | src/libixion/dirty_cell_tracker.cpp:130-152 | one sheet's step of adding: at most one entry per rectangle, other sheets unchanged |
| DirtyCellTracker.Tracker.RemoveOnSheet | src/libixion/dirty_cell_tracker.cpp:179-212 | one sheet's step of removing, also when nothing is tracked there |
| DirtyCellTracker.Tracker.AddVolatile | src/libixion/dirty_cell_tracker.cpp:215-218 | one more volatile range, the relation unchanged |
| DirtyCellTracker.Tracker.RemoveVolatile | src/libixion/dirty_cell_tracker.cpp:220-223 | one volatile range less, the relation unchanged |
| DirtyCellTracker.Tracker.GetAffectedCellRanges | src/libixion/dirty_cell_tracker.cpp:64-80 | exactly the listeners of rectangles overlapping the range on its first sheet |
| DirtyCellTracker.AffectedExactly | src/libixion/dirty_cell_tracker.cpp:64-80 | a listener is affected by a range exactly when some cell of the range, on its first sheet, lies in a rectangle it listens to |
| DirtyCellTracker.Tracker.Spread | src/libixion/dirty_cell_tracker.cpp:287-297 | one round of the work list: adds the listeners of the current ranges, and hands on exactly the new ones |
| DirtyCellTracker.Tracker.RecordingSpread | src/libixion/dirty_cell_tracker.cpp:316-333 | one recording round: the edges recorded are exactly those leaving the ranges done so far |
| DirtyCellTracker.Tracker.QueryDirtyCells | src/libixion/dirty_cell_tracker.cpp:232-266 | terminates on every relation and returns exactly the volatile ranges and everything reached from modified or volatile ones |
| DirtyCellTracker.Tracker.QueryAndSortDirtyCells | src/libixion/dirty_cell_tracker.cpp:275-353 | a repetition-free list of exactly the dirty ranges; the edges recorded are exactly the listener edges leaving its members; whoever is listened to comes first unless the two are on a cycle |
| DirtyCellTracker.Tracker.SpreadAndRecord | src/libixion/dirty_cell_tracker.cpp:300-336 | works off the ranges given and all that follow from them: what it has found with the given ones is exactly what is dirty, and the edges recorded are exactly those leaving them |
| DirtyCellTracker.Tracker.BothQueries | src/libixion/dirty_cell_tracker.cpp:225-353 | without given dirty formulas the plain and the sorted query return the same ranges |
| DirtyCellTracker.DirtyIsLeast | src/libixion/dirty_cell_tracker.cpp:245-263 | what is dirty lies in every set that holds the volatile and given ranges and is closed under listening |
| DirtyCellTracker.DirtyIsClosed | src/libixion/dirty_cell_tracker.cpp:249-260 | listeners of modified or dirty ranges are dirty |
| DirtyCellTracker.SortRanges | src/libixion/dirty_cell_tracker.cpp:347-352 | the output is a permutation of the ranges, sorted as the search promises, for every iteration order of the hash set |
| Recalculation.MeaningUnfolds | src/libixion/formula_calc.cpp:59-78 | a cell from which no cycle is reached has its formula's value on the meanings of its references |
| Recalculation.MeaningInRegion | src/libixion/document.cpp:167-173 | cells that refer only to cells that two sheets share mean the same, and are circular alike, in both |
| Recalculation.EditKeepsMeaning | src/libixion/document.cpp:113-165 | an edit leaves the meaning and circularity of every cell that does not reach it |
| Recalculation.EditKeepsStale | src/libixion/document.cpp:113-165 | recording an edit never makes another stale cell fresh |
| Recalculation.ClockKeepsMeaning | src/libixion/formula.cpp:392-395 | a cell that neither is nor reaches a volatile cell means the same at every time |
| SheetTracking.ListensTo | src/libixion/dirty_cell_tracker.cpp:64-80 | with a sheet's relation, a range is affected by a cell exactly when it is the position of a formula that refers to the cell |
| SheetTracking.DirtyIsStale | src/libixion/dirty_cell_tracker.cpp:275-353 | the dirty ranges of a sheet's relation are exactly the positions of its stale cells |
| SheetTracking.SortedEntries | src/libixion/formula_calc.cpp:53-57 | the sorted ranges, taken at their first cells, list every stale cell once with references first |
| Calculation.FormulaCell.Reset | src/libixion/cell.cpp:487-492 | result and safety mark are cleared |
| Calculation.FormulaCell.CheckCircular | src/libixion/cell.cpp:420-485 | scans the references in turn: the cell is marked safe if all scans pass, gets the reference error if one stops at an unsafe formula cell, and is left alone if one steps outside of the workbook first |
| Calculation.CheckRangeForCircularSafety | src/libixion/cell.cpp:440-476 | the scan over sheets, columns and rows, with unset columns or rows expanded to the sheet: passes, or stops at the first cell that is outside of the workbook, which throws, or holds an unsafe formula cell |
| CircularityScan.OneResultOfAll | src/libixion/cell.cpp:420-485 | the scans over the references of a formula end in one way only |
| CircularityScan.ScanEnds | src/libixion/cell.cpp:440-476 | every scan passes over all cells or stops at a first one |
| CircularityScan.OutsideExactly | src/libixion/cell.cpp:440-476 | where no cell referred to is unsafe, the scans step outside exactly when some reference reaches out of the workbook |
| CircularityScan.PassesExactly | src/libixion/cell.cpp:440-476 | the scan of a reference passes exactly when every cell it names, whole columns and rows reaching as far as the sheet, is in the workbook and not unsafe |
| CircularityScan.ColumnByColumn | src/libixion/cell.cpp:455-474 | on a sheet of one row the scan of A1:B2 steps outside at A2 before it meets an unsafe B1 |
| Calculation.ScansMean | src/libixion/cell.cpp:103-116 | scans over references that are no whole rows or columns, when they pass, find all formula cells referred to safe, and when they stop at an unsafe one do not |
| Calculation.UnsafeAreCircular | src/libixion/cell.cpp:103-116 | of the cells an entry refers to, those not marked safe at its turn are exactly the circular ones |
| Calculation.StepsOutsideExactly | src/libixion/cell.cpp:440-476 | the check of a cell that reaches no cycle steps outside of the workbook exactly when its formula refers to a cell there |
| Calculation.FormulaCell.Interpret | src/libixion/cell.cpp:372-418 | a result that exists is kept, otherwise the formula's value on the contents of its references is stored; the mark is unchanged |
| Calculation.ResetAll | src/libixion/formula_calc.cpp:59-64 | every entry is reset and nothing else |
| Calculation.MarkCircular | src/libixion/formula_calc.cpp:66-69 | the circular pass throws exactly when the check of some entry steps outside of the workbook; otherwise an entry is marked safe exactly when no reference cycle is reachable from it, and already has the reference error if one is, whatever order the entries had among unrelated cells |
| Calculation.SafeExactlyWhenAcyclic | src/libixion/cell.cpp:103-116 | at the moment an entry is checked, its references are all marked safe exactly when no cycle is reachable from it |
| Calculation.InterpretAll | src/libixion/formula_calc.cpp:71-78 | the sequential pass gives every entry its meaning |
| Calculation.InterpretEntry | src/libixion/cell.cpp:76-85 | each reference of a safe entry already has its final result when it is read, so the wait loop never runs, and the entry gets its meaning |
| Registration.RegisterFormulaCell | src/libixion/formula.cpp:315-396 | reference after reference is added to the tracker's relation, up to the first with an invalid sheet or refused by the tracker; a cell affects the position afterwards exactly when it did before or lies between the corners of an added reference, in either order, or in its whole columns or rows; the position becomes volatile if the formula is and none was refused |
| Registration.StatedAffects | src/libixion/formula.cpp:371-386 | of what registering references adds, exactly the cells that one of them names affect the formula cell |
| Registration.RegistersExactly | src/libixion/formula.cpp:359-386 | a reference is accepted exactly when its sheets and its indices are allowed, whole rows and columns and exchanged corners included |
| Registration.UnregisterFormulaCell | src/libixion/formula.cpp:398-438 | reference after reference, as written, is taken out of the relation, up to the first that is refused; the position stops being volatile in any case |
| Registration.TakenBackExactly | src/libixion/formula.cpp:315-438 | the references of a formula can all be taken back exactly when they are ordered and no whole rows or columns; then they can be stated too, and what is stated and what is taken back are all that the formula listens to |
| Registration.StatedForGood | src/libixion/dirty_cell_tracker.cpp:155-177 | a reference to a whole column, and one with its corners exchanged, are registered and refused when they are to be unregistered |
| Registration.RegisterWellFormed | src/libixion/formula.cpp:315-396 | for ordered references that are no whole rows or columns the relation gains exactly the listenings of the formula |
| Registration.UnregisterWellFormed | src/libixion/formula.cpp:398-438 | for ordered references that are no whole rows or columns the relation loses exactly the listenings of the formula |
| Document.RelationWithout | src/libixion/formula.cpp:398-438 | taking a formula's listenings out of a sheet's relation gives the relation of the sheet without that cell |
| Document.RelationWith | src/libixion/formula.cpp:315-396 | putting a formula's listenings in gives the relation of the sheet with that cell |
| Document.Document.constructor | src/libixion/document.cpp:84-95 | an empty document is valid: nothing stored, nothing tracked |
| Document.Document.Unregister | src/libixion/document.cpp:116-116 | the tracker's relation becomes that of the sheet without the cell |
| Document.Document.SetValueCell | src/libixion/document.cpp:113-135 | outside of the workbook it throws and nothing changes; otherwise the cell holds the value, the tracker's relation is again exactly the one of the stored formulas, and every cell that is not stale is still correct |
| Document.Document.EmptyCell | src/libixion/document.cpp:137-143 | the same for a cell made empty |
| Document.Document.SetFormulaCell | src/libixion/document.cpp:157-165 | the same for a cell with a new formula, which is recorded as a modified formula cell |
| Document.Document.EnterFormulaCell | src/libixion/document.cpp:157-165 | stores and registers a formula cell where the tracker knows of none: the relation is that of the sheet with the cell, and cells that are not made stale stay correct |
| Document.Document.DirtyEntries | src/libixion/document.cpp:167-173 | the cells to recalculate are the stale ones, each once, with references first |
| Document.Document.Calculate | src/libixion/document.cpp:167-173 | on one thread or on several under any schedule: only stale cells are touched; it throws, with everything still recorded as modified, exactly when the check of a stale cell steps outside of the workbook; otherwise every formula cell has its meaning and mark, and nothing is recorded as modified |
| Document.StaysCorrect | src/libixion/document.cpp:113-165 | cells that an edit does not make stale keep a correct status on the edited sheet |
| History.OverwrittenExactly | src/libixion/document.cpp:157-173 | a recorded formula address holds no formula cell exactly when the formula entered there since the last calculation that went through was overwritten and not entered again |
| History.OverwriteBreaksRecalculation | src/libixion/document.cpp:113-119 | entering a formula and then a number at the same position is enough for calculate to look up a missing formula cell |
| History.InsideGoesThrough | src/libixion/cell.cpp:440-476 | while all formulas refer to cells in the workbook no recalculation throws |
| History.ReachingOutThrows | src/libixion/formula_name_resolver.cpp:1377-1381 | entering a formula that refers to a cell outside of the workbook and not to itself into an empty document makes the next calculation throw |
| History.PastTheSheet | src/libixion/model_context_impl.cpp:940-946 | on a sheet of 1048576 rows and 16384 columns formulas on A1:XFE1 and A1:B make every calculation throw, and after a number is entered in their place a calculation would look up a missing formula cell |
| History.Perform | src/libixion/document.cpp:113-173 | each edit takes the document from its sheet and modified positions to those after the edit, keeping it valid, and throws exactly where the specification says |
| History.Replay | src/libixion/document.cpp:113-173 | after any history ending with calculate, its recalculations running on one thread or on several under any schedule and any of its edits ending with an exception: calculate throws exactly when the check of a stale cell steps outside of the workbook; otherwise every formula cell has the meaning the final sheet gives it, and is marked safe exactly when it reaches no cycle |
| AdaptiveReading.ReadOnce | src/libixion/formula_interpreter.cpp:1244-1250 | of two readings on the same results the shorter begins the longer, so what is read is determined by the results |
| AdaptiveReading.OnTheWay | src/libixion/cell.cpp:402-417 | an interpretation that can finish asks, on its way, only for results there are and not more often than it does in the end |
| SequentialInterpretation.AsksForEarlier | src/libixion/formula_calc.cpp:71-78 | an entry that has been told sequential results asks only for cells given beforehand or earlier in the list, a bounded number of times, and the next sequential result keeps this so |
| SequentialInterpretation.AnswersSequentially | src/libixion/formula_calc.cpp:71-78 | an entry told sequential results answers with its own sequential result |
| CellQueue.StepKeepsInv | src/libixion/cell_queue_manager.cpp:70-133 | every step of pushing thread, joining thread or task, whatever the tasks choose to read, keeps the invariant of queue, mutexes, results and sleepers |
| CellQueue.LooksAtFinalResult | src/libixion/cell.cpp:356-362 | a task that looks at a result under the cell's mutex sees nothing yet or the final result, never the placeholder, and nothing only if that cell's task has not begun |
| CellQueue.NoPlaceholderIsRead | src/libixion/cell.cpp:402-417 | in no run does a task take the placeholder stored before interpretation for a result |
| CellQueue.Progress | src/libixion/cell_queue_manager.cpp:70-102 | no reachable unfinished state is stuck, also when tasks read adaptively and stop early: a step is enabled that relies on no spurious wake-up, so no mutex deadlock and no lost wake-up |
| CellQueue.BoundedAhead | src/libixion/cell_queue_manager.cpp:74-80 | the future queue never exceeds the thread count, and at most thread count + 1 pushed interpretations are not yet joined |
| CellQueue.StepLowersMeasure | src/libixion/cell_queue_manager.cpp:118-133 | every step but a spurious wake-up lowers a measure, and such a wake-up raises it by at most 2 |
| CellQueue.RunInvariant | src/libixion/cell_queue_manager.cpp:70-133 | every run keeps the invariant, and the measure stays non-negative, so its length is bounded by the measure at the start and the number of spurious wake-ups |
| CellQueue.TerminalResults | src/libixion/cell_queue_manager.cpp:104-116 | when all tasks are joined every cell has its sequential result |
| CellQueue.CanComplete | src/libixion/cell_queue_manager.cpp:70-133 | however far the threads have come, they can be scheduled to the end |
| CellQueue.ThreadsMatchSequentialRun | src/libixion/cell_queue_manager.cpp:118-133 | a run that cannot go on has ended, and every run that has ended leaves exactly the results of interpreting the entries one after another, whatever each of them reads |
| ThreadedCalculation.QueueIsValid | src/libixion/formula_calc.cpp:80-84 | entries sorted with references first, whose readers compute their formulas from some of the references, meet what the queue needs |
| ThreadedCalculation.QueueComputesMeaning | src/libixion/formula_calc.cpp:80-84 | the sequential results of the first entries are their meanings, whatever part of its references each one reads and in whatever order |
| ThreadedCalculation.ThreadedRecalculation | src/libixion/cell_queue_manager.cpp:118-133 | under every schedule, and with every way of reading that computes the formulas, a run that has ended has given every formula cell its meaning |
| ThreadedCalculation.ReadsItsMeaning | src/libixion/cell.cpp:372-418 | an interpretation that finds the meanings of all its references among other results computes the meaning of its cell |
| ThreadedCalculation.EagerInterprets | src/libixion/cell.cpp:118-133 | reading all references, in any order and with repetitions, computes any formula |
| ThreadedCalculation.ReadersExist | src/libixion/cell.cpp:118-133 | for every sheet there are readers that compute all its formulas |
| ThreadedCalculation.StoppingInterprets | src/libixion/formula_interpreter.cpp:1244-1250 | a formula that hands on the error of its first operand is computed by reading no further than that error |
| ThreadedCalculation.ChoosingInterprets | src/libixion/formula_functions.cpp:1357-1372 | a formula that selects among two cells by a third is computed by reading the third and the cell selected, and not the other |
| SortedCalculation.PerformStep | src/libixion/cell_queue_manager.cpp:118-133 | a step of a task changes the cached result of its own cell at most, as the state of the queue says |
| SortedCalculation.QueueStartsFromCircularPass | src/libixion/formula_calc.cpp:66-84 | the cached results that the reset and circular passes leave are those the queue starts from |
| SortedCalculation.RunQueue | src/libixion/cell_queue_manager.cpp:70-133 | any schedule that ends leaves the sequential results in the cells |
| SortedCalculation.InterpretThreaded | src/libixion/formula_calc.cpp:80-84 | after the threaded pass every formula cell has its meaning and mark |
| SortedCalculation.CalculateSortedCells | src/libixion/formula_calc.cpp:44-85 | if cells outside the entries are up to date: it throws exactly when the check of some entry steps outside of the workbook; otherwise every formula cell has its meaning and its right mark, for every thread count and schedule; only the entries are changed |
| SortedCalculation.SchedulerExists | src/libixion/cell_queue_manager.cpp:70-133 | for every thread count of at least one and all ways of reading that compute the formulas, there are schedules that take every recalculation to its end |
| SortedCalculation.ThreadsFit | src/libixion/cell_queue_manager.cpp:70-133 | for every sheet and thread count there are readers that compute its formulas and schedules that end |
| ExpressionTheorems.ExprParses | src/libixion/formula_interpreter.cpp:1110-1233 | where the tokens of a tree stand, the descent yields the tree's value or error and stops right after them |
| ExpressionTheorems.ExpressionIsTree | src/libixion/formula_interpreter.cpp:1110-1426 | whatever the descent accepts are the tokens of a tree of the grammar with that value |
| ExpressionTheorems.TermParses | src/libixion/formula_interpreter.cpp:1235-1320 | the same for terms, which join factors from the right |
| ExpressionTheorems.FactorParses | src/libixion/formula_interpreter.cpp:1322-1410 | the same for factors with their one optional sign |
| ExpressionTheorems.ArgListParses | src/libixion/formula_interpreter.cpp:1724-1749 | the same for argument lists, with one separator allowed after the last argument |
| ExpressionTheorems.TreesAreInterpreted | src/libixion/formula_interpreter.cpp:59-120 | interpreting the tokens of any tree gives the tree's value or its error |
| ExpressionTheorems.InterpretedExactlyTrees | src/libixion/formula_interpreter.cpp:59-120 | a token sequence is interpreted with success exactly when it is that of a tree which evaluates with success |
| ExpressionTheorems.SameTokensSameValue | src/libixion/formula_interpreter.cpp:1110-1426 | two trees with the same tokens evaluate alike |
| FormulaInterpreter.Interpreter.Expression | src/libixion/formula_interpreter.cpp:1110-1233 | agrees with the grammar's descent: on success the cursor is after the tokens used, one value more is on the current stack and all stacks below are as before |
| FormulaInterpreter.Interpreter.RelateHandler | src/libixion/formula_interpreter.cpp:1125-1231 | one round of the expression loop replaces the value on top by the joined one |
| FormulaInterpreter.Interpreter.TermHandler | src/libixion/formula_interpreter.cpp:1235-1320 | the same agreement for terms |
| FormulaInterpreter.Interpreter.FactorHandler | src/libixion/formula_interpreter.cpp:1322-1381 | the same agreement for factors |
| FormulaInterpreter.Interpreter.SignHandler | src/libixion/formula_interpreter.cpp:1383-1410 | skips one sign, refuses it as the last token, and reports a minus |
| FormulaInterpreter.Interpreter.ParenHandler | src/libixion/formula_interpreter.cpp:1412-1426 | the same agreement for parentheses |
| FormulaInterpreter.Interpreter.FunctionHandler | src/libixion/formula_interpreter.cpp:1704-1757 | the same agreement for calls: the stack pushed for the arguments is popped again with the result moved down |
| FormulaInterpreter.Interpreter.ArgumentsHandler | src/libixion/formula_interpreter.cpp:1724-1749 | the arguments, with one separator allowed after the last, are collected on the topmost stack, or the descent's error is thrown |
| FormulaInterpreter.Interpreter.Interpret | src/libixion/formula_interpreter.cpp:59-120 | the outcome is the value of the whole token sequence, or its error; what that is for given operands is stated in FormulaArithmetic |
| FormulaComparisons.ComparisonsConsistent | src/libixion/formula_interpreter.cpp:427-548 | of two numbers or strings exactly one of <, = and > holds, the other relations follow, and < mirrors > |
| FormulaComparisons.LessIsTransitive | src/libixion/formula_interpreter.cpp:427-548 | < is transitive over numbers and strings mixed |
| FormulaArithmetic.NumbersAdded | src/libixion/formula_interpreter.cpp:427-458 | of two numbers, given as constants, references or empty cells, the sum and the difference are stored |
| FormulaArithmetic.NumbersCompared | src/libixion/formula_interpreter.cpp:427-458 | a comparison of two numbers stores 1 if it holds and else 0 |
| FormulaArithmetic.NumbersCombined | src/libixion/formula_interpreter.cpp:949-1024 | of whatever counts as a number the product, the quotient, with its error for 0, and the power are stored |
| FormulaArithmetic.NumbersSigned | src/libixion/formula_interpreter.cpp:1322-1410 | a minus before an operand stores its negation, a plus changes nothing |
| FormulaArithmetic.TextsEqual | src/libixion/formula_interpreter.cpp:460-494 | strings are compared for equality, and adding or subtracting them is an error |
| FormulaArithmetic.TextsOrdered | src/libixion/formula_interpreter.cpp:460-494 | strings are ordered by the first character in which they differ, a beginning coming first |
| FormulaArithmetic.NumberBeforeText | src/libixion/formula_interpreter.cpp:496-548 | a number comes before every string, on whichever side it stands |
| FormulaArithmetic.TextsConcatenated | src/libixion/formula_interpreter.cpp:1046-1108 | the text of the first operand followed by that of the second is stored, numbers and booleans being written out |
| FormulaArithmetic.ErrorsRelated | src/libixion/formula_interpreter.cpp:1125-1231 | an error on either side of a sum, difference or comparison is the result |
| FormulaArithmetic.FirstErrorWins | src/libixion/formula_interpreter.cpp:1125-1231 | of two errors the first is the result, also before text; after text an error is not recognised and ends in a general error |
| FormulaArithmetic.FirstErrorCombined | src/libixion/formula_interpreter.cpp:1235-1320 | of two references to errors in a term the first is the result |
| FormulaArithmetic.ErrorsCombined | src/libixion/formula_interpreter.cpp:1235-1320 | a reference to an error on either side of a product, quotient or power makes that error the result |
| FormulaArithmetic.ErrorConcatenated | src/libixion/formula_interpreter.cpp:1235-1320 | the same for concatenation |
| FormulaArithmetic.ErrorNegated | src/libixion/formula_interpreter.cpp:1322-1381 | the same for a minus |
| FormulaArithmetic.NotNumbers | src/libixion/formula_interpreter.cpp:346-423 | a range in a sum, and an error token or computed text in a product, are errors of their own |
| FormulaArithmetic.RangesBecomeMatrices | src/libixion/formula_interpreter.cpp:1235-1320 | a range in a product is joined as the matrix of the contents of its cells |
| FormulaArithmetic.MatricesRelated | src/libixion/formula_interpreter.cpp:821-930 | a matrix that a function returns is joined to a number by the operations on matrices |
| FormulaArithmetic.OperandResults | src/libixion/formula_interpreter.cpp:194-236 | a single operand is stored as it is, a reference with the content of its cell, a range with that of its first cell, and a reference to the cell itself as an error |
| FormulaArithmetic.CallResult | src/libixion/formula_interpreter.cpp:1704-1757 | a function is called with its arguments in order, and what it returns is stored by its kind |
| FormulaArithmetic.BooleansCount | src/libixion/formula_interpreter.cpp:346-423 | a boolean that a function returns counts as 1 or 0 in sums and products, and is written out in text |
| FormulaArithmetic.TermsBindTighter | src/libixion/formula_interpreter.cpp:1110-1320 | x + y * z is x plus the product |
| FormulaArithmetic.ParenthesesGroup | src/libixion/formula_interpreter.cpp:1412-1426 | (x + y) * z is the sum times z |
| FormulaArithmetic.NoErrorComplaints | src/libixion/formula_interpreter.cpp:59-120 | an empty formula, and one with tokens left over, store the error "no error" |
| DescentSimulation.ExpressionFollows | src/libixion/formula_interpreter.cpp:1110-1783 | where one algebra does what another does or stops, the descent with the first one stops, or ends as with the second |
| FormulaLocality.PartialResultIs | src/libixion/formula_interpreter.cpp:1110-1783 | interpreting with some of the referenced cells unread stops at one of them, where an operation looks at it, or ends with the result there is when all are known |
| FormulaLocality.ReferencesExactly | src/libixion/cell.cpp:494-528 | a formula refers exactly to the cells that its operand tokens name |
| FormulaLocality.ReadsOnlyReferences | src/libixion/formula_interpreter.cpp:1428-1471 | the result of a formula depends only on the contents of the cells its tokens refer to, and on the clock only if they call a volatile function |
| FormulaLocality.MeaningIsInterpretation | src/libixion/cell.cpp:372-418 | the meaning of a cell given by tokens, volatile or not, is the result interpreting them on the recalculated sheet stores |
| FormulaReading.OutlookIs | src/libixion/formula_interpreter.cpp:1244-1250 | with part of the results of its references known, the interpreter asks for another of them or answers as with all of them |
| FormulaReading.TokenReaderInterprets | src/libixion/cell.cpp:372-418 | the reader derived from the interpreter computes the formula its tokens give, whatever results its references have |
| FormulaReading.TokensRecalculated | src/libixion/cell_queue_manager.cpp:118-133 | on threads, with every interpretation reading as the interpreter does, a run that has ended has given every formula cell of a sheet of token formulas its meaning |
| FormulaReading.TokensFit | src/libixion/cell_queue_manager.cpp:70-133 | for every thread count there are schedules of such interpretations that end |
| FormulaReading.ProductReadsFirstOperand | src/libixion/formula_interpreter.cpp:1244-1250 | the interpreter of x * y reads x first, and y only if x is a number or boolean |
| FormulaLocality.TermsAssociateRight | src/libixion/formula_interpreter.cpp:1235-1320 | x / y / z is x / (y / z) |
| FormulaLocality.DifferencesAssociateLeft | src/libixion/formula_interpreter.cpp:1110-1233 | x - y - z is (x - y) - z |
| NamedExpressions.Expander.InitTokens | src/libixion/formula_interpreter.cpp:132-161 | expands a formula's tokens as the specification says, names at the top level never being refused as repeated |
| NamedExpressions.Expander.ExpandName | src/libixion/formula_interpreter.cpp:238-262 | expands a body between parentheses, terminating in every name environment |
| NamedExpressions.NameInParentheses | src/libixion/formula_interpreter.cpp:243-261 | a name alone expands to an opening parenthesis, the expansion of its body and a closing parenthesis |
| NamedExpressions.FirstRefusalCounts | src/libixion/formula_interpreter.cpp:238-262 | the first name refused makes the error: an invalid expression for one used before inside a body, a missing name for one that is not defined |
| NamedFormulas.ExpansionIsInterpreted | src/libixion/formula_interpreter.cpp:132-161 | interpreting the expansion of a formula gives the value of its tree with every name replaced by the parenthesised tree of its body, which is that of the tree in which each name counts as one value |
| NamedFormulas.NameGroups | src/libixion/formula_interpreter.cpp:238-262 | with x standing for 1 + 2, x * 3 is 9 |
| NamedExpressions.ExpansionInlines | src/libixion/formula_interpreter.cpp:132-161 | what a successful expansion outputs is the full parenthesised inlining |
| NamedExpressions.InliningExpands | src/libixion/formula_interpreter.cpp:132-161 | where full inlining exists and no body mentions a name met before, the expansion succeeds |
| NamedExpressions.ExpandsExactly | src/libixion/formula_interpreter.cpp:132-161 | the expansion succeeds exactly when full inlining exists and no body mentions a name met before |
| NamedExpressions.InlinesExactly | src/libixion/formula_interpreter.cpp:238-262 | full inlining exists exactly when every reachable name is defined and no cycle is reachable |
| NamedExpressions.CyclesAreRefused | src/libixion/formula_interpreter.cpp:249-253 | the expansion fails whenever a cycle of names can be reached |
| NamedExpressions.RepeatedNameIsRefused | src/libixion/formula_interpreter.cpp:249-253 | a + a is refused as circular when a stands for another name, although no name is on a cycle |
| AddressA1.AppendColumnNameA1 | src/libixion/formula_name_resolver.cpp:330-349 | the loop appends the name of the column |
| AddressA1.NameSpellsNumber | src/libixion/formula_name_resolver.cpp:330-349 | the letters of a column's name, read as the parser does, spell its 1-based number |
| AddressA1.NumberHasName | src/libixion/formula_name_resolver.cpp:865-877 | letters spell the number of a column whose printed name is their upper case |
| AddressA1.ParseAddressA1 | src/libixion/formula_name_resolver.cpp:848-974 | the parser reads an address character by character as specified, and its column accumulator never exceeds 32 bits |
| AddressA1.ParsePrinted | src/libixion/formula_name_resolver.cpp:377-406 | parsing a printed address gives its absolute position and both $ flags, or refuses a column beyond the bound |
| AddressA1.A1RoundTripExactly | src/libixion/formula_name_resolver.cpp:1195-1203 | printing at an origin, parsing and making relative gives the address back exactly when its column is within the parser's bound |
| AddressA1.ColumnBeyondBound | src/libixion/formula_name_resolver.cpp:865-877 | the column just beyond the bound is printed and then refused |
| AddressA1.AcceptedReadsBack | src/libixion/formula_name_resolver.cpp:848-974 | every text accepted with a row and a column, in either case and with any $ signs, denotes an address that is read back from its printed form |
| AddressA1.LettersRoundTrip | src/libixion/formula_name_resolver.cpp:848-974 | letters alone are read as the column they name, in either case, or refused beyond the bound |
| AddressTexts.AcceptedExactly | src/libixion/formula_name_resolver.cpp:848-974 | a text is an address exactly when it is $ signs, letters within the column bound and a row, of which letters or row may be missing; its numbers are those spelled |
| AddressRanges.FirstCornerExactly | src/libixion/formula_name_resolver.cpp:893-921 | before a colon a text is read as the address that it is read as alone |
| AddressRanges.ReadRangeA1 | src/libixion/formula_name_resolver.cpp:1414-1459 | a text is read as a range exactly when it is two addresses around its first colon, which are its corners relative to the cell |
| AddressRanges.RangeA1RoundTripExactly | src/libixion/formula_name_resolver.cpp:1473-1509 | a printed range is read back, corner by corner, exactly when its columns are within the bound and no $ stands before a whole row |
| AddressRanges.CornersReadOff | src/libixion/formula_name_resolver.cpp:1414-1459 | A1:B2 has the corners A1 and B2 |
| AddressRanges.WholeRowsBecomeRelative | src/libixion/formula_name_resolver.cpp:925-945 | the rows of $1:$2 are read as relative ones |
| Decimal.ReadDigitsGrows | src/libixion/formula_name_resolver.cpp:825-830 | the value read from part of a numeral never exceeds that of the whole, so if the whole fits in 32 bits no step of the loop overflows |
| AddressR1C1.ParseNumber | src/libixion/formula_name_resolver.cpp:809-836 | reads an optional sign and digits, and stops at the first other character |
| AddressR1C1.ParseAddressR1C1 | src/libixion/formula_name_resolver.cpp:976-1080 | the parser agrees with the specification of row part and column part |
| AddressR1C1.PrintedParses | src/libixion/formula_name_resolver.cpp:809-836 | a printed number, wherever it stands, is read back as itself |
| AddressR1C1.RowParses | src/libixion/formula_name_resolver.cpp:425-438 | a printed row part is read back with its flag, and the column part is read after it |
| AddressR1C1.ColumnParses | src/libixion/formula_name_resolver.cpp:439-451 | a printed column part is read back with its flag, or refused where the address would be C or RC |
| AddressR1C1.R1C1RoundTripExactly | src/libixion/formula_name_resolver.cpp:422-452 | every address in 32-bit range is read back, up to the flags of unset parts, exactly when it is not printed as R, C or RC |
| AddressR1C1.AcceptedReadsBackExactly | src/libixion/formula_name_resolver.cpp:976-1080 | every text accepted denotes an address that is read back from its printed form, exactly when that is not R, C, RC or empty |
| AddressR1C1.PrintedShort | src/libixion/formula_name_resolver.cpp:422-452 | which addresses are printed as R, C and RC |
| AddressTexts.AcceptedR1C1Exactly | src/libixion/formula_name_resolver.cpp:976-1080 | a text is an address exactly when it is a row part and a column part, of which one may be missing, other than R or C alone, or RC |
| AddressRanges.AcceptedBeforeColon | src/libixion/formula_name_resolver.cpp:1076-1077 | before a colon every accepted text is read as the address that it is alone |
| AddressRanges.ShortBeforeColon | src/libixion/formula_name_resolver.cpp:976-1080 | before a colon C and RC are read as what they are, and R as the absolute first row |
| AddressRanges.RangeR1C1RoundTripExactly | src/libixion/formula_name_resolver.cpp:1607-1639 | a printed range is read back, corner by corner, exactly when the first is not printed as R, nor the last as R, C, RC or nothing |
| FormulaLexer.Tokenizer.Run | src/libixion/formula_lexer.cpp:139-191 | the tokens are those of the text, lexeme by lexeme, or it throws where the text has an unknown error name |
| FormulaLexer.Tokenizer.Round | src/libixion/formula_lexer.cpp:148-190 | each character is handed to the handler of its kind, and a round that adds no token moves over exactly one blank |
| FormulaLexer.Tokenizer.ReadNumeral | src/libixion/formula_lexer.cpp:234-271 | a numeral is digits with at most one decimal separator; a colon or a second separator makes it a name |
| FormulaLexer.Tokenizer.ReadName | src/libixion/formula_lexer.cpp:279-316 | a name ends at the first operator outside brackets and quotes |
| FormulaLexer.Tokenizer.ReadString | src/libixion/formula_lexer.cpp:324-336 | a string ends at the next quote or at the end of the text |
| FormulaLexer.Tokenizer.ReadError | src/libixion/formula_lexer.cpp:338-373 | an error is the name met on the way down the search tree |
| FormulaSpelling.NothingButBlanksLost | src/libixion/formula_lexer.cpp:137-373 | whatever the text, its tokens written one after another have all its characters but blanks, in order, with a missing closing quote added |
| FormulaSpelling.TokensSpellText | src/libixion/formula_lexer.cpp:137-373 | and the blanks that are lost are those between lexemes |
| FormulaSpelling.ErrorSpells | src/libixion/formula_lexer.cpp:338-373 | the error found on the way down the search tree is printed as the text that led to it |
| FormulaSpelling.HashLexeme | src/libixion/formula_lexer.cpp:338-373 | a number sign is the error whose name follows it, and the tokenizer throws exactly where none does |
| FormulaLexemes.BlankIsSkipped | src/libixion/formula_lexer.cpp:267-271 | exactly a blank is no token, and it is skipped alone |
| FormulaLexemes.SymbolLexeme | src/libixion/formula_lexer.cpp:139-191 | every symbol is its operator, and whatever begins nothing else begins a name |
| FormulaLexemes.StringLexeme | src/libixion/formula_lexer.cpp:324-336 | a string has all characters up to the next quote, or up to the end of the text |
| FormulaLexemes.NumeralLexeme | src/libixion/formula_lexer.cpp:234-271 | the longest run of digits and decimal separators is a numeral, or begins a name if it has two separators or is followed by a colon |
| FormulaLexemes.NameLexeme | src/libixion/formula_lexer.cpp:279-316 | a name has all characters, bracketed and quoted parts up to the next operator outside of these, or up to the end of the text |
| FormulaLexemes.OpenNameLexeme | src/libixion/formula_lexer.cpp:279-316 | with a bracket or quote that is not closed it reaches up to the end of the text |
| FormulaLexemes.BlanksBetween | src/libixion/formula_lexer.cpp:137-191 | the text 1 + 2 has the tokens 1, plus and 2 |
| FormulaParser.Parser.Parse | src/libixion/formula_parser.cpp:55-99 | the formula tokens are those of the lexer tokens, or an unknown name stops it |
| FormulaParser.Parser.Less | src/libixion/formula_parser.cpp:205-224 | looks one token ahead for <= and <>, and otherwise steps back |
| FormulaParser.Parser.Greater | src/libixion/formula_parser.cpp:226-240 | looks one token ahead for >=, and otherwise steps back |
| FormulaParser.ParsingKeepsTokens | src/libixion/formula_parser.cpp:55-99 | the formula tokens consist of exactly the lexer tokens read, in order |
| FormulaPrinter.PrintFormulaTokens | src/libixion/formula.cpp:240-256 | prints the tokens one after another |
| FormulaPrinter.PrintedTokenizes | src/libixion/formula_lexer.cpp:137-373 | printed tokens are tokenized into their own lexer tokens exactly when none runs on into the next |
| FormulaPrinter.UnlexedParses | src/libixion/formula_parser.cpp:205-240 | the lexer tokens of formula tokens are parsed into them exactly when no two neighbours make another relational operator |
| FormulaPrinter.PrintedReadsBackExactly | src/libixion/formula.cpp:64-181 | printing, tokenizing and parsing gives the same tokens back exactly when no token runs on into the next and no two neighbours fuse into one operator |
| FormulaPrinter.LessEqualFuses | src/libixion/formula_parser.cpp:205-224 | a less-than sign before an equals sign is read back as the one operator <= |
| FormulaPrinter.NameSwallowsNumber | src/libixion/formula_lexer.cpp:279-316 | a name before a number is never read back as the two tokens |
| FormulaAddresses.AddressIsWritable | src/libixion/formula_name_resolver.cpp:377-406 | a printed address is a lexeme of its own, a name |
| FormulaAddresses.ReferencesReadBackExactly | src/libixion/formula.cpp:64-181 | formulas with references are read back as the same tokens exactly when no token runs on into the next and no two fuse, and the text of each reference is read as that reference |
| FormulaPrinter.ErrorRead | src/libixion/types.cpp:19-28 | the printed name of every lexable error is tokenized into that error |
| ColumnStore.PositionUnique | src/libixion/model_context_impl.cpp:517-520 | every row is in exactly one block, at exactly one offset |
| ColumnStore.CellOfBlock | src/libixion/model_context_impl.cpp:517-520 | the cell-by-cell view of a column has the cells of its blocks at their rows |
| ColumnStore.CellHasType | src/libixion/model_context_impl.cpp:478-490 | a cell is empty, a boolean, a number, a string or a formula cell with its result as its block says |
| ColumnScans.CountFormulaBlock | src/libixion/model_context_impl.cpp:441-476 | counts the formula cells of part of a block whose results match, errors and matrices never matching |
| ColumnScans.CountColumn | src/libixion/model_context_impl.cpp:513-573 | block by block, the count of a column is the number of its matching cells from the first row to the last that exists |
| ColumnScans.CountRange | src/libixion/model_context_impl.cpp:496-577 | the count of a range, with unset rows and the last sheet clipped, is the number of its cells that hold, or compute, a number, a boolean or a string, or are empty, as the flags ask |
| ColumnScans.CountIsWanted | src/libixion/model_context_impl.cpp:496-577 | the clipped count is the number of wanted cells in the range as it is given |
| ColumnScans.CountSheetsIsSize | src/libixion/model_context_impl.cpp:496-577 | the cell-by-cell count is the size of the set of matching cells |
| ColumnWalks.Walk | src/libixion/model_context_impl.cpp:579-611 | makes the calls of the whole walk in order, up to and with the first that the callback answers with false |
| ColumnWalks.WalkPartitions | src/libixion/model_context_impl.cpp:579-611 | in the whole walk every cell of the range is covered by exactly one interval and no other cell by any |
| ColumnWalks.WalkInBlocks | src/libixion/model_context_impl.cpp:591-600 | every interval lies in one block, and the shape handed over describes that block |
| ColumnWalks.WalkInOrder | src/libixion/model_context_impl.cpp:579-611 | the intervals come column by column and downwards, each reaching to the end of its block or to the last row |
| ColumnWalks.ColumnIsEmpty | src/libixion/model_context_impl.cpp:929-936 | looking at one block is enough: the rows are empty exactly when every cell in them is |
| ColumnWalks.IsRangeEmpty | src/libixion/model_context_impl.cpp:920-942 | refuses exactly the ranges that begin outside of the workbook, and otherwise tells whether every cell of the workbook between the corners of the range is empty |
| DataRange.FirstDataIs | src/libixion/model_context_impl.cpp:847-876 | the first block tells the first row with data, and whether there is any |
| DataRange.LastDataIs | src/libixion/model_context_impl.cpp:878-902 | the last block tells the last row with data |
| DataRange.ScanColumn | src/libixion/model_context_impl.cpp:836-907 | one round of the scan keeps what has been found so far right |
| DataRange.GetDataRange | src/libixion/model_context_impl.cpp:817-913 | invalid exactly when there is no data; the smallest rectangle exactly when the sheet has not one row, or has data in column 0, or none at all; with one row only the first column can be wrong |
| DataRange.SmallestIsUnique | src/libixion/model_context_impl.cpp:817-913 | there is at most one smallest rectangle with all data |
| DataRange.LeadingColumnIsKept | src/libixion/model_context_impl.cpp:836-876 | a sheet of one row whose first column is empty gets a data range with that column, and hence not the smallest |

## Left out

- DepthFirstSearch.Search.Visit: the time stamps, which nothing reads.
- DirtyCellTracker.Tracker.Add: a search tree is a map from rectangle to listener set with match and overlap search; balancing is a matter of the mdds library.
- Recalculation.ClockKeepsMeaning: volatile functions are those that depend on a clock parameter; what `NOW` returns is not part of this model.
- Registration.RegisterFormulaCell: grouped (matrix) formula cells, and references through named expressions and tables; a single-cell reference is a range of one cell.
- Document.Document.SetFormulaCell: formulas that do not parse; the cell has been unregistered by then.
- Document.Document.SetValueCell: cell positions given as strings, and sheets appended between edits; the workbook has its sheets from the start.
- History.Replay: histories in which a formula was overwritten before a calculation, which would follow a null pointer; OverwrittenExactly says which.
- CellQueue.Progress: exceptions that escape an interpretation, such as a wrong number of arguments, and memory order below the mutexes.
- Calculation.FormulaCell.Interpret: waiting for a result of another cell, which is modelled in CellQueue and never happens on one thread; session handlers and the two policies on waiting when nobody calculates.
- FormulaInterpreter.Interpreter.FactorHandler: inline arrays and table references.
- FormulaLocality.ReadsOnlyReferences: matrices, powers, number formatting and the built-in functions, given the clock reading, are parameters; a function is assumed to return plain values or its arguments, and to depend only on the cells it asks for. A whole row or column as the result of a formula raises an exception that the model does not have. Numbers are reals, without rounding.
- NamedExpressions.Expander.ExpandName: names have one environment; the lookup by sheet before the global one is a parameter.
- NamedFormulas.ExpansionIsInterpreted: bodies that are no expressions by themselves.
- AddressA1.A1RoundTripExactly: sheet names, rows beyond the row upper bound, and the order in which the resolver tries function names first.
- AddressRanges.ReadRangeA1: the check of the first corner against the size of the sheet.
- AddressA1.ParseAddressA1: a row number beyond 32 bits ends in an outcome of its own instead of wrapping around.
- AddressR1C1.ParseAddressR1C1: numbers beyond 32 bits and reads past the end of the text end in outcomes of their own.
- FormulaLexer.Tokenizer.ReadNumeral: numerals keep their text; conversion to and from floating point is left out.
- FormulaLexer.Tokenizer.Run: a digit as argument separator, with which the tokenizer could stand still.
- FormulaParser.Parser.Parse: what a name resolves to; a reference, function or named expression is known by its name.
- FormulaPrinter.PrintedReadsBackExactly: separators that clash with other characters, and a matrix row separator other than `;`, which the tokenizer would not read.
- FormulaPrinter.PrintFormulaTokens: the tokens of an invalid formula, which print as nothing, and the display of sheet names.
- ColumnScans.CountRange: columns and rows that begin outside of a sheet, for which the containers raise exceptions.
- ColumnWalks.Walk: the same for ranges that end outside of a sheet.
- DataRange.GetDataRange: columns of different lengths; the sheets of a workbook have one common size.
- The setters that change column stores: splitting and merging blocks is done by the mdds library; the scans need only its result, merged blocks.
- The other address notations (Calc, ODF), table references, the Vulkan engine, the Python bindings and the command line tools.
