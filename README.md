# Diagonal Sudoku solver: constraint propagation and search

This project models the Sudoku solver in `Projects/1_Sudoku/solution.py` in Dafny. A puzzle is a
dictionary from box name (`"A1"` … `"I9"`) to the string of digits still possible in that box. The
solver shortens these strings with three strategies:

- **eliminate**: a solved box deletes its digit from its peers.
- **only choice**: a digit that only one box of a unit allows goes into that box.
- **naked twins**: two peers holding the same two digits delete them from their common peers.

`reduce_puzzle` repeats the three strategies until a round solves no new box, and fails when a box
runs out of candidates. `search` reduces the puzzle, then branches on the unsolved box with the
fewest candidates and tries each candidate in turn. `solve` searches the dictionary built from the
grid string.

Modules, one per file:

- `Basics` (`basics.dfy`): `Option`, where `None` stands for the solver's `False`, and duplicate-free
  sequences.
- `Candidates` (`candidates.dfy`): candidate strings, `str.replace` of one digit (`Without`) and of a
  set of digits (`RemoveAll`), and "deleted some characters" (`Subseq`).
- `Units` (`units.dfy`): the unit list of lines 5-13 over the 81 boxes.
- `Grid` (`grid.dfy`): the dictionary type `Values`, plus the `Layout` of boxes, units and peers
  the solver reads. `Layout.WellFormed` states what the solver relies on about peers. Also here: the
  vocabulary of the properties, namely "only deletes candidates" (`Shrinks`), a filled grid that
  respects units and peers (`IsSolution`), and a solution that agrees with the candidates
  (`Consistent`).
- `EliminateRule`, `OnlyChoiceRule`, `NakedTwinsRule` (`eliminate.dfy`, `only_choice.dfy`,
  `naked_twins.dfy`): each strategy appears twice. A function gives the dictionary the strategy
  returns, and a method with the source's loops is proved to compute that function. For
  `eliminate` and `only_choice` the function folds over boxes and units in the order the loops
  visit them, since each step sees what the earlier ones wrote. For `naked_twins` it is
  deliberately order-free: the loops read twins from the unchanged input and write to a copy, so
  the order of the visits does not matter.
- `Propagation` (`reduce.dfy`): one round (`Round`, computed by `ApplyStrategies` with the three strategy methods), and
  the `while not stalled` loop over any round that keeps the boxes and never lowers the solved
  count, as a function `Reduce` and a method `ReduceLoop`. `reduce_puzzle` is this loop run with
  `Round`: the function `Reduced` and the method `ReducePuzzle`.
- `Backtracking` (`search.dfy`): the choice of the branching box, `search` as a recursive function
  `Searched` and a method `Search`, and `solve`.

The main results:

- **Shrinking.** Every strategy, round and reduction only deletes candidates.
- **Solved boxes stay.** `eliminate` and `only_choice` keep solved boxes unchanged, and neither
  empties a box. For `eliminate` this needs duplicate-free strings.
- **Soundness.** No strategy loses a solution that agrees with the candidates.
- **Termination.** `reduce_puzzle` terminates because the solved count rises in every continuing
  round. `search` terminates because every child holds strictly fewer candidates in total.
- **Search results.** `search` answers only grids whose every box holds one of its given
  candidates. It finds an answer whenever a solution agrees with the input.

## Model

| member | source | states |
|---|---|---|
| Units.UnitListShape | Projects/1_Sudoku/solution.py:5-13 | the unit list has 29 units (9 rows, 9 columns, 9 squares and both diagonals), each of 9 distinct boxes among the 81 |
| Units.BoxesShape | Projects/1_Sudoku/solution.py:16-18 | the boxes the units and peers are built over are 81 distinct names, `A1` among them |
| Units.CrossDistinct | Projects/1_Sudoku/solution.py:5-7 | `cross` of duplicate-free row and column labels names no box twice |
| Units.CrossSound | Projects/1_Sudoku/solution.py:5-7 | every name `cross` produces is a label of its first argument followed by one of its second |
| Units.CrossComplete | Projects/1_Sudoku/solution.py:5-7 | every label of the first argument followed by one of the second is produced by `cross` |
| Units.ZipUnit | Projects/1_Sudoku/solution.py:11-12 | a diagonal pairs each row with a column label, so its 9 boxes are distinct boxes of the grid |
| Grid.StandardLayout | Projects/1_Sudoku/solution.py:5-18 | the 81 boxes and the unit list, with any symmetric, irreflexive peer map keyed by the boxes, form a well-formed layout with 81 boxes and `A1` among them |
| Candidates.WithoutFacts | Projects/1_Sudoku/solution.py:96 | `s.replace(d, "")` keeps, in order, exactly the characters of `s` other than `d`, each as often as `s` has it |
| Candidates.RemoveAllFacts | Projects/1_Sudoku/solution.py:65-66 | deleting each digit of a set keeps, in order, exactly the characters outside the set, each as often as `s` has it |
| Candidates.WithoutDistinctLength | Projects/1_Sudoku/solution.py:95-96 | deleting a digit from a duplicate-free string removes at most one character |
| EliminateRule.Eliminate | Projects/1_Sudoku/solution.py:71-97 | the loops compute the fold that visits boxes in dictionary order, each visit seeing the dictionary as earlier visits left it |
| EliminateRule.PrunePeersOf | Projects/1_Sudoku/solution.py:92-96 | visiting the peers of a solved box in any order deletes its digit from exactly the peers holding more than one candidate |
| EliminateRule.EliminatedEffect | Projects/1_Sudoku/solution.py:89-96 | `eliminate` keeps the keys and only deletes digits, and a box that starts with one candidate is never touched |
| EliminateRule.EliminatedKeepsNonEmpty | Projects/1_Sudoku/solution.py:95-96 | with duplicate-free candidate strings, `eliminate` never empties a non-empty box |
| EliminateRule.EliminatedSound | Projects/1_Sudoku/solution.py:89-96 | a solution that agrees with the candidates before `eliminate` agrees with them after |
| OnlyChoiceRule.CountHolders | Projects/1_Sudoku/solution.py:125-136 | the counter stops at two: it holds the number of boxes of the unit allowing the digit (capped at 2), and when that number is 1 the remembered box is the one box |
| OnlyChoiceRule.ChooseInUnit | Projects/1_Sudoku/solution.py:124-139 | the digit loop over one unit computes the fold over `"123456789"` in order |
| OnlyChoiceRule.OnlyChoice | Projects/1_Sudoku/solution.py:100-141 | the unit loop computes the fold over `unitlist` in order, each unit seeing the dictionary as earlier units left it |
| OnlyChoiceRule.ChoiceAtEffect | Projects/1_Sudoku/solution.py:128-139 | for one unit and digit, a box becomes that single digit exactly when it is the only box of the unit allowing it; every other box is unchanged |
| OnlyChoiceRule.OnlyChoiceEffect | Projects/1_Sudoku/solution.py:122-139 | `only_choice` only deletes digits, never empties a box, and never changes a box that already had a single candidate |
| OnlyChoiceRule.ChoiceAtSound | Projects/1_Sudoku/solution.py:128-139 | the digit a solution puts in a unit's only box allowing `d` is `d` itself, so writing `d` there keeps the solution |
| OnlyChoiceRule.OnlyChoiceSound | Projects/1_Sudoku/solution.py:122-139 | a solution that agrees with the candidates before `only_choice` agrees with them after |
| NakedTwinsRule.DeleteDigits | Projects/1_Sudoku/solution.py:65-66 | deleting the twin digits one `replace` at a time deletes exactly the set of those digits |
| NakedTwinsRule.StripDigits | Projects/1_Sudoku/solution.py:64-66 | the common peers, in any order, lose the twin digits; every other box is unchanged |
| NakedTwinsRule.PairWithPeers | Projects/1_Sudoku/solution.py:61-66 | pairing one box with each of its peers deletes, from each box, the digits of every twin pair it is a common peer of |
| NakedTwinsRule.NakedTwins | Projects/1_Sudoku/solution.py:21-67 | the loops over a copy compute the order-free pruning, reading twins from the unchanged input |
| NakedTwinsRule.TwinDigitsUpToMembers | Projects/1_Sudoku/solution.py:60-66 | after the first `n` boxes, a digit has been deleted from `x` exactly when one of those boxes has a twin around `x` holding it |
| NakedTwinsRule.TwinsPrunedExactly | Projects/1_Sudoku/solution.py:59-67 | a digit stays in a box exactly when it was there and no naked-twin pair with the box among their common peers holds it |
| NakedTwinsRule.TwinsPrunedShrinks | Projects/1_Sudoku/solution.py:59-67 | `naked_twins` returns the input's keys, each entry with some digits deleted |
| NakedTwinsRule.TwinsAroundSound | Projects/1_Sudoku/solution.py:63-66 | a common peer of two twins cannot hold either twin digit in a solution |
| NakedTwinsRule.TwinsPrunedSound | Projects/1_Sudoku/solution.py:59-67 | a solution that agrees with the candidates before `naked_twins` agrees with them after |
| Propagation.ApplyStrategies | Projects/1_Sudoku/solution.py:165-172 | the three calls compute one round |
| Propagation.RoundShrinks | Projects/1_Sudoku/solution.py:165-172 | a round only deletes candidates |
| Propagation.RoundProgress | Projects/1_Sudoku/solution.py:163-178 | a round that empties no box never lowers the solved count, so a continuing round raises it |
| Propagation.RoundSound | Projects/1_Sudoku/solution.py:165-172 | a round keeps every solution that agrees with the candidates |
| Propagation.RoundsProgress | Projects/1_Sudoku/solution.py:163-178 | the round keeps the boxes and, when it empties none, never lowers the solved count, so the loop may run it |
| Propagation.ReduceLoop | Projects/1_Sudoku/solution.py:159-183 | the `while not stalled` loop, run with any such round, computes `Reduce` and terminates |
| Propagation.ReducePuzzle | Projects/1_Sudoku/solution.py:144-183 | `reduce_puzzle` computes `Reduced`, the loop run with `Round` |
| Propagation.FailsAfter | Projects/1_Sudoku/solution.py:161-181 | after `n` rounds that each solved a new box, a round that empties a box makes the loop answer `False` |
| Propagation.StallsAfter | Projects/1_Sudoku/solution.py:161-183 | after `n` rounds that each solved a new box, a round that solves none and empties none makes the loop answer its result |
| Propagation.ReduceFails | Projects/1_Sudoku/solution.py:161-181 | the loop answers `False` exactly when, after some number of rounds that each solved a new box and emptied none, the next round empties a box |
| Propagation.ReduceStalled | Projects/1_Sudoku/solution.py:161-183 | the loop answers `r` exactly when, after some number of rounds that each solved a new box and emptied none, the next round gives `r`, empties no box and solves no new box |
| Propagation.ReduceShrinks | Projects/1_Sudoku/solution.py:159-183 | when every round only deletes candidates, so does the loop, and its answer has no empty box |
| Propagation.ReduceSound | Projects/1_Sudoku/solution.py:159-183 | when every round keeps a solution that agrees with its input, the loop does not answer `False` and its answer still agrees |
| Propagation.ReducedShrinks | Projects/1_Sudoku/solution.py:159-183 | a dictionary `reduce_puzzle` returns is the input with candidates deleted, and no box is empty |
| Propagation.ReducedFails | Projects/1_Sudoku/solution.py:161-181 | `reduce_puzzle` answers `False` exactly when, after some number of rounds of the three strategies that each solved a new box and emptied none, the next round empties a box |
| Propagation.ReducedStalled | Projects/1_Sudoku/solution.py:161-183 | `reduce_puzzle` answers `r` exactly when, after some number of such rounds, the next round gives `r`, empties no box and solves no new box |
| Propagation.ReducedSound | Projects/1_Sudoku/solution.py:159-183 | when a solution agrees with the input, the reduction succeeds and the solution still agrees |
| Backtracking.ChooseFewest | Projects/1_Sudoku/solution.py:217-224 | the loop computes the box the fold over `boxes` picks, starting from `'A1'` and `1000` |
| Backtracking.FewestChoice | Projects/1_Sudoku/solution.py:217-224 | the chosen box is `'A1'` when no box has 2 to 999 candidates, and otherwise the first such box with the fewest candidates |
| Backtracking.FewestBranches | Projects/1_Sudoku/solution.py:217-228 | after a successful reduction the chosen box is a box, and it has several candidates unless every box is solved |
| Backtracking.ChildSmaller | Projects/1_Sudoku/solution.py:228-231 | each child is again a puzzle `search` accepts and holds fewer candidates in total, so the recursion terminates |
| Backtracking.Search | Projects/1_Sudoku/solution.py:185-233 | the recursive search computes `Searched` |
| Backtracking.TryEach | Projects/1_Sudoku/solution.py:228-233 | the candidate loop answers what the first successful child answers, or `None` |
| Backtracking.SearchChild | Projects/1_Sudoku/solution.py:229-231 | a child is the reduced dictionary with the chosen box set to one of its candidates, searched recursively |
| Backtracking.SearchedShape | Projects/1_Sudoku/solution.py:206-233 | a solved input comes back unchanged; a failed reduction gives `False`; otherwise the answer is that of a child differing from the reduction only at the chosen box, set to one of its candidates |
| Backtracking.TriedFirst | Projects/1_Sudoku/solution.py:228-233 | the loop answers with the first child, in candidate order, whose search succeeds |
| Backtracking.TriedSome | Projects/1_Sudoku/solution.py:228-233 | the loop succeeds when some child succeeds |
| Backtracking.TriedNone | Projects/1_Sudoku/solution.py:228-233 | the loop fails when every child fails |
| Backtracking.SearchedSolved | Projects/1_Sudoku/solution.py:206-233 | a successful search answers a grid whose every box holds a single candidate, one it had in the input |
| Backtracking.SearchComplete | Projects/1_Sudoku/solution.py:206-233 | when a solution agrees with the input, the search succeeds |
| Backtracking.Solve | Projects/1_Sudoku/solution.py:236-253 | `solve` answers, if anything, a fully single-valued grid drawn from the given candidates, and answers something whenever a solution agrees with them |

## Left out

- The helper module `utils` is not part of this model. `rows`, `cols` and `cross` are given their
  usual definitions (labels `A`-`I` and `1`-`9`, row-major cross product). `boxes`, `unitlist` and
  `peers` form the `Layout` parameter. `peers` is assumed symmetric, irreflexive and keyed by the
  boxes (`Grid.PeerRelation`), and `extract_units` / `extract_peers` are not modelled.
- `grid2values` and `display` are not modelled. `Backtracking.Solve` starts from the dictionary
  `grid2values` would return.
- The `__main__` block and the pygame visualisation (lines 256-270) are user interface code.
- `Projects/1_Sudoku/unit_tests.py` states no property beyond "the result is a dictionary".
- In-place updates. `eliminate` and `only_choice` rewrite the caller's dictionary; the model returns
  the new dictionary instead. Callers always continue with the returned value, so answers are
  unaffected. The model does not capture that `search`'s argument is also overwritten by
  `reduce_puzzle`, since nothing reads it afterwards.
- Dictionary and set order. Dictionary order is the fixed sequence `Layout.boxes`. The peer sets are
  walked in an arbitrary order; the methods pick elements with `:|`, and the results are proved
  independent of that order.
- Propagation.ReducePuzzle: the loop computes each round with the function `Round`.
  `Propagation.ApplyStrategies` proves that the three strategy methods compute `Round`, but the
  loop itself does not call them.
- Propagation.ReducePuzzle: requires a well-formed layout and a dictionary keyed by exactly its
  boxes. On a dictionary that lacks a box the source raises `KeyError` (`eliminate` reads
  `values[peer]` at line 95, `only_choice` reads `values[box]` at line 131); the model does not
  cover that error and excludes such dictionaries.
- The counter `ct` of `reduce_puzzle` (lines 160, 182) is never read and is not modelled.
- Backtracking.Search: requires 81 boxes with `A1` among them, and candidate strings shorter than
  1000 characters. Line 218 uses 1000 as "bigger than any count". With a longer string the loop can
  branch on a solved `A1`, whose only child is the same dictionary, so the recursion never ends;
  CPython then stops it with a `RecursionError` once the interpreter's recursion limit is reached.
  The model only covers inputs on which `search` terminates, and does not model that error.
- Backtracking.Searched: `False` and the `None` that falls off the end of the candidate loop are
  both `None`. `if attempt:` is read as "a dictionary came back"; with 81 keys a returned
  dictionary is never empty, so it is never falsy.
- Backtracking.SearchedSolved: states that the answer is single-valued and drawn from the input,
  not that it is a valid Sudoku. The strategies never compare two solved peers. In one pass,
  `only_choice` can write the same digit into two peers that lie in different units, for example
  `A2` through a row unit and `B1` through a column unit. So a wrong branch of a solvable puzzle
  can end in a filled grid that breaks a unit, and `search` returns it.
- EliminateRule.EliminatedKeepsNonEmpty: assumes duplicate-free candidate strings, as
  `grid2values` produces. `replace` deletes every copy of a digit, so a string such as `"11"` could
  be emptied.
