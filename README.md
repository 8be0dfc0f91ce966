# CS50 AI game and puzzle solvers, modelled in Dafny

This project models three parts of a CS50 AI coursework repository and proves properties of them.

- **Crossword generator** (`week3/crossword/crossword/generate.py`, module `Generate`).
  - `CrosswordCreator` keeps a domain of candidate words for every slot ("variable") of a puzzle.
  - It narrows the domains by length (node consistency) and by crossing letters (`revise`, `ac3`).
  - It checks assignments (`assignment_complete`, `consistent`), orders variables and values, and searches depth first (`backtrack`, `solve`).
  - `letter_grid` projects an assignment onto the grid.
  - The `Crossword` and `Variable` classes come from a module that is not part of this model. Here they are values: the variables, the vocabulary, the overlap map and `neighbors`, with a well-formedness predicate saying that overlaps are exactly the shared cells. A pair that does not cross has no entry in the overlap map.
- **Minesweeper** (`minesweeper/minesweeper.py`, module `Minesweeper`).
  - The board answers how many mines touch a cell (`nearby_mines`) and whether the player won (`won`).
  - A `Sentence` says that `count` of a set of `cells` are mines.
  - `MinesweeperAI` keeps the moves made, the known mines and safes and a list of sentences. It infers new facts when a cell is revealed (`add_knowledge`) and picks moves in row-major order.
  - The central invariant: when the player's beliefs and the revealed counts hold of some placement of the mines, every inference keeps them true of that placement.
- **Tic-tac-toe** (`week0/tictactoe/tictactoe.py`, module `TicTacToe`).
  - The rules: `player`, `actions`, `result`, `winner`, `terminal` and `utility`.
  - Exhaustive `minimax`.
  - Boards are values. Every counting loop of the source is a method proved equal to a function that specifies it.

`optional.dfy` holds the `Option` type the three modules share. It stands for Python's `None`.

Mutable state is modelled with classes:

- `Generate.CrosswordCreator`, whose `domains` map the methods reassign.
- `Minesweeper.Sentence`, `Minesweeper.Game` and `Minesweeper.MinesweeperAI`.

A Python set iterated in an unspecified order is modelled by an arbitrary choice (`:|`). Every result proved therefore holds whatever the order.

## Model

| member | source | states |
|---|---|---|
| `TicTacToe.InitialState` | week0/tictactoe/tictactoe.py:12-18 | the initial board is a 3×3 board whose every cell is EMPTY |
| `TicTacToe.InitialStateIsXToMove` | week0/tictactoe/tictactoe.py:12-27 | the initial board is not over, X is to move, all nine cells are free, and it has as many X as O marks |
| `TicTacToe.Turn` | week0/tictactoe/tictactoe.py:21-42 | nobody is to move exactly when the game is over |
| `TicTacToe.Player` | week0/tictactoe/tictactoe.py:21-42 | `player`'s counting loops give X on the initial board, None on a finished board, O when X has more marks, X otherwise |
| `TicTacToe.TurnAlternates` | week0/tictactoe/tictactoe.py:21-42 | from a board with balanced counts, a move keeps the counts balanced and passes the turn to the other player |
| `TicTacToe.Actions` | week0/tictactoe/tictactoe.py:44-56 | None on a finished board, otherwise exactly the set of empty cells |
| `TicTacToe.EmptyCellsOfFull` | week0/tictactoe/tictactoe.py:125-136 | a board has no empty cell exactly when it is full |
| `TicTacToe.Place` | week0/tictactoe/tictactoe.py:58-70 | a move leaves one empty cell fewer, so the game tree is finite |
| `TicTacToe.PlaceCells` | week0/tictactoe/tictactoe.py:58-70 | the moved-on cell holds the mover's mark, every other cell is unchanged, and the empty cells lose just that cell |
| `TicTacToe.Result` | week0/tictactoe/tictactoe.py:58-70 | a move is refused exactly when the game is over or the cell is not empty; otherwise the new board has the mover's mark there and every other cell as before |
| `TicTacToe.CheckRow` | week0/tictactoe/tictactoe.py:76-84 | true exactly when the mark fills some row |
| `TicTacToe.CheckColumn` | week0/tictactoe/tictactoe.py:86-94 | true exactly when the mark fills some column |
| `TicTacToe.CheckDiagonal` | week0/tictactoe/tictactoe.py:96-103 | true exactly when the mark fills the main diagonal |
| `TicTacToe.CheckAntiDiagonal` | week0/tictactoe/tictactoe.py:105-112 | true exactly when the mark fills the anti-diagonal |
| `TicTacToe.HasLineByChecks` | week0/tictactoe/tictactoe.py:115-121 | the four checks together find a line exactly when the mark has one |
| `TicTacToe.Winner` | week0/tictactoe/tictactoe.py:72-121 | X when X has a line, else O when O has one, else None |
| `TicTacToe.Terminal` | week0/tictactoe/tictactoe.py:125-136 | true exactly when someone has a line or the board is full |
| `TicTacToe.Utility` | week0/tictactoe/tictactoe.py:138-147 | 1 exactly when X wins, -1 exactly when O wins, 0 exactly when nobody does |
| `TicTacToe.MaxValue` | week0/tictactoe/tictactoe.py:154-160 | the game value with X to move lies in -1..1 |
| `TicTacToe.MinValue` | week0/tictactoe/tictactoe.py:163-169 | the game value with O to move lies in -1..1 |
| `TicTacToe.ChildValue` | week0/tictactoe/tictactoe.py:177-179 | the value of the board after a move lies in -1..1 |
| `TicTacToe.MaxValueIsBestChild` | week0/tictactoe/tictactoe.py:154-160 | on an unfinished board, X's value is at least every child's value and equals some child's |
| `TicTacToe.MinValueIsBestChild` | week0/tictactoe/tictactoe.py:163-169 | on an unfinished board, O's value is at most every child's value and equals some child's |
| `TicTacToe.MaxValueFromBounds` | week0/tictactoe/tictactoe.py:154-160 | a child value that bounds all the others from above is X's value |
| `TicTacToe.MinValueFromBounds` | week0/tictactoe/tictactoe.py:163-169 | a child value that bounds all the others from below is O's value |
| `TicTacToe.MinimaxMaxValue` | week0/tictactoe/tictactoe.py:154-160 | the running maximum over the moves is the game value with X to move |
| `TicTacToe.MinimaxMinValue` | week0/tictactoe/tictactoe.py:163-169 | the running minimum over the moves is the game value with O to move |
| `TicTacToe.ScoreMove` | week0/tictactoe/tictactoe.py:177-179 | one entry of the score list is the value of the board after that move |
| `TicTacToe.ScoredEntries` | week0/tictactoe/tictactoe.py:177-179 | the score list has one entry per move, pairing its value with the move |
| `TicTacToe.ScoredCovers` | week0/tictactoe/tictactoe.py:177-179 | the score list of all legal moves is non-empty, holds only legal moves with their values, and names every legal move |
| `TicTacToe.ScoreActions` | week0/tictactoe/tictactoe.py:177-179 | the list built over the moves scores every legal move and only legal moves |
| `TicTacToe.BestScore` | week0/tictactoe/tictactoe.py:180-185 | the best score is one of the scores and bounds them all (from above for X, from below for O) |
| `TicTacToe.FirstWithScore` | week0/tictactoe/tictactoe.py:187-189 | the index of the first pair carrying the best score |
| `TicTacToe.Minimax` | week0/tictactoe/tictactoe.py:149-204 | None exactly on a finished board; otherwise a legal move whose value is the board's value and is maximal among all moves for X, minimal for O |
| `TicTacToe.CountRowUpdate` | week0/tictactoe/tictactoe.py:31-38 | writing a mark into an empty cell of a row adds one to that mark's count and nothing to the other's |
| `TicTacToe.CountMarksUpdate` | week0/tictactoe/tictactoe.py:31-38 | the same for a whole board |
| `TicTacToe.CountRowOfEmpty` | week0/tictactoe/tictactoe.py:31-38 | an empty row counts no marks |
| `TicTacToe.CountMarksOfEmpty` | week0/tictactoe/tictactoe.py:31-38 | an empty board counts no marks |
| `TicTacToe.InitialStateCounts` | week0/tictactoe/tictactoe.py:12-18 | the initial board has no X and no O |
| `TicTacToe.InitialStateInPlay` | week0/tictactoe/tictactoe.py:12-18 | the initial board is not a finished game |
| `Minesweeper.Game.constructor` | minesweeper/minesweeper.py:10-34 | a board of the given size that marks exactly the given mine cells, with no mine found yet |
| `Minesweeper.Game.NearbyMines` | minesweeper/minesweeper.py:55-78 | the number of mines among the on-board neighbours of the cell, excluding the cell itself; at most 8 |
| `Minesweeper.Game.Won` | minesweeper/minesweeper.py:80-84 | true exactly when the flagged cells are the mines |
| `Minesweeper.Neighbours` | minesweeper/minesweeper.py:62-78 | the neighbourhood never holds the cell itself and lies on the board |
| `Minesweeper.BoardCells` | minesweeper/minesweeper.py:204-210 | exactly the cells with in-range row and column |
| `Minesweeper.Sentence.constructor` | minesweeper/minesweeper.py:94-96 | a sentence with the given cells and count |
| `Minesweeper.Sentence.AsFact` | minesweeper/minesweeper.py:94-96 | the value of the sentence is its cells and count |
| `Minesweeper.Sentence.Equals` | minesweeper/minesweeper.py:98-99 | two sentences are equal exactly when their cells and counts are |
| `Minesweeper.Sentence.KnownMines` | minesweeper/minesweeper.py:104-110 | all the cells when the count equals the number of cells; otherwise the call raises (None) |
| `Minesweeper.Sentence.KnownSafes` | minesweeper/minesweeper.py:112-118 | all the cells when the count is 0; otherwise the call raises (None) |
| `Minesweeper.KnownMinesAreMines` | minesweeper/minesweeper.py:104-110 | in a true sentence, the known mines are mines |
| `Minesweeper.KnownSafesAreSafe` | minesweeper/minesweeper.py:112-118 | in a true sentence, the known safes are not mines |
| `Minesweeper.Fact.MarkMine` | minesweeper/minesweeper.py:120-128 | the cell leaves the sentence, and the count drops by one exactly when the cell was in it |
| `Minesweeper.Fact.MarkSafe` | minesweeper/minesweeper.py:131-138 | the cell leaves the sentence and the count stays |
| `Minesweeper.Sentence.MarkMine` | minesweeper/minesweeper.py:120-128 | the sentence becomes its value with the mine marked; the cell is gone and the number of safe cells it speaks of is unchanged |
| `Minesweeper.Sentence.MarkSafe` | minesweeper/minesweeper.py:131-138 | the sentence becomes its value with the safe cell marked; the cell is gone and the count is unchanged |
| `Minesweeper.MarkMineKeepsTruth` | minesweeper/minesweeper.py:120-128 | marking a real mine keeps a true sentence true |
| `Minesweeper.MarkSafeKeepsTruth` | minesweeper/minesweeper.py:131-138 | marking a real safe cell keeps a true sentence true |
| `Minesweeper.AllMines` | minesweeper/minesweeper.py:236-240 | when a true sentence's count equals its size, all its cells are mines |
| `Minesweeper.NoMines` | minesweeper/minesweeper.py:230-234 | when a true sentence's count is 0, none of its cells is a mine |
| `Minesweeper.DifferenceTrue` | minesweeper/minesweeper.py:243-258 | when one true sentence's cells lie within another's, their difference is a true sentence |
| `Minesweeper.TrueFactsDiffer` | minesweeper/minesweeper.py:243-258 | two different true sentences speak of different cell sets |
| `Minesweeper.ObservationTrue` | minesweeper/minesweeper.py:204-222 | the sentence built from a revealed count, without the known mines and safes, is true |
| `Minesweeper.MinesweeperAI.constructor` | minesweeper/minesweeper.py:147-161 | no moves, no known mines or safes, no sentences |
| `Minesweeper.MarkMineAll` | minesweeper/minesweeper.py:163-170 | every sentence of the list with the mine marked, in the same order |
| `Minesweeper.MarkSafeAll` | minesweeper/minesweeper.py:172-179 | every sentence of the list with the safe cell marked, in the same order |
| `Minesweeper.MinesweeperAI.MarkMine` | minesweeper/minesweeper.py:163-170 | the cell joins the mines, every sentence marks it, and the safes and moves are unchanged |
| `Minesweeper.MinesweeperAI.MarkSafe` | minesweeper/minesweeper.py:172-179 | the cell joins the safes, every sentence marks it, and the mines and moves are unchanged |
| `Minesweeper.MarkMineKeepsConsistent` | minesweeper/minesweeper.py:163-170 | marking a real mine keeps the beliefs true, and afterwards no sentence holds the cell |
| `Minesweeper.MarkSafeKeepsConsistent` | minesweeper/minesweeper.py:172-179 | marking a real safe cell keeps the beliefs true, and afterwards no sentence holds the cell |
| `Minesweeper.MinesweeperAI.NeighbourCells` | minesweeper/minesweeper.py:204-213 | the on-board neighbours of the cell, without the cell itself |
| `Minesweeper.MinesweeperAI.ExcludeKnown` | minesweeper/minesweeper.py:216-222 | drops known mines and safes from the neighbours and subtracts the known mines from the count; fails (the source raises) exactly when a neighbour is both |
| `Minesweeper.ExcludeEnd` | minesweeper/minesweeper.py:216-222 | the scan over the neighbours keeps the unknown ones and counts the known mines among them |
| `Minesweeper.MinesweeperAI.RecordObservation` | minesweeper/minesweeper.py:195-226 | the move is recorded and the cell marked safe; then the observation sentence is appended, unless the exclusion step raises |
| `Minesweeper.MinesweeperAI.MarkAllSafe` | minesweeper/minesweeper.py:230-234 | marks a set of real safe cells, keeping the beliefs true |
| `Minesweeper.MinesweeperAI.MarkAllMines` | minesweeper/minesweeper.py:236-240 | marks a set of real mines, keeping the beliefs true |
| `Minesweeper.ZeroCountCells` | minesweeper/minesweeper.py:230-234 | holds the cells of every count-0 sentence |
| `Minesweeper.FullCountCells` | minesweeper/minesweeper.py:236-240 | holds the cells of every sentence whose count equals its size |
| `Minesweeper.ZeroCountCellsAreSafe` | minesweeper/minesweeper.py:230-234 | the cells of true count-0 sentences are not mines |
| `Minesweeper.MinesweeperAI.InferSafes` | minesweeper/minesweeper.py:230-234 | one pass over the sentences marks safe exactly the cells of the count-0 sentences it started with |
| `Minesweeper.MinesweeperAI.InferSafesAt` | minesweeper/minesweeper.py:230-234 | one sentence of that pass |
| `Minesweeper.SafeRoundLeavesNoZero` | minesweeper/minesweeper.py:230-234 | after the pass, every count-0 sentence is empty |
| `Minesweeper.MinesweeperAI.InferMines` | minesweeper/minesweeper.py:236-240 | one pass marks as mines exactly the cells of the full sentences it started with |
| `Minesweeper.MinesweeperAI.InferMinesAt` | minesweeper/minesweeper.py:236-240 | one sentence of that pass |
| `Minesweeper.MinesRemovedKeepsSafeCount` | minesweeper/minesweeper.py:236-240 | marking mines never changes how many safe cells a sentence speaks of, so a sentence full at the start is still full when the pass reaches it |
| `Minesweeper.MineRoundLeavesNoFull` | minesweeper/minesweeper.py:236-240 | after the pass, every full sentence is empty |
| `Minesweeper.DerivedAppend` | minesweeper/minesweeper.py:250-258 | appending the difference of a nested pair keeps a list made only of the original sentences and such differences |
| `Minesweeper.DerivedTransitive` | minesweeper/minesweeper.py:243-258 | a list derived by the subset rule from one so derived from a third is derived from the third |
| `Minesweeper.MinesweeperAI.AppendIfNew` | minesweeper/minesweeper.py:250-258 | a sentence is appended exactly when no equal one is known |
| `Minesweeper.MinesweeperAI.ConsiderPair` | minesweeper/minesweeper.py:245-258 | after two sentences are compared, the difference of the smaller from the larger is known; the list is unchanged or gains exactly one sentence, the difference of two known sentences, distinct and non-empty, one inside the other |
| `Minesweeper.MinesweeperAI.ConsiderAllWith` | minesweeper/minesweeper.py:243-258 | one sentence is compared with every sentence, including those appended meanwhile; every sentence appended is the difference of two earlier ones, one inside the other |
| `Minesweeper.MinesweeperAI.InferSubsets` | minesweeper/minesweeper.py:243-258 | the loop over the growing list ends; it only appends differences of two earlier sentences, one inside the other, and leaves the knowledge closed under the subset rule |
| `Minesweeper.NewFactNewCells` | minesweeper/minesweeper.py:250-258 | a new true sentence brings a new cell set, which bounds the number of sentences the subset loop can append |
| `Minesweeper.CellSetsBounded` | minesweeper/minesweeper.py:243-258 | the cell sets of the sentences are subsets of the board, so they are finitely many |
| `Minesweeper.MinesweeperAI.AddKnowledge` | minesweeper/minesweeper.py:181-259 | the move is recorded; the cell is marked safe and the observation sentence appended; the safes gain exactly the cells of the count-0 sentences, then the mines exactly the cells of the sentences then full, each sentence losing those cells; the knowledge is that list followed only by differences of earlier nested sentences, ends closed under the subset rule, and stays true of the real mines |
| `Minesweeper.MinesweeperAI.MakeSafeMove` | minesweeper/minesweeper.py:263-278 | the first row-major board cell that is safe and not played, or None when there is none |
| `Minesweeper.MinesweeperAI.MakeRandomMove` | minesweeper/minesweeper.py:281-293 | the first row-major board cell that is neither played nor a known mine, or None |
| `Generate.Crossword.Overlap` | week3/crossword/crossword/generate.py:122-124 | in a well-formed puzzle, the letter positions at which two distinct variables share a cell, None when they share none |
| `Generate.Crossword.Neighbors` | week3/crossword/crossword/generate.py:158 | in a well-formed puzzle, exactly the other variables sharing a cell with the given one |
| `Generate.OverlapSymmetric` | week3/crossword/crossword/generate.py:122-124 | if x crosses y at (i, j), then y crosses x at (j, i) |
| `Generate.NeighborsSymmetric` | week3/crossword/crossword/generate.py:158 | no variable neighbours itself, and neighbouring is symmetric |
| `Generate.CrosswordCreator.constructor` | week3/crossword/crossword/generate.py:8-16 | every variable, and nothing else, starts with the whole vocabulary |
| `Generate.NodeConsistentDomains` | week3/crossword/crossword/generate.py:98-109 | node consistency keeps the variables, only removes words, and leaves only words of the variable's length |
| `Generate.NodeConsistencyIdempotent` | week3/crossword/crossword/generate.py:98-109 | enforcing node consistency twice changes nothing more |
| `Generate.NodeConsistentIndexable` | week3/crossword/crossword/generate.py:98-109 | after node consistency every overlap index lies inside every candidate word |
| `Generate.CrosswordCreator.EnforceNodeConsistency` | week3/crossword/crossword/generate.py:98-109 | the loops leave each domain restricted to the words of its variable's length |
| `Generate.CountDisagreeing` | week3/crossword/crossword/generate.py:130-134 | the number of words of y clashing with a word of x reaches the size of y's domain exactly when no word of y agrees with it |
| `Generate.CrosswordCreator.Revise` | week3/crossword/crossword/generate.py:111-137 | removes from x exactly the words with no partner in y, changes no other domain, and returns True exactly when something was removed |
| `Generate.RevisedIsArcConsistent` | week3/crossword/crossword/generate.py:111-137 | after a revision, every word left for x has a partner in y |
| `Generate.ReviseIdempotent` | week3/crossword/crossword/generate.py:111-137 | revising the same arc again removes nothing |
| `Generate.ReviseKeepsReverseArc` | week3/crossword/crossword/generate.py:111-137 | revising (x, y) keeps the arc (y, x) consistent |
| `Generate.ReviseKeepsSolutions` | week3/crossword/crossword/generate.py:111-137 | a revision never removes the word a consistent solution gives x |
| `Generate.ArcConsistentShrink` | week3/crossword/crossword/generate.py:138-163 | an arc stays consistent when its source domain shrinks |
| `Generate.PairsShrink` | week3/crossword/crossword/generate.py:138-163 | removing a word lowers the number of (variable, word) pairs, which bounds the arc loop |
| `Generate.ShrinkOne` | week3/crossword/crossword/generate.py:138-163 | shrinking one domain keeps the domains within the starting ones and the overlap indices inside the words |
| `Generate.CrosswordCreator.AllArcs` | week3/crossword/crossword/generate.py:147-151 | the initial queue holds exactly the crossing pairs |
| `Generate.CrosswordCreator.QueueNeighborArcs` | week3/crossword/crossword/generate.py:158-162 | after x shrinks, the arc (z, x) is queued for every other neighbour z of x, and nothing else |
| `Generate.QueueInvariantStep` | week3/crossword/crossword/generate.py:153-162 | one revision and its re-queued arcs keep every arc already handled consistent or queued again |
| `Generate.CrosswordCreator.AC3Step` | week3/crossword/crossword/generate.py:153-162 | one arc of the queue: the domains only shrink, an emptied domain stops the loop, and the queue invariant is kept |
| `Generate.CrosswordCreator.AC3` | week3/crossword/crossword/generate.py:138-163 | the doc-comment's ac3: domains only shrink, False only when some domain is empty, and True leaves every queued arc consistent |
| `Generate.CrosswordCreator.AC3AsWritten` | week3/crossword/crossword/generate.py:138-163 | the source's ac3: True with no arcs given, a failure (the undefined `revised`) for a non-empty list, no domain changed |
| `Generate.CrosswordCreator.AssignmentComplete` | week3/crossword/crossword/generate.py:165-175 | True exactly when every variable holds a vocabulary word |
| `Generate.CrosswordCreator.IsConsistent` | week3/crossword/crossword/generate.py:177-197 | the doc-comment's consistent: words fit their variables, no word is used twice, and crossing words share the crossing letter |
| `Generate.ConsistentAsWrittenRejectsCrossings` | week3/crossword/crossword/generate.py:192-196 | the check as written rejects every consistent assignment that fills two crossing variables |
| `Generate.CountRuledOut` | week3/crossword/crossword/generate.py:215-219 | the number of neighbours whose domains hold the word |
| `Generate.CrosswordCreator.SelectUnassignedVariable` | week3/crossword/crossword/generate.py:224-262 | None exactly when every variable is a key; otherwise an unassigned variable with the fewest words left |
| `Generate.RuledOutCounts` | week3/crossword/crossword/generate.py:207-219 | every word of the domain once, with its neighbour count |
| `Generate.InsertByCount` | week3/crossword/crossword/generate.py:220 | inserting a word adds exactly that word to the list |
| `Generate.InsertSorted` | week3/crossword/crossword/generate.py:220 | inserting into a list ordered by count keeps it ordered |
| `Generate.AppendSorted` | week3/crossword/crossword/generate.py:220 | appending a word with the largest count keeps the list ordered |
| `Generate.SortByCount` | week3/crossword/crossword/generate.py:220 | the sort is a permutation of its input, ordered by count |
| `Generate.DistinctMultiset` | week3/crossword/crossword/generate.py:207-222 | a list with no repetition holding exactly the words of a set is a permutation of it |
| `Generate.SortedByRuledOut` | week3/crossword/crossword/generate.py:207-222 | the ordered words rise in neighbour count, and the first rules out no more than any other |
| `Generate.CrosswordCreator.OrderDomainValues` | week3/crossword/crossword/generate.py:200-222 | every word of the domain exactly once, in nondecreasing neighbour count |
| `Generate.ExtendsWrite` | week3/crossword/crossword/generate.py:277-281 | writing a domain word or None for an unassigned variable keeps the assignment an extension |
| `Generate.ExtendsTransitive` | week3/crossword/crossword/generate.py:264-282 | an extension of an extension is an extension |
| `Generate.OpenWrite` | week3/crossword/crossword/generate.py:277-281 | writing a word keeps every remaining choice open |
| `Generate.CrosswordCreator.Backtrack` | week3/crossword/crossword/generate.py:264-282 | the result extends the input with domain words or None; success exactly when the result is complete; an unassigned variable with an empty domain fails at once and unchanged; with every remaining domain non-empty it succeeds |
| `Generate.CrosswordCreator.Solve` | week3/crossword/crossword/generate.py:90-96 | domains are made node consistent; a solution is found exactly when every domain is non-empty, and it gives each variable a word of its domain and length |
| `Generate.LineIndex` | week3/crossword/crossword/generate.py:27-33 | the letter of a variable's word that lands on a cell, if any, and it is unique |
| `Generate.GridStep` | week3/crossword/crossword/generate.py:27-33 | writing one variable's word into the grid shows that variable's letters too |
| `Generate.ConsistentGrid` | week3/crossword/crossword/generate.py:20-34 | with a consistent assignment, the grid shows every letter of every word |
| `Generate.CrosswordCreator.LetterGrid` | week3/crossword/crossword/generate.py:20-34 | a height×width grid whose cells show the letters of the assigned words; with a consistent assignment, every letter shows |

## Left out

- Terminal and file output is not modelled: `print_demo`, `print` and `save` (image drawing, fonts), `main` argument handling, and the board `print` of Minesweeper.
- The random mine placement of `Minesweeper.__init__` is not modelled. The mine cells are a constructor argument, required to lie on the board.
- `Minesweeper.is_mine` is not modelled. It is a single lookup used only outside the core.
- The crossword `Crossword` class and its structure and word-file loader are not part of this model. The puzzle is a value whose well-formedness (overlaps are exactly the shared cells) is assumed as a precondition.
- `Generate.CrosswordCreator.IsConsistent` follows the doc-comment. As written, line 195 rejects matching letters (`ConsistentAsWritten`). Line 192 calls `overlaps` as a function, which raises. Neither is executed.
- `Generate.CrosswordCreator.IsConsistent` gives False where the source would fail on `word2[j]` for a too-short word of a variable it has not yet checked.
- `Generate.CrosswordCreator.AC3` follows the doc-comment. As written, ac3 fails on the undefined name `revised` (line 154). It builds its default arcs from words (lines 147-151), and it re-queues `(x, neighbor)` rather than `(neighbor, x)` (line 162). `AC3AsWritten` models what the code does; the doc-comment version builds arcs from variables and re-queues `(neighbor, x)`.
- `Generate.CrosswordCreator.AC3`: a True result does not promise that every domain is non-empty, weaker than the doc-comment. A variable with no crossing and an empty domain is never revised, so True can coexist with an empty domain.
- `Generate.CrosswordCreator.Solve` uses `AC3AsWritten` with no arcs, as the source does, so it never prunes by crossings. With no `consistent` call in `backtrack`, it succeeds exactly when every domain is non-empty.
- `Generate.CrosswordCreator.Backtrack` threads the assignment dictionary as a value in and out rather than sharing one mutable dictionary. It writes `None` instead of deleting a key, as line 281 does.
- `Generate.CrosswordCreator.Revise` requires every word of both domains to reach the overlap index when both domains are non-empty. Where a word is too short, the source raises IndexError on `value_x[i]` or `value_y[j]` (line 132); that error path is not modelled. After node consistency the requirement always holds (`NodeConsistentIndexable`).
- `Generate.CrosswordCreator.Revise` models a non-crossing pair as having no overlap entry, and then returns False with nothing changed. If the puzzle module stores `None` for such a pair, as line 193 suggests, the source raises TypeError at `for i,j in overlaps_list` (line 128). That path is not modelled. `AC3` only ever enqueues crossing arcs itself, but it accepts a caller's arc that does not cross and revises it without effect.
- `Generate.CrosswordCreator.Backtrack` has a third outcome `Stuck` for an incomplete assignment with no variable left to select. There the source fails with an index error (`unassigned_list[0]`). It arises from any value that is not a vocabulary word, such as the `None` values the source leaves behind or a word given in the starting assignment from outside the vocabulary; `Solve` proves it never happens from an empty assignment.
- `Generate.CrosswordCreator.SelectUnassignedVariable` does not model the degree tie-break. Its misspelt variable (lines 243-244) makes every degree equal, and the list removal while iterating (lines 256-258) never touches the head. The result is stated as "some unassigned variable with the fewest words", not as a particular one in set order.
- `Generate.CrosswordCreator.OrderDomainValues` does not model the `i in assignment` test of line 212. It compares a word with variables and never holds.
- `Generate.CrosswordCreator.LetterGrid` takes an assignment of words. A `None` value, which `backtrack` can leave behind, raises a TypeError in the source and is not modelled.
- Set iteration order (domains, neighbours, variables, sentences' cells, tic-tac-toe moves) is an arbitrary choice. Which of several equally good results is returned is not pinned down.
- `Minesweeper.MinesweeperAI.knowledge` holds sentence values rather than shared `Sentence` objects. The source never aliases a sentence between two places, so in-place updates of the list's sentences become a new list value.
- `Minesweeper.MinesweeperAI.AddKnowledge` requires that the revealed count and the player's beliefs be true of some mine placement (a ghost argument). Its subset loop iterates a list it appends to, and only true sentences bound how long it runs. With contradictory input the source can loop forever, which is not modelled.
- `Minesweeper.MinesweeperAI.MakeRandomMove` is deterministic (first candidate in row-major order), as the code is, despite its doc-comment asking for a random choice.
- `TicTacToe.Minimax`: the source's `-math.inf`/`math.inf` starting values are the constants -2 and 2, below and above every utility. Floating point is not modelled.
