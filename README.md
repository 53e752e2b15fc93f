# A verified model of five programs from an AI course

This project models in Dafny the in-memory logic of five Python programs from
an introductory AI course, and proves what each of them promises.

- **Crossword generator** (`3-optimization/crossword/generate.py`, module
  `Generate`). This is a constraint-satisfaction solver. Each slot of a grid
  (a *variable*) has a *domain* of candidate words, which the class
  `CrosswordCreator` holds in a mutable `domains` map.
  - Node consistency removes the words of the wrong length.
  - `revise` and `ac3` make one pass of arc pruning over the forward pairs of
    slots.
  - A recursive backtracking search then chooses slots by fewest remaining
    values and words by least-constraining value.
  - `letter_grid` writes an assignment into a fresh 2-D array.

  Loops are modelled as loops. Each method is proved against specification
  functions (`Sweep`, `Filtered`, `Score`, `IsConsistent`, `IsExtension`).
  `Solve` is modelled as written: any result is a solution, and one is
  found whenever a puzzle with at least one slot has a solution. A puzzle
  without slots yields None (see Findings). `SolveAsDocumented` runs the
  corrected pruning and search, and finds a solution whenever there is one.
- **Minesweeper** (`1-knowledge/minesweeper/minesweeper.py`, module
  `Minesweeper`).
  - The board class counts nearby mines and checks for a win.
  - A `Sentence` object says "exactly `count` of these cells are mines". Its
    marks move a cell out of its undecided cells.
  - The knowledge-based player `MinesweeperAI` marks cells in every sentence
    and runs a work-list that infers new sentences by the subset rule.

  Soundness is stated against a ghost set `m` of the real mines. Every
  operation keeps every sentence truthful of `m`, and it keeps the player's
  safe and mine cells correct.
- **Tic-tac-toe** (`0-search/tictactoe/tictactoe.py`, module `TicTacToe`).
  - The game rules: `player`, `actions`, `result`, `line`, `winner`,
    `terminal` and `utility`.
  - The minimax search: `get_optimal_score` and `minimax`.

  These are pure functions over a 3x3 board. `Result` models Python
  exceptions. The proofs show:
  - the score is the minimax value;
  - the early exit at 1 does not change it;
  - `minimax` returns the first best move in row-major order.
- **Word normalisation** (`6-language/questions/questions.py`, module
  `Questions`; `6-language/parser/parser.py`, module `Parser`).
  - The two programs' ASCII lower-casing functions both equal one
    specification, `Words.Normalise`.
  - So do their token filters.
  - `Questions.DocumentFrequencies` counts, for each word, the documents that
    contain it. This is the integer part of `compute_idfs`.

The shared modules `Words` (character classes and `Normalise`),
`Collections` (`Distinct`, `Elements`, `SubsetCard`, `ListOf`) and
`Wrappers` (`Option`, `Result`) hold definitions that more than one model
uses.

Python exceptions become values. Python's iteration order over a set is left
open: the model picks an element with `:|`, so every proof holds for every
order. A list is walked in its order. The crossword's `domains` dict is keyed
in the order of the puzzle's slot list, and the model follows that order where
it matters (the tie-break of `select_unassigned_variable`). The assignment
dict of the search is a Dafny map with no order, so `letter_grid` writes its
slots in an order left open (see Left out).

## Model

| member | source | states |
|---|---|---|
| `Generate.CrosswordCreator.constructor` | 3-optimization/crossword/generate.py:9-17 | every slot's domain is a copy of the whole vocabulary |
| `Generate.CrosswordCreator.LetterGrid` | 3-optimization/crossword/generate.py:19-33 | the fresh height x width grid holds a letter exactly at the cells some assigned slot covers; for a consistent assignment each covered cell holds the letter of every slot through it |
| `Generate.CrosswordCreator.GridStep` | 3-optimization/crossword/generate.py:27-32 | writing one more slot's word keeps both facts of the grid for the slots written so far |
| `Generate.WriteWord` | 3-optimization/crossword/generate.py:29-32 | letter k of the word lands in the slot's k-th cell; no cell off the slot changes |
| `Generate.OnSlotIffCell` | 3-optimization/crossword/generate.py:30-31 | a cell lies on the first n cells of a slot iff it is the cell of one of its first n letters |
| `Generate.CrosswordCreator.Solve` | 3-optimization/crossword/generate.py:89-95 | as written: after node consistency, arc pruning and search, a result is a solution of the puzzle (every slot filled with a vocabulary word, crossings agree); a puzzle without slots yields None; a puzzle with slots and a solution yields a result |
| `Generate.CrosswordCreator.SolveAsDocumented` | 3-optimization/crossword/generate.py:89-95 | the same steps with the corrected pruning and search: a result is a solution, and one is found whenever any solution exists |
| `Generate.SolutionFitsPruned` | 3-optimization/crossword/generate.py:97-106 | every word of a solution survives node consistency |
| `Generate.SolutionExtendsEmpty` | 3-optimization/crossword/generate.py:93-95 | a solution whose words lie in the domains is an extension of the empty assignment |
| `Generate.ExtensionOfEmptySolves` | 3-optimization/crossword/generate.py:93-95 | with domains drawn from the vocabulary, an extension of the empty assignment is a solution |
| `Generate.CrosswordCreator.EnforceNodeConsistency` | 3-optimization/crossword/generate.py:97-106 | each domain loses exactly the vocabulary words whose length differs from its slot's; afterwards every word left has its slot's length |
| `Generate.CrosswordCreator.PruneByLength` | 3-optimization/crossword/generate.py:104-106 | one slot's domain loses exactly its wrong-length words; no other domain changes |
| `Generate.CrosswordCreator.Revise` | 3-optimization/crossword/generate.py:109-138 | without a crossing nothing changes and the result is false; with one, x's domain keeps exactly the words some y-word supports at the crossing, every other domain is unchanged, and the result is true iff some word found support (not iff a word was removed) |
| `Generate.SplitBySupport` | 3-optimization/crossword/generate.py:126-135 | the removal set is exactly the unsupported words; the flag is set iff some word found support |
| `Generate.FindSupport` | 3-optimization/crossword/generate.py:128-131 | true iff some y-word has, at the crossing, the letter the x-word has |
| `Generate.CrosswordCreator.ReviseAsDocumented` | 3-optimization/crossword/generate.py:109-117 | the same pruning; the result is true iff x's domain changed, as the doc comment says |
| `Generate.CrosswordCreator.InitialArcs` | 3-optimization/crossword/generate.py:150-156 | the arcs are every pair (slot i, slot j) with i < j, in the nested-loop order |
| `Generate.AllArcsMembers` | 3-optimization/crossword/generate.py:150-156 | an arc is in the initial list iff it is (vs[i], vs[j]) for some i < j |
| `Generate.AllArcsProper` | 3-optimization/crossword/generate.py:150-156 | over distinct slots the initial arcs join two distinct slots and none occurs twice |
| `Generate.ArcsBeforeDistinct` | 3-optimization/crossword/generate.py:154-156 | no pair is listed twice |
| `Generate.CrosswordCreator.Ac3` | 3-optimization/crossword/generate.py:140-161 | the domains become the sweep of one revision per arc, in order, with no arc queued again; the result is always true |
| `Generate.CrosswordCreator.Ac3AsDocumented` | 3-optimization/crossword/generate.py:140-161 | the same sweep; the result is false iff some revision removed words and left a domain empty |
| `Generate.SweepStep` | 3-optimization/crossword/generate.py:157-160 | sweeping one more arc revises the result of the shorter sweep; the emptied flag grows by that step's outcome |
| `Generate.SweepShrinks` | 3-optimization/crossword/generate.py:136-137 | no domain ever grows during arc pruning |
| `Generate.SweepKeepsSolution` | 3-optimization/crossword/generate.py:126-137 | arc pruning never removes a word of any consistent assignment that draws its words from the domains |
| `Generate.EmptiedIffSomeDomainEmpty` | 3-optimization/crossword/generate.py:157-161 | from non-empty domains, a revision empties some domain iff some domain ends up empty |
| `Generate.Ac3MissesEmptiedDomain` | 3-optimization/crossword/generate.py:157-161 | a well-formed two-slot puzzle whose only words clash at the crossing: arc pruning empties a domain |
| `Generate.CrosswordCreator.AssignmentComplete` | 3-optimization/crossword/generate.py:163-171 | true iff every slot is assigned |
| `Generate.CrosswordCreator.Consistent` | 3-optimization/crossword/generate.py:173-193 | true iff every word has its slot's length and every two assigned crossing slots agree at the crossing |
| `Generate.CrosswordCreator.PairsAgree` | 3-optimization/crossword/generate.py:181-193 | checking each unordered pair of keys once decides consistency of an assignment whose lengths match |
| `Generate.PairsSuffice` | 3-optimization/crossword/generate.py:183-192 | because crossings are mirrored, pairs i < j suffice |
| `Generate.SubAssignmentConsistent` | 3-optimization/crossword/generate.py:173-193 | every sub-assignment of a consistent assignment is consistent |
| `Generate.SharedCellLetter` | 3-optimization/crossword/generate.py:185-192 | in a consistent assignment two slots through the same cell put the same letter there |
| `Generate.CrosswordCreator.OrderDomainValues` | 3-optimization/crossword/generate.py:195-223 | exactly the domain words that keep the assignment consistent, each once, in nondecreasing order of their least-constraining score |
| `Generate.ScoreOf` | 3-optimization/crossword/generate.py:210-220 | the score is the number of unassigned crossing slots with a word that clashes at the crossing |
| `Generate.CheckRulesOut` | 3-optimization/crossword/generate.py:212-220 | true iff the slot is unassigned, crosses the variable and has a clashing word |
| `Generate.FindClash` | 3-optimization/crossword/generate.py:217-220 | true iff some word differs at the crossing |
| `Generate.FindSlot` | 3-optimization/crossword/generate.py:221-222 | the stable sort's insertion point: after every entry that does not score more |
| `Generate.InsertAt` | 3-optimization/crossword/generate.py:221-222 | the list with one entry inserted at the given position, everything else shifted |
| `Generate.InsertKeepsSorted` | 3-optimization/crossword/generate.py:221-222 | inserting at that point keeps the scores sorted |
| `Generate.InsertAdds` | 3-optimization/crossword/generate.py:221-222 | the insertion adds exactly the new entry |
| `Generate.InsertAddsWord` | 3-optimization/crossword/generate.py:221-222 | the words of the list gain exactly the new word |
| `Generate.InsertKeepsDistinct` | 3-optimization/crossword/generate.py:221-222 | a new word keeps the words free of repetition |
| `Generate.Firsts` | 3-optimization/crossword/generate.py:222 | the words of the sorted pairs, in order |
| `Generate.CrosswordCreator.SelectUnassignedVariable` | 3-optimization/crossword/generate.py:225-283 | None iff no unassigned slot has a value left that agrees with the assignment; otherwise such a slot with the fewest remaining values, the last of the tied ones in key order |
| `Generate.CrosswordCreator.RemainingValues` | 3-optimization/crossword/generate.py:233-245 | exactly the live slots, each with its filtered domain |
| `Generate.CrosswordCreator.FilterDomain` | 3-optimization/crossword/generate.py:236-245 | the domain words that agree with every assigned crossing slot |
| `Generate.CrosswordCreator.FitsAssignment` | 3-optimization/crossword/generate.py:238-245 | true iff the word agrees with every assigned crossing slot |
| `Generate.CrosswordCreator.FewestRemaining` | 3-optimization/crossword/generate.py:246-255 | the smallest number of remaining values among the live slots |
| `Generate.CrosswordCreator.Candidates` | 3-optimization/crossword/generate.py:256-259 | the live slots with the fewest values, in key order; no tied slot comes after the last one |
| `Generate.TieBreak` | 3-optimization/crossword/generate.py:263-283 | because `max_neighbors` stays 0 and every count is positive, the last candidate is chosen |
| `Generate.NeighbourCount` | 3-optimization/crossword/generate.py:268-280 | the number of live slots less the crossing slots with a clashing pair of values; always positive |
| `Generate.CheckConflict` | 3-optimization/crossword/generate.py:271-280 | true iff the neighbour is another live slot crossing the candidate with a clashing pair of remaining values |
| `Generate.FindAnyClash` | 3-optimization/crossword/generate.py:276-280 | true iff some pair of remaining values clashes at the crossing |
| `Generate.CrosswordCreator.Backtrack` | 3-optimization/crossword/generate.py:285-313 | a result is a complete consistent extension of the input with words from the domains; a complete input yields None; otherwise a result is found whenever a solution extends the input |
| `Generate.CrosswordCreator.TryEach` | 3-optimization/crossword/generate.py:302-313 | the first successful search among the words in order; some search succeeds when a solution puts one of the words in the slot |
| `Generate.CrosswordCreator.TryWord` | 3-optimization/crossword/generate.py:303-312 | a result extends the input; when the assignment with the word is solvable a result is found |
| `Generate.CrosswordCreator.BacktrackAsDocumented` | 3-optimization/crossword/generate.py:285-293 | the search that returns a complete consistent input itself: a result whenever any solution extends the input |
| `Generate.EmptyPuzzleIsSolved` | 3-optimization/crossword/generate.py:294-296 | with no slots, the empty assignment is complete and a solution |
| `Generate.LiveWhenSolvable` | 3-optimization/crossword/generate.py:294-296 | an incomplete solvable assignment has a live slot, so the search does not stop with None |
| `Generate.ExtensionWordFits` | 3-optimization/crossword/generate.py:233-245 | a solution's word for an unassigned slot survives the filtering |
| `Generate.ExtensionWordListed` | 3-optimization/crossword/generate.py:297 | a solution's word for the chosen slot is among the ordered words |
| `Generate.ExtensionStep` | 3-optimization/crossword/generate.py:309-312 | a solution of the extended assignment solves the original one |
| `Generate.ExtensionRefines` | 3-optimization/crossword/generate.py:302-309 | a solution that puts the tried word in the slot solves the extended assignment |
| `Generate.CompletedByOne` | 3-optimization/crossword/generate.py:306-307 | filling the last slot consistently gives a solution |
| `Generate.FewerUnassigned` | 3-optimization/crossword/generate.py:309 | each recursive call has one slot fewer to fill |
| `Generate.CompleteSolvableIsConsistent` | 3-optimization/crossword/generate.py:285-296 | a complete assignment is solvable iff it is consistent |
| `Generate.SolvableIsConsistent` | 3-optimization/crossword/generate.py:304 | only a consistent assignment can be extended to a solution |
| `Generate.PairsWithMembers` | 3-optimization/crossword/generate.py:155-156 | the inner loop lists (vs[i], vs[i+1+k]) for each k |
| `Generate.ArcsBeforeSound` | 3-optimization/crossword/generate.py:154-156 | every listed arc is a forward pair |
| `Generate.ArcsBeforeComplete` | 3-optimization/crossword/generate.py:154-156 | every forward pair is listed |
| `Minesweeper.Minesweeper.constructor` | 1-knowledge/minesweeper/minesweeper.py:10-34 | a height x width board marking exactly the placed mines, none found yet |
| `Minesweeper.EmptyBoard` | 1-knowledge/minesweeper/minesweeper.py:18-23 | a height x width board with no mine |
| `Minesweeper.Minesweeper.IsMine` | 1-knowledge/minesweeper/minesweeper.py:51-53 | true iff the cell, with Python's negative indices, is a mine |
| `Minesweeper.PyIndex` | 1-knowledge/minesweeper/minesweeper.py:53 | Python's list index: in range, and a non-negative index is itself |
| `Minesweeper.Minesweeper.NearbyMines` | 1-knowledge/minesweeper/minesweeper.py:55-78 | the number of mines among the eight neighbours; between 0 and 8 |
| `Minesweeper.Minesweeper.ScannedStep` | 1-knowledge/minesweeper/minesweeper.py:69-76 | one scan position adds one exactly for an in-bounds neighbouring mine |
| `Minesweeper.NeighboursAreBlockMines` | 1-knowledge/minesweeper/minesweeper.py:55-78 | for a safe cell the count equals the mines in its on-board 3x3 block, the cells of the player's new sentence |
| `Minesweeper.Minesweeper.Won` | 1-knowledge/minesweeper/minesweeper.py:80-84 | true iff the flagged mines are exactly the mines |
| `Minesweeper.Sentence.constructor` | 1-knowledge/minesweeper/minesweeper.py:94-98 | the given cells and count, nothing decided |
| `Minesweeper.Sentence.Equals` | 1-knowledge/minesweeper/minesweeper.py:100-101 | equal iff the undecided cells and counts are equal; the decided cells are ignored |
| `Minesweeper.Sentence.MarkMine` | 1-knowledge/minesweeper/minesweeper.py:121-135 | the three cases: an undecided cell with count at least 1 moves to the mines and the count drops; with count below 1 the result is false and nothing changes; an absent cell changes nothing |
| `Minesweeper.Sentence.MarkSafe` | 1-knowledge/minesweeper/minesweeper.py:137-150 | the three cases: an undecided cell moves to the safes when there are at least `count` cells; otherwise false and no change; an absent cell changes nothing |
| `Minesweeper.MarkMineKeepsShape` | 1-knowledge/minesweeper/minesweeper.py:121-135 | the cell sets stay disjoint with the same union; the mark fails iff the cell is undecided with count below 1 |
| `Minesweeper.MarkMineKeepsTotal` | 1-knowledge/minesweeper/minesweeper.py:130-132 | count plus the number of known mines is unchanged |
| `Minesweeper.MarkSafeKeepsShape` | 1-knowledge/minesweeper/minesweeper.py:137-150 | disjoint with the same union, count and mines unchanged; fails iff the cell is undecided and there are fewer cells than the count |
| `Minesweeper.MarkMineIdempotent` | 1-knowledge/minesweeper/minesweeper.py:121-135 | marking a mine twice equals marking it once |
| `Minesweeper.MarkSafeIdempotent` | 1-knowledge/minesweeper/minesweeper.py:137-150 | marking a safe cell twice equals marking it once |
| `Minesweeper.MarkMineSound` | 1-knowledge/minesweeper/minesweeper.py:121-135 | marking a real mine in a truthful sentence succeeds and keeps it truthful |
| `Minesweeper.MarkSafeSound` | 1-knowledge/minesweeper/minesweeper.py:137-150 | marking a really safe cell in a truthful sentence succeeds and keeps it truthful |
| `Minesweeper.NoMinesLeft` | 1-knowledge/minesweeper/minesweeper.py:232-239 | a truthful sentence with count 0 has no mine among its cells |
| `Minesweeper.AllMinesLeft` | 1-knowledge/minesweeper/minesweeper.py:240-246 | a truthful sentence with as many cells as mines consists of mines |
| `Minesweeper.SubsetRule` | 1-knowledge/minesweeper/minesweeper.py:249-258 | the difference of two nested truthful sentences is truthful with the difference of counts |
| `Minesweeper.MinesweeperAI.constructor` | 1-knowledge/minesweeper/minesweeper.py:157-171 | nothing known; the available cells are every board cell once, in row-major order |
| `Minesweeper.MinesweeperAI.MarkMine` | 1-knowledge/minesweeper/minesweeper.py:173-180 | the cell joins the mines and every sentence takes the mark; nothing else changes |
| `Minesweeper.MinesweeperAI.MarkSafe` | 1-knowledge/minesweeper/minesweeper.py:182-189 | the cell joins the safes and every sentence takes the mark; nothing else changes |
| `Minesweeper.MarkMineAll` | 1-knowledge/minesweeper/minesweeper.py:179-180 | each sentence of the list takes the mine mark |
| `Minesweeper.MarkSafeAll` | 1-knowledge/minesweeper/minesweeper.py:188-189 | each sentence of the list takes the safe mark |
| `Minesweeper.MinesweeperAI.AddKnowledge` | 1-knowledge/minesweeper/minesweeper.py:191-276 | the cell is recorded as played; if it was not available the call raises and nothing else changes; otherwise it becomes safe and unavailable; safes and mines only grow; the available cells only shrink and stay unplayed and unflagged; a truthful player stays truthful |
| `Minesweeper.MinesweeperAI.Play` | 1-knowledge/minesweeper/minesweeper.py:206-210 | played, removed from the available cells (raises when absent) and marked safe everywhere |
| `Minesweeper.MinesweeperAI.Learn` | 1-knowledge/minesweeper/minesweeper.py:211-270 | the block sentence is appended and the work-list runs: out of fuel, only the sentence was added (about exactly the block); otherwise the safes grow by exactly the reported safe cells and the mines by at most the reported mines (exactly them on completion); on completion the knowledge holds only old or new sentences; no played cell changes; a truthful player stays truthful |
| `Minesweeper.MinesweeperAI.Extend` | 1-knowledge/minesweeper/minesweeper.py:211-222 | one new sentence about exactly the on-board block is appended, truthful when the count is right |
| `Minesweeper.MinesweeperAI.BlockCells` | 1-knowledge/minesweeper/minesweeper.py:213-215 | the cells of the on-board 3x3 block around the cell |
| `Minesweeper.MinesweeperAI.NewSentence` | 1-knowledge/minesweeper/minesweeper.py:216-221 | the block sentence, with every cell already known safe or a mine decided |
| `Minesweeper.MinesweeperAI.MarkKnownCells` | 1-knowledge/minesweeper/minesweeper.py:217-221 | no known cell stays undecided, and truth is kept |
| `Minesweeper.MinesweeperAI.MarkKnownCell` | 1-knowledge/minesweeper/minesweeper.py:218-221 | a known cell is decided, and truth is kept |
| `Minesweeper.MinesweeperAI.InferAndConclude` | 1-knowledge/minesweeper/minesweeper.py:223-273 | out of fuel, nothing changes but the sentences' marks, and each sentence still mentions the same cells; otherwise the safes grow by exactly the reported safe cells and the mines by at most the reported mines; if a removal raises the knowledge is unchanged; on completion the mines grow by exactly the reported mines and the knowledge is the kept sentences, each an old sentence or a new undecided one that was popped; no played cell changes; a truthful player stays truthful |
| `Minesweeper.Infer` | 1-knowledge/minesweeper/minesweeper.py:223-265 | never raises and pops at most `fuel` sentences; the reported safe cells and mines are exactly those of the popped sentences with count 0, respectively with as many mines as cells; every kept sentence is an old or new sentence that was popped undecided, none twice; every old sentence still mentions the same cells; from truthful sentences, every sentence stays truthful, the safe cells are safe and the mines are mines |
| `Minesweeper.Process` | 1-knowledge/minesweeper/minesweeper.py:228-265 | the four cases of one popped sentence: count 0 reports exactly its cells as safe and, when the sentences are truthful, every other sentence ends with exactly those cells marked safe; as many mines as cells reports them as mines and, likewise, marks them as mines; an empty one reports nothing; an undecided one changes no sentence, is kept iff no other sentence lies strictly inside it, and leaves the sentences that do not contain it, in order, followed by new sentences with exactly the derived states; a kept sentence is undecided; truth is kept |
| `Minesweeper.MarkDecided` | 1-knowledge/minesweeper/minesweeper.py:232-247 | the three cases where the popped sentence decides its cells: what is reported, and that every other sentence ends with exactly those cells marked safe, respectively mines |
| `Minesweeper.ProcessStep` | 1-knowledge/minesweeper/minesweeper.py:228-265 | the part of `Process` the work-list loop uses: reports as a function of the popped sentence, new sentences only, cells mentioned kept, truth kept |
| `Minesweeper.EmptyBeforeUndecidedRepeats` | 1-knowledge/minesweeper/minesweeper.py:227-263 | with an empty count-0 sentence before an undecided one, popping the undecided one drops it, keeps the empty one and appends a sentence with the same cells and count: the work-list repeats forever |
| `Minesweeper.MarkEachSafe` | 1-knowledge/minesweeper/minesweeper.py:233-238 | exactly the sentence's cells are reported; every other sentence keeps the cells it mentions and its count; when the cells are safe and the sentences truthful, each sentence ends with exactly those cells marked safe (`SafeMarked`) and stays truthful |
| `Minesweeper.MarkEachMine` | 1-knowledge/minesweeper/minesweeper.py:240-245 | exactly the sentence's cells are reported; every other sentence keeps the cells it mentions; when the cells are mines and the sentences truthful, each sentence ends with exactly those cells marked as mines (`MineMarked`) and stays truthful |
| `Minesweeper.MarkSafeEverywhere` | 1-knowledge/minesweeper/minesweeper.py:234-235 | one cell marked safe in each sentence of the list: mentioned cells and counts kept, truth kept, and the `SafeMarked` progress extended by the cell |
| `Minesweeper.MarkMineEverywhere` | 1-knowledge/minesweeper/minesweeper.py:241-242 | one cell marked a mine in each sentence of the list, with the same guarantees as the safe case |
| `Minesweeper.MarkCellsSafe` | 1-knowledge/minesweeper/minesweeper.py:233-238 | the loop of `MarkEachSafe` against the states before it: every cell visited once, each sentence ends marked with all of them |
| `Minesweeper.MarkCellsMines` | 1-knowledge/minesweeper/minesweeper.py:240-245 | the loop of `MarkEachMine` against the states before it |
| `Minesweeper.Reduce` | 1-knowledge/minesweeper/minesweeper.py:248-265 | orth iff no other sentence lies strictly inside the popped one; the new list is the sentences that do not contain it, in order, then fresh sentences with exactly the derived states; no sentence twice; from truthful sentences every sentence of the new list is truthful |
| `Minesweeper.Compare` | 1-knowledge/minesweeper/minesweeper.py:248-259 | the scan: orth iff no sentence lies strictly inside the popped one; the removals are exactly the sentences containing it, in order; the derived states are exactly `Derivations`, one per superset that differs and one per strict subset |
| `Minesweeper.CompareAndRemove` | 1-knowledge/minesweeper/minesweeper.py:248-263 | the scan and then the removals: the removals never raise and leave exactly the sentences that do not contain the popped one |
| `Minesweeper.NewSentences` | 1-knowledge/minesweeper/minesweeper.py:252-258 | one fresh sentence per derived state, in order, with exactly that state, none twice |
| `Minesweeper.SupersetsMembers` | 1-knowledge/minesweeper/minesweeper.py:250-255 | the removals are exactly the sentences whose cells include the popped one's |
| `Minesweeper.OthersMembers` | 1-knowledge/minesweeper/minesweeper.py:262-263 | the survivors are exactly the sentences whose cells do not include the popped one's, none twice |
| `Minesweeper.DerivationsTruthful` | 1-knowledge/minesweeper/minesweeper.py:249-258 | every sentence derived from truthful sentences is truthful |
| `Minesweeper.DerivationsUndecided` | 1-knowledge/minesweeper/minesweeper.py:252-258 | every derived sentence is new: nothing marked yet |
| `Minesweeper.RemoveEach` | 1-knowledge/minesweeper/minesweeper.py:262-263 | succeeds iff every removal finds an equal sentence, and then the result is exactly `RemoveAll`, dropping the first equal sentence each time; never adds a sentence |
| `Minesweeper.RemoveAllShrinks` | 1-knowledge/minesweeper/minesweeper.py:262-263 | a successful removal keeps only sentences of the list |
| `Minesweeper.RemoveSupersets` | 1-knowledge/minesweeper/minesweeper.py:250-263 | removing the supersets one by one never fails and leaves exactly the other sentences |
| `Minesweeper.ReportsStep` | 1-knowledge/minesweeper/minesweeper.py:233-245 | the reports grow by what the popped sentence reports |
| `Minesweeper.IndexOfEqual` | 1-knowledge/minesweeper/minesweeper.py:263 | the first sentence equal under `__eq__`, or the length when none is |
| `Minesweeper.IndexOf` | 1-knowledge/minesweeper/minesweeper.py:207 | the first occurrence, or the length when there is none |
| `Minesweeper.RemoveAtDistinct` | 1-knowledge/minesweeper/minesweeper.py:207 | removing one element leaves the other elements, once each |
| `Minesweeper.MinesweeperAI.Conclude` | 1-knowledge/minesweeper/minesweeper.py:266-270 | the inferred safes are added, the inferred mines leave the available cells and are flagged; truth is kept |
| `Minesweeper.MinesweeperAI.MarkSafes` | 1-knowledge/minesweeper/minesweeper.py:266-267 | the safes gain exactly the inferred safe cells |
| `Minesweeper.MinesweeperAI.RemoveMines` | 1-knowledge/minesweeper/minesweeper.py:268-270 | the mines gain the inferred mines unless a removal raises; available cells only shrink |
| `Minesweeper.MinesweeperAI.MarkSafeKeepingTruth` | 1-knowledge/minesweeper/minesweeper.py:182-189 | marking a cell that is not a mine keeps every truthful sentence truthful |
| `Minesweeper.MinesweeperAI.MarkMineKeepingTruth` | 1-knowledge/minesweeper/minesweeper.py:173-180 | marking a real mine keeps every truthful sentence truthful |
| `Minesweeper.MinesweeperAI.ScanForPlayable` | 1-knowledge/minesweeper/minesweeper.py:287-291 | the first safe unplayed cell of the scanned rectangle in row-major order, or None |
| `Minesweeper.MinesweeperAI.MakeSafeMoveAsWritten` | 1-knowledge/minesweeper/minesweeper.py:278-291 | the scan as written covers width rows and height columns |
| `Minesweeper.SwappedScanMissesSafeCell` | 1-knowledge/minesweeper/minesweeper.py:287-291 | on a 2x1 board the transposed scan misses the only safe cell |
| `Minesweeper.FirstPlayableUnique` | 1-knowledge/minesweeper/minesweeper.py:287-291 | the scan's result is determined by the safe and played cells |
| `Minesweeper.MinesweeperAI.MakeSafeMove` | 1-knowledge/minesweeper/minesweeper.py:278-291 | a safe unplayed board cell, the first in row-major order; None iff there is none |
| `Minesweeper.MinesweeperAI.MakeRandomMove` | 1-knowledge/minesweeper/minesweeper.py:293-303 | some available cell, None iff none is left; never a played or flagged cell |
| `TicTacToe.InitialState` | 0-search/tictactoe/tictactoe.py:13-19 | a 3x3 board of empty cells |
| `TicTacToe.RowBalance` | 0-search/tictactoe/tictactoe.py:27-31 | the counter over a row is the number of X less the number of O |
| `TicTacToe.Balance` | 0-search/tictactoe/tictactoe.py:25-31 | the counter over the board is the number of X less the number of O |
| `TicTacToe.Player` | 0-search/tictactoe/tictactoe.py:21-35 | X iff the board has as many X as O, otherwise O |
| `TicTacToe.PlayersAlternate` | 0-search/tictactoe/tictactoe.py:21-61 | on a legal board a move hands the turn to the other player and keeps the board legal |
| `TicTacToe.ActionsFrom` | 0-search/tictactoe/tictactoe.py:42-44 | the empty cells from index i on, in row-major order |
| `TicTacToe.Actions` | 0-search/tictactoe/tictactoe.py:37-45 | exactly the empty cells, in row-major order, none twice |
| `TicTacToe.ActionsCount` | 0-search/tictactoe/tictactoe.py:37-45 | as many actions as empty cells |
| `TicTacToe.ActionsFromCount` | 0-search/tictactoe/tictactoe.py:42-44 | as many actions from i on as empty cells from i on |
| `TicTacToe.Pos` | 0-search/tictactoe/tictactoe.py:43-44 | the cell (i // 3, i % 3), whose row-major index is i |
| `TicTacToe.PosIndex` | 0-search/tictactoe/tictactoe.py:43-44 | a board cell is the cell of its own index |
| `TicTacToe.Result` | 0-search/tictactoe/tictactoe.py:49-61 | raises iff the target is an occupied board cell; otherwise a new board equal to the old one except that the target holds the player to move |
| `TicTacToe.MoveCounts` | 0-search/tictactoe/tictactoe.py:49-61 | a move turns one empty cell into one mark of the mover |
| `TicTacToe.MoveCells` | 0-search/tictactoe/tictactoe.py:54-60 | the cells after a move are the old cells with the target updated |
| `TicTacToe.Move` | 0-search/tictactoe/tictactoe.py:49-61 | a move leaves one action fewer, and on a board nobody has won the child does not make `winner` raise |
| `TicTacToe.MoveOwners` | 0-search/tictactoe/tictactoe.py:49-109 | on a board nobody has won, a move never completes a line for the other player |
| `TicTacToe.MoveLines` | 0-search/tictactoe/tictactoe.py:64-109 | after a move on a board nobody has won, every line is owned by nobody or by the mover |
| `TicTacToe.LineKept` | 0-search/tictactoe/tictactoe.py:64-71 | a line the move does not complete for the mover had the same owner before |
| `TicTacToe.DiffersFrom` | 0-search/tictactoe/tictactoe.py:66-68 | true iff some entry from k on differs from the first |
| `TicTacToe.Line` | 0-search/tictactoe/tictactoe.py:64-71 | the first entry iff it is a mark and every entry equals it; otherwise nobody |
| `TicTacToe.Lines` | 0-search/tictactoe/tictactoe.py:79-97 | the three rows, three columns and two diagonals, in the order `winner` reads them |
| `TicTacToe.WinFlags` | 0-search/tictactoe/tictactoe.py:77-101 | the flags say whether X, respectively O, owns one of the lines |
| `TicTacToe.Winner` | 0-search/tictactoe/tictactoe.py:73-109 | raises iff both marks own a line; otherwise the unique owner, or nobody |
| `TicTacToe.Terminal` | 0-search/tictactoe/tictactoe.py:113-122 | raises as `winner` does; otherwise true iff some mark owns a line or no cell is empty |
| `TicTacToe.Utility` | 0-search/tictactoe/tictactoe.py:126-136 | raises as `winner` does; otherwise 1, -1 or 0 as X, O or nobody owns a line |
| `TicTacToe.Score` | 0-search/tictactoe/tictactoe.py:172-183 | the value `get_optimal_score` computes where `winner` does not raise; its properties are `ScoreTerminal`, `ScoreRange` and `ScoreIsMinimax` |
| `TicTacToe.ChildValue` | 0-search/tictactoe/tictactoe.py:178 | what a move is worth to a side, `side * get_optimal_score(result(b, a), -side)`; bounded by `ChildValueRange` |
| `TicTacToe.ScoreLoop` | 0-search/tictactoe/tictactoe.py:176-183 | the loop of `get_optimal_score`, with the strict `>` and the exit at 1; its value is stated by `ScoreLoopRange` and `ScoreLoopMax` |
| `TicTacToe.MinimaxLoop` | 0-search/tictactoe/tictactoe.py:197-205 | the loop of `minimax`, with the strict `>` and the exit at 1; its result is stated by `MinimaxLoopIn` and `MinimaxLoopFirstBest` |
| `TicTacToe.GetOptimalScore` | 0-search/tictactoe/tictactoe.py:172-183 | raises iff `winner` raises on the board itself |
| `TicTacToe.ScoreTerminal` | 0-search/tictactoe/tictactoe.py:173-174 | at a finished game the score is the utility |
| `TicTacToe.ScoreRange` | 0-search/tictactoe/tictactoe.py:172-183 | the score is -1, 0 or 1 |
| `TicTacToe.ChildValueRange` | 0-search/tictactoe/tictactoe.py:178 | what a move is worth to a side is -1, 0 or 1 |
| `TicTacToe.ScoreLoopRange` | 0-search/tictactoe/tictactoe.py:176-183 | the loop's value lies between its start and 1, and is at least -1 once a move was seen |
| `TicTacToe.ScoreLoopMax` | 0-search/tictactoe/tictactoe.py:176-183 | the loop, early exit included, yields the largest move value (or its start) |
| `TicTacToe.ScoreIsMinimax` | 0-search/tictactoe/tictactoe.py:172-183 | for X the score is the maximum and for O the minimum over the moves of the children's scores |
| `TicTacToe.MinimaxStep` | 0-search/tictactoe/tictactoe.py:198 | on a board nobody has won, the score `minimax` reads for a move is that move's value |
| `TicTacToe.Minimax` | 0-search/tictactoe/tictactoe.py:185-205 | None when no cell is empty; any move returned is an empty cell |
| `TicTacToe.MinimaxLoopIn` | 0-search/tictactoe/tictactoe.py:197-205 | the loop returns one of the moves it was given, or what it started with |
| `TicTacToe.MinimaxLoopUnfold` | 0-search/tictactoe/tictactoe.py:197-204 | one turn of the loop, with the strict `>` and the exit at 1 |
| `TicTacToe.MinimaxLoopFirstBest` | 0-search/tictactoe/tictactoe.py:197-205 | the loop keeps the first move whose value beats every other, or what it started with when none beats the floor |
| `TicTacToe.LoopOutcomeStep` | 0-search/tictactoe/tictactoe.py:199-201 | one strict-improvement step keeps the first-best outcome |
| `TicTacToe.LoopOutcomeStop` | 0-search/tictactoe/tictactoe.py:202-204 | stopping at value 1 is the first-best outcome |
| `TicTacToe.MinimaxIsFirstBest` | 0-search/tictactoe/tictactoe.py:185-205 | on a board nobody has won with an empty cell, `minimax` returns the first move in row-major order with the best value for the player to move |
| `Words.Lower` | 6-language/questions/questions.py:65-72 | 'A'..'Z' move to 'a'..'z' (code + 32); every other character is unchanged |
| `Words.LowerAll` | 6-language/questions/questions.py:64-72 | each character lower-cased, same length |
| `Words.NormaliseShape` | 6-language/questions/questions.py:61-76 | None iff there is no ASCII letter; otherwise same length, no upper-case letter, still a letter |
| `Words.NormaliseIdempotent` | 6-language/questions/questions.py:64-74 | normalising a normalised word returns it unchanged |
| `Questions.StandarizeLoop` | 6-language/questions/questions.py:62-72 | the fold lower-cases each character and records whether a letter was seen |
| `Questions.StandarizeWord` | 6-language/questions/questions.py:61-76 | the normal form of the word, None iff it has no letter |
| `Questions.Tokenize` | 6-language/questions/questions.py:87-93 | no longer than the input; each token has a letter and no upper-case; a word is kept iff it normalises some token |
| `Questions.TokenizeAppend` | 6-language/questions/questions.py:88-93 | the filter keeps order: tokenising a concatenation concatenates the results |
| `Questions.TokenizeSingle` | 6-language/questions/questions.py:89-92 | one token yields its lower-cased form if it has a letter, nothing otherwise |
| `Questions.TokenizeIdempotent` | 6-language/questions/questions.py:87-93 | tokenising the output again changes nothing |
| `Questions.CountWords` | 6-language/questions/questions.py:107-111 | each word of the document's set gains one, new words start at zero |
| `Questions.DocumentFrequencies` | 6-language/questions/questions.py:104-111 | the keys are exactly the words of the documents; each count is the number of documents containing the word, between 1 and the number of documents |
| `Questions.DocumentsWithBounds` | 6-language/questions/questions.py:104-111 | a word of some document occurs in at least one and at most all documents |
| `Questions.AddDocument` | 6-language/questions/questions.py:106-111 | one more document adds one to exactly the counts of its words |
| `Parser.WordStandarizeLoop` | 6-language/parser/parser.py:65-75 | the fold lower-cases each character and records whether a letter was seen |
| `Parser.WordStandarize` | 6-language/parser/parser.py:64-79 | the normal form of the word, None iff it has no letter |
| `Parser.WordStandarizeAgrees` | 6-language/parser/parser.py:64-79 | the parser's normaliser equals the question answerer's |
| `Parser.Preprocess` | 6-language/parser/parser.py:89-95 | no longer than the input; each token has a letter and no upper-case; a word is kept iff it normalises some token |
| `Parser.PreprocessAgrees` | 6-language/parser/parser.py:89-95 | the parser's filter equals the question answerer's token filter |

## Left out

- Terminal and image output is not modelled: `main`, the `print` and `save` methods, the debug prints in `add_knowledge` and at tic-tac-toe line 203, and the `ipdb` imports. So is the module-level `minimax` call at tic-tac-toe line 208.
- `crossword.py` is not part of this model. Its `Crossword` is a given value (`Generate.Crossword`), and `Generate.WellFormed` states what the model assumes of it: distinct slots inside the grid, and crossings recorded for both orders.
- `Generate.CrosswordCreator.EnforceNodeConsistency`: requires every wrong-length vocabulary word to still be in its slot's domain. Python's `set.remove` raises `KeyError` otherwise, which only a second call could trigger.
- `Generate.CrosswordCreator.Revise`: requires two distinct slots of the puzzle. The overlap lookup of any other pair raises `KeyError`, which is not modelled.
- `Generate.CrosswordCreator.Ac3`: given arcs must join distinct slots of the puzzle, for the same reason.
- `Generate.CrosswordCreator.LetterGrid`: requires the assigned words to have their slots' lengths. A longer word would index outside the grid in Python.
- `Generate.CrosswordCreator.Backtrack`: requires the input assignment's word lengths to match. The search itself only creates such assignments, and `solve` starts from the empty one.
- `Generate.CrosswordCreator.OrderDomainValues`: Python's stable `sorted` is modelled by inserting each word after the entries that score no more. The order among equal scores then follows the visiting order, which the model leaves open.
- `Generate.CrosswordCreator.SelectUnassignedVariable`: the degree tie-break never has an effect. `max_neighbors` is never raised from 0 and every count is positive, so the last tied candidate is returned. The docstring's "highest degree" rule is not modelled, because the count the code computes is not a degree.
- The random mine placement of the game constructor is not modelled. The mines are given as a parameter.
- `Minesweeper.MinesweeperAI.MakeRandomMove`: the random index is not modelled, and any available cell may be returned.
- `Minesweeper.Minesweeper.IsMine`: requires the cell to be in Python's index range; the `IndexError` is not modelled.
- `Minesweeper.MinesweeperAI.AddKnowledge`: the work-list is bounded by a `fuel` parameter and stops with `OutOfFuel` when the bound is reached. The Python loop need not end: an empty sentence with count 0 ahead of an undecided one makes each pop append a copy of the undecided sentence (`Minesweeper.EmptyBeforeUndecidedRepeats`).
- `Minesweeper.MinesweeperAI.AddKnowledge`: the contract states soundness, not the exact new knowledge. The sentences it keeps are all truthful, and the cells it marks safe or mine are right, but the model does not list which sentences survive.
- `Minesweeper.Infer`: the kept sentences and the reports are not given as a function of the input list. The contract states what each kept sentence is and what is reported in terms of the popped sentences; `Minesweeper.Process` states each step exactly.
- `Minesweeper.MinesweeperAI.InferAndConclude`: the same gap as `Minesweeper.Infer`. In addition, the marks the conclusions leave on the old sentences are stated only through truth, not as exact states.
- `Minesweeper.MinesweeperAI.Learn`: the same gap as `Minesweeper.MinesweeperAI.InferAndConclude`, and the new knowledge is not stated when the work-list completes.
- `Minesweeper.Reduce`: the derived sentences are created after the scan and the removals rather than during the scan. Nothing reads them in between, so the resulting list is the same.
- `Generate.CrosswordCreator.LetterGrid`: the slots are written in an order left open. For an inconsistent assignment a shared cell holds the letter of the slot written last, which the contract does not state; for a consistent one every order gives the same grid.
- `Minesweeper.Sentence.KnownMines`, `Minesweeper.Sentence.KnownSafes` and `Minesweeper.Sentence.Unknown` are plain field reads and carry no contract. The `__str__` method of `Sentence` is not modelled.
- `TicTacToe.Minimax`: that a move is returned whenever one exists is proved only for boards nobody has won (`TicTacToe.MinimaxIsFirstBest`). On a won board Python may raise from a child.
- `TicTacToe.GetOptimalScore`: its value is stated through `TicTacToe.Score` on boards where `winner` does not raise. Only the error case is in the function's own contract.
- The unused helpers `get_min` and `get_max` (tic-tac-toe lines 139-170) are not modelled.
- Cells hold only `X`, `O` or nothing. Other values Python would accept on a board are not modelled.
- The nltk tokenizers are not modelled: `tokenize` and `preprocess` take the token sequence as input. Also left out are the nltk grammar and chart parser, `np_chunk`, `load_files`, `top_files` and `top_sentences`.
- `Questions.DocumentFrequencies`: stops at the integer counts. The division and `np.log` of `compute_idfs` are floating point.
- The shopping program (`4-learning/shopping/shopping.py`) is not modelled: it is CSV input, a scikit-learn classifier and floating-point ratios.

## Findings

| source | as written | input that shows it | evidently intended | confidence | as-written member | corrected member |
|---|---|---|---|---|---|---|
| 1-knowledge/minesweeper/minesweeper.py:287-291 | `make_safe_move` loops rows over `range(self.width)` and columns over `range(self.height)` | board of height 2 and width 1, the only safe cell (1, 0), nothing played: the scan covers only (0, 0) and (0, 1) and returns None | scan rows `range(height)` and columns `range(width)`, returning (1, 0) | not executed | `Minesweeper.MinesweeperAI.MakeSafeMoveAsWritten`, with `Minesweeper.SwappedScanMissesSafeCell` | `Minesweeper.MinesweeperAI.MakeSafeMove` |
| 3-optimization/crossword/generate.py:157-161 | `revise` returns true when some word found support, not when a word was removed (lines 132-133), so `ac3` tests an emptied domain only after a revision that left a word: its `False` is unreachable | slots x = (0, 0, across, 2) and y = (0, 1, down, 2) crossing at (1, 0), domains x: {"ab"}, y: {"cd"}: revising x empties its domain and `ac3` still returns True | `revise` reports a removal, as its doc comment says, and `ac3` returns False when a domain is emptied | not executed | `Generate.CrosswordCreator.Ac3`, with `Generate.Ac3MissesEmptiedDomain` | `Generate.CrosswordCreator.Ac3AsDocumented` |
| 3-optimization/crossword/generate.py:294-296 | `backtrack` asks for an unassigned slot first and returns None when there is none, also when the input is already complete | a puzzle with no slots: `solve` calls `backtrack({})`, which returns None although the empty assignment solves it | return a complete consistent input assignment itself | not executed | `Generate.CrosswordCreator.Backtrack` and `Generate.CrosswordCreator.Solve`, with `Generate.EmptyPuzzleIsSolved` | `Generate.CrosswordCreator.BacktrackAsDocumented`, used by `Generate.CrosswordCreator.SolveAsDocumented` |
