# Kropki Sudoku solver, modelled in Dafny

The solver fills a 9x9 Kropki Sudoku. Each row, column and 3x3 box holds
1..9. A white dot between two adjacent cells makes their values
consecutive. A black dot makes one value double the other.

Each cell (`Variable`) holds:
- a value, 0 meaning unassigned;
- a domain of nine flags;
- its four dot links.

The search is a depth-first backtracking search with forward checking:
1. pick a cell by minimum remaining values, breaking ties by degree and
   then by row-major order;
2. try each value still in its domain;
3. propagate the value to the row, column and box peers and to the
   dot-linked neighbours;
4. recurse;
5. on failure, restore the saved domains and clear the value.

The model has six modules:

- `Constraints` holds the pure helpers:
  - `DotRemains` (`dot_remains`) and `BoxIndexes` (`box_indexes`);
  - the dot relation `DotHolds`;
  - the peer visiting order `PeerList`, which is the row, column and box
    loops of the solver joined into one list with the same order and the
    same skips.
- `Cells` holds the cell datatype, `Count` (`remaining_value_count`) and
  `Narrow`. `Narrow` is what one assigned peer leaves of a cell's domain.
- `Propagation` specifies one propagation on board values:
  - `Propagate` is the board after `update_neighbors`, or after a
    `forward_check` that finds no wipe-out.
  - `Staged` gives the intermediate states of the loops.
  - `WipesOut` says that the propagation empties a peer.
  - `Snapshots` is the `original` list and `Undo` is what
    `remove_inferences` writes back.
- `Search` holds:
  - the selection rule `MrvDegreeChoice` and the scan invariant `MrvSoFar`;
  - refinement between boards, solutions and consistency;
  - the lemmas that make backtracking sound and complete for the search.
- `Wiring` builds the starting board from parsed arrays: the given values,
  the dots attached to both of their cells, and the closed form `Passed`
  of the initial propagation pass.
- `Solver` is the class `Board`. It holds the 9x9 `array2` of cells that
  the solver mutates in place. Each method is proved against the
  functions above:
  - `ForwardCheck`, `UpdateNeighbors` and `RemoveInferences`;
  - `SelectVariable` with its two scans;
  - `Backtrack`;
  - the constructor, which does the wiring and runs the initial pass.

The method contracts are stated in terms of these reference definitions:
- `Search.Complete` (`assignment_complete`, solver.py:323-331): every cell
  is assigned.
- `Search.Degree` (`unassigned_neighbors_count`, solver.py:334-362): the
  size of the set of unassigned peers of a cell.
- `Search.MrvDegreeChoice` (`select_variable`, solver.py:378-420): the cell
  is unassigned and no other unassigned cell beats it on fewer remaining
  values, then on more unassigned peers, then on an earlier row-major
  position.
- `Propagation.WipesOut` (`forward_check`'s `False`, solver.py:160-256):
  propagating the cell's value leaves some unassigned peer with an empty
  domain.
- `Propagation.Undo` (`remove_inferences`, solver.py:365-375): each
  position takes the last domain the record saved for it, and positions
  the record does not name are left alone.
- `Wiring.Passed` (the last loop of `parse_file`, solver.py:91-95): after
  the givens among the first n cells in row-major order are propagated, a
  given is unchanged and any other cell keeps exactly the values that
  every such given peer allows, by value and by dot.

Three behaviours of the code that the model keeps:
- The forward check saves the domain of every unassigned peer before any
  domain changes, including peers it never goes on to prune. Each peer is
  saved exactly once. `SaveDomains` and `Snapshots` do the same.
- The initial pass never checks the givens against each other.
  Consistency of the starting board (`Wiring.StartConsistent`) is
  therefore proved only under the hypothesis `GivensAgree`.
- The initial pass runs in row-major order (`PropagateGivens`). Its
  result (`Passed`) is stated in a closed form that does not depend on
  that order.

## Model

| member | source | states |
|---|---|---|
| Constraints.DotRemains | solver.py:259-286 | For a neighbour value in 1..9, the list holds exactly the values 1..9 that the dot allows next to it: consecutive for white, double or half for black. A white dot never leaves it empty. A black dot leaves it empty exactly when the value is odd and above 3. |
| Constraints.DotSymmetric | solver.py:259-286 | `w` is allowed next to `v` exactly when `v` is allowed next to `w`, for either dot. |
| Constraints.BoxIndexes | solver.py:289-304 | Nine distinct positions: exactly the cells of the 3x3 box of (i, j). All lie within the box's row and column ranges, and (i, j) is one of them. |
| Constraints.PeerList | solver.py:114-131 | The row, column and box loops visit exactly the peers of (i, j), with no repeats. A peer is any other cell that shares its row, column or box. |
| Constraints.PeersCovered | solver.py:126-128 | The box loop skips cells in the same row or column. Even so, the row peers, column peers and box-only peers together are all the peers. |
| Cells.Cell.Assigned | solver.py:33-37 | For a value in 0..9, the cell is assigned exactly when its value is one of 1..9; 0 means unassigned. |
| Cells.Cell.RemainingValueCount | solver.py:39-43 | The number of values the domain still allows: at most the number of flags, and zero exactly when no flag is set. |
| Cells.Count | solver.py:39-43 | The remaining value count is at most the number of flags, and is zero exactly when no flag is set. |
| Cells.Narrow | solver.py:138-157 | Narrowing by an assigned peer holding `v`: flag m survives exactly when it was set, m + 1 is not `v`, and the shared dot allows m + 1 next to `v`. The value and links are unchanged. |
| Cells.Link | solver.py:134-137 | Each dot link a cell reads joins it to an orthogonal neighbour only. |
| Propagation.PropagatedCell | solver.py:110-157 | A cell after propagation: assigned and unrelated cells stay as they were. An unassigned peer loses the assigned value and keeps only values its dot allows. The cell stays well formed. |
| Propagation.Propagate | solver.py:101-157 | The board after propagating (i, j) is well formed. Assigned cells and non-peers are unchanged. Every unassigned peer has lost the value. |
| Propagation.PropagateNarrows | solver.py:110-157 | Propagation only removes flags: values and links are unchanged and every domain shrinks. Each flag left in an unassigned cell keeps its dot with the assigned value. |
| Propagation.DotNeighbours | solver.py:134-137 | Lists the four dot neighbours with their links. Every neighbour with a dot is among them. |
| Propagation.StagedStart | solver.py:113-131 | Once the value loops have cleared every peer, the board is at the first stage of the propagation. |
| Propagation.StagedStep | solver.py:138-157 | Intersecting one more dot neighbour with `DotRemains` advances the stage by that neighbour. So does skipping it when it has no dot or is assigned. |
| Propagation.StagedDone | solver.py:133-157 | Once the four dot neighbours are processed, the board is exactly the propagated board. |
| Propagation.ClearStopped | solver.py:197-220 | Stopping at a peer whose domain became empty leaves the board between the start and the full propagation. The full propagation then wipes out a peer. |
| Propagation.ClearedPrefixBetween | solver.py:197-220 | After the value is cleared from any prefix of the peers, the board lies between the start and the full propagation. |
| Propagation.StagedBetween | solver.py:228-255 | Every intermediate stage lies between the start and the full propagation. |
| Propagation.ClearWipesOut | solver.py:203-204 | A peer emptied by losing the value means the propagation wipes out. |
| Propagation.PeerEmptied | solver.py:197-220 | A peer emptied by losing the value is still empty after the full propagation. |
| Propagation.DotLost | solver.py:228-255 | A dot neighbour that does not keep a value makes the propagation wipe out. |
| Propagation.NoWipeOut | solver.py:194-256 | No peer is empty after the full propagation when two things hold: the value loops emptied no peer, and no dot neighbour was emptied by its dot. |
| Propagation.PeerKept | solver.py:194-256 | An unassigned peer that survives its value removal, and its dot if it has one, keeps a value in the propagated board. |
| Propagation.Snapshots | solver.py:174-192 | Every saved entry names a listed, unassigned position and holds that cell's domain before any change. A list without repeats, such as the peer list, saves each position at most once. |
| Propagation.SnapshotsLookup | solver.py:174-192 | For each position, the last saved domain is its pre-change domain when it is an unassigned listed peer, and absent otherwise. |
| Propagation.LastEntry | solver.py:373-375 | A position has no last entry exactly when no entry names it. Otherwise the last entry is one of the entries. |
| Propagation.LastEntryStep | solver.py:373-375 | After writing entry t, a position's last written domain is entry t's if that entry names it, and unchanged otherwise. |
| Propagation.UndoRestores | solver.py:365-375 | Writing the snapshots back gives exactly the board before the propagation, from any board between the start and the full propagation. This covers both a finished and a stopped forward check. |
| Search.Holes | solver.py:323-331 | The holes are exactly the unassigned positions. There are none exactly when the board is complete. |
| Search.UnassignedCountIsSize | solver.py:346-362 | Counting unassigned cells along a list without repeats gives the number of distinct unassigned positions in it. |
| Search.DegreeCountsPeers | solver.py:334-362 | The count along the peer loops equals the number of unassigned peers (the degree). |
| Search.MrvDegreeChoiceUnique | solver.py:378-420 | At most one cell meets the selection rule, so the choice is deterministic. |
| Search.MrvScanStep | solver.py:391-404 | Each cell of the minimum-remaining-values scan keeps the scan invariant. An assigned cell, or one with more values than the minimum, is skipped. One with as many is appended. One with fewer restarts the list. |
| Search.MrvListed | solver.py:388-404 | After the scan, the bound is at most every unassigned cell's count. Every unassigned cell that reaches it is listed. |
| Search.MrvDegreeScan | solver.py:406-420 | A listed cell meets the whole selection rule when its degree is at least every listed degree and above every earlier one. |
| Search.MrvEmptyWhenComplete | solver.py:388-404 | The candidate list is empty exactly when the board is complete. |
| Search.MrvHeadUnassigned | solver.py:388-404 | A non-empty candidate list means some cell is still unassigned. |
| Search.RefinesTransitive | solver.py:440-442 | Refinement composes across nested calls. |
| Search.Assign | solver.py:438 | Setting a value changes only that cell's value. |
| Search.AssignUndone | solver.py:438-444 | Putting back the old value undoes the assignment exactly. |
| Search.AssignRefines | solver.py:435-439 | Assigning a value still in the domain and propagating refines the board and removes exactly that cell from the holes. |
| Search.AssignRefinesAt | solver.py:435-439 | The same, cell by cell: each cell refines its old state, and only the chosen cell gets a new value. |
| Constraints.DotHoldsSymmetric | solver.py:259-286 | The dot relation reads the same from either end. |
| Search.BranchFails | solver.py:439-444 | Suppose every solution that refines the board has a value of at least `v` at (i, j). If `v` wipes out, or its sub-search finds nothing, every such solution has a value of at least `v + 1` there. |
| Search.ValueRuledOut | solver.py:436-437 | The same step for a value `v` already gone from the domain, which is skipped. |
| Search.SolutionSurvives | solver.py:438-441 | Assigning a solution's own value and propagating it wipes nothing out, and the solution still refines the board. |
| Search.SurvivesAt | solver.py:438-441 | The same, for one cell. |
| Search.ConsistentAfterAssign | solver.py:438-441 | A consistent board stays consistent after an allowed value is assigned and propagated. |
| Search.PairConsistentAfterAssign | solver.py:438-441 | The same, for one pair of peers. |
| Search.RefinesKeepsLinks | solver.py:438-441 | Refinement keeps both ends of every dot in agreement. |
| Search.CompleteConsistentSolves | solver.py:431-432 | A complete, consistent board is a solution. |
| Wiring.WiredLinks | solver.py:75-89 | The wired board is well formed, and each dot reads the same from both of its cells. |
| Wiring.PassedStart | solver.py:91-95 | Before any given is propagated, the pass result is the wired board. |
| Wiring.PassedValid | solver.py:91-95 | The pass keeps every value and link and keeps the board well formed. |
| Wiring.PassStep | solver.py:91-95 | Propagating the n-th cell when it is a given, or skipping it when it is empty, takes the pass result from n cells to n + 1. |
| Wiring.AllowedStep | solver.py:91-95 | The givens among the first n + 1 cells allow a value exactly when those among the first n do and so does the n-th cell, if it is a given peer. |
| Wiring.RowMajorInjective | solver.py:91-92 | Distinct positions have distinct row-major indexes. |
| Wiring.StartConsistent | solver.py:91-95 | When the givens agree, the board after the whole pass is consistent. |
| Wiring.PuzzleSolutionRefinesStart | solver.py:91-95 | The pass loses no solution: every solution that refines the wired board also refines the board after the whole pass. |
| Solver.Board.constructor | solver.py:56-98 | Builds exactly the wired board after the pass over all 81 cells. It is consistent when the givens agree. Every solution that keeps the givens and dots of the wired board still refines it. |
| Solver.Board.WireRows | solver.py:71-78 | Every horizontal dot becomes the `right` of the cell before it and the `left` of the cell after it. Nothing else changes. |
| Solver.Board.WireRow | solver.py:75-78 | The same for one row. Other rows are unchanged. |
| Solver.Board.LinkSideways | solver.py:76-78 | A present dot becomes the `right` link of the cell before it and the `left` link of the cell after it. An absent dot changes nothing. No other link or cell changes. |
| Solver.Board.WireColumns | solver.py:82-89 | Every vertical dot becomes the `down` of the cell above it and the `up` of the cell below it. Nothing else changes. |
| Solver.Board.WireColumnRow | solver.py:86-89 | The same for the dots between two rows. Other rows are unchanged. |
| Solver.Board.LinkUpDown | solver.py:87-89 | A present dot becomes the `down` link of the cell above it and the `up` link of the cell below it. An absent dot changes nothing. No other link or cell changes. |
| Solver.Board.PropagateGivens | solver.py:91-95 | The row-major pass over the givens ends at the closed-form pass result. |
| Solver.Board.PropagateGiven | solver.py:93-95 | One cell of the pass takes the pass result from n cells to n + 1. |
| Solver.Board.RestrictDomain | solver.py:140-142 | Clears exactly the flags of one cell whose values `remain` does not list. No other cell changes. |
| Solver.Board.ClearValue | solver.py:113-131 | Every unassigned peer loses the value and nothing else changes. |
| Solver.Board.ClearValueChecked | solver.py:197-220 | Clears the value along the peers. It either finishes with no peer emptied, or stops right after the first emptied unassigned peer: the earlier peers are cleared and every unassigned one among them still has a value. |
| Solver.Board.ClearNext | solver.py:200-204 | One cell of the checked pruning loops. If the cell keeps a value, the loop invariant moves on by one cell. If it is left empty, the board is cleared up to it and it is the first unassigned cell emptied. |
| Solver.Board.ClearOne | solver.py:200-204 | An assigned cell is skipped. An unassigned one loses `v`. It reports an empty domain exactly when an unassigned cell is left with no value. No other cell changes. |
| Solver.Board.StoppedSoFar | solver.py:203-204 | At the early return, the board is cleared up to the emptied cell, and that cell is the first unassigned one left without a value. |
| Solver.Board.NarrowDotNeighbour | solver.py:228-234 | Narrows one dot neighbour, advancing the stage. It reports an empty domain exactly when that neighbour does not keep a value. |
| Solver.Board.NarrowByDots | solver.py:133-157 | After the value loops, the dot updates produce exactly the propagated board. |
| Solver.Board.NarrowDotPair | solver.py:138-147 | Two dot neighbours are narrowed in turn, advancing the stage by both. |
| Solver.Board.NarrowByDotsChecked | solver.py:222-255 | Leaves the board between the start and the full propagation. It succeeds exactly with the propagated board, and fails only when the propagation wipes out. |
| Solver.Board.NarrowDotPairChecked | solver.py:228-241 | Two dot neighbours with the wipe-out check. On success both keep a value. On failure the propagation wipes out. |
| Solver.Board.SaveDomains | solver.py:174-192 | The saved list is the snapshots of the unassigned listed peers, taken before any change, with no position saved twice. |
| Solver.Board.ForwardCheck | solver.py:160-256 | Returns the snapshots of all unassigned peers, each saved once, and leaves the board between the start and the full propagation. It reports consistency exactly when the propagation wipes nothing out, and then leaves exactly the propagated board. |
| Solver.Board.UpdateNeighbors | solver.py:101-157 | The board becomes exactly the propagated board. |
| Solver.Board.RemoveInferences | solver.py:365-375 | Writes the saved domains back in order. The board becomes the undo of the list. |
| Solver.Board.UndoWritten | solver.py:373-375 | Once each cell holds its last saved domain, the board is the undo of the list. |
| Solver.Board.AssignmentComplete | solver.py:323-331 | True exactly when every cell is assigned. |
| Solver.Board.UnassignedNeighborsCount | solver.py:334-362 | Returns the degree: the number of unassigned peers. |
| Solver.Board.CountUnassigned | solver.py:346-361 | Counts the unassigned cells of the list. |
| Solver.Board.SelectVariable | solver.py:378-420 | Returns nothing exactly when the board is complete. Otherwise it returns the one cell that meets the selection rule: fewest remaining values, then most unassigned peers, then first in row-major order. |
| Solver.Board.FewestRemaining | solver.py:388-404 | The scan ends with the invariant over all 81 cells. |
| Solver.Board.MostConstrained | solver.py:406-420 | Returns the first candidate of maximal degree, or nothing for an empty list. |
| Solver.Board.SetValue | solver.py:438 | The board becomes the assignment of `v` at (i, j). |
| Solver.Board.Retract | solver.py:443-444 | Restoring the snapshots and clearing the value gives back exactly the board from before the value was tried. |
| Solver.Board.Backtrack | solver.py:427-445 | On success the board is complete and refines the starting board, and it is a solution when the start was consistent. On failure the board is exactly as it was, and no solution refines the starting board. |

## Left out

- File reading in `parse_file`, `write_output`, `print_board` and `main` are left out: text I/O, console output and a fixed list of input files. The constructor takes the three parsed arrays instead.
- Values and dot codes are modelled as integers 0..9 and as the datatype `Dot`, not as strings. A dot code `'0'` is `NoDot`.
- Python's `copy.copy` of a domain is modelled as a sequence value. The snapshot list holds values that later writes cannot alias.
- `math.inf` as the starting bound of the minimum-remaining-values scan is modelled as 10, which is above any count.
- The three row, column and box loops of `update_neighbors`, `forward_check` and `unassigned_neighbors_count` are modelled as one loop over `PeerList`, in the same order and with the same skips.
- `backtracking_search` is a one-line wrapper and has no member of its own. `Solver.Board.Backtrack` models the nested `backtrack`.
- Solver.Board.Backtrack: returns `true` where the code returns the board object, and `false` where the code returns `False`.
- Solver.Board.Backtrack: proves a returned board is a solution only when the starting board is consistent. The code never checks givens against each other, so clashing givens can end in a complete board that breaks the rules.
- Solver.Board.constructor: assumes the parsed arrays have the right shape (nine rows of nine values in 0..9, nine rows of eight and eight rows of nine dot codes). The code does not check the shape either.
- Wiring.StartConsistent: needs the givens to agree with each other (`GivensAgree`). The initial pass skips assigned cells and never compares two givens.
