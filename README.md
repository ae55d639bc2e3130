# Constraint satisfaction by backtracking: Sudoku and map colouring

This project models the two backtracking solvers of the repository and
proves what they compute.

* **Sudoku** (`sudoku.dfy`, module `Sudoku`). A 9x9 board holds 0 in the
  empty cells.
  - `FindEmptyCell` returns the first empty cell in row-major order.
  - `IsValidChoice` checks that a digit is absent from the cell's row,
    column and 3x3 box.
  - `SolveSudoku` searches depth-first. It writes digits 1..9 into the
    board in place, recurses, and resets the cell to 0 when the rest of
    the board cannot be completed.
  - The board is an `array2<int>`. Each method is proved to compute what a
    pure function on the board value (`Grid`, a `seq<seq<int>>`) computes:
    `FirstEmpty`, `ValidChoice` and `Solve`/`TryDigits`. The properties of
    the search are proved as lemmas about those functions.
* **Map colouring** (`map_coloring.dfy`, module `MapColoring`). A `Problem`
  holds three inputs:
  - the neighbour lists;
  - the countries, in the order they are coloured;
  - the shades, in the order they are tried.

  The class `ColorSolver` holds the problem and the assignment dictionary
  that the source keeps at module level.
  - `SatisfiesConstraints` rejects a shade that a coloured neighbour holds.
  - `AssignColors` picks the first uncoloured country and tries the shades
    in order. It inserts an entry, recurses, and deletes the entry when the
    attempt fails.
  - Both methods are proved to compute what the functions `Satisfies` and
    `Search`/`TryShades` compute on the assignment value.
  - The file also holds the source's Horn of Africa instance, and a proof
    that the search colours it.
* `wrappers.dfy` holds the `Option` type that plays the role of Python's
  `None`.

Three points about what the code does and does not do:

* **Neighbour symmetry.** The code does not make the neighbour table
  symmetric; it checks only the neighbour list of the country being
  coloured.
  - What the search guarantees without symmetry is therefore ordered
    consistency: a country differs from each listed neighbour that was
    coloured before it (`SearchSound`).
  - A proper colouring of every adjacent pair follows only for a symmetric
    table (`SymmetricSearchIsProper`).
* **Two searches.** The code writes the search twice, once per problem, so
  the model has two searches.
* **Clues are not checked.** The code does not check the clues of a Sudoku
  puzzle.
  - A successful search always fills every empty cell with digits that
    differ from their peers (`SolveSound`).
  - The whole board is a valid Sudoku only when the clues were consistent
    to begin with (`SolvedPuzzleIsSolution`).

## Model

| member | source | states |
|---|---|---|
| Sudoku.BoxStart | sudoku_solver.py:44-46 | The box origin is a multiple of 3 in 0..6, and the row (column) lies in the three-wide window starting there, so every box index stays in 0..8. |
| Sudoku.FirstEmptyFrom | sudoku_solver.py:27-31 | The scan from (row, col) returns an in-bounds cell holding 0 with every cell between (row, col) and it non-zero. It returns None only when no cell from (row, col) on is 0. |
| Sudoku.FirstEmpty | sudoku_solver.py:26-31 | The cell returned holds 0 and every earlier cell in row-major order is non-zero. None is returned exactly when the board has no 0. |
| Sudoku.FindEmptyCell | sudoku_solver.py:26-31 | The nested row/column scan over the array returns exactly `FirstEmpty` of the board. |
| Sudoku.ValidChoiceIff | sudoku_solver.py:34-50 | A digit passes the row, column and box checks if and only if neither the cell nor any peer (a distinct cell sharing its row, column or box) holds it. |
| Sudoku.IsValidChoice | sudoku_solver.py:34-50 | The row scan, the column scan and the box scan with early return give true exactly when the digit is absent from the row, the column and the box. |
| Sudoku.FillShrinks | sudoku_solver.py:64-65 | Writing a digit into an empty cell removes exactly that cell from the empty cells, so each recursive call has strictly fewer empty cells. |
| Sudoku.CompletesStep | sudoku_solver.py:63-66 | If a completion of the board with a valid digit written into the cell is full, keeps clues, and has filled cells distinct from their peers, so is it for the original board. |
| Sudoku.SolveSound | sudoku_solver.py:53-69 | A successful search returns a full board (no 0). It keeps every non-zero clue and writes only digits 1..9. Each cell it filled differs from all that cell's peers. |
| Sudoku.TryDigitsSound | sudoku_solver.py:62-69 | Trying the digits from a given one on keeps the same guarantee for whatever board the loop returns. |
| Sudoku.SolvedPuzzleIsSolution | sudoku_solver.py:4 | When the clues are in 0..9 and no two peer clues agree, a successful search returns a solved Sudoku that keeps every clue. |
| Sudoku.SolveComplete | sudoku_solver.py:53-69 | If any solved Sudoku keeps the clues of the board, the search does not fail. |
| Sudoku.TryDigitsComplete | sudoku_solver.py:62-69 | The digit loop, started at or below the digit some solution puts in the cell, does not fail. |
| Sudoku.SolveSudoku | sudoku_solver.py:53-69 | Returns true exactly when `Solve` succeeds. On true the array holds `Solve`'s board, so it is full, keeps the clues, holds digits 1..9 where it was empty, and each filled cell differs from its peers. On false the array is exactly what it was on entry. |
| MapColoring.IndexOf | map_coloring.py:47 | Position of the first occurrence of a country in the country list, the order in which the search meets countries. |
| MapColoring.FirstUncolouredFrom | map_coloring.py:47-48 | Returns the first position at or after i whose country has no colour, with every country between coloured. None means every country from i on is coloured. |
| MapColoring.ColourShrinks | map_coloring.py:51-53 | Colouring an uncoloured listed country strictly shrinks the set of uncoloured countries, so the recursion terminates. |
| MapColoring.CardinalityOfCountries | map_coloring.py:43-44 | A subset of the listed countries with at least as many elements as the list is the whole set: a valid assignment whose size equals the list's length colours every country. |
| MapColoring.SearchSound | map_coloring.py:42-58 | From a valid assignment, a successful search returns an assignment with four properties. Its keys are exactly the listed countries. Its values are available shades. It keeps every entry it started with. Each newly coloured country differs from each listed neighbour coloured before it. |
| MapColoring.TryShadesSound | map_coloring.py:49-57 | The shade loop for the first uncoloured country keeps the same guarantee for whatever assignment it returns. |
| MapColoring.SearchStep | map_coloring.py:50-54 | Colouring the first uncoloured country with a shade that satisfies the constraints, then completing, gives an extension of the start that is consistent in colouring order. |
| MapColoring.SymmetricSearchIsProper | map_coloring.py:19-27 | With a symmetric neighbour table, a successful search from a proper partial colouring returns a colouring of the whole map in which no two neighbours share a shade. |
| MapColoring.SearchComplete | map_coloring.py:41-58 | If some colouring of the whole map extends the current assignment, the search does not fail. A false result therefore means no such extension exists. |
| MapColoring.TryShadesComplete | map_coloring.py:49-57 | The shade loop, started at or before the shade a full colouring gives the country, does not fail. |
| MapColoring.FallThroughUnreachable | map_coloring.py:43-58 | With distinct countries and a valid assignment, once every listed country is coloured the assignment has as many entries as the list. The length check at line 43 then returns first, so the final `return True` is never reached. |
| MapColoring.TryShadesReachesFit | map_coloring.py:49-54 | If some shade at or after position i fits the country, the shade loop from i succeeds. A shade fits when it satisfies the constraints and the rest of the map can then be coloured. |
| MapColoring.TryShadesFirstFit | map_coloring.py:49-54 | When the shade loop from position i succeeds, it returns the completion of the first fitting shade at or after i. |
| MapColoring.SearchAtFirstUncoloured | map_coloring.py:43-49 | While a listed country is uncoloured, a valid assignment is shorter than the list, so the search goes on to the shade loop for the first uncoloured country. |
| MapColoring.SearchFirstFit | map_coloring.py:47-54 | The search succeeds if and only if some shade fits the first uncoloured country. It then gives that country the first fitting shade in shade order, and returns that shade's completion. |
| MapColoring.HornOfAfricaSymmetric | map_coloring.py:19-27 | Every listed country of the instance has a neighbour list, and the table records every adjacency in both directions. |
| MapColoring.HornOfAfricaWitnessApart | map_coloring.py:19-27 | In the colouring Ethiopia Red; Kenya, Sudan, Djibouti Green; Somalia, Eritrea, South Sudan Blue, each country's colour differs from each listed neighbour's. |
| MapColoring.HornOfAfricaWitnessIsColouring | map_coloring.py:10-27 | That colouring is a colouring of the whole instance from the four shades. |
| MapColoring.HornOfAfricaColoured | map_coloring.py:62-65 | On the instance the search from no colours succeeds, and its result is a proper colouring of the whole map. Ethiopia, which borders all six other countries, gets a shade no other country holds. |
| MapColoring.FiveNeighboursUncolourable | map_coloring.py:42-58 | With at most four shades, five listed countries that all neighbour one another make the search from no colours fail. |
| MapColoring.ColorSolver.constructor | map_coloring.py:10-30 | The solver starts with the given neighbour table, countries and shades, and an empty assignment dictionary. |
| MapColoring.ColorSolver.SatisfiesConstraints | map_coloring.py:34-38 | The loop over the neighbour list returns true exactly when no neighbour in the dictionary holds the chosen shade. |
| MapColoring.ColorSolver.AssignColors | map_coloring.py:42-58 | Returns true exactly when `Search` succeeds from the dictionary on entry. On true the dictionary is `Search`'s result: total, an extension of the entry state, and consistent in colouring order. On false the dictionary is exactly what it was on entry. Keys stay among the countries and values among the shades throughout. |

## Left out

- `print_board`, and the top-level code that runs each solver and prints the outcome, are console output and are not modelled.
- The Sudoku board of the source (a list of nine lists) is an `array2<int>`. The model therefore does not capture two rows that alias the same list.
- The Sudoku instance grid is not modelled. Proving that the search solves it would mean evaluating the exponential search in the verifier. The Horn of Africa instance is covered through completeness and a known colouring instead.
- `satisfies_constraints` raises `KeyError` for a country without a neighbour list. The model requires every listed country to have one (`Problem.WellFormed`), the precondition under which the source never raises.
- The countries need not be distinct for any of the properties except `FallThroughUnreachable`. With duplicates the length check at line 43 can fail on a fully coloured map, and the final `return True` is then reached; `Search` models that path.
- There is no search shared by the two problems; each solver is modelled on its own.
- HornOfAfricaColoured: states that the search on the instance succeeds with a proper colouring, not which colouring it returns. Tracing the search through all seven countries with string keys costs the verifier far more than the resource limit allows.
- Python integers and strings need no width or encoding modelling here: boards hold 0..9 and countries and shades are compared only for equality.
