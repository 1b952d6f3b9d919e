# NWPA_Cpp score grid, modelled in Dafny

This project models the algorithmic part of `main.cpp`. That part is the first step of a Needleman–Wunsch global aligner with a linear gap penalty:

- **`map_bases`** is a fixed table. It maps each IUPAC nucleotide code to the ascending list of concrete bases (`A`, `C`, `G`, `T`) that the code stands for. A symbol that is not in the table makes `std::map::at` throw.
- **`get_score`** scores one pair of symbols:
  - A gap marker (`-` or `.`) on either side gives `mismatch`, and the table is not consulted.
  - Otherwise both symbols are looked up, and the two sorted lists are intersected with `std::set_intersection`.
  - The result is `match` if the intersection is non-empty and `mismatch` if it is empty.
- **`generate_grid`** builds the dynamic-programming score grid as a `vector<vector<int>>`, row by row and cell by cell.

Modules, one per component:

| file | module | models |
|---|---|---|
| `wrappers.dfy` | `Wrappers` | `Option`, which stands for a lookup that throws |
| `bases.dfy` | `Bases` | `map_bases` |
| `scoring.dfy` | `Scoring` | `get_score` and `std::set_intersection` |
| `alignment.dfy` | `Alignment` | A reference definition of global alignments and their scores, independent of any grid. An alignment is a sequence of moves, and its score sums what each move contributes. |
| `grid.dfy` | `Grid` | `generate_grid`, as a method with loops over `seq<seq<int>>` |

How the model follows the code where the code is unusual:

- **The table lists `'W'` twice.** The first entry is `{A,T}` and the last is `{A,C,G}`; the last was evidently meant to be `'V'`.
  - In practice the map's initializer-list constructor keeps the first of two equal keys. The C++ standard leaves open which of the two it keeps, and the common standard libraries keep the first. So `MapBases('W')` is `[A,T]` and `'V'` is absent.
  - `MapBases` lists the entries in source order as an if-chain. The earlier `'W'` branch shadows the later one.
  - `U`, lower-case letters and the gap markers are not keys either.
- **A throwing lookup becomes `None`.** `get_score` tests for gaps first. So a gap marker paired with any character is scored `mismatch`, even a character that is not in the table.
- **The grid does not have the textbook (m+1)×(n+1) shape.**
  - Row 0 has `|left|` entries, `c*gap`.
  - Each of rows `1 .. |right|-1` starts with `k*gap`.
  - The fill loop appends to row `i` one cell per `j` in `1 .. |right|-1`, scoring `left[i]` against `right[j]`.
  - So the first symbol of each sequence is never scored. For `i < |left|` and `j < |right|`, cell `(i, j)` is the best score of aligning `left[1..i+1]` with `right[1..j+1]`.
  - Row 0 is sized by `|left|` and the number of rows by `|right|`. So when one sequence has at most one symbol, the grid also holds cells beyond the other sequence. Those cells align nothing: each lies on row 0 or column 0 and holds `(i + j) * gap`.
  - The model keeps this shape and does not build the idealised grid.
- **The fill loop stays inside the vectors only in some cases.** It does so exactly when `|left| == |right|` or when either length is at most 1.
  - Outside those lengths the loop reads past the end of a `std::vector`, which has no defined outcome.
  - `GenerateGrid` therefore requires `ShapeCompatible`. `AccessesInBoundsIff` proves that `ShapeCompatible` is exactly the in-range condition.
  - A `get_score` call in the fill loop that throws makes `GenerateGrid` return `None`.

## Model

| member | source | states |
|---|---|---|
| `Bases.TableShape` | main.cpp:10-30 | The lookup succeeds exactly for the 14 keys the table ends up with. Every value is a non-empty, strictly ascending list of bases from {A,C,G,T}, so `std::set_intersection`'s sortedness requirement holds. A concrete base maps to itself. |
| `Bases.DuplicateKeyKeepsFirst` | main.cpp:11-27 | The duplicated key keeps its first value: `W` maps to `[A,T]`, and `V` has no entry. |
| `Bases.AmbiguityEntries` | main.cpp:16-24 | The entries for `N` (all four bases), `R`, `Y` and `D`. |
| `Bases.AbsentSymbols` | main.cpp:11-29 | `U`, `-`, `.` and every lower-case letter are not keys, so `at` fails for them. |
| `Scoring.SetIntersectionIsIntersection` | main.cpp:43-45 | For two strictly ascending inputs, the merge returns a strictly ascending list that holds exactly the elements common to both inputs. |
| `Scoring.GetScore` | main.cpp:36-47 | Fails exactly when neither symbol is a gap and one of them is not a key. A gap on either side gives `mismatch`, even gap against gap or gap against a non-key, without a lookup. The result is always one of the two weights. |
| `Scoring.ScoreMeansSharedBase` | main.cpp:40-46 | Two keys give `match` exactly when their base lists share a base, and `mismatch` otherwise. |
| `Scoring.ScoreSymmetric` | main.cpp:37-46 | Swapping the two symbols changes nothing, including which pairs fail. |
| `Scoring.ScoreMatchesSelfAndN` | main.cpp:40-46 | Every key scores `match` against itself, and `N` scores `match` against every key. |
| `Scoring.ScoreExamples` | main.cpp:91 | With match 1 and mismatch 0: `A`/`C` gives 0, `A`/`N` gives 1, `A`/`D` gives 1, `A`/`Y` gives 0, `R`/`Y` gives 0, `-`/`-` gives 0 and `.`/`x` gives 0. `A`/`V` fails. |
| `Grid.Max3` | main.cpp:76 | `std::max` of three candidates is at least each of them and equals one of them. |
| `Grid.AccessesInBoundsIff` | main.cpp:58-77 | Every index the fill loop uses (`grid[i]`, `grid[i-1][j-1]`, `grid[i-1][j]`, `grid[i][j-1]`) is in range exactly when `|left| == |right|` or either length is at most 1. Row lengths are tracked as the loop changes them. |
| `Grid.AppendKeepsRecurrence` | main.cpp:76 | Appending a cell to a row changes no cell already there, so cells already filled keep satisfying the recurrence. |
| `Grid.FillStep` | main.cpp:71-77 | Before the fill loop writes cell `(i, j)`, the rows it reads are long enough and row `i` holds exactly `j` cells. Appending the new cell keeps every filled cell on the recurrence and advances the row-length bookkeeping by one. |
| `Grid.NextRow` | main.cpp:71-78 | Finishing row `i` leaves the grid ready for row `i+1`. |
| `Grid.FilledIsScoreGrid` | main.cpp:52-81 | Once every row is filled, every pair the loop scored was scorable and the grid meets the shape, boundary and recurrence that `GenerateGrid` promises. |
| `Grid.GenerateGrid` | main.cpp:52-81 | Returns a grid exactly when every pair the fill loop scores can be scored. The grid has `max(1,|right|)` rows, and row 0 has `|left|` entries equal to `c*gap`. Row `k ≥ 1` starts with `k*gap` and has 1 cell if `|left| ≤ 1`, otherwise `|right|` cells. Every interior cell is the max of diagonal + `get_score(left[i], right[j])`, up + gap, and left + gap. Equal lengths `n ≥ 1` give an n×n grid. If either length is ≤ 1, no interior cell is written. |
| `Grid.CellStep` | main.cpp:71-77 | The origin holds 0. Every other cell is at least each candidate that applies to it and equals one of them, on the boundary row and column as well as inside. |
| `Grid.ScoredPrefixesScorable` | main.cpp:71-73 | The symbols that cell `(i, j)` aligns, `left[1..i+1]` and `right[1..j+1]`, are exactly the pairs the fill loop scores, shifted by one. |
| `Grid.CellBoundsEveryAlignment` | main.cpp:66-77 | No global alignment of `left[1..i+1]` with `right[1..j+1]` scores more than cell `(i, j)`. |
| `Alignment.AttainedByDiagonal` | main.cpp:73-76 | A score attained without the last symbols of both sequences, plus their pair score, is attained by the full sequences. |
| `Alignment.AttainedByDeletion` | main.cpp:73-76 | A score attained without the last symbol of the first sequence, plus one gap, is attained. |
| `Alignment.AttainedByInsertion` | main.cpp:73-76 | A score attained without the last symbol of the second sequence, plus one gap, is attained. |
| `Grid.CellIsAttained` | main.cpp:66-77 | Some global alignment of `left[1..i+1]` with `right[1..j+1]` scores exactly cell `(i, j)`. So the cell is the optimal score, and `left[0]` and `right[0]` take no part in it. |
| `Grid.RowsWithinLeft` | main.cpp:66-77 | When `left` has at least two symbols, every row past row 0 is filled to `|right|` cells, and its index is a position of `left`. |
| `Grid.CellsBeyondSequences` | main.cpp:61-69 | A cell beyond either sequence (`i ≥ |left|` or `j ≥ |right|`) lies on row 0 or column 0 and holds `(i + j) * gap`: it aligns nothing. |
| `Grid.CellsAgree` | main.cpp:58-77 | Two grids that both meet `GenerateGrid`'s postcondition agree on every cell. |
| `Grid.ScoreGridUnique` | main.cpp:52-81 | `GenerateGrid`'s postcondition determines the grid completely. |

## Left out

- `main` (main.cpp:83-93) is not modelled. It is a driver that hardcodes two sequences and prints the grid with `std::cout`.
- Traceback and alignment reconstruction are not modelled, because the source has none. The `Alignment` module defines alignments only to state what a grid cell means.
- The exception type (`std::out_of_range`) is not modelled. A failing lookup is `None`, which propagates out of `GetScore` and `GenerateGrid`.
- `GenerateGrid`: lengths for which the fill loop would index past the end of a vector (`|left| != |right|` with both lengths ≥ 2) are excluded by a precondition, because C++ gives such reads no defined outcome.
  - Some inputs with these lengths do have a defined outcome: a `get_score` call throws before the first out-of-range read. One example is `left = "AxA"`, `right = "AA"`, where step `(1, 1)` scores `'x'` and throws before step `(2, 1)` would index the missing `grid[2]`.
  - The precondition excludes these inputs too. So the model does not promise the `None` result that such an input would give.
- `GenerateGrid`: the default arguments `match = 1`, `mismatch = 0` and `gap = -1` are not modelled. `GenerateGrid` takes all three weights explicitly.
- `GenerateGrid`: 32-bit `int` overflow of `i * gap` and of the cell sums is not modelled. Scores are unbounded integers.
- `reserve`, `back_inserter` and vector reallocation are not modelled. They do not change any value.
- The textbook (m+1)×(n+1) grid, `U` read as `T`, and `V` as `{A,C,G}` are not modelled, because the code does none of them. The model follows the code.
