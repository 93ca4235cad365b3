# Multi-label genre encoder, modelled in Dafny

This project models the label side of the movie-genre training pipeline in
`ml-pipeline/data_utils.py`:

- **`TMDB_GENRES`**: the fixed table from the movie provider's genre ids to
  genre names (`GenreCatalog.TmdbGenres`, a map display with the same 19 entries).
- **`ALL_GENRES`**: `sorted(set(TMDB_GENRES.values()))`, the vocabulary whose
  positions are the columns of the label matrix. `GenreCatalog.AllGenres` holds
  the 19 names written out, and `AllGenresIsSortedTableNames` proves that this
  list is `sorted(set(...))` of the table's names. Python's `<` on `str` is
  modelled as code-point lexicographic order (`StringOrder.Less`), and `sorted`
  of a set as least-element-first selection (`StringOrder.SortedOfSet`).
  `StringOrder.AscendingUnique` shows that the result does not depend on the
  sorting algorithm.
- **`build_multi_label_matrix`**: an imperative method. It allocates an
  all-zero `array2<int>` of shape `(len(df), len(ALL_GENRES))`. Then, row by row
  and id by id, it sets `Y[i, j] := 1` for every id the table knows, and skips
  the unknown ids. It is proved against the specification function
  `LabelMatrix.Row(ids)`, which folds the same per-id step (`Mark`) over the
  list. `Row` is then characterised cell by cell by the independent predicate
  `Hot`: some known id of the list names the column's genre.
- **The pairing in `make_train_test`**: the overview texts `X` and the matrix `Y`
  come from the same frame, so text k goes with row k (`PairTextsWithLabels`).

A data frame is modelled as `Frame(index, rows)`. The loop of the source uses the
`iterrows` label as the row number. So the builder requires the default labels
0..n-1 (`DefaultIndex`) and writes to row `df.index[p]`, as the source does. A
record's `genre_ids` is an `Option<seq<int>>`. `None` and `[]` both become the
empty list, as `row['genre_ids'] or []` does.

## Model

| member | source | states |
|---|---|---|
| `StringOrder.LessIrreflexive` | ml-pipeline/data_utils.py:29 | no name sorts strictly before itself under Python's string order |
| `StringOrder.LessAsymmetric` | ml-pipeline/data_utils.py:29 | if a < b then not b < a |
| `StringOrder.LessTransitive` | ml-pipeline/data_utils.py:29 | the string order used by `sorted` is transitive |
| `StringOrder.LessTotal` | ml-pipeline/data_utils.py:29 | any two different strings are ordered one way or the other |
| `StringOrder.MinExists` | ml-pipeline/data_utils.py:29 | every non-empty set of names has a least element, so `sorted` can always pick the next name |
| `StringOrder.SortedOfSet` | ml-pipeline/data_utils.py:29 | `sorted(set(...))` is strictly ascending (sorted, no duplicates), holds exactly the given names, and has one entry per distinct name |
| `StringOrder.AdjacentAscending` | ml-pipeline/data_utils.py:29 | a list whose neighbours are in order is strictly ascending throughout |
| `StringOrder.AscendingUnique` | ml-pipeline/data_utils.py:29 | two strictly ascending lists with the same names are equal, so the vocabulary is determined by the set of names alone |
| `GenreCatalog.Lookup` | ml-pipeline/data_utils.py:52 | `TMDB_GENRES.get(gid)` is a name exactly for ids in the table, and every name it returns is a column of `ALL_GENRES` (so `name_to_idx[name]` never fails) |
| `GenreCatalog.VocabularyInTable` | ml-pipeline/data_utils.py:7-29 | every name of `ALL_GENRES` is a value of the table |
| `GenreCatalog.TableInVocabulary` | ml-pipeline/data_utils.py:7-29 | every value of the table is a name of `ALL_GENRES` |
| `GenreCatalog.AllGenresAscending` | ml-pipeline/data_utils.py:29 | `ALL_GENRES` is strictly ascending in Python's string order ("TV Movie" before "Thriller"), so it has no duplicates |
| `GenreCatalog.VocabularyIsTableNames` | ml-pipeline/data_utils.py:7-29 | the set of names in `ALL_GENRES` is exactly the set of values of the table |
| `GenreCatalog.AllGenresIsSortedTableNames` | ml-pipeline/data_utils.py:7-29 | the 19-name vocabulary equals `sorted(set(TMDB_GENRES.values()))`, and the table has 19 distinct names |
| `GenreCatalog.CommonIdsKnown` | tests/test_data_utils.py:52-55 | ids 28, 12, 16, 35, 80 and 18 are in the table |
| `LabelMatrix.IdsOf` | ml-pipeline/data_utils.py:49 | None and an empty list both give no ids; a present list is used as it is |
| `LabelMatrix.NameToIdx` | ml-pipeline/data_utils.py:44 | `name_to_idx` has exactly the vocabulary's names as keys, and each maps to a position holding that name |
| `LabelMatrix.NameToIdxOfAscending` | ml-pipeline/data_utils.py:44 | over a vocabulary without duplicates, `name_to_idx[names[j]] == j` for every column j |
| `LabelMatrix.Mark` | ml-pipeline/data_utils.py:51-57 | handling one id keeps the row `len(ALL_GENRES)` wide |
| `LabelMatrix.Row` | ml-pipeline/data_utils.py:46-57 | every label row is `len(ALL_GENRES)` wide |
| `LabelMatrix.RowStep` | ml-pipeline/data_utils.py:51-57 | the row after k+1 ids is the row after k ids with id k applied |
| `LabelMatrix.RowCell` | ml-pipeline/data_utils.py:51-57 | cell j is 1 if and only if some known id of the list maps to `ALL_GENRES[j]`, and 0 if and only if none does |
| `LabelMatrix.KnownIds` | ml-pipeline/data_utils.py:52-54 | the ids kept by the lookup are exactly the list's ids found in the table, and there are no more of them than ids |
| `LabelMatrix.OnesSetOne` | ml-pipeline/data_utils.py:57 | one assignment `Y[i, j] = 1` adds at most one 1 to a row |
| `LabelMatrix.OnesZeros` | ml-pipeline/data_utils.py:46 | a zero-initialised row has no 1s |
| `LabelMatrix.RowOnesBound` | ml-pipeline/data_utils.py:46-57 | a row holds no more 1s than its record has known ids |
| `LabelMatrix.UnknownIdsIgnored` | ml-pipeline/data_utils.py:52-54 | removing the unknown ids from a list leaves its row unchanged |
| `LabelMatrix.NoKnownIdsZeroRow` | ml-pipeline/data_utils.py:49-54 | a record whose `genre_ids` is None, empty, or only unknown ids gets an all-zero row |
| `LabelMatrix.RowDependsOnIdSet` | ml-pipeline/data_utils.py:51-57 | two lists with the same ids give the same row, so reordering or repeating ids changes nothing |
| `LabelMatrix.FillRow` | ml-pipeline/data_utils.py:51-57 | the inner loop turns the zero row i into `Row(ids)` and leaves every other row untouched |
| `LabelMatrix.EncodedCells` | tests/test_data_utils.py:47-49 | every cell of an encoded matrix is 0 or 1, and is 1 exactly when a known id of its record names its column |
| `LabelMatrix.BuildMultiLabelMatrix` | ml-pipeline/data_utils.py:42-59 | a new matrix with one row per record and `len(ALL_GENRES)` columns, row i equal to `Row` of record i's ids, every cell 0 or 1 with the iff above, and the returned name list is `ALL_GENRES` |
| `LabelMatrix.PairTextsWithLabels` | ml-pipeline/data_utils.py:62-64 | `len(X)` equals the number of matrix rows, `X[k]` is record k's overview, and matrix row k is record k's label row |

## Left out

- `load_raw_movies` (CSV reading and `ast.literal_eval` of the `genre_ids` column): library parsing. `genre_ids` arrives here already as a list or `None`.
- `train_test_split` in `make_train_test`: a seeded random library call. Only the pairing of `X` and `Y` before it is modelled, and `PairTextsWithLabels` returns the unsplit pair.
- `PairTextsWithLabels`: `astype(str)` on the overview column is not modelled. Overviews are already strings; a missing overview that pandas would turn into the text "nan" is not represented.
- `BuildMultiLabelMatrix`: only frames with the default row labels 0..n-1 are modelled. With other labels the source raises an index error or writes rows out of place, and that behaviour is not modelled.
- `LabelMatrix.IdsOf`: a NaN float in `genre_ids` is truthy, so `or []` keeps it and the loop then fails on it. A value like that is not modelled, and neither are ids that are not integers (for example `28.0`, which Python's dictionary lookup treats as `28`).
- `RowOnesBound`: states only the bound the source promises (ones ≤ known ids, counted with repetition). It does not state the exact count, which is the number of distinct genre names among the known ids.
- The matrix cells are unbounded integers. The source stores numpy `int`, but only 0 and 1 are ever stored, so the width does not matter.
- Not part of this model: model construction and training (`ml_pipeline/model_genre.py`, `ml-pipeline/model_genre.py`, both `train_genre.py` variants, with their floating-point sigmoid, 0.25 threshold, metrics and file writes), the HTTP fetch script `scripts/fetch_tmdb_data.py`, `ml_pipeline/config.py`, and the registry upload `scripts/upload_to_hub.py`. The upload script publishes unconditionally. There is no compare-and-publish step in the code, so none is modelled.
