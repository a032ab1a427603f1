# Normalization Engine, modelled in Dafny

This project models the analysis core of the Normalization Engine back end. The back end
reads an Excel workbook and turns each sheet into a table: cleaned column names, SQL types,
nullability, a uniqueness flag and the first 100 rows. It then detects functional
dependencies (FDs), candidate keys and multi-valued dependencies (MVDs) from the rows. It
classifies the table from 1NF to 5NF, and runs one normalization step per level, each step
recording violations and split-off tables.

One Dafny module stands for each source file:

| module | file | form |
|---|---|---|
| `TableModel` (table_model.dfy) | backend/app/models/table_model.py | datatypes; `to_sql` and `get_column` are methods with loops proved against functions |
| `Analysis` (analysis_result.dfy) | backend/app/models/analysis_result.py | datatypes; `get_all_violations` is a loop |
| `Frames` (frames.dfy) | the pandas operations both detectors use | functions: a row is a list of (column, value) cells in dictionary order, a missing key reads as NaN |
| `AiDetector` (ai_detector.dfy) | backend/app/services/ai_dependency_detector.py | every loop a method proved equal to a specification function |
| `ImprovedDetector` (improved_detector.dfy) | backend/app/services/improved_ai_dependency_detector.py | the same; the final sort is an in-place insertion sort on an array |
| `Dependencies` (dependencies.dfy) | `_remove_redundant_fds` and the superkey filter, shared by both detectors | methods proved against functions |
| `Engine` (normalization_engine.dfy) | backend/app/services/normalization_engine.py | a class `NormalizationEngine` with the fields `originalTable` and `currentTables`, whose step methods replace the table list |
| `ExcelParser` (excel_parser.dfy) | backend/app/services/excel_parser.py | functions for the name cleaning and column analysis; `parse` and `_dataframe_to_table` are loops |
| `FileHandler` (file_handler.dfy) | backend/app/utils/file_handler.py | functions |
| `Strings`, `Seqs` | helpers | Python string order, `lower()`, `str(n)`, first-occurrence order, `itertools.combinations` |

Behaviour of the code that the proofs make explicit:

- `analyze` guards each step with `current_nf.value < target.value`, which compares the
  value strings ("1NF" < "2NF" < ... < "5NF" < "BCNF" < "Unnormalized"). As a result:
  - an unnormalized table gets no step;
  - a 1NF table gets steps to 2NF, 3NF and BCNF only;
  - a 4NF or 5NF table gets one step, back to BCNF;
  - no result of `analyze` is ever "fully normalized" (`Engine.ClimbTargets`,
    `Engine.AnalyzeNeverFullyNormalized`).
- `_analyze_column` flags a column unique when `len(series.unique()) == len(series.dropna())`,
  and `unique()` counts NaN as a value. So [1, 2, NaN] is not flagged, while [1, 1, NaN]
  is (`ExcelParser.UniqueFlagNullQuirk`).
- `_find_repeating_groups` only groups names that lose a suffix when stripped. So
  "phone" with "phone1" fails 1NF but is reported as no group (`Engine.PlainAndSuffixedNoGroup`).
- The base detector emits `key ->> {a}` once per later partner column, so the same MVD can
  appear several times (`AiDetector.MvdRepeats`).
- The base detector joins rendered values with '_', so different tuples can share a key
  (`Frames.JoinCollision`).
- Renaming the dependencies after detection maps each column name to itself, so it changes
  nothing (`AiDetector.RenamedUnchanged`).

Where the project's written design and its code disagree, the model follows the code:

- The classifier is meant to be a strict climb, 1NF up to 5NF. The code steps as the
  value strings order the levels (see above).
- BCNF and 5NF steps are meant to report violations. The code always reports none.
- The 3NF step is meant to replace decomposed tables. The code appends the split-off
  tables after the current ones.
- Composite keys in the base detector are meant to be null-free. The code checks only
  that the joined keys are distinct.
- The base detector's confidence is meant to be a weighted score. The code uses the
  count form: distinct determinant keys over distinct combined keys, scaled by the share
  of violating determinant values, capped at 1.
- The base detector's results are meant to be sorted. The code does not sort them; only
  the improved detector sorts by confidence.

Real numbers are exact `real`s. Python's unordered sets are listed in sorted order wherever
their iteration order shows (`list(s)[0]`, `', '.join(sorted(...))`).

## Model

| member | source | states |
|---|---|---|
| `TableModel.LengthPart` | backend/app/models/table_model.py:32-33 | the "(n)" part is present exactly for a VARCHAR column whose max_length is set and non-zero, and it is parenthesised |
| `TableModel.ToSql` | backend/app/models/table_model.py:29-38 | the definition is the backticked name and type, then the length part, " NOT NULL" when not nullable, " UNIQUE" when unique, in that order |
| `TableModel.ToSqlUniqueSuffix` | backend/app/models/table_model.py:36-37 | a column definition ends in " UNIQUE" exactly when the column is unique |
| `TableModel.FdAndMvdTextsDiffer` | backend/app/models/table_model.py:47-62 | an FD and an MVD over the same sets never print the same text: the arrows differ |
| `TableModel.FdText` | backend/app/models/table_model.py:47-50 | definition, no contract of its own: the sorted determinant names joined with ", " in braces, " -> ", the dependent names likewise; `TableModel.FdAndMvdTextFormat` proves the concrete text |
| `TableModel.MvdText` | backend/app/models/table_model.py:59-62 | definition, no contract of its own: as `FdText` with the arrow " ->> "; `TableModel.FdAndMvdTextFormat` proves the concrete text |
| `TableModel.FdAndMvdTextFormat` | backend/app/models/table_model.py:47-62 | for a < b, the FD {a, b} -> {d} prints "{a, b} -> {d}" whichever order the set was built in, and the MVD prints "{a, b} ->> {d}" |
| `TableModel.NameSetOfOne` | backend/app/models/table_model.py:48-49 | `'{' + ', '.join(sorted({a})) + '}'` is "{a}" |
| `TableModel.NameSetOfTwo` | backend/app/models/table_model.py:48-49 | a two-name set prints as the smaller name, ", ", the larger name, in braces |
| `TableModel.NewTable` | backend/app/models/table_model.py:64-74 | a new table has the given name, columns and key, and empty candidate keys, foreign keys, FDs, MVDs and rows |
| `TableModel.ColumnNamed` | backend/app/models/table_model.py:76-81 | the result is the first column carrying the name, and None exactly when no column carries it |
| `TableModel.GetColumn` | backend/app/models/table_model.py:76-81 | the linear search returns the first column with the name, a member of the table, or None |
| `TableModel.ColumnNamedIffListed` | backend/app/models/table_model.py:76-85 | `get_column` finds a column exactly when the name is among `get_column_names()` |
| `Analysis.ValueOrder` | backend/app/models/analysis_result.py:9-17 | the seven value strings are distinct, and Python's `<` on them is the order 1NF, 2NF, 3NF, 4NF, 5NF, BCNF, Unnormalized |
| `Analysis.ValueOrderDiffersFromDeclaration` | backend/app/models/analysis_result.py:9-17 | that order is not the declaration order: BCNF sorts after 4NF and 5NF, Unnormalized after every other level |
| `Analysis.NewAnalysisResult` | backend/app/models/analysis_result.py:38-46 | a new result targets 5NF and has no steps, no final tables and no identifier |
| `Analysis.AllViolationsLength` | backend/app/models/analysis_result.py:48-53 | the collected violations number the sum of the steps' violation counts |
| `Analysis.AllViolationsAppend` | backend/app/models/analysis_result.py:48-53 | collecting over two runs of steps is collecting over each and concatenating |
| `Analysis.GetAllViolations` | backend/app/models/analysis_result.py:48-53 | the loop returns every step's violations, step after step, as many as the steps hold together |
| `Analysis.IsFullyNormalized` | backend/app/models/analysis_result.py:55-60 | definition, no contract of its own: false without steps, otherwise whether the last step reached the target; `Engine.AnalyzeNeverFullyNormalized` proves it never holds of an `analyze` result |
| `Frames.FrameColumns` | backend/app/services/ai_dependency_detector.py:29 | `list(pd.DataFrame(rows).columns)` lists each key once |
| `Frames.JoinedKeyOfTuple` | backend/app/services/ai_dependency_detector.py:121-123 | rows that agree on the columns get the same joined key |
| `Frames.JoinCollision` | backend/app/services/ai_dependency_detector.py:121 | different tuples can share a joined key: ("a_b", "c") and ("a", "b_c") both give "a_b_c" |
| `Frames.KeysAtMostTuples` | backend/app/services/ai_dependency_detector.py:126-127 | there are never more distinct joined keys than distinct tuples |
| `Frames.UniqueKeysUniqueTuples` | backend/app/services/ai_dependency_detector.py:163-164 | a combination whose joined keys are all distinct has a distinct tuple in every row |
| `Frames.CombinationShape` | backend/app/services/ai_dependency_detector.py:162 | every combination of size k has k elements drawn from the list, without repeats when the list has none |
| `Frames.ThreePairs` | backend/app/services/ai_dependency_detector.py:207 | `combinations([x, y, z], 2)` is [x, y], [x, z], [y, z], in that order |
| `Frames.PairPositions` | backend/app/services/ai_dependency_detector.py:94 | a pair from `combinations(s, 2)` is two entries of s, the first strictly before the second |
| `AiDetector.CountViolations` | backend/app/services/ai_dependency_detector.py:136-140 | the loop counts the determinant values that show more than one distinct dependent tuple |
| `AiDetector.CalculateFdConfidence` | backend/app/services/ai_dependency_detector.py:114-148 | the confidence is the count form of `_calculate_fd_confidence`: 0.0 without determinant values, otherwise the key ratio scaled by the violation share and capped at 1 |
| `AiDetector.ScaleConfidence` | backend/app/services/ai_dependency_detector.py:133-145 | the ratio, the penalty and the cap are applied in the source's order |
| `AiDetector.FdConfidenceBounds` | backend/app/services/ai_dependency_detector.py:126-145 | every confidence lies in [0, 1], and an empty frame gets 0.0 |
| `AiDetector.FdConfidence` | backend/app/services/ai_dependency_detector.py:114-145 | definition, no contract of its own: 0.0 without distinct determinant keys, otherwise `Scaled` of the distinct determinant keys, the distinct combined keys and the violations; `AiDetector.FdConfidenceBounds` and `AiDetector.FdConfidenceExact` prove its bounds and exact case |
| `AiDetector.ScaledBounds` | backend/app/services/ai_dependency_detector.py:133-145 | the scaled ratio lies in [0, 1], and is exactly 1.0 with no violations and no more combined than determinant keys |
| `AiDetector.TuplesFixDependentKey` | backend/app/services/ai_dependency_detector.py:137-140 | when no determinant value shows two dependent tuples, rows with equal determinant keys have equal dependent keys |
| `AiDetector.CombinedAtMostDeterminants` | backend/app/services/ai_dependency_detector.py:126-127 | when the determinant key fixes the dependent key, there are no more combined keys than determinant keys |
| `AiDetector.NoViolations` | backend/app/services/ai_dependency_detector.py:136-140 | without a determinant value showing two dependent tuples, no violation is counted |
| `AiDetector.FdConfidenceExact` | backend/app/services/ai_dependency_detector.py:114-145 | on a non-empty frame where every determinant value has one dependent tuple, the confidence is exactly 1.0 |
| `AiDetector.ScanSingle` | backend/app/services/ai_dependency_detector.py:79-91 | the inner loop records `{det} -> {dep}` for each other column whose confidence reaches 0.85, in column order |
| `AiDetector.ScanPair` | backend/app/services/ai_dependency_detector.py:95-107 | the inner loop records `pair -> {dep}` for each column outside the pair whose confidence reaches 0.85 |
| `AiDetector.ScanAllSingles` | backend/app/services/ai_dependency_detector.py:78-91 | the outer loop collects the single-column FDs, determinant after determinant |
| `AiDetector.ScanAllPairs` | backend/app/services/ai_dependency_detector.py:94-107 | the outer loop collects the pair FDs, pair after pair in `combinations` order |
| `AiDetector.DetectFunctionalDependencies` | backend/app/services/ai_dependency_detector.py:73-112 | single columns, then pairs, then `_remove_redundant_fds`, exactly as `DetectedFds` defines them |
| `AiDetector.DetectedFds` | backend/app/services/ai_dependency_detector.py:73-112 | definition, no contract of its own: `KeepStrongest` of the single-column FDs followed by the pair FDs; `AiDetector.DetectedFdsShape` proves its shape |
| `AiDetector.SingleFdsShape` | backend/app/services/ai_dependency_detector.py:78-91 | every single-column FD has one determinant column, one other dependent column and a confidence in [0.85, 1] |
| `AiDetector.PairFdsShape` | backend/app/services/ai_dependency_detector.py:94-107 | every pair FD has a two-column determinant, one dependent outside it and a confidence in [0.85, 1] |
| `AiDetector.DetectedFdsShape` | backend/app/services/ai_dependency_detector.py:73-112 | every detected FD has one or two determinant columns, one dependent outside them, a confidence in [0.85, 1], and no two share a (determinant, dependent) pair |
| `AiDetector.CheckDeterminesAll` | backend/app/services/ai_dependency_detector.py:166-173 | the loop answers whether every column outside the combination is determined with confidence 0.85 or more, leaving at the first that is not |
| `AiDetector.FindSingleKeys` | backend/app/services/ai_dependency_detector.py:155-157 | the loop keeps `{col}` for every null-free column whose values are all distinct, in column order |
| `AiDetector.FindKeysAmong` | backend/app/services/ai_dependency_detector.py:162-176 | the loop keeps the combinations with all-distinct joined keys that determine every other column |
| `AiDetector.SearchComposites` | backend/app/services/ai_dependency_detector.py:160-179 | sizes 2 to min(n, 4) are tried in turn, stopping at the first size with keys |
| `AiDetector.DetectCandidateKeys` | backend/app/services/ai_dependency_detector.py:150-192 | single keys, else the composite search, then the superkey filter, exactly as `DetectedKeys` defines them |
| `AiDetector.DetectedKeys` | backend/app/services/ai_dependency_detector.py:150-192 | definition, no contract of its own: the superkey filter of the single keys, or of the composite search when there are none; `AiDetector.DetectedKeysUnfiltered` proves the filter returns its input |
| `AiDetector.KeyCandidatesSameSize` | backend/app/services/ai_dependency_detector.py:154-179 | over distinct columns every key found has the same size |
| `AiDetector.DetectedKeysUnfiltered` | backend/app/services/ai_dependency_detector.py:181-192 | so the superkey filter returns its input unchanged, and no returned key strictly contains another |
| `AiDetector.NonKeyColumns` | backend/app/services/ai_dependency_detector.py:204 | the other columns are exactly the columns outside the key, without repeats when the columns have none |
| `AiDetector.NonKeyPairs` | backend/app/services/ai_dependency_detector.py:207 | every pair of non-key columns has two entries |
| `AiDetector.ScanMvdPairs` | backend/app/services/ai_dependency_detector.py:207-217 | the inner loop records `key ->> {a}` for each pair (a, b) whose score reaches 0.85 |
| `AiDetector.DetectMultiValuedDependencies` | backend/app/services/ai_dependency_detector.py:194-219 | the loop over the keys returns exactly `DetectedMvds`: nothing without keys, otherwise each key's pairs in turn |
| `AiDetector.DetectedMvds` | backend/app/services/ai_dependency_detector.py:194-219 | definition, no contract of its own: nothing without keys, otherwise the pair scan per key; `AiDetector.DetectedMvdsShape` proves its shape |
| `AiDetector.DetectedMvdsShape` | backend/app/services/ai_dependency_detector.py:194-219 | no MVD without keys; every MVD has a candidate key as determinant and one non-key column as dependent, never the last non-key column, and a score of 0.85 or more |
| `AiDetector.ExamplePairs` | backend/app/services/ai_dependency_detector.py:204-207 | with key {id} over id, a, b, c the pairs examined are (a, b), (a, c), (b, c) |
| `AiDetector.ThreePairMvds` | backend/app/services/ai_dependency_detector.py:207-217 | with every pair accepted, three non-key columns give `->> {x}` twice and `->> {y}` once |
| `AiDetector.MvdRepeats` | backend/app/services/ai_dependency_detector.py:194-219 | with key {id}, non-key columns a, b, c and every pair accepted, {id} ->> {a} is returned twice |
| `AiDetector.RenameIdentity` | backend/app/services/ai_dependency_detector.py:49-50 | renaming through a map that sends every name to itself changes no set |
| `AiDetector.BuildRenameMap` | backend/app/services/ai_dependency_detector.py:42-43 | the rename map has exactly the table's column names as keys, and sends each to itself |
| `AiDetector.RenameFds` | backend/app/services/ai_dependency_detector.py:46-53 | each FD is renamed side by side, keeping its confidence and its place |
| `AiDetector.RenameKeys` | backend/app/services/ai_dependency_detector.py:56-59 | each key is renamed in place |
| `AiDetector.RenameMvds` | backend/app/services/ai_dependency_detector.py:62-69 | each MVD is renamed side by side, keeping its confidence and its place |
| `AiDetector.RenamedUnchanged` | backend/app/services/ai_dependency_detector.py:42-69 | through the identity map the renamed FDs, keys and MVDs equal the detected ones |
| `AiDetector.DetectAllDependencies` | backend/app/services/ai_dependency_detector.py:17-71 | the gate, the three searches over the frame's own columns, and the renaming, exactly as `DetectedAll` defines them |
| `AiDetector.DetectedAll` | backend/app/services/ai_dependency_detector.py:17-71 | definition, no contract of its own: nothing below two rows, otherwise the FDs, MVDs and keys over the frame columns, renamed; `AiDetector.DetectedAllShape` proves its shape |
| `AiDetector.DetectedAllShape` | backend/app/services/ai_dependency_detector.py:17-71 | fewer than two rows give nothing; otherwise every FD has the search's shape, no key strictly contains another, and every MVD hangs off a returned key |
| `Dependencies.NonTrivial` | backend/app/services/ai_dependency_detector.py:264 | the filter keeps exactly the FDs whose dependent is not inside the determinant |
| `Dependencies.BestDefined` | backend/app/services/ai_dependency_detector.py:267-271 | the dictionary has an entry for a pair exactly when some scanned FD has it |
| `Dependencies.BestIsFirstStrongest` | backend/app/services/ai_dependency_detector.py:267-271 | the entry for a pair is the first of the strongest FDs with that pair: none is stronger and every earlier one is weaker |
| `Dependencies.KeepStrongestShape` | backend/app/services/ai_dependency_detector.py:261-273 | the kept FDs are non-trivial input FDs, one per pair, one for every pair a non-trivial input FD has, in order of the pair's first appearance |
| `Dependencies.KeepStrongest` | backend/app/services/ai_dependency_detector.py:261-273 | definition, no contract of its own: for each distinct pair of the non-trivial FDs, in first-appearance order, the best FD; `Dependencies.KeepStrongestShape` and `Dependencies.KeepStrongestIsStrongest` prove what it keeps |
| `Dependencies.KeepStrongestIsStrongest` | backend/app/services/ai_dependency_detector.py:267-273 | each kept FD is at least as strong as every input FD with its pair, and strictly stronger than every earlier one |
| `Dependencies.TracksKeepStrongest` | backend/app/services/ai_dependency_detector.py:267-273 | a dictionary that has scanned the filtered list yields exactly the kept FDs |
| `Dependencies.RemoveRedundantFds` | backend/app/services/ai_dependency_detector.py:261-273 | the comprehension and the dictionary loop return exactly `KeepStrongest(fds)` |
| `Dependencies.MinimalAmong` | backend/app/services/ai_dependency_detector.py:182-190 | the minimal keys are exactly the candidates that strictly contain no other key |
| `Dependencies.FilterMinimalKeys` | backend/app/services/ai_dependency_detector.py:181-192 | the two nested loops return the minimal keys, or all keys when none is minimal |
| `Dependencies.MinimalKeys` | backend/app/services/ai_dependency_detector.py:181-192 | definition, no contract of its own: the keys strictly containing no other key, or every key when none is minimal; `Dependencies.MinimalKeysSound` and `Dependencies.MinimalKeysSameSize` prove its properties |
| `Dependencies.SmallestKey` | backend/app/services/ai_dependency_detector.py:181-192 | every non-empty key list has a key of least size |
| `Dependencies.MinimalKeysSound` | backend/app/services/ai_dependency_detector.py:181-192 | the filter returns keys of the input, returns some exactly when given some, and no returned key strictly contains another |
| `Dependencies.MinimalKeysSameSize` | backend/app/services/ai_dependency_detector.py:181-192 | keys of one size pass the filter unchanged |
| `Dependencies.MinimalAmongAll` | backend/app/services/ai_dependency_detector.py:182-190 | candidates that contain no other key are all kept |
| `ImprovedDetector.Round3` | backend/app/services/improved_ai_dependency_detector.py:66 | `round(x, 3)` lies within 0.0005 of x |
| `ImprovedDetector.Round3Accepted` | backend/app/services/improved_ai_dependency_detector.py:62-67 | a confidence in [0.90, 1] stays in [0.90, 1] once rounded |
| `ImprovedDetector.CleanRows` | backend/app/services/improved_ai_dependency_detector.py:104-106 | the mask keeps exactly the rows with a value in every column concerned, in order |
| `ImprovedDetector.Confidence` | backend/app/services/improved_ai_dependency_detector.py:95-172 | the confidence never exceeds 1 |
| `ImprovedDetector.ConfidenceCases` | backend/app/services/improved_ai_dependency_detector.py:104-168 | the confidence is 0.0 when no row is null-free in the columns, and otherwise the weighted score of the clean rows capped at 1 |
| `ImprovedDetector.CalculateConfidence` | backend/app/services/improved_ai_dependency_detector.py:95-172 | the mask then the capped score, equal to `Confidence` and at most 1 |
| `ImprovedDetector.ColumnPairs` | backend/app/services/improved_ai_dependency_detector.py:71 | every column pair has two entries |
| `ImprovedDetector.ScanSingle` | backend/app/services/improved_ai_dependency_detector.py:56-67 | the inner loop records `{det} -> {dep}` for each other column reaching 0.90, with the rounded confidence |
| `ImprovedDetector.ScanAllSingles` | backend/app/services/improved_ai_dependency_detector.py:51-67 | the outer loop skips determinants whose values are all distinct |
| `ImprovedDetector.ScanPair` | backend/app/services/improved_ai_dependency_detector.py:77-88 | the inner loop records `pair -> {dep}` for each column outside the pair reaching 0.90 |
| `ImprovedDetector.ScanGatedPair` | backend/app/services/improved_ai_dependency_detector.py:72-88 | a pair whose joined key has more than 0.8 n distinct values yields nothing |
| `ImprovedDetector.ScanAllPairs` | backend/app/services/improved_ai_dependency_detector.py:71-88 | the loop collects every pair's FDs in `combinations` order |
| `ImprovedDetector.SingleFdsExact` | backend/app/services/improved_ai_dependency_detector.py:51-67 | an FD is recorded in the single-column phase exactly when its determinant is not all-distinct, the dependent is another column and the confidence reaches 0.90 |
| `ImprovedDetector.PairFdsExact` | backend/app/services/improved_ai_dependency_detector.py:71-88 | an FD is recorded in the pair phase exactly when the pair is not mostly unique, the dependent lies outside it and the confidence reaches 0.90 |
| `ImprovedDetector.CandidateFdsWellFormed` | backend/app/services/improved_ai_dependency_detector.py:45-88 | every recorded FD has a non-empty determinant of table columns, one dependent outside it, and a confidence in [0.90, 1] |
| `ImprovedDetector.CandidateFds` | backend/app/services/improved_ai_dependency_detector.py:45-88 | definition, no contract of its own: the single-column FDs, then the pair FDs when fewer than half the column count were found; `ImprovedDetector.SingleFdsExact`, `ImprovedDetector.PairFdsExact` and `ImprovedDetector.CandidateFdsWellFormed` prove what it holds |
| `ImprovedDetector.SwapDown` | backend/app/services/improved_ai_dependency_detector.py:297 | one exchange of neighbours keeps the array a permutation and changes no other entry |
| `ImprovedDetector.InsertAt` | backend/app/services/improved_ai_dependency_detector.py:297 | inserting one entry extends the descending prefix by one and keeps the array a permutation |
| `ImprovedDetector.SortByConfidence` | backend/app/services/improved_ai_dependency_detector.py:297 | the sort leaves the array in descending confidence order and a permutation of its old contents |
| `ImprovedDetector.RemoveRedundantAndSort` | backend/app/services/improved_ai_dependency_detector.py:281-299 | the result is the strongest non-trivial FD per pair, as a multiset, in descending confidence order |
| `ImprovedDetector.DetectFunctionalDependencies` | backend/app/services/improved_ai_dependency_detector.py:45-93 | singles, pairs only when fewer than half the column count of FDs were found, then post-processing; the result is descending, well formed, and a permutation of the strongest candidates |
| `ImprovedDetector.RunPass` | backend/app/services/improved_ai_dependency_detector.py:248-253 | one pass over the FDs in order adds the dependents of every FD whose determinant is covered, and reports whether anything was added |
| `ImprovedDetector.ComputeClosure` | backend/app/services/improved_ai_dependency_detector.py:242-254 | the while loop runs passes until one adds nothing, at most 10, as `Closure` defines it |
| `ImprovedDetector.Closure` | backend/app/services/improved_ai_dependency_detector.py:242-254 | definition, no contract of its own: passes until one adds nothing or the budget runs out; `ImprovedDetector.ClosureBounds`, `ImprovedDetector.ClosureProgress` and `ImprovedDetector.ClosureComplete` prove its properties |
| `ImprovedDetector.PassBounds` | backend/app/services/improved_ai_dependency_detector.py:249-254 | a pass only adds columns, and only dependents of the FDs |
| `ImprovedDetector.PassFixpointClosed` | backend/app/services/improved_ai_dependency_detector.py:247-254 | a set a pass leaves unchanged is closed under every FD |
| `ImprovedDetector.ClosureBounds` | backend/app/services/improved_ai_dependency_detector.py:242-254 | the closure keeps the start set and adds only dependents of the FDs |
| `ImprovedDetector.ClosureProgress` | backend/app/services/improved_ai_dependency_detector.py:244-254 | either the passes reached a fixpoint or every one of them added a column |
| `ImprovedDetector.ClosureComplete` | backend/app/services/improved_ai_dependency_detector.py:244-254 | when the columns involved number fewer than the start set plus the budget, the 10-pass limit never cuts the closure short |
| `ImprovedDetector.CheckDeterminesOthers` | backend/app/services/improved_ai_dependency_detector.py:186-194 | the loop answers whether every column outside the combination reaches 0.90, leaving at the first that does not |
| `ImprovedDetector.CheckSingleKey` | backend/app/services/improved_ai_dependency_detector.py:180-197 | method 1 for one column: null-free, all values distinct, and determining the others |
| `ImprovedDetector.FindSingleKeys` | backend/app/services/improved_ai_dependency_detector.py:180-197 | the loop keeps `{col}` for each column method 1 accepts, in column order |
| `ImprovedDetector.CheckCompositeKey` | backend/app/services/improved_ai_dependency_detector.py:202-224 | method 2 for one combination: null-free, distinct joined keys, and determining the others |
| `ImprovedDetector.FindCompositeKeys` | backend/app/services/improved_ai_dependency_detector.py:202-224 | the loop keeps each combination of one size that method 2 accepts |
| `ImprovedDetector.SearchCompositeKeys` | backend/app/services/improved_ai_dependency_detector.py:200-227 | sizes 2 to min(n, 5) are tried in turn, stopping at the first size with keys |
| `ImprovedDetector.CheckInferredKey` | backend/app/services/improved_ai_dependency_detector.py:238-263 | method 3 for one combination: its bounded closure is every column and the combination is unique on the rows |
| `ImprovedDetector.FindInferredKeys` | backend/app/services/improved_ai_dependency_detector.py:238-266 | the loop keeps each combination of one size that method 3 accepts |
| `ImprovedDetector.SearchInferredKeys` | backend/app/services/improved_ai_dependency_detector.py:230-266 | sizes 1 to min(n, 5) are tried in turn, stopping at the first size with keys |
| `ImprovedDetector.DetectCandidateKeys` | backend/app/services/improved_ai_dependency_detector.py:174-279 | each method runs only when the earlier ones found nothing, method 3 only with FDs; then the superkey filter |
| `ImprovedDetector.DetectedKeys` | backend/app/services/improved_ai_dependency_detector.py:174-279 | definition, no contract of its own: the superkey filter of the first method that finds keys; `ImprovedDetector.DetectedKeysShape` proves its shape |
| `ImprovedDetector.InferredSingleNoNull` | backend/app/services/improved_ai_dependency_detector.py:257-258 | a one-column key accepted by method 3 passed `nunique() == n_rows`, so its column has no missing value |
| `ImprovedDetector.SingleColumnKeysNoNull` | backend/app/services/improved_ai_dependency_detector.py:174-264 | no one-column candidate key of any of the three methods has a missing value |
| `ImprovedDetector.AllDistinctNoNull` | backend/app/services/improved_ai_dependency_detector.py:181-182 | a column with as many distinct non-missing values as rows has no missing value |
| `ImprovedDetector.CompositeSearchAt` | backend/app/services/improved_ai_dependency_detector.py:200-227 | a non-empty composite search result is the key list of one size in range |
| `ImprovedDetector.InferredSearchAt` | backend/app/services/improved_ai_dependency_detector.py:237-266 | a non-empty inferred search result is the key list of one size in range |
| `ImprovedDetector.KeyCandidatesSound` | backend/app/services/improved_ai_dependency_detector.py:174-266 | every candidate key is a combination of table columns accepted by one of the three methods |
| `ImprovedDetector.KeyCandidatesSameSize` | backend/app/services/improved_ai_dependency_detector.py:174-266 | over distinct columns every candidate key has the same size |
| `ImprovedDetector.DetectedKeysShape` | backend/app/services/improved_ai_dependency_detector.py:174-279 | the superkey filter returns the candidates unchanged, no key strictly contains another, every key has a method's evidence, and a one-column key never has a missing value |
| `ImprovedDetector.DetectAllDependencies` | backend/app/services/improved_ai_dependency_detector.py:22-43 | fewer than three rows give nothing; otherwise the FDs over the frame's own columns, descending and a permutation of the strongest candidates, and the keys found with those FDs |
| `Engine.KeptLength` | backend/app/services/normalization_engine.py:104 | the part `rstrip('0123456789_')` keeps is no longer than the name |
| `Engine.KeptLengthShape` | backend/app/services/normalization_engine.py:104 | everything stripped is a digit or '_', and what is kept does not end in one |
| `Engine.BaseShape` | backend/app/services/normalization_engine.py:437-438 | the base is a prefix of the name, followed only by digits and '_', not ending in one, and differs from the name exactly when the name ends in a digit or '_' |
| `Engine.Take` | backend/app/services/normalization_engine.py:110 | `rows[:n]` is a prefix of at most n rows, all of them when there are no more than n |
| `Engine.HoldsDownward` | backend/app/services/normalization_engine.py:120-197 | each check includes the ones below it: a table that passes one level passes every lower level |
| `Engine.Is1NF` | backend/app/services/normalization_engine.py:94-118 | definition, no contract of its own: no two column names share a base and no value of the first 10 rows is non-atomic; `Engine.NotFirstNFExplained` and `Engine.PlainAndSuffixedNoGroup` prove what a failure means |
| `Engine.Is2NF` | backend/app/services/normalization_engine.py:120-139 | definition, no contract of its own: 1NF, and with a composite primary key no partial FD; `Engine.SimpleKeySecondIsFirst` and `Engine.SecondStepExact` relate it to 1NF and to the 2NF step |
| `Engine.Is3NF` | backend/app/services/normalization_engine.py:141-156 | definition, no contract of its own: 2NF and no transitive FD; `Engine.ThirdStepExact` relates it to the 3NF step |
| `Engine.IsBCNF` | backend/app/services/normalization_engine.py:158-171 | definition, no contract of its own: 3NF and every determinant a superkey; `Engine.NoKeysNoThirdNF` proves that without keys any FD rules it out |
| `Engine.Is4NF` | backend/app/services/normalization_engine.py:173-188 | definition, no contract of its own: BCNF and only trivial MVDs; `Engine.HoldsDownward` proves it implies every lower level |
| `Engine.Is5NF` | backend/app/services/normalization_engine.py:190-197 | definition, no contract of its own: 4NF and no MVD; `Engine.HoldsDownward` proves it implies every lower level |
| `Engine.CurrentNF` | backend/app/services/normalization_engine.py:78-92 | definition, no contract of its own: the level below the first check that fails; `Engine.CurrentNFExact` proves it is the highest level that holds |
| `Engine.CurrentNFExact` | backend/app/services/normalization_engine.py:78-92 | the classification is exact: every level up to the result holds and the next one does not |
| `Engine.SimpleKeySecondIsFirst` | backend/app/services/normalization_engine.py:127-129 | with at most one primary-key column, 2NF is 1NF |
| `Engine.NoKeysNoThirdNF` | backend/app/services/normalization_engine.py:141-171 | without candidate keys any FD at all rules out 3NF and BCNF |
| `Engine.MemberMapExact` | backend/app/services/normalization_engine.py:436-441 | the dictionary holds exactly the bases of suffixed names, each with its names in name order |
| `Engine.CollectBases` | backend/app/services/normalization_engine.py:436-441 | the first loop yields the dictionary's keys in insertion order and the dictionary itself |
| `Engine.FindRepeatingGroups` | backend/app/services/normalization_engine.py:431-447 | the result is, per base in first-seen order, the set of suffixed names sharing it when there are several |
| `Engine.RepeatingGroups` | backend/app/services/normalization_engine.py:431-447 | definition, no contract of its own: per stripped base in first-seen order, its suffixed names when there are several; `Engine.GroupsOfShape` and `Engine.SuffixedPairMakesGroup` prove its shape |
| `Engine.MembersShape` | backend/app/services/normalization_engine.py:436-441 | every listed name of a base is a suffixed column name with that base |
| `Engine.GroupShape` | backend/app/services/normalization_engine.py:443-445 | every group is a non-empty set of suffixed column names sharing one base |
| `Engine.GroupsOfShape` | backend/app/services/normalization_engine.py:443-445 | every produced group is the name set of a base with several names |
| `Engine.GroupImpliesRepeatedBase` | backend/app/services/normalization_engine.py:102-106 | a repeating group always means a repeated base, so the 1NF check fails |
| `Engine.SuffixedPairMakesGroup` | backend/app/services/normalization_engine.py:436-445 | two suffixed names with the same base always produce a group |
| `Engine.PlainAndSuffixedNoGroup` | backend/app/services/normalization_engine.py:102-106 | "phone" and "phone1" fail 1NF, yet the group search reports nothing |
| `Engine.ScanRow` | backend/app/services/normalization_engine.py:454-461 | the inner loop adds each new non-atomic column of the row, first seen first |
| `Engine.FindNonAtomicColumns` | backend/app/services/normalization_engine.py:449-463 | the loops over the first 20 rows return `NonAtomicColumns` |
| `Engine.NonAtomicColumns` | backend/app/services/normalization_engine.py:449-463 | definition, no contract of its own: the flagged columns of the first 20 rows, each once, first seen first; `Engine.NonAtomicColumnsExact` proves membership both ways |
| `Engine.FlaggedInRowExact` | backend/app/services/normalization_engine.py:454-461 | a column is flagged in a row exactly when one of its cells there holds a list, dict, set or a string of more than two comma parts |
| `Engine.FlaggedExact` | backend/app/services/normalization_engine.py:453-461 | a column is flagged in the rows exactly when some cell of some row shows it non-atomic |
| `Engine.NonAtomicColumnsExact` | backend/app/services/normalization_engine.py:449-463 | the reported columns are distinct, and a column is reported exactly when a cell of the first 20 rows shows it non-atomic |
| `Engine.NotFirstNFExplained` | backend/app/services/normalization_engine.py:94-118 | a table failing 1NF has a repeated base or a reported non-atomic column |
| `Engine.Violations1NF` | backend/app/services/normalization_engine.py:201-229 | definition, no contract of its own: a finding per repeating group, then one per non-atomic column; `Engine.NotFirstNFExplained` proves a 1NF failure always yields one |
| `Engine.ColumnsNamedExact` | backend/app/services/normalization_engine.py:468-469 | the picked columns are source columns with one of the names, and every name the source has is picked |
| `Engine.TableFromFd` | backend/app/services/normalization_engine.py:465-477 | definition, no contract of its own: a new table of the source columns named in the FD, keyed by the determinant; `Engine.TableFromFdShape` proves its shape |
| `Engine.TableFromFdShape` | backend/app/services/normalization_engine.py:465-477 | a split-off table is named as asked, keyed by the determinant, holds exactly the source's columns among the FD's columns, and has nothing else |
| `Engine.PartialsNone` | backend/app/services/normalization_engine.py:261-271 | the 2NF scan reports nothing exactly when no FD is a partial dependency |
| `Engine.PartialTablesShape` | backend/app/services/normalization_engine.py:273-275 | one split-off table per partial-dependency finding, keyed by a partial determinant, with no FDs |
| `Engine.Violations2NF` | backend/app/services/normalization_engine.py:257-273 | definition, no contract of its own: nothing for a simple key, otherwise a finding per partial FD; `Engine.PartialsNone` and `Engine.SecondStepExact` prove when it is empty |
| `Engine.Tables2NF` | backend/app/services/normalization_engine.py:257-275 | definition, no contract of its own: the table, then a split-off table per partial FD; `Engine.Tables2NFShape` proves its shape |
| `Engine.TransitivesNone` | backend/app/services/normalization_engine.py:307-317 | the 3NF scan of a table reports nothing exactly when no FD is transitive |
| `Engine.DetailsTablesInShape` | backend/app/services/normalization_engine.py:319-321 | one split-off table per transitive finding, keyed by a transitive determinant, with no FDs |
| `Engine.Violations3NF` | backend/app/services/normalization_engine.py:303-317 | definition, no contract of its own: the transitive findings of each table, table after table; `Engine.TransitivesNone` and `Engine.ThirdStepExact` prove when it is empty |
| `Engine.DetailsTables` | backend/app/services/normalization_engine.py:303-321 | definition, no contract of its own: the split-off tables of each table, table after table; `Engine.DetailsTablesShape` proves their shape |
| `Engine.SecondStepExact` | backend/app/services/normalization_engine.py:253-298 | on a 1NF table the 2NF step reports nothing exactly when `_is_2nf` holds |
| `Engine.ThirdStepExact` | backend/app/services/normalization_engine.py:300-344 | on a 2NF table the 3NF step reports nothing exactly when `_is_3nf` holds |
| `Engine.Tables2NFShape` | backend/app/services/normalization_engine.py:257-275 | the 2NF tables start with the table itself, then one table per violation, each keyed by a proper part of the primary key |
| `Engine.DetailsTablesShape` | backend/app/services/normalization_engine.py:303-321 | the 3NF step adds one table per violation, each keyed by the determinant of a transitive dependency of one of the tables |
| `Engine.FourthStepExact` | backend/app/services/normalization_engine.py:370-383 | the 4NF step reports nothing exactly when no table has an MVD |
| `Engine.Violations4NF` | backend/app/services/normalization_engine.py:373-383 | definition, no contract of its own: a finding per MVD of every table; `Engine.FourthStepExact` proves it is empty exactly when no table has an MVD |
| `Engine.ReadyAfterSecond` | backend/app/services/normalization_engine.py:289-290 | the tables left by the 2NF step still have non-empty sides wherever the 3NF step takes a first element |
| `Engine.PreparedShape` | backend/app/services/normalization_engine.py:15-27 | preparing keeps name, columns and rows, leaves a table with FDs alone, never replaces a primary key, takes a new one from the candidate keys, and leaves the FD sides non-empty |
| `Engine.Prepared` | backend/app/services/normalization_engine.py:15-27 | definition, no contract of its own: the detector fills FDs, MVDs and, with no primary key, candidate keys and the first key; `Engine.PreparedShape` proves what it keeps |
| `Engine.StepAt` | backend/app/services/normalization_engine.py:39-73 | the step taken toward a level reaches that level and leaves tables |
| `Engine.Fold` | backend/app/services/normalization_engine.py:36-75 | the steps to a list of levels, each working on the tables the one before left, end with tables |
| `Engine.FoldSnoc` | backend/app/services/normalization_engine.py:36-75 | stepping to one more level appends its step and hands on its tables |
| `Engine.ScanTransitive` | backend/app/services/normalization_engine.py:307-321 | one table's loop returns its transitive findings and split-off tables |
| `Engine.ScanPartial` | backend/app/services/normalization_engine.py:261-275 | the FD loop returns the partial findings and split-off tables |
| `Engine.ScanMvds` | backend/app/services/normalization_engine.py:375-383 | one table's loop returns a finding per MVD, in order |
| `Engine.NormalizationEngine.constructor` | backend/app/services/normalization_engine.py:15-27 | the original table is kept, and the current tables are the table prepared with the detector's dependencies |
| `Engine.NormalizationEngine.DetermineCurrentNF` | backend/app/services/normalization_engine.py:78-92 | the checks, run from the bottom, give the level of the first current table |
| `Engine.NormalizationEngine.Normalize1NF` | backend/app/services/normalization_engine.py:199-251 | the step reports the repeating groups, then the non-atomic columns, and keeps the tables |
| `Engine.NormalizationEngine.Normalize2NF` | backend/app/services/normalization_engine.py:253-298 | the step reports the partial dependencies of a composite key and replaces the current tables by the table and its split-offs when there are any |
| `Engine.NormalizationEngine.Normalize3NF` | backend/app/services/normalization_engine.py:300-344 | the step reports every transitive dependency of every table and appends their split-off tables |
| `Engine.NormalizationEngine.NormalizeBCNF` | backend/app/services/normalization_engine.py:346-368 | the step reports nothing and keeps the tables |
| `Engine.NormalizationEngine.Normalize4NF` | backend/app/services/normalization_engine.py:370-403 | the step reports every MVD of every table and keeps the tables |
| `Engine.NormalizationEngine.Normalize5NF` | backend/app/services/normalization_engine.py:405-427 | the step reports nothing and keeps the tables |
| `Engine.NormalizationEngine.TakeStep` | backend/app/services/normalization_engine.py:39-73 | the `_normalize_to_*` call for a level yields the step and tables `StepAt` defines |
| `Engine.NormalizationEngine.Advance` | backend/app/services/normalization_engine.py:45-49 | one guard takes its step exactly when the target's value string sorts after the level reached, and keeps the rest of the run on track |
| `Engine.NormalizationEngine.Analyze` | backend/app/services/normalization_engine.py:29-76 | the result holds the original table, the current level, the 5NF target, the steps to the levels the string guards select, and the current tables after them |
| `Engine.Reached` | backend/app/services/normalization_engine.py:42-73 | one reached level per step |
| `Engine.FoldReaches` | backend/app/services/normalization_engine.py:42-73 | each step reaches the level it was asked for |
| `Engine.ClimbWithin` | backend/app/services/normalization_engine.py:39-73 | the guards only ever step to one of the six targets |
| `Engine.ClimbGuard` | backend/app/services/normalization_engine.py:39-43 | one guard adds its target exactly when the target ranks above the level reached |
| `Engine.ClimbTargets` | backend/app/services/normalization_engine.py:36-73 | from each level the guards select: none from Unnormalized or BCNF, 2NF-3NF-BCNF from 1NF, 3NF-BCNF from 2NF, BCNF from 3NF, 4NF and 5NF |
| `Engine.AnalyzeNeverFullyNormalized` | backend/app/services/normalization_engine.py:36-76 | no result of `analyze` is fully normalized: its steps are empty or end at BCNF |
| `ExcelParser.RemoveSpecial` | backend/app/services/excel_parser.py:144 | the result keeps exactly the word and space characters, in order; it is empty exactly when there are none |
| `ExcelParser.SkipSpace` | backend/app/services/excel_parser.py:145 | skipping a whitespace run leaves a suffix that does not start with whitespace |
| `ExcelParser.CollapseSpace` | backend/app/services/excel_parser.py:145 | each whitespace run becomes one '_', other characters stay, and a name without whitespace is unchanged |
| `ExcelParser.StripLeft` | backend/app/services/excel_parser.py:146 | the result does not start with '_', is empty exactly when the name is all '_', and equals a name that starts otherwise |
| `ExcelParser.StripRight` | backend/app/services/excel_parser.py:146 | the result does not end with '_', is empty exactly when the name is all '_', and equals a name that ends otherwise |
| `ExcelParser.StripUnderscores` | backend/app/services/excel_parser.py:146 | `strip('_')` leaves no '_' at either end |
| `ExcelParser.LowerWords` | backend/app/services/excel_parser.py:146 | lowercasing word characters gives lowercase letters, digits and '_' |
| `ExcelParser.Cleaned` | backend/app/services/excel_parser.py:144-146 | the cleaned text holds only lowercase letters, digits and '_', and no '_' at either end |
| `ExcelParser.CleanName` | backend/app/services/excel_parser.py:141-152 | every cleaned name is a valid identifier: non-empty, lowercase letters, digits and '_', not starting with a digit, no '_' at either end |
| `ExcelParser.PrefixedShape` | backend/app/services/excel_parser.py:149-150 | prefixing "col_" to a cleaned text starting with a digit gives a valid identifier |
| `ExcelParser.CleanNameFixed` | backend/app/services/excel_parser.py:141-152 | a name that is already a valid identifier comes back unchanged |
| `ExcelParser.CleanNameIdempotent` | backend/app/services/excel_parser.py:141-152 | cleaning twice is cleaning once |
| `ExcelParser.CleanNameFallback` | backend/app/services/excel_parser.py:144-152 | a name of only punctuation becomes "unnamed" |
| `ExcelParser.MaxLength` | backend/app/services/excel_parser.py:75 | the maximum rendered length bounds every length and is attained |
| `ExcelParser.VarcharLength` | backend/app/services/excel_parser.py:73-77 | the VARCHAR length lies in [50, 255], fits every value unless clamped at 255, and is 50 or the length of some value |
| `ExcelParser.VarcharLengthFits` | backend/app/services/excel_parser.py:75-77 | when the longest value is between 50 and 255, the length is exactly that value's length |
| `ExcelParser.NonNull` | backend/app/services/excel_parser.py:86 | `dropna()` keeps exactly the non-missing values, in order |
| `ExcelParser.FirstAtMost` | backend/app/services/excel_parser.py:54 | `s[:n]` is a prefix of at most n entries, exactly n when there are that many |
| `ExcelParser.ElementsNonNull` | backend/app/services/excel_parser.py:83 | the distinct non-missing values are the distinct values without NaN |
| `ExcelParser.UniqueFlagWithoutNulls` | backend/app/services/excel_parser.py:83 | without missing values the flag holds exactly when all values are distinct |
| `ExcelParser.UniqueFlagWithNulls` | backend/app/services/excel_parser.py:83 | with a missing value the flag holds exactly when the non-missing values repeat exactly once |
| `ExcelParser.UniqueFlagNullQuirk` | backend/app/services/excel_parser.py:83 | [1, 2, NaN] is not flagged unique and [1, 1, NaN] is |
| `ExcelParser.AnalyzeColumn` | backend/app/services/excel_parser.py:64-95 | the column gets the cleaned name and the inferred type; a length exactly for VARCHAR, in [50, 255]; nullable exactly when a value is missing; the unique flag; as samples the first non-missing values of the series in order, 5 of them or all when there are fewer |
| `ExcelParser.SheetTableShape` | backend/app/services/excel_parser.py:40-62 | the table has the cleaned sheet name, one column per header with the cleaned header name, no keys or dependencies, and the first 100 rows |
| `ExcelParser.DataframeToTable` | backend/app/services/excel_parser.py:40-62 | the column loop builds exactly `SheetTable` |
| `ExcelParser.Parse` | backend/app/services/excel_parser.py:17-38 | the sheet loop returns exactly `SheetTables` |
| `ExcelParser.SheetTables` | backend/app/services/excel_parser.py:17-38 | definition, no contract of its own: the table of each sheet that is neither skipped nor empty, in sheet order; `ExcelParser.SheetTablesSound`, `ExcelParser.SheetTablesComplete` and `ExcelParser.SheetTablesBounded` prove its properties |
| `ExcelParser.SheetTablesSound` | backend/app/services/excel_parser.py:24-36 | no more tables than sheets, and each is the table of a kept sheet |
| `ExcelParser.SheetTablesComplete` | backend/app/services/excel_parser.py:24-36 | every sheet that is neither a metadata sheet nor empty yields its table |
| `ExcelParser.SheetTablesBounded` | backend/app/services/excel_parser.py:17-62 | every table has a valid identifier as name and at most 100 rows |
| `ExcelParser.SkipSheetExamples` | backend/app/services/excel_parser.py:26-27 | "INFO" and "Info" are skipped, "Orders" is not |
| `FileHandler.Extension` | backend/app/utils/file_handler.py:12 | `rsplit('.', 1)[1]` is the dot-free text after the last '.' |
| `FileHandler.ExtensionOf` | backend/app/utils/file_handler.py:12 | the extension of stem + "." + ext is ext when ext has no '.' |
| `FileHandler.AllowedFileOf` | backend/app/utils/file_handler.py:9-12 | such a name is allowed exactly when its lowercased last extension is |
| `FileHandler.AllowedFile` | backend/app/utils/file_handler.py:9-12 | definition, no contract of its own: a '.' in the name, and the lowercased text after the last one allowed; `FileHandler.AllowedFileOf` proves the verdict for stem + "." + ext |
| `FileHandler.LowerXlsx` | backend/app/utils/file_handler.py:12 | "xlsx" and "XLSX" both lower to "xlsx" |
| `FileHandler.LastExtensionAccepted` | backend/app/utils/file_handler.py:9-12 | "a.txt.xlsx" is accepted with the configured extensions |
| `FileHandler.InnerExtensionRefused` | backend/app/utils/file_handler.py:9-12 | "a.xlsx.txt" is refused |
| `FileHandler.UpperCaseAccepted` | backend/app/utils/file_handler.py:9-12 | "REPORT.XLSX" is accepted |
| `FileHandler.EmptyStemAccepted` | backend/app/utils/file_handler.py:9-12 | ".xlsx" is accepted |
| `FileHandler.OutputFileNameShape` | backend/app/utils/file_handler.py:45-48 | an output name starts with the identifier and '_', ends in the extension, and passes the upload check exactly when the extension does |
| `FileHandler.OutputFileName` | backend/app/utils/file_handler.py:45-48 | definition, no contract of its own: `{file_id}_{suffix}.{extension}`; `FileHandler.OutputFileNameShape` proves its prefix, extension and upload verdict |
| `FileHandler.SaveUploadedFile` | backend/app/utils/file_handler.py:14-35 | a name failing the extension check is refused; otherwise the stored name starts with the identifier and '_' and ends with the sanitised name |
| `FileHandler.UploadNameKeepsExtension` | backend/app/utils/file_handler.py:25-29 | prefixing the identifier keeps the extension, so the stored name passes the check exactly when the sanitised one does |

## Left out

- File reading: `pd.ExcelFile`, `pd.read_excel` and openpyxl are replaced by a list of `Sheet` values (name, header, rows).
- `_infer_data_type` (excel_parser.py:97-139) depends on pandas dtypes. It is the parameter `infer` of `ExcelParser.Parse`, `ExcelParser.DataframeToTable` and `ExcelParser.AnalyzeColumn`.
- ExcelParser.VarcharLength: requires a non-empty series. `max()` of an empty series is NaN and `int()` raises. Only kept sheets, which have rows, reach it.
- ExcelParser.SheetTableShape: the data rows keep the sheet's original column names, as the source does. The model states nothing about them beyond being the first 100 rows.
- Character classes are ASCII: `\w`, `\s`, `isdigit()` and `lower()` do not cover the rest of Unicode.
- The improved detector's weighted score (improved_ai_dependency_detector.py:107-166) is floating-point statistics. It is the parameter `score` (type `FdScore`); the mask, the 0.0 on no clean rows and the cap are modelled. The `except` branch returning 0.0 is left out, since the parameter is total.
- `_calculate_mvd_confidence` (ai_dependency_detector.py:221-259) uses mutual information and entropy. It is the parameter `score` (type `MvdScore`).
- AiDetector.CalculateFdConfidence: the `except` branch (ai_dependency_detector.py:147-148) is left out, because no exception arises in the exact-real model.
- Floating point: confidences are exact reals, and `round` is exact rounding to 0.001 with ties to even.
- ImprovedDetector.SortByConfidence: stability of Python's sort is not stated. The result is proved descending and a permutation only.
- ImprovedDetector.DetectAllDependencies: FDs are returned as `FunctionalDependency` values rather than dictionaries.
- The improved detector iterates `set(columns) - set(col_combo)` in an unspecified order. Its all-check does not depend on that order, so the model walks the columns in order, skipping the combination.
- Set iteration order: `list(s)[0]` and `list(s)` use sorted order (`Strings.Sorted`).
- The confidence part of an FD's or MVD's text (`:.2f` formatting) is left out. `FdText` and `MvdText` give only the "{det} -> {dep}" part.
- Python's set display in the violation descriptions and explanations is rendered as `NameSet`.
- Step explanations: each step's multi-line explanation text is the empty string in the model. It only embeds the violation count, which the step's violation list already carries.
- Engine.NormalizationEngine.Normalize2NF: requires non-empty FD sides (`Ready`) where the source takes `list(...)[0]` and raises IndexError. The detectors never produce an empty side (`Engine.PreparedShape`).
- Engine.NormalizationEngine.Normalize3NF: the same exclusion, for the 3NF step's determinants.
- Engine.NormalizationEngine.TakeStep: the same exclusion, for the 2NF and 3NF steps.
- Engine.NormalizationEngine.Advance: the same exclusion, through `Ready` for the first three guards.
- Engine.NormalizationEngine.Analyze: the same exclusion, through `Ready` on the current tables.
- Engine.NormalizationEngine.constructor: `deepcopy` and the aliasing of the caller's table are left out, because tables are values. The original table is the table as given.
- Engine.NormalizationEngine.DetermineCurrentNF: the contract names the level. Its exactness is the separate lemma `Engine.CurrentNFExact`.
- TableModel.ToSql: the definition's text is stated piece by piece. That it starts with the backticked name follows from the equality and is not stated separately.
- `secure_filename`, `uuid4`, `os.path.join` with the upload and output folders, `file.save` and `cleanup_file` (file_handler.py:37-43) are file-system work. The sanitiser and the identifier are parameters, and only the file names are modelled.
- The report and Excel generators and the Flask routes are not part of this model.
- `AI_CONFIDENCE_THRESHOLD` in the configuration is never read by the detectors; their own defaults (0.85, 0.90) are modelled.
