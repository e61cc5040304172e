# datto `CleanText` table helpers in Dafny

This project models the table and string helpers of `datto/CleanText.py` and proves properties of them. The helpers covered are:

- `batch_pandas_operation` and `batch_merge_operation`, which cut a table into chunks by identifier;
- `make_uuid`;
- `remove_duplicate_columns` and `clean_column_names`;
- `df_most_common_only`.

All of them are stated over plain Dafny sequences:

- A pandas DataFrame is a sequence of rows of an arbitrary type `R`.
- Reading a column is a key function `R -> K`.
- For the two column helpers, a table is a sequence of named columns.

The pandas and Python primitives the helpers rely on are modelled with Python's own semantics:

- `Series.unique()` / `duplicated()`: module `Frames`, `Unique`.
- `isin` filtering: module `Frames`, `Select`.
- Slicing with clamped bounds, `round` with ties to even, `str.strip`, `str.replace` and `str.lower`: module `Python`.

Modules, one file each:

- `Seqs` (seqs.dfy): generic sequence notions. No duplicates, concatenation of a list of lists, subsequence, first index.
- `Python` (python.dfy): the built-ins above and the `ZeroDivisionError` result.
- `Frames` (frames.dfy): `df[col]`, `unique()`, `df[df[col].isin(lst)]`.
- `Partition` (partition.dfy): the `part_ids` slicing of the distinct identifiers.
- `Batch` (batch.dfy): the two batch helpers. Each is a method with the source's accumulation loop, proved against a specification function.
- `Columns` (columns.dfy): `clean_column_names` as an in-place update of a `Frame` object, and `remove_duplicate_columns`.
- `Uuid` (uuid.dfy): `make_uuid` and its inverse.
- `MostCommon` (mostcommon.dfy): `Counter.most_common` and `df_most_common_only`.
- `CleanTextTests` (tests.dfy): the scenarios of `tests/test_clean_text.py` stated on the model.

Where the model departs from the code:

- The float quotient `len(ids) / float(num_splits)` is modelled exactly. The cut point `int(round(division * i))` becomes `RoundHalfEven(i * n, num_splits)`, which is the exact rational `i * n / num_splits` rounded half to even.
- A `num_splits` of 0 makes the source raise `ZeroDivisionError`; the model returns `Err(ZeroDivisionError)`.
- A negative `num_splits` makes `range` empty, so the result is an empty table.

## Model

| member | source | states |
|---|---|---|
| Python.Slice | datto/CleanText.py:219 | Python slicing never fails; inside the sequence it is the ordinary slice, and an empty or reversed range gives the empty sequence |
| Python.RoundHalfEven | datto/CleanText.py:261 | `round(p / q)` is the nearest integer, and on a tie the even one |
| Python.RoundHalfEvenUnique | datto/CleanText.py:261 | the two properties of the rounding determine its value |
| Python.RoundHalfEvenMonotone | datto/CleanText.py:261 | rounding is monotone in the numerator |
| Python.RoundHalfEvenExact | datto/CleanText.py:261 | rounding an integer quotient gives that integer |
| Python.IsSpace | datto/CleanText.py:133 | the characters `strip()` removes include space, tab, newline and carriage return, and exclude letters, digits and the underscore |
| Python.Strip | datto/CleanText.py:133 | `strip()` removes whitespace only from the two ends; the result neither starts nor ends with whitespace |
| Python.StripBounds | datto/CleanText.py:133 | the leading and trailing whitespace counts mark a range inside the string, everything after it is whitespace, and a non-empty range starts and ends with a non-space character |
| Python.StripTrimmed | datto/CleanText.py:133 | stripping a string without whitespace at its ends changes nothing |
| Python.Lower | datto/CleanText.py:133 | `lower()` maps each character on its own and leaves no ASCII upper-case letter; it keeps the length only because just the ASCII mapping is modelled |
| Python.LowerIdempotent | datto/CleanText.py:133 | lower-casing twice is lower-casing once, and whitespace is neither created nor removed |
| Python.Replace | datto/CleanText.py:133 | `str.replace` with a pattern and a replacement of equal length keeps the length of the string |
| Python.ReplaceChar | datto/CleanText.py:133 | replacing one character by another changes exactly the positions holding it |
| Frames.Keys | datto/CleanText.py:258 | `df[col]` has one value per row; a value is in the column exactly when some row carries it |
| Frames.DuplicatedFirst | datto/CleanText.py:150 | the `duplicated()` mask (`Frames.Duplicated`, keeping the first) marks a position exactly when the first occurrence of its value is earlier |
| Frames.Unique | datto/CleanText.py:258 | `unique()` has no duplicates, holds only values of the column, and holds every value of the column |
| Frames.UniqueFirstAppearance | datto/CleanText.py:258 | the distinct values are listed in the order of their first appearance |
| Frames.UniqueIsSubsequence | datto/CleanText.py:258 | the distinct values are a subsequence of the column |
| Frames.UniqueOfNoDup | datto/CleanText.py:258 | a column without repeats is its own `unique()` |
| Frames.Select | datto/CleanText.py:265 | `df[df[col].isin(lst)]` keeps exactly the rows whose value is in `lst` |
| Frames.SelectIsFilter | datto/CleanText.py:265 | the selection keeps row order and keeps every copy of a selected row and no other row |
| Frames.SelectSplit | datto/CleanText.py:264-265 | selecting with two disjoint lists gives the rows of selecting with their union, as a multiset |
| Frames.SelectNothing | datto/CleanText.py:238 | selecting with an empty list keeps no row |
| Frames.SelectAll | datto/CleanText.py:264-265 | selecting with a list that holds every value keeps the whole table |
| Frames.SelectDrops | datto/CleanText.py:238 | a row whose value is not selected makes the selection strictly shorter |
| Partition.Boundary | datto/CleanText.py:261 | the cut point `int(round(division * i))` is the integer nearest to `i * n / num_splits`, the even one on a tie |
| Partition.BoundaryEnds | datto/CleanText.py:259-263 | the first cut point is 0 and the last is the number of identifiers |
| Partition.BoundaryMonotone | datto/CleanText.py:259-263 | the cut points never decrease |
| Partition.BoundariesOrdered | datto/CleanText.py:259-263 | consecutive cut points lie in order inside the identifier list |
| Partition.BoundaryGap | datto/CleanText.py:259-263 | consecutive cut points are `n / num_splits` apart, give or take one |
| Partition.PartIds | datto/CleanText.py:260-263 | there are exactly `num_splits` slices, and none for a negative count |
| Partition.PartIdsSlice | datto/CleanText.py:261 | each slice is an in-range slice of the identifier list, so Python's clamping never applies |
| Partition.PartIdsPrefix | datto/CleanText.py:260-263 | the first `m` slices concatenated are the identifiers before the `m`-th cut point |
| Partition.PartIdsConcat | datto/CleanText.py:260-263 | the slices concatenated in order give back the identifier list, for every positive `num_splits`, including more than `n` |
| Partition.PartIdsDisjoint | datto/CleanText.py:260-263 | two different slices of the distinct identifiers share no identifier |
| Partition.PartIdsNearEqual | datto/CleanText.py:260-263 | every slice holds `n / num_splits` identifiers, give or take one |
| Partition.PartIdsManySplits | datto/CleanText.py:260-263 | with at least as many slices as identifiers, no slice holds more than one identifier |
| Partition.PartIndex | datto/CleanText.py:260-263 | every position of the identifier list falls in some slice |
| Partition.PartIndexUnique | datto/CleanText.py:260-263 | no position falls in two slices |
| Batch.Ids | datto/CleanText.py:258 | the identifiers have no duplicates; an identifier is listed exactly when some row carries it |
| Batch.BatchApply | datto/CleanText.py:257-268 | the concatenation of the per-slice outputs (`Batch.Outputs`): every row of the result comes from the callback's output on the rows of one slice, and every row of every such output is in the result |
| Batch.BatchPandasOperation | datto/CleanText.py:241-268 | the loop appends the callback's output for each slice in order, so the result is the concatenation of those outputs; zero splits raise `ZeroDivisionError`, and negative splits give an empty table |
| Batch.ChunkOf | datto/CleanText.py:258-265 | every row of the table falls in exactly one chunk |
| Batch.ChunksPrefix | datto/CleanText.py:264-266 | the first `m` chunks hold, as a multiset, exactly the rows of the identifiers before the `m`-th cut point |
| Batch.SelectPrefixStep | datto/CleanText.py:264-266 | the rows of the identifiers before a cut point, together with the rows of the next slice, are as a multiset the rows of the identifiers before the next cut point |
| Batch.BatchIdentityIsPermutation | datto/CleanText.py:257-268 | with the identity as callback, the result is a permutation of the input rows: no row is lost or duplicated |
| Batch.BatchKeepsRowProperty | datto/CleanText.py:264-266 | a property the callback guarantees of every row it returns holds of every row of the result |
| Batch.MergeOutputs | datto/CleanText.py:294-297 | the per-chunk joins are exactly the per-slice outputs of `batch_pandas_operation` with the join against the whole of `df_2` as callback |
| Batch.BatchMerge | datto/CleanText.py:287-298 | every row of the result comes from the join of one chunk of `df_1` with `df_2`, and every row of every such join is in the result |
| Batch.BatchMergeOperation | datto/CleanText.py:270-298 | the loop appends each chunk's join in order; zero splits raise `ZeroDivisionError`, and negative splits give an empty table |
| Batch.BatchMergeIsBatchApply | datto/CleanText.py:288-297 | the merge cuts `df_1` exactly as `batch_pandas_operation` does, with the join against all of `df_2` as callback |
| Batch.BatchMergeKeepsLeftRows | datto/CleanText.py:288-297 | when the join keeps each left row, every row of `df_1` appears in the merged result |
| Columns.CleanName | datto/CleanText.py:133 | the cleaned name is never longer than the original |
| Columns.CleanNameShape | datto/CleanText.py:133 | a cleaned name contains no space and has no whitespace at either end |
| Columns.UnderscoreLowerShape | datto/CleanText.py:133 | replacing spaces by underscores and lower-casing keeps the length, leaves no space, and keeps non-space characters at both ends |
| Columns.CleanNameIdempotent | datto/CleanText.py:133 | cleaning a cleaned name changes nothing |
| Columns.CleanColumnNames | datto/CleanText.py:132-135 | `df.rename(columns=..., inplace=True)` (`Columns.RenameColumns`) renames in place and returns the same object; the number, order and data of the columns are kept; each name becomes its cleaned form and contains no space |
| Columns.RemoveDuplicateColumns | datto/CleanText.py:150 | the kept names (`Columns.Names`) are `unique()` of the input's names; the result is no wider than the input |
| Columns.RemoveDuplicateColumnsSnoc | datto/CleanText.py:150 | a column appended to a table is kept exactly when no earlier column has its name |
| Columns.RemoveDuplicateColumnsKeepsFirst | datto/CleanText.py:150 | each kept column is the first column of the input with that name |
| Columns.RemoveDuplicateColumnsSpec | datto/CleanText.py:150 | the kept names have no duplicates, are a subsequence of the input names, and include every input name |
| Uuid.MakeUuid | datto/CleanText.py:218-220 | the result is four characters longer than the input |
| Uuid.MakeUuidCharacters | datto/CleanText.py:218-220 | each input character moves right by the number of hyphens before it, and the four hyphens sit after characters 8, 12, 16 and 20 (or at the end, for a shorter input) |
| Uuid.MakeUuidHyphens | datto/CleanText.py:218-220 | an input of at least 20 characters gets hyphens at 8, 13, 18 and 23 |
| Uuid.MakeUuidCanonical | datto/CleanText.py:218-220 | a 32-character digest gives a 36-character UUID with hyphens at 8, 13, 18 and 23 |
| Uuid.StripHyphensOfMakeUuid | datto/CleanText.py:218-220 | deleting the four hyphens gives back the input |
| Uuid.MakeUuidOfStripHyphens | datto/CleanText.py:218-220 | conversely, a string with hyphens at 8, 13, 18 and 23 is what `make_uuid` makes of it with the hyphens deleted |
| Uuid.MakeUuidPieces | datto/CleanText.py:218-220 | a digest made of pieces of 8, 4, 4 and 4 characters and a rest gets exactly one hyphen between consecutive pieces |
| Uuid.MakeUuidShort | datto/CleanText.py:218-220 | an input of at most 8 characters is kept whole and followed by four hyphens |
| MostCommon.Count | datto/CleanText.py:237 | `Counter(vals)[x]` is at most the number of values, and positive exactly when `x` occurs |
| MostCommon.Insert | datto/CleanText.py:237 | one step of the sort adds exactly the inserted value |
| MostCommon.SortByCount | datto/CleanText.py:237 | the sort by count is a permutation of the counter's keys |
| MostCommon.MostCommon | datto/CleanText.py:237 | `most_common(num)` returns no more values than there are distinct values |
| MostCommon.UniqueInFirstIndexOrder | datto/CleanText.py:237 | the counter's keys come in order of first appearance in the column |
| MostCommon.InsertOrdered | datto/CleanText.py:237 | a stable insertion of a later-seen value keeps the ranking strictly ordered by count, ties broken by first appearance |
| MostCommon.SortByCountOrdered | datto/CleanText.py:237 | the stable sort of values listed by first appearance is strictly ordered by count, ties broken by first appearance |
| MostCommon.RankingOrdered | datto/CleanText.py:237 | the ranking of all distinct values is ordered this way |
| MostCommon.MostCommonSpec | datto/CleanText.py:237 | `most_common(num)` returns `max(num, 0)` values, or every distinct value when there are fewer; no value twice; ordered from most to least common; each selected value beats every value left out |
| MostCommon.DfMostCommonOnly | datto/CleanText.py:237-238 | the result is no longer than the table and holds only rows of it; a non-positive `num` keeps no row |
| MostCommon.DfMostCommonOnlyIsFilter | datto/CleanText.py:237-238 | the result keeps row order, and keeps every copy of a row exactly when its value is selected |
| MostCommon.DfMostCommonOnlyRows | datto/CleanText.py:237-238 | a row is kept if and only if its value is among the most common values |
| MostCommon.DfMostCommonOnlyKeepsFrequent | datto/CleanText.py:237-238 | a kept row's value is at least as frequent as any dropped row's value, and on a tie it was met first |
| MostCommon.DfMostCommonOnlyDrops | datto/CleanText.py:237-238 | asking for fewer values than there are distinct ones drops rows |
| MostCommon.DfMostCommonOnlySingle | datto/CleanText.py:237-238 | keeping the single most common value of a column with two different values drops rows |
| CleanTextTests.ReplaceTextTest | tests/test_clean_text.py:29-31 | the test callback replaces "i like" by "i love" in each text, so no returned row contains "i like", and keeps the other columns |
| CleanTextTests.NoLikeAfterReplace | tests/test_clean_text.py:29-31 | after replacing "i like" by "i love", no "i like" remains anywhere in a text |
| CleanTextTests.BatchReplaceLeavesNoLike | tests/test_clean_text.py:136-142 | for any table and any positive number of slices, no text of the batch result contains "i like" |
| CleanTextTests.TestBatchPandasOperation | tests/test_clean_text.py:136-142 | on the test table with two slices, the batch call succeeds and leaves no "i like" |
| CleanTextTests.TestMakeUuid | tests/test_clean_text.py:122-125 | the test digest becomes `609390d8-8cff-4426-9c2e-293bd6b89a0b` |
| CleanTextTests.TestStripHyphens | tests/test_clean_text.py:122-125 | deleting the hyphens of the test UUID gives back the test digest |
| CleanTextTests.TestMostCommonOnly | tests/test_clean_text.py:128-133 | keeping the most common text of the test table drops rows |
| CleanTextTests.TestRemoveDuplicateColumns | tests/test_clean_text.py:79-88 | of the columns "First Name", "Last Name", "Last Name", the first two are kept |
| CleanTextTests.TestCleanColumnName | tests/test_clean_text.py:72-76 | "First Name" becomes "first_name" |

## Left out

- `remove_names` (datto/CleanText.py:16-35) is not modelled. It reads a pickled name list from disk and builds regular expressions from it.
- `remove_links` (datto/CleanText.py:37-55) is not modelled. It is a single large regular expression applied through `re.findall`, and a regex engine is outside this model.
- `lematize` and `remove_email_greetings_signatures` (datto/CleanText.py:57-117) are not modelled. They depend on the tokens and part-of-speech tags of the spaCy language model, a foreign library.
- The spaCy model download and load at import time (datto/CleanText.py:11-12) is I/O and is not modelled.
- `fix_col_data_type` and `compress_df` (datto/CleanText.py:153-203) are not modelled. They are pandas dtype coercion and downcasting, and `compress_df` also uses a float threshold on a ratio.
- Partition.Boundary: floating point is not modelled. `division = len(ids) / float(num_splits)` and `round(division * i)` are taken as the exact rational `i * n / num_splits` rounded half to even. Where that rational is exactly a half and the binary64 product misses the tie, the source's cut point differs by one, even for small tables. With 29 identifiers and 14 splits, `29 / 14.0 * 7` is `14.500000000000002`, so the source cuts at 15 where the model cuts at 14; identifier 14 then falls in slice 6 in the source and slice 7 in the model. With 15 identifiers and 22 splits, `15 / 22.0 * 11` is `7.499999999999999`, so the source cuts at 7 where the model cuts at 8. A callback other than the identity then sees different chunks, and the rows of the result can come in a different order.
- Batch.BatchMergeOperation: `pd.merge(..., how="left", on=merge_col)` is an abstract function of the chunk and `df_2`. Its internals are not modelled: matching on `merge_col`, the naming of colliding columns, and the resulting width checked by the merge test. The one property used, that a left join keeps every left row, is a hypothesis of Batch.BatchMergeKeepsLeftRows.
- A column name that is missing from the table, and the `KeyError` pandas raises for it, is not modelled. Columns are read through key functions, which always exist.
- `DataFrame.append` aligns differing column sets and fills the gaps with NaN. It is modelled as plain concatenation of the callback's rows, which all have one row type.
- Side effects of the callback `func` on the chunk it receives are not modelled; `func` is a function. The test callback assigns to a column of its chunk, which pandas may report as a chained assignment.
- Python.Lower: `lower()` is modelled for the ASCII letters only. Other characters are left unchanged, so Unicode case mapping is not covered, including mappings that change the length (`'İ'.lower()` has two characters). The same holds for Columns.CleanName, Columns.CleanNameShape and Columns.CleanColumnNames, which use it.
- Columns.CleanColumnNames: the renaming is applied to names that are already strings. `str(x)` of a non-string column label is not modelled.
- Missing values are not modelled. These are NaN in an identifier column, and `Counter`'s treatment of NaN keys, whose NaN values never compare equal.
- MostCommon.MostCommon: `Counter.most_common(n)` is `heapq.nlargest`, which for `n > 0` returns the same list as the stable sort by decreasing count cut to `n` elements. The model is the stable sort; the heap algorithm is not modelled.
