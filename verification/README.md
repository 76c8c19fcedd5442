# CSV sheet processor — a Dafny model

This project models `processor.py`, the part of the repository that turns a
spreadsheet read from CSV into text pieces for indexing. A sheet (a pandas
`DataFrame` read with `header=None`) is a `Grid`: a sequence of rows, each a
sequence of optional string cells (`None` is a null cell). On that grid the
model defines, with contracts and lemmas:

- the format vote `detect_sheet_format`, which calls a sheet tabular when at
  least three of four signals agree (uniform column counts, short cells, few
  line breaks, few sentence endings);
- the header detector `detect_header_row` with every signal it scores:
  `is_short_text`, `is_likely_field_name`, the ratios computed inline,
  `non_empty_cell_ratio`, `dominant_cell_ratio`, `classify_value` and
  `column_inconsistency_score` (with `Counter.most_common(1)`);
- `is_natural_text_line`, which the detector computes for every candidate
  but never adds to the score;
- the renderers `row_to_text`, `load_csv_as_text` and
  `get_column_name_or_fallback`;
- the chunkers `split_text_with_overlap` and `split_column_content`;
- the entry points `process_table_format` and `process_csv_file`.

Python's run-time errors on these paths become `Result` failures:
- `NoRows` is `max([])` or `df.iloc[0]` on an empty frame.
- `NoCells` is the division by `len(cell_lengths) == 0`.
- `ZeroLengthRow(i)` is the division at line 108 for a candidate row of empty strings.
- `AllNullRow(i)` is the final division of `column_inconsistency_score`.
- `OutOfRange` is the `iloc` lookup outside the frame.

Python floats are modelled as exact `real`s. Comparisons against the
constants 0.03, 0.05, 0.5, 0.7 and 50 are restated as integer inequalities.

Modules, in dependency order:

| file | module | contents |
|---|---|---|
| base.dfy | Base | `Option`, `Error`, `Result`, `Min`, `Max` |
| text.dfy | Text | `str.strip`, `in`, `count`, `join`, `split`, decimal rendering of naturals |
| sheet.dfy | Sheet | cells, rows, grids, the non-null cells of a row and of a grid, the column count |
| classifier.dfy | Classifier | `classify_value` |
| row_signals.dfy | RowSignals | per-row statistics and ratios |
| column_consistency.dfy | ColumnConsistency | `Counter.most_common(1)`, `column_inconsistency_score` |
| header_detection.dfy | HeaderDetection | `detect_header_row` |
| sheet_format.dfy | SheetFormat | `detect_sheet_format` |
| chunking.dfy | Chunking | `split_text_with_overlap`, `split_column_content` |
| rendering.dfy | Rendering | `row_to_text`, `load_csv_as_text`, `get_column_name_or_fallback` |
| processor.dfy | Processor | `process_table_format`, `process_csv_file` |

## Model

| member | source | states |
|---|---|---|
| Text.Strip | processor.py:172 | `str.strip` leaves no whitespace (the 29 code points of `str.isspace`) at either end, never lengthens its input, and yields the empty string exactly when the input is all whitespace |
| Text.StripRemovesPadding | processor.py:172 | `str.strip` cuts off whitespace only: the input is the result with blank text on either side |
| Text.StripOfPadded | processor.py:47-49 | stripping a trimmed text padded with whitespace on both sides gives that text back |
| Text.StripIdempotent | processor.py:172 | stripping a second time changes nothing |
| Text.ContainsAt | processor.py:179 | Python's substring test `t in s` holds exactly when `t` starts at some position of `s` |
| Text.JoinEmptyIff | processor.py:40-42 | `sep.join(parts)` with a non-empty separator is empty exactly when there is no part or a single empty one |
| Text.SplitJoinRoundTrip | processor.py:40-42 | splitting a `c`-joined text on `c` gives the parts back when no part contains `c` |
| Text.NatToString | processor.py:48 | the decimal text in `f"col_{i}"` is non-empty and all digits, and starts with `0` only for `0` itself |
| Text.NatToStringRoundTrip | processor.py:48 | reading that decimal text back gives the number |
| Sheet.NonNullEmptyIff | processor.py:159 | `row.count()` is 0 exactly when every cell of the row is null |
| Sheet.CellsEmptyIff | processor.py:22 | the grid has no non-null cell exactly when no row has one |
| Sheet.Width | processor.py:144 | `len(df.columns)` is at least every row's length and equals the longest row |
| Classifier.Classify | processor.py:170-187 | a string is never labelled `unknown` |
| Classifier.ClassifyValue | processor.py:170-187 | the label is `unknown` exactly for a non-string value; a string gets the label of the string branch |
| Classifier.LabelOfCharacterization | processor.py:173-186 | for the stripped text, each label holds exactly when its own test holds and no earlier test in the `elif` chain does (empty, date pattern, digits, company marker, status word, kanji, other) |
| Classifier.ClassifyCharacterization | processor.py:170-187 | the same seven if-and-only-ifs, stated about the raw string through `Strip` |
| Classifier.ClassifyIgnoresPadding | processor.py:172 | surrounding whitespace never changes a label |
| Classifier.ClassifyDateShape | processor.py:175-176 | four digits, a slash, one or two digits, a slash and one or two digits are a date whatever the numbers (`2024/13/45` included): the pattern checks digit counts, not calendar ranges |
| Classifier.ClassifyDigits | processor.py:177-178 | a run of digits is a number |
| Classifier.ClassifyStatusBeforeJapanese | processor.py:181-184 | each status word (単発, 継続, 新規) contains kanji and is still a status, because that test comes first |
| RowSignals.FieldNameIff | processor.py:90-92 | a cell is a likely field name exactly when one of the twelve keywords occurs somewhere in it |
| RowSignals.ToSetSize | processor.py:107 | `len(set(row))` is between 1 and `len(row)` for a non-empty row, and equals `len(row)` exactly when no value repeats |
| RowSignals.MaxLength | processor.py:166 | `max(cell_lengths)` bounds every length and is at most their sum |
| RowSignals.MaxLengthAttained | processor.py:166 | `max(cell_lengths)` of a non-empty list is the length of one of its cells |
| RowSignals.NonEmptyCellRatio | processor.py:158-160 | the ratio is 0 when there are no expected columns or no non-null cells; otherwise it times `total_expected_columns` is `row.count()`; it is at most 1 when the row fits; it is below 0.5 exactly when `2 * count < total_expected_columns` |
| RowSignals.DominantCellRatio | processor.py:162-168 | the ratio lies in [0, 1], is 0 exactly when the non-null cells have no characters, and is never below 1 / (number of non-null cells) otherwise; when there are characters, the ratio times their total length is the longest cell's length; it is below the header score's 0.7 threshold exactly when there are no characters or `10 * max_len < 7 * total_len` |
| RowSignals.IsNaturalTextLine | processor.py:219-225 | a line is natural text exactly when punctuation makes up more than 3% of its characters (false for an empty line) |
| HeaderDetection.LengthTermBounds | processor.py:131 | the length term `1 / (1 + avg_len)` lies strictly between 0 and 1 |
| HeaderDetection.HeaderScore | processor.py:114-149 | the score of a scorable candidate lies strictly between -3.75 (every penalty and no bonus) and 9.7 (every bonus and no penalty) |
| HeaderDetection.SignalsOf | processor.py:98-113 | every share lies in [0, 1]; the mean length is positive; uniqueness is 1 exactly when no cell repeats; the digit ratio is 0 exactly when the row has no digit |
| HeaderDetection.Scan | processor.py:94-156 | the loop keeps the first entry of strictly maximal score, or fails at the first candidate whose digit ratio divides by zero |
| HeaderDetection.DetectHeaderRowScored | processor.py:84-156 | with `return_score`: the result is the best entry and its score, or the first zero-length candidate as an error |
| HeaderDetection.BestOfEntriesIsBestRow | processor.py:97-154 | the best entry is the first candidate row of maximal score, or index 0 when no row qualifies |
| HeaderDetection.ZeroLengthEntryIsEmptyCandidate | processor.py:101-108 | a failing entry is a candidate row whose non-null cells are all empty strings |
| HeaderDetection.DetectHeaderRow | processor.py:84-156 | fails exactly when a candidate row has only empty strings; otherwise returns 0 without candidates, or a candidate that no candidate outscores and that every earlier candidate scores below; the index lies inside a non-empty frame |
| ColumnConsistency.CountBounds | processor.py:211 | a `Counter` count is at most the list length and is positive exactly for the labels present |
| ColumnConsistency.MostCommon | processor.py:211 | `Counter(ls).most_common(1)[0][0]` is a label of maximal count, and the first seen among those |
| ColumnConsistency.DeviationsCountColumns | processor.py:196-215 | the loop's `score` is the number of columns whose non-null cell's label differs from the most common label of the non-empty cells below it |
| ColumnConsistency.ColumnInconsistencyScore | processor.py:189-217 | 0 when no row follows; an error exactly for an all-null row; otherwise the number of deviating columns divided by the number of non-null cells, a share in [0, 1] that is 0 exactly when no cell deviates from its column's most common label and 1 exactly when every non-null cell does |
| SheetFormat.MaxCellsPerRow | processor.py:17-19 | `max(col_counts)` bounds every row's non-null count and is attained |
| SheetFormat.MinCellsPerRow | processor.py:17-19 | `min(col_counts)` is at most every row's non-null count and is attained |
| SheetFormat.DetectSheetFormat | processor.py:8-37 | fails on an empty frame and on a frame with no non-null cell; otherwise the sheet is tabular exactly when at least three of the four signals hold |
| Chunking.SplitTextWithOverlap | processor.py:239-246 | no chunk exceeds `chunk_size`; there are no chunks exactly for the empty text; the chunk count is `ceil(len(text) / step)`; chunk `i` is the text window at `i * step`; with a non-negative overlap, the first `step` characters of the chunks rebuild the text |
| Chunking.OffsetIsProduct | processor.py:242-245 | the start of chunk `i` is `i * (chunk_size - overlap)` |
| Chunking.ConsecutiveChunksOverlap | processor.py:239-246 | chunk `i + 1` begins with chunk `i` minus its first `step` characters, an overlap of at most `overlap` characters and exactly `overlap` after a full chunk |
| Chunking.SplitColumnContent | processor.py:51-60 | the bracketed column text always gives at least one chunk; the first chunk opens it; no chunk exceeds `chunk_size`; chunk `i` is the window of the text at `i * step`; the chunk count is `ceil(len(text) / step)`; with a non-negative overlap the chunks rebuild the text |
| Chunking.DefaultsCovered | processor.py:239 | the defaults `chunk_size=800`, `overlap=100` meet the chunker's configuration for any text |
| Rendering.FallbackNameInjective | processor.py:48 | different columns get different `col_{i}` names |
| Rendering.RowToText | processor.py:62-68 | a row's text is blank, and then empty, exactly when the row has no non-null cell |
| Rendering.FieldsFromIndexed | processor.py:63-67 | field `k` belongs to the `k`-th non-null cell |
| Rendering.RowToTextFields | processor.py:62-68 | the text is `" / "` joining one `name: value` field per non-null cell in column order; the name is the header cell or `col_{i}` when that is null |
| Rendering.LoadCsvAsText | processor.py:39-43 | the text is empty exactly when there is no cell or a single empty one, and it starts with the first cell |
| Rendering.LoadCsvAsTextSplits | processor.py:39-43 | when no cell holds a line break, splitting the text on line breaks gives the cells back in row-major order |
| Rendering.GetColumnNameOrFallback | processor.py:45-49 | fails exactly outside the frame; otherwise the name is the stripped header cell, or `col_{i}` when that cell is null or blank; the name is never empty and never has surrounding whitespace |
| Rendering.ColumnNameIgnoresPadding | processor.py:47-49 | whitespace around a header name does not change the column name |
| Processor.RowsWithCellsFrom | processor.py:74-80 | the rows kept are exactly the rows below that have a non-null cell, in increasing order |
| Processor.RenderRowsFrom | processor.py:76-80 | no kept text is blank |
| Processor.RenderRowsIndexed | processor.py:76-80 | the kept texts are, in order, the renderings of exactly the rows that have a non-null cell |
| Processor.ProcessTableFormat | processor.py:70-82 | fails on an empty frame or a header scan that divides by zero; otherwise one non-blank text per non-empty row below the detected header, rendered under that header, in row order |
| Processor.ProcessCsvFile | processor.py:248-257 | fails with `NoRows` exactly on an empty frame and with `NoCells` exactly on a frame without non-null cells; a tabular sheet gives `process_table_format` (which can fail with `ZeroLengthRow`), whatever `chunk_size` and `overlap` are; free text gives the overlapping chunks of `load_csv_as_text`, each a window of the text, `ceil(len(text) / step)` of them for a non-empty text (for a negative `overlap` too), which rebuild it |
| Processor.DefaultConfigAccepted | processor.py:248 | `process_csv_file` with its default `chunk_size` and `overlap` is covered for every sheet |

## Left out

- Reading the CSV file (`process_csv_from_file`, lines 276-278) is left out. So is pandas' type inference: every non-null cell is modelled as the string `str(cell)` would give. A number read as a float is therefore just its text, and `Classifier.ClassifyValue`'s non-string case is kept only for completeness.
- `clean_dataframe_and_save` (lines 259-273) is left out because it writes a file. The command-line part of the module and every `print` are left out too.
- The other files of the repository are not part of this model: `analyzer.py`, `app.py`, `embedder.py`, `get_collection.py`, `orchestrator.py`, `query.py`, `search.py` and `utils.py`. They hold the web, vector-store and language-model layers.
- Floating point is left out: ratios and scores are exact reals. A comparison that floating-point rounding could tip at its exact boundary is not modelled.
- Text.IsDigit: digits are ASCII `0`-`9`. Python's `\d` and `str.isdigit` also accept other Unicode digits.
- Chunking.SplitTextWithOverlap: requires `0 <= chunk_size`. A negative size makes Python's slice end count from the end of the text, which is not modelled.
- Chunking.SplitTextWithOverlap: requires `overlap < chunk_size` for a non-empty text. Otherwise the source loop never advances and does not terminate.
- Chunking.SplitColumnContent: requires `0 <= chunk_size` and `overlap < chunk_size` for the same reasons. Its text is never empty, so with `overlap >= chunk_size` the source never terminates.
- Processor.ProcessCsvFile: requires the chunk configuration above only on a free-text sheet. The tabular path ignores it, as the source does.
- `split_column_content` is defined twice in the source (lines 51-60 and 228-237), identically. It is modelled once.
- HeaderDetection.HeaderScore: the natural-text penalty (lines 118-121) is computed but never added to the score, so the model leaves it out.
- HeaderDetection.HeaderScore: uses `Width` (the longest row) for `len(df.columns)`. For a frame pandas builds from CSV every row has that length, and a shorter row's missing cells are read as null.
- ColumnConsistency.ColumnInconsistencyScore: takes `compare_rows` as a natural number. A negative window is not modelled.
- Rendering.GetColumnNameOrFallback: takes natural-number positions. Python's negative `iloc` positions, which count from the end, are not modelled.
- HeaderDetection.DetectHeaderRowScored: returns no score (`None`) where `detect_header_row` with `return_score=True` returns `-inf`, because no candidate was scored.
