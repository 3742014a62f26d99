# Upload validator of the Benford chart application

This project models the part of the Benford chart web application that checks an
uploaded data file before any statistics are computed. The Python class
`DataValidator` in `app/benford_chart.py` does this check. It receives the raw
bytes of the upload and a file extension, and does four things:

- it picks the column separator from the extension: `;` for `.csv`, a tab otherwise;
- it splits the bytes into lines and each line into cells;
- it runs a gated chain of checks: the split is not empty, the required column
  header is present, there is at least one data row, the required column is
  numeric, and every row is as long as the header row;
- it collects error and warning messages in two lists, and builds
  `validated_data`, which is the split without the rows of the wrong length.

The model has these modules:

- `ByteStrings` (`bytes.dfy`): the Python `bytes` operations the validator relies on. These are `splitlines()`, `split(sep)`, `strip()`, `int(b)` success, and ASCII `decode()`.
- `Text` (`text.dfy`): the formatting used in messages. These are `str(n)`, `repr` of a list of row numbers, and `" ".join`.
- `DataFormats` (`data_format.dfy`): the delimiter rule of `DataFormat.__init__`, and the text of the `InvalidDataFormat` exception.
- `Messages` (`messages.dfy`): one constructor per message the validator appends. `Text()` renders each one as the exact string Python appends.
- `Grids` (`grids.dfy`): the split data as rows of cells, and the operations that only read it. These are the header lookup, the row-length map, the corrupted-row list, the required-column values and the `validated_data` filter.
- `Validation` (`validation.dfy`): `Validate`, a pure function giving what one run of `_do_validation` appends and assigns. It also holds the lemmas stating the run's properties: gate order, numeric check, warning order and cleaned data.
- `Validator` (`validator.dfy`): the class `DataValidator`.
  - Its fields are `errors`, `warnings`, `validated`, `splitData`, `headers` and `validatedData`.
  - Each of its methods mirrors one Python method. Each is proved to change its fields exactly as `Validate` and the `Grids` functions say.

`DATA_COLUMN_NAME` comes from `app/constants.py`, which is not part of this model.
It is a constructor parameter `name`. The tests use `7_2009`. The only thing
required of it is that it neither starts nor ends with whitespace.

Two behaviours of the code are easy to misread, and the model keeps both:

- **Where the header is looked for.** Presence is tested on the raw, unstripped first row (`app/benford_chart.py:99`). The position is taken from the stripped headers (`app/benford_chart.py:143-147`).
  - `Grids.RawPresenceImpliesStripped` proves that raw presence implies stripped presence.
  - `Grids.PaddedHeaderOnlyMatchesStripped` shows that the converse fails.
- **Running the validation twice.** `is_valid` is not idempotent. Every call re-runs every check and appends the same messages again to the same lists (`app/benford_chart.py:59, 71-77`). See `Validator.RevalidationRepeatsMessages`.

## Model

| member | source | states |
|---|---|---|
| `DataFormats.FormatFor` | app/benford_chart.py:23-25 | the delimiter is `;` exactly when the extension is `.csv` and tab for every other extension, including the empty default; the extension is kept |
| `DataFormats.InvalidDataFormat.Str` | app/benford_chart.py:17-18 | the exception text starts with the fixed "Data could not be analyze. Following critical errors found: " prefix |
| `DataFormats.StrShowsEveryError` | app/benford_chart.py:17-18 | every error the exception carries occurs in its text |
| `Messages.Message.Text` | app/benford_chart.py:88-158 | the missing-column and numeric errors hold the decoded column name right after their fixed opening words; the empty-file error ends with the separator's repr; the row-length warning holds the header count right after its opening words and the `repr` of the corrupted-row list after its middle words |
| `Messages.MismatchNamesEveryRow` | app/benford_chart.py:156-158 | the row-length warning names every corrupted row: each row number is printed as a whole entry of the list, between `[` or a space and `,` or `]` |
| `DataFormats.Delimiter.Repr` | app/benford_chart.py:89 | the separator is rendered as Python's `repr` of a one-byte `bytes` object: `b';'` for the semicolon and the escaped `b'\t'` for the tab |
| `Text.ListRepr` | app/benford_chart.py:156-158 | the `repr` of the corrupted-row list is bracketed by `[` and `]` |
| `Text.JoinNumbersNamesEvery` | app/benford_chart.py:156-158 | every number of the list is printed in its comma-joined form as a whole entry, between the start or a space and the end or a comma |
| `Text.ListReprNamesEvery` | app/benford_chart.py:156-158 | every number of the list is printed in its `repr` as a whole entry, between `[` or a space and `,` or `]` |
| `Text.ListEntryWithin` | app/benford_chart.py:156-158 | wherever the list `repr` is printed inside a message, each number of the list is printed there as a whole entry |
| `Text.JoinSpaceContains` | app/benford_chart.py:18 | every part of a `" ".join` occurs in the joined string |
| `Text.DecimalString` | app/benford_chart.py:156-158 | `str(n)` of the header count is a non-empty string of digits without a leading zero |
| `Text.DecimalRoundTrip` | app/benford_chart.py:156-158 | reading back the digits printed for `n` gives `n` |
| `ByteStrings.SplitLines` | app/benford_chart.py:85 | `splitlines()` gives no line exactly for the empty buffer, the only case where `_split_data[0]` fails; there are never more lines than bytes |
| `ByteStrings.SplitLinesAreLines` | app/benford_chart.py:85 | no line returned by `splitlines()` holds a `\n` or `\r` |
| `ByteStrings.SplitLinesAfterLF` | app/benford_chart.py:85 | a line ended by `\n` is returned without it, and splitting resumes after it |
| `ByteStrings.SplitLinesAfterCRLF` | app/benford_chart.py:85 | `\r\n` ends a line as one break: the line is returned once, with no empty line between `\r` and `\n` |
| `ByteStrings.SplitLinesAfterCR` | app/benford_chart.py:85 | a lone `\r` not followed by `\n` ends a line |
| `ByteStrings.SplitLinesUnterminated` | app/benford_chart.py:85 | a last line without a terminator is kept; with the three lemmas above and the empty case, this fixes `splitlines()` on every buffer |
| `ByteStrings.SplitLinesTerminated` | app/benford_chart.py:85 | `splitlines()` recovers the lines of a buffer in which every line ends with `\n`, with no empty line for the final terminator |
| `ByteStrings.Split` | app/benford_chart.py:85 | `split(sep)` always yields at least one cell, so every row has a cell |
| `ByteStrings.SplitJoin` | app/benford_chart.py:85 | joining the cells of a line with the separator gives the line back |
| `ByteStrings.SplitCellsLackSeparator` | app/benford_chart.py:85 | no cell holds the separator |
| `ByteStrings.SplitCount` | app/benford_chart.py:85 | a line splits into one cell more than it holds separators |
| `ByteStrings.Strip` | app/benford_chart.py:86 | `strip()` never lengthens its input, and the result neither starts nor ends with whitespace |
| `ByteStrings.StripIsTrimmedMiddle` | app/benford_chart.py:86 | `strip()` returns a middle slice of its input; everything dropped is whitespace, and the result neither starts nor ends with whitespace |
| `ByteStrings.StripTrimmed` | app/benford_chart.py:86 | `strip()` leaves a byte string unchanged exactly when it neither starts nor ends with whitespace |
| `ByteStrings.StripIdempotent` | app/benford_chart.py:86 | stripping twice is stripping once |
| `ByteStrings.AsText` | app/benford_chart.py:100 | `decode()` of the ASCII column name gives one character per byte, with the same code |
| `Grids.SplitGrid` | app/benford_chart.py:85 | the split has one row per line of `splitlines()`, and row `i` is line `i` split on the separator, with at least one cell |
| `Grids.StripAll` | app/benford_chart.py:86 | the headers are the cells of the first row, each stripped, in order |
| `Grids.Count` | app/benford_chart.py:143 | `count` of the name in the headers is at most the number of headers |
| `Grids.FirstIndex` | app/benford_chart.py:147 | `list.index` returns a position that holds the name, with no earlier position holding it |
| `Grids.CountPositive` | app/benford_chart.py:143 | `count` is positive exactly when the name is present |
| `Grids.CountAboveOne` | app/benford_chart.py:143-147 | `count > 1` exactly when the name occurs again after the position `index` returns |
| `Grids.RawPresenceImpliesStripped` | app/benford_chart.py:143-147 | a name present in the raw header row is present in the stripped headers no later, so the `index` lookup cannot fail |
| `Grids.PaddedHeaderOnlyMatchesStripped` | app/benford_chart.py:99 | a header cell padded with a space matches the name once stripped, yet the raw presence test rejects it |
| `Grids.RowLengths` | app/benford_chart.py:162-170 | the row-length map has exactly the row numbers of the split as keys, and maps each to that row's cell count |
| `Grids.CorruptedRows` | app/benford_chart.py:172-181 | an index is listed exactly when its row length differs from the header count; the list is strictly ascending and within range |
| `Grids.Corrupted` | app/benford_chart.py:172-181 | the corrupted rows of a split are the rows whose cell count differs from the header row's, in ascending order, and never the header row |
| `Grids.Filtered` | app/benford_chart.py:76-77 | dropping the listed indices keeps at most as many rows as the split has, each one a row of the split |
| `Grids.KeepMatching` | app/benford_chart.py:76-77 | the reference filter keeps at most as many rows as it is given, each one a row of the input with exactly `h` cells |
| `Grids.FilteredKeepsMatching` | app/benford_chart.py:76-77 | dropping the listed indices equals keeping the rows of the header's length, once the list names exactly the rows of the wrong length |
| `Grids.KeepMatchingCount` | app/benford_chart.py:76-77 | kept rows and corrupted indices together account for every row |
| `Grids.CleanedData` | app/benford_chart.py:76-77 | `validated_data` starts with the header row and holds only unmodified rows of the split with the header's length, in order; its length is that of the split minus the corrupted rows |
| `Grids.WellFormedKeptWhole` | app/benford_chart.py:76-77 | a split whose rows all have the header's length has no corrupted rows and is kept whole |
| `Grids.ColumnValues` | app/benford_chart.py:128-136 | every collected value is the required cell of some row, and every row long enough to have that cell contributes it |
| `Validation.ColumnIndex` | app/benford_chart.py:143-147 | the column used is the first whose stripped header equals the name |
| `Validation.Validate` | app/benford_chart.py:71-77 | a run on the raw bytes has one row per line, and its only error is the empty-file error exactly when the upload is empty |
| `Validation.ValidateGrid` | app/benford_chart.py:71-77 | the run keeps the split; headers are assigned exactly when the split is not empty, cleaned data exactly when both gates pass and then with no more rows than the split; a failed gate gives exactly one error and no warning; a passed one at most one error and two warnings; the empty-file error appears exactly for an empty split |
| `Validation.EmptyBuffer` | app/benford_chart.py:84-90 | the split is empty exactly for an empty buffer, and then the run records only the empty-file error naming the separator, no warning and no cleaned data |
| `Validation.GateOrder` | app/benford_chart.py:71-77 | a missing header gives only the missing-column error; a lone header row gives only the no-data error; cleaned data exists exactly when both gates pass |
| `Validation.NumericCheck` | app/benford_chart.py:114-136 | the numeric check gives no error or exactly one, and gives one exactly when some data row, corrupted rows included, has a required cell that does not parse as an integer |
| `Validation.Warnings` | app/benford_chart.py:138-160 | the warnings are the repeated-header warning, present when the name occurs again after the chosen column, followed by the row-length warning, present when there are corrupted rows |
| `Validation.RepeatedWhenNameRecurs` | app/benford_chart.py:143-146 | the repeated-header warning is added exactly when the name occurs again after the chosen column |
| `Validation.Cleaned` | app/benford_chart.py:76-77 | once the gates pass, `validated_data` is always assigned, whatever the numeric check found, and is the header row plus every row with the header's length |
| `Validation.IntegerColumnPasses` | app/benford_chart.py:119-126 | integers in every required cell that exists leave the numeric check silent; rows too short to have the cell are skipped |
| `Validation.WellFormedChecksSilent` | app/benford_chart.py:71-77 | on a well-formed split no check appends anything and nothing is filtered out |
| `Validation.WellFormedUploadIsClean` | app/benford_chart.py:71-77 | a well-formed upload with N data rows yields no error, no warning and all N + 1 rows as cleaned data |
| `Validator.DataValidator.constructor` | app/benford_chart.py:30-37 | a new validator has the delimiter of its extension, empty lists, is not validated, and has no split, headers or cleaned data |
| `Validator.DataValidator.Errors` | app/benford_chart.py:39-44 | the error texts after a run, the usage error before one |
| `Validator.DataValidator.Warnings` | app/benford_chart.py:46-51 | the warning texts after a run, the usage error before one |
| `Validator.DataValidator.IsValid` | app/benford_chart.py:53-63 | a run appends what `Validate` gives to the lists already there and marks the validator validated; it raises `InvalidDataFormat` with every error collected so far when asked to and there is one, and otherwise returns whether the error list is empty |
| `Validator.DataValidator.DoValidation` | app/benford_chart.py:65-77 | the fields after a run are the old lists plus what `Validate` gives, the new split, and the headers and cleaned data when the run assigns them |
| `Validator.DataValidator.RunChecks` | app/benford_chart.py:73-75 | the numeric check appends its errors; the repeated-header warning then the row-length warning are appended in that order |
| `Validator.DataValidator.DataCanBeSplit` | app/benford_chart.py:79-91 | the split is stored; an empty split adds the empty-file error and keeps the old headers, otherwise the stripped first row becomes the headers |
| `Validator.DataValidator.MainColumnPresent` | app/benford_chart.py:93-102 | passes exactly when the raw first row holds the name, and adds the missing-column error otherwise |
| `Validator.DataValidator.AnyDataToAnalyze` | app/benford_chart.py:104-112 | passes exactly when there is more than one row, and adds the no-data error otherwise |
| `Validator.DataValidator.DataTypeCorrect` | app/benford_chart.py:114-126 | adds the numeric error exactly when a collected value is not an integer, and returns whether it added none |
| `Validator.DataValidator.GetRequiredColumnData` | app/benford_chart.py:128-136 | the loop collects the required cell of each data row in order, skipping short rows |
| `Validator.DataValidator.GetRequiredDataColumnIndex` | app/benford_chart.py:138-147 | returns the first stripped-header position holding the name, and warns when the name is there more than once |
| `Validator.DataValidator.HeadersMatchColumns` | app/benford_chart.py:149-160 | adds one warning naming the header count and the corrupted rows exactly when there are corrupted rows |
| `Validator.DataValidator.RowLength` | app/benford_chart.py:162-170 | maps every row number of the split, and only those, to that row's cell count |
| `Validator.DataValidator.DataCorrupted` | app/benford_chart.py:172-181 | the list computed from the row-length map and the header count is the corrupted-row list of the split |
| `Validator.WellFormedUploadPasses` | tests/unit/test_data_validator.py:6-15 | a fresh validator given a well-formed upload returns true without raising, then reports no errors and no warnings, and keeps every row |
| `Validator.RevalidationRepeatsMessages` | app/benford_chart.py:53-63 | a second `is_valid` call on the same validator appends the same errors a second time |

## Left out

- `BenfordData`, `Chart` and the Flask views are left out. They wrap pandas and a third-party statistics library, compute floating-point frequencies, and handle HTTP.
- `functools.lru_cache` on `_row_length` and `__data_corrupted` is not modelled as a cache. Both are recomputed from the stored split. For one validator the split never changes, so the cached and recomputed values are equal.
- Messages are stored as `Messages.Message` values. `Text()` renders each one as the string Python appends, and `Errors`, `Warnings` and the raised exception carry the rendered strings.
- `validated_data` is `None` while Python's attribute has never been assigned. Reading it then raises `AttributeError` in Python; the model does not model that failure.
- `_data_can_be_split` also catches `AttributeError`. The model leaves that path out because the upload is always a byte string.
- `ByteStrings.ParsesAsInt`: decides when `int(b)` succeeds. It accepts surrounding ASCII whitespace, an optional sign, and ASCII digits with single underscores between digits. It does not model the interpreter's limit on the number of digits, which would reject very long literals.
- `ByteStrings.AsText`: decodes one character per byte. It matches UTF-8 only for ASCII names. A non-ASCII column name would render differently in the missing-column and numeric errors.
- `Validator.DataValidator.constructor`: requires a column name that neither starts nor ends with whitespace. With any other name, `index` on the stripped headers could raise `ValueError` after the raw presence test passed. The configured name `7_2009` satisfies the requirement, so that path is not modelled.
- `Validator.DataValidator.Errors`, `Validator.DataValidator.Warnings` and `Validator.DataValidator.IsValid` return, or raise with, a snapshot of the texts of the lists (`Texts(errors)`). Python returns the live `_errors` and `_warnings` lists, and the raised `InvalidDataFormat` holds the live `_errors` list (`app/benford_chart.py:44, 51, 62`). A later `is_valid` call therefore grows a list the caller already holds in Python, but not in the model.
- `Validator.DataValidator.RunChecks` is a separate method grouping `app/benford_chart.py:74-75`. In Python those two calls sit inline in `_do_validation`. The order of the checks and the state they change are the same.
