# Infinity data-shaping core in Dafny

A model of the data-shaping core of grafana/infinity-libs (Go):

- **CSV framer** (`CsvFramer`): `ToFrame` gathers the tokenizer's records, stopping on or
  skipping bad lines. It takes the header row and renames cells by column alias, or makes up the
  positional names "1".."n". It zips every data row with the header into a name-to-cell map.
  It hands the maps to the frame builder, either directly or after a JSON root selector
  (`ApplyRootSelector`).
- **JSON root selector** (`JsonFramer`): `ApplyRootSelector` dispatches on the framer type to the
  gjson, jq or JSONata routine. With no recognised type it guesses: gjson first, then JSONata.
  The jq routine's result loop is an imperative method proved against a specification function.
- **Row filter** (`Transformations`): `ApplyFilter` works on a `Frame` object. It runs the early
  exits, makes an empty copy, checks that rows have equal lengths, compiles the expression and
  checks that field names are unique. Then it evaluates the expression once per row, binding every
  field under its raw and slugified name, and appends each row that matches. Any failure aborts
  the whole call and returns the original frame. `FilterExpression` applies it to a list of
  frames and stops at the first failure.
- **JSON content check** (`Utils.ValidateJson`): a blank text, then an invalid text, is rejected.

`Text` holds the Go string helpers the core relies on: `strings.TrimSpace`, `strings.Contains`
and the `%d` formatting of positional header names. `Wrappers` holds `Option` and `Result`.

The third-party engines and Go's JSON codec are parameters, not code. The selector routines
take a `Libraries` value whose total functions stand for gjson, gojq, jsonata and
`encoding/json`. The filter takes an `Evaluator` that stands for govaluate and the framesql
helpers. Every property below holds for every choice of these functions.

Two points of the code are easy to miss:

- `ApplyFilter` on a nil frame returns a nil frame and no error. It does not reject it.
- Duplicate field names are reported only after the early exits (no rows, blank expression),
  the row-length check and a successful compile. So `ErrNotUniqueFieldNames` does depend on the
  expression (see `CompileThenNames`).

## Model

| member | source | states |
|---|---|---|
| Text.TrimLeft | lib/go/utils/content.go:11 | the result is a suffix of the input, every removed character is white space, and the result is empty or starts with a non-space |
| Text.TrimRight | lib/go/utils/content.go:11 | the result is a prefix of the input, every removed character is white space, and the result is empty or ends with a non-space |
| Text.TrimSpace | lib/go/utils/content.go:11 | `strings.TrimSpace`: leading white space off by TrimLeft, trailing by TrimRight (their rows); trims to "" exactly on blank text (TrimsToEmptyIffBlank) |
| Text.TrimsToEmptyIffBlank | lib/go/csvframer/framer.go:29 | a text trims to "" exactly when all its characters are white space |
| Text.Contains | lib/go/transformations/filterExpression.go:95 | true exactly when the pattern occurs at some position of the text |
| Text.DigitChar | lib/go/csvframer/framer.go:75 | the character produced for a digit is a decimal digit with that value |
| Text.DecimalString | lib/go/csvframer/framer.go:75 | `%d` of a natural is non-empty, all decimal digits, with no leading zero |
| Text.DecimalRoundTrip | lib/go/csvframer/framer.go:75 | reading back the `%d` text of a natural gives the natural |
| Text.DecimalStringInjective | lib/go/csvframer/framer.go:74-76 | distinct numbers print as distinct names |
| Utils.ValidateJson | lib/go/utils/content.go:10-18 | the blank test comes first, then the validity test, then no error; its outcomes are pinned by ValidateJsonOutcomes |
| Utils.ValidateJsonOutcomes | lib/go/utils/content.go:10-18 | all-space text gives "empty json received"; otherwise invalid text gives "invalid json response received"; otherwise no error; each as an if-and-only-if |
| JsonFramer.ApplyRootSelector | lib/go/jsonframer/rootselector.go:12-26 | an empty selector returns the input, otherwise the framer type picks the routine; both are proved in EmptySelectorIsIdentity and DispatchByFramerType |
| JsonFramer.UsingGJSON | lib/go/jsonframer/rootselector.go:28-34 | an existing path gives its text and no error, and a missing one gives the input back with ErrInvalidRootSelector (ErrorsByRoutine) |
| JsonFramer.UsingJQ | lib/go/jsonframer/rootselector.go:36-76 | parse, decode, collect, shape and marshal, each failing stage returning "" with its own error; the loop method ApplyRootSelectorUsingJQ computes it |
| JsonFramer.Collect | lib/go/jsonframer/rootselector.go:46-60 | the values before the first non-value item, kept when that item is a halt with a nil value or there is none, otherwise an abort (CollectUpToStop, CollectAllValues) |
| JsonFramer.Shape | lib/go/jsonframer/rootselector.go:61-71 | a lone array output is unwrapped and any other output list is wrapped in one array (ShapeUnwrapsLoneArray) |
| JsonFramer.UsingJSONata | lib/go/jsonframer/rootselector.go:78-100 | compile (an error or a nil expression is ErrInvalidRootSelector), decode, evaluate and marshal, each failing stage returning "" with its own error (ErrorsByRoutine) |
| JsonFramer.UsingWithGuess | lib/go/jsonframer/rootselector.go:102-128 | gjson when the path exists, otherwise the JSONata steps (GuessIsGJSONThenJSONata) |
| JsonFramer.EmptySelectorIsIdentity | lib/go/jsonframer/rootselector.go:13-15 | an empty selector returns the input unchanged with no error, whatever the framer type |
| JsonFramer.DispatchByFramerType | lib/go/jsonframer/rootselector.go:16-25 | "gjson", "jsonata" and "jq" reach their own routine; any other tag reaches the guess routine |
| JsonFramer.ErrorsByRoutine | lib/go/jsonframer/rootselector.go:27-99 | gjson fails exactly when the path does not exist, and then returns its input with ErrInvalidRootSelector; jq and JSONata failures return "" with an error of their own stages |
| JsonFramer.FirstStop | lib/go/jsonframer/rootselector.go:48-59 | the position of the first non-value item: every earlier item is a value, and the item there is not one |
| JsonFramer.ApplyRootSelectorUsingJQ | lib/go/jsonframer/rootselector.go:36-75 | the loop over the jq iterator yields the result of the jq specification function |
| JsonFramer.CollectUpToStop | lib/go/jsonframer/rootselector.go:48-59 | values before a halt whose value is nil (JSON null, as `null | halt_error` gives) are kept and everything after it is ignored; a halt with any other value, or any other error, aborts, whatever follows |
| JsonFramer.CollectAllValues | lib/go/jsonframer/rootselector.go:48-59 | an iterator yielding only values collects exactly those values, in order |
| JsonFramer.ShapeUnwrapsLoneArray | lib/go/jsonframer/rootselector.go:61-71 | a single array result is returned as that array; any other result list is wrapped in an array |
| JsonFramer.DotAndBracketDotAgree | lib/go/jsonframer/jsonframer_test.go:62-73 | on a non-array document, `.` and `[.]` give the same text |
| JsonFramer.JqErrorOrder | lib/go/jsonframer/rootselector.go:36-45 | a selector that does not parse fails with ErrInvalidJQSelector before the document is read; an unreadable document then fails with ErrUnMarshalingJSON |
| JsonFramer.JqNamesExample | lib/go/jsonframer/jsonframer_test.go:86-90 | `.[] \| .name` over two objects yields `["foo","bar"]` |
| JsonFramer.GuessIsGJSONThenJSONata | lib/go/jsonframer/rootselector.go:101-128 | the guess routine is the gjson result when the path exists, else the JSONata routine's result |
| CsvFramer.RecordsOf | lib/go/csvframer/framer.go:43-56 | the records the reader yields, in order, with failed lines dropped (RecordsOfAppend, RecordsOfSingle) |
| CsvFramer.RecordsOfAppend | lib/go/csvframer/framer.go:43-56 | reading distributes over concatenation: records keep their order and line errors vanish |
| CsvFramer.RecordsOfSingle | lib/go/csvframer/framer.go:49-52 | one read item contributes its record, or nothing for a line error |
| CsvFramer.ReadAll | lib/go/csvframer/framer.go:43-56 | the read loop fails with ErrReadingCsvResponse exactly when a line fails and skipping is off, otherwise yields all records in order |
| CsvFramer.Header | lib/go/csvframer/framer.go:58-78 | the renamed first record with headers; without headers the positional names for the first record's width, or none when there are no records (NoHeadersNoRecords) |
| CsvFramer.DataRows | lib/go/csvframer/framer.go:60-78 | the records after the first with headers, or all of them without (ItemCount) |
| CsvFramer.Renamed | lib/go/csvframer/framer.go:62-68 | one header cell after the first n column selectors: the alias of the last one naming the cell with a non-empty alias, and only without a root selector (RenamedNoMatch, RenamedLastMatch, NoRenameUnderRootSelector) |
| CsvFramer.RenamedHeader | lib/go/csvframer/framer.go:61-68 | every header cell renamed on its own; the loop method RenameHeader computes it |
| CsvFramer.RenamedNoMatch | lib/go/csvframer/framer.go:62-68 | a header cell that no applicable selector names keeps its text |
| CsvFramer.RenamedLastMatch | lib/go/csvframer/framer.go:62-68 | a header cell takes the alias of the last column selector that names it with a non-empty alias |
| CsvFramer.NoRenameUnderRootSelector | lib/go/csvframer/framer.go:64 | with a root selector set, no header cell is renamed |
| CsvFramer.RenameHeader | lib/go/csvframer/framer.go:61-68 | the nested rename loops produce the renamed header |
| CsvFramer.PositionalHeader | lib/go/csvframer/framer.go:73-77 | the names "1".."n" (PositionalHeaderDistinct, MakePositionalHeader, ZipPositionalKeys) |
| CsvFramer.PositionalHeaderDistinct | lib/go/csvframer/framer.go:74-76 | the made-up column names "1".."n" are pairwise distinct |
| CsvFramer.MakePositionalHeader | lib/go/csvframer/framer.go:73-77 | the loop produces the names "1".."n" |
| CsvFramer.ZipPrefix | lib/go/csvframer/framer.go:80-85 | the row map after the first n header cells, each one the row reaches writing its cell (ZipPrefixKeys, ZipPrefixValues) |
| CsvFramer.Zip | lib/go/csvframer/framer.go:80-85 | the row map of a whole header (ZipKeys, ZipAt) |
| CsvFramer.ZipPrefixKeys | lib/go/csvframer/framer.go:80-85 | a key is in the row map built from the first n columns exactly when it names one of them that the row reaches |
| CsvFramer.ZipPrefixValues | lib/go/csvframer/framer.go:80-85 | in the row map built from the first n columns, a name maps to the cell of its last column the row reaches |
| CsvFramer.ZipKeys | lib/go/csvframer/framer.go:81-85 | the keys of a row map are the header names of the columns the row reaches |
| CsvFramer.ZipAt | lib/go/csvframer/framer.go:81-85 | a header name not repeated later maps to its own cell |
| CsvFramer.ZipRows | lib/go/csvframer/framer.go:79-87 | one map per record, in order, each the zip of the header with that record |
| CsvFramer.Items | lib/go/csvframer/framer.go:79-87 | one map per data row, in order, each the zip of the header with that row (ItemCount) |
| CsvFramer.ItemCount | lib/go/csvframer/framer.go:69-87 | with headers, one item per record after the first; without, one per record; each item is the zip of the header with its row |
| CsvFramer.ZipPositionalKeys | lib/go/csvframer/framer.go:71-85 | without headers a row's keys are exactly "1".."m", m the shorter of the first row and this row |
| CsvFramer.ZipPositionalValues | lib/go/csvframer/framer.go:71-85 | without headers key "j" holds the row's j-th cell |
| CsvFramer.NoHeaderItems | lib/go/csvframer/framer.go:71-87 | without headers the i-th item has keys "1".."m" and key "j" maps to the j-th cell of the i-th record |
| CsvFramer.NoHeadersNoRecords | lib/go/csvframer/framer.go:71-78 | without headers and with no records, the header and the items are empty |
| CsvFramer.ItemsJson | lib/go/csvframer/framer.go:100 | the marshalled row maps: one object per row, one string member per key (ItemsJsonInjective) |
| CsvFramer.ItemsJsonInjective | lib/go/csvframer/framer.go:100 | the marshalled document determines the row maps: equal documents come from equal row lists |
| CsvFramer.ApplyRootSelector | lib/go/csvframer/framer.go:99-114 | marshal, select and decode as the code does, with an undecodable selected text giving a nil document and no error (ApplyRootSelectorOutcomes) |
| CsvFramer.ApplyRootSelectorOutcomes | lib/go/csvframer/framer.go:99-114 | marshal and selector failures propagate as their own errors; a selected text that does not decode gives a nil (`JNull`) document and no error; otherwise the result is exactly the decoding of the selected text |
| CsvFramer.ApplyRootSelectorReportingDecodeError | lib/go/csvframer/framer.go:108-112 | the corrected routine: as ApplyRootSelector, except that an undecodable selected text is ErrDecodingSelected |
| CsvFramer.ReportingDiffersOnlyOnDecodeFailure | lib/go/csvframer/framer.go:108-112 | on an undecodable selected text the code gives a nil document and no error where the corrected routine gives ErrDecodingSelected; on every other input the two agree |
| CsvFramer.DecodeErrorSwallowed | lib/go/csvframer/framer.go:108-112 | a concrete case: a gjson match `abc` that is not JSON yields a nil document and no error, and the corrected routine reports the decoding error |
| CsvFramer.Assemble | lib/go/csvframer/framer.go:57-96 | without a root selector the row maps go to the frame builder; with one, the document ApplyRootSelector gives, or its error |
| CsvFramer.ToFrame | lib/go/csvframer/framer.go:28-97 | a blank input gives ErrEmptyCsv; a bad line with skipping off gives ErrReadingCsvResponse; otherwise the result is what the records, options and root selector determine |
| Transformations.Frame.EmptyCopy | lib/go/transformations/filterExpression.go:39 | a fresh frame with the same name, meta and fields, with no values |
| Transformations.Frame.AppendRow | lib/go/transformations/filterExpression.go:87 | each field gains the row's cell at its position; name and meta are unchanged |
| Transformations.RowCopy | lib/go/transformations/filterExpression.go:87 | a row copy has one cell per field |
| Transformations.SelectNoRows | lib/go/transformations/filterExpression.go:39 | selecting no rows is the empty copy |
| Transformations.SelectOneMoreRow | lib/go/transformations/filterExpression.go:87 | selecting one more row is appending that row's copy |
| Transformations.CheckIfInvalidFilterExpression | lib/go/transformations/filterExpression.go:92-96 | true exactly when "Invalid token:" occurs in the message |
| Transformations.BindingsPrefix | lib/go/transformations/filterExpression.go:62-70 | the parameters after the reserved names and the first n fields, each field writing its cell under its slug and then its raw name (BindingLastWriter, BindingUnwritten) |
| Transformations.Bindings | lib/go/transformations/filterExpression.go:62-70 | the parameters of a row over all fields; the loop method BuildParameters computes it |
| Transformations.BindingLastWriter | lib/go/transformations/filterExpression.go:62-70 | a name bound by a field maps to the cell of the last field that binds it, raw or slugified |
| Transformations.BindingUnwritten | lib/go/transformations/filterExpression.go:62-70 | a name no field binds is bound exactly when it is reserved (frame, null, nil, rowIndex), and to the reserved value |
| Transformations.BuildParameters | lib/go/transformations/filterExpression.go:62-70 | the parameter loop produces the bindings of the row |
| Transformations.CheckUniqueNames | lib/go/transformations/filterExpression.go:52-58 | the loop over field names reports true exactly when the names are pairwise distinct |
| Transformations.AsMatch | lib/go/transformations/filterExpression.go:75-81 | a bool result, or the target of a non-nil *bool, is the row's verdict, and anything else is none (EvaluateRow, ScanKeepsTrueRows, ScanFailsAtFirstBadRow) |
| Transformations.Rows | lib/go/transformations/filterExpression.go:33 | the frame's row count: the length of its first field, or 0 without fields |
| Transformations.RowLen | lib/go/transformations/filterExpression.go:41-44 | the common field length, or an error when there are no fields or the lengths differ |
| Transformations.ScanRows | lib/go/transformations/filterExpression.go:59-88 | the row loop over the first n rows: the kept rows or the first row's error (ScanKeptInRange, ScanKeepsTrueRows, ScanFailsAtFirstBadRow) |
| Transformations.FilterSpec | lib/go/transformations/filterExpression.go:33-89 | the outcome on a non-nil frame: unchanged on the early exits, the row-length, compile, name and row errors in that order, or the selection of the kept rows (EarlyExits, CompileThenNames, FilteredShape) |
| Transformations.ScanKeptInRange | lib/go/transformations/filterExpression.go:59-88 | the kept row indices are strictly increasing, below the row count, and each names a readable row |
| Transformations.ScanKeepsTrueRows | lib/go/transformations/filterExpression.go:75-87 | when the scan succeeds, a row is kept exactly when its verdict is true |
| Transformations.ScanFailsAtFirstBadRow | lib/go/transformations/filterExpression.go:71-83 | the scan fails exactly when some row errs or is not binary, and the error names the first such row |
| Transformations.ScanStopsAtError | lib/go/transformations/filterExpression.go:71-83 | rows after a failing row do not change the outcome |
| Transformations.EarlyExits | lib/go/transformations/filterExpression.go:33-38 | a frame without rows or a blank expression leaves the frame unchanged |
| Transformations.CompileThenNames | lib/go/transformations/filterExpression.go:45-58 | a compile error is classified as an invalid expression exactly when it holds "Invalid token:"; after a good compile, duplicate names give ErrNotUniqueFieldNames |
| Transformations.FilteredShape | lib/go/transformations/filterExpression.go:39-89 | a successful filter had consistent row lengths and unique names, and is the selection of exactly the rows whose verdict is true, in increasing order, never more than the frame has |
| Transformations.FilteredIsSelection | lib/go/transformations/filterExpression.go:39-89 | a successful filter passed the row-length and name checks, its row loop succeeded, and its frame is the selection of the rows that loop kept |
| Transformations.SelectRowsShape | lib/go/transformations/filterExpression.go:39-89 | a selection keeps the name, meta, field names, types and labels, and per field holds the selected rows' cells in the listed order |
| Transformations.IncreasingIsShort | lib/go/transformations/filterExpression.go:59-88 | never more rows are kept than the frame has |
| Transformations.NegationPartitions | lib/go/transformations/filterExpression.go:59-88 | filtering by an expression and by its negation keeps disjoint row sets whose sizes sum to the row count |
| Transformations.ApplyFilter | lib/go/transformations/filterExpression.go:29-90 | a nil frame gives nil and no error; the input frame is never modified; an early exit returns the frame; a failure returns the frame with its error; a success returns a fresh frame holding the filtered data |
| Transformations.EvaluateRow | lib/go/transformations/filterExpression.go:62-83 | one row's step fails exactly when its evaluation errs (error names the row and message) or its result is neither a boolean nor a non-nil boolean pointer (non-binary error for that row); otherwise it yields the row's verdict |
| Transformations.KeepRow | lib/go/transformations/filterExpression.go:87 | appending a row's copy to the selection of some rows gives the selection of those rows followed by that row |
| Transformations.FilterRows | lib/go/transformations/filterExpression.go:59-88 | the row loop appends exactly the kept rows to the empty copy, or reports the first failing row |
| Transformations.ApplyOne | lib/go/transformations/filterExpression.go:20-24 | one frame's step fails exactly when ApplyFilter's outcome for it is a failure; otherwise the frame is replaced by itself or by a fresh frame holding the filtered data |
| Transformations.FilterExpression | lib/go/transformations/filterExpression.go:17-27 | each output is the filter result of the frame at the same position; on a failure the output stops before the failing frame and the error is "unable to apply filter" |

## Left out

- The CSV tokenizer (`encoding/csv`, with its delimiter, comment, lazy-quote and column-count options) is not modelled. Its records and line errors for the input text are a parameter of `ToFrame`.
- `gframer.ToDataFrame`, the frame builder, is not part of this model. `ToFrame` ends with the data, frame name and columns it would be called with.
- The engines gjson, gojq, jsonata, govaluate and the framesql helpers (`GetValue`, `SlugifyFieldName`) are not modelled. They are parameters. Nothing is assumed of them beyond being functions.
- JSON marshal formatting is not modelled. `marshal` and `unmarshal` are parameters, and `ItemsJson` states only the document structure that is marshalled.
- Error messages and wrapped causes (`errors.Join`, `fmt.Errorf`) are not modelled. Errors are compared by kind, and per-row errors carry the row index.
- CsvFramer.ToFrame: with headers and zero records read, the Go code indexes an empty slice and panics. The model makes at least one record a precondition in that case.
- JsonFramer.ApplyRootSelectorUsingJQ: the jq iterator is a finite sequence, so an iterator that never ends is not modelled.
- Go's nil `any` document, which CsvFramer.ApplyRootSelector yields for an undecodable selected text, is `JNull`. ToFrame follows the code and hands that document to the frame builder; the corrected ApplyRootSelectorReportingDecodeError is not wired into ToFrame.
- Frame internals from the plugin SDK are modelled as sequence operations: `Rows`, `RowLen`, `EmptyCopy`, `RowCopy` and `AppendRow`. `RowLen` fails on a frame whose fields differ in length. Nil labels and empty labels are not distinguished.
- Typed Go field vectors are not modelled. A cell is an optional `Value`, and `ConcreteAt` returning nil is `None`.
- Text.TrimLeft: Go's `TrimSpace` works on UTF-8 bytes, and the model works on characters with Go's white-space set.
- Aliasing between the input frames of `FilterExpression` is not modelled beyond each frame being left unchanged.
- Summarize, macros, xmlframer and the error variables of `errors.go` are not part of this model. The error names are reused as datatype constructors.

## Findings

| source | as written | input that shows it | evidently intended | confidence | as-written member | corrected member |
|---|---|---|---|---|---|---|
| lib/go/csvframer/framer.go:109-111 | when the selected text fails to decode, the function returns the selector's error, which is nil at that point | a root selector whose result is not JSON text, e.g. a gjson path matching the bare word `abc` | return the decoding error | high (not executed) | CsvFramer.ApplyRootSelector | CsvFramer.ApplyRootSelectorReportingDecodeError |
