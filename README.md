# Row-numbering component, modelled in Dafny

This project models the template data-pipeline component in `src/component.py`. The component works in three steps:

- Its constructor settles the log level. The first command-line argument can switch debug logging on, and so can a truthy `debug` entry in the configuration. Then the environment handler validates the mandatory parameters; a failure exits with code 1.
- `run` reads the input table with a dictionary reader. It appends a `row_number` column name to the reader's header and writes that header first. It then writes every row dictionary with its zero-based position stored under `row_number`. When `print_rows` is truthy, it echoes each row dictionary before numbering it.
- The module's entry point builds the component from `sys.argv` and runs it. Any exception that escapes exits with code 1.

Files:

- `values.dfy`, module `Values`: Python truthiness of configuration values and of the argument. It also holds `str()` of a non-negative int (the writer's rendering of the stored index) and its inverse `int()`.
- `component.dfy`, module `Component`: the start-up decision rule (`Init`), the dictionary reader (`ReadRow`, `Read`), the transform as a loop (`Run`) proved against the specification function `Execute`, and the process entry point (`Launch`).

## The reader and the writer

The input is the header line and the rows of fields the CSV parser yields. The reader is modelled as the dictionary reader behaves:

- `reader.fieldnames` is the reader's own list. `run` appends `row_number` to that very list before the first data row is read. So every data row is paired with the header plus `row_number`, not with the header alone.
- It skips empty rows (`NonBlank`).
- A name that occurs twice keeps the value of its later position (`Assign`).
- A row shorter than the names gets None under each missing name (`Field.Missing`).
- A row longer than the names keeps its surplus fields under the key None (`Record.rest`).

As a result, a row of the header's length or shorter gets None under `row_number`. A row exactly one field longer gets its last field under `row_number` (`ReaderFillsRowNumber`). The echo shows that value; the stored index then replaces it. When the header already names `row_number`, the appended name is its last occurrence, so the reader's value there is this one too, not the row's own field.

The writer is modelled as the dictionary writer behaves:

- It emits one cell per output column, in column order.
- A key the row lacks gives the empty restval. None is written as an empty cell.
- A key outside the column names raises (extrasaction `'raise'`), and the loop stops there. The None key of surplus fields is such a key.

So only a row with two or more fields beyond the header stops the run (`RunStopsAtFirstLongRow`). A row one field longer is written like any other (`OneFieldLongerExample`). The output file is the sequence of lines handed to the writer, each a sequence of cells.

A `row_number` already present in the input header is modelled as the code does it. The output header then names the column twice. The stored index replaces the reader's value, so both columns hold the index (`ExistingRowNumberColumnOverwritten`). This case is not excluded by a precondition.

Two further points about the code:

- The configuration's `debug` can only switch debug logging on, never off (`Init`).
- The code keeps no state file and writes no output manifest.

## Model

| member | source | states |
|---|---|---|
| `Values.Truthy` | src/component.py:37-39 | Python truthiness: a value is false exactly when it is None, False, 0, the empty string, the empty list or the empty dict |
| `Component.ConfigDebug` | src/component.py:37 | `cfg_params.get('debug')` is truthy: an absent key reads as None, which is false |
| `Component.DebugArgument` | src/component.py:87-90 | the value handed to the constructor is truthy exactly when a first argument exists and is non-empty, so even the text `False` switches debug on |
| `Component.Init` | src/component.py:34-50 | the final level is DEBUG exactly when the argument is truthy or the configuration's `debug` is truthy (the configuration can switch debug on, never off); the constructor exits exactly when validation fails |
| `Component.AssignKeys` | src/component.py:70-76 | pairing names with a row's fields creates no key outside the names |
| `Component.AssignLast` | src/component.py:70-76 | when a name occurs twice, its value is the field at its last occurrence |
| `Component.ReadRowField` | src/component.py:70-73 | under the last occurrence of a name, the reader stores the row's field at that position, or None when the row is too short to have one |
| `Component.ReadRowKeys` | src/component.py:70-73 | the reader's dictionary uses no name outside its names, and it has surplus fields exactly when the row is longer than the names |
| `Component.Assign` | src/component.py:70-76 | `dict(zip(names, fields))` for one row: each name gets the field at its position, a later duplicate name replacing an earlier one (its properties: `AssignKeys`, `AssignLast`) |
| `Component.Padding` | src/component.py:70-76 | the reader's None (restval) under each name a short row does not reach |
| `Component.ReadRow` | src/component.py:70-76 | the dictionary the reader yields for one row: fields paired with the names, None for missing names, surplus fields under the key None (its properties: `ReadRowField`, `ReadRowKeys`) |
| `Component.Read` | src/component.py:70-76 | the reader's dictionaries in file order, one per non-empty row, built with the names as they are when the row is read |
| `Component.NonBlank` | src/component.py:76 | the reader yields at most one dictionary per row, and only for rows that are non-empty and present in the input |
| `Component.NonBlankConcat` | src/component.py:76 | skipping empty rows distributes over concatenation: the rows kept from `a + b` are those kept from `a` followed by those kept from `b` |
| `Component.NonBlankSingle` | src/component.py:76 | a single row is kept exactly when it is non-empty; with `NonBlankConcat`, every non-empty row is kept once, in file order, and no empty one |
| `Component.NonBlankKeepsAll` | src/component.py:76 | without empty rows, the reader yields one dictionary per row, in order |
| `Component.Numbered` | src/component.py:81 | `l['row_number'] = index`: the row dictionary with `row_number` bound to the index (its properties: `NumberedFields`) |
| `Component.Render` | src/component.py:82 | the writer's text for a value: the text itself, an empty cell for None, and for the index a string of digits that `int()` reads back as the index |
| `Component.Fits` | src/component.py:74-82 | the writer's extrasaction `'raise'` check: no surplus fields under the key None and no key outside the column names (its property: `ReadRowFits`) |
| `Component.Line` | src/component.py:74-82 | the cells the writer emits for a row: one per column, in column order, so two columns with the same name always get the same cell |
| `Component.NumberedFields` | src/component.py:81 | storing the index adds or rebinds the `row_number` key to the index and leaves every other field and the surplus fields unchanged |
| `Component.NumberedCell` | src/component.py:74-82 | a numbered dictionary's cell in a column is the index under `row_number`, the dictionary's own value under its other keys, and empty under a column it lacks |
| `Component.ReadRowFits` | src/component.py:70-82 | a dictionary the reader built with the extended names passes the writer's check after numbering exactly when the row has no more fields than there are names |
| `Component.NumberRows` | src/component.py:76-82 | the loop writes at most one line per dictionary; with no error it writes one line per dictionary, and the writer's error leaves fewer lines than dictionaries |
| `Component.ErrorIsFinal` | src/component.py:76-82 | once the writer has raised, the dictionaries after it change nothing: no line and no echo |
| `Component.WrittenPrefix` | src/component.py:76-82 | the lines written are exactly the first dictionaries, each numbered by its position; on an error, the dictionary after them is the first one the writer refuses |
| `Component.NumberRowsAllFit` | src/component.py:76-82 | when every numbered dictionary fits the writer's columns, line i is dictionary i numbered i, the loop succeeds, and a true print flag echoes every dictionary in order |
| `Component.EchoedPrefix` | src/component.py:76-82 | whether or not the writer raised, a true print flag echoed every dictionary up to and including the refused one, in order, and a false one nothing |
| `Component.EchoedAll` | src/component.py:76-79 | a loop that ran to the end echoed every dictionary in order, with its index, when printing is on, and nothing otherwise |
| `Component.Execute` | src/component.py:65-82 | a missing `print_rows` raises before any file is opened; otherwise the extended header is the first line written, even when the run fails later; a successful run writes one line more than there are non-empty rows |
| `Component.Run` | src/component.py:56-82 | the loop's result equals `Execute` on the same configuration and input, so two runs on the same input produce the same file |
| `Component.Launch` | src/component.py:86-96 | runs the transform with `csv` imported (`Execute`): a failed validation exits with code 1 before the transform starts and leaves the output file untouched; otherwise the file is the run's, and the exit code is 0 exactly when the run raised nothing; the log level follows `Init` |
| `Component.FittingRowsFit` | src/component.py:70-82 | when no row has more than one field beyond the header, every numbered dictionary passes the writer's check, because the reader pairs rows with the extended header |
| `Component.RowCountPreserved` | src/component.py:70-82 | for such rows the output is the extended header plus exactly one line per non-empty row, line i + 1 being row i read and numbered i |
| `Component.RowsNumberedInOrder` | src/component.py:76-82 | output data row i holds `str(i)` in its last column, and that cell reads back as i: numbering starts at 0, with no gaps and no reordering |
| `Component.RowNumbersDistinct` | src/component.py:76-82 | two different output data rows carry different `row_number` cells |
| `Component.FieldsCopied` | src/component.py:70-82 | every input column other than `row_number` holds, at the last occurrence of its name, the row's own field, or an empty cell when the row is too short |
| `Component.DuplicateNamesShareCell` | src/component.py:70-74 | a column name used twice gets the same cell in both positions of every output line |
| `Component.ExistingRowNumberColumnOverwritten` | src/component.py:71-82 | an input header that already has `row_number` gives a duplicated output column name, and both positions of row i hold i |
| `Component.ReaderFillsRowNumber` | src/component.py:70-79 | the dictionary the loop echoes holds None under `row_number` for a row of the header's length or shorter, and the row's extra field for a row one field longer |
| `Component.RunStopsAtFirstLongRow` | src/component.py:70-82 | a run writes exactly the non-empty rows before the first one with two or more fields beyond the header; it fails exactly when such a row exists |
| `Component.LinesIgnorePrintFlag` | src/component.py:78-79 | the loop's lines and error are the same whichever print flag is given |
| `Component.OutputIgnoresPrintFlag` | src/component.py:66-79 | replacing the `print_rows` value changes neither the output file nor the outcome of the run |
| `Component.EchoesFollowPrintFlag` | src/component.py:70-79 | for rows that fit, a truthy `print_rows` echoes each reader dictionary in order, paired with its index and before the index is stored; a falsy one echoes nothing |
| `Component.EchoesUpToRefusedRow` | src/component.py:70-82 | for any rows, a truthy `print_rows` echoes the reader's dictionaries in order up to and including the first one the writer refuses, or all of them; a falsy one echoes nothing |
| `Component.EmptyTableYieldsHeaderOnly` | src/component.py:73-76 | a header with no rows gives a file that holds only the extended header, and the run succeeds |
| `Component.ReadRowLine` | src/component.py:70-82 | with distinct column names, none of them `row_number`, a row of the header's length or one longer is written as its first fields followed by its index |
| `Component.WholeRowCopied` | src/component.py:70-82 | the same for a whole run: output line i + 1 is non-empty row i's first fields followed by `str(i)` |
| `Component.TwoRowExample` | src/component.py:70-82 | header `id,name` with rows (1, Alice) and (2, Bob) gives `id,name,row_number`, then (1, Alice, 0) and (2, Bob, 1), with nothing echoed |
| `Component.OneFieldLongerExample` | src/component.py:70-82 | header `id` with the row (1, x) gives `id,row_number`, then (1, 0), and the run succeeds |
| `Component.RunAsWritten` | src/component.py:69-70 | as written, every run that gets past the `print_rows` lookup fails, and leaves the output file opened but empty |
| `Component.AsWrittenLosesHeader` | src/component.py:69-75 | as written, the output file stays empty, while the intended run always writes at least the extended header |
| `Values.Decimal` | src/component.py:81-82 | the writer's text for the stored index is a non-empty string of decimal digits, with no leading zero |
| `Values.ParseDecimalInverse` | src/component.py:81-82 | reading a written index cell back as an integer gives the index again |
| `Values.DecimalInjective` | src/component.py:81-82 | distinct row indices are written as distinct cells |

## Left out

- Opening files, joining paths and finding the data directory (`KBC_DATADIR` or the default under the project): the input is the parsed header and rows, and the output is the list of lines given to the writer. A missing input file is not modelled.
- CSV text: quoting, delimiter, line terminator and multi-line fields. A line is modelled as its sequence of cells, and an input row as its sequence of fields.
- The environment handler's internals: how it loads the configuration, how it validates the mandatory parameters and the image parameters, and any failure of its own constructor. Validation is an input, `validationPasses`.
- `Launch`: `validationPasses` is not derived from the configuration, so the model does not tie a missing `debug` entry (the only mandatory parameter, src/component.py:21) to the validation exit.
- `Launch`: the exit code of an exception escaping the component's constructor, other than the validation exit, is not modelled. That path runs entirely inside the environment handler.
- Log records and console text. The echo of a row is modelled as the pair of its index and the reader's dictionary, not as formatted text.
- State files and the output manifest: the code neither reads nor writes them.
- Floating-point configuration values.

## Findings

| source | as written | input that shows it | evidently intended | confidence | as-written member | corrected member |
|---|---|---|---|---|---|---|
| src/component.py:70 | `csv.DictReader` is used, but `csv` is never imported. The name lookup raises NameError after both files are opened, so the output file is left empty and the process exits with 1. | configuration `{"debug": false, "print_rows": false}`, input header `id,name` with no rows | `import csv`; the output holds at least the extended header `id,name,row_number` | high; not executed | `Component.RunAsWritten` | `Component.Execute` |
