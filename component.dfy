/** The template component: it reads a table, appends a `row_number` column
    holding each row's zero-based position and writes the result. The file
    handles, the CSV text format and the environment handler's internals are
    abstracted: the input is the header and the rows of fields the CSV parser
    yields, the output is the sequence of lines (each a sequence of cells)
    handed to the writer. */
module Component {
  import opened Values

  type Config = map<string, Value>

  /** Column name list, in file order. */
  type Header = seq<string>

  /** A value in a row dictionary: a field's text, the reader's None for a
      field the row is too short to have, or the index stored by the loop. */
  datatype Field = Text(s: string) | Missing | Index(n: nat)

  /** A row dictionary: its values under column names, and the list of
      surplus fields the reader stores under the key None, if any. */
  datatype Record = Record(fields: map<string, Field>, rest: Option<seq<string>>)

  /** The input file: no line at all (the reader's fieldnames is None), or a
      header line and the rows after it, each a sequence of fields. */
  datatype Input = NoHeader | Table(header: Header, rows: seq<seq<string>>)

  /** The output file: never opened, or opened for writing and truncated, then
      given these lines. */
  datatype OutputFile = Untouched | Written(lines: seq<seq<string>>)

  datatype Error =
    | KeyMissing(key: string)        // subscript of an absent config key
    | NoFieldnames                   // `append` on the reader's fieldnames None
    | ExtraFields                    // the writer refuses keys outside its fieldnames
    | NameNotDefined(name: string)   // a module used without being imported

  /** A row dictionary as the loop prints it, before the index is stored. */
  datatype Echo = Echo(index: nat, row: Record)

  datatype RunResult = RunResult(file: OutputFile, echoed: seq<Echo>, error: Option<Error>)

  datatype Option<T> = None | Some(value: T)

  datatype LogLevel = Info | Debug

  /** What one process execution leaves behind. */
  datatype Process = Process(level: LogLevel, exitCode: nat, file: OutputFile, echoed: seq<Echo>)

  const DebugKey := "debug"
  const PrintRowsKey := "print_rows"
  const RowNumber := "row_number"

  // ---------------------------------------------------------------------------
  // Start-up: debug flag and validation

  /** The value handed to the constructor: the first command-line argument if
      there is one (argv[0] is the program), else False. */
  function DebugArgument(argv: seq<string>): (v: Value)
    ensures Truthy(v) <==> |argv| > 1 && argv[1] != ""
  {
    if |argv| > 1 then Str(argv[1]) else Bool(false)
  }

  /** The configuration asks for debug output: `cfg_params.get('debug')` is truthy. */
  predicate ConfigDebug(cfg: Config)
    ensures ConfigDebug(cfg) <==> Truthy(if DebugKey in cfg then cfg[DebugKey] else Null)
  {
    DebugKey in cfg && Truthy(cfg[DebugKey])
  }

  /** The constructor's control flow. The environment handler starts at DEBUG
      or INFO from the argument; a truthy `debug` in the configuration then
      forces DEBUG. Validation of the mandatory parameters is done by the
      handler and is given here as its outcome; a failure exits with code 1
      (`exited`). */
  method Init(debugArg: Value, cfg: Config, validationPasses: bool) returns (level: LogLevel, exited: bool)
    ensures level == Debug <==> Truthy(debugArg) || ConfigDebug(cfg)
    ensures exited <==> !validationPasses
  {
    level := if Truthy(debugArg) then Debug else Info;
    var debug := Truthy(debugArg);
    if ConfigDebug(cfg) {
      debug := true;
    }
    if debug {
      level := Debug;
    }
    exited := !validationPasses;
  }

  // ---------------------------------------------------------------------------
  // The dictionary reader. Its fieldnames list is the very list the run
  // extends with `row_number`, so every data row is paired with the extended
  // names.

  /** dict(zip(names, values)) for names and values of one length: a name that
      occurs twice keeps its later value. */
  function Assign(names: seq<string>, values: seq<string>): (d: map<string, Field>)
    requires |names| == |values|
    decreases |names|
  {
    if names == [] then map[]
    else Assign(names[..|names| - 1], values[..|values| - 1])[names[|names| - 1] := Text(values[|values| - 1])]
  }

  lemma {:induction false} AssignKeys(names: seq<string>, values: seq<string>)
    requires |names| == |values|
    ensures forall k :: k in Assign(names, values) ==> k in names
    decreases |names|
  {
    if names != [] {
      var n := |names| - 1;
      AssignKeys(names[..n], values[..n]);
      assert forall k :: k in names[..n] ==> k in names;
    }
  }

  /** A name's value is the field at its last occurrence. */
  lemma {:induction false} AssignLast(names: seq<string>, values: seq<string>, j: nat)
    requires |names| == |values| && j < |names|
    requires forall m :: j < m < |names| ==> names[m] != names[j]
    ensures names[j] in Assign(names, values) && Assign(names, values)[names[j]] == Text(values[j])
    decreases |names|
  {
    var n := |names| - 1;
    if j < n {
      AssignLast(names[..n], values[..n], j);
    }
  }

  /** The reader's None under every name the row is too short to reach. */
  function Padding(names: seq<string>): (d: map<string, Field>)
  {
    map k | k in names :: Missing
  }

  /** The dictionary the reader builds from one row: fields paired with the
      names; surplus fields under the key None; a short row padded with None. */
  function ReadRow(names: Header, row: seq<string>): (rec: Record)
  {
    if |row| > |names| then Record(Assign(names, row[..|names|]), Some(row[|names|..]))
    else Record(Assign(names[..|row|], row) + Padding(names[|row|..]), None)
  }

  /** Under the last occurrence of a name, the reader stores the row's field at
      that position, or None when the row is shorter. */
  lemma ReadRowField(names: Header, row: seq<string>, j: nat)
    requires j < |names|
    requires forall m :: j < m < |names| ==> names[m] != names[j]
    ensures names[j] in ReadRow(names, row).fields
    ensures ReadRow(names, row).fields[names[j]] == if j < |row| then Text(row[j]) else Missing
  {
    if |row| > |names| {
      AssignLast(names, row[..|names|], j);
    } else if j < |row| {
      AssignLast(names[..|row|], row, j);
      forall k | k in names[|row|..] ensures k != names[j] {
        var m :| 0 <= m < |names[|row|..]| && names[|row|..][m] == k;
        assert names[|row| + m] == k;
      }
    } else {
      assert names[j] == names[|row|..][j - |row|];
    }
  }

  /** A reader's dictionary has no name outside the reader's names. */
  lemma ReadRowKeys(names: Header, row: seq<string>)
    ensures forall k :: k in ReadRow(names, row).fields ==> k in names
    ensures ReadRow(names, row).rest.Some? <==> |row| > |names|
  {
    if |row| > |names| {
      AssignKeys(names, row[..|names|]);
    } else {
      AssignKeys(names[..|row|], row);
      assert forall k :: k in names[..|row|] ==> k in names;
      assert forall k :: k in names[|row|..] ==> k in names;
    }
  }

  /** The rows the reader yields a dictionary for: it skips empty rows. */
  function NonBlank(rows: seq<seq<string>>): (kept: seq<seq<string>>)
    ensures |kept| <= |rows|
    ensures forall i :: 0 <= i < |kept| ==> kept[i] != [] && kept[i] in rows
    decreases |rows|
  {
    if rows == [] then []
    else
      var front := NonBlank(rows[..|rows| - 1]);
      assert forall r :: r in rows[..|rows| - 1] ==> r in rows;
      if rows[|rows| - 1] == [] then front else front + [rows[|rows| - 1]]
  }

  /** Without empty rows, the reader yields one dictionary per row, in order. */
  lemma {:induction false} NonBlankKeepsAll(rows: seq<seq<string>>)
    requires forall i :: 0 <= i < |rows| ==> rows[i] != []
    ensures NonBlank(rows) == rows
    decreases |rows|
  {
    if rows != [] {
      var n := |rows| - 1;
      NonBlankKeepsAll(rows[..n]);
      assert rows[..n] + [rows[n]] == rows;
    }
  }

  /** Skipping empty rows distributes over concatenation: the rows kept from
      a file are those kept from any first part followed by those kept from
      the rest. */
  lemma {:induction false} NonBlankConcat(a: seq<seq<string>>, b: seq<seq<string>>)
    ensures NonBlank(a + b) == NonBlank(a) + NonBlank(b)
    decreases |b|
  {
    if b == [] {
      assert a + b == a;
    } else {
      var n := |b| - 1;
      assert (a + b)[..|a + b| - 1] == a + b[..n];
      NonBlankConcat(a, b[..n]);
    }
  }

  /** A single row is kept exactly when it is not empty. With `NonBlankConcat`
      this fixes the kept rows completely: every non-empty row, once, in file
      order, and no empty one. */
  lemma NonBlankSingle(row: seq<string>)
    ensures NonBlank([row]) == if row == [] then [] else [row]
  {
    assert [row][..0] == [];
  }

  /** The dictionaries the reader yields, in file order. */
  function Read(names: Header, rows: seq<seq<string>>): (records: seq<Record>)
  {
    var kept := NonBlank(rows);
    seq(|kept|, i requires 0 <= i < |kept| => ReadRow(names, kept[i]))
  }

  // ---------------------------------------------------------------------------
  // The transform

  /** The row dictionary after `l['row_number'] = index`. */
  function Numbered(rec: Record, index: nat): (row: Record)
  {
    rec.(fields := rec.fields[RowNumber := Index(index)])
  }

  /** Storing the index adds the `row_number` key, or rebinds it, and changes
      no other field and not the surplus fields. */
  lemma NumberedFields(rec: Record, index: nat)
    ensures Numbered(rec, index).fields.Keys == rec.fields.Keys + {RowNumber}
    ensures Numbered(rec, index).fields[RowNumber] == Index(index)
    ensures forall k :: k in rec.fields && k != RowNumber ==> Numbered(rec, index).fields[k] == rec.fields[k]
    ensures Numbered(rec, index).rest == rec.rest
  {
  }

  /** The writer's text for one value: text as is, None as the empty string,
      the index through str(). */
  function Render(f: Field): (cell: string)
    ensures f.Index? ==> (forall k :: 0 <= k < |cell| ==> IsDigit(cell[k])) && ParseDecimal(cell) == f.n
    ensures f.Missing? ==> cell == ""
  {
    match f
    case Text(s) => s
    case Missing => ""
    case Index(n) => ParseDecimalInverse(n); Decimal(n)
  }

  /** The writer's rule for keys outside its fieldnames (extrasaction 'raise'):
      the key None of surplus fields is never one of them. */
  predicate Fits(columns: Header, row: Record)
  {
    row.rest.None? && forall k :: k in row.fields ==> k in columns
  }

  /** The cells the writer emits for a row: one per column name, in column
      order, the empty restval for a key the row lacks. */
  function Line(columns: Header, row: Record): (line: seq<string>)
    ensures |line| == |columns|
    ensures forall j, m :: 0 <= j < |columns| && 0 <= m < |columns| && columns[j] == columns[m] ==> line[j] == line[m]
  {
    seq(|columns|, j requires 0 <= j < |columns| => if columns[j] in row.fields then Render(row.fields[columns[j]]) else "")
  }

  /** The cell a numbered row gets in a column: the index under `row_number`,
      the row's own value under its other columns, and the empty restval
      elsewhere. */
  lemma NumberedCell(columns: Header, rec: Record, index: nat, j: nat)
    requires j < |columns|
    ensures |Line(columns, Numbered(rec, index))| == |columns|
    ensures Line(columns, Numbered(rec, index))[j] ==
              if columns[j] == RowNumber then Decimal(index)
              else if columns[j] in rec.fields then Render(rec.fields[columns[j]])
              else ""
  {
    NumberedFields(rec, index);
  }

  /** A row the reader built from the extended names fits the writer exactly
      when it has no more fields than there are names. */
  lemma ReadRowFits(columns: Header, row: seq<string>, index: nat)
    requires RowNumber in columns
    ensures Fits(columns, Numbered(ReadRow(columns, row), index)) <==> |row| <= |columns|
  {
    ReadRowKeys(columns, row);
    NumberedFields(ReadRow(columns, row), index);
  }

  datatype RowsResult = RowsResult(lines: seq<seq<string>>, echoed: seq<Echo>, error: Option<Error>)

  /** The loop over the records, as it stands after the records given: one
      line per written row, the echoed rows when printing is on, and the
      writer's error that ended the loop early, if any. */
  function NumberRows(columns: Header, records: seq<Record>, printRows: bool): (r: RowsResult)
    ensures |r.lines| <= |records|
    ensures r.error.None? ==> |r.lines| == |records|
    ensures r.error.Some? ==> r.error.value == ExtraFields && |r.lines| < |records|
    decreases |records|
  {
    if records == [] then RowsResult([], [], None)
    else
      var prev := NumberRows(columns, records[..|records| - 1], printRows);
      if prev.error.Some? then prev
      else
        var index := |records| - 1;
        var echo := if printRows then [Echo(index, records[index])] else [];
        var row := Numbered(records[index], index);
        if Fits(columns, row) then RowsResult(prev.lines + [Line(columns, row)], prev.echoed + echo, None)
        else RowsResult(prev.lines, prev.echoed + echo, Some(ExtraFields))
  }

  /** One more turn of the loop, after a prefix that wrote every row. */
  lemma NumberRowsStep(columns: Header, records: seq<Record>, printRows: bool, index: nat)
    requires index < |records|
    requires NumberRows(columns, records[..index], printRows).error.None?
    ensures var prev := NumberRows(columns, records[..index], printRows);
            var row := Numbered(records[index], index);
            var echo := if printRows then [Echo(index, records[index])] else [];
            NumberRows(columns, records[..index + 1], printRows) ==
              if Fits(columns, row) then RowsResult(prev.lines + [Line(columns, row)], prev.echoed + echo, None)
              else RowsResult(prev.lines, prev.echoed + echo, Some(ExtraFields))
  {
    assert records[..index + 1][..index] == records[..index];
  }

  /** What a run does with a configuration and an input file, with the csv
      module imported as the code evidently intends. The reader pairs the data
      rows with the header after `row_number` has been appended to it. */
  function Execute(cfg: Config, input: Input): (r: RunResult)
    ensures PrintRowsKey !in cfg ==> r.file == Untouched && r.error == Some(KeyMissing(PrintRowsKey))
    ensures PrintRowsKey in cfg ==> r.file.Written?
    ensures PrintRowsKey in cfg && input.Table? ==>
              |r.file.lines| >= 1 && r.file.lines[0] == input.header + [RowNumber]
    ensures r.error.None? ==> input.Table? && |r.file.lines| == |NonBlank(input.rows)| + 1
  {
    if PrintRowsKey !in cfg then RunResult(Untouched, [], Some(KeyMissing(PrintRowsKey)))
    else
      match input
      case NoHeader => RunResult(Written([]), [], Some(NoFieldnames))
      case Table(header, rows) =>
        var columns := header + [RowNumber];
        var out := NumberRows(columns, Read(columns, rows), Truthy(cfg[PrintRowsKey]));
        RunResult(Written([columns] + out.lines), out.echoed, out.error)
  }

  /** Once the loop has stopped on an error, the later records change nothing. */
  lemma {:induction false} ErrorIsFinal(columns: Header, records: seq<Record>, printRows: bool, k: nat)
    requires k <= |records|
    requires NumberRows(columns, records[..k], printRows).error.Some?
    ensures NumberRows(columns, records, printRows) == NumberRows(columns, records[..k], printRows)
    decreases |records| - k
  {
    if k < |records| {
      var front := records[..|records| - 1];
      assert front[..k] == records[..k];
      ErrorIsFinal(columns, front, printRows, k);
    } else {
      assert records[..k] == records;
    }
  }

  /** The lines written so far are exactly the first records, each numbered by
      its position; when the loop stopped on an error, the next record is the
      first that does not fit the writer's columns. */
  lemma {:induction false} WrittenPrefix(columns: Header, records: seq<Record>, printRows: bool)
    ensures var r := NumberRows(columns, records, printRows);
            var k := |r.lines|;
            (forall i :: 0 <= i < k ==> Fits(columns, Numbered(records[i], i)) && r.lines[i] == Line(columns, Numbered(records[i], i))) &&
            (r.error.Some? ==> !Fits(columns, Numbered(records[k], k)))
    decreases |records|
  {
    if records != [] {
      var n := |records| - 1;
      var front := records[..n];
      WrittenPrefix(columns, front, printRows);
      var prev := NumberRows(columns, front, printRows);
      assert forall i :: 0 <= i < n ==> front[i] == records[i];
      if prev.error.None? {
        NumberRowsStep(columns, records, printRows, n);
        assert records[..n + 1] == records;
      }
    }
  }

  /** With every row fitting the writer, the loop writes one line per record,
      the i-th from the i-th record numbered i, and echoes every record in order
      when printing is on. */
  lemma NumberRowsAllFit(columns: Header, records: seq<Record>, printRows: bool)
    requires forall i :: 0 <= i < |records| ==> Fits(columns, Numbered(records[i], i))
    ensures var r := NumberRows(columns, records, printRows);
            r.error.None? && |r.lines| == |records| &&
            (forall i :: 0 <= i < |records| ==> r.lines[i] == Line(columns, Numbered(records[i], i))) &&
            r.echoed == if printRows then EchoAll(records) else []
  {
    WrittenPrefix(columns, records, printRows);
    EchoedAll(columns, records, printRows);
  }

  /** A loop that ran to the end echoed every record in order when printing
      is on, and nothing otherwise. */
  lemma {:induction false} EchoedAll(columns: Header, records: seq<Record>, printRows: bool)
    requires NumberRows(columns, records, printRows).error.None?
    ensures NumberRows(columns, records, printRows).echoed == if printRows then EchoAll(records) else []
    decreases |records|
  {
    if records != [] {
      var n := |records| - 1;
      var front := records[..n];
      EchoedAll(columns, front, printRows);
      NumberRowsStep(columns, records, printRows, n);
      assert records[..n + 1] == records;
      assert EchoAll(records) == EchoAll(front) + [Echo(n, records[n])];
    }
  }

  /** Whether or not the loop ran to the end, it echoed, when printing is on,
      every record up to and including the one the writer refused, in order. */
  lemma {:induction false} EchoedPrefix(columns: Header, records: seq<Record>, printRows: bool)
    ensures var r := NumberRows(columns, records, printRows);
            var k := if r.error.Some? then |r.lines| + 1 else |records|;
            k <= |records| && r.echoed == if printRows then EchoAll(records[..k]) else []
    decreases |records|
  {
    if NumberRows(columns, records, printRows).error.None? {
      EchoedAll(columns, records, printRows);
      assert records[..|records|] == records;
    } else {
      EchoedUpToError(columns, records, printRows);
    }
  }

  lemma {:induction false} EchoedUpToError(columns: Header, records: seq<Record>, printRows: bool)
    requires NumberRows(columns, records, printRows).error.Some?
    ensures var r := NumberRows(columns, records, printRows);
            r.echoed == if printRows then EchoAll(records[..|r.lines| + 1]) else []
    decreases |records|
  {
    var n := |records| - 1;
    var front := records[..n];
    var prev := NumberRows(columns, front, printRows);
    if prev.error.None? {
      EchoedAll(columns, front, printRows);
      NumberRowsStep(columns, records, printRows, n);
      assert records[..n + 1] == records;
      assert EchoAll(records) == EchoAll(front) + [Echo(n, records[n])];
    } else {
      EchoedUpToError(columns, front, printRows);
      assert NumberRows(columns, records, printRows) == prev;
      assert front[..|prev.lines| + 1] == records[..|prev.lines| + 1];
    }
  }

  /** Every record, paired with its position. */
  function EchoAll(records: seq<Record>): (echoed: seq<Echo>)
    ensures |echoed| == |records|
    ensures forall i :: 0 <= i < |records| ==> echoed[i] == Echo(i, records[i])
  {
    seq(|records|, i requires 0 <= i < |records| => Echo(i, records[i]))
  }

  // ---------------------------------------------------------------------------
  // What a run promises

  /** No data row has more fields than the extended header has names. */
  predicate Fitting(header: Header, rows: seq<seq<string>>)
  {
    forall i :: 0 <= i < |rows| ==> |rows[i]| <= |header| + 1
  }

  /** The reader's dictionaries for fitting rows all pass the writer's check:
      the reader uses only the extended names, and a row one field longer than
      the header has its last field under `row_number`, not under None. */
  lemma FittingRowsFit(header: Header, rows: seq<seq<string>>)
    requires Fitting(header, rows)
    ensures var records := Read(header + [RowNumber], rows);
            forall i :: 0 <= i < |records| ==> Fits(header + [RowNumber], Numbered(records[i], i))
  {
    var columns := header + [RowNumber];
    var kept := NonBlank(rows);
    assert RowNumber in columns by {
      assert columns[|header|] == RowNumber;
    }
    forall i | 0 <= i < |kept| ensures Fits(columns, Numbered(ReadRow(columns, kept[i]), i)) {
      ReadRowFits(columns, kept[i], i);
    }
  }

  /** For fitting rows the run succeeds: the extended header, then exactly one
      line per non-empty input row, line i + 1 from row i numbered i. */
  lemma RowCountPreserved(cfg: Config, header: Header, rows: seq<seq<string>>)
    requires PrintRowsKey in cfg && Fitting(header, rows)
    ensures var r := Execute(cfg, Table(header, rows));
            var columns := header + [RowNumber];
            var kept := NonBlank(rows);
            r.error.None? && r.file.Written? && |r.file.lines| == |kept| + 1 &&
            r.file.lines[0] == columns &&
            forall i :: 0 <= i < |kept| ==> r.file.lines[i + 1] == Line(columns, Numbered(ReadRow(columns, kept[i]), i))
  {
    FittingRowsFit(header, rows);
    NumberRowsAllFit(header + [RowNumber], Read(header + [RowNumber], rows), Truthy(cfg[PrintRowsKey]));
  }

  /** Output data row i, counted from 0 over the non-empty input rows, carries
      i in its last column, and that cell reads back as i. */
  lemma RowsNumberedInOrder(cfg: Config, header: Header, rows: seq<seq<string>>, i: nat)
    requires PrintRowsKey in cfg && Fitting(header, rows) && i < |NonBlank(rows)|
    ensures var lines := Execute(cfg, Table(header, rows)).file.lines;
            |lines| == |NonBlank(rows)| + 1 && |lines[i + 1]| == |header| + 1 &&
            lines[i + 1][|header|] == Decimal(i) &&
            ParseDecimal(lines[i + 1][|header|]) == i
  {
    var columns := header + [RowNumber];
    RowCountPreserved(cfg, header, rows);
    NumberedCell(columns, ReadRow(columns, NonBlank(rows)[i]), i, |header|);
    ParseDecimalInverse(i);
  }

  /** Two different output data rows carry different row numbers. */
  lemma RowNumbersDistinct(cfg: Config, header: Header, rows: seq<seq<string>>, i: nat, i': nat)
    requires PrintRowsKey in cfg && Fitting(header, rows)
    requires i < |NonBlank(rows)| && i' < |NonBlank(rows)| && i != i'
    ensures var lines := Execute(cfg, Table(header, rows)).file.lines;
            |lines| == |NonBlank(rows)| + 1 && |lines[i + 1]| == |lines[i' + 1]| == |header| + 1 &&
            lines[i + 1][|header|] != lines[i' + 1][|header|]
  {
    RowsNumberedInOrder(cfg, header, rows, i);
    RowsNumberedInOrder(cfg, header, rows, i');
    if Decimal(i) == Decimal(i') {
      DecimalInjective(i, i');
    }
  }

  /** Every input column other than `row_number` keeps, at the last occurrence
      of its name, the row's own field, or an empty cell when the row is too
      short to have one. */
  lemma FieldsCopied(cfg: Config, header: Header, rows: seq<seq<string>>, i: nat, j: nat)
    requires PrintRowsKey in cfg && Fitting(header, rows) && i < |NonBlank(rows)|
    requires j < |header| && header[j] != RowNumber
    requires forall m :: j < m < |header| ==> header[m] != header[j]
    ensures var lines := Execute(cfg, Table(header, rows)).file.lines;
            var row := NonBlank(rows)[i];
            |lines| == |NonBlank(rows)| + 1 && |lines[i + 1]| == |header| + 1 &&
            lines[i + 1][j] == if j < |row| then row[j] else ""
  {
    var columns := header + [RowNumber];
    var row := NonBlank(rows)[i];
    RowCountPreserved(cfg, header, rows);
    ReadRowField(columns, row, j);
    NumberedCell(columns, ReadRow(columns, row), i, j);
  }

  /** A column name used twice gets the same cell in both positions of every
      output line: the value of its last occurrence. */
  lemma DuplicateNamesShareCell(cfg: Config, header: Header, rows: seq<seq<string>>, i: nat, j: nat, m: nat)
    requires PrintRowsKey in cfg && Fitting(header, rows) && i < |NonBlank(rows)|
    requires j < |header| && m < |header| && header[j] == header[m]
    ensures var lines := Execute(cfg, Table(header, rows)).file.lines;
            |lines| == |NonBlank(rows)| + 1 && |lines[i + 1]| == |header| + 1 &&
            lines[i + 1][j] == lines[i + 1][m]
  {
    var columns := header + [RowNumber];
    var row := Numbered(ReadRow(columns, NonBlank(rows)[i]), i);
    RowCountPreserved(cfg, header, rows);
    assert columns[j] == columns[m];
    assert Execute(cfg, Table(header, rows)).file.lines[i + 1] == Line(columns, row);
  }

  /** An input header that already has a `row_number` column gives a duplicated
      output column name; the stored index replaces whatever the reader put
      there, so every `row_number` position of output row i holds i. */
  lemma ExistingRowNumberColumnOverwritten(cfg: Config, header: Header, rows: seq<seq<string>>, i: nat, j: nat)
    requires PrintRowsKey in cfg && Fitting(header, rows) && i < |NonBlank(rows)|
    requires j < |header| && header[j] == RowNumber
    ensures var lines := Execute(cfg, Table(header, rows)).file.lines;
            |lines| == |NonBlank(rows)| + 1 && |lines[0]| == |lines[i + 1]| == |header| + 1 &&
            lines[0][j] == lines[0][|header|] == RowNumber &&
            lines[i + 1][j] == lines[i + 1][|header|] == Decimal(i)
  {
    var columns := header + [RowNumber];
    var rec := ReadRow(columns, NonBlank(rows)[i]);
    RowCountPreserved(cfg, header, rows);
    NumberedCell(columns, rec, i, j);
    NumberedCell(columns, rec, i, |header|);
  }

  /** The reader's value under `row_number`, which the loop then replaces and
      which the echo shows: None for a row of the header's length or shorter,
      the surplus field for a row one field longer. */
  lemma ReaderFillsRowNumber(header: Header, row: seq<string>)
    ensures var rec := ReadRow(header + [RowNumber], row);
            RowNumber in rec.fields &&
            rec.fields[RowNumber] == if |row| > |header| then Text(row[|header|]) else Missing
  {
    ReadRowField(header + [RowNumber], row, |header|);
  }

  /** The loop over the reader's dictionaries writes exactly the rows up to
      the first one with more fields than the extended header has names. */
  lemma LoopStopsAtFirstLongRow(columns: Header, rows: seq<seq<string>>, printRows: bool)
    requires RowNumber in columns
    ensures var kept := NonBlank(rows);
            var out := NumberRows(columns, Read(columns, rows), printRows);
            (forall i :: 0 <= i < |out.lines| ==> |kept[i]| <= |columns|) &&
            (out.error.Some? ==> |kept[|out.lines|]| > |columns|)
  {
    var kept := NonBlank(rows);
    var records := Read(columns, rows);
    var out := NumberRows(columns, records, printRows);
    WrittenPrefix(columns, records, printRows);
    forall i | 0 <= i < |out.lines| ensures |kept[i]| <= |columns| {
      assert records[i] == ReadRow(columns, kept[i]);
      ReadRowFits(columns, kept[i], i);
    }
    if out.error.Some? {
      var k := |out.lines|;
      assert records[k] == ReadRow(columns, kept[k]);
      ReadRowFits(columns, kept[k], k);
    }
  }

  /** A run stops at the first non-empty row with two or more fields beyond the
      header: the rows before it are written, that row and the later ones are
      not, and the writer's error ends the run. */
  lemma RunStopsAtFirstLongRow(cfg: Config, header: Header, rows: seq<seq<string>>)
    requires PrintRowsKey in cfg
    ensures var r := Execute(cfg, Table(header, rows));
            var kept := NonBlank(rows);
            var k := |r.file.lines| - 1;
            0 <= k <= |kept| &&
            (forall i :: 0 <= i < k ==> |kept[i]| <= |header| + 1) &&
            (r.error.Some? ==> k < |kept| && |kept[k]| > |header| + 1) &&
            (r.error.None? ==> k == |kept|)
  {
    var columns := header + [RowNumber];
    assert columns[|header|] == RowNumber;
    LoopStopsAtFirstLongRow(columns, rows, Truthy(cfg[PrintRowsKey]));
  }

  /** The print flag only decides what is echoed: lines and errors of the loop
      are the same either way. */
  lemma {:induction false} LinesIgnorePrintFlag(columns: Header, records: seq<Record>)
    ensures NumberRows(columns, records, true).lines == NumberRows(columns, records, false).lines
    ensures NumberRows(columns, records, true).error == NumberRows(columns, records, false).error
    decreases |records|
  {
    if records != [] {
      LinesIgnorePrintFlag(columns, records[..|records| - 1]);
    }
  }

  /** The output file and the outcome do not depend on the `print_rows` value. */
  lemma OutputIgnoresPrintFlag(cfg: Config, flag: Value, input: Input)
    requires PrintRowsKey in cfg
    ensures Execute(cfg[PrintRowsKey := flag], input).file == Execute(cfg, input).file
    ensures Execute(cfg[PrintRowsKey := flag], input).error == Execute(cfg, input).error
  {
    if input.Table? {
      var columns := input.header + [RowNumber];
      LinesIgnorePrintFlag(columns, Read(columns, input.rows));
    }
  }

  /** A truthy `print_rows` echoes every reader dictionary in order, before its
      index is stored; a falsy one echoes nothing. */
  lemma EchoesFollowPrintFlag(cfg: Config, header: Header, rows: seq<seq<string>>)
    requires PrintRowsKey in cfg && Fitting(header, rows)
    ensures var echoed := Execute(cfg, Table(header, rows)).echoed;
            if Truthy(cfg[PrintRowsKey])
            then echoed == EchoAll(Read(header + [RowNumber], rows))
            else echoed == []
  {
    FittingRowsFit(header, rows);
    NumberRowsAllFit(header + [RowNumber], Read(header + [RowNumber], rows), Truthy(cfg[PrintRowsKey]));
  }

  /** With any rows, a truthy `print_rows` echoes the reader's dictionaries in
      order up to and including the first one the writer refuses, or all of
      them when none is refused; a falsy one echoes nothing. */
  lemma EchoesUpToRefusedRow(cfg: Config, header: Header, rows: seq<seq<string>>)
    requires PrintRowsKey in cfg
    ensures var r := Execute(cfg, Table(header, rows));
            var records := Read(header + [RowNumber], rows);
            var k := if r.error.Some? then |r.file.lines| else |records|;
            k <= |records| &&
            r.echoed == if Truthy(cfg[PrintRowsKey]) then EchoAll(records[..k]) else []
  {
    EchoedPrefix(header + [RowNumber], Read(header + [RowNumber], rows), Truthy(cfg[PrintRowsKey]));
  }

  /** A header with no rows gives a file holding only the extended header. */
  lemma EmptyTableYieldsHeaderOnly(cfg: Config, header: Header)
    requires PrintRowsKey in cfg
    ensures Execute(cfg, Table(header, [])) == RunResult(Written([header + [RowNumber]]), [], None)
  {
  }

  /** The writer's line for one row the reader paired with the extended
      names, when the header names are distinct and none is `row_number`. */
  lemma ReadRowLine(header: Header, row: seq<string>, i: nat)
    requires RowNumber !in header
    requires forall a, b :: 0 <= a < b < |header| ==> header[a] != header[b]
    requires |header| <= |row| <= |header| + 1
    ensures Line(header + [RowNumber], Numbered(ReadRow(header + [RowNumber], row), i)) == row[..|header|] + [Decimal(i)]
  {
    var columns := header + [RowNumber];
    var rec := ReadRow(columns, row);
    var line := Line(columns, Numbered(rec, i));
    forall j | 0 <= j < |header| ensures line[j] == row[j] {
      assert columns[j] == header[j];
      ReadRowField(columns, row, j);
      NumberedCell(columns, rec, i, j);
    }
    NumberedCell(columns, rec, i, |header|);
    assert line == row[..|header|] + [Decimal(i)];
  }

  /** With distinct column names, none of them `row_number`, a row with at
      least as many fields as the header is written as its first fields, one
      per column, followed by its index. */
  lemma WholeRowCopied(cfg: Config, header: Header, rows: seq<seq<string>>, i: nat)
    requires PrintRowsKey in cfg && Fitting(header, rows) && i < |NonBlank(rows)|
    requires RowNumber !in header
    requires forall a, b :: 0 <= a < b < |header| ==> header[a] != header[b]
    requires |NonBlank(rows)[i]| >= |header|
    ensures var lines := Execute(cfg, Table(header, rows)).file.lines;
            |lines| == |NonBlank(rows)| + 1 &&
            lines[i + 1] == NonBlank(rows)[i][..|header|] + [Decimal(i)]
  {
    var columns := header + [RowNumber];
    RowCountPreserved(cfg, header, rows);
    ReadRowLine(header, NonBlank(rows)[i], i);
  }

  /** One data line of the two-row example. */
  lemma TwoRowLine(cfg: Config, header: Header, rows: seq<seq<string>>, i: nat)
    requires cfg == map[PrintRowsKey := Bool(false)]
    requires header == ["id", "name"] && rows == [["1", "Alice"], ["2", "Bob"]]
    requires i < 2
    ensures var lines := Execute(cfg, Table(header, rows)).file.lines;
            |lines| == 3 && lines[i + 1] == rows[i] + [Decimal(i)]
  {
    NonBlankKeepsAll(rows);
    assert |rows[i]| == |header|;
    WholeRowCopied(cfg, header, rows, i);
  }

  /** The file of the two-row example, line by line. */
  lemma TwoRowFile(cfg: Config, header: Header, rows: seq<seq<string>>)
    requires cfg == map[PrintRowsKey := Bool(false)]
    requires header == ["id", "name"] && rows == [["1", "Alice"], ["2", "Bob"]]
    ensures Execute(cfg, Table(header, rows)).file == Written([["id", "name", "row_number"], ["1", "Alice", "0"], ["2", "Bob", "1"]])
  {
    TwoRowLine(cfg, header, rows, 0);
    TwoRowLine(cfg, header, rows, 1);
    var lines := Execute(cfg, Table(header, rows)).file.lines;
    assert lines[0] == ["id", "name", "row_number"];
    assert Decimal(0) == "0" && Decimal(1) == "1";
    assert lines[1] == ["1", "Alice", "0"];
    assert lines[2] == ["2", "Bob", "1"];
    assert lines == [lines[0], lines[1], lines[2]];
  }

  /** Header `id,name`, rows (1, Alice) and (2, Bob), printing off. */
  lemma TwoRowExample(cfg: Config, header: Header, rows: seq<seq<string>>)
    requires cfg == map[PrintRowsKey := Bool(false)]
    requires header == ["id", "name"] && rows == [["1", "Alice"], ["2", "Bob"]]
    ensures Execute(cfg, Table(header, rows))
         == RunResult(Written([["id", "name", "row_number"], ["1", "Alice", "0"], ["2", "Bob", "1"]]), [], None)
  {
    TwoRowFile(cfg, header, rows);
    EchoesFollowPrintFlag(cfg, header, rows);
    RowCountPreserved(cfg, header, rows);
  }

  /** The data line of the one-field-longer example. */
  lemma OneFieldLongerLine(cfg: Config, header: Header, rows: seq<seq<string>>)
    requires cfg == map[PrintRowsKey := Bool(false)]
    requires header == ["id"] && rows == [["1", "x"]]
    ensures var lines := Execute(cfg, Table(header, rows)).file.lines;
            |lines| == 2 && lines[1] == rows[0][..1] + [Decimal(0)]
  {
    NonBlankKeepsAll(rows);
    WholeRowCopied(cfg, header, rows, 0);
  }

  /** The file of the one-field-longer example, line by line. */
  lemma OneFieldLongerFile(cfg: Config, header: Header, rows: seq<seq<string>>)
    requires cfg == map[PrintRowsKey := Bool(false)]
    requires header == ["id"] && rows == [["1", "x"]]
    ensures Execute(cfg, Table(header, rows)).file == Written([["id", "row_number"], ["1", "0"]])
  {
    OneFieldLongerLine(cfg, header, rows);
    var lines := Execute(cfg, Table(header, rows)).file.lines;
    assert lines[0] == ["id", "row_number"];
    assert Decimal(0) == "0";
    assert rows[0][..1] == ["1"];
    assert lines[1] == ["1", "0"];
    assert lines == [lines[0], lines[1]];
  }

  /** A row one field longer than the header: the reader puts the surplus field
      under `row_number`, the index replaces it, and the run succeeds. */
  lemma OneFieldLongerExample(cfg: Config, header: Header, rows: seq<seq<string>>)
    requires cfg == map[PrintRowsKey := Bool(false)]
    requires header == ["id"] && rows == [["1", "x"]]
    ensures Execute(cfg, Table(header, rows))
         == RunResult(Written([["id", "row_number"], ["1", "0"]]), [], None)
  {
    OneFieldLongerFile(cfg, header, rows);
    EchoesFollowPrintFlag(cfg, header, rows);
    RowCountPreserved(cfg, header, rows);
  }

  /** The run as the file has it: `csv` is never imported, so the first use of
      it, after both files are opened, raises NameError; the output file is
      left truncated and empty. */
  function RunAsWritten(cfg: Config, input: Input): (r: RunResult)
    ensures r.error.Some? && r.echoed == []
    ensures PrintRowsKey in cfg ==> r.file == Written([])
  {
    if PrintRowsKey !in cfg then RunResult(Untouched, [], Some(KeyMissing(PrintRowsKey)))
    else RunResult(Written([]), [], Some(NameNotDefined("csv")))
  }

  /** As written, no input ever gets its header: for every table the intended
      run writes at least the extended header, the written one an empty file. */
  lemma AsWrittenLosesHeader(cfg: Config, header: Header, rows: seq<seq<string>>)
    requires PrintRowsKey in cfg
    ensures RunAsWritten(cfg, Table(header, rows)).file == Written([])
    ensures Execute(cfg, Table(header, rows)).file != Written([])
  {
  }

  /** The run: the configuration lookup, the header extension, then the loop
      that echoes, numbers and writes one reader dictionary at a time. */
  method Run(cfg: Config, input: Input) returns (r: RunResult)
    ensures r == Execute(cfg, input)
  {
    if PrintRowsKey !in cfg {
      return RunResult(Untouched, [], Some(KeyMissing(PrintRowsKey)));
    }
    var printRows := Truthy(cfg[PrintRowsKey]);
    if input.NoHeader? {
      return RunResult(Written([]), [], Some(NoFieldnames));
    }
    var columns := input.header + [RowNumber];
    var records := Read(columns, input.rows);
    var written := [];
    var echoed := [];
    var error := None;
    var index := 0;
    while index < |records| && error.None?
      invariant 0 <= index <= |records|
      invariant NumberRows(columns, records[..index], printRows) == RowsResult(written, echoed, error)
    {
      NumberRowsStep(columns, records, printRows, index);
      var l := records[index];
      if printRows {
        echoed := echoed + [Echo(index, l)];
      }
      var row := Numbered(l, index);
      if Fits(columns, row) {
        written := written + [Line(columns, row)];
      } else {
        error := Some(ExtraFields);
      }
      index := index + 1;
    }
    if error.Some? {
      ErrorIsFinal(columns, records, printRows, index);
    } else {
      assert records[..index] == records;
    }
    r := RunResult(Written([columns] + written), echoed, error);
  }

  /** The module's entry point: build the component from the first argument,
      then run it; any exception escaping the run exits with code 1, and so
      does a failed validation, before the run starts. */
  method Launch(argv: seq<string>, cfg: Config, validationPasses: bool, input: Input) returns (p: Process)
    ensures p.level == Debug <==> (|argv| > 1 && argv[1] != "") || ConfigDebug(cfg)
    ensures !validationPasses ==> p.exitCode == 1 && p.file == Untouched && p.echoed == []
    ensures validationPasses ==> p.file == Execute(cfg, input).file && p.echoed == Execute(cfg, input).echoed
    ensures validationPasses ==> (p.exitCode == 0 <==> Execute(cfg, input).error.None?)
    ensures p.exitCode <= 1
  {
    var level, exited := Init(DebugArgument(argv), cfg, validationPasses);
    if exited {
      return Process(level, 1, Untouched, []);
    }
    var r := Run(cfg, input);
    p := Process(level, if r.error.None? then 0 else 1, r.file, r.echoed);
  }
}
