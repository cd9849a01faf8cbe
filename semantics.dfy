/**
 * What each command does to the engine's state, as functions.  The state
 * is the in-memory catalog (table name to column list) and the file
 * system, seen as a map from file name to the lines of that file:
 * `catalog.txt` (the catalog log), `<t>.txt` (the rows of table t) and
 * `temp_<t>.txt` (the scratch file of a delete).  Console output is a
 * list of messages.
 */
module Semantics {
  import opened Text
  import opened Streams
  import opened Commands

  datatype Db = Db(catalog: map<string, seq<string>>, files: map<string, seq<string>>)

  /** Whether the read loop goes on, ends at `EXIT`, or dies of an uncaught exception. */
  datatype Status = Running | Exited | Aborted

  /** What the engine prints, one constructor per kind of line. */
  datatype Message =
    | TableCreated(name: string)
    | InvalidInsertSyntax
    | InvalidValuesSyntax
    | Inserted(name: string)
    | InvalidSelectSyntax
    | TableNotFound(name: string)
    | DataFrom(name: string)
    | Row(line: string)
    | NoDataFound
    | TableNameMissing
    | InvalidWhereFormat
    | ColumnNotFound(name: string)
      /** `clause` is echoed after " where " when it is not empty. */
    | Deleted(name: string, clause: string)
    | NoMatchingRows(name: string)
    | InvalidCommand

  /** The state after one command, what it printed, and whether the loop goes on. */
  datatype Step = Step(db: Db, messages: seq<Message>, status: Status)

  const CatalogFile := "catalog.txt"

  function TableFile(name: string): string {
    name + ".txt"
  }

  function TempFile(name: string): string {
    "temp_" + name + ".txt"
  }

  /** The lines of a file, none when it does not exist. */
  function Contents(files: map<string, seq<string>>, f: string): seq<string> {
    if f in files then files[f] else []
  }

  /** `ofstream(f, ios::app) << line << endl`: creates a missing file, then adds one line. */
  function Append(files: map<string, seq<string>>, f: string, line: string): map<string, seq<string>> {
    files[f := Contents(files, f) + [line]]
  }

  /** The catalog log line `saveTable` writes: `name,col1,...,colN`. */
  function CatalogLine(name: string, columns: seq<string>): string {
    Join([name] + columns, ',')
  }

  /** A log line read back at startup: `getline(ss, name, ',')`, then one column per further field. */
  function CatalogEntry(line: string): (string, seq<string>) {
    var (name, c) := GetLine(line, Fresh, ',', "");
    (name, Rest(line, c, ','))
  }

  /** The catalog-load loop: every log line in turn overwrites the entry of its name. */
  function Replay(log: seq<string>): map<string, seq<string>>
    decreases |log|
  {
    if log == [] then map[]
    else
      var entry := CatalogEntry(log[|log| - 1]);
      Replay(log[..|log| - 1])[entry.0 := entry.1]
  }

  /** The state at startup: the files as found, the catalog replayed from the log (empty without one). */
  function Startup(files: map<string, seq<string>>): Db {
    Db(Replay(Contents(files, CatalogFile)), files)
  }

  /**
   * `createTable`: register the definition, append it to the log, then
   * create or truncate the table's file (in that order, which matters for a
   * table whose file is the log itself).
   */
  function CreateStep(db: Db, command: string): Step {
    var args := ParseCreate(command);
    var logged := Append(db.files, CatalogFile, CatalogLine(args.name, args.columns));
    Step(Db(db.catalog[args.name := args.columns], logged[TableFile(args.name) := []]),
         [TableCreated(args.name)], Running)
  }

  /** `insertInto`: append the comma-joined values; no catalog check. */
  function InsertStep(db: Db, command: string): Step {
    match ParseInsert(command)
    case BadInsert => Step(db, [InvalidInsertSyntax], Running)
    case BadValues => Step(db, [InvalidValuesSyntax], Running)
    case InsertRow(name, values) =>
      Step(db.(files := Append(db.files, TableFile(name), Join(values, ','))), [Inserted(name)], Running)
  }

  /** One `Row` message per line, in file order. */
  function Rows(lines: seq<string>): (r: seq<Message>)
    ensures |r| == |lines|
    ensures forall i :: 0 <= i < |lines| ==> r[i] == Row(lines[i])
  {
    seq(|lines|, i requires 0 <= i < |lines| => Row(lines[i]))
  }

  /** `selectFrom`'s output; it changes nothing. */
  function SelectOutput(db: Db, command: string): seq<Message> {
    match ParseSelect(command)
    case None => [InvalidSelectSyntax]
    case Some(name) =>
      if TableFile(name) !in db.files then [TableNotFound(name)]
      else
        var lines := db.files[TableFile(name)];
        [DataFrom(name)] + Rows(lines) + (if lines == [] then [NoDataFound] else [])
  }

  /**
   * Whether the row loop of `deleteFrom` writes `line` to the temporary
   * file: never without a clause, always for a clause without `=` or on an
   * unknown column, and on a known column at index i unless the line's
   * i-th comma field equals the value.
   */
  predicate KeepRow(w: Where, columns: seq<string>, line: string) {
    match w
    case NoClause => false
    case Malformed => true
    case Equals(column, value) =>
      var i := IndexOf(columns, column);
      if i < |columns| then !FieldIs(line, i, value) else true
  }

  /** The `index`-th comma field of `line` exists and equals `value`. */
  predicate FieldIs(line: string, index: nat, value: string) {
    var fields := Split(line, ',');
    index < |fields| && fields[index] == value
  }

  /** The columns `deleteFrom` takes from the catalog: none for a table the catalog does not know. */
  function TableColumns(db: Db, name: string): seq<string> {
    if name in db.catalog then db.catalog[name] else []
  }

  /** The lines the row loop writes to the temporary file, in file order. */
  function KeptRows(w: Where, columns: seq<string>, lines: seq<string>): (r: seq<string>)
    ensures |r| <= |lines|
    decreases |lines|
  {
    if lines == [] then []
    else
      var last := lines[|lines| - 1];
      KeptRows(w, columns, lines[..|lines| - 1]) + (if KeepRow(w, columns, last) then [last] else [])
  }

  /** The `deleted` flag at the end of the row loop: some line was not written. */
  predicate SomeDropped(w: Where, columns: seq<string>, lines: seq<string>) {
    |KeptRows(w, columns, lines)| < |lines|
  }

  /** The `whereColumnValid` flag is cleared by a row on a column the table lacks. */
  predicate ColumnUnknown(w: Where, columns: seq<string>) {
    w.Equals? && w.column !in columns
  }

  /** One "Invalid WHERE clause format" per line when the clause has no `=`. */
  function Warnings(w: Where, n: nat): (r: seq<Message>)
    ensures |r| == if w.Malformed? then n else 0
    ensures forall k :: 0 <= k < |r| ==> r[k] == InvalidWhereFormat
  {
    if w.Malformed? then seq(n, _ => InvalidWhereFormat) else []
  }

  /** What one more line of the row loop adds to the kept lines, the `deleted` flag and the warnings. */
  lemma DeleteLoopStep(w: Where, columns: seq<string>, lines: seq<string>, i: nat)
    requires i < |lines|
    ensures KeptRows(w, columns, lines[..i + 1]) ==
      KeptRows(w, columns, lines[..i]) + (if KeepRow(w, columns, lines[i]) then [lines[i]] else [])
    ensures SomeDropped(w, columns, lines[..i + 1]) <==> SomeDropped(w, columns, lines[..i]) || !KeepRow(w, columns, lines[i])
    ensures Warnings(w, i + 1) == Warnings(w, i) + (if w.Malformed? then [InvalidWhereFormat] else [])
  {
    assert lines[..i + 1][..i] == lines[..i];
  }

  /**
   * `deleteFrom` once the name and the clause are known: filter the table's
   * lines into `temp_<t>.txt`; on an unknown column (seen on at least one
   * line) delete the temporary file and leave the table alone, otherwise
   * replace the table's file by it.
   */
  function DeleteRows(db: Db, name: string, clause: string): Step {
    if TableFile(name) !in db.files then Step(db, [TableNotFound(name)], Running)
    else
      var lines := db.files[TableFile(name)];
      var columns := TableColumns(db, name);
      var w := ParseWhere(clause);
      var warned := Warnings(w, |lines|);
      var cleared := db.files - {TempFile(name)};
      if ColumnUnknown(w, columns) && lines != [] then
        Step(db.(files := cleared), warned + [ColumnNotFound(name)], Running)
      else
        Step(db.(files := cleared[TableFile(name) := KeptRows(w, columns, lines)]),
             warned + [if SomeDropped(w, columns, lines) then Deleted(name, clause) else NoMatchingRows(name)],
             Running)
  }

  /** `deleteFrom`: the parse, then the filtering. */
  function DeleteStep(db: Db, command: string): Step {
    match ParseDelete(command)
    case NameMissing => Step(db, [TableNameMissing], Running)
    case ClauseOutOfRange => Step(db, [], Aborted)
    case DeleteTarget(name, clause) => DeleteRows(db, name, clause)
  }

  /** One pass of the read loop: dispatch the line; `deleteFrom` gets the left-trimmed text. */
  function ExecuteStep(db: Db, input: string): Step {
    match Classify(input)
    case CreateCmd => CreateStep(db, input)
    case InsertCmd => InsertStep(db, input)
    case SelectCmd => Step(db, SelectOutput(db, input), Running)
    case DeleteCmd => DeleteStep(db, LTrim(input))
    case ExitCmd => Step(db, [], Exited)
    case Unknown => Step(db, [InvalidCommand], Running)
  }
}
