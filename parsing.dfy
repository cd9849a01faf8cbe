/**
 * Properties of the dispatch chain and of what each handler does to the
 * state, on accepted commands and on the error paths.
 */
module Parsing {
  import opened Text
  import opened Streams
  import opened Commands
  import opened Semantics

  /** Upper-casing keeps the characters `ltrim` skips, and no other character becomes one. */
  lemma UpperKeepsTrimSpace(c: char)
    ensures IsTrimSpace(UpperChar(c)) <==> IsTrimSpace(c)
  {
  }

  lemma {:induction false} TrimStartUpper(s: string)
    ensures TrimStart(ToUpper(s)) == TrimStart(s)
    decreases |s|
  {
    if s != [] {
      UpperKeepsTrimSpace(s[0]);
      assert ToUpper(s)[0] == UpperChar(s[0]);
      if IsTrimSpace(s[0]) {
        assert ToUpper(s)[1..] == ToUpper(s[1..]);
        TrimStartUpper(s[1..]);
      }
    }
  }

  /** Left-trimming and upper-casing commute. */
  lemma LTrimUpper(s: string)
    ensures LTrim(ToUpper(s)) == ToUpper(LTrim(s))
  {
    TrimStartUpper(s);
  }

  /** The dispatch ignores the case of the whole line. */
  lemma ClassifyIgnoresCase(input: string)
    ensures Classify(ToUpper(input)) == Classify(input)
  {
    assert ToUpper(LTrim(ToUpper(input))) == ToUpper(LTrim(input)) by {
      LTrimUpper(input);
      ToUpperMeaning(LTrim(input));
    }
  }

  lemma {:induction false} TrimStartPadded(pad: string, s: string)
    requires forall k :: 0 <= k < |pad| ==> IsTrimSpace(pad[k])
    ensures TrimStart(pad + s) == |pad| + TrimStart(s)
    decreases |pad|
  {
    if pad != [] {
      assert (pad + s)[0] == pad[0];
      assert (pad + s)[1..] == pad[1..] + s;
      TrimStartPadded(pad[1..], s);
    } else {
      assert pad + s == s;
    }
  }

  /** The dispatch ignores leading spaces, tabs, line feeds and carriage returns. */
  lemma ClassifyIgnoresPadding(pad: string, input: string)
    requires forall k :: 0 <= k < |pad| ==> IsTrimSpace(pad[k])
    ensures Classify(pad + input) == Classify(input)
  {
    TrimStartPadded(pad, input);
    assert LTrim(pad + input) == LTrim(input);
  }

  /**
   * The order of the dispatch chain: a handler gets the line only when no
   * earlier prefix matched.  The `find(...) == 0` test for `DELETE FROM`
   * is a prefix test like the others.
   */
  lemma ClassifyOrder(input: string)
    ensures var u := ToUpper(LTrim(input));
      (Classify(input) == CreateCmd <==> StartsWith(u, "CREATE TABLE")) &&
      (Classify(input) == InsertCmd <==> !StartsWith(u, "CREATE TABLE") && StartsWith(u, "INSERT INTO")) &&
      (Classify(input) == SelectCmd <==>
        !StartsWith(u, "CREATE TABLE") && !StartsWith(u, "INSERT INTO") && StartsWith(u, "SELECT * FROM")) &&
      (Classify(input) == DeleteCmd <==>
        !StartsWith(u, "CREATE TABLE") && !StartsWith(u, "INSERT INTO") && !StartsWith(u, "SELECT * FROM") &&
        StartsWith(u, "DELETE FROM")) &&
      (Classify(input) == Unknown <==>
        !StartsWith(u, "CREATE TABLE") && !StartsWith(u, "INSERT INTO") && !StartsWith(u, "SELECT * FROM") &&
        !StartsWith(u, "DELETE FROM") && u != "EXIT")
  {
    FindAtZeroIsPrefix(ToUpper(LTrim(input)), "DELETE FROM");
  }

  /** A line no prefix matches is refused and changes nothing; `EXIT` ends the loop and changes nothing. */
  lemma DispatchFallThrough(db: Db, input: string)
    ensures Classify(input) == Unknown ==> ExecuteStep(db, input) == Step(db, [InvalidCommand], Running)
    ensures Classify(input) == ExitCmd ==> ExecuteStep(db, input) == Step(db, [], Exited)
    ensures Classify(input) == SelectCmd ==> ExecuteStep(db, input).db == db
  {
  }

  /**
   * A rejected insert writes nothing; an accepted one appends exactly one
   * line, the values joined by single commas, to the table's file (creating
   * it), and touches no other file and not the catalog.
   */
  lemma InsertEffects(db: Db, command: string)
    ensures !ParseInsert(command).InsertRow? ==> InsertStep(db, command).db == db
    ensures ParseInsert(command).InsertRow? ==>
      var name := ParseInsert(command).name;
      var after := InsertStep(db, command).db;
      after.catalog == db.catalog &&
      Contents(after.files, TableFile(name)) == Contents(db.files, TableFile(name)) + [Join(ParseInsert(command).values, ',')] &&
      (forall f :: f != TableFile(name) ==> (f in after.files <==> f in db.files)) &&
      (forall f :: f != TableFile(name) && f in db.files ==> after.files[f] == db.files[f])
  {
  }

  /**
   * `selectFrom` on an existing table: a header, then the file's lines in
   * order, then "(no data found)" exactly when there was none.
   */
  lemma SelectShowsRows(db: Db, command: string)
    requires ParseSelect(command).Some? && TableFile(ParseSelect(command).value) in db.files
    ensures var lines := db.files[TableFile(ParseSelect(command).value)];
      var out := SelectOutput(db, command);
      |out| == |lines| + 1 + (if lines == [] then 1 else 0) &&
      out[0] == DataFrom(ParseSelect(command).value) &&
      (forall k :: 0 <= k < |lines| ==> out[k + 1] == Row(lines[k])) &&
      (NoDataFound in out <==> lines == [])
  {
    var lines := db.files[TableFile(ParseSelect(command).value)];
    var out := SelectOutput(db, command);
    if lines != [] {
      assert forall k :: 0 <= k < |out| ==> out[k] != NoDataFound;
    } else {
      assert out[1] == NoDataFound;
    }
  }

  /** `selectFrom` on a missing table reports it; no file is created. */
  lemma SelectMissingTable(db: Db, command: string)
    requires ParseSelect(command).Some? && TableFile(ParseSelect(command).value) !in db.files
    ensures SelectOutput(db, command) == [TableNotFound(ParseSelect(command).value)]
  {
  }

  /** A `WHERE` that ends the command aborts the program before any file is touched. */
  lemma DeleteAborts(db: Db, command: string)
    requires ParseDelete(command) == ClauseOutOfRange
    ensures DeleteStep(db, command) == Step(db, [], Aborted)
  {
  }
}
