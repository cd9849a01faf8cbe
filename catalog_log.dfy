/**
 * The catalog log `catalog.txt`: what `saveTable` writes, what the
 * start-up loop reads back from it, and when the in-memory catalog and the
 * catalog a restart would rebuild agree.
 */
module CatalogLog {
  import opened Text
  import opened Streams
  import opened Commands
  import opened Semantics

  /** The table whose record file is the log itself. */
  lemma TableFileIsLog(name: string)
    ensures TableFile(name) == CatalogFile <==> name == "catalog"
  {
    if TableFile(name) == CatalogFile {
      assert |name| == 7;
      assert forall k :: 0 <= k < 7 ==> name[k] == TableFile(name)[k];
    }
  }

  /** No scratch file of a delete is the log. */
  lemma TempFileIsNotLog(name: string)
    ensures TempFile(name) != CatalogFile
  {
    assert TempFile(name)[0] == 't';
  }

  /**
   * A log line reads back as the definition it was written from, provided
   * neither the name nor a column holds a comma and the last column is not
   * empty (a trailing empty column leaves only a trailing comma behind).
   */
  lemma {:induction false} CatalogLineRoundTrip(name: string, columns: seq<string>)
    requires ',' !in name
    requires forall i :: 0 <= i < |columns| ==> ',' !in columns[i]
    requires columns == [] || columns[|columns| - 1] != ""
    ensures CatalogEntry(CatalogLine(name, columns)) == (name, columns)
  {
    var line := CatalogLine(name, columns);
    if columns == [] {
      assert line == name;
      assert FindChar(line, ',', 0).None?;
      assert line[0..] == line;
    } else {
      assert ([name] + columns)[1..] == columns;
      assert line == name + [','] + Join(columns, ',');
      assert forall k :: 0 <= k < |name| ==> line[k] == name[k];
      assert line[|name|] == ',';
      assert FindChar(line, ',', 0) == Some(|name|);
      assert line[0..|name|] == name;
      assert line[|name| + 1..] == Join(columns, ',');
      SplitJoin(columns, ',');
    }
  }

  /** A line added at the end of the log overrides the entry of its name, and only that. */
  lemma ReplaySnoc(log: seq<string>, line: string)
    ensures Replay(log + [line]) == Replay(log)[CatalogEntry(line).0 := CatalogEntry(line).1]
  {
    assert (log + [line])[..|log|] == log;
  }

  /** The entries of the log, line by line. */
  function Entries(log: seq<string>): (es: seq<(string, seq<string>)>)
    ensures |es| == |log|
    ensures forall i :: 0 <= i < |log| ==> es[i] == CatalogEntry(log[i])
  {
    seq(|log|, i requires 0 <= i < |log| => CatalogEntry(log[i]))
  }

  /** A map written entry by entry, each overriding what came before. */
  function Overlay(es: seq<(string, seq<string>)>): map<string, seq<string>>
    decreases |es|
  {
    if es == [] then map[] else Overlay(es[..|es| - 1])[es[|es| - 1].0 := es[|es| - 1].1]
  }

  lemma {:induction false} ReplayIsOverlay(log: seq<string>)
    ensures Replay(log) == Overlay(Entries(log))
    decreases |log|
  {
    if log != [] {
      var n := |log| - 1;
      ReplayIsOverlay(log[..n]);
      assert Entries(log)[..n] == Entries(log[..n]);
    }
  }

  /** Entry `i` is the last one that defines `name`. */
  predicate LastNamed(es: seq<(string, seq<string>)>, i: int, name: string) {
    0 <= i < |es| && es[i].0 == name && forall j :: i < j < |es| ==> es[j].0 != name
  }

  /** A name is in the overlay exactly when some entry defines it. */
  lemma {:induction false} OverlayKeys(es: seq<(string, seq<string>)>, name: string)
    ensures name in Overlay(es) <==> exists i :: 0 <= i < |es| && es[i].0 == name
    decreases |es|
  {
    if es != [] {
      var n := |es| - 1;
      OverlayKeys(es[..n], name);
      if name in Overlay(es) && es[n].0 != name {
        var i :| 0 <= i < n && es[..n][i].0 == name;
        assert es[i].0 == name;
      }
      if exists i :: 0 <= i < |es| && es[i].0 == name {
        var i :| 0 <= i < |es| && es[i].0 == name;
        if i < n {
          assert es[..n][i].0 == name;
        }
      }
    }
  }

  /** The overlay holds, for a name, the columns of the last entry that defines it. */
  lemma {:induction false} OverlayLast(es: seq<(string, seq<string>)>, name: string, i: int)
    requires LastNamed(es, i, name)
    ensures name in Overlay(es) && Overlay(es)[name] == es[i].1
    decreases |es|
  {
    var n := |es| - 1;
    if i < n {
      assert es[n].0 != name;
      assert LastNamed(es[..n], i, name);
      OverlayLast(es[..n], name, i);
    }
  }

  /**
   * Start-up is last-wins: a name is in the replayed catalog exactly when
   * some log line carries it, and its columns are those of the last line
   * that carries it.
   */
  lemma ReplayLastWins(log: seq<string>, name: string)
    ensures name in Replay(log) <==> exists i :: 0 <= i < |log| && CatalogEntry(log[i]).0 == name
    ensures forall i :: LastNamed(Entries(log), i, name) ==>
      name in Replay(log) && Replay(log)[name] == CatalogEntry(log[i]).1
  {
    ReplayIsOverlay(log);
    OverlayKeys(Entries(log), name);
    forall i | LastNamed(Entries(log), i, name)
      ensures name in Replay(log) && Replay(log)[name] == CatalogEntry(log[i]).1
    {
      OverlayLast(Entries(log), name, i);
    }
    if name in Replay(log) {
      var i :| 0 <= i < |log| && Entries(log)[i].0 == name;
      assert CatalogEntry(log[i]).0 == name;
    }
  }

  /** The in-memory catalog is the one a restart would rebuild from the log. */
  predicate Synced(db: Db) {
    Replay(Contents(db.files, CatalogFile)) == db.catalog
  }

  /** At start-up the two agree by construction. */
  lemma StartupSynced(disk: map<string, seq<string>>)
    ensures Synced(Startup(disk))
    ensures Startup(disk).files == disk
  {
  }

  /**
   * Every column `createTable` stores is free of commas and spaces: the
   * commas split the text, the spaces are erased.
   */
  lemma CreateColumnsClean(command: string)
    ensures forall i :: 0 <= i < |ParseCreate(command).columns| ==>
      ',' !in ParseCreate(command).columns[i] && ' ' !in ParseCreate(command).columns[i]
  {
    var args := ParseCreate(command);
    var (_, c1) := ReadWord(command, Fresh);
    var (_, c2) := ReadWord(command, c1);
    var (_, c3) := ReadWord(command, c2);
    var (def0, c4) := GetLine(command, c3, '(', "");
    var (def, _) := GetLine(command, c4, ')', def0);
    var fields := Split(def, ',');
    assert args.columns == Clean(fields, true);
    CleanErases(fields);
    forall i | 0 <= i < |args.columns|
      ensures ',' !in args.columns[i] && ' ' !in args.columns[i]
    {
      RemoveIfMembers(fields[i], IsBlank, ',');
      RemoveIfMembers(fields[i], IsBlank, ' ');
    }
  }

  /**
   * `createTable` keeps the catalog and the log in agreement, unless the
   * name holds a comma, the last column is empty, or the table is called
   * `catalog` (whose record file is the log, truncated after the append).
   */
  lemma CreateKeepsSynced(db: Db, command: string)
    requires Synced(db)
    requires ParseCreate(command).name != "catalog"
    requires ',' !in ParseCreate(command).name
    requires ParseCreate(command).columns == [] || ParseCreate(command).columns[|ParseCreate(command).columns| - 1] != ""
    ensures Synced(CreateStep(db, command).db)
  {
    var args := ParseCreate(command);
    var line := CatalogLine(args.name, args.columns);
    TableFileIsLog(args.name);
    CreateColumnsClean(command);
    CatalogLineRoundTrip(args.name, args.columns);
    ReplaySnoc(Contents(db.files, CatalogFile), line);
    assert Contents(CreateStep(db, command).db.files, CatalogFile) == Contents(db.files, CatalogFile) + [line];
  }

  /**
   * `createTable`: the catalog maps the name to the parsed columns, the
   * table's file exists and is empty, the log gains exactly the definition's
   * line (unless the table's file is the log), and no other file changes.
   */
  lemma CreateEffects(db: Db, command: string)
    ensures var args := ParseCreate(command);
      var after := CreateStep(db, command);
      after.status == Running && after.messages == [TableCreated(args.name)] &&
      after.db.catalog == db.catalog[args.name := args.columns] &&
      TableFile(args.name) in after.db.files && after.db.files[TableFile(args.name)] == [] &&
      (args.name != "catalog" ==>
        Contents(after.db.files, CatalogFile) == Contents(db.files, CatalogFile) + [CatalogLine(args.name, args.columns)]) &&
      (forall f :: f != TableFile(args.name) && f != CatalogFile ==>
        (f in after.db.files <==> f in db.files) && (f in db.files ==> after.db.files[f] == db.files[f]))
  {
    TableFileIsLog(ParseCreate(command).name);
  }

  /** Why the round trip needs a non-empty last column: `( a, )` is stored as `t,a,` and read back without the empty column. */
  lemma TrailingEmptyColumnLost()
    ensures CatalogLine("t", ["a", ""]) == "t,a,"
    ensures CatalogEntry("t,a,") == ("t", ["a"])
  {
    assert ["t", "a", ""][1..] == ["a", ""];
    assert ["a", ""][1..] == [""];
    assert Join(["a", ""], ',') == "a,";
    var line := "t,a,";
    assert line[0] == 't' && line[1] == ',';
    assert FindChar(line, ',', 0) == Some(1);
    assert line[0..1] == "t";
    assert line[2..] == "a,";
    var rest := "a,";
    assert rest[0] == 'a' && rest[1] == ',';
    assert FindChar(rest, ',', 0) == Some(1);
    assert rest[..1] == "a";
    assert rest[2..] == "";
    assert Split(rest, ',') == ["a"] + Split("", ',');
    assert GetLine(line, Fresh, ',', "") == ("t", Cursor(2, false, false));
    assert Rest(line, Cursor(2, false, false), ',') == Split(rest, ',');
    assert CatalogEntry(line) == ("t", Split(rest, ','));
    assert ["a"] + [] == ["a"];
  }

  /** Why the round trip needs a name without a comma: the name's comma splits it at start-up. */
  lemma CommaInNameSplits()
    ensures CatalogLine("a,b", ["c"]) == "a,b,c"
    ensures CatalogEntry("a,b,c") == ("a", ["b", "c"])
  {
    assert ["a,b"] + ["c"] == ["a,b", "c"];
    assert ["a,b", "c"][1..] == ["c"];
    assert Join(["a,b", "c"], ',') == "a,b" + [','] + "c";
    var line := "a,b,c";
    assert line[0] == 'a' && line[1] == ',';
    assert FindChar(line, ',', 0) == Some(1);
    assert line[0..1] == "a";
    assert line[2..] == "b,c";
    var rest := "b,c";
    assert rest[0] == 'b' && rest[1] == ',';
    assert FindChar(rest, ',', 0) == Some(1);
    assert rest[..1] == "b";
    assert rest[2..] == "c";
    assert FindChar("c", ',', 0) == None;
    assert Split("c", ',') == ["c"];
    assert Split(rest, ',') == ["b"] + Split("c", ',');
    assert GetLine(line, Fresh, ',', "") == ("a", Cursor(2, false, false));
    assert Rest(line, Cursor(2, false, false), ',') == Split(rest, ',');
    assert CatalogEntry(line) == ("a", Split(rest, ','));
    assert ["b"] + ["c"] == ["b", "c"];
  }

  /** A table called `catalog` wipes the log: after a restart no table is known. */
  lemma CreateCatalogWipesLog(db: Db, command: string)
    requires ParseCreate(command).name == "catalog"
    ensures Contents(CreateStep(db, command).db.files, CatalogFile) == []
    ensures Startup(CreateStep(db, command).db.files).catalog == map[]
  {
    TableFileIsLog(ParseCreate(command).name);
  }

  /** `insertInto` leaves the catalog and, unless it writes to `catalog.txt`, the log as they were. */
  lemma InsertKeepsSynced(db: Db, command: string)
    requires Synced(db)
    requires !ParseInsert(command).InsertRow? || ParseInsert(command).name != "catalog"
    ensures Synced(InsertStep(db, command).db)
  {
    if ParseInsert(command).InsertRow? {
      TableFileIsLog(ParseInsert(command).name);
    }
  }

  /** `deleteFrom` leaves the catalog and, unless it rewrites `catalog.txt`, the log as they were. */
  lemma DeleteKeepsSynced(db: Db, command: string)
    requires Synced(db)
    requires !ParseDelete(command).DeleteTarget? || ParseDelete(command).name != "catalog"
    ensures Synced(DeleteStep(db, command).db)
  {
    if ParseDelete(command).DeleteTarget? {
      TableFileIsLog(ParseDelete(command).name);
      TempFileIsNotLog(ParseDelete(command).name);
    }
  }
}
