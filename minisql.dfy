/**
 * The engine as the program runs it: one object holding the global
 * catalog and the files, whose methods follow the C++ handlers statement
 * by statement (the same `>>` and `getline` reads, the same flags in the
 * delete loop) and are each proved to end in the state, and to print the
 * messages, that the matching function of `Semantics` describes.
 */
module MiniSql {
  import opened Text
  import opened Streams
  import opened Commands
  import opened Semantics

  class Database {
    /** The global `catalog` map: table name to its column list. */
    var catalog: map<string, seq<string>>
    /** The files the engine reads and writes, name to lines. */
    var files: map<string, seq<string>>

    function State(): Db
      reads this
    {
      Db(catalog, files)
    }

    /** Start-up: read `catalog.txt` line by line, each line overriding the entry of its name. */
    constructor Open(disk: map<string, seq<string>>)
      ensures State() == Startup(disk)
    {
      var loaded: map<string, seq<string>> := map[];
      if CatalogFile in disk {
        var log := disk[CatalogFile];
        var i := 0;
        while i < |log|
          invariant 0 <= i <= |log|
          invariant loaded == Replay(log[..i])
        {
          var line := log[i];
          var (name, c) := GetLine(line, Fresh, ',', "");
          var columns := ReadFields(line, c, ',', false);
          loaded := loaded[name := columns];
          assert log[..i + 1][..i] == log[..i];
          i := i + 1;
        }
        assert log[..|log|] == log;
      }
      catalog := loaded;
      files := disk;
    }

    /** `saveTable`: append `name,col1,...` to the catalog log. */
    method SaveTable(name: string, columns: seq<string>)
      modifies this
      ensures files == Append(old(files), CatalogFile, CatalogLine(name, columns))
      ensures catalog == old(catalog)
    {
      var line := name;
      for i := 0 to |columns|
        invariant line == Join([name] + columns[..i], ',')
        invariant files == old(files) && catalog == old(catalog)
      {
        JoinSnoc([name] + columns[..i], columns[i], ',');
        assert [name] + columns[..i + 1] == [name] + columns[..i] + [columns[i]];
        line := line + "," + columns[i];
      }
      assert columns[..|columns|] == columns;
      files := Append(files, CatalogFile, line);
    }

    /** `createTable` */
    method CreateTable(command: string) returns (out: seq<Message>)
      modifies this
      ensures Step(State(), out, Running) == CreateStep(old(State()), command)
    {
      var (_, c1) := ReadWord(command, Fresh);
      var (_, c2) := ReadWord(command, c1);
      var (name, c3) := ReadWord(command, c2);
      var (def0, c4) := GetLine(command, c3, '(', "");
      var (def, _) := GetLine(command, c4, ')', def0);
      var columns := ReadFields(def, Fresh, ',', true);
      assert def[0..] == def;
      catalog := catalog[name := columns];
      SaveTable(name, columns);
      files := files[TableFile(name) := []];
      out := [TableCreated(name)];
    }

    /**
     * `insertInto`: the name and the values are those `ParseInsert`
     * extracts (the values through the `getline` loop that `ReadFields`
     * runs); then one line is appended to the table's file.
     */
    method InsertInto(command: string) returns (out: seq<Message>)
      modifies this
      ensures Step(State(), out, Running) == InsertStep(old(State()), command)
    {
      match ParseInsert(command)
      case BadInsert =>
        out := [InvalidInsertSyntax];
      case BadValues =>
        out := [InvalidValuesSyntax];
      case InsertRow(name, values) =>
        var line := JoinValues(values);
        files := Append(files, TableFile(name), line);
        out := [Inserted(name)];
    }

    /** The write loop of `insertInto`: each value, with a comma after all but the last. */
    static method JoinValues(values: seq<string>) returns (line: string)
      ensures line == Join(values, ',')
    {
      line := "";
      for i := 0 to |values|
        invariant line == if i == 0 then "" else Join(values[..i], ',') + (if i < |values| then "," else "")
      {
        if i > 0 {
          JoinSnoc(values[..i], values[i], ',');
          assert values[..i + 1] == values[..i] + [values[i]];
        }
        line := line + values[i];
        if i < |values| - 1 {
          line := line + ",";
        }
      }
      assert values[..|values|] == values;
    }

    /** `selectFrom`: echo the table's lines; reads the files and changes nothing. */
    method SelectFrom(command: string) returns (out: seq<Message>)
      ensures out == SelectOutput(State(), command)
    {
      var parsed := ParseSelect(command);
      if parsed.None? {
        return [InvalidSelectSyntax];
      }
      var name := parsed.value;
      if TableFile(name) !in files {
        return [TableNotFound(name)];
      }
      var lines := files[TableFile(name)];
      var found := false;
      out := [DataFrom(name)];
      var i := 0;
      while i < |lines|
        invariant 0 <= i <= |lines|
        invariant found <==> i > 0
        invariant out == [DataFrom(name)] + Rows(lines[..i])
      {
        found := true;
        assert Rows(lines[..i + 1]) == Rows(lines[..i]) + [Row(lines[i])];
        out := out + [Row(lines[i])];
        i := i + 1;
      }
      assert lines[..|lines|] == lines;
      if !found {
        out := out + [NoDataFound];
      }
    }

    /** `deleteFrom`, handed the left-trimmed command. */
    method DeleteFrom(command: string) returns (out: seq<Message>, status: Status)
      modifies this
      ensures Step(State(), out, status) == DeleteStep(old(State()), command)
    {
      status := Running;
      var (_, c1) := ReadWord(command, Fresh);
      var (_, c2) := ReadWord(command, c1);
      var (name, c3) := ReadWord(command, c2);
      if c3.fail {
        return [TableNameMissing], Running;
      }
      var wherePos := Find(command, "WHERE", 0);
      if wherePos.None? {
        wherePos := Find(command, "where", 0);
      }
      var clause := "";
      if wherePos.Some? {
        if wherePos.value + 6 > |command| {
          return [], Aborted;
        }
        clause := command[wherePos.value + 6..];
      }
      assert ParseDelete(command) == DeleteTarget(name, clause);
      out := DeleteRows(name, clause);
    }

    /** The rest of `deleteFrom`, from opening the table's file on. */
    method DeleteRows(name: string, clause: string) returns (out: seq<Message>)
      modifies this
      ensures Step(State(), out, Running) == Semantics.DeleteRows(old(State()), name, clause)
    {
      var table := TableFile(name);
      if table !in files {
        return [TableNotFound(name)];
      }
      var lines := files[table];
      var temp := TempFile(name);
      files := files[temp := []];
      var columns := if name in catalog then catalog[name] else [];
      var deleted, columnValid;
      deleted, columnValid, out := FilterRows(clause, columns, temp, lines);
      if !columnValid {
        files := files - {temp};
        assert files == old(files) - {temp};
        return out + [ColumnNotFound(name)];
      }
      var rows := files[temp];
      files := (files - {temp})[table := rows];
      assert files == (old(files) - {temp})[table := rows];
      out := out + [if deleted then Deleted(name, clause) else NoMatchingRows(name)];
    }

    /**
     * The row loop of `deleteFrom`: every line of the table in turn, with
     * the temporary file open (and empty) for writing.
     */
    method FilterRows(clause: string, columns: seq<string>, temp: string, lines: seq<string>)
      returns (deleted: bool, columnValid: bool, out: seq<Message>)
      requires temp in files && files[temp] == []
      modifies this
      ensures files == old(files)[temp := KeptRows(ParseWhere(clause), columns, lines)]
      ensures catalog == old(catalog)
      ensures deleted <==> SomeDropped(ParseWhere(clause), columns, lines)
      ensures columnValid <==> !(ColumnUnknown(ParseWhere(clause), columns) && lines != [])
      ensures out == Warnings(ParseWhere(clause), |lines|)
    {
      ghost var w := ParseWhere(clause);
      deleted, columnValid := false, true;
      out := [];
      assert lines[..0] == [];
      assert files == old(files)[temp := []];
      for i := 0 to |lines|
        invariant files == old(files)[temp := KeptRows(w, columns, lines[..i])]
        invariant deleted <==> SomeDropped(w, columns, lines[..i])
        invariant columnValid <==> !(ColumnUnknown(w, columns) && i > 0)
        invariant out == Warnings(w, i)
        invariant catalog == old(catalog)
      {
        DeleteLoopStep(w, columns, lines, i);
        deleted, columnValid, out := FilterRow(clause, columns, temp, lines[i], deleted, columnValid, out);
      }
      assert lines[..|lines|] == lines;
    }

    /**
     * The body of the row loop of `deleteFrom` for one line: which branch it
     * takes decides whether the line goes to the temporary file, whether
     * `deleted` is set, whether `whereColumnValid` is cleared and whether a
     * warning is printed.
     */
    method FilterRow(clause: string, columns: seq<string>, temp: string, line: string,
                     deleted: bool, columnValid: bool, out: seq<Message>)
      returns (deletedNow: bool, columnValidNow: bool, outNow: seq<Message>)
      requires temp in files
      modifies this
      ensures files == old(files)[temp := old(files)[temp] + (if KeepRow(ParseWhere(clause), columns, line) then [line] else [])]
      ensures catalog == old(catalog)
      ensures deletedNow == (deleted || !KeepRow(ParseWhere(clause), columns, line))
      ensures columnValidNow == (columnValid && !ColumnUnknown(ParseWhere(clause), columns))
      ensures outNow == out + (if ParseWhere(clause).Malformed? then [InvalidWhereFormat] else [])
    {
      deletedNow, columnValidNow, outNow := deleted, columnValid, out;
      var kept := files[temp];
      assert kept + [] == kept;
      assert files == files[temp := kept];
      if clause == "" {
        deletedNow := true;
      } else {
        var equalsPos := FindChar(clause, '=', 0);
        if equalsPos.Some? {
          var column := RemoveIf(LTrim(clause[..equalsPos.value]), IsSpace);
          var value := RemoveIf(LTrim(clause[equalsPos.value + 1..]), IsSpace);
          assert ParseWhere(clause) == Equals(column, value);
          var index := IndexOf(columns, column);
          if index < |columns| {
            var rowValues := ReadFields(line, Fresh, ',', false);
            assert line[0..] == line;
            if index < |rowValues| && rowValues[index] == value {
              deletedNow := true;
            } else {
              files := files[temp := kept + [line]];
            }
          } else {
            columnValidNow := false;
            files := files[temp := kept + [line]];
          }
        } else {
          outNow := outNow + [InvalidWhereFormat];
          files := files[temp := kept + [line]];
        }
      }
    }

    /** One pass of the read loop after `getline(cin, input)`. */
    method Execute(input: string) returns (out: seq<Message>, status: Status)
      modifies this
      ensures Step(State(), out, status) == ExecuteStep(old(State()), input)
    {
      var trimmed := LTrim(input);
      var upperInput := ToUpper(trimmed);
      status := Running;
      if StartsWith(upperInput, "CREATE TABLE") {
        assert Classify(input) == CreateCmd;
        out := CreateTable(input);
      } else if StartsWith(upperInput, "INSERT INTO") {
        assert Classify(input) == InsertCmd;
        out := InsertInto(input);
      } else if StartsWith(upperInput, "SELECT * FROM") {
        assert Classify(input) == SelectCmd;
        out := SelectFrom(input);
      } else if Find(upperInput, "DELETE FROM", 0) == Some(0) {
        assert Classify(input) == DeleteCmd;
        out, status := DeleteFrom(trimmed);
      } else if upperInput == "EXIT" {
        assert Classify(input) == ExitCmd;
        out, status := [], Exited;
      } else {
        assert Classify(input) == Unknown;
        out := [InvalidCommand];
      }
    }
  }
}
