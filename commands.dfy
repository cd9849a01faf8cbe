/**
 * How the engine takes its commands apart: the dispatch test in the read
 * loop, and the text each of `createTable`, `insertInto`, `selectFrom`
 * and `deleteFrom` extracts before it touches any file.  Keywords of the
 * dispatch are case-insensitive; names and values keep their case.
 */
module Commands {
  import opened Text
  import opened Streams

  /** Which handler the read loop hands a line to. */
  datatype Kind = CreateCmd | InsertCmd | SelectCmd | DeleteCmd | ExitCmd | Unknown

  /**
   * The dispatch chain: left-trim, upper-case, then test the prefixes in
   * order; `DELETE FROM` is tested with `find(...) == 0`, `EXIT` by equality.
   */
  function Classify(input: string): Kind {
    var upper := ToUpper(LTrim(input));
    if StartsWith(upper, "CREATE TABLE") then CreateCmd
    else if StartsWith(upper, "INSERT INTO") then InsertCmd
    else if StartsWith(upper, "SELECT * FROM") then SelectCmd
    else if Find(upper, "DELETE FROM", 0) == Some(0) then DeleteCmd
    else if upper == "EXIT" then ExitCmd
    else Unknown
  }

  /** The table definition `createTable` builds. */
  datatype CreateArgs = CreateArgs(name: string, columns: seq<string>)

  /**
   * `createTable`'s parse: skip two words, read the name as the third word,
   * read up to a `(` and then up to a `)` with `getline`, and split what the
   * second read left in `columnsDef` at commas, erasing spaces.  When there
   * is no `(` the first read takes the rest of the line and the second one
   * fails without clearing it, so that rest becomes the column text.
   */
  function ParseCreate(command: string): CreateArgs {
    var (_, c1) := ReadWord(command, Fresh);
    var (_, c2) := ReadWord(command, c1);
    var (name, c3) := ReadWord(command, c2);
    CreateArgs(name, Clean(Split(ColumnsDef(command, c3), ','), true))
  }

  /** What `columnsDef` holds after the two `getline` reads from `c`. */
  function ColumnsDef(command: string, c: Cursor): string
    requires c.pos <= |command|
  {
    var (def0, c4) := GetLine(command, c, '(', "");
    var (def, _) := GetLine(command, c4, ')', def0);
    def
  }

  /** What `insertInto` extracts, or which of its two syntax errors it reports. */
  datatype InsertArgs = BadInsert | BadValues | InsertRow(name: string, values: seq<string>)

  /**
   * `insertInto`'s parse.  `INTO` and `VALUES` are looked for in the
   * upper-cased text, the name is what lies between them with spaces
   * erased (everything after `INTO` when `VALUES` comes first, as the
   * unsigned length wraps round), and the values are the comma fields
   * between the first `(` after `VALUES` and the next `)`, spaces erased.
   */
  function ParseInsert(command: string): InsertArgs {
    var upper := ToUpper(command);
    InsertAfterKeywords(command, Find(upper, "INTO", 0), Find(upper, "VALUES", 0))
  }

  /** The rest of `insertInto`'s parse, given where `INTO` and `VALUES` were found. */
  function InsertAfterKeywords(command: string, posTable: Option<nat>, posValues: Option<nat>): InsertArgs
    requires posTable.Some? ==> posTable.value + 4 <= |command|
    requires posValues.Some? ==> posValues.value <= |command|
  {
    if posTable.None? || posValues.None? then BadInsert
    else
      var from := posTable.value + 4;
      var name := RemoveIf(if posValues.value >= from then command[from..posValues.value] else command[from..], IsBlank);
      var body := ValuesText(command, posValues.value);
      if body.None? then BadValues
      else InsertRow(name, Clean(Split(body.value, ','), true))
  }

  /**
   * The text between the first `(` at or after `from` and the next `)`;
   * None when either is missing or nothing lies between them.
   */
  function ValuesText(command: string, from: nat): Option<string> {
    var start := FindChar(command, '(', from);
    var end := if start.None? then None else FindChar(command, ')', start.value);
    if start.None? || end.None? || end.value <= start.value + 1 then None
    else Some(command[start.value + 1..end.value])
  }

  /** `insertInto` once its four searches have returned `t`, `v`, `o` and `c`. */
  lemma InsertFromSearches(command: string, t: nat, v: nat, o: nat, c: nat)
    requires Find(ToUpper(command), "INTO", 0) == Some(t) && Find(ToUpper(command), "VALUES", 0) == Some(v)
    requires FindChar(command, '(', v) == Some(o) && FindChar(command, ')', o) == Some(c)
    ensures c == o + 1 ==> ParseInsert(command) == BadValues
    ensures c > o + 1 ==>
      ParseInsert(command) ==
        InsertRow(RemoveIf(if v >= t + 4 then command[t + 4..v] else command[t + 4..], IsBlank),
                  Clean(Split(command[o + 1..c], ','), true))
  {
    assert ParseInsert(command) == InsertAfterKeywords(command, Some(t), Some(v));
    ValuesTextAt(command, v, o, c);
    if c > o + 1 {
      InsertNameAfterKeywords(command, t, v, command[o + 1..c]);
      InsertValuesAfterKeywords(command, t, v, command[o + 1..c]);
    }
  }

  /** The parenthesised text once both parenthesis searches have returned. */
  lemma ValuesTextAt(command: string, v: nat, o: nat, c: nat)
    requires FindChar(command, '(', v) == Some(o) && FindChar(command, ')', o) == Some(c)
    ensures c == o + 1 ==> ValuesText(command, v).None?
    ensures c > o + 1 ==> ValuesText(command, v) == Some(command[o + 1..c])
  {
  }

  /** The name `insertInto` takes when the values text is `body`. */
  lemma InsertNameAfterKeywords(command: string, t: nat, v: nat, body: string)
    requires t + 4 <= |command| && v <= |command|
    requires ValuesText(command, v) == Some(body)
    ensures InsertAfterKeywords(command, Some(t), Some(v)).InsertRow?
    ensures InsertAfterKeywords(command, Some(t), Some(v)).name ==
      RemoveIf(if v >= t + 4 then command[t + 4..v] else command[t + 4..], IsBlank)
  {
  }

  /** The values `insertInto` takes when the values text is `body`. */
  lemma InsertValuesAfterKeywords(command: string, t: nat, v: nat, body: string)
    requires t + 4 <= |command| && v <= |command|
    requires ValuesText(command, v) == Some(body)
    ensures InsertAfterKeywords(command, Some(t), Some(v)).InsertRow?
    ensures InsertAfterKeywords(command, Some(t), Some(v)).values == Clean(Split(body, ','), true)
  {
  }

  /**
   * `selectFrom`'s parse: the left-trimmed text after the first `FROM` of
   * the upper-cased command, trailing characters included; None when there
   * is no `FROM`.
   */
  function ParseSelect(command: string): Option<string> {
    var posFrom := Find(ToUpper(command), "FROM", 0);
    if posFrom.None? then None else Some(LTrim(command[posFrom.value + 4..]))
  }

  /** What `deleteFrom` extracts before it opens the table. */
  datatype DeleteArgs =
    | NameMissing
      /** `WHERE` ends the command, so `substr(wherePos + 6)` throws `out_of_range`. */
    | ClauseOutOfRange
    | DeleteTarget(name: string, clause: string)

  /**
   * `deleteFrom`'s parse: the third word is the table name; the clause is
   * the text from six characters after the first `WHERE`, or, when there is
   * none, after the first `where`; no keyword means an empty clause.
   */
  function ParseDelete(command: string): DeleteArgs {
    var (_, c1) := ReadWord(command, Fresh);
    var (_, c2) := ReadWord(command, c1);
    var (name, c3) := ReadWord(command, c2);
    if c3.fail then NameMissing
    else
      var upperHit := Find(command, "WHERE", 0);
      var wherePos := if upperHit.Some? then upperHit else Find(command, "where", 0);
      if wherePos.None? then DeleteTarget(name, "")
      else if wherePos.value + 6 > |command| then ClauseOutOfRange
      else DeleteTarget(name, command[wherePos.value + 6..])
  }

  /** The three shapes a clause takes inside the row loop of `deleteFrom`. */
  datatype Where = NoClause | Malformed | Equals(column: string, value: string)

  /**
   * The clause as the row loop reads it: empty, without `=`, or a column and
   * a value, each left-trimmed and then stripped of every white-space character.
   */
  function ParseWhere(clause: string): (w: Where)
    ensures w.NoClause? <==> clause == ""
    ensures w.Malformed? <==> clause != "" && '=' !in clause
    ensures w.Equals? ==> forall k :: 0 <= k < |w.column| ==> !IsSpace(w.column[k])
    ensures w.Equals? ==> forall k :: 0 <= k < |w.value| ==> !IsSpace(w.value[k])
  {
    if clause == "" then NoClause
    else match FindChar(clause, '=', 0)
      case None => Malformed
      case Some(e) =>
        Equals(RemoveIf(LTrim(clause[..e]), IsSpace), RemoveIf(LTrim(clause[e + 1..]), IsSpace))
  }

  /** `e` is the first `=` of the clause, and `w` holds the white-space-free texts before and after it. */
  predicate SplitAtEquals(clause: string, e: int, w: Where) {
    0 <= e < |clause| && clause[e] == '=' && '=' !in clause[..e] &&
    w == Equals(RemoveIf(clause[..e], IsSpace), RemoveIf(clause[e + 1..], IsSpace))
  }

  /**
   * A clause with `=` is split at its first `=`: the column is the text
   * before it and the value the text after it, each with every white-space
   * character erased (the left trim before the erasing changes nothing).
   */
  lemma ParseWhereMeaning(clause: string)
    ensures ParseWhere(clause).Equals? <==> '=' in clause
    ensures ParseWhere(clause).Equals? ==> exists e :: SplitAtEquals(clause, e, ParseWhere(clause))
  {
    if clause != [] {
      match FindChar(clause, '=', 0)
      case None =>
      case Some(e) =>
        RemoveIfLTrim(clause[..e]);
        RemoveIfLTrim(clause[e + 1..]);
        assert '=' !in clause[..e] by {
          forall k | 0 <= k < e ensures clause[..e][k] != '=' {
            assert clause[..e][k] == clause[k];
          }
        }
        assert SplitAtEquals(clause, e, ParseWhere(clause));
    }
  }
}
