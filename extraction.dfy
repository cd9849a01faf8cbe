/**
 * What each handler takes out of its command line: the stream reads and
 * text searches of `createTable`, `insertInto`, `selectFrom` and
 * `deleteFrom`, stated on positions in the line and on concrete commands.
 */
module Extraction {
  import opened Text
  import opened Streams
  import opened Commands

  /** A run of non-space characters between positions `p` and `q`. */
  predicate WordSpan(s: string, p: nat, q: nat) {
    p < q <= |s| && forall k :: p <= k < q ==> !IsSpace(s[k])
  }

  /** `>>` from `c`, with only white space before `p` and a word from `p` to a space at `q`, reads that word. */
  lemma ReadWordAt(s: string, c: Cursor, p: nat, q: nat)
    requires c.Good() && c.pos <= p && q < |s| && WordSpan(s, p, q)
    requires forall k :: c.pos <= k < p ==> IsSpace(s[k])
    requires IsSpace(s[q])
    ensures ReadWord(s, c) == (s[p..q], Cursor(q, false, false))
  {
    var r := SkipSpace(s, c.pos);
    assert !IsSpace(s[p]);
    assert r == p;
    var e := WordEnd(s, p);
    assert e == q;
  }

  /** `getline` from `c` up to a delimiter at `q` that is its first one reads the text between. */
  lemma GetLineAt(s: string, c: Cursor, d: char, prev: string, q: nat)
    requires c.Good() && c.pos <= q < |s|
    requires forall k :: c.pos <= k < q ==> s[k] != d
    requires s[q] == d
    ensures GetLine(s, c, d, prev) == (s[c.pos..q], Cursor(q + 1, false, false))
  {
    assert FindChar(s, d, c.pos) == Some(q);
  }

  /** The parse of a line laid out as three words, ` (`, text without `)` and a `)`. */
  lemma ParseCreateAt(s: string, a: nat, b: nat, e: nat, f: nat)
    requires WordSpan(s, 0, a) && WordSpan(s, a + 1, b) && WordSpan(s, b + 1, e)
    requires e + 1 < f < |s|
    requires s[a] == ' ' && s[b] == ' ' && s[e] == ' ' && s[e + 1] == '(' && s[f] == ')'
    requires forall k :: e + 2 <= k < f ==> s[k] != ')'
    ensures ParseCreate(s) == CreateArgs(s[b + 1..e], Clean(Split(s[e + 2..f], ','), true))
  {
    CreateNameAt(s, a, b, e);
    ColumnsDefAt(s, NameCursor(s), e + 1, f);
    var body := s[e + 2..f];
    assert ColumnsDef(s, NameCursor(s)) == body;
    assert ParseCreate(s).columns == Clean(Split(ColumnsDef(s, NameCursor(s)), ','), true);
    assert ParseCreate(s) == CreateArgs(s[b + 1..e], Clean(Split(body, ','), true));
  }

  /** Three words followed by a space: the third is the name, and the stream stands at that space. */
  lemma CreateNameAt(s: string, a: nat, b: nat, e: nat)
    requires WordSpan(s, 0, a) && WordSpan(s, a + 1, b) && WordSpan(s, b + 1, e)
    requires e < |s| && IsSpace(s[a]) && IsSpace(s[b]) && IsSpace(s[e])
    ensures NameCursor(s) == Cursor(e, false, false)
    ensures ParseCreate(s).name == s[b + 1..e]
  {
    ReadWordAt(s, Fresh, 0, a);
    ReadWordAt(s, Cursor(a, false, false), a + 1, b);
    ReadWordAt(s, Cursor(b, false, false), b + 1, e);
  }

  /** Where the stream stands after `createTable` has read its three words. */
  function NameCursor(s: string): Cursor {
    var (_, c1) := ReadWord(s, Fresh);
    var (_, c2) := ReadWord(s, c1);
    var (_, c3) := ReadWord(s, c2);
    c3
  }

  /**
   * Any spacing: after the name, the columns are the comma fields between
   * the first `(` and the next `)`, spaces erased; whatever lies between the
   * name and that `(` is dropped.
   */
  lemma ParseCreateColumns(s: string, o: nat, f: nat)
    requires NameCursor(s).Good() && NameCursor(s).pos <= o < f < |s|
    requires s[o] == '(' && s[f] == ')'
    requires forall k :: NameCursor(s).pos <= k < o ==> s[k] != '('
    requires forall k :: o < k < f ==> s[k] != ')'
    ensures ParseCreate(s).columns == Clean(Split(s[o + 1..f], ','), true)
  {
    ColumnsDefAt(s, NameCursor(s), o, f);
  }

  /** The two `getline` reads from `c` take the text between the first `(` and the next `)`. */
  lemma ColumnsDefAt(s: string, c: Cursor, o: nat, f: nat)
    requires c.Good() && c.pos <= o < f < |s|
    requires s[o] == '(' && s[f] == ')'
    requires forall k :: c.pos <= k < o ==> s[k] != '('
    requires forall k :: o < k < f ==> s[k] != ')'
    ensures ColumnsDef(s, c) == s[o + 1..f]
  {
    GetLineAt(s, c, '(', "", o);
    GetLineAt(s, Cursor(o + 1, false, false), ')', s[c.pos..o], f);
  }

  /**
   * No `(` after the name: the first `getline` takes the rest of the line,
   * the second fails and leaves it in place, so that rest becomes the
   * column text.
   */
  lemma ParseCreateNoParen(s: string)
    requires NameCursor(s).Good()
    requires forall k :: NameCursor(s).pos <= k < |s| ==> s[k] != '('
    ensures ParseCreate(s).columns == Clean(Split(s[NameCursor(s).pos..], ','), true)
  {
  }

  /** Where the pieces of a well-formed `CREATE TABLE` line sit. */
  lemma CreateLineLayout(kw1: string, kw2: string, name: string, body: string, tail: string)
    requires IsWord(kw1) && IsWord(kw2) && IsWord(name)
    requires ')' !in body
    ensures var s := kw1 + " " + kw2 + " " + name + " (" + body + ")" + tail;
      var a := |kw1|;
      var b := a + 1 + |kw2|;
      var e := b + 1 + |name|;
      var f := e + 2 + |body|;
      f < |s| &&
      WordSpan(s, 0, a) && WordSpan(s, a + 1, b) && WordSpan(s, b + 1, e) &&
      s[a] == ' ' && s[b] == ' ' && s[e] == ' ' && s[e + 1] == '(' && s[f] == ')' &&
      (forall k :: e + 2 <= k < f ==> s[k] != ')') &&
      s[b + 1..e] == name && s[e + 2..f] == body
  {
    var p1 := kw1 + " ";
    var p2 := p1 + kw2 + " ";
    var p3 := p2 + name + " (";
    var p4 := p3 + body + ")";
    var s := p4 + tail;
    assert s == kw1 + " " + kw2 + " " + name + " (" + body + ")" + tail;
    var a := |kw1|;
    var b := a + 1 + |kw2|;
    var e := b + 1 + |name|;
    var f := e + 2 + |body|;
    assert forall k :: 0 <= k < a ==> s[k] == kw1[k];
    assert forall k :: a < k < b ==> s[k] == kw2[k - a - 1];
    assert forall k :: b < k < e ==> s[k] == name[k - b - 1];
    assert forall k :: e + 2 <= k < f ==> s[k] == body[k - e - 2];
    assert s[b + 1..e] == name;
    assert s[e + 2..f] == body;
  }

  /**
   * `CREATE TABLE name (body)...` with single spaces: the name is the third
   * word and the columns are the comma fields of `body`, spaces erased.
   */
  lemma ParseCreateShape(kw1: string, kw2: string, name: string, body: string, tail: string)
    requires IsWord(kw1) && IsWord(kw2) && IsWord(name)
    requires ')' !in body
    ensures ParseCreate(kw1 + " " + kw2 + " " + name + " (" + body + ")" + tail) ==
      CreateArgs(name, Clean(Split(body, ','), true))
  {
    var a := |kw1|;
    var b := a + 1 + |kw2|;
    var e := b + 1 + |name|;
    var s := kw1 + " " + kw2 + " " + name + " (" + body + ")" + tail;
    var f := e + 2 + |body|;
    CreateLineLayout(kw1, kw2, name, body, tail);
    assert s[b + 1..e] == name && s[e + 2..f] == body;
    ParseCreateAt(s, a, b, e, f);
  }

  /** With `VALUES` at `v` and no `(` after it, the insert is refused as "Invalid VALUES syntax". */
  lemma InsertNoOpenParen(command: string, t: nat, v: nat)
    requires FirstMatch(ToUpper(command), "INTO", t) && FirstMatch(ToUpper(command), "VALUES", v)
    requires forall k :: v <= k < |command| ==> command[k] != '('
    ensures ParseInsert(command) == BadValues
  {
    FindFirstAt(ToUpper(command), "INTO", t);
    FindFirstAt(ToUpper(command), "VALUES", v);
  }

  /** With the first `(` after `VALUES` at `o` and no `)` after it, the insert is refused. */
  lemma InsertNoCloseParen(command: string, t: nat, v: nat, o: nat)
    requires FirstMatch(ToUpper(command), "INTO", t) && FirstMatch(ToUpper(command), "VALUES", v)
    requires v <= o < |command| && command[o] == '(' && forall k :: v <= k < o ==> command[k] != '('
    requires forall k :: o <= k < |command| ==> command[k] != ')'
    ensures ParseInsert(command) == BadValues
  {
    FindFirst(ToUpper(command), "INTO");
    FindFirst(ToUpper(command), "VALUES");
    assert FindChar(command, '(', v) == Some(o);
  }

  /**
   * With `INTO` first at `t`, `VALUES` first at `v`, the first `(` after it
   * at `o` and the next `)` at `c`: empty parentheses are refused; otherwise
   * the name is the text between `INTO` and `VALUES` (all of the rest when
   * `VALUES` comes first) with spaces erased, and the values are the comma
   * fields between the parentheses with spaces erased.
   */
  lemma InsertValuesAt(command: string, t: nat, v: nat, o: nat, c: nat)
    requires FirstMatch(ToUpper(command), "INTO", t) && FirstMatch(ToUpper(command), "VALUES", v)
    requires v <= o < c < |command| && command[o] == '(' && command[c] == ')'
    requires forall k :: v <= k < o ==> command[k] != '('
    requires forall k :: o <= k < c ==> command[k] != ')'
    ensures c == o + 1 ==> ParseInsert(command) == BadValues
    ensures c > o + 1 ==>
      ParseInsert(command) ==
        InsertRow(RemoveIf(if v >= t + 4 then command[t + 4..v] else command[t + 4..], IsBlank),
                  Clean(Split(command[o + 1..c], ','), true))
  {
    InsertPositions(command, t, v, o, c);
    Commands.InsertFromSearches(command, t, v, o, c);
  }

  /** The four searches of `insertInto` find the positions the layout names. */
  lemma InsertPositions(command: string, t: nat, v: nat, o: nat, c: nat)
    requires FirstMatch(ToUpper(command), "INTO", t) && FirstMatch(ToUpper(command), "VALUES", v)
    requires v <= o < c < |command| && command[o] == '(' && command[c] == ')'
    requires forall k :: v <= k < o ==> command[k] != '('
    requires forall k :: o <= k < c ==> command[k] != ')'
    ensures Find(ToUpper(command), "INTO", 0) == Some(t) && Find(ToUpper(command), "VALUES", 0) == Some(v)
    ensures FindChar(command, '(', v) == Some(o) && FindChar(command, ')', o) == Some(c)
  {
    KeywordPositions(command, t, v);
    ParenPositions(command, v, o, c);
  }

  /** The keyword searches of `insertInto` find their first occurrences. */
  lemma KeywordPositions(command: string, t: nat, v: nat)
    requires FirstMatch(ToUpper(command), "INTO", t) && FirstMatch(ToUpper(command), "VALUES", v)
    ensures Find(ToUpper(command), "INTO", 0) == Some(t) && Find(ToUpper(command), "VALUES", 0) == Some(v)
  {
    FindFirstAt(ToUpper(command), "INTO", t);
    FindFirstAt(ToUpper(command), "VALUES", v);
  }

  /** The parenthesis searches of `insertInto` find the first `(` and the next `)`. */
  lemma ParenPositions(command: string, v: nat, o: nat, c: nat)
    requires v <= o < c < |command| && command[o] == '(' && command[c] == ')'
    requires forall k :: v <= k < o ==> command[k] != '('
    requires forall k :: o <= k < c ==> command[k] != ')'
    ensures FindChar(command, '(', v) == Some(o) && FindChar(command, ')', o) == Some(c)
  {
  }

  /** The insert without an opening parenthesis is refused and, by `Parsing.InsertEffects`, writes nothing. */
  lemma InsertMissingOpenParen()
    ensures ParseInsert("INSERT INTO t VALUES 1,2)") == BadValues
  {
    var command := "INSERT INTO t VALUES 1,2)";
    var u := ToUpper(command);
    assert u[7..11] == "INTO";
    assert MatchAt(u, "INTO", 7);
    assert u[14..20] == "VALUES";
    assert MatchAt(u, "VALUES", 14);
    assert '(' !in command;
  }

  lemma ExampleInsertUpper()
    ensures ToUpper("INSERT INTO t VALUES (1, 2)") == "INSERT INTO T VALUES (1, 2)"
  {
    var c := "INSERT INTO t VALUES (1, 2)";
    ToUpperMeaning(c);
    assert c[12] == 't';
    forall i | 0 <= i < |c| ensures ToUpper(c)[i] == "INSERT INTO T VALUES (1, 2)"[i] {
      if i != 12 {
        assert !IsLower(c[i]);
      }
    }
  }

  lemma ExampleInsertInto()
    ensures FirstMatch("INSERT INTO T VALUES (1, 2)", "INTO", 7)
  {
    var u := "INSERT INTO T VALUES (1, 2)";
    assert u[7..11] == "INTO";
    forall j: nat | j < 7 ensures !MatchAt(u, "INTO", j) {
      if j == 0 {
        MismatchAt(u, "INTO", j, 2);
      } else {
        MismatchAt(u, "INTO", j, 0);
      }
    }
  }

  lemma ExampleInsertValues()
    ensures FirstMatch("INSERT INTO T VALUES (1, 2)", "VALUES", 14)
  {
    var u := "INSERT INTO T VALUES (1, 2)";
    assert u[14..20] == "VALUES";
    forall j: nat | j < 14 ensures !MatchAt(u, "VALUES", j) {
      MismatchAt(u, "VALUES", j, 0);
    }
  }

  lemma ExampleInsertText()
    ensures var c := "INSERT INTO t VALUES (1, 2)";
      |c| == 27 && c[21] == '(' && c[26] == ')' &&
      (forall k :: 14 <= k < 21 ==> c[k] != '(') && (forall k :: 21 <= k < 26 ==> c[k] != ')') &&
      RemoveIf(c[11..14], IsBlank) == "t" && Clean(Split(c[22..26], ','), true) == ["1", "2"]
  {
    var c := "INSERT INTO t VALUES (1, 2)";
    assert c[11..14] == " t ";
    assert RemoveIf(" t ", IsBlank) == "t";
    assert c[22..26] == "1, 2";
    ExampleValuesText();
  }

  lemma ExampleValuesText()
    ensures Clean(Split("1, 2", ','), true) == ["1", "2"]
  {
    assert FindChar("1, 2", ',', 0) == Some(1);
    assert "1, 2"[..1] == "1";
    assert "1, 2"[2..] == " 2";
    assert FindChar(" 2", ',', 0) == None;
    assert Split("1, 2", ',') == ["1", " 2"];
    assert RemoveIf(" 2", IsBlank) == "2";
    assert RemoveIf("1", IsBlank) == "1";
    assert ["1", " 2"][1..] == [" 2"];
    assert [" 2"][1..] == [];
  }

  /** A well-formed insert: the name and the values come out with their spaces erased. */
  lemma InsertExample()
    ensures ParseInsert("INSERT INTO t VALUES (1, 2)") == InsertRow("t", ["1", "2"])
  {
    ExampleInsertUpper();
    ExampleInsertInto();
    ExampleInsertValues();
    ExampleInsertText();
    InsertValuesAt("INSERT INTO t VALUES (1, 2)", 7, 14, 21, 26);
  }

  /**
   * The values `insertInto` extracts: at least one, none holding a comma or
   * a space; joined and split again they come back, unless the last one is
   * empty.
   */
  lemma InsertValuesShape(command: string)
    requires ParseInsert(command).InsertRow?
    ensures var vs := ParseInsert(command).values;
      vs != [] &&
      (forall i :: 0 <= i < |vs| ==> ',' !in vs[i] && ' ' !in vs[i]) &&
      (vs[|vs| - 1] != "" ==> Split(Join(vs, ','), ',') == vs)
  {
    var upper := ToUpper(command);
    var posValues := Find(upper, "VALUES", 0);
    var start := FindChar(command, '(', posValues.value);
    var end := FindChar(command, ')', start.value);
    var fields := Split(command[start.value + 1..end.value], ',');
    var vs := ParseInsert(command).values;
    assert vs == Clean(fields, true);
    CleanErases(fields);
    forall i | 0 <= i < |vs| ensures ',' !in vs[i] && ' ' !in vs[i] {
      RemoveIfMembers(fields[i], IsBlank, ',');
      RemoveIfMembers(fields[i], IsBlank, ' ');
    }
    if vs[|vs| - 1] != "" {
      SplitJoin(vs, ',');
    }
  }

  /** `Invalid INSERT syntax` is reported exactly when `INTO` or `VALUES` occurs nowhere, in any case. */
  lemma InsertNeedsKeywords(command: string)
    ensures ParseInsert(command).BadInsert? <==>
      (forall j: nat :: !MatchAt(ToUpper(command), "INTO", j)) ||
      (forall j: nat :: !MatchAt(ToUpper(command), "VALUES", j))
  {
  }

  /** With the first `FROM` of the upper-cased command at `i`, the name is everything after it, left-trimmed. */
  lemma SelectAfterFrom(command: string, i: nat)
    requires FirstMatch(ToUpper(command), "FROM", i)
    ensures ParseSelect(command) == Some(LTrim(command[i + 4..]))
  {
    FindFirst(ToUpper(command), "FROM");
  }

  /** Trailing text stays part of the name: `SELECT * FROM t;` looks for table `t;`. */
  lemma SelectKeepsTrailingText()
    ensures ParseSelect("SELECT * FROM t;") == Some("t;")
  {
    var c := "SELECT * FROM t;";
    ExampleSelectUpper();
    ExampleSelectFrom();
    SelectAfterFrom(c, 9);
    assert c[13..] == " t;";
    assert TrimStart(" t;") == 1;
  }

  lemma ExampleSelectUpper()
    ensures ToUpper("SELECT * FROM t;") == "SELECT * FROM T;"
  {
    var c := "SELECT * FROM t;";
    ToUpperMeaning(c);
    assert c[14] == 't';
    forall i | 0 <= i < |c| ensures ToUpper(c)[i] == "SELECT * FROM T;"[i] {
      if i != 14 {
        assert !IsLower(c[i]);
      }
    }
  }

  lemma ExampleSelectFrom()
    ensures FirstMatch("SELECT * FROM T;", "FROM", 9)
  {
    var u := "SELECT * FROM T;";
    assert u[9..13] == "FROM";
    forall j: nat | j < 9 ensures !MatchAt(u, "FROM", j) {
      MismatchAt(u, "FROM", j, 0);
    }
  }

  /** `>>` from `c`, with only white space before `p` and a word from `p` to the end, reads that word and sets eof. */
  lemma ReadWordToEnd(s: string, c: Cursor, p: nat)
    requires c.Good() && c.pos <= p && WordSpan(s, p, |s|)
    requires forall k :: c.pos <= k < p ==> IsSpace(s[k])
    ensures ReadWord(s, c) == (s[p..], Cursor(|s|, true, false))
  {
    var r := SkipSpace(s, c.pos);
    assert !IsSpace(s[p]);
    assert r == p;
    var e := WordEnd(s, p);
    assert e == |s|;
    assert s[p..e] == s[p..];
  }

  /** Three `>>` reads from a fresh stream: the third takes the word from `b + 1` to `e`. */
  lemma ThirdWordAt(s: string, a: nat, b: nat, e: nat)
    requires WordSpan(s, 0, a) && WordSpan(s, a + 1, b) && WordSpan(s, b + 1, e)
    requires IsSpace(s[a]) && IsSpace(s[b]) && (e < |s| ==> IsSpace(s[e]))
    ensures var (_, c1) := ReadWord(s, Fresh);
      var (_, c2) := ReadWord(s, c1);
      var (name, c3) := ReadWord(s, c2);
      !c3.fail && name == s[b + 1..e]
  {
    ReadWordAt(s, Fresh, 0, a);
    ReadWordAt(s, Cursor(a, false, false), a + 1, b);
    if e < |s| {
      ReadWordAt(s, Cursor(b, false, false), b + 1, e);
    } else {
      ReadWordToEnd(s, Cursor(b, false, false), b + 1);
    }
  }

  /**
   * `deleteFrom` takes the third word as the table name, whether a space
   * or the end of the line follows it.
   */
  lemma DeleteNameAt(s: string, a: nat, b: nat, e: nat)
    requires WordSpan(s, 0, a) && WordSpan(s, a + 1, b) && WordSpan(s, b + 1, e)
    requires IsSpace(s[a]) && IsSpace(s[b]) && (e < |s| ==> IsSpace(s[e]))
    ensures ParseDelete(s) != NameMissing
    ensures ParseDelete(s).DeleteTarget? ==> ParseDelete(s).name == s[b + 1..e]
  {
    ThirdWordAt(s, a, b, e);
  }

  /**
   * With a name present and the first `WHERE` at `i`, the clause is the text
   * from six characters on; a `WHERE` that ends the line aborts.
   */
  lemma DeleteClauseAfterUpper(command: string, i: nat)
    requires ParseDelete(command) != NameMissing && FirstMatch(command, "WHERE", i)
    ensures i + 6 <= |command| ==> ParseDelete(command).DeleteTarget? && ParseDelete(command).clause == command[i + 6..]
    ensures i + 6 > |command| ==> ParseDelete(command) == ClauseOutOfRange
  {
    FindFirst(command, "WHERE");
  }

  /** Only when `WHERE` occurs nowhere is the first lower-case `where` used, in the same way. */
  lemma DeleteClauseAfterLower(command: string, i: nat)
    requires ParseDelete(command) != NameMissing && NoMatch(command, "WHERE") && FirstMatch(command, "where", i)
    ensures i + 6 <= |command| ==> ParseDelete(command).DeleteTarget? && ParseDelete(command).clause == command[i + 6..]
    ensures i + 6 > |command| ==> ParseDelete(command) == ClauseOutOfRange
  {
    FindFirst(command, "WHERE");
    FindFirst(command, "where");
  }

  /** Neither spelling present, in particular a mixed-case `Where`: the clause is empty. */
  lemma DeleteWithoutKeyword(command: string)
    requires ParseDelete(command) != NameMissing && NoMatch(command, "WHERE") && NoMatch(command, "where")
    ensures ParseDelete(command).DeleteTarget? && ParseDelete(command).clause == ""
  {
    FindFirst(command, "WHERE");
    FindFirst(command, "where");
  }

  /** The name of the mixed-case example is its third word, `t`. */
  lemma MixedCaseName()
    ensures ParseDelete("DELETE FROM t Where a = 1") != NameMissing
    ensures ParseDelete("DELETE FROM t Where a = 1").DeleteTarget? ==>
      ParseDelete("DELETE FROM t Where a = 1").name == "t"
  {
    MixedCaseLayout();
    DeleteNameAt("DELETE FROM t Where a = 1", 6, 11, 13);
  }

  /** Where the three words of the mixed-case example sit. */
  lemma MixedCaseLayout()
    ensures var s := "DELETE FROM t Where a = 1";
      WordSpan(s, 0, 6) && WordSpan(s, 7, 11) && WordSpan(s, 12, 13) &&
      IsSpace(s[6]) && IsSpace(s[11]) && IsSpace(s[13]) && s[12..13] == "t"
  {
  }

  /** Neither spelling of the keyword occurs in the mixed-case example. */
  lemma MixedCaseNoKeyword()
    ensures NoMatch("DELETE FROM t Where a = 1", "WHERE") && NoMatch("DELETE FROM t Where a = 1", "where")
  {
    var s := "DELETE FROM t Where a = 1";
    forall j: nat | j <= |s| ensures !MatchAt(s, "WHERE", j) {
      if j == 14 {
        MismatchAt(s, "WHERE", j, 1);
      } else {
        MismatchAt(s, "WHERE", j, 0);
      }
    }
    forall j: nat | j <= |s| ensures !MatchAt(s, "where", j) {
      MismatchAt(s, "where", j, 0);
    }
  }

  /** `Where` is neither `WHERE` nor `where`, so this command carries no clause at all. */
  lemma DeleteMixedCaseWhere()
    ensures ParseDelete("DELETE FROM t Where a = 1") == DeleteTarget("t", "")
  {
    MixedCaseName();
    MixedCaseNoKeyword();
    DeleteWithoutKeyword("DELETE FROM t Where a = 1");
  }
}
