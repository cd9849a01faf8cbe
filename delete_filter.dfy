/**
 * What `deleteFrom` does to a table: the row loop is a filter, and for
 * each shape of the WHERE clause the resulting file, the flags and the
 * messages are pinned down.
 */
module DeleteFilter {
  import opened Text
  import opened Streams
  import opened Commands
  import opened Semantics
  import Extraction

  /** `a` can be obtained from `b` by deleting elements, keeping the order of the rest. */
  predicate IsSubsequence<T(==)>(a: seq<T>, b: seq<T>)
    decreases |b|
  {
    if a == [] then true
    else if b == [] then false
    else if a[|a| - 1] == b[|b| - 1] then IsSubsequence(a[..|a| - 1], b[..|b| - 1])
    else IsSubsequence(a, b[..|b| - 1])
  }

  /** The row loop keeps the lines in file order: the new file is a subsequence of the old one. */
  lemma {:induction false} KeptRowsInOrder(w: Where, columns: seq<string>, lines: seq<string>)
    ensures IsSubsequence(KeptRows(w, columns, lines), lines)
    decreases |lines|
  {
    if lines != [] {
      var n := |lines| - 1;
      var front := KeptRows(w, columns, lines[..n]);
      KeptRowsInOrder(w, columns, lines[..n]);
      if KeepRow(w, columns, lines[n]) {
        var r := front + [lines[n]];
        assert r[..|r| - 1] == front;
      } else {
        assert KeptRows(w, columns, lines) == front + [];
        assert front + [] == front;
        SubsequenceOfFront(front, lines);
      }
    }
  }

  /** A subsequence of a prefix of `b` is a subsequence of `b`. */
  lemma {:induction false} SubsequenceOfFront<T>(a: seq<T>, b: seq<T>)
    requires b != []
    requires IsSubsequence(a, b[..|b| - 1])
    ensures IsSubsequence(a, b)
    decreases |b|, 0
  {
    if a != [] && a[|a| - 1] == b[|b| - 1] {
      SubsequenceShrink(a, b[..|b| - 1]);
    }
  }

  /** Dropping the last element of `a` keeps it a subsequence. */
  lemma {:induction false} SubsequenceShrink<T>(a: seq<T>, b: seq<T>)
    requires a != []
    requires IsSubsequence(a, b)
    ensures IsSubsequence(a[..|a| - 1], b)
    decreases |b|, 1
  {
    var front := a[..|a| - 1];
    if a[|a| - 1] == b[|b| - 1] {
      SubsequenceOfFront(front, b);
    } else {
      SubsequenceShrink(a, b[..|b| - 1]);
      SubsequenceOfFront(front, b);
    }
  }

  /**
   * The row loop drops exactly the lines the keep rule rejects: every line
   * occurs in the new file as often as in the old one when it is kept, and
   * not at all otherwise.
   */
  lemma {:induction false} KeptRowsCounts(w: Where, columns: seq<string>, lines: seq<string>, x: string)
    ensures multiset(KeptRows(w, columns, lines))[x] == if KeepRow(w, columns, x) then multiset(lines)[x] else 0
    decreases |lines|
  {
    if lines != [] {
      var n := |lines| - 1;
      KeptRowsCounts(w, columns, lines[..n], x);
      assert lines == lines[..n] + [lines[n]];
    }
  }

  /** `deleted` ends up set exactly when some line was not kept. */
  lemma {:induction false} SomeDroppedMeans(w: Where, columns: seq<string>, lines: seq<string>)
    ensures SomeDropped(w, columns, lines) <==> exists k :: 0 <= k < |lines| && !KeepRow(w, columns, lines[k])
    decreases |lines|
  {
    if lines != [] {
      var n := |lines| - 1;
      SomeDroppedMeans(w, columns, lines[..n]);
      assert forall k :: 0 <= k < n ==> lines[..n][k] == lines[k];
      if SomeDropped(w, columns, lines[..n]) {
        var k :| 0 <= k < n && !KeepRow(w, columns, lines[..n][k]);
        assert !KeepRow(w, columns, lines[k]);
      }
    }
  }

  /** When every line is kept the file comes back unchanged. */
  lemma {:induction false} KeptRowsAll(w: Where, columns: seq<string>, lines: seq<string>)
    requires forall k :: 0 <= k < |lines| ==> KeepRow(w, columns, lines[k])
    ensures KeptRows(w, columns, lines) == lines
    decreases |lines|
  {
    if lines != [] {
      var n := |lines| - 1;
      assert forall k :: 0 <= k < n ==> lines[..n][k] == lines[k];
      KeptRowsAll(w, columns, lines[..n]);
      assert lines == lines[..n] + [lines[n]];
    }
  }

  /** Without a clause no line is kept. */
  lemma {:induction false} KeptRowsNone(columns: seq<string>, lines: seq<string>)
    ensures KeptRows(NoClause, columns, lines) == []
    decreases |lines|
  {
    if lines != [] {
      KeptRowsNone(columns, lines[..|lines| - 1]);
    }
  }

  /** The lines of the table `deleteFrom` works on. */
  function TableLines(db: Db, name: string): seq<string> {
    Contents(db.files, TableFile(name))
  }

  /** Without a clause the table becomes empty, and "Deleted" is reported iff it had a line. */
  lemma DeleteNoClause(db: Db, name: string)
    requires TableFile(name) in db.files
    ensures DeleteRows(db, name, "").db.files == (db.files - {TempFile(name)})[TableFile(name) := []]
    ensures DeleteRows(db, name, "").db.catalog == db.catalog
    ensures DeleteRows(db, name, "").messages ==
      [if TableLines(db, name) != [] then Deleted(name, "") else NoMatchingRows(name)]
  {
    var lines := TableLines(db, name);
    KeptRowsNone(TableColumns(db, name), lines);
    assert |KeptRows(NoClause, TableColumns(db, name), lines)| == 0;
  }

  /**
   * A clause on a column the table does not have, on a table with at least
   * one line: the table's file is left as it was, the scratch file is
   * removed, the catalog is untouched, and the column error is the only message.
   */
  lemma DeleteUnknownColumn(db: Db, name: string, clause: string)
    requires TableFile(name) in db.files && TableLines(db, name) != []
    requires ParseWhere(clause).Equals? && ParseWhere(clause).column !in TableColumns(db, name)
    ensures DeleteRows(db, name, clause).db.files == db.files - {TempFile(name)}
    ensures TableFile(name) in DeleteRows(db, name, clause).db.files
    ensures DeleteRows(db, name, clause).db.files[TableFile(name)] == db.files[TableFile(name)]
    ensures DeleteRows(db, name, clause).messages == [ColumnNotFound(name)]
    ensures DeleteRows(db, name, clause).db.catalog == db.catalog
  {
    assert TableFile(name) != TempFile(name) by {
      assert |TempFile(name)| == |TableFile(name)| + 5;
    }
  }

  /**
   * The same clause on an empty table never clears `whereColumnValid`, so
   * the (empty) scratch file replaces the table, no error is reported and
   * the catalog is untouched.
   */
  lemma DeleteUnknownColumnEmptyTable(db: Db, name: string, clause: string)
    requires TableFile(name) in db.files && TableLines(db, name) == []
    requires ParseWhere(clause).Equals? && ParseWhere(clause).column !in TableColumns(db, name)
    ensures DeleteRows(db, name, clause).db.files == (db.files - {TempFile(name)})[TableFile(name) := []]
    ensures DeleteRows(db, name, clause).messages == [NoMatchingRows(name)]
    ensures DeleteRows(db, name, clause).db.catalog == db.catalog
  {
  }

  /**
   * A clause without `=`: every line is kept, so the table's file gets back
   * exactly the lines it had, with one warning per line; the catalog is
   * untouched.
   */
  lemma DeleteMalformedClause(db: Db, name: string, clause: string)
    requires TableFile(name) in db.files
    requires clause != "" && '=' !in clause
    ensures DeleteRows(db, name, clause).db.files == (db.files - {TempFile(name)})[TableFile(name) := db.files[TableFile(name)]]
    ensures DeleteRows(db, name, clause).messages ==
      Warnings(Malformed, |TableLines(db, name)|) + [NoMatchingRows(name)]
    ensures |Warnings(Malformed, |TableLines(db, name)|)| == |TableLines(db, name)|
    ensures DeleteRows(db, name, clause).db.catalog == db.catalog
  {
    var lines := TableLines(db, name);
    KeptRowsAll(Malformed, TableColumns(db, name), lines);
  }

  /**
   * A clause on a known column: the new file holds the old lines in their
   * order, minus exactly those whose field at the column's index equals the
   * value; "Deleted" is reported iff one went; the catalog and every other
   * file stay as they were.
   */
  lemma DeleteKnownColumn(db: Db, name: string, clause: string)
    requires TableFile(name) in db.files
    requires ParseWhere(clause).Equals? && ParseWhere(clause).column in TableColumns(db, name)
    ensures var r := DeleteRows(db, name, clause);
      var lines := db.files[TableFile(name)];
      var index := IndexOf(TableColumns(db, name), ParseWhere(clause).column);
      var value := ParseWhere(clause).value;
      TableFile(name) in r.db.files && TempFile(name) !in r.db.files &&
      IsSubsequence(r.db.files[TableFile(name)], lines) &&
      (forall x :: multiset(r.db.files[TableFile(name)])[x] ==
        if FieldIs(x, index, value) then 0 else multiset(lines)[x]) &&
      r.messages == [if exists k :: 0 <= k < |lines| && FieldIs(lines[k], index, value)
                     then Deleted(name, clause) else NoMatchingRows(name)] &&
      r.db.catalog == db.catalog &&
      (forall f :: f != TableFile(name) && f != TempFile(name) ==> (f in r.db.files <==> f in db.files)) &&
      (forall f :: f != TableFile(name) && f != TempFile(name) && f in db.files ==> r.db.files[f] == db.files[f])
  {
    var lines := db.files[TableFile(name)];
    var columns := TableColumns(db, name);
    var w := ParseWhere(clause);
    var index := IndexOf(columns, w.column);
    assert forall x :: KeepRow(w, columns, x) <==> !FieldIs(x, index, w.value);
    KeptRowsInOrder(w, columns, lines);
    forall x ensures multiset(KeptRows(w, columns, lines))[x] ==
      if FieldIs(x, index, w.value) then 0 else multiset(lines)[x]
    {
      KeptRowsCounts(w, columns, lines, x);
    }
    SomeDroppedMeans(w, columns, lines);
  }

  /**
   * `DELETE FROM t Where a = 1` spells the keyword in mixed case, finds no
   * clause and so empties the whole table.
   */
  lemma MixedCaseWhereEmptiesTable(db: Db)
    requires TableFile("t") in db.files
    ensures DeleteStep(db, "DELETE FROM t Where a = 1").db.files == (db.files - {TempFile("t")})[TableFile("t") := []]
  {
    Extraction.DeleteMixedCaseWhere();
    DeleteNoClause(db, "t");
  }
}
