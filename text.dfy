/**
 * String helpers of the engine: `ltrim`, `toUpper`, `std::string::find`,
 * the erase-remove idiom, and the comma splitting and joining that the
 * catalog log and the record files use.  Characters are ASCII as far as
 * the "C" locale is concerned: everything outside 'a'..'z' is left alone
 * by upper-casing.
 */
module Text {

  datatype Option<T> = None | Some(value: T)

  /** The characters `ltrim` skips: space, tab, line feed, carriage return. */
  predicate IsTrimSpace(c: char) {
    c == ' ' || c == '\t' || c == '\n' || c == '\r'
  }

  /** The characters `isspace` accepts in the "C" locale (adds vertical tab and form feed). */
  predicate IsSpace(c: char) {
    IsTrimSpace(c) || c == '\U{000B}' || c == '\U{000C}'
  }

  /** The one character the erase-remove calls on names and values drop. */
  predicate IsBlank(c: char) {
    c == ' '
  }

  /** `find_first_not_of(" \t\n\r")`: the index of the first character `ltrim` keeps, `|s|` for none. */
  function TrimStart(s: string): (k: nat)
    ensures k <= |s|
    ensures forall i :: 0 <= i < k ==> IsTrimSpace(s[i])
    ensures k < |s| ==> !IsTrimSpace(s[k])
    decreases |s|
  {
    if s == [] || !IsTrimSpace(s[0]) then 0 else 1 + TrimStart(s[1..])
  }

  /** `ltrim`: the text from the first character that is not space, tab, LF or CR. */
  function LTrim(s: string): (r: string)
    ensures r != [] ==> !IsTrimSpace(r[0])
    ensures r == [] <==> forall i :: 0 <= i < |s| ==> IsTrimSpace(s[i])
  {
    s[TrimStart(s)..]
  }

  /** What `ltrim` drops is a prefix of trim characters only. */
  lemma LTrimIsSuffix(s: string)
    ensures exists k :: 0 <= k <= |s| && LTrim(s) == s[k..] && forall i :: 0 <= i < k ==> IsTrimSpace(s[i])
  {
    assert LTrim(s) == s[TrimStart(s)..];
  }

  /** `::toupper` in the "C" locale. */
  function UpperChar(c: char): char {
    if 'a' <= c <= 'z' then (c as int - 32) as char else c
  }

  predicate IsLower(c: char) {
    'a' <= c <= 'z'
  }

  /** `toUpper`: `::toupper` applied to every character, via `std::transform`. */
  function ToUpper(s: string): (r: string)
    ensures |r| == |s|
  {
    seq(|s|, i requires 0 <= i < |s| => UpperChar(s[i]))
  }

  /**
   * Upper-casing turns each lower-case letter into its capital, keeps every
   * other character, leaves no lower-case letter behind, and is idempotent.
   */
  lemma ToUpperMeaning(s: string)
    ensures forall i :: 0 <= i < |s| && IsLower(s[i]) ==> ToUpper(s)[i] == (s[i] as int - 32) as char
    ensures forall i :: 0 <= i < |s| && !IsLower(s[i]) ==> ToUpper(s)[i] == s[i]
    ensures forall i :: 0 <= i < |s| ==> !IsLower(ToUpper(s)[i])
    ensures ToUpper(ToUpper(s)) == ToUpper(s)
  {
  }

  /** `pat` occurs in `s` starting at index `i`. */
  predicate MatchAt(s: string, pat: string, i: nat) {
    i + |pat| <= |s| && s[i..i + |pat|] == pat
  }

  /** One differing character rules a match out. */
  lemma MismatchAt(s: string, pat: string, i: nat, k: nat)
    requires k < |pat| && (i + k < |s| ==> s[i + k] != pat[k])
    ensures !MatchAt(s, pat, i)
  {
    if i + |pat| <= |s| {
      assert s[i..i + |pat|][k] == s[i + k];
    }
  }

  /** `s.find(pat, from)`: the first occurrence of `pat` at or after `from`; None is `npos`. */
  function Find(s: string, pat: string, from: nat): (r: Option<nat>)
    ensures r.Some? ==> from <= r.value && MatchAt(s, pat, r.value)
    ensures r.Some? ==> forall j: nat :: from <= j < r.value ==> !MatchAt(s, pat, j)
    ensures r.None? ==> forall j: nat :: from <= j ==> !MatchAt(s, pat, j)
    decreases |s| - from
  {
    if from + |pat| > |s| then None
    else if s[from..from + |pat|] == pat then Some(from)
    else Find(s, pat, from + 1)
  }

  /** `i` is the first position where `pat` occurs in `s`. */
  predicate FirstMatch(s: string, pat: string, i: nat) {
    MatchAt(s, pat, i) && forall j: nat :: j < i ==> !MatchAt(s, pat, j)
  }

  /** `pat` occurs nowhere in `s`. */
  predicate NoMatch(s: string, pat: string) {
    forall j: nat :: j <= |s| ==> !MatchAt(s, pat, j)
  }

  /** `find(pat)` from the start returns the first occurrence, and `npos` exactly when there is none. */
  lemma FindFirst(s: string, pat: string)
    ensures NoMatch(s, pat) <==> Find(s, pat, 0).None?
    ensures forall i: nat :: FirstMatch(s, pat, i) ==> Find(s, pat, 0) == Some(i)
  {
  }

  /** The first occurrence at `i` is what `find(pat)` returns. */
  lemma FindFirstAt(s: string, pat: string, i: nat)
    requires FirstMatch(s, pat, i)
    ensures Find(s, pat, 0) == Some(i)
  {
    FindFirst(s, pat);
  }

  /** `s.find(c, from)` for a single character: the first index at or after `from` holding `c`. */
  function FindChar(s: string, c: char, from: nat): (r: Option<nat>)
    ensures r.Some? ==> from <= r.value < |s| && s[r.value] == c
    ensures r.Some? ==> forall j :: from <= j < r.value ==> s[j] != c
    ensures r.None? ==> forall j :: from <= j < |s| ==> s[j] != c
    decreases |s| - from
  {
    if from >= |s| then None
    else if s[from] == c then Some(from)
    else FindChar(s, c, from + 1)
  }

  /** The character search from `from` is the search of the suffix that starts there, shifted. */
  lemma FindCharInSuffix(s: string, c: char, from: nat)
    requires from <= |s|
    ensures FindChar(s, c, from).None? <==> FindChar(s[from..], c, 0).None?
    ensures FindChar(s, c, from).Some? ==> FindChar(s[from..], c, 0).value == FindChar(s, c, from).value - from
  {
    var t := s[from..];
    assert forall k :: 0 <= k < |t| ==> t[k] == s[k + from];
    if FindChar(s, c, from).Some? {
      var i := FindChar(s, c, from).value;
      assert t[i - from] == c;
    }
  }

  /** `std::find` over a vector: the first index holding `x`, or `|xs|` when there is none. */
  function IndexOf<T(==)>(xs: seq<T>, x: T): (i: nat)
    ensures i <= |xs|
    ensures i < |xs| ==> xs[i] == x
    ensures forall j :: 0 <= j < i ==> xs[j] != x
    ensures i == |xs| <==> x !in xs
    decreases |xs|
  {
    if xs == [] then 0 else if xs[0] == x then 0 else 1 + IndexOf(xs[1..], x)
  }

  /** `s.rfind(p, 0) == 0`: `p` is a prefix of `s`. */
  predicate StartsWith(s: string, p: string) {
    |p| <= |s| && s[..|p|] == p
  }

  lemma FindAtZeroIsPrefix(s: string, p: string)
    ensures Find(s, p, 0) == Some(0) <==> StartsWith(s, p)
  {
    if StartsWith(s, p) {
      assert MatchAt(s, p, 0);
    }
  }

  /** The erase-remove idiom: delete every character `drop` accepts, keeping the order of the rest. */
  function RemoveIf(s: string, drop: char -> bool): (r: string)
    ensures |r| <= |s|
    ensures forall i :: 0 <= i < |r| ==> !drop(r[i])
    decreases |s|
  {
    if s == [] then []
    else if drop(s[0]) then RemoveIf(s[1..], drop)
    else [s[0]] + RemoveIf(s[1..], drop)
  }

  /** Erasing leaves a text without droppable characters as it is. */
  lemma {:induction false} RemoveIfNothing(s: string, drop: char -> bool)
    requires forall i :: 0 <= i < |s| ==> !drop(s[i])
    ensures RemoveIf(s, drop) == s
    decreases |s|
  {
    if s != [] {
      RemoveIfNothing(s[1..], drop);
      assert s == [s[0]] + s[1..];
    }
  }

  /** A character survives the erasing exactly when it was there and is not dropped. */
  lemma {:induction false} RemoveIfMembers(s: string, drop: char -> bool, c: char)
    ensures c in RemoveIf(s, drop) <==> c in s && !drop(c)
    decreases |s|
  {
    if s != [] {
      RemoveIfMembers(s[1..], drop, c);
      assert s == [s[0]] + s[1..];
    }
  }

  /** Erasing works piece by piece, so the survivors keep their order. */
  lemma {:induction false} RemoveIfAppend(a: string, b: string, drop: char -> bool)
    ensures RemoveIf(a + b, drop) == RemoveIf(a, drop) + RemoveIf(b, drop)
    decreases |a|
  {
    if a == [] {
      assert a + b == b;
    } else {
      assert (a + b)[0] == a[0];
      assert (a + b)[1..] == a[1..] + b;
      RemoveIfAppend(a[1..], b, drop);
    }
  }

  /** Left-trimming before erasing every white-space character changes nothing. */
  lemma {:induction false} RemoveIfLTrim(s: string)
    ensures RemoveIf(LTrim(s), IsSpace) == RemoveIf(s, IsSpace)
    decreases |s|
  {
    if s != [] && IsTrimSpace(s[0]) {
      assert LTrim(s) == LTrim(s[1..]) by {
        assert TrimStart(s) == 1 + TrimStart(s[1..]);
        assert s[1..][TrimStart(s[1..])..] == s[TrimStart(s)..];
      }
      RemoveIfLTrim(s[1..]);
    } else {
      assert LTrim(s) == s;
    }
  }

  /**
   * What repeated `getline(stream, field, d)` produces on `s`: the pieces
   * between delimiters, where a delimiter that ends the text yields no
   * empty last piece, and the empty text yields no piece at all.
   */
  function Split(s: string, d: char): (parts: seq<string>)
    ensures forall i :: 0 <= i < |parts| ==> d !in parts[i]
    ensures parts == [] <==> s == []
    decreases |s|
  {
    if s == [] then []
    else match FindChar(s, d, 0)
      case None => [s]
      case Some(i) => [s[..i]] + Split(s[i + 1..], d)
  }

  /** Fields written one after the other with a single `d` between them, none after the last. */
  function Join(parts: seq<string>, d: char): string
    decreases |parts|
  {
    if |parts| == 0 then ""
    else if |parts| == 1 then parts[0]
    else parts[0] + [d] + Join(parts[1..], d)
  }

  /**
   * Splitting loses nothing but a trailing delimiter: the pieces joined
   * again give the text back, or the text without its last character
   * when that character is the delimiter.
   */
  lemma {:induction false} SplitRejoins(s: string, d: char)
    ensures Join(Split(s, d), d) == s || Join(Split(s, d), d) + [d] == s
    decreases |s|
  {
    if s != [] {
      match FindChar(s, d, 0)
      case None =>
      case Some(i) =>
        var r := s[i + 1..];
        var parts := Split(s, d);
        assert parts == [s[..i]] + Split(r, d);
        assert s == s[..i] + [d] + r;
        SplitRejoins(r, d);
        if r == [] {
          assert parts == [s[..i]];
        } else {
          assert parts[1..] == Split(r, d);
          assert Join(parts, d) == s[..i] + [d] + Join(Split(r, d), d);
          if Join(Split(r, d), d) + [d] == r {
            assert Join(parts, d) + [d] == s[..i] + [d] + (Join(Split(r, d), d) + [d]);
          }
        }
    }
  }

  /** Writing one more field appends the delimiter and the field. */
  lemma {:induction false} JoinSnoc(parts: seq<string>, x: string, d: char)
    requires parts != []
    ensures Join(parts + [x], d) == Join(parts, d) + [d] + x
    decreases |parts|
  {
    if |parts| == 1 {
      assert (parts + [x])[1..] == [x];
    } else {
      assert (parts + [x])[1..] == parts[1..] + [x];
      JoinSnoc(parts[1..], x, d);
    }
  }

  /**
   * Splitting what was joined gives the fields back, provided no field holds
   * the delimiter and the last field is not empty (an empty last field leaves
   * only a trailing delimiter, which splitting does not turn into a field).
   */
  lemma {:induction false} SplitJoin(parts: seq<string>, d: char)
    requires forall i :: 0 <= i < |parts| ==> d !in parts[i]
    requires parts == [] || parts[|parts| - 1] != ""
    ensures Split(Join(parts, d), d) == parts
    decreases |parts|
  {
    if |parts| == 1 {
      var s := parts[0];
      assert FindChar(s, d, 0).None?;
    } else if |parts| > 1 {
      var s := Join(parts, d);
      var h := parts[0];
      assert s == h + [d] + Join(parts[1..], d);
      assert forall j :: 0 <= j < |h| ==> s[j] == h[j];
      assert s[|h|] == d;
      assert FindChar(s, d, 0) == Some(|h|);
      assert s[..|h|] == h;
      assert s[|h| + 1..] == Join(parts[1..], d);
      SplitJoin(parts[1..], d);
    }
  }
}
