/**
 * The two input-stream operations the engine reads commands and lines
 * with, over a `std::stringstream` on a fixed text: `stream >> word`
 * and `getline(stream, str, delim)`.  A cursor carries the read position
 * and the stream's eof and fail bits, so that a read after a failed or
 * exhausted read fails the way the C++ library makes it fail.
 */
module Streams {
  import opened Text

  /** Read position plus the `eofbit` and `failbit` of a string stream. */
  datatype Cursor = Cursor(pos: nat, eof: bool, fail: bool) {
    /** `stream.good()`: the next read may extract something. */
    predicate Good() {
      !eof && !fail
    }
  }

  /** A freshly constructed `stringstream`. */
  const Fresh := Cursor(0, false, false)

  /** The first position at or after `p` that holds no white space. */
  function SkipSpace(s: string, p: nat): (q: nat)
    requires p <= |s|
    ensures p <= q <= |s|
    ensures forall k :: p <= k < q ==> IsSpace(s[k])
    ensures q < |s| ==> !IsSpace(s[q])
    decreases |s| - p
  {
    if p == |s| || !IsSpace(s[p]) then p else SkipSpace(s, p + 1)
  }

  /** The first position at or after `p` that holds white space, or the end. */
  function WordEnd(s: string, p: nat): (q: nat)
    requires p <= |s|
    ensures p <= q <= |s|
    ensures forall k :: p <= k < q ==> !IsSpace(s[k])
    ensures q < |s| ==> IsSpace(s[q])
    decreases |s| - p
  {
    if p == |s| || IsSpace(s[p]) then p else WordEnd(s, p + 1)
  }

  /** A non-empty run of non-space characters: what `>>` extracts into a string. */
  predicate IsWord(w: string) {
    w != [] && forall k :: 0 <= k < |w| ==> !IsSpace(w[k])
  }

  /**
   * `stream >> word`: skip white space, then take characters up to the next
   * white space (not consumed) or the end (which sets eof).  Finding only
   * white space sets fail and eof; a stream that is not good fails at once.
   * On failure the word is the empty string, the value the engine's
   * variables hold before the read.
   */
  function ReadWord(s: string, c: Cursor): (r: (string, Cursor))
    requires c.pos <= |s|
    ensures r.1.pos <= |s|
    ensures r.1.fail <==> !c.Good() || SkipSpace(s, c.pos) == |s|
    ensures !r.1.fail ==> c.pos <= SkipSpace(s, c.pos) < r.1.pos
    ensures !r.1.fail ==> IsWord(r.0) && r.0 == s[SkipSpace(s, c.pos)..r.1.pos]
    ensures !r.1.fail ==> (r.1.eof <==> r.1.pos == |s|)
    ensures !r.1.fail && !r.1.eof ==> IsSpace(s[r.1.pos])
  {
    if !c.Good() then ("", c.(fail := true))
    else
      var p := SkipSpace(s, c.pos);
      if p == |s| then ("", Cursor(p, true, true))
      else
        var q := WordEnd(s, p);
        (s[p..q], Cursor(q, q == |s|, false))
  }

  /**
   * `getline(stream, str, d)`: take the characters up to the next `d` and
   * consume the `d`; without a further `d`, take the rest and set eof, and
   * when that rest is empty set fail too.  A stream that is not good fails
   * at once and leaves `str` as it was (`prev`).
   */
  function GetLine(s: string, c: Cursor, d: char, prev: string): (r: (string, Cursor))
    requires c.pos <= |s|
    ensures r.1.pos <= |s|
    ensures r.1.fail <==> !c.Good() || c.pos == |s|
  {
    if !c.Good() then (prev, c.(fail := true))
    else match FindChar(s, d, c.pos)
      case Some(i) => (s[c.pos..i], Cursor(i + 1, false, false))
      case None => (s[c.pos..], Cursor(|s|, true, c.pos == |s|))
  }

  /** The fields that the remaining `getline` calls on `c` will still deliver. */
  function Rest(s: string, c: Cursor, d: char): seq<string>
    requires c.pos <= |s|
  {
    if c.Good() then Split(s[c.pos..], d) else []
  }

  /**
   * One `getline` delivers the first of the remaining fields, or fails
   * exactly when none remains; it always moves forward when it succeeds.
   */
  lemma GetLineNext(s: string, c: Cursor, d: char, prev: string)
    requires c.pos <= |s|
    ensures GetLine(s, c, d, prev).1.pos <= |s|
    ensures GetLine(s, c, d, prev).1.fail <==> Rest(s, c, d) == []
    ensures !GetLine(s, c, d, prev).1.fail ==>
      GetLine(s, c, d, prev).1.pos > c.pos &&
      Rest(s, c, d) == [GetLine(s, c, d, prev).0] + Rest(s, GetLine(s, c, d, prev).1, d)
  {
    if c.Good() && c.pos < |s| {
      var t := s[c.pos..];
      FindCharInSuffix(s, d, c.pos);
      match FindChar(s, d, c.pos)
      case Some(i) =>
        assert t[..i - c.pos] == s[c.pos..i];
        assert t[i - c.pos + 1..] == s[i + 1..];
      case None =>
    }
  }

  /** One token as it is stored: unchanged, or with every space dropped. */
  function Erase(token: string, eraseSpaces: bool): string {
    if eraseSpaces then RemoveIf(token, IsBlank) else token
  }

  /** What the fields become before they are stored, token by token. */
  function Clean(fields: seq<string>, eraseSpaces: bool): (r: seq<string>)
    ensures |r| == |fields|
    ensures !eraseSpaces ==> r == fields
    decreases |fields|
  {
    if fields == [] then [] else [Erase(fields[0], eraseSpaces)] + Clean(fields[1..], eraseSpaces)
  }

  /** Erasing works field by field. */
  lemma {:induction false} CleanErases(fields: seq<string>)
    ensures forall i :: 0 <= i < |fields| ==> Clean(fields, true)[i] == RemoveIf(fields[i], IsBlank)
    decreases |fields|
  {
    if fields != [] {
      CleanErases(fields[1..]);
    }
  }

  lemma CleanCons(x: string, xs: seq<string>, eraseSpaces: bool)
    ensures Clean([x] + xs, eraseSpaces) == [Erase(x, eraseSpaces)] + Clean(xs, eraseSpaces)
  {
    assert ([x] + xs)[1..] == xs;
  }

  /**
   * One pass of the read loop: appended to what was kept so far, the token
   * it keeps and the fields still to come are what was still to come before.
   */
  lemma ReadFieldsStep(s: string, c: Cursor, d: char, eraseSpaces: bool, prev: string, kept: seq<string>)
    requires c.pos <= |s|
    ensures GetLine(s, c, d, prev).1.pos <= |s|
    ensures GetLine(s, c, d, prev).1.fail ==> kept + Clean(Rest(s, c, d), eraseSpaces) == kept
    ensures !GetLine(s, c, d, prev).1.fail ==>
      GetLine(s, c, d, prev).1.pos > c.pos &&
      kept + Clean(Rest(s, c, d), eraseSpaces) ==
        (kept + [Erase(GetLine(s, c, d, prev).0, eraseSpaces)]) + Clean(Rest(s, GetLine(s, c, d, prev).1, d), eraseSpaces)
  {
    GetLineNext(s, c, d, prev);
    var (t, next) := GetLine(s, c, d, prev);
    if next.fail {
      assert kept + [] == kept;
    } else {
      var later := Clean(Rest(s, next, d), eraseSpaces);
      CleanCons(t, Rest(s, next, d), eraseSpaces);
      assert kept + ([Erase(t, eraseSpaces)] + later) == (kept + [Erase(t, eraseSpaces)]) + later;
    }
  }

  /**
   * The `while (getline(stream, token, d)) { ...; fields.push_back(token); }`
   * loop, optionally erasing the spaces of each token before it is kept.
   */
  method ReadFields(s: string, start: Cursor, d: char, eraseSpaces: bool) returns (fields: seq<string>)
    requires start.pos <= |s|
    ensures fields == Clean(Rest(s, start, d), eraseSpaces)
  {
    fields := [];
    var cur := start;
    var token := "";
    while true
      invariant cur.pos <= |s|
      invariant fields + Clean(Rest(s, cur, d), eraseSpaces) == Clean(Rest(s, start, d), eraseSpaces)
      decreases |s| - cur.pos
    {
      ReadFieldsStep(s, cur, d, eraseSpaces, token, fields);
      var (t, next) := GetLine(s, cur, d, token);
      if next.fail {
        break;
      }
      token := Erase(t, eraseSpaces);
      fields := fields + [token];
      cur := next;
    }
  }
}
