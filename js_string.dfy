/**
 * The few pieces of JavaScript string semantics the application relies on:
 * `String.prototype.split` with a one-character separator, `startsWith`,
 * `trim`, `Array.prototype.find`, and the truthiness of an optional string.
 */
module JsString {
  import opened Optional

  /** `!v` is false: the value is present and is not the empty string. */
  predicate Truthy(v: Option<string>) {
    v.Some? && v.value != ""
  }

  /** The index `s.find(p)` stops at: the first element satisfying `p`, if any. */
  function FindIndex<T>(s: seq<T>, p: T -> bool): (k: Option<nat>)
    ensures k.None? ==> forall i :: 0 <= i < |s| ==> !p(s[i])
    ensures k.Some? ==> k.value < |s| && p(s[k.value])
    ensures k.Some? ==> forall j :: 0 <= j < k.value ==> !p(s[j])
  {
    if s == [] then None
    else if p(s[0]) then Some(0)
    else
      var found := FindIndex(s[1..], p);
      assert forall i :: 1 <= i < |s| ==> s[i] == s[1..][i - 1];
      match found
      case None => None
      case Some(k) => Some(k + 1)
  }

  /** Search past a first element that fails `p` goes on in the rest, one index further. */
  lemma FindIndexSkips<T>(first: T, rest: seq<T>, p: T -> bool)
    requires !p(first)
    ensures FindIndex([first] + rest, p)
            == match FindIndex(rest, p) case None => None case Some(k) => Some(k + 1)
  {
    var s := [first] + rest;
    assert s[0] == first && s[1..] == rest;
  }

  /** `pieces.find(p)?.split(sep)[1]`, for a `p` that only accepts strings holding `sep`. */
  function FieldOfFound(pieces: seq<string>, p: string -> bool, sep: char): (field: Option<string>)
    requires forall piece :: p(piece) ==> sep in piece
    ensures field.None? <==> FindIndex(pieces, p).None?
    ensures field.Some? ==> sep !in field.value
    ensures field.Some? ==>
              var found := pieces[FindIndex(pieces, p).value];
              |Split(found, sep)| >= 2 && field.value == Split(found, sep)[1]
  {
    match FindIndex(pieces, p)
    case None => None
    case Some(k) =>
      SplitAtSeparator(pieces[k], sep);
      Some(Split(pieces[k], sep)[1])
  }

  /** A first piece that `p` rejects does not change the field found. */
  lemma FieldOfFoundSkips(first: string, rest: seq<string>, p: string -> bool, sep: char)
    requires forall piece :: p(piece) ==> sep in piece
    requires !p(first)
    ensures FieldOfFound([first] + rest, p, sep) == FieldOfFound(rest, p, sep)
  {
    FindIndexSkips(first, rest, p);
    match FindIndex(rest, p)
    case None =>
    case Some(k) =>
      assert ([first] + rest)[k + 1] == rest[k];
  }

  /** A first piece that `p` accepts gives the field after its first `sep`. */
  lemma FieldOfFoundFirst(first: string, rest: seq<string>, p: string -> bool, sep: char)
    requires forall piece :: p(piece) ==> sep in piece
    requires p(first)
    ensures FieldOfFound([first] + rest, p, sep) == Some(Split(first, sep)[1])
  {
    assert ([first] + rest)[0] == first;
  }

  /** Joining two or more pieces puts the separator into the result. */
  lemma JoinHoldsSeparator(pieces: seq<string>, sep: char)
    requires |pieces| >= 2
    ensures sep in Join(pieces, sep)
  {
    assert Join(pieces, sep)[|pieces[0]|] == sep;
  }

  predicate StartsWith(s: string, prefix: string) {
    |prefix| <= |s| && s[..|prefix|] == prefix
  }

  /** Glues pieces back together with the separator between consecutive pieces. */
  function Join(pieces: seq<string>, sep: char): string
    requires |pieces| >= 1
  {
    if |pieces| == 1 then pieces[0] else pieces[0] + [sep] + Join(pieces[1..], sep)
  }

  /**
   * `s.split(sep)`: the maximal separator-free pieces, in order. An empty
   * string gives one empty piece and two adjacent separators an empty piece
   * between them. Join is its inverse.
   */
  function Split(s: string, sep: char): (pieces: seq<string>)
    ensures |pieces| >= 1
    ensures forall i :: 0 <= i < |pieces| ==> sep !in pieces[i]
    ensures Join(pieces, sep) == s
  {
    if |s| == 0 then [""]
    else
      var rest := Split(s[1..], sep);
      if s[0] == sep then
        assert ([""] + rest)[1..] == rest;
        [""] + rest
      else
        var pieces := [[s[0]] + rest[0]] + rest[1..];
        assert |rest| > 1 ==> pieces[1..] == rest[1..];
        assert s == [s[0]] + s[1..];
        pieces
  }

  /** A string without the separator is a single piece. */
  lemma {:induction false} SplitWithoutSeparator(s: string, sep: char)
    requires sep !in s
    ensures Split(s, sep) == [s]
  {
    if s != [] {
      SplitWithoutSeparator(s[1..], sep);
      assert [s[0]] + s[1..] == s;
    }
  }

  /** A string holding the separator splits into at least two pieces. */
  lemma SplitAtSeparator(s: string, sep: char)
    requires sep in s
    ensures |Split(s, sep)| >= 2
  {
  }

  /** Splitting at the first separator: the text before it is the first piece. */
  lemma {:induction false} SplitAtFirst(a: string, sep: char, b: string)
    requires sep !in a
    ensures Split(a + [sep] + b, sep) == [a] + Split(b, sep)
  {
    if a == [] {
      assert a + [sep] + b == [sep] + b;
      assert ([sep] + b)[1..] == b;
    } else {
      var s := a + [sep] + b;
      assert s[0] == a[0] && s[1..] == a[1..] + [sep] + b;
      SplitAtFirst(a[1..], sep, b);
      assert [a[0]] + a[1..] == a;
    }
  }

  /** ECMAScript WhiteSpace and LineTerminator code points, the set `trim` removes. */
  predicate IsWhiteSpace(c: char) {
    c == '\t' || c == '\n' || c == '\U{B}' || c == '\U{C}' || c == '\r' || c == ' '
    || c == '\U{A0}' || c == '\U{1680}' || ('\U{2000}' <= c <= '\U{200A}')
    || c == '\U{2028}' || c == '\U{2029}' || c == '\U{202F}' || c == '\U{205F}'
    || c == '\U{3000}' || c == '\U{FEFF}'
  }

  /** Drops the leading white space. */
  function TrimStart(s: string): (r: string)
    ensures |r| <= |s| && r == s[|s| - |r|..]
  {
    if s != [] && IsWhiteSpace(s[0]) then TrimStart(s[1..]) else s
  }

  /** What TrimStart drops is white space, and it stops at the first other character. */
  lemma {:induction false} TrimStartDropsWhiteSpace(s: string)
    ensures forall i :: 0 <= i < |s| - |TrimStart(s)| ==> IsWhiteSpace(s[i])
    ensures TrimStart(s) != [] ==> !IsWhiteSpace(TrimStart(s)[0])
  {
    if s != [] && IsWhiteSpace(s[0]) {
      TrimStartDropsWhiteSpace(s[1..]);
      assert forall i :: 1 <= i < |s| ==> s[i] == s[1..][i - 1];
    }
  }

  /** Drops the trailing white space. */
  function TrimEnd(s: string): (r: string)
    ensures |r| <= |s| && r == s[..|r|]
  {
    if s != [] && IsWhiteSpace(s[|s| - 1]) then TrimEnd(s[..|s| - 1]) else s
  }

  /** What TrimEnd drops is white space, and it stops at the last other character. */
  lemma {:induction false} TrimEndDropsWhiteSpace(s: string)
    ensures forall i :: |TrimEnd(s)| <= i < |s| ==> IsWhiteSpace(s[i])
    ensures TrimEnd(s) != [] ==> !IsWhiteSpace(TrimEnd(s)[|TrimEnd(s)| - 1])
  {
    if s != [] && IsWhiteSpace(s[|s| - 1]) {
      TrimEndDropsWhiteSpace(s[..|s| - 1]);
    }
  }

  /** `s.trim()`. */
  function Trim(s: string): string {
    TrimEnd(TrimStart(s))
  }

  /** `!s.trim()` holds exactly for strings made of white space only. */
  lemma BlankIffAllWhiteSpace(s: string)
    ensures Trim(s) == "" <==> forall i :: 0 <= i < |s| ==> IsWhiteSpace(s[i])
  {
    var t := TrimStart(s);
    TrimStartDropsWhiteSpace(s);
    TrimEndDropsWhiteSpace(t);
    if Trim(s) != "" {
      var r := Trim(s);
      assert t[0] == r[0];
      assert s[|s| - |t|] == t[0];
    }
  }
}
