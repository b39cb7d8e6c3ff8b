/**
 * The Python string primitives the store relies on, restricted to ASCII:
 * the regular-expression classes `\w` and `\s`, `str.lower()`,
 * `str.strip()` and the code-point order that `<` uses on strings.
 */
module Text {

  /** `\w`: letters, digits and the underscore. */
  predicate IsWordChar(c: char) {
    ('a' <= c <= 'z') || ('A' <= c <= 'Z') || ('0' <= c <= '9') || c == '_'
  }

  /** `\s` and `str.isspace()`: tab to carriage return, the four separators 0x1C-0x1F, space. */
  predicate IsSpace(c: char) {
    ('\t' <= c <= '\r') || ('\U{1C}' <= c <= '\U{1F}') || c == ' '
  }

  lemma WordCharIsNotSpace(c: char)
    ensures IsWordChar(c) ==> !IsSpace(c)
  {
  }

  /** `str.lower()` on one character. */
  function LowerChar(c: char): (r: char)
    ensures 'A' <= c <= 'Z' ==> 'a' <= r <= 'z' && r as int - c as int == 32
    ensures !('A' <= c <= 'Z') ==> r == c
    ensures IsWordChar(r) <==> IsWordChar(c)
  {
    if 'A' <= c <= 'Z' then (c as int + 32) as char else c
  }

  /** `str.lower()` */
  function Lower(s: string): (r: string)
    ensures |r| == |s|
    ensures forall i :: 0 <= i < |s| ==> r[i] == LowerChar(s[i])
  {
    if s == [] then [] else [LowerChar(s[0])] + Lower(s[1..])
  }

  /** Lowering twice is lowering once. */
  lemma LowerIdempotent(s: string)
    ensures Lower(Lower(s)) == Lower(s)
  {
  }

  predicate AllSpace(s: string) {
    forall i :: 0 <= i < |s| ==> IsSpace(s[i])
  }

  /** Every character before position `n` is whitespace. */
  predicate SpaceBefore(s: string, n: int) {
    forall i :: 0 <= i < n && i < |s| ==> IsSpace(s[i])
  }

  /** Every character from position `n` on is whitespace. */
  predicate SpaceFrom(s: string, n: int) {
    forall i :: 0 <= n <= i < |s| ==> IsSpace(s[i])
  }

  /** `str.lstrip()` */
  function StripStart(s: string): (r: string)
    ensures |r| <= |s| && r == s[|s| - |r|..]
    ensures SpaceBefore(s, |s| - |r|)
    ensures r != [] ==> !IsSpace(r[0])
  {
    if s != [] && IsSpace(s[0]) then
      var r := StripStart(s[1..]);
      assert forall i :: 1 <= i < |s| - |r| ==> s[i] == s[1..][i - 1];
      r
    else
      s
  }

  /** `str.rstrip()` */
  function StripEnd(s: string): (r: string)
    ensures |r| <= |s| && r == s[..|r|]
    ensures SpaceFrom(s, |r|)
    ensures r != [] ==> !IsSpace(r[|r| - 1])
  {
    if s != [] && IsSpace(s[|s| - 1]) then
      var r := StripEnd(s[..|s| - 1]);
      assert forall i :: |r| <= i < |s| - 1 ==> s[i] == s[..|s| - 1][i];
      r
    else
      s
  }

  /** `r` is the slice of `s` that starts at position `i`. */
  predicate SliceAt(r: string, s: string, i: int) {
    0 <= i && i + |r| <= |s| && r == s[i..i + |r|]
  }

  /**
   * `str.strip()`: the slice left after dropping whitespace at both ends;
   * everything dropped is whitespace and the slice neither starts nor ends with it.
   */
  function Strip(s: string): (r: string)
    ensures exists i :: SliceAt(r, s, i) && SpaceBefore(s, i) && SpaceFrom(s, i + |r|)
    ensures r != [] ==> !IsSpace(r[0]) && !IsSpace(r[|r| - 1])
  {
    var e := StripEnd(s);
    var r := StripStart(e);
    StripParts(s, e, r);
    r
  }

  /** `rstrip()` then `lstrip()` leaves a slice with only whitespace on either side. */
  lemma StripParts(s: string, e: string, r: string)
    requires e == StripEnd(s) && r == StripStart(e)
    ensures SliceAt(r, s, |e| - |r|) && SpaceBefore(s, |e| - |r|) && SpaceFrom(s, |e|)
    ensures r != [] ==> !IsSpace(r[0]) && !IsSpace(r[|r| - 1])
  {
    var i := |e| - |r|;
    assert r == e[i..];
    assert r == s[i..|e|];
    assert r != [] ==> r[|r| - 1] == e[|e| - 1];
    forall j | 0 <= j < i ensures IsSpace(s[j]) {
      assert s[j] == e[j];
    }
  }

  /** A string is blank when `strip()` leaves nothing. */
  predicate IsBlank(s: string) {
    Strip(s) == []
  }

  /** `rstrip()` leaves nothing exactly when every character is whitespace. */
  lemma StripEndEmpty(s: string)
    ensures StripEnd(s) == [] <==> AllSpace(s)
  {
    var r := StripEnd(s);
    assert r != [] ==> r[|r| - 1] == s[|r| - 1];
  }

  /** `lstrip()` likewise. */
  lemma StripStartEmpty(s: string)
    ensures StripStart(s) == [] <==> AllSpace(s)
  {
    var r := StripStart(s);
    assert r != [] ==> r[0] == s[|s| - |r|];
  }

  /** Blank exactly when every character is whitespace. */
  lemma BlankIffAllSpace(s: string)
    ensures IsBlank(s) <==> AllSpace(s)
  {
    var e := StripEnd(s);
    StripEndEmpty(s);
    StripStartEmpty(e);
  }

  /** Python's `a < b` on strings: code-point lexicographic order. */
  predicate StrLess(a: string, b: string)
  {
    b != [] && (a == [] || a[0] < b[0] || (a[0] == b[0] && StrLess(a[1..], b[1..])))
  }

  lemma {:induction false} StrLessIrreflexive(a: string)
    ensures !StrLess(a, a)
  {
    if a != [] {
      StrLessIrreflexive(a[1..]);
    }
  }

  lemma {:induction false} StrLessTransitive(a: string, b: string, c: string)
    requires StrLess(a, b) && StrLess(b, c)
    ensures StrLess(a, c)
  {
    if a != [] && a[0] == b[0] && b[0] == c[0] {
      StrLessTransitive(a[1..], b[1..], c[1..]);
    }
  }

  lemma {:induction false} StrLessTotal(a: string, b: string)
    ensures a == b || StrLess(a, b) || StrLess(b, a)
  {
    if a != [] && b != [] && a[0] == b[0] {
      StrLessTotal(a[1..], b[1..]);
      if a[1..] == b[1..] {
        assert a == [a[0]] + a[1..] && b == [b[0]] + b[1..];
      }
    }
  }
}
