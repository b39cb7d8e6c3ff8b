/**
 * The keyword search of `TaskService.find` (src/service.py): the query is
 * normalised into keywords, and a text mentions a keyword when it occurs
 * there, ignoring case, between two word boundaries (`\bkeyword\b`).
 */
module Search {
  import opened Text

  predicate HasWordChar(s: string) {
    exists i :: 0 <= i < |s| && IsWordChar(s[i])
  }

  /** Characters the pattern `[^\w\s]` leaves in place. */
  predicate Kept(c: char) {
    IsWordChar(c) || IsSpace(c)
  }

  /** `re.sub(r'[^\w\s]', '', s)`: every character that is neither a word character nor whitespace is dropped. */
  function RemovePunct(s: string): (r: string)
    ensures |r| <= |s|
    ensures forall i :: 0 <= i < |r| ==> Kept(r[i])
  {
    if s == [] then []
    else (if Kept(s[0]) then [s[0]] else []) + RemovePunct(s[1..])
  }

  /** Only punctuation goes: a string without any is left as it is, and word characters all stay. */
  lemma {:induction false} RemovePunctKeeps(s: string)
    ensures (forall i :: 0 <= i < |s| ==> Kept(s[i])) ==> RemovePunct(s) == s
    ensures HasWordChar(RemovePunct(s)) <==> HasWordChar(s)
  {
    if s != [] {
      RemovePunctKeeps(s[1..]);
      DropFirst(s);
      var t := RemovePunct(s[1..]);
      if Kept(s[0]) {
        var r := [s[0]] + t;
        assert RemovePunct(s) == r;
        assert r[0] == s[0] && r[1..] == t;
        DropFirst(r);
        if forall i :: 0 <= i < |s| ==> Kept(s[i]) {
          assert forall i :: 0 <= i < |s[1..]| ==> s[1..][i] == s[i + 1];
          assert s == [s[0]] + s[1..];
        }
      } else {
        assert RemovePunct(s) == t;
        assert !IsWordChar(s[0]);
      }
    }
  }

  /** One character on its own: kept when it is a word character or whitespace, deleted otherwise. */
  lemma RemovePunctChar(c: char)
    ensures RemovePunct([c]) == if Kept(c) then [c] else []
  {
    assert [c][1..] == [];
  }

  /** Two spaces in a row. */
  predicate HasDoubleSpace(s: string) {
    exists i :: 0 <= i < |s| - 1 && s[i] == ' ' && s[i + 1] == ' '
  }

  /** The characters of `s` other than the space, in order. */
  function Unspaced(s: string): (r: string)
    ensures ' ' !in r
  {
    if s == [] then []
    else (if s[0] == ' ' then [] else [s[0]]) + Unspaced(s[1..])
  }

  /**
   * `re.sub(r' {2,}', ' ', s)`: each run of two or more spaces becomes one
   * space. Only the space character is touched; a tab stays where it is.
   */
  function CollapseSpaces(s: string): (r: string)
    ensures |r| <= |s|
    ensures s != [] ==> r != [] && r[0] == s[0] && r[|r| - 1] == s[|s| - 1]
  {
    if |s| < 2 then s
    else if s[0] == ' ' && s[1] == ' ' then CollapseSpaces(s[1..])
    else [s[0]] + CollapseSpaces(s[1..])
  }

  /** Collapsing removes spaces and nothing else, and leaves no two spaces in a row. */
  lemma CollapseSpacesSpec(s: string)
    ensures Unspaced(CollapseSpaces(s)) == Unspaced(s)
    ensures !HasDoubleSpace(CollapseSpaces(s))
  {
    CollapseSpacesUnspaced(s);
    CollapseSpacesNoDouble(s);
  }

  lemma {:induction false} CollapseSpacesUnspaced(s: string)
    ensures Unspaced(CollapseSpaces(s)) == Unspaced(s)
  {
    if |s| >= 2 {
      CollapseSpacesUnspaced(s[1..]);
      var t := CollapseSpaces(s[1..]);
      if !(s[0] == ' ' && s[1] == ' ') {
        var r := [s[0]] + t;
        assert r[0] == s[0] && r[1..] == t;
        assert s[0] == ' ' ==> Unspaced(s) == Unspaced(s[1..]);
      }
    }
  }

  lemma {:induction false} CollapseSpacesNoDouble(s: string)
    ensures !HasDoubleSpace(CollapseSpaces(s))
  {
    if |s| >= 2 {
      CollapseSpacesNoDouble(s[1..]);
      var t := CollapseSpaces(s[1..]);
      if !(s[0] == ' ' && s[1] == ' ') {
        var r := [s[0]] + t;
        assert t[0] == s[1];
        forall i | 0 <= i < |r| - 1 ensures !(r[i] == ' ' && r[i + 1] == ' ') {
          if i > 0 {
            assert r[i] == t[i - 1] && r[i + 1] == t[i];
          }
        }
      }
    }
  }

  /** Two spaces in a row become one, wherever they stand. */
  lemma {:induction false} CollapseSpacesDouble(a: string, b: string)
    ensures CollapseSpaces(a + "  " + b) == CollapseSpaces(a + " " + b)
  {
    var s, t := a + "  " + b, a + " " + b;
    if a == [] {
      assert s[1..] == t;
    } else {
      assert s[0] == t[0] && s[1] == t[1];
      assert s[1..] == a[1..] + "  " + b && t[1..] == a[1..] + " " + b;
      CollapseSpacesDouble(a[1..], b);
    }
  }

  /** A string without a double space is left as it is, so collapsing twice is collapsing once. */
  lemma {:induction false} CollapseSpacesIdentity(s: string)
    requires !HasDoubleSpace(s)
    ensures CollapseSpaces(s) == s
  {
    if |s| >= 2 {
      assert !(s[0] == ' ' && s[1] == ' ');
      forall i | 0 <= i < |s[1..]| - 1 ensures !(s[1..][i] == ' ' && s[1..][i + 1] == ' ') {
        assert s[1..][i] == s[i + 1] && s[1..][i + 1] == s[i + 2];
      }
      CollapseSpacesIdentity(s[1..]);
    }
  }

  lemma CollapseSpacesIdempotent(s: string)
    ensures CollapseSpaces(CollapseSpaces(s)) == CollapseSpaces(s)
  {
    CollapseSpacesSpec(s);
    CollapseSpacesIdentity(CollapseSpaces(s));
  }

  /** The word characters of a string are among its non-space characters, and conversely. */
  lemma {:induction false} UnspacedWordChars(s: string)
    ensures HasWordChar(Unspaced(s)) <==> HasWordChar(s)
  {
    if s != [] {
      UnspacedWordChars(s[1..]);
      var r, t := Unspaced(s), Unspaced(s[1..]);
      var h := if s[0] == ' ' then [] else [s[0]];
      assert r == h + t;
      if HasWordChar(s) {
        var i :| 0 <= i < |s| && IsWordChar(s[i]);
        if i == 0 {
          assert r[0] == s[0];
        } else {
          assert s[1..][i - 1] == s[i];
          var j :| 0 <= j < |t| && IsWordChar(t[j]);
          assert r[|h| + j] == t[j];
        }
      }
      if HasWordChar(r) {
        var i :| 0 <= i < |r| && IsWordChar(r[i]);
        if i < |h| {
          assert r[i] == s[0];
        } else {
          assert t[i - |h|] == r[i];
          var j :| 0 <= j < |s[1..]| && IsWordChar(s[1..][j]);
          assert s[j + 1] == s[1..][j];
        }
      }
    }
  }

  /** A string has a word character in its first character or in the rest; a double space in the rest is one in it. */
  lemma DropFirst(s: string)
    requires s != []
    ensures HasWordChar(s) <==> IsWordChar(s[0]) || HasWordChar(s[1..])
    ensures HasDoubleSpace(s[1..]) ==> HasDoubleSpace(s)
  {
    if HasWordChar(s) && !IsWordChar(s[0]) {
      var i :| 0 <= i < |s| && IsWordChar(s[i]);
      assert s[1..][i - 1] == s[i];
    }
    if HasWordChar(s[1..]) {
      var i :| 0 <= i < |s[1..]| && IsWordChar(s[1..][i]);
      assert s[i + 1] == s[1..][i];
    }
    if HasDoubleSpace(s[1..]) {
      var i :| 0 <= i < |s[1..]| - 1 && s[1..][i] == ' ' && s[1..][i + 1] == ' ';
      assert s[i + 1] == ' ' && s[i + 2] == ' ';
    }
  }

  /** The same at the other end. */
  lemma DropLast(s: string)
    requires s != []
    ensures HasWordChar(s) <==> IsWordChar(s[|s| - 1]) || HasWordChar(s[..|s| - 1])
    ensures HasDoubleSpace(s[..|s| - 1]) ==> HasDoubleSpace(s)
  {
    var init := s[..|s| - 1];
    if HasWordChar(s) && !IsWordChar(s[|s| - 1]) {
      var i :| 0 <= i < |s| && IsWordChar(s[i]);
      assert init[i] == s[i];
    }
    if HasWordChar(init) {
      var i :| 0 <= i < |init| && IsWordChar(init[i]);
      assert s[i] == init[i];
    }
    if HasDoubleSpace(init) {
      var i :| 0 <= i < |init| - 1 && init[i] == ' ' && init[i + 1] == ' ';
      assert s[i] == ' ' && s[i + 1] == ' ';
    }
  }

  /** `lstrip()` drops only whitespace: the word characters stay and no double space appears. */
  lemma {:induction false} StripStartKeeps(s: string)
    ensures HasWordChar(StripStart(s)) <==> HasWordChar(s)
    ensures HasDoubleSpace(StripStart(s)) ==> HasDoubleSpace(s)
  {
    if s != [] && IsSpace(s[0]) {
      StripStartKeeps(s[1..]);
      DropFirst(s);
      WordCharIsNotSpace(s[0]);
    }
  }

  /** `rstrip()` likewise. */
  lemma {:induction false} StripEndKeeps(s: string)
    ensures HasWordChar(StripEnd(s)) <==> HasWordChar(s)
    ensures HasDoubleSpace(StripEnd(s)) ==> HasDoubleSpace(s)
  {
    if s != [] && IsSpace(s[|s| - 1]) {
      StripEndKeeps(s[..|s| - 1]);
      DropLast(s);
      WordCharIsNotSpace(s[|s| - 1]);
    }
  }

  /** Stripping drops only whitespace, so the word characters all stay. */
  lemma StripKeepsWordChars(s: string)
    ensures HasWordChar(Strip(s)) <==> HasWordChar(s)
    ensures HasDoubleSpace(Strip(s)) ==> HasDoubleSpace(s)
  {
    StripEndKeeps(s);
    StripStartKeeps(StripEnd(s));
  }

  /** The position of the first space, or the length when there is none. */
  function IndexOfSpace(s: string): (i: nat)
    ensures i <= |s|
    ensures i < |s| ==> s[i] == ' '
    ensures forall j :: 0 <= j < i ==> s[j] != ' '
  {
    if s == [] || s[0] == ' ' then 0 else 1 + IndexOfSpace(s[1..])
  }

  /** `s.split(" ")`: the pieces between single spaces, empty pieces included. */
  function Split(s: string): (r: seq<string>)
    ensures |r| >= 1
    ensures forall k :: 0 <= k < |r| ==> ' ' !in r[k]
    decreases |s|
  {
    var i := IndexOfSpace(s);
    if i == |s| then [s] else [s[..i]] + Split(s[i + 1..])
  }

  /** `" ".join(pieces)` */
  function Join(pieces: seq<string>): (s: string)
    requires |pieces| >= 1
  {
    if |pieces| == 1 then pieces[0] else pieces[0] + " " + Join(pieces[1..])
  }

  /** Splitting and joining on the space are inverse to each other. */
  lemma {:induction false} JoinSplit(s: string)
    ensures Join(Split(s)) == s
    decreases |s|
  {
    var i := IndexOfSpace(s);
    if i < |s| {
      JoinSplit(s[i + 1..]);
      assert Split(s)[1..] == Split(s[i + 1..]);
      assert s == s[..i] + " " + s[i + 1..];
    }
  }

  lemma {:induction false} SplitJoin(pieces: seq<string>)
    requires |pieces| >= 1
    requires forall k :: 0 <= k < |pieces| ==> ' ' !in pieces[k]
    ensures Split(Join(pieces)) == pieces
  {
    if |pieces| > 1 {
      var s := Join(pieces);
      var rest := Join(pieces[1..]);
      assert s == pieces[0] + " " + rest;
      assert s[|pieces[0]|] == ' ';
      assert forall j :: 0 <= j < |pieces[0]| ==> s[j] == pieces[0][j];
      assert IndexOfSpace(s) == |pieces[0]|;
      assert s[..|pieces[0]|] == pieces[0];
      assert s[|pieces[0]| + 1..] == rest;
      SplitJoin(pieces[1..]);
    }
  }

  /** With no space at either end and no two in a row, no piece is empty. */
  lemma {:induction false} SplitPiecesNonEmpty(s: string)
    requires s != [] && s[0] != ' ' && s[|s| - 1] != ' ' && !HasDoubleSpace(s)
    ensures forall k :: 0 <= k < |Split(s)| ==> Split(s)[k] != []
    decreases |s|
  {
    var i := IndexOfSpace(s);
    if i < |s| {
      var t := s[i + 1..];
      assert i + 1 < |s|;
      assert t[0] == s[i + 1] && t[|t| - 1] == s[|s| - 1];
      assert s[i + 1] != ' ';
      forall j | 0 <= j < |t| - 1 ensures !(t[j] == ' ' && t[j + 1] == ' ') {
        assert t[j] == s[i + 1 + j] && t[j + 1] == s[i + 2 + j];
      }
      SplitPiecesNonEmpty(t);
      assert s[..i] != [] by { assert s[0] != ' '; }
    }
  }

  /** The keywords `find` searches for: punctuation removed, runs of spaces collapsed, ends stripped, split on spaces. */
  function Keywords(query: string): (kws: seq<string>)
    ensures |kws| >= 1
    ensures forall k :: 0 <= k < |kws| ==> ' ' !in kws[k]
  {
    Split(Normalised(query))
  }

  /** The query after removing punctuation, collapsing spaces and stripping. */
  function Normalised(query: string): (n: string) {
    Strip(CollapseSpaces(RemovePunct(query)))
  }

  /** Collapsing spaces keeps the word characters and leaves no double space. */
  lemma CollapseStep(p: string)
    requires forall i :: 0 <= i < |p| ==> Kept(p[i])
    ensures var c := CollapseSpaces(p);
      (HasWordChar(c) <==> HasWordChar(p)) && !HasDoubleSpace(c)
      && forall i :: 0 <= i < |c| ==> Kept(c[i])
  {
    var c := CollapseSpaces(p);
    CollapseSpacesSpec(p);
    UnspacedWordChars(c);
    UnspacedWordChars(p);
    CollapseSpacesKept(p);
  }

  /** Stripping keeps the word characters, adds no double space, and leaves nothing or a word character. */
  lemma StripStep(c: string)
    requires forall i :: 0 <= i < |c| ==> Kept(c[i])
    requires !HasDoubleSpace(c)
    ensures var n := Strip(c);
      (HasWordChar(n) <==> HasWordChar(c)) && !HasDoubleSpace(n) && (n != [] ==> HasWordChar(n))
  {
    StripKeepsWordChars(c);
    StrippedKeptHasWordChar(c);
  }

  /**
   * The normalised query has a word character exactly when the query does,
   * is empty when it has none, and has no double space.
   */
  lemma NormalisedWordChars(query: string)
    ensures HasWordChar(Normalised(query)) <==> HasWordChar(query)
    ensures Normalised(query) != [] ==> HasWordChar(Normalised(query))
    ensures !HasDoubleSpace(Normalised(query))
  {
    var p := RemovePunct(query);
    var c := CollapseSpaces(p);
    assert Normalised(query) == Strip(c);
    RemovePunctKeeps(query);
    CollapseStep(p);
    StripStep(c);
  }

  /** The normalised query neither starts nor ends with a space. */
  lemma NormalisedEnds(query: string)
    ensures var n := Normalised(query); n != [] ==> n[0] != ' ' && n[|n| - 1] != ' '
  {
    var n := Strip(CollapseSpaces(RemovePunct(query)));
    assert n != [] ==> IsSpace(' ') && !IsSpace(n[0]) && !IsSpace(n[|n| - 1]);
  }

  /** A query without a word character (empty, blank or punctuation only) becomes the single empty keyword. */
  lemma KeywordsOfBlankQuery(query: string)
    ensures Keywords(query) == [""] <==> !HasWordChar(query)
  {
    var n := Normalised(query);
    NormalisedWordChars(query);
    JoinSplit(n);
    if n == [] {
      assert IndexOfSpace(n) == 0;
    }
  }

  /** Any other query gives only non-empty keywords. */
  lemma KeywordsOfWordQuery(query: string)
    requires HasWordChar(query)
    ensures forall k :: 0 <= k < |Keywords(query)| ==> Keywords(query)[k] != []
  {
    WordQueryShape(query);
    SplitPiecesNonEmpty(Normalised(query));
  }

  /** The normalised form of a query with a word character is non-empty, has no space at either end and no two in a row. */
  lemma WordQueryShape(query: string)
    requires HasWordChar(query)
    ensures var n := Normalised(query);
      n != [] && n[0] != ' ' && n[|n| - 1] != ' ' && !HasDoubleSpace(n)
  {
    NormalisedWordChars(query);
    NormalisedEnds(query);
  }

  /**
   * A query without a word character (empty, blank or punctuation only)
   * becomes the single empty keyword; any other query gives only non-empty keywords.
   */
  lemma KeywordsOfQuery(query: string)
    ensures Keywords(query) == [""] <==> !HasWordChar(query)
    ensures HasWordChar(query) ==> forall k :: 0 <= k < |Keywords(query)| ==> Keywords(query)[k] != []
  {
    KeywordsOfBlankQuery(query);
    if HasWordChar(query) {
      KeywordsOfWordQuery(query);
    }
  }

  lemma {:induction false} CollapseSpacesKept(s: string)
    requires forall i :: 0 <= i < |s| ==> Kept(s[i])
    ensures forall i :: 0 <= i < |CollapseSpaces(s)| ==> Kept(CollapseSpaces(s)[i])
  {
    if |s| >= 2 {
      assert forall i :: 0 <= i < |s[1..]| ==> s[1..][i] == s[i + 1];
      CollapseSpacesKept(s[1..]);
    }
  }

  /** Once stripped, a string of word characters and whitespace either is empty or holds a word character. */
  lemma StrippedKeptHasWordChar(s: string)
    requires forall i :: 0 <= i < |s| ==> Kept(s[i])
    ensures Strip(s) != [] ==> HasWordChar(Strip(s))
  {
    var e := StripEnd(s);
    var r := StripStart(e);
    assert Strip(s) == r;
    if r != [] {
      assert r[0] == e[|e| - |r|] == s[|e| - |r|];
    }
  }

  // ---------------------------------------------------------------- matching

  /** A word character at position `i` of `s`; positions outside `s` hold none. */
  predicate WordAt(s: string, i: int) {
    0 <= i < |s| && IsWordChar(s[i])
  }

  /** `\b`: a word character on exactly one side of position `i`. */
  predicate Boundary(s: string, i: int) {
    WordAt(s, i - 1) != WordAt(s, i)
  }

  /** `\bkw\b` matches `text` at `p` with `re.IGNORECASE`. */
  predicate MatchesAt(text: string, kw: string, p: int) {
    0 <= p <= |text| - |kw|
    && (forall i :: 0 <= i < |kw| ==> LowerChar(text[p + i]) == LowerChar(kw[i]))
    && Boundary(text, p) && Boundary(text, p + |kw|)
  }

  /** Some keyword matches somewhere in the text. */
  predicate Occurs(text: string, kws: seq<string>) {
    exists k, p :: 0 <= k < |kws| && 0 <= p <= |text| && MatchesAt(text, kws[k], p)
  }

  /** One of the alternatives of the pattern matches at `p`. */
  predicate MatchesAny(text: string, kws: seq<string>, p: int)
    decreases |kws|
  {
    kws != [] && (MatchesAt(text, kws[0], p) || MatchesAny(text, kws[1..], p))
  }

  /** The scan of `re.findall` from position `p` on finds a match. */
  predicate MentionsFrom(text: string, kws: seq<string>, p: nat)
    decreases |text| - p
  {
    p <= |text| && (MatchesAny(text, kws, p) || MentionsFrom(text, kws, p + 1))
  }

  /** `re.findall('|'.join(rf'\b{kw}\b' ...), text, re.IGNORECASE)` is not empty. */
  predicate Mentions(text: string, kws: seq<string>) {
    MentionsFrom(text, kws, 0)
  }

  lemma {:induction false} MatchesAnyIff(text: string, kws: seq<string>, p: int)
    ensures MatchesAny(text, kws, p) <==> exists k :: 0 <= k < |kws| && MatchesAt(text, kws[k], p)
    decreases |kws|
  {
    if kws != [] {
      MatchesAnyIff(text, kws[1..], p);
      assert forall k :: 1 <= k < |kws| ==> kws[k] == kws[1..][k - 1];
      if exists k :: 0 <= k < |kws| && MatchesAt(text, kws[k], p) {
        var k :| 0 <= k < |kws| && MatchesAt(text, kws[k], p);
        if k > 0 {
          assert MatchesAt(text, kws[1..][k - 1], p);
        }
      }
    }
  }

  lemma {:induction false} MentionsFromIff(text: string, kws: seq<string>, p: nat)
    requires p <= |text|
    ensures MentionsFrom(text, kws, p)
      <==> exists k, q :: 0 <= k < |kws| && p <= q <= |text| && MatchesAt(text, kws[k], q)
    decreases |text| - p
  {
    MatchesAnyIff(text, kws, p);
    if p < |text| {
      MentionsFromIff(text, kws, p + 1);
    }
    if exists k, q :: 0 <= k < |kws| && p <= q <= |text| && MatchesAt(text, kws[k], q) {
      var k, q :| 0 <= k < |kws| && p <= q <= |text| && MatchesAt(text, kws[k], q);
      if q == p {
        assert MatchesAny(text, kws, p);
      }
    }
  }

  /** The scan finds a match exactly when some keyword matches somewhere. */
  lemma MentionsIffOccurs(text: string, kws: seq<string>)
    ensures Mentions(text, kws) <==> Occurs(text, kws)
  {
    MentionsFromIff(text, kws, 0);
  }

  /** The first word character, when there is one. */
  lemma {:induction false} FirstWordChar(s: string) returns (i: int)
    requires HasWordChar(s)
    ensures 0 <= i < |s| && IsWordChar(s[i]) && !WordAt(s, i - 1)
  {
    if IsWordChar(s[0]) {
      i := 0;
    } else {
      var k :| 0 <= k < |s| && IsWordChar(s[k]);
      assert s[1..][k - 1] == s[k];
      var j := FirstWordChar(s[1..]);
      i := j + 1;
      assert s[i] == s[1..][j];
      assert j > 0 ==> s[i - 1] == s[1..][j - 1];
    }
  }

  /** The empty keyword (`\b\b`) matches exactly the texts holding a word character. */
  lemma EmptyKeywordMatches(text: string)
    ensures Mentions(text, [""]) <==> HasWordChar(text)
  {
    MentionsIffOccurs(text, [""]);
    if HasWordChar(text) {
      var i := FirstWordChar(text);
      assert MatchesAt(text, [""][0], i);
    }
    if Occurs(text, [""]) {
      var k, p :| 0 <= k < 1 && 0 <= p <= |text| && MatchesAt(text, [""][k], p);
      if WordAt(text, p) {
        assert IsWordChar(text[p]);
      } else {
        assert IsWordChar(text[p - 1]);
      }
    }
  }

  /** Lowering the text changes neither its word characters nor how its characters compare ignoring case. */
  lemma MatchesAtLowered(text: string, kw: string, p: int)
    ensures MatchesAt(Lower(text), kw, p) <==> MatchesAt(text, kw, p)
  {
    var lt := Lower(text);
    forall i ensures WordAt(lt, i) <==> WordAt(text, i) {
    }
  }

  /** Matching ignores case on both sides. */
  lemma MentionsIgnoresCase(text: string, kws: seq<string>)
    ensures Mentions(Lower(text), kws) <==> Mentions(text, kws)
  {
    var lt := Lower(text);
    MentionsIffOccurs(lt, kws);
    MentionsIffOccurs(text, kws);
    forall k, p | 0 <= k < |kws| && 0 <= p <= |text|
      ensures MatchesAt(lt, kws[k], p) <==> MatchesAt(text, kws[k], p)
    {
      MatchesAtLowered(text, kws[k], p);
    }
  }

  /** Keywords that are equal ignoring case match the same texts. */
  lemma MentionsLoweredKeywords(text: string, kws: seq<string>)
    ensures Mentions(text, seq(|kws|, k requires 0 <= k < |kws| => Lower(kws[k]))) <==> Mentions(text, kws)
  {
    var lk := seq(|kws|, k requires 0 <= k < |kws| => Lower(kws[k]));
    MentionsIffOccurs(text, lk);
    MentionsIffOccurs(text, kws);
    forall k, p | 0 <= k < |kws| && 0 <= p <= |text|
      ensures MatchesAt(text, lk[k], p) <==> MatchesAt(text, kws[k], p)
    {
      MatchesLoweredKeyword(text, kws[k], p);
    }
  }

  /** A keyword and its lowered form match at the same positions. */
  lemma MatchesLoweredKeyword(text: string, kw: string, p: int)
    ensures MatchesAt(text, Lower(kw), p) <==> MatchesAt(text, kw, p)
  {
  }

  // ---------------------------------------------------------------- examples

  lemma {:induction false} RemovePunctAppend(a: string, b: string)
    ensures RemovePunct(a + b) == RemovePunct(a) + RemovePunct(b)
  {
    if a != [] {
      assert (a + b)[1..] == a[1..] + b;
      RemovePunctAppend(a[1..], b);
    } else {
      assert a + b == b;
    }
  }

  /** A string with no whitespace at either end is its own `strip()`. */
  lemma StripIdentity(s: string)
    requires s != [] && !IsSpace(s[0]) && !IsSpace(s[|s| - 1])
    ensures Strip(s) == s
  {
  }

  /** A query that is already normal: its keywords are its space-separated pieces. */
  lemma NormalQueryKeywords(query: string, pieces: seq<string>)
    requires |pieces| >= 1 && forall k :: 0 <= k < |pieces| ==> ' ' !in pieces[k]
    requires query == Join(pieces)
    requires forall i :: 0 <= i < |query| ==> Kept(query[i])
    requires !HasDoubleSpace(query)
    requires query != [] && !IsSpace(query[0]) && !IsSpace(query[|query| - 1])
    ensures Keywords(query) == pieces
  {
    RemovePunctKeeps(query);
    CollapseSpacesIdentity(query);
    StripIdentity(query);
    SplitJoin(pieces);
  }

  /** A tab is neither collapsed nor split on, so it stays inside a keyword. */
  lemma TabStaysInKeyword()
    ensures Keywords("get\tupdate") == ["get\tupdate"]
  {
    NormalQueryKeywords("get\tupdate", ["get\tupdate"]);
  }

  /** A position where the window of the text and the keyword differ ignoring case rules out a match there. */
  lemma MismatchAt(text: string, kw: string, p: int, j: int)
    requires 0 <= p <= |text| - |kw| && 0 <= j < |kw|
    requires LowerChar(text[p + j]) != LowerChar(kw[j])
    ensures !MatchesAt(text, kw, p)
  {
  }

  /** "task" is a whole word of "test task". */
  lemma WholeWordFound()
    ensures Occurs("test task", ["task"])
  {
    var text := "test task";
    assert MatchesAt(text, ["task"][0], 5);
  }

  /** A keyword that matches at no position does not occur. */
  lemma NoMatch(text: string, kw: string)
    requires forall p :: 0 <= p <= |text| ==> !MatchesAt(text, kw, p)
    ensures !Occurs(text, [kw])
  {
  }

  /** "tasks" is nowhere in "test task". */
  lemma LongerWordNotFound()
    ensures !Occurs("test task", ["tasks"])
  {
    var text, kw := "test task", "tasks";
    forall p | 0 <= p <= |text| ensures !MatchesAt(text, kw, p) {
      if p == 0 || p == 3 {
        MismatchAt(text, kw, p, 1);
      } else if p <= 4 {
        MismatchAt(text, kw, p, 0);
      }
    }
    NoMatch(text, kw);
  }

  /** "task" is not a whole word of "tasks": the match would end inside a word. */
  lemma PartOfWordNotFound()
    ensures !Occurs("tasks", ["task"])
  {
    var text, kw := "tasks", "task";
    forall p | 0 <= p <= |text| ensures !MatchesAt(text, kw, p) {
      if p == 0 {
        assert WordAt(text, 3) && WordAt(text, 4);
      } else if p == 1 {
        MismatchAt(text, kw, p, 0);
      }
    }
    NoMatch(text, kw);
  }
}
