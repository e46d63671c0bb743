/**
  The Python `str` operations the chunker is built from, on `seq<char>`:
  whitespace classification (`str.isspace`, the class `\s` of the `re`
  module), `strip`, `split()` with no separator, `' '.join`, single-character
  `replace`, and `re.sub(r'\s+', ' ', s)`.
 */
module Strings {

  /** `c.isspace()` in Python; the same characters are matched by `\s` on a `str`. */
  predicate IsSpace(c: char) {
    || c == ' '
    || ('\t' <= c <= '\r')
    || ('\U{1C}' <= c <= '\U{1F}')
    || c == '\U{85}' || c == '\U{A0}' || c == '\U{1680}'
    || ('\U{2000}' <= c <= '\U{200A}')
    || c == '\U{2028}' || c == '\U{2029}' || c == '\U{202F}' || c == '\U{205F}'
    || c == '\U{3000}'
  }

  predicate AllSpace(s: string) {
    forall i :: 0 <= i < |s| ==> IsSpace(s[i])
  }

  /** A word as `split()` returns it: non-empty, without whitespace. */
  predicate IsWord(w: string) {
    w != [] && forall i :: 0 <= i < |w| ==> !IsSpace(w[i])
  }

  /** No whitespace at either end. */
  predicate Trimmed(s: string) {
    s == [] || (!IsSpace(s[0]) && !IsSpace(s[|s| - 1]))
  }

  /** Positions `i` and `i + 1` of `s` both hold whitespace. */
  predicate DoubleSpaceAt(s: string, i: nat)
    requires i + 1 < |s|
  {
    IsSpace(s[i]) && IsSpace(s[i + 1])
  }

  /** Every whitespace character is a plain space and no two of them are adjacent. */
  predicate SingleSpaced(s: string) {
    && (forall i :: 0 <= i < |s| && IsSpace(s[i]) ==> s[i] == ' ')
    && (forall i: nat :: i + 1 < |s| ==> !DoubleSpaceAt(s, i))
  }

  function Min(a: int, b: int): int {
    if a <= b then a else b
  }

  /** `s.lstrip()`: drops the leading whitespace. */
  function LStrip(s: string): (r: string)
    ensures |r| <= |s|
    ensures r == [] || !IsSpace(r[0])
    ensures forall i :: 0 <= i < |s| - |r| ==> IsSpace(s[i])
  {
    if s != [] && IsSpace(s[0]) then LStrip(s[1..]) else s
  }

  /** What `lstrip` keeps is the end of `s`. */
  lemma {:induction false} LStripSuffix(s: string)
    ensures forall i :: 0 <= i < |LStrip(s)| ==> LStrip(s)[i] == s[|s| - |LStrip(s)| + i]
    decreases |s|
  {
    if s != [] && IsSpace(s[0]) {
      LStripSuffix(s[1..]);
      assert forall i :: 1 <= i < |s| ==> s[i] == s[1..][i - 1];
    }
  }

  /** `s.rstrip()`: drops the trailing whitespace. */
  function RStrip(s: string): (r: string)
    ensures |r| <= |s|
    ensures r == [] || !IsSpace(r[|r| - 1])
    ensures forall i :: |r| <= i < |s| ==> IsSpace(s[i])
    ensures forall i :: 0 <= i < |r| ==> r[i] == s[i]
  {
    if s != [] && IsSpace(s[|s| - 1]) then
      RStrip(s[..|s| - 1])
    else
      s
  }

  /** `s.strip()`. */
  function Strip(s: string): string {
    RStrip(LStrip(s))
  }

  /** Length of the maximal whitespace-free prefix of `s`. */
  function WordLen(s: string): (k: nat)
    ensures k <= |s|
    ensures forall i :: 0 <= i < k ==> !IsSpace(s[i])
    ensures k < |s| ==> IsSpace(s[k])
  {
    if s == [] || IsSpace(s[0]) then 0 else 1 + WordLen(s[1..])
  }

  /** `s.split()`: the maximal runs of non-whitespace characters, left to right. */
  function Split(s: string): (ws: seq<string>)
    ensures forall i :: 0 <= i < |ws| ==> IsWord(ws[i])
    decreases |s|
  {
    if s == [] then []
    else if IsSpace(s[0]) then Split(s[1..])
    else
      var k := WordLen(s);
      [s[..k]] + Split(s[k..])
  }

  /** `' '.join(ws)`. */
  function Join(ws: seq<string>): string {
    if |ws| == 0 then []
    else if |ws| == 1 then ws[0]
    else ws[0] + " " + Join(ws[1..])
  }

  /** `s.replace(target, replacement)` for two single characters. */
  function Replace(s: string, target: char, replacement: char): (r: string)
    ensures |r| == |s|
    ensures forall i :: 0 <= i < |s| ==> r[i] == if s[i] == target then replacement else s[i]
  {
    if s == [] then []
    else [if s[0] == target then replacement else s[0]] + Replace(s[1..], target, replacement)
  }

  /** `re.sub(r'\s+', ' ', s)`: every maximal run of whitespace becomes one space. */
  function CollapseSpaces(s: string): (r: string)
    ensures |r| <= |s|
    ensures r == [] <==> s == []
    ensures s != [] ==> r[0] == if IsSpace(s[0]) then ' ' else s[0]
    decreases |s|
  {
    if s == [] then []
    else if IsSpace(s[0]) then " " + CollapseSpaces(LStrip(s[1..]))
    else [s[0]] + CollapseSpaces(s[1..])
  }

  // ---------------------------------------------------------------------
  // strip

  /** Number of leading whitespace characters `strip` removes. */
  function LeadLen(s: string): nat {
    |s| - |LStrip(s)|
  }

  /** If `t` is a suffix of `s` and only whitespace follows `r` in `t`, only
      whitespace follows the copy of `r` inside `s`. */
  lemma TailOfSuffix(s: string, t: string, r: string)
    requires |t| <= |s| && forall i :: 0 <= i < |t| ==> t[i] == s[|s| - |t| + i]
    requires |r| <= |t| && forall i :: |r| <= i < |t| ==> IsSpace(t[i])
    ensures forall i :: |s| - |t| + |r| <= i < |s| ==> IsSpace(s[i])
  {
    forall i | |s| - |t| + |r| <= i < |s| ensures IsSpace(s[i]) {
      var j := i - (|s| - |t|);
      assert IsSpace(t[j]);
    }
  }

  /** Only whitespace follows `s.strip()` in `s`. */
  lemma StripTail(s: string)
    ensures LeadLen(s) + |Strip(s)| <= |s|
    ensures forall i :: LeadLen(s) + |Strip(s)| <= i < |s| ==> IsSpace(s[i])
  {
    if s != [] && IsSpace(s[0]) {
      LStripSuffix(s);
      TailOfSuffix(s, LStrip(s), RStrip(LStrip(s)));
    } else {
      assert LStrip(s) == s;
    }
  }

  /** `s.strip()` is the slice of `s` that starts after the leading whitespace. */
  lemma StripChars(s: string)
    ensures forall i :: 0 <= i < |Strip(s)| ==> Strip(s)[i] == s[LeadLen(s) + i]
  {
    var t := LStrip(s);
    var r := RStrip(t);
    if s != [] && IsSpace(s[0]) {
      LStripSuffix(s);
      forall i | 0 <= i < |r| ensures r[i] == s[|s| - |t| + i] {
        assert r[i] == t[i];
      }
    } else {
      assert t == s;
    }
  }

  lemma StripTrimmed(s: string)
    ensures Trimmed(Strip(s))
  {
    var t := LStrip(s);
    var r := RStrip(t);
    if r != [] {
      assert r[0] == t[0];
    }
  }

  /** `s.strip()` is the part of `s` after the leading whitespace and before
      the trailing whitespace, and it is trimmed. */
  lemma StripShape(s: string)
    ensures LeadLen(s) + |Strip(s)| <= |s|
    ensures forall i :: 0 <= i < |Strip(s)| ==> Strip(s)[i] == s[LeadLen(s) + i]
    ensures forall i :: 0 <= i < LeadLen(s) ==> IsSpace(s[i])
    ensures forall i :: LeadLen(s) + |Strip(s)| <= i < |s| ==> IsSpace(s[i])
    ensures Trimmed(Strip(s))
  {
    StripTail(s);
    StripChars(s);
    StripTrimmed(s);
  }

  lemma StripEmptyIffAllSpace(s: string)
    ensures Strip(s) == [] <==> AllSpace(s)
  {
    StripShape(s);
    var r := Strip(s);
    if r != [] {
      assert r[0] == s[LeadLen(s)];
    }
  }

  lemma SliceSingleSpaced(s: string, i: nat, j: nat)
    requires i <= j <= |s| && SingleSpaced(s)
    ensures SingleSpaced(s[i..j])
  {
    var t := s[i..j];
    forall k: nat | k + 1 < |t| ensures !DoubleSpaceAt(t, k) {
      assert t[k] == s[i + k] && t[k + 1] == s[i + k + 1];
      assert !DoubleSpaceAt(s, i + k);
    }
  }

  lemma NextNotSpace(s: string, i: nat)
    requires SingleSpaced(s) && i + 1 < |s| && IsSpace(s[i])
    ensures !IsSpace(s[i + 1])
  {
    assert !DoubleSpaceAt(s, i);
  }

  /** Putting a character in front of single-spaced text keeps it single-spaced
      unless that makes a double space or the character is other whitespace. */
  lemma ConsSingleSpaced(c: char, rest: string)
    requires SingleSpaced(rest)
    requires IsSpace(c) ==> c == ' ' && (rest == [] || !IsSpace(rest[0]))
    ensures SingleSpaced([c] + rest)
  {
    var r := [c] + rest;
    assert forall i :: 1 <= i < |r| ==> r[i] == rest[i - 1];
    forall i: nat | i + 1 < |r| ensures !DoubleSpaceAt(r, i) {
      if i > 0 {
        assert !DoubleSpaceAt(rest, i - 1);
      }
    }
  }

  /** A copy of a stretch of single-spaced text is single-spaced. */
  lemma CopySingleSpaced(s: string, r: string, lo: nat)
    requires SingleSpaced(s) && lo + |r| <= |s|
    requires forall i :: 0 <= i < |r| ==> r[i] == s[lo + i]
    ensures SingleSpaced(r)
  {
    forall k: nat | k + 1 < |r| ensures !DoubleSpaceAt(r, k) {
      assert r[k] == s[lo + k] && r[k + 1] == s[lo + k + 1];
      assert !DoubleSpaceAt(s, lo + k);
    }
  }

  lemma StripSingleSpaced(s: string)
    requires SingleSpaced(s)
    ensures SingleSpaced(Strip(s))
  {
    StripTail(s);
    StripChars(s);
    CopySingleSpaced(s, Strip(s), LeadLen(s));
  }

  lemma StripOfTrimmed(s: string)
    requires Trimmed(s)
    ensures Strip(s) == s
  {
  }

  // ---------------------------------------------------------------------
  // split

  lemma {:induction false} SplitEmptyIffAllSpace(s: string)
    ensures Split(s) == [] <==> AllSpace(s)
    decreases |s|
  {
    if s != [] {
      if IsSpace(s[0]) {
        SplitEmptyIffAllSpace(s[1..]);
        assert forall i :: 1 <= i < |s| ==> s[i] == s[1..][i - 1];
      }
    }
  }

  lemma SplitSpaceCons(c: char, t: string)
    requires IsSpace(c)
    ensures Split([c] + t) == Split(t)
  {
    assert ([c] + t)[1..] == t;
  }

  /** A word followed by whitespace (or nothing) is split off as the first element. */
  lemma {:induction false} SplitWordThen(w: string, t: string)
    requires IsWord(w)
    requires t == [] || IsSpace(t[0])
    ensures Split(w + t) == [w] + Split(t)
  {
    WordLenOfWord(w, t);
    assert (w + t)[..|w|] == w;
    assert (w + t)[|w|..] == t;
  }

  lemma {:induction false} WordLenOfWord(w: string, t: string)
    requires IsWord(w)
    requires t == [] || IsSpace(t[0])
    ensures WordLen(w + t) == |w|
    decreases |w|
  {
    var s := w + t;
    assert s[0] == w[0];
    if |w| > 1 {
      assert s[1..] == w[1..] + t;
      WordLenOfWord(w[1..], t);
    } else {
      assert s[1..] == t;
    }
  }

  /** Prepending a non-whitespace character extends the first word or starts one. */
  lemma SplitCons(c: char, t: string)
    requires !IsSpace(c)
    ensures t == [] || IsSpace(t[0]) ==> Split([c] + t) == [[c]] + Split(t)
    ensures t != [] && !IsSpace(t[0]) ==>
      Split(t) != [] && Split([c] + t) == [[c] + Split(t)[0]] + Split(t)[1..]
  {
    var s := [c] + t;
    var k := WordLen(t);
    ConsSlices(c, t, k);
    assert WordLen(s) == 1 + k;
  }

  lemma ConsSlices(c: char, t: string, k: nat)
    requires k <= |t|
    ensures ([c] + t)[1..] == t
    ensures ([c] + t)[..k + 1] == [c] + t[..k]
    ensures ([c] + t)[k + 1..] == t[k..]
  {
  }

  lemma {:induction false} SplitLStrip(s: string)
    ensures Split(LStrip(s)) == Split(s)
    decreases |s|
  {
    if s != [] && IsSpace(s[0]) {
      SplitLStrip(s[1..]);
    }
  }

  lemma {:induction false} WordLenSnocSpace(t: string, c: char)
    requires IsSpace(c)
    ensures WordLen(t + [c]) == WordLen(t)
    decreases |t|
  {
    if t != [] {
      assert (t + [c])[0] == t[0];
      assert (t + [c])[1..] == t[1..] + [c];
      WordLenSnocSpace(t[1..], c);
    }
  }

  lemma {:induction false} SplitSnocSpace(t: string, c: char)
    requires IsSpace(c)
    ensures Split(t + [c]) == Split(t)
    decreases |t|
  {
    var s := t + [c];
    if t == [] {
      assert s[1..] == [];
    } else if IsSpace(t[0]) {
      assert s[1..] == t[1..] + [c];
      SplitSnocSpace(t[1..], c);
    } else {
      WordLenSnocSpace(t, c);
      var k := WordLen(t);
      assert s[..k] == t[..k];
      assert s[k..] == t[k..] + [c];
      SplitSnocSpace(t[k..], c);
    }
  }

  lemma {:induction false} SplitRStrip(s: string)
    ensures Split(RStrip(s)) == Split(s)
    decreases |s|
  {
    if s != [] && IsSpace(s[|s| - 1]) {
      SplitRStrip(s[..|s| - 1]);
      assert s == s[..|s| - 1] + [s[|s| - 1]];
      SplitSnocSpace(s[..|s| - 1], s[|s| - 1]);
    }
  }

  /** `strip` does not change the words. */
  lemma SplitStrip(s: string)
    ensures Split(Strip(s)) == Split(s)
  {
    SplitRStrip(LStrip(s));
    SplitLStrip(s);
  }

  // ---------------------------------------------------------------------
  // join and split are inverse

  /** Joining words with single spaces and splitting again gives the words back. */
  lemma {:induction false} SplitJoin(ws: seq<string>)
    requires forall i :: 0 <= i < |ws| ==> IsWord(ws[i])
    ensures Split(Join(ws)) == ws
  {
    if |ws| == 1 {
      SplitWordThen(ws[0], []);
      assert ws[0] + [] == ws[0];
    } else if |ws| > 1 {
      var rest := Join(ws[1..]);
      SplitJoin(ws[1..]);
      assert ws[0] + " " + rest == ws[0] + (" " + rest);
      SplitWordThen(ws[0], " " + rest);
      SplitSpaceCons(' ', rest);
      assert [ws[0]] + ws[1..] == ws;
    }
  }

  lemma JoinCons(a: string, ws: seq<string>)
    requires ws != []
    ensures Join([a] + ws) == a + " " + Join(ws)
  {
    assert ([a] + ws)[1..] == ws;
  }

  /** In trimmed, single-spaced text the first word, when it is not all of
      the text, is followed by one plain space and then by a non-space. */
  lemma FirstWordThenSpace(s: string, k: nat)
    requires Trimmed(s) && SingleSpaced(s) && k == WordLen(s) < |s|
    ensures k + 1 < |s| && s[k] == ' ' && !IsSpace(s[k + 1])
  {
    assert IsSpace(s[k]);
    assert k != |s| - 1;
    NextNotSpace(s, k);
  }

  /** Splitting at a whitespace character skips it. */
  lemma SplitAtSpace(s: string, k: nat)
    requires k < |s| && IsSpace(s[k])
    ensures Split(s[k..]) == Split(s[k + 1..])
  {
    assert s[k..][1..] == s[k + 1..];
  }

  lemma TidySuffix(s: string, k: nat)
    requires Trimmed(s) && SingleSpaced(s) && k < |s| && !IsSpace(s[k])
    ensures Trimmed(s[k..]) && SingleSpaced(s[k..])
    ensures Split(s[k..]) != []
  {
    var t := s[k..];
    assert t[0] == s[k];
    SliceSingleSpaced(s, k, |s|);
    assert s[k..|s|] == t;
    SplitEmptyIffAllSpace(t);
  }

  /** In trimmed, single-spaced text that is more than one word, the first
      word (the first `k` characters) is followed by exactly one space and then
      by trimmed, single-spaced text holding the other words. */
  lemma SplitFirstWord(s: string, k: nat)
    requires Trimmed(s) && SingleSpaced(s) && k == WordLen(s) < |s|
    ensures k + 1 < |s| && s[k] == ' '
    ensures Trimmed(s[k + 1..]) && SingleSpaced(s[k + 1..])
    ensures Split(s) == [s[..k]] + Split(s[k + 1..])
    ensures Split(s[k + 1..]) != []
  {
    FirstWordThenSpace(s, k);
    SplitAtSpace(s, k);
    TidySuffix(s, k + 1);
  }

  /** `s` is what comes before position `k`, the character at `k`, and the rest. */
  lemma SplitAround(s: string, k: nat)
    requires k < |s| && s[k] == ' '
    ensures s == s[..k] + " " + s[k + 1..]
  {
  }

  lemma JoinWordThen(s: string, w: string, t: string, ws: seq<string>)
    requires s == w + " " + t && ws != [] && Join(ws) == t
    ensures Join([w] + ws) == s
  {
    JoinCons(w, ws);
  }

  /** On trimmed, single-spaced text, splitting and joining with single spaces is the identity. */
  lemma {:induction false} JoinSplit(s: string)
    requires Trimmed(s) && SingleSpaced(s)
    ensures Join(Split(s)) == s
    decreases |s|
  {
    if s != [] {
      var k := WordLen(s);
      if k == |s| {
        assert s[..k] == s;
        assert s[k..] == [];
      } else {
        SplitFirstWord(s, k);
        var t := s[k + 1..];
        JoinSplit(t);
        SplitAround(s, k);
        JoinWordThen(s, s[..k], t, Split(t));
      }
    }
  }

  lemma JoinOne(w: string)
    ensures Join([w]) == w
  {
  }

  // ---------------------------------------------------------------------
  // collapsing whitespace runs

  /** The output of `re.sub(r'\s+', ' ', s)` is single-spaced. */
  lemma {:induction false} CollapseSingleSpaced(s: string)
    ensures SingleSpaced(CollapseSpaces(s))
    decreases |s|
  {
    if s != [] {
      if IsSpace(s[0]) {
        var u := LStrip(s[1..]);
        CollapseSingleSpaced(u);
        ConsSingleSpaced(' ', CollapseSpaces(u));
      } else {
        CollapseSingleSpaced(s[1..]);
        ConsSingleSpaced(s[0], CollapseSpaces(s[1..]));
      }
    }
  }

  /** Collapsing whitespace runs does not change the words. */
  lemma {:induction false} SplitCollapse(s: string)
    ensures Split(CollapseSpaces(s)) == Split(s)
    decreases |s|
  {
    if s != [] {
      if IsSpace(s[0]) {
        var u := LStrip(s[1..]);
        SplitCollapse(u);
        SplitLStrip(s[1..]);
        SplitSpaceCons(' ', CollapseSpaces(u));
      } else {
        var t := s[1..];
        var ct := CollapseSpaces(t);
        SplitCollapse(t);
        SplitCons(s[0], ct);
        SplitCons(s[0], t);
        assert [s[0]] + t == s;
      }
    }
  }

  /** In single-spaced text a leading space is a plain space followed by no other whitespace. */
  lemma SpaceHead(s: string)
    requires SingleSpaced(s) && s != [] && IsSpace(s[0])
    ensures s[0] == ' ' && LStrip(s[1..]) == s[1..]
  {
    if |s| > 1 {
      NextNotSpace(s, 0);
    }
  }

  /** Single-spaced text is left alone by `re.sub(r'\s+', ' ', s)`. */
  lemma {:induction false} CollapseOfSingleSpaced(s: string)
    requires SingleSpaced(s)
    ensures CollapseSpaces(s) == s
    decreases |s|
  {
    if s != [] {
      var t := s[1..];
      assert SingleSpaced(t) by {
        SliceSingleSpaced(s, 1, |s|);
        assert s[1..|s|] == t;
      }
      CollapseOfSingleSpaced(t);
      if IsSpace(s[0]) {
        SpaceHead(s);
        assert s == " " + t;
      } else {
        assert s == [s[0]] + t;
      }
    }
  }

  // ---------------------------------------------------------------------
  // single-character replacement

  /** `Replace` applied to every word. */
  function ReplaceEach(ws: seq<string>, target: char, replacement: char): (rs: seq<string>)
    ensures |rs| == |ws|
    ensures forall i :: 0 <= i < |ws| ==> rs[i] == Replace(ws[i], target, replacement)
  {
    if ws == [] then [] else [Replace(ws[0], target, replacement)] + ReplaceEach(ws[1..], target, replacement)
  }

  lemma {:induction false} WordLenReplace(s: string, a: char, b: char)
    requires !IsSpace(a) && !IsSpace(b)
    ensures WordLen(Replace(s, a, b)) == WordLen(s)
    decreases |s|
  {
    if s != [] {
      var r := Replace(s, a, b);
      assert r[1..] == Replace(s[1..], a, b);
      WordLenReplace(s[1..], a, b);
    }
  }

  /** Replacing one non-whitespace character by another replaces it inside each word. */
  lemma {:induction false} SplitReplace(s: string, a: char, b: char)
    requires !IsSpace(a) && !IsSpace(b)
    ensures Split(Replace(s, a, b)) == ReplaceEach(Split(s), a, b)
    decreases |s|
  {
    if s != [] {
      var r := Replace(s, a, b);
      if IsSpace(s[0]) {
        assert r[1..] == Replace(s[1..], a, b);
        SplitReplace(s[1..], a, b);
      } else {
        var k := WordLen(s);
        WordLenReplace(s, a, b);
        assert r[..k] == Replace(s[..k], a, b);
        assert r[k..] == Replace(s[k..], a, b);
        SplitReplace(s[k..], a, b);
        var ws := Split(s[k..]);
        assert ReplaceEach([s[..k]] + ws, a, b) == [Replace(s[..k], a, b)] + ReplaceEach(ws, a, b);
      }
    }
  }
}
