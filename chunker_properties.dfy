/**
  What the chunker promises, proved about the functions of module `Chunker`:
  the shape of cleaned text, the windows of the sliding loop, the chunk
  records `chunk_text` returns, and the batch behaviour of `chunk_documents`.
 */
module ChunkerProperties {
  import opened Strings
  import opened Decimal
  import opened Chunker

  // ---------------------------------------------------------------------
  // _clean_text

  /** Quote normalisation applied to every word. */
  function NormalizeEach(ws: seq<string>): seq<string> {
    seq(|ws|, i requires 0 <= i < |ws| => NormalizeQuotes(ws[i]))
  }

  lemma PlainQuoteKeepsSpaces(c: char)
    ensures IsSpace(PlainQuote(c)) <==> IsSpace(c)
    ensures IsSpace(c) ==> PlainQuote(c) == c
  {
  }

  /** Cleaned text has no whitespace at either end, its only whitespace is
      single spaces between other characters, and it holds no curly quotes. */
  lemma CleanTextShape(text: string)
    ensures Trimmed(CleanText(text))
    ensures SingleSpaced(CleanText(text))
    ensures forall i :: 0 <= i < |CleanText(text)| ==> !IsCurlyQuote(CleanText(text)[i])
  {
    var c0 := CollapseSpaces(text);
    CollapseSingleSpaced(text);
    var c1 := Strip(c0);
    StripShape(c0);
    StripSingleSpaced(c0);
    var r := NormalizeQuotes(c1);
    forall i | 0 <= i < |r| ensures IsSpace(r[i]) <==> IsSpace(c1[i]) {
      PlainQuoteKeepsSpaces(c1[i]);
    }
    forall i | 0 <= i < |r| && IsSpace(r[i]) ensures r[i] == ' ' {
      PlainQuoteKeepsSpaces(c1[i]);
    }
    forall i: nat | i + 1 < |r| ensures !DoubleSpaceAt(r, i) {
      assert !DoubleSpaceAt(c1, i);
    }
  }

  /** Normalising quotes normalises them inside each word and leaves the
      word boundaries where they were. */
  lemma SplitNormalizeQuotes(s: string)
    ensures Split(NormalizeQuotes(s)) == NormalizeEach(Split(s))
  {
    var a := Replace(s, LeftDoubleQuote, '"');
    var b := Replace(a, RightDoubleQuote, '"');
    var c := Replace(b, LeftSingleQuote, '\'');
    SplitReplace(s, LeftDoubleQuote, '"');
    SplitReplace(a, RightDoubleQuote, '"');
    SplitReplace(b, LeftSingleQuote, '\'');
    SplitReplace(c, RightSingleQuote, '\'');
  }

  /** Cleaning keeps the words of the text, in order, only with their quotes normalised. */
  lemma CleanTextWords(text: string)
    ensures Split(CleanText(text)) == NormalizeEach(Split(text))
  {
    var c0 := CollapseSpaces(text);
    SplitCollapse(text);
    SplitStrip(c0);
    SplitNormalizeQuotes(Strip(c0));
  }

  /** Text without curly quotes is left as it is by quote normalisation. */
  lemma NormalizeQuotesOfPlain(s: string)
    requires forall i :: 0 <= i < |s| ==> !IsCurlyQuote(s[i])
    ensures NormalizeQuotes(s) == s
  {
    var r := NormalizeQuotes(s);
    forall i | 0 <= i < |s| ensures r[i] == s[i] {
      assert !IsCurlyQuote(s[i]);
    }
  }

  /** Text already in the shape cleaning produces is left as it is. */
  lemma CleanTextOfClean(s: string)
    requires Trimmed(s) && SingleSpaced(s)
    requires forall i :: 0 <= i < |s| ==> !IsCurlyQuote(s[i])
    ensures CleanText(s) == s
  {
    CollapseOfSingleSpaced(s);
    StripOfTrimmed(s);
    NormalizeQuotesOfPlain(s);
  }

  /** Cleaning twice is the same as cleaning once. */
  lemma CleanTextIdempotent(text: string)
    ensures CleanText(CleanText(text)) == CleanText(text)
  {
    CleanTextShape(text);
    CleanTextOfClean(CleanText(text));
  }

  /** The guard `not text or not text.strip()` holds exactly for text
      without words, and then cleaning leaves nothing. */
  lemma BlankIffNoWords(text: string)
    ensures (text == [] || Strip(text) == []) <==> AllSpace(text)
    ensures AllSpace(text) <==> Split(text) == []
    ensures AllSpace(text) <==> Split(CleanText(text)) == []
    ensures AllSpace(text) <==> CleanText(text) == []
  {
    StripEmptyIffAllSpace(text);
    SplitEmptyIffAllSpace(text);
    CleanTextWords(text);
    CleanTextShape(text);
    var c := CleanText(text);
    SplitEmptyIffAllSpace(c);
    if c != [] {
      assert !IsSpace(c[0]);
    }
  }

  lemma CleanTextWordCount(text: string)
    ensures |Split(CleanText(text))| == |Split(text)|
  {
    CleanTextWords(text);
  }

  // ---------------------------------------------------------------------
  // the windows of the loop

  /** Window `i` is not the last: it ends before the text does, and window
      `i + 1` starts `o` words before that end. */
  predicate Advances(r: seq<Span>, i: nat, n: nat, o: nat)
    requires i + 1 < |r|
  {
    r[i].hi < n && r[i + 1].lo + o == r[i].hi
  }

  /** The windows from `start`: the first, then those from `o` words before its end. */
  lemma SpansHead(n: nat, start: nat, w: nat, o: nat)
    requires o < w && start < n
    ensures Min(start + w, n) < n ==>
      Spans(n, start, w, o) == [Span(start, Min(start + w, n))] + Spans(n, Min(start + w, n) - o, w, o)
    ensures Min(start + w, n) >= n ==> Spans(n, start, w, o) == [Span(start, n)]
  {
  }

  /** There are windows exactly when words remain; the first starts at
      `start` and the last reaches `n`. */
  lemma {:induction false} SpansEnds(n: nat, start: nat, w: nat, o: nat)
    requires o < w
    ensures start >= n <==> Spans(n, start, w, o) == []
    ensures start < n ==> Spans(n, start, w, o)[0].lo == start && Spans(n, start, w, o)[|Spans(n, start, w, o)| - 1].hi == n
    decreases n - start
  {
    if start < n {
      var end := Min(start + w, n);
      if end < n {
        SpansEnds(n, end - o, w, o);
      }
    }
  }

  /** Each window is as long as `w` words or the rest of the text allow. */
  lemma {:induction false} SpansWidths(n: nat, start: nat, w: nat, o: nat)
    requires o < w
    ensures forall i :: 0 <= i < |Spans(n, start, w, o)| ==> Spans(n, start, w, o)[i].hi == Min(Spans(n, start, w, o)[i].lo + w, n)
    decreases n - start
  {
    if start < n {
      var end := Min(start + w, n);
      if end < n {
        var r := Spans(n, start, w, o);
        var rest := Spans(n, end - o, w, o);
        SpansWidths(n, end - o, w, o);
        assert r == [Span(start, end)] + rest;
        assert forall i :: 1 <= i < |r| ==> r[i] == rest[i - 1];
      }
    }
  }

  /** A window in front of windows that advance, when the next one starts
      `o` words before its end, keeps them advancing. */
  lemma AdvanceCons(n: nat, o: nat, sp: Span, rest: seq<Span>, r: seq<Span>)
    requires r == [sp] + rest && rest != [] && sp.hi < n && rest[0].lo + o == sp.hi
    requires forall i: nat :: i + 1 < |rest| ==> Advances(rest, i, n, o)
    ensures forall i: nat :: i + 1 < |r| ==> Advances(r, i, n, o)
  {
    forall i: nat | i + 1 < |r| ensures Advances(r, i, n, o) {
      if i > 0 {
        assert r[i] == rest[i - 1] && r[i + 1] == rest[i];
        assert Advances(rest, i - 1, n, o);
      }
    }
  }

  /** Every window but the last ends before the text does, and the next
      one starts `o` words before that end. */
  lemma {:induction false} SpansAdvance(n: nat, start: nat, w: nat, o: nat)
    requires o < w
    ensures forall i: nat :: i + 1 < |Spans(n, start, w, o)| ==> Advances(Spans(n, start, w, o), i, n, o)
    decreases n - start
  {
    if start < n {
      var end := Min(start + w, n);
      SpansHead(n, start, w, o);
      if end < n {
        SpansAdvance(n, end - o, w, o);
        SpansEnds(n, end - o, w, o);
        AdvanceCons(n, o, Span(start, end), Spans(n, end - o, w, o), Spans(n, start, w, o));
      }
    }
  }

  /** Consecutive windows share exactly `o` words, and every window but the
      last is a full `w` words long. */
  lemma SpansOverlap(n: nat, start: nat, w: nat, o: nat)
    requires o < w
    ensures forall i: nat :: i + 1 < |Spans(n, start, w, o)| ==> Spans(n, start, w, o)[i].hi - Spans(n, start, w, o)[i + 1].lo == o && Spans(n, start, w, o)[i].hi - Spans(n, start, w, o)[i].lo == w
  {
    var r := Spans(n, start, w, o);
    SpansWidths(n, start, w, o);
    SpansAdvance(n, start, w, o);
    forall i: nat | i + 1 < |r| ensures r[i].hi - r[i + 1].lo == o && r[i].hi - r[i].lo == w {
      assert Advances(r, i, n, o);
    }
  }

  /** Window `i + 1` starts and ends strictly after window `i`. */
  predicate StepsUp(r: seq<Span>, i: nat)
    requires i + 1 < |r|
  {
    r[i].lo < r[i + 1].lo && r[i].hi < r[i + 1].hi
  }

  lemma {:induction false} IncreasingFromSteps(r: seq<Span>, i: nat, j: nat)
    requires forall k: nat :: k + 1 < |r| ==> StepsUp(r, k)
    requires i < j < |r|
    ensures r[i].lo < r[j].lo && r[i].hi < r[j].hi
    decreases j - i
  {
    assert StepsUp(r, i);
    if i + 1 < j {
      IncreasingFromSteps(r, i + 1, j);
    }
  }

  /** Every later window starts and ends strictly after every earlier one. */
  lemma SpansIncrease(n: nat, start: nat, w: nat, o: nat)
    requires o < w
    ensures forall i, j :: 0 <= i < j < |Spans(n, start, w, o)| ==> Spans(n, start, w, o)[i].lo < Spans(n, start, w, o)[j].lo && Spans(n, start, w, o)[i].hi < Spans(n, start, w, o)[j].hi
  {
    var r := Spans(n, start, w, o);
    SpansWidths(n, start, w, o);
    SpansAdvance(n, start, w, o);
    forall k: nat | k + 1 < |r| ensures StepsUp(r, k) {
      assert Advances(r, k, n, o);
    }
    forall i, j | 0 <= i < j < |r| ensures r[i].lo < r[j].lo && r[i].hi < r[j].hi {
      IncreasingFromSteps(r, i, j);
    }
  }

  /** Every word from `start` on lies in some window. */
  lemma {:induction false} SpansCover(n: nat, start: nat, w: nat, o: nat, k: nat)
    requires o < w && start <= k < n
    ensures exists i :: 0 <= i < |Spans(n, start, w, o)| && Spans(n, start, w, o)[i].lo <= k < Spans(n, start, w, o)[i].hi
    decreases n - start
  {
    var end := Min(start + w, n);
    SpansHead(n, start, w, o);
    if k < end {
      assert Spans(n, start, w, o)[0] == Span(start, end);
    } else {
      SpansCover(n, end - o, w, o, k);
      CoverCons(k, Span(start, end), Spans(n, end - o, w, o), Spans(n, start, w, o));
    }
  }

  lemma CoverCons(k: nat, sp: Span, rest: seq<Span>, r: seq<Span>)
    requires r == [sp] + rest
    requires exists i :: 0 <= i < |rest| && rest[i].lo <= k < rest[i].hi
    ensures exists i :: 0 <= i < |r| && r[i].lo <= k < r[i].hi
  {
    var i :| 0 <= i < |rest| && rest[i].lo <= k < rest[i].hi;
    assert r[i + 1] == rest[i];
  }

  /** The loop runs at most `ceil((n - start) / (w - o))` times: each window
      but the last moves the start on by `w - o` words. */
  lemma {:induction false} SpansCount(n: nat, start: nat, w: nat, o: nat)
    requires o < w
    ensures start < n ==> (|Spans(n, start, w, o)| - 1) * (w - o) < n - start
    decreases n - start
  {
    if start < n {
      var end := Min(start + w, n);
      SpansHead(n, start, w, o);
      if end < n {
        SpansCount(n, end - o, w, o);
        SpansEnds(n, end - o, w, o);
        CountStep(|Spans(n, start, w, o)|, |Spans(n, end - o, w, o)|, n, start, end, w, o);
      }
    }
  }

  lemma CountStep(m: nat, k: nat, n: nat, start: nat, end: nat, w: nat, o: nat)
    requires o < w && 0 < k && m == k + 1 && end == start + w && (k - 1) * (w - o) < n - (end - o)
    ensures (m - 1) * (w - o) < n - start
  {
    assert k * (w - o) == (k - 1) * (w - o) + (w - o);
  }

  // ---------------------------------------------------------------------
  // chunk_text

  /** The words each window covers. */
  function Pieces(words: seq<string>, spans: seq<Span>): seq<seq<string>>
    requires InBounds(spans, |words|)
  {
    seq(|spans|, i requires 0 <= i < |spans| => words[spans[i].lo..spans[i].hi])
  }

  /** Reassembles overlapping pieces: every piece but the last loses its final
      `o` words (the ones the next piece repeats). */
  function Stitch(pieces: seq<seq<string>>, o: nat): seq<string> {
    if |pieces| == 0 then []
    else if |pieces| == 1 then pieces[0]
    else pieces[0][..|pieces[0]| - Min(o, |pieces[0]|)] + Stitch(pieces[1..], o)
  }

  lemma StitchCons(p: seq<string>, ps: seq<seq<string>>, o: nat)
    requires ps != []
    ensures Stitch([p] + ps, o) == p[..|p| - Min(o, |p|)] + Stitch(ps, o)
  {
    assert ([p] + ps)[1..] == ps;
  }

  lemma PiecesCons(words: seq<string>, sp: Span, rest: seq<Span>)
    requires sp.lo <= sp.hi <= |words| && InBounds([sp] + rest, |words|)
    ensures InBounds(rest, |words|)
    ensures Pieces(words, [sp] + rest) == [words[sp.lo..sp.hi]] + Pieces(words, rest)
  {
    assert forall i :: 0 <= i < |rest| ==> rest[i] == ([sp] + rest)[i + 1];
  }

  /** One more full window in front: its words up to where the next window
      starts come first. */
  lemma StitchStep(words: seq<string>, start: nat, end: nat, w: nat, o: nat, rest: seq<Span>, r: seq<Span>)
    requires o < w && end == start + w && end < |words|
    requires rest != [] && InBounds(rest, |words|)
    requires Stitch(Pieces(words, rest), o) == words[end - o..]
    requires r == [Span(start, end)] + rest
    ensures InBounds(r, |words|)
    ensures Stitch(Pieces(words, r), o) == words[start..]
  {
    var sp := Span(start, end);
    assert forall i :: 1 <= i < |[sp] + rest| ==> ([sp] + rest)[i] == rest[i - 1];
    PiecesCons(words, sp, rest);
    var head := words[start..end];
    StitchCons(head, Pieces(words, rest), o);
    assert head[..|head| - Min(o, |head|)] == words[start..end - o];
    assert words[start..] == words[start..end - o] + words[end - o..];
  }

  /** The last window holds all the words from its start on. */
  lemma StitchLast(words: seq<string>, start: nat, o: nat, spans: seq<Span>)
    requires start < |words| && spans == [Span(start, |words|)]
    ensures InBounds(spans, |words|)
    ensures Stitch(Pieces(words, spans), o) == words[start..]
  {
    assert Pieces(words, spans) == [words[start..|words|]];
  }

  /** A full window in front of the windows from `o` words before its end. */
  lemma SpansFront(n: nat, start: nat, w: nat, o: nat)
    requires o < w && start + w < n
    ensures Spans(n, start, w, o) == [Span(start, start + w)] + Spans(n, start + w - o, w, o)
  {
    SpansHead(n, start, w, o);
  }

  /** The step of `StitchSpans` for a full window. */
  lemma StitchFront(words: seq<string>, start: nat, w: nat, o: nat)
    requires o < w && start + w < |words|
    requires InBounds(Spans(|words|, start + w - o, w, o), |words|)
    requires Stitch(Pieces(words, Spans(|words|, start + w - o, w, o)), o) == words[start + w - o..]
    ensures InBounds(Spans(|words|, start, w, o), |words|)
    ensures Stitch(Pieces(words, Spans(|words|, start, w, o)), o) == words[start..]
  {
    SpansFront(|words|, start, w, o);
    SpansEnds(|words|, start + w - o, w, o);
    StitchStep(words, start, start + w, w, o, Spans(|words|, start + w - o, w, o), Spans(|words|, start, w, o));
  }

  /** Dropping the overlaps from the windows gives back the words from `start` on, each once. */
  lemma {:induction false} StitchSpans(words: seq<string>, start: nat, w: nat, o: nat)
    requires o < w
    ensures InBounds(Spans(|words|, start, w, o), |words|)
    ensures start < |words| ==> Stitch(Pieces(words, Spans(|words|, start, w, o)), o) == words[start..]
    decreases |words| - start
  {
    if start < |words| {
      if start + w < |words| {
        StitchSpans(words, start + w - o, w, o);
        StitchFront(words, start, w, o);
      } else {
        SpansHead(|words|, start, w, o);
        StitchLast(words, start, o, Spans(|words|, start, w, o));
      }
    }
  }

  /** The words `chunk_text` works on: those of the cleaned text. */
  function Words(text: string): seq<string> {
    Split(CleanText(text))
  }

  /** The windows the loop visits over those words. */
  function Windows(w: nat, o: nat, text: string): seq<Span>
    requires o < w
  {
    Spans(|Words(text)|, 0, w, o)
  }

  /** A single window over all the words is one record `base#1` holding their join. */
  lemma LabelWhole(words: seq<string>, source: string, base: string, joined: string)
    requires Join(words) == joined
    ensures InBounds([Span(0, |words|)], |words|)
    ensures Label(words, [Span(0, |words|)], source, base) == [Chunk(ChunkId(base, 1), source, joined)]
  {
    var l := Label(words, [Span(0, |words|)], source, base);
    WholeSlice(words);
    assert |l| == 1;
    assert l[0] == Chunk(ChunkId(base, 0 + 1), source, joined);
    Singleton(l, Chunk(ChunkId(base, 1), source, joined));
  }

  lemma WholeSlice<T>(s: seq<T>)
    ensures s[0..|s|] == s
  {
  }

  lemma Singleton<T>(l: seq<T>, x: T)
    requires |l| == 1 && l[0] == x
    ensures l == [x]
  {
  }

  /** Text of at most `w` words: the one record of the short-text path is the
      one window of the loop. */
  lemma ShortText(w: nat, o: nat, text: string, source: string, base: string)
    requires o < w && !AllSpace(text) && |Words(text)| <= w
    ensures InBounds(Windows(w, o, text), |Words(text)|)
    ensures Chunks(w, o, text, source, base) == Label(Words(text), Windows(w, o, text), source, base)
  {
    var cleaned := CleanText(text);
    var words := Words(text);
    BlankIffNoWords(text);
    CleanTextShape(text);
    JoinSplit(cleaned);
    SpansHead(|words|, 0, w, o);
    LabelWhole(words, source, base, cleaned);
  }

  /** The short-text path and the loop agree: `chunk_text` always returns the
      windows of the loop over the words of the cleaned text, numbered from 1. */
  lemma ChunksAreWindows(w: nat, o: nat, text: string, source: string, base: string)
    requires o < w
    ensures InBounds(Windows(w, o, text), |Words(text)|)
    ensures Chunks(w, o, text, source, base) == Label(Words(text), Windows(w, o, text), source, base)
  {
    BlankIffNoWords(text);
    if AllSpace(text) {
      SpansEnds(|Words(text)|, 0, w, o);
    } else if |Words(text)| <= w {
      ShortText(w, o, text, source, base);
    }
  }

  /** Empty or whitespace-only text, and only such text, gives no chunks. */
  lemma NoChunksIffBlank(w: nat, o: nat, text: string, source: string, base: string)
    requires o < w
    ensures Chunks(w, o, text, source, base) == [] <==> AllSpace(text)
  {
    BlankIffNoWords(text);
    ChunksAreWindows(w, o, text, source, base);
    SpansEnds(|Words(text)|, 0, w, o);
  }

  /** Text of at most `w` words is one chunk `base#1` holding the cleaned text. */
  lemma SingleChunk(w: nat, o: nat, text: string, source: string, base: string)
    requires o < w
    requires !AllSpace(text) && |Split(text)| <= w
    ensures Chunks(w, o, text, source, base) == [Chunk(ChunkId(base, 1), source, CleanText(text))]
  {
    BlankIffNoWords(text);
    CleanTextWordCount(text);
  }

  /** The records are numbered `base#1` to `base#k` in order, carry `source`
      and hold the words of one window each, joined with single spaces; each
      record but the last moves on by `w - o` words, so there are at most
      `ceil(words / (w - o))` of them. */
  lemma ChunkRecords(w: nat, o: nat, text: string, source: string, base: string, chunks: seq<Chunk>)
    requires o < w && chunks == Chunks(w, o, text, source, base)
    ensures |chunks| == |Windows(w, o, text)|
    ensures (|chunks| - 1) * (w - o) < |Words(text)|
    ensures forall i :: 0 <= i < |chunks| ==> chunks[i].chunkId == ChunkId(base, i + 1)
    ensures forall i :: 0 <= i < |chunks| ==> chunks[i].source == source
    ensures forall i :: 0 <= i < |chunks| ==>
      chunks[i].text == Join(Words(text)[Windows(w, o, text)[i].lo..Windows(w, o, text)[i].hi])
  {
    ChunksAreWindows(w, o, text, source, base);
    LabelFields(Words(text), Windows(w, o, text), source, base, chunks);
    SpansCount(|Words(text)|, 0, w, o);
  }

  /** The fields of the labelled records, one per window. */
  lemma LabelFields(words: seq<string>, spans: seq<Span>, source: string, base: string, chunks: seq<Chunk>)
    requires InBounds(spans, |words|) && chunks == Label(words, spans, source, base)
    ensures |chunks| == |spans|
    ensures forall i :: 0 <= i < |chunks| ==> chunks[i].chunkId == ChunkId(base, i + 1)
    ensures forall i :: 0 <= i < |chunks| ==> chunks[i].source == source
    ensures forall i :: 0 <= i < |chunks| ==> chunks[i].text == Join(words[spans[i].lo..spans[i].hi])
  {
  }

  /** Splitting a labelled record's text gives back its window of words. */
  lemma LabelWords(words: seq<string>, spans: seq<Span>, source: string, base: string, i: nat)
    requires InBounds(spans, |words|) && i < |spans|
    requires forall k :: 0 <= k < |words| ==> IsWord(words[k])
    ensures Split(Label(words, spans, source, base)[i].text) == words[spans[i].lo..spans[i].hi]
  {
    var piece := words[spans[i].lo..spans[i].hi];
    assert forall k :: 0 <= k < |piece| ==> piece[k] == words[spans[i].lo + k];
    SplitJoin(piece);
  }

  /** Splitting a chunk's text gives back exactly its window of words: between
      one and `w` of them. */
  lemma ChunkWords(w: nat, o: nat, text: string, source: string, base: string, chunks: seq<Chunk>, i: nat)
    requires o < w && chunks == Chunks(w, o, text, source, base)
    requires i < |chunks|
    ensures i < |Windows(w, o, text)|
    ensures Split(chunks[i].text) == Words(text)[Windows(w, o, text)[i].lo..Windows(w, o, text)[i].hi]
    ensures 1 <= |Split(chunks[i].text)| <= w
  {
    ChunksAreWindows(w, o, text, source, base);
    LabelWords(Words(text), Windows(w, o, text), source, base, i);
  }

  lemma ChunkIdInjective(base: string, m: nat, n: nat)
    requires ChunkId(base, m) == ChunkId(base, n)
    ensures m == n
  {
    var p := base + "#";
    assert ChunkId(base, m)[|p|..] == NatToString(m);
    assert ChunkId(base, n)[|p|..] == NatToString(n);
    NatToStringInjective(m, n);
  }

  /** No two chunks of one text share an identifier. */
  lemma ChunkIdsDistinct(w: nat, o: nat, text: string, source: string, base: string, chunks: seq<Chunk>)
    requires o < w && chunks == Chunks(w, o, text, source, base)
    ensures forall i, j :: 0 <= i < j < |chunks| ==> chunks[i].chunkId != chunks[j].chunkId
  {
    ChunkRecords(w, o, text, source, base, chunks);
    forall i, j | 0 <= i < j < |chunks| ensures chunks[i].chunkId != chunks[j].chunkId {
      if chunks[i].chunkId == chunks[j].chunkId {
        ChunkIdInjective(base, i + 1, j + 1);
      }
    }
  }

  /** Two windows `o` words apart hold the same `o` words at the seam. */
  lemma SeamWords(words: seq<string>, a: Span, b: Span, w: nat, o: nat)
    requires a.lo <= b.lo && a.hi <= b.hi <= |words|
    requires a.hi - a.lo == w && a.hi - b.lo == o && o < b.hi - b.lo
    ensures words[a.lo..a.hi][w - o..] == words[b.lo..b.hi][..o]
  {
    assert words[a.lo..a.hi][w - o..] == words[b.lo..a.hi];
    assert words[b.lo..b.hi][..o] == words[b.lo..a.hi];
  }

  /** Consecutive chunks share exactly `o` words: the last `o` words of one
      are the first `o` words of the next, and every chunk but the last is a
      full `w` words long. */
  lemma ChunksOverlap(w: nat, o: nat, text: string, source: string, base: string, chunks: seq<Chunk>, i: nat)
    requires o < w && chunks == Chunks(w, o, text, source, base)
    requires i + 1 < |chunks|
    ensures |Split(chunks[i].text)| == w
    ensures o < |Split(chunks[i + 1].text)|
    ensures Split(chunks[i].text)[w - o..] == Split(chunks[i + 1].text)[..o]
  {
    var spans := Windows(w, o, text);
    ChunkWords(w, o, text, source, base, chunks, i);
    ChunkWords(w, o, text, source, base, chunks, i + 1);
    SpansOverlap(|Words(text)|, 0, w, o);
    SpansIncrease(|Words(text)|, 0, w, o);
    assert spans[i].hi < spans[i + 1].hi;
    SeamWords(Words(text), spans[i], spans[i + 1], w, o);
  }

  /** The words of each chunk's text, chunk by chunk. */
  function ChunkPieces(chunks: seq<Chunk>): seq<seq<string>> {
    seq(|chunks|, i requires 0 <= i < |chunks| => Split(chunks[i].text))
  }

  /** The words of labelled records are the windows' pieces. */
  lemma LabelPieces(words: seq<string>, spans: seq<Span>, source: string, base: string, chunks: seq<Chunk>)
    requires InBounds(spans, |words|) && chunks == Label(words, spans, source, base)
    requires forall k :: 0 <= k < |words| ==> IsWord(words[k])
    ensures ChunkPieces(chunks) == Pieces(words, spans)
  {
    var ps := ChunkPieces(chunks);
    forall i | 0 <= i < |chunks| ensures ps[i] == Pieces(words, spans)[i] {
      LabelWords(words, spans, source, base, i);
    }
  }

  /** Putting the chunks back together, without the words each repeats from
      the one before, gives exactly the words of the cleaned text. */
  lemma ChunksReassemble(w: nat, o: nat, text: string, source: string, base: string, chunks: seq<Chunk>)
    requires o < w && chunks == Chunks(w, o, text, source, base)
    ensures Stitch(ChunkPieces(chunks), o) == Words(text)
  {
    var words := Words(text);
    ChunksAreWindows(w, o, text, source, base);
    LabelPieces(words, Windows(w, o, text), source, base, chunks);
    StitchSpans(words, 0, w, o);
    if words == [] {
      SpansEnds(0, 0, w, o);
    } else {
      assert words[0..] == words;
    }
  }

  // ---------------------------------------------------------------------
  // chunk_documents

  /** Dropping the last element of a concatenation with a non-empty right part. */
  lemma DropLastAppend<T>(a: seq<T>, b: seq<T>)
    requires b != []
    ensures (a + b)[..|a + b| - 1] == a + b[..|b| - 1]
    ensures (a + b)[|a + b| - 1] == b[|b| - 1]
  {
  }

  lemma ConcatAssoc<T>(x: seq<T>, y: seq<T>, z: seq<T>)
    ensures x + y + z == x + (y + z)
  {
  }

  /** The chunks of a concatenation of batches are the concatenation of their chunks. */
  lemma {:induction false} BatchAppend(w: nat, o: nat, a: seq<Document>, b: seq<Document>)
    requires o < w
    ensures BatchChunks(w, o, a + b) == BatchChunks(w, o, a) + BatchChunks(w, o, b)
    decreases |b|
  {
    if b == [] {
      assert a + b == a;
    } else {
      var b', d := b[..|b| - 1], b[|b| - 1];
      DropLastAppend(a, b);
      BatchAppend(w, o, a, b');
      ConcatAssoc(BatchChunks(w, o, a), BatchChunks(w, o, b'), DocumentChunks(w, o, d));
    }
  }

  /** Document `j`'s chunks sit in the output between those of the documents
      before it and those after it, and are exactly what chunking it alone gives. */
  lemma BatchIndependent(w: nat, o: nat, docs: seq<Document>, j: nat)
    requires o < w && j < |docs|
    ensures BatchChunks(w, o, docs)
         == BatchChunks(w, o, docs[..j]) + DocumentChunks(w, o, docs[j]) + BatchChunks(w, o, docs[j + 1..])
  {
    assert docs == docs[..j] + [docs[j]] + docs[j + 1..];
    BatchAppend(w, o, docs[..j] + [docs[j]], docs[j + 1..]);
    BatchAppend(w, o, docs[..j], [docs[j]]);
    assert [docs[j]][..0] == [];
  }

  /** Missing keys: no `text` gives no chunks; a missing `source` makes every
      chunk's source `unknown`; a missing `chunk_id` numbers them `doc#1`, `doc#2`, ... */
  lemma DocumentDefaults(w: nat, o: nat, doc: Document, chunks: seq<Chunk>)
    requires o < w && chunks == DocumentChunks(w, o, doc)
    ensures "text" !in doc ==> chunks == []
    ensures forall i :: 0 <= i < |chunks| ==> chunks[i].source == if "source" in doc then doc["source"] else "unknown"
    ensures forall i :: 0 <= i < |chunks| ==>
      chunks[i].chunkId == ChunkId(if "chunk_id" in doc then doc["chunk_id"] else "doc", i + 1)
  {
    ChunkRecords(w, o, Get(doc, "text", ""), Get(doc, "source", "unknown"), Get(doc, "chunk_id", "doc"), chunks);
  }

  // ---------------------------------------------------------------------
  // worked examples

  /** The loop over 160 words with 75-word windows overlapping by 15 words. */
  lemma Spans160()
    ensures Spans(160, 0, 75, 15) == [Span(0, 75), Span(60, 135), Span(120, 160)]
  {
    assert Spans(160, 120, 75, 15) == [Span(120, 160)];
    assert Spans(160, 60, 75, 15) == [Span(60, 135)] + [Span(120, 160)];
  }

  lemma ChunkIdsD1()
    ensures ChunkId("d1", 1) == "d1#1" && ChunkId("d1", 2) == "d1#2" && ChunkId("d1", 3) == "d1#3"
  {
    assert NatToString(1) == "1" && NatToString(2) == "2" && NatToString(3) == "3";
  }

  lemma Label160(words: seq<string>)
    requires |words| == 160
    ensures InBounds([Span(0, 75), Span(60, 135), Span(120, 160)], |words|)
    ensures Label(words, [Span(0, 75), Span(60, 135), Span(120, 160)], "s", "d1")
         == [Chunk("d1#1", "s", Join(words[0..75])),
             Chunk("d1#2", "s", Join(words[60..135])),
             Chunk("d1#3", "s", Join(words[120..160]))]
  {
    ChunkIdsD1();
    var spans := [Span(0, 75), Span(60, 135), Span(120, 160)];
    var l := Label(words, spans, "s", "d1");
    assert l[0] == Chunk("d1#1", "s", Join(words[0..75]));
    assert l[1] == Chunk("d1#2", "s", Join(words[60..135]));
    assert l[2] == Chunk("d1#3", "s", Join(words[120..160]));
  }

  /** `TextChunker(chunk_size=100, overlap=20)` works with 75-word windows
      overlapping by 15 words; 160 words give the windows w1..w75, w61..w135
      and w121..w160, labelled d1#1, d1#2 and d1#3. */
  lemma Example160Words(text: string)
    requires |Split(text)| == 160
    ensures ScaleTokens(100) == 75 && ScaleTokens(20) == 15
    ensures |Words(text)| == 160
    ensures Chunks(75, 15, text, "s", "d1")
         == [Chunk("d1#1", "s", Join(Words(text)[0..75])),
             Chunk("d1#2", "s", Join(Words(text)[60..135])),
             Chunk("d1#3", "s", Join(Words(text)[120..160]))]
  {
    CleanTextWordCount(text);
    ChunksAreWindows(75, 15, text, "s", "d1");
    Spans160();
    Label160(Words(text));
  }

  /** `chunk_text("", "src", "id")` and `chunk_text("   \n\t ", "src", "id")` are both empty. */
  lemma ExampleBlank(w: nat, o: nat)
    requires o < w
    ensures Chunks(w, o, "", "src", "id") == []
    ensures Chunks(w, o, "   \n\t ", "src", "id") == []
  {
    var s := "   \n\t ";
    assert AllSpace(s) by {
      forall i | 0 <= i < |s| ensures IsSpace(s[i]) {
        assert s[i] == ' ' || s[i] == '\n' || s[i] == '\t';
      }
    }
    NoChunksIffBlank(w, o, s, "src", "id");
  }

  /** Text whose only whitespace is one plain space at `k` is single-spaced. */
  lemma LoneSpace(s: string, k: nat)
    requires forall i :: 0 <= i < |s| ==> (IsSpace(s[i]) ==> i == k && s[i] == ' ')
    ensures SingleSpaced(s)
  {
    forall i: nat | i + 1 < |s| ensures !DoubleSpaceAt(s, i) {
    }
  }

  /** Quote normalisation of `s` is `t` when it is character by character. */
  lemma NormalizeQuotesTo(s: string, t: string)
    requires |s| == |t| && forall i :: 0 <= i < |s| ==> PlainQuote(s[i]) == t[i]
    ensures NormalizeQuotes(s) == t
  {
    var r := NormalizeQuotes(s);
    forall i | 0 <= i < |r| ensures r[i] == t[i] {
    }
  }

  lemma QuoteSample(s: string, t: string)
    requires s == "\U{201C}Hi\U{201D} it\U{2019}s" && t == "\"Hi\" it's"
    ensures |s| == |t|
    ensures forall i :: 0 <= i < |s| ==> (IsSpace(s[i]) ==> i == 4 && s[i] == ' ')
    ensures forall i :: 0 <= i < |s| ==> PlainQuote(s[i]) == t[i]
  {
    forall i | 0 <= i < |s| ensures (IsSpace(s[i]) ==> i == 4 && s[i] == ' ') && PlainQuote(s[i]) == t[i] {
      if i == 0 {
        assert s[i] == '\U{201C}' && t[i] == '"';
      } else if i == 1 {
        assert s[i] == 'H' && t[i] == 'H';
      } else if i == 2 {
        assert s[i] == 'i' && t[i] == 'i';
      } else if i == 3 {
        assert s[i] == '\U{201D}' && t[i] == '"';
      } else if i == 4 {
        assert s[i] == ' ' && t[i] == ' ';
      } else if i == 5 {
        assert s[i] == 'i' && t[i] == 'i';
      } else if i == 6 {
        assert s[i] == 't' && t[i] == 't';
      } else if i == 7 {
        assert s[i] == '\U{2019}' && t[i] == '\'';
      } else {
        assert s[i] == 's' && t[i] == 's';
      }
    }
  }

  /** Curly quotes become plain ASCII quotes. */
  lemma ExampleQuotes()
    ensures CleanText("\U{201C}Hi\U{201D} it\U{2019}s") == "\"Hi\" it's"
  {
    var s := "\U{201C}Hi\U{201D} it\U{2019}s";
    QuoteSample(s, "\"Hi\" it's");
    LoneSpace(s, 4);
    CollapseOfSingleSpaced(s);
    StripOfTrimmed(s);
    NormalizeQuotesTo(s, "\"Hi\" it's");
  }
}
