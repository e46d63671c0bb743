/**
  The word-window chunker `TextChunker`: text normalisation (`_clean_text`),
  the sliding window of `chunk_text` and the batch `chunk_documents`.

  The functions in this module say what each operation computes; the class
  holds the configuration fixed at construction and runs the operations the
  way the Python code does, with loops, each proved equal to its function.
 */
module Chunker {
  import opened Strings
  import opened Decimal

  /** One output record, the dictionary `{'chunk_id', 'source', 'text'}`. */
  datatype Chunk = Chunk(chunkId: string, source: string, text: string)

  /** An input document: a dictionary that may hold `text`, `source` and `chunk_id`. */
  type Document = map<string, string>

  /** The window `words[lo:hi]`. */
  datatype Span = Span(lo: nat, hi: nat)

  /** `int(x * 0.75)`: three quarters of `x`, truncated toward zero. */
  function ScaleTokens(x: int): (r: int)
    ensures 0 <= x ==> 0 <= r && 4 * r <= 3 * x < 4 * r + 4
    ensures x < 0 ==> r <= 0 && 4 * r - 4 < 3 * x <= 4 * r
  {
    if x >= 0 then 3 * x / 4 else -(3 * -x / 4)
  }

  // ---------------------------------------------------------------------
  // _clean_text

  const LeftDoubleQuote: char := '\U{201C}'
  const RightDoubleQuote: char := '\U{201D}'
  const LeftSingleQuote: char := '\U{2018}'
  const RightSingleQuote: char := '\U{2019}'

  predicate IsCurlyQuote(c: char) {
    c == LeftDoubleQuote || c == RightDoubleQuote || c == LeftSingleQuote || c == RightSingleQuote
  }

  /** The plain quote a character stands for: curly double quotes become `"`,
      curly single quotes become `'`, everything else is kept. */
  function PlainQuote(c: char): char {
    if c == LeftDoubleQuote || c == RightDoubleQuote then '"'
    else if c == LeftSingleQuote || c == RightSingleQuote then '\''
    else c
  }

  /** The four chained `replace` calls that normalise quotes. */
  function NormalizeQuotes(s: string): (r: string)
    ensures |r| == |s|
    ensures forall i :: 0 <= i < |s| ==> r[i] == PlainQuote(s[i])
    ensures forall i :: 0 <= i < |r| ==> !IsCurlyQuote(r[i])
  {
    var a := Replace(s, LeftDoubleQuote, '"');
    var b := Replace(a, RightDoubleQuote, '"');
    var c := Replace(b, LeftSingleQuote, '\'');
    Replace(c, RightSingleQuote, '\'')
  }

  /** `_clean_text`: collapse whitespace runs to one space, strip, normalise quotes. */
  function CleanText(text: string): string {
    NormalizeQuotes(Strip(CollapseSpaces(text)))
  }

  // ---------------------------------------------------------------------
  // chunk_text

  /** The identifier `f"{base}#{n}"`. */
  function ChunkId(base: string, n: nat): string {
    base + "#" + NatToString(n)
  }

  /** The windows the loop of `chunk_text` visits over `n` words from word `start`:
      each ends at `min(start + w, n)`, and the next starts `o` words before that
      end, until a window reaches `n`. */
  function Spans(n: nat, start: nat, w: nat, o: nat): (r: seq<Span>)
    requires o < w
    ensures forall i :: 0 <= i < |r| ==> start <= r[i].lo < r[i].hi <= n && r[i].hi - r[i].lo <= w
    decreases n - start
  {
    if start >= n then []
    else
      var end := Min(start + w, n);
      [Span(start, end)] + (if end >= n then [] else Spans(n, end - o, w, o))
  }

  /** Every window lies within `n` words. */
  predicate InBounds(spans: seq<Span>, n: nat) {
    forall i :: 0 <= i < |spans| ==> spans[i].lo <= spans[i].hi <= n
  }

  /** One turn of the loop: the window at `start`, which ends at `end`, is
      visited next, then the loop stops or goes on from `o` words before `end`. */
  lemma SpansStep(n: nat, start: nat, end: nat, w: nat, o: nat, visited: seq<Span>, next: seq<Span>, all: seq<Span>)
    requires o < w && start < n && end == Min(start + w, n)
    requires visited + Spans(n, start, w, o) == all
    requires InBounds(visited, n)
    requires next == visited + [Span(start, end)]
    ensures InBounds(next, n)
    ensures end >= n ==> next == all
    ensures end < n ==> next + Spans(n, end - o, w, o) == all
  {
    assert forall i :: 0 <= i < |visited| ==> next[i] == visited[i];
    if end < n {
      assert Spans(n, start, w, o) == [Span(start, end)] + Spans(n, end - o, w, o);
      assert visited + [Span(start, end)] + Spans(n, end - o, w, o) == visited + ([Span(start, end)] + Spans(n, end - o, w, o));
    } else {
      assert Spans(n, start, w, o) == [Span(start, end)];
    }
  }

  /** The chunk records for windows over `words`, numbered 1, 2, ... */
  function Label(words: seq<string>, spans: seq<Span>, source: string, base: string): seq<Chunk>
    requires InBounds(spans, |words|)
  {
    seq(|spans|, i requires 0 <= i < |spans| =>
      Chunk(ChunkId(base, i + 1), source, Join(words[spans[i].lo..spans[i].hi])))
  }

  /** Labelling one more window appends one more record. */
  lemma LabelSnoc(words: seq<string>, spans: seq<Span>, sp: Span, next: seq<Span>, source: string, base: string,
                  chunks: seq<Chunk>, chunk: Chunk)
    requires InBounds(spans, |words|) && next == spans + [sp] && InBounds(next, |words|)
    requires sp.lo <= sp.hi <= |words|
    requires chunks == Label(words, spans, source, base)
    requires chunk == Chunk(ChunkId(base, |spans| + 1), source, Join(words[sp.lo..sp.hi]))
    ensures Label(words, next, source, base) == chunks + [chunk]
  {
    var a := Label(words, next, source, base);
    var b := chunks + [chunk];
    assert |a| == |b|;
    forall i | 0 <= i < |a| ensures a[i] == b[i] {
      if i < |spans| {
        assert next[i] == spans[i];
      }
    }
  }

  /** Where the loop of `chunk_text` stands: it has visited the windows
      `visited`, made `chunks` from them, and goes on with the windows from
      `start`, the next of which gets number `num`. */
  ghost predicate Progress(words: seq<string>, w: nat, o: nat, start: nat, num: nat, visited: seq<Span>,
                           all: seq<Span>, chunks: seq<Chunk>, source: string, base: string)
  {
    && o < w
    && start <= |words|
    && visited + Spans(|words|, start, w, o) == all
    && num == |visited| + 1
    && InBounds(visited, |words|)
    && chunks == Label(words, visited, source, base)
  }

  lemma ProgressStart(words: seq<string>, w: nat, o: nat, source: string, base: string)
    requires o < w
    ensures Progress(words, w, o, 0, 1, [], Spans(|words|, 0, w, o), [], source, base)
  {
    assert [] + Spans(|words|, 0, w, o) == Spans(|words|, 0, w, o);
  }

  /** One turn of the loop: the chunk of the window from `start` to `end` is
      the last one, or the loop goes on from `o` words before `end`. */
  lemma WindowStep(words: seq<string>, w: nat, o: nat, start: nat, num: nat, visited: seq<Span>,
                   all: seq<Span>, chunks: seq<Chunk>, source: string, base: string, end: nat, chunk: Chunk)
    requires Progress(words, w, o, start, num, visited, all, chunks, source, base)
    requires start < |words| && end == Min(start + w, |words|)
    requires chunk == Chunk(ChunkId(base, num), source, Join(words[start..end]))
    ensures end >= |words| ==> InBounds(all, |words|) && chunks + [chunk] == Label(words, all, source, base)
    ensures end < |words| ==>
      (start < end - o &&
       Progress(words, w, o, end - o, num + 1, visited + [Span(start, end)], all, chunks + [chunk], source, base))
  {
    var next := visited + [Span(start, end)];
    SpansStep(|words|, start, end, w, o, visited, next, all);
    LabelSnoc(words, visited, Span(start, end), next, source, base, chunks, chunk);
  }

  /** When no window is left, the chunks are those of all the windows. */
  lemma ProgressDone(words: seq<string>, w: nat, o: nat, start: nat, num: nat, visited: seq<Span>,
                     all: seq<Span>, chunks: seq<Chunk>, source: string, base: string)
    requires Progress(words, w, o, start, num, visited, all, chunks, source, base)
    requires start >= |words|
    ensures InBounds(all, |words|) && chunks == Label(words, all, source, base)
  {
    assert visited + [] == visited;
  }

  /** What `chunk_text(text, source, base)` returns when the window is `w` words
      long and consecutive windows share `o` words. */
  function Chunks(w: nat, o: nat, text: string, source: string, base: string): seq<Chunk>
    requires o < w
  {
    if text == [] || Strip(text) == [] then []
    else
      var cleaned := CleanText(text);
      var words := Split(cleaned);
      if |words| <= w then [Chunk(ChunkId(base, 1), source, cleaned)]
      else Label(words, Spans(|words|, 0, w, o), source, base)
  }

  // ---------------------------------------------------------------------
  // chunk_documents

  /** `doc.get(key, default)`. */
  function Get(doc: Document, key: string, default: string): string {
    if key in doc then doc[key] else default
  }

  /** The chunks of one document, with the defaults for missing keys. */
  function DocumentChunks(w: nat, o: nat, doc: Document): seq<Chunk>
    requires o < w
  {
    Chunks(w, o, Get(doc, "text", ""), Get(doc, "source", "unknown"), Get(doc, "chunk_id", "doc"))
  }

  /** What `chunk_documents(documents)` returns. */
  function BatchChunks(w: nat, o: nat, docs: seq<Document>): seq<Chunk>
    requires o < w
  {
    if docs == [] then []
    else BatchChunks(w, o, docs[..|docs| - 1]) + DocumentChunks(w, o, docs[|docs| - 1])
  }

  /** One turn of the loop of `chunk_documents`: the chunks of document `i`
      follow those of the documents before it. */
  lemma BatchSnoc(w: nat, o: nat, docs: seq<Document>, i: nat, acc: seq<Chunk>, chunks: seq<Chunk>)
    requires o < w && i < |docs|
    requires acc == BatchChunks(w, o, docs[..i])
    requires chunks == DocumentChunks(w, o, docs[i])
    ensures acc + chunks == BatchChunks(w, o, docs[..i + 1])
  {
    assert docs[..i + 1][..i] == docs[..i];
  }

  // ---------------------------------------------------------------------
  // the chunker object

  class TextChunker {
    /** Approximate tokens per chunk, and tokens of overlap, as configured. */
    const chunkSize: int
    const overlap: int
    /** The same two sizes in words, fixed at construction. */
    const wordsPerChunk: nat
    const overlapWords: nat

    /** The word counts are derived from the token counts and the window
        always advances (the Python code loops forever otherwise). */
    predicate Valid() {
      && wordsPerChunk == ScaleTokens(chunkSize)
      && overlapWords == ScaleTokens(overlap)
      && overlapWords < wordsPerChunk
    }

    constructor (chunkSize: int, overlap: int)
      requires 0 <= ScaleTokens(overlap) < ScaleTokens(chunkSize)
      ensures Valid()
      ensures this.chunkSize == chunkSize && this.overlap == overlap
    {
      this.chunkSize := chunkSize;
      this.overlap := overlap;
      wordsPerChunk := ScaleTokens(chunkSize);
      overlapWords := ScaleTokens(overlap);
    }

    /** `chunk_text`: split `text` into overlapping windows of words. */
    method ChunkText(text: string, source: string, baseChunkId: string) returns (chunks: seq<Chunk>)
      requires Valid()
      ensures chunks == Chunks(wordsPerChunk, overlapWords, text, source, baseChunkId)
    {
      if text == [] || Strip(text) == [] {
        return [];
      }
      var cleanedText := CleanText(text);
      var words := Split(cleanedText);
      if |words| <= wordsPerChunk {
        return [Chunk(ChunkId(baseChunkId, 1), source, cleanedText)];
      }

      chunks := SlidingWindow(words, source, baseChunkId);
    }

    /** The `while` loop of `chunk_text` over the words of the cleaned text:
        one chunk per window, numbered from 1. */
    method SlidingWindow(words: seq<string>, source: string, baseChunkId: string) returns (chunks: seq<Chunk>)
      requires Valid()
      ensures chunks == Label(words, Spans(|words|, 0, wordsPerChunk, overlapWords), source, baseChunkId)
    {
      var w, o := wordsPerChunk, overlapWords;
      chunks := [];
      var startIdx: nat := 0;
      var chunkNum: nat := 1;
      ghost var visited: seq<Span> := [];
      ghost var all := Spans(|words|, 0, w, o);
      ProgressStart(words, w, o, source, baseChunkId);
      while startIdx < |words|
        invariant Progress(words, w, o, startIdx, chunkNum, visited, all, chunks, source, baseChunkId)
        decreases |words| - startIdx
      {
        var endIdx: nat := Min(startIdx + w, |words|);
        var chunkWords := words[startIdx..endIdx];
        var chunk := Chunk(ChunkId(baseChunkId, chunkNum), source, Join(chunkWords));
        WindowStep(words, w, o, startIdx, chunkNum, visited, all, chunks, source, baseChunkId, endIdx, chunk);
        chunks := chunks + [chunk];
        visited := visited + [Span(startIdx, endIdx)];
        if endIdx >= |words| {
          break;
        }
        startIdx := endIdx - o;
        chunkNum := chunkNum + 1;
      }
      if startIdx >= |words| {
        ProgressDone(words, w, o, startIdx, chunkNum, visited, all, chunks, source, baseChunkId);
      }
    }

    /** `chunk_documents`: the chunks of every document, in order. */
    method ChunkDocuments(documents: seq<Document>) returns (allChunks: seq<Chunk>)
      requires Valid()
      ensures allChunks == BatchChunks(wordsPerChunk, overlapWords, documents)
    {
      allChunks := [];
      for i := 0 to |documents|
        invariant allChunks == BatchChunks(wordsPerChunk, overlapWords, documents[..i])
      {
        var doc := documents[i];
        var text := Get(doc, "text", "");
        var source := Get(doc, "source", "unknown");
        var baseChunkId := Get(doc, "chunk_id", "doc");
        var chunks := ChunkText(text, source, baseChunkId);
        BatchSnoc(wordsPerChunk, overlapWords, documents, i, allChunks, chunks);
        allChunks := allChunks + chunks;
      }
      assert documents[..|documents|] == documents;
    }
  }
}
