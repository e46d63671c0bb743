# Word-window text chunker, modelled in Dafny

This project models `TextChunker` from `app/services/chunker.py`, the part of
the retrieval service that cuts documents into chunks before indexing. A
chunker is built with a chunk size and an overlap counted in "tokens". It
turns both into word counts: three quarters of the token count, truncated.
It then offers three operations:

- `_clean_text` collapses every run of whitespace to one space, trims both
  ends and turns curly quotes into plain ASCII quotes.
- `chunk_text` handles one text:
  - empty or blank text gives no chunks;
  - text of at most `words_per_chunk` words gives one chunk, with id
    `base#1`, holding the cleaned text;
  - other text is cut into windows of `words_per_chunk` words. Each window
    starts `overlap_words` words before the previous one ended, and each
    chunk is labelled `base#1`, `base#2`, and so on.
- `chunk_documents` chunks a list of documents in order and concatenates the
  results. Missing keys default to `''`, `'unknown'` and `'doc'`.

The Dafny files are:

- `strings.dfy` (module `Strings`) holds the Python `str` operations the
  chunker uses, on `seq<char>`:
  - whitespace as `str.isspace` defines it, which is also the class `\s` of
    `re` on a `str`;
  - `strip`, `split()`, `' '.join`, single-character `replace` and
    `re.sub(r'\s+', ' ', s)`;
  - the lemmas that relate these operations to each other.
- `decimal.dfy` (module `Decimal`) renders a chunk number in decimal, as
  `f"{n}"` does, and parses it back.
- `chunker.dfy` (module `Chunker`) holds:
  - the specification functions `CleanText`, `Spans` (the windows the loop
    visits), `Label`, `Chunks`, `DocumentChunks` and `BatchChunks`;
  - the class `TextChunker`. Its fields are fixed at construction. Its
    methods `ChunkText`, `SlidingWindow` and `ChunkDocuments` run the Python
    loops and are each proved equal to their function.
- `chunker_properties.dfy` (module `ChunkerProperties`) proves what the
  chunker promises about those functions:
  - the shape and idempotence of cleaned text;
  - the geometry of the windows: they start at 0, reach the end, advance,
    overlap, cover every word and are bounded in number;
  - the chunk records and how they reassemble into the text;
  - the independence of documents in a batch;
  - the worked examples.

## Model

| member | source | states |
|---|---|---|
| Chunker.ScaleTokens | app/services/chunker.py:33-34 | `int(x * 0.75)`: for `x >= 0` the result `r` satisfies `4r <= 3x < 4r + 4`, which is the floor of three quarters of `x`; for negative `x` it truncates toward zero. |
| Chunker.TextChunker.constructor | app/services/chunker.py:21-34 | Stores both token counts and derives the word counts from them. Establishes `Valid()`: the derived counts are fixed, and the overlap is smaller than the window. |
| Chunker.NormalizeQuotes | app/services/chunker.py:111-113 | Keeps the length. Every character becomes its plain quote: curly double quotes become `"`, curly single quotes become `'`, everything else is kept. No curly quote is left. |
| Chunker.Spans | app/services/chunker.py:65-90 | The windows the loop visits from `start`. Each lies in `start..n`, is non-empty and is at most `w` words wide. |
| Chunker.SpansStep | app/services/chunker.py:71-90 | One turn of the loop: after the window `[start, end)` the loop is done when `end >= n`, and otherwise it goes on with the windows from `end - o`. |
| Chunker.TextChunker.ChunkText | app/services/chunker.py:38-93 | `chunk_text` returns exactly `Chunks(words_per_chunk, overlap_words, text, source, base)`. |
| Chunker.TextChunker.SlidingWindow | app/services/chunker.py:65-90 | The `while` loop gives one record per window of `Spans`, numbered from 1, each holding the join of its words. It is proved with loop invariants and terminates on `len(words) - start_idx`. |
| Chunker.WindowStep | app/services/chunker.py:69-90 | The loop invariant is preserved by one iteration. The start strictly increases, and on `break` the records are the labelled windows. |
| Chunker.BatchSnoc | app/services/chunker.py:127-135 | One turn of the `for` loop: the chunks of document `i` follow those of the documents before it. |
| Chunker.TextChunker.ChunkDocuments | app/services/chunker.py:117-138 | `chunk_documents` returns exactly `BatchChunks(words_per_chunk, overlap_words, documents)`. |
| Strings.Split | app/services/chunker.py:55 | `split()` returns only words: each is non-empty and holds no whitespace. |
| Strings.Replace | app/services/chunker.py:112-113 | `replace` of one character keeps the length and substitutes exactly at the positions of the target. |
| Strings.StripShape | app/services/chunker.py:109 | `strip()` is the part of the text between its leading and trailing whitespace, and it has no whitespace at either end. |
| Strings.StripEmptyIffAllSpace | app/services/chunker.py:50 | `text.strip()` is empty exactly when the text is all whitespace. |
| Strings.CollapseSingleSpaced | app/services/chunker.py:106 | The output of `re.sub(r'\s+', ' ', s)` has only plain spaces as whitespace, and never two together. |
| Strings.CollapseOfSingleSpaced | app/services/chunker.py:106 | The substitution leaves single-spaced text unchanged. |
| Strings.SplitCollapse | app/services/chunker.py:106 | Collapsing whitespace runs does not change the words `split()` finds. |
| Strings.SplitStrip | app/services/chunker.py:109 | `strip()` does not change the words. |
| Strings.SplitReplace | app/services/chunker.py:112-113 | Replacing a non-space character by another replaces it inside each word and keeps the word boundaries. |
| Strings.SplitEmptyIffAllSpace | app/services/chunker.py:55 | `split()` is empty exactly when the text is all whitespace. |
| Strings.SplitJoin | app/services/chunker.py:74-75 | Splitting the `' '.join` of words gives back those words. |
| Strings.JoinSplit | app/services/chunker.py:55-62 | On trimmed, single-spaced text, joining the words of `split()` with single spaces gives the text back. |
| Decimal.NatToString | app/services/chunker.py:79 | `f"{n}"` is canonical decimal: digits only, with no leading zero unless `n == 0`. |
| Decimal.ParseNatToString | app/services/chunker.py:79 | Reading the decimal text back gives `n`. |
| Decimal.NatToStringParse | app/services/chunker.py:79 | Rendering the value of canonical decimal text gives that text back. |
| Decimal.NatToStringInjective | app/services/chunker.py:79 | Different chunk numbers are written differently. |
| ChunkerProperties.PlainQuoteKeepsSpaces | app/services/chunker.py:112-113 | Quote mapping neither creates nor removes whitespace. |
| ChunkerProperties.CleanTextShape | app/services/chunker.py:106-113 | Cleaned text is trimmed. Its only whitespace is single plain spaces, and it holds no curly quotes. |
| ChunkerProperties.SplitNormalizeQuotes | app/services/chunker.py:112-113 | Normalising quotes normalises each word and keeps the word boundaries. |
| ChunkerProperties.CleanTextWords | app/services/chunker.py:106-113 | The words of the cleaned text are the words of the input, in order, with their quotes normalised. |
| ChunkerProperties.CleanTextWordCount | app/services/chunker.py:54-57 | Cleaning keeps the number of words. |
| ChunkerProperties.NormalizeQuotesOfPlain | app/services/chunker.py:112-113 | Text without curly quotes is unchanged by quote normalisation. |
| ChunkerProperties.CleanTextOfClean | app/services/chunker.py:95-115 | Text that is trimmed, single-spaced and free of curly quotes is unchanged by cleaning. |
| ChunkerProperties.CleanTextIdempotent | app/services/chunker.py:95-115 | Cleaning twice gives the same result as cleaning once. |
| ChunkerProperties.BlankIffNoWords | app/services/chunker.py:50-55 | The guard `not text or not text.strip()` holds exactly when the text is all whitespace. That is exactly when `split()` is empty, before or after cleaning, and exactly when the cleaned text is empty. |
| ChunkerProperties.SpansEnds | app/services/chunker.py:66-87 | There are windows exactly when `start < n`. The first window starts at `start` and the last one ends at `n`. |
| ChunkerProperties.SpansWidths | app/services/chunker.py:71 | Every window ends at `min(lo + w, n)`. |
| ChunkerProperties.SpansAdvance | app/services/chunker.py:86-89 | Every window but the last ends before the text does, and the next window starts `o` words before that end. |
| ChunkerProperties.SpansOverlap | app/services/chunker.py:71-89 | Consecutive windows share exactly `o` words, and every window but the last is `w` words wide. |
| ChunkerProperties.SpansIncrease | app/services/chunker.py:69-90 | Later windows start and end strictly after earlier ones. |
| ChunkerProperties.SpansCover | app/services/chunker.py:69-90 | Every word position from `start` to `n` lies in some window. |
| ChunkerProperties.SpansCount | app/services/chunker.py:69-90 | `(windows - 1) * (w - o) < n - start`, so there are at most `ceil((n - start) / (w - o))` windows. |
| ChunkerProperties.StitchSpans | app/services/chunker.py:69-90 | Cutting the overlap off every window but the last, and concatenating, gives the words from `start` on, each exactly once. |
| ChunkerProperties.ChunksAreWindows | app/services/chunker.py:50-90 | In every branch of `chunk_text`, the result is the labelled windows of `Spans` over the cleaned words. This holds in the single-chunk branch too. |
| ChunkerProperties.NoChunksIffBlank | app/services/chunker.py:50-51 | `chunk_text` returns no chunks exactly when the text is empty or all whitespace. |
| ChunkerProperties.SingleChunk | app/services/chunker.py:57-63 | Non-blank text of at most `w` words gives exactly one chunk: `base#1`, with the given source and the cleaned text. |
| ChunkerProperties.ChunkRecords | app/services/chunker.py:65-90 | There is one chunk per window, and their number `k` satisfies `(k - 1) * (w - o) < len(words)`. Chunk `i` has id `base#(i+1)`, the given source, and the join of window `i`'s words as its text. |
| ChunkerProperties.LabelWords | app/services/chunker.py:74-75 | Splitting a record's text gives back exactly the words of its window. |
| ChunkerProperties.ChunkWords | app/services/chunker.py:71-75 | Splitting chunk `i`'s text gives back its window of words: between 1 and `w` words. |
| ChunkerProperties.ChunkIdInjective | app/services/chunker.py:79 | `f"{base}#{m}" == f"{base}#{n}"` only when `m == n`. |
| ChunkerProperties.ChunkIdsDistinct | app/services/chunker.py:67-90 | No two chunks of one text share an id. |
| ChunkerProperties.SeamWords | app/services/chunker.py:74-89 | Two windows `o` words apart hold the same `o` words at their seam. |
| ChunkerProperties.ChunksOverlap | app/services/chunker.py:71-89 | Every chunk but the last is `w` words long. Its last `o` words are the first `o` words of the next chunk. |
| ChunkerProperties.ChunksReassemble | app/services/chunker.py:65-90 | Concatenating the chunks' words, minus the `o` words each repeats from the one before, gives exactly the cleaned text's words. |
| ChunkerProperties.BatchAppend | app/services/chunker.py:127-135 | The chunks of two batches in sequence are the chunks of the first followed by those of the second. |
| ChunkerProperties.BatchIndependent | app/services/chunker.py:127-135 | Document `j`'s chunks appear between those of the documents before and after it. They are exactly what chunking that document alone gives. |
| ChunkerProperties.DocumentDefaults | app/services/chunker.py:130-132 | A missing `text` gives no chunks. A missing `source` gives source `unknown`. A missing `chunk_id` numbers the chunks `doc#1`, `doc#2`, and so on. |
| ChunkerProperties.Spans160 | app/services/chunker.py:69-90 | With 160 words, windows of 75 and overlap 15, the windows are `[0,75)`, `[60,135)` and `[120,160)`. |
| ChunkerProperties.Example160Words | app/services/chunker.py:57-90 | Sizes 100 and 20 give 75 and 15 words. Any 160-word text then gives exactly the chunks `d1#1` (w1..w75), `d1#2` (w61..w135) and `d1#3` (w121..w160). |
| ChunkerProperties.ExampleBlank | app/services/chunker.py:50-51 | `""` and `"   \n\t "` give no chunks. |
| ChunkerProperties.ExampleQuotes | app/services/chunker.py:106-113 | The cleaned form of `“Hi” it’s` is `"Hi" it's`. |

## Left out

- `main.py` is not part of this model. It is the web application, its cross-origin settings and its greeting endpoints, and it holds no chunking logic.
- Chunker.TextChunker.constructor: the `x or settings.x` fallback to the configured defaults is not modelled. The settings module is not part of this model, so the constructor takes the two sizes as given.
- Chunker.TextChunker.constructor: it requires `0 <= overlap_words < words_per_chunk`. The Python constructor checks nothing. With a bigger overlap the loop of `chunk_text` never ends, and with a negative one it skips words, so the model admits only the configurations for which `chunk_text` is a terminating function. No configuration error is raised; the model follows the code here, which validates nothing.
- Chunker.ScaleTokens: computes `int(x * 0.75)` exactly. Floating-point rounding is not modelled. `0.75` is exact in binary, so the float product is exact for any count below 2^51.
- Chunker.NormalizeQuotes: the quote literals in lines 112-113 are damaged in the file as it stands. Line 112 replaces `"` by `"`, and the `'''` in line 113 opens a triple-quoted string. The model follows the comment: left and right curly double quotes become `"`, and left and right curly single quotes become `'`.
- The `re` engine is not modelled. Whitespace is the character set of Python's `str.isspace`, which is also what `\s` matches on a `str`.
- Logging (`logger.info` in lines 36, 92 and 137) is left out, because it has no effect on results.
- The module-level `settings` and the global instance `chunker = TextChunker()` are left out, because they read the environment.
- `DEFAULT_DOCUMENTS` is fixture data and is not modelled as behaviour.
- A document is a `map<string, string>`. A key present with a value that is not a string (such as `None`) is not modelled.
- Chunk dictionaries are the datatype `Chunk(chunkId, source, text)`. Key order and the Python `dict` type are not modelled.
- Chunker.TextChunker.SlidingWindow: the `while` loop of `chunk_text` is its own method, called by `ChunkText`, so that its invariant can be stated on its own. The statements are the same as in the source.
