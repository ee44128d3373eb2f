/**
 * The word-window chunker `chunk_text`, which the website and the PDF
 * pipelines define identically, and the per-chunk embedding loop both
 * pipelines run. The embedding model is an uninterpreted function `encode`.
 *
 * The windows are described once over any element type (`WindowsFrom`);
 * the chunks are the windows of the text's words, each joined by single
 * spaces.
 */
module Chunking {
  import opened Text

  /** Default window size, in words. */
  const ChunkSize: nat := 500
  /** Default number of words shared by consecutive windows. */
  const Overlap: nat := 50

  function Min(a: nat, b: nat): nat {
    if a <= b then a else b
  }

  predicate AllWords(words: seq<string>) {
    forall w :: w in words ==> IsWord(w)
  }

  /**
   * The windows the loop `for i in range(start, len(xs), stride)` takes from
   * position `i` on: `xs[i:i + size]` for each i.
   */
  function WindowsFrom<T>(xs: seq<T>, i: nat, size: nat, stride: nat): (ws: seq<seq<T>>)
    requires 0 < stride
    ensures (|ws| == 0) == (|xs| <= i)
    decreases |xs| - i
  {
    if |xs| <= i then []
    else [xs[i..Min(i + size, |xs|)]] + WindowsFrom(xs, i + stride, size, stride)
  }

  /** All the windows: the loop started at 0. */
  function Windows<T>(xs: seq<T>, size: nat, stride: nat): seq<seq<T>>
    requires 0 < stride
  {
    WindowsFrom(xs, 0, size, stride)
  }

  /** Each window joined by single spaces. */
  function JoinEach(windows: seq<seq<string>>): (chunks: seq<string>)
    ensures |chunks| == |windows|
  {
    if windows == [] then [] else [Join(windows[0])] + JoinEach(windows[1..])
  }

  /** What `chunk_text` returns, given the words its text splits into. */
  function Chunks(words: seq<string>, chunkSize: nat, overlap: nat): seq<string>
    requires overlap < chunkSize
  {
    JoinEach(Windows(words, chunkSize, chunkSize - overlap))
  }

  /** ceil(n / d), counted in steps of d: the length of `range(0, n, d)`. */
  function CeilDiv(n: nat, d: nat): nat
    requires 0 < d
    decreases n
  {
    if n == 0 then 0 else if n <= d then 1 else 1 + CeilDiv(n - d, d)
  }

  /** The k-th value of `range(0, n, stride)`: where window k starts. */
  function Start(k: nat, stride: nat): nat {
    if k == 0 then 0 else Start(k - 1, stride) + stride
  }

  /** Chunk k is window k joined. */
  lemma {:induction false} JoinEachAt(windows: seq<seq<string>>, k: nat)
    requires k < |windows|
    ensures JoinEach(windows)[k] == Join(windows[k])
  {
    if k > 0 {
      JoinEachAt(windows[1..], k - 1);
    }
  }

  /** Joining one more window appends one more chunk. */
  lemma {:induction false} JoinEachSnoc(windows: seq<seq<string>>, w: seq<string>)
    ensures JoinEach(windows + [w]) == JoinEach(windows) + [Join(w)]
  {
    if windows == [] {
      assert windows + [w] == [w];
    } else {
      assert (windows + [w])[1..] == windows[1..] + [w];
      JoinEachSnoc(windows[1..], w);
    }
  }

  lemma MulStep(k: nat, stride: nat)
    requires 0 < k
    ensures k * stride == (k - 1) * stride + stride
    ensures 0 <= (k - 1) * stride
  {
  }

  /** Window k starts at k * stride. */
  lemma {:induction false} StartIsProduct(k: nat, stride: nat)
    ensures Start(k, stride) == k * stride
  {
    if k > 0 {
      StartIsProduct(k - 1, stride);
      MulStep(k, stride);
    }
  }

  /** Every window is non-empty, holds at most `size` elements, all taken from the input. */
  lemma {:induction false} WindowShape<T>(xs: seq<T>, i: nat, size: nat, stride: nat, k: nat)
    requires 0 < stride && 0 < size
    requires k < |WindowsFrom(xs, i, size, stride)|
    ensures WindowsFrom(xs, i, size, stride)[k] != []
    ensures |WindowsFrom(xs, i, size, stride)[k]| <= size
    ensures forall x :: x in WindowsFrom(xs, i, size, stride)[k] ==> x in xs
    decreases |xs| - i
  {
    var ws := WindowsFrom(xs, i, size, stride);
    var w := xs[i..Min(i + size, |xs|)];
    assert ws == [w] + WindowsFrom(xs, i + stride, size, stride);
    if k > 0 {
      assert ws[k] == WindowsFrom(xs, i + stride, size, stride)[k - 1];
      WindowShape(xs, i + stride, size, stride, k - 1);
    } else {
      forall x | x in w ensures x in xs {
        var m :| 0 <= m < |w| && w[m] == x;
        assert xs[i + m] == x;
      }
    }
  }

  /** Window k from position i is xs[i + Start(k) .. i + Start(k) + size), cut at the end. */
  lemma {:induction false} WindowAt<T>(xs: seq<T>, i: nat, size: nat, stride: nat, k: nat)
    requires 0 < stride && i + Start(k, stride) < |xs|
    ensures k < |WindowsFrom(xs, i, size, stride)|
    ensures WindowsFrom(xs, i, size, stride)[k]
      == xs[i + Start(k, stride)..Min(i + Start(k, stride) + size, |xs|)]
    decreases k
  {
    var ws := WindowsFrom(xs, i, size, stride);
    assert ws == [xs[i..Min(i + size, |xs|)]] + WindowsFrom(xs, i + stride, size, stride);
    if k > 0 {
      assert i + Start(k, stride) == i + stride + Start(k - 1, stride);
      WindowAt(xs, i + stride, size, stride, k - 1);
      assert ws[k] == WindowsFrom(xs, i + stride, size, stride)[k - 1];
    }
  }

  /** From position i there are ceil((n - i) / stride) windows: one per loop round. */
  lemma {:induction false} WindowCount<T>(xs: seq<T>, i: nat, size: nat, stride: nat)
    requires 0 < stride && i <= |xs|
    ensures |WindowsFrom(xs, i, size, stride)| == CeilDiv(|xs| - i, stride)
    decreases |xs| - i
  {
    if i < |xs| {
      var ws := WindowsFrom(xs, i, size, stride);
      assert ws == [xs[i..Min(i + size, |xs|)]] + WindowsFrom(xs, i + stride, size, stride);
      if |xs| - i > stride {
        WindowCount(xs, i + stride, size, stride);
      }
    }
  }

  lemma MulAtLeast(x: nat, d: nat)
    requires 1 <= x
    ensures d <= x * d
  {
    MulStep(x, d);
  }

  lemma MulDiff(a: int, b: int, d: int)
    ensures a * d - b * d == (a - b) * d
  {
  }

  /** Integer division is determined by quotient and remainder. */
  lemma DivUnique(a: nat, d: nat, q: nat, r: nat)
    requires 0 < d && r < d && a == q * d + r
    ensures a / d == q
  {
    var q', r' := a / d, a % d;
    assert a == q' * d + r' && 0 <= r' < d;
    MulDiff(q, q', d);
    MulDiff(q', q, d);
    if q' < q {
      MulAtLeast(q - q', d);
    } else if q' > q {
      MulAtLeast(q' - q, d);
    }
  }

  /** (n + 2d - 1) / d is one more than (n + d - 1) / d. */
  lemma CeilStep(n: nat, d: nat)
    requires 0 < d
    ensures (n + d + d - 1) / d == (n + d - 1) / d + 1
  {
    var q, r := (n + d - 1) / d, (n + d - 1) % d;
    MulStep(q + 1, d);
    DivUnique(n + d + d - 1, d, q + 1, r);
  }

  /** (n + d - 1) / d is 0 for n = 0 and 1 for 0 < n <= d. */
  lemma CeilSmall(n: nat, d: nat)
    requires 0 < d && n <= d
    ensures (n + d - 1) / d == if n == 0 then 0 else 1
  {
    if n == 0 {
      DivUnique(d - 1, d, 0, d - 1);
    } else {
      DivUnique(n + d - 1, d, 1, n - 1);
    }
  }

  /** The step count is the ceiling of n / d. */
  lemma {:induction false} CeilDivIsCeiling(n: nat, d: nat)
    requires 0 < d
    ensures CeilDiv(n, d) == (n + d - 1) / d
    decreases n
  {
    if n <= d {
      CeilSmall(n, d);
    } else {
      CeilDivIsCeiling(n - d, d);
      CeilStep(n - d, d);
    }
  }

  /**
   * Every element from position i on lies in some window when windows
   * leave no gap (`stride <= size`); the lemma returns the index of one.
   */
  lemma {:induction false} WindowCovers<T>(xs: seq<T>, i: nat, size: nat, stride: nat, j: nat)
    returns (k: nat)
    requires 0 < stride <= size && i <= j < |xs|
    ensures k < |WindowsFrom(xs, i, size, stride)|
    ensures xs[j] in WindowsFrom(xs, i, size, stride)[k]
    decreases |xs| - i
  {
    var ws := WindowsFrom(xs, i, size, stride);
    var w := xs[i..Min(i + size, |xs|)];
    assert ws == [w] + WindowsFrom(xs, i + stride, size, stride);
    if j < i + size {
      assert w[j - i] == xs[j];
      k := 0;
    } else {
      var k' := WindowCovers(xs, i + stride, size, stride, j);
      assert ws[k' + 1] == WindowsFrom(xs, i + stride, size, stride)[k'];
      k := k' + 1;
    }
  }

  /**
   * Consecutive windows share `size - stride` elements: when window k is
   * full and window k + 1 exists, the last `size - stride` elements of
   * window k open window k + 1.
   */
  lemma WindowsOverlap<T>(xs: seq<T>, size: nat, stride: nat, k: nat)
    requires 0 < stride <= size
    requires Start(k, stride) + size <= |xs| && Start(k + 1, stride) < |xs|
    ensures k + 1 < |Windows(xs, size, stride)|
    ensures var w0, w1 := Windows(xs, size, stride)[k], Windows(xs, size, stride)[k + 1];
      |w0| == size && size - stride <= |w1| && w0[stride..] == w1[..size - stride]
  {
    var lo := Start(k, stride);
    assert Start(k + 1, stride) == lo + stride;
    var hi := Min(lo + stride + size, |xs|);
    WindowAt(xs, 0, size, stride, k);
    WindowAt(xs, 0, size, stride, k + 1);
    var w0, w1 := Windows(xs, size, stride)[k], Windows(xs, size, stride)[k + 1];
    assert w0 == xs[lo..lo + size];
    assert w1 == xs[lo + stride..hi];
    assert w0[stride..] == xs[lo + stride..lo + size];
    assert w1[..size - stride] == xs[lo + stride..lo + size];
  }

  /** A window of words, joined, is non-empty and splits back into that window. */
  lemma WindowRoundTrip(words: seq<string>, size: nat, stride: nat, k: nat)
    requires 0 < stride && 0 < size && AllWords(words)
    requires k < |Windows(words, size, stride)|
    ensures Join(Windows(words, size, stride)[k]) != ""
    ensures Words(Join(Windows(words, size, stride)[k])) == Windows(words, size, stride)[k]
  {
    var w := Windows(words, size, stride)[k];
    WindowShape(words, 0, size, stride, k);
    assert forall i :: 0 <= i < |w| ==> IsWord(w[i]) by {
      forall i | 0 <= i < |w| ensures IsWord(w[i]) { assert w[i] in words; }
    }
    JoinNonEmpty(w);
    WordsOfJoin(w);
  }

  /** The words of a text are all words in the sense of `IsWord`. */
  lemma AllWordsOfText(text: string)
    ensures AllWords(Words(text))
  {
    var ws := Words(text);
    WordsAreWords(text);
    forall w | w in ws ensures IsWord(w) {
      var i :| 0 <= i < |ws| && ws[i] == w;
    }
  }

  /**
   * Chunk k splits back into window k of the words: it is non-empty and
   * holds at most `chunkSize` words.
   */
  lemma ChunkRoundTrip(words: seq<string>, chunkSize: nat, overlap: nat, k: nat)
    requires overlap < chunkSize && AllWords(words)
    requires k < |Chunks(words, chunkSize, overlap)|
    ensures Chunks(words, chunkSize, overlap)[k] != ""
    ensures Words(Chunks(words, chunkSize, overlap)[k]) == Windows(words, chunkSize, chunkSize - overlap)[k]
    ensures |Words(Chunks(words, chunkSize, overlap)[k])| <= chunkSize
  {
    var windows := Windows(words, chunkSize, chunkSize - overlap);
    assert Chunks(words, chunkSize, overlap) == JoinEach(windows);
    JoinEachAt(windows, k);
    WindowShape(words, 0, chunkSize, chunkSize - overlap, k);
    WindowRoundTrip(words, chunkSize, chunkSize - overlap, k);
  }

  /** Window k from position i exists only while its start lies inside the input. */
  lemma {:induction false} WindowStartInRange<T>(xs: seq<T>, i: nat, size: nat, stride: nat, k: nat)
    requires 0 < stride && k < |WindowsFrom(xs, i, size, stride)|
    ensures i + Start(k, stride) < |xs|
    decreases k
  {
    var ws := WindowsFrom(xs, i, size, stride);
    assert ws == [xs[i..Min(i + size, |xs|)]] + WindowsFrom(xs, i + stride, size, stride);
    if k > 0 {
      assert i + Start(k, stride) == i + stride + Start(k - 1, stride);
      WindowStartInRange(xs, i + stride, size, stride, k - 1);
    }
  }

  /** Chunk k is window k joined: the words from `Start(k)` on, at most `chunkSize` of them. */
  lemma ChunkAtStart(words: seq<string>, chunkSize: nat, overlap: nat, k: nat)
    requires overlap < chunkSize && k < |Chunks(words, chunkSize, overlap)|
    ensures Start(k, chunkSize - overlap) < |words|
    ensures Chunks(words, chunkSize, overlap)[k]
      == Join(words[Start(k, chunkSize - overlap)..Min(Start(k, chunkSize - overlap) + chunkSize, |words|)])
  {
    var stride := chunkSize - overlap;
    var windows := Windows(words, chunkSize, stride);
    assert Chunks(words, chunkSize, overlap) == JoinEach(windows);
    JoinEachAt(windows, k);
    WindowStartInRange(words, 0, chunkSize, stride, k);
    WindowAt(words, 0, chunkSize, stride, k);
  }

  /**
   * Chunk k is the words from position k * (chunkSize - overlap) on, at most
   * `chunkSize` of them, joined by single spaces.
   */
  lemma ChunkAt(words: seq<string>, chunkSize: nat, overlap: nat, k: nat)
    requires overlap < chunkSize && k < |Chunks(words, chunkSize, overlap)|
    ensures var lo := k * (chunkSize - overlap);
      lo < |words| && Chunks(words, chunkSize, overlap)[k] == Join(words[lo..Min(lo + chunkSize, |words|)])
  {
    ChunkAtStart(words, chunkSize, overlap, k);
    StartIsProduct(k, chunkSize - overlap);
  }

  /** A text yields no chunk exactly when it is all whitespace. */
  lemma ChunksEmpty(text: string, chunkSize: nat, overlap: nat)
    requires overlap < chunkSize
    ensures Chunks(Words(text), chunkSize, overlap) == [] <==> forall i :: 0 <= i < |text| ==> IsSpace(text[i])
  {
    var words := Words(text);
    var windows := Windows(words, chunkSize, chunkSize - overlap);
    assert Chunks(words, chunkSize, overlap) == JoinEach(windows);
    assert |JoinEach(windows)| == |windows|;
    WordsEmpty(text);
  }

  /** n words give ceil(n / (chunkSize - overlap)) chunks. */
  lemma ChunkCount(words: seq<string>, chunkSize: nat, overlap: nat)
    requires overlap < chunkSize
    ensures |Chunks(words, chunkSize, overlap)| == (|words| + (chunkSize - overlap) - 1) / (chunkSize - overlap)
  {
    var stride := chunkSize - overlap;
    var windows := Windows(words, chunkSize, stride);
    assert Chunks(words, chunkSize, overlap) == JoinEach(windows);
    assert |JoinEach(windows)| == |windows|;
    WindowCount(words, 0, chunkSize, stride);
    CeilDivIsCeiling(|words|, stride);
  }

  /** Every word occurs among the words of some chunk; `k` is one such chunk. */
  lemma ChunksCoverWords(words: seq<string>, chunkSize: nat, overlap: nat, j: nat) returns (k: nat)
    requires overlap < chunkSize && AllWords(words) && j < |words|
    ensures k < |Chunks(words, chunkSize, overlap)|
    ensures words[j] in Words(Chunks(words, chunkSize, overlap)[k])
  {
    var windows := Windows(words, chunkSize, chunkSize - overlap);
    assert Chunks(words, chunkSize, overlap) == JoinEach(windows);
    k := WindowCovers(words, 0, chunkSize, chunkSize - overlap, j);
    ChunkRoundTrip(words, chunkSize, overlap, k);
  }

  /**
   * Consecutive chunks share `overlap` words: when chunk k is a full window
   * and chunk k + 1 exists, the last `overlap` words of chunk k are the
   * first `overlap` words of chunk k + 1.
   */
  lemma ChunksOverlap(words: seq<string>, chunkSize: nat, overlap: nat, k: nat)
    requires overlap < chunkSize && AllWords(words)
    requires Start(k, chunkSize - overlap) + chunkSize <= |words|
    requires Start(k + 1, chunkSize - overlap) < |words|
    ensures k + 1 < |Chunks(words, chunkSize, overlap)|
    ensures var w0, w1 := Words(Chunks(words, chunkSize, overlap)[k]), Words(Chunks(words, chunkSize, overlap)[k + 1]);
      |w0| == chunkSize && overlap <= |w1| && w0[chunkSize - overlap..] == w1[..overlap]
  {
    var stride := chunkSize - overlap;
    var windows := Windows(words, chunkSize, stride);
    assert Chunks(words, chunkSize, overlap) == JoinEach(windows);
    WindowsOverlap(words, chunkSize, stride, k);
    ChunkRoundTrip(words, chunkSize, overlap, k);
    ChunkRoundTrip(words, chunkSize, overlap, k + 1);
    assert chunkSize - stride == overlap;
  }

  /** `chunk_text`: split on whitespace and emit each non-empty window, joined. */
  method ChunkText(text: string, chunkSize: nat := ChunkSize, overlap: nat := Overlap)
    returns (chunks: seq<string>)
    requires overlap < chunkSize
    ensures chunks == Chunks(Words(text), chunkSize, overlap)
  {
    var words := Words(text);
    AllWordsOfText(text);
    chunks := ChunkWords(words, chunkSize, chunkSize - overlap);
  }

  /** One round of the window loop: the window at i moves from the pending windows to the taken ones. */
  lemma WindowsStep<T>(xs: seq<T>, i: nat, size: nat, stride: nat, taken: seq<seq<T>>)
    requires 0 < stride && i < |xs|
    requires taken + WindowsFrom(xs, i, size, stride) == Windows(xs, size, stride)
    ensures (taken + [xs[i..Min(i + size, |xs|)]]) + WindowsFrom(xs, i + stride, size, stride)
      == Windows(xs, size, stride)
  {
    var w := xs[i..Min(i + size, |xs|)];
    var later := WindowsFrom(xs, i + stride, size, stride);
    assert WindowsFrom(xs, i, size, stride) == [w] + later;
    assert taken + ([w] + later) == (taken + [w]) + later;
  }

  /** A window of words never joins to the empty string. */
  lemma WindowJoinNonEmpty(words: seq<string>, i: nat, size: nat)
    requires AllWords(words) && i < |words| && 0 < size
    ensures Join(words[i..Min(i + size, |words|)]) != ""
  {
    var w := words[i..Min(i + size, |words|)];
    assert w[0] == words[i] && words[i] in words;
    JoinNonEmpty(w);
  }

  /** The window loop of `chunk_text`, over the already split words. */
  method ChunkWords(words: seq<string>, size: nat, stride: nat) returns (chunks: seq<string>)
    requires 0 < stride && 0 < size && AllWords(words)
    ensures chunks == JoinEach(Windows(words, size, stride))
  {
    chunks := [];
    ghost var taken: seq<seq<string>> := [];
    var i := 0;
    while i < |words|
      invariant taken + WindowsFrom(words, i, size, stride) == Windows(words, size, stride)
      invariant chunks == JoinEach(taken)
    {
      var window := words[i..Min(i + size, |words|)];
      WindowsStep(words, i, size, stride, taken);
      var chunk := Join(window);
      WindowJoinNonEmpty(words, i, size);
      if chunk != "" {
        JoinEachSnoc(taken, window);
        chunks := chunks + [chunk];
        taken := taken + [window];
      }
      i := i + stride;
    }
    assert taken == Windows(words, size, stride);
  }

  /**
   * The dictionaries the embedding pipelines return: a success carrying
   * the chunks, one embedding per chunk and their count, or an error with
   * its message.
   */
  datatype EmbedReply<V> =
    | EmbedSuccess(message: string, chunks: seq<string>, embeddings: seq<V>, totalChunks: nat)
    | EmbedError(message: string)

  /** The embedding loop: one embedding per chunk, in chunk order. */
  method EncodeChunks<V>(chunks: seq<string>, encode: string -> V) returns (embeddings: seq<V>)
    ensures |embeddings| == |chunks|
    ensures forall i :: 0 <= i < |chunks| ==> embeddings[i] == encode(chunks[i])
  {
    embeddings := [];
    for i := 0 to |chunks|
      invariant |embeddings| == i
      invariant forall j :: 0 <= j < i ==> embeddings[j] == encode(chunks[j])
    {
      embeddings := embeddings + [encode(chunks[i])];
    }
  }
}
