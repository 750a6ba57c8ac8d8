/** The embedding guard and the overlapping fixed-size chunker of the
    Vectorizer. The embedding model itself is the parameter `encode`. */
module Vectorizer {
  import opened Wrappers
  import opened Models
  import opened Strings

  const DefaultChunkSize := 750
  const DefaultChunkOverlap := 50

  function Min(a: int, b: int): int
  {
    if a <= b then a else b
  }

  /** `generate_embeddings`: empty text is refused, anything else is handed to the model. */
  function GenerateEmbeddings(encode: string -> Embedding, text: string): (r: Result<Embedding, Error>)
    ensures r.Failure? <==> text == ""
    ensures r.Failure? ==> r.error == ValueError("Can't embed empty string")
    ensures r.Success? ==> r.value == encode(text)
  {
    if text == "" then Failure(ValueError("Can't embed empty string")) else Success(encode(text))
  }

  /** Python's `text[start:end]` for `0 <= start` and `end <= len(text)`: a
      negative end counts from the end of the text (and stops at its
      start), and an end at or before the start gives "". */
  function Slice(text: string, start: int, end: int): (r: string)
    requires 0 <= start <= |text| && end <= |text|
    ensures 0 <= end ==> |r| == if end <= start then 0 else end - start
    ensures end < 0 ==> |r| == if |text| + end <= start then 0 else |text| + end - start
    ensures start + |r| <= |text| && r == text[start..start + |r|]
  {
    var stop := if 0 <= end then end else if |text| + end < 0 then 0 else |text| + end;
    if stop <= start then "" else text[start..stop]
  }

  /** `text[start:min(start + size, len(text))]`, the chunk starting at `start`. */
  function Window(text: string, start: int, size: int): string
    requires 0 <= start <= |text|
  {
    Slice(text, start, Min(start + size, |text|))
  }

  /** A negative chunk size makes the slice end count from the end of the
      text: "ab" with size -1 gives "a" (`"ab"[0:-1]`). */
  lemma NegativeEndWindow()
    ensures Window("ab", 0, -1) == "a"
  {
    assert Slice("ab", 0, -1) == "ab"[0..1];
  }

  /** How many times the loop runs: the least `m` with `m * stride >= n`. */
  function NumChunks(n: nat, stride: int): nat
    requires stride > 0
  {
    (n + stride - 1) / stride
  }

  /** Chunk `i` is the window of `chunkSize` characters starting at
      `i * stride`, and there are `NumChunks` of them; `chunk_text` uses
      `stride == chunkSize - chunkOverlap`. */
  ghost predicate IsChunking(text: string, chunkSize: int, stride: int, chunks: seq<string>)
    requires stride > 0
  {
    && |chunks| == NumChunks(|text|, stride)
    && forall i :: 0 <= i < |chunks| ==> i * stride < |text| && chunks[i] == Window(text, i * stride, chunkSize)
  }

  /** `NumChunks(n, stride)` is the ceiling of `n / stride`. */
  lemma NumChunksIsCeiling(n: nat, stride: int, m: nat)
    requires stride > 0
    requires m * stride >= n
    requires m == 0 || (m - 1) * stride < n
    ensures m == NumChunks(n, stride)
  {
    var x := n + stride - 1;
    MulStep(m, stride);
    DivBetween(x, stride, m);
  }

  lemma DivBetween(x: int, d: int, m: int)
    requires d > 0 && m * d <= x < (m + 1) * d
    ensures x / d == m
  {
    var q, r := x / d, x % d;
    assert x == q * d + r && 0 <= r < d;
    if q < m {
      MulMonotone(q + 1, m, d);
    } else if q > m {
      MulMonotone(m + 1, q, d);
    }
  }

  lemma MulMonotone(a: int, b: int, d: int)
    requires a <= b && d >= 0
    ensures a * d <= b * d
  {
    assert b * d - a * d == (b - a) * d;
  }

  lemma MulStep(m: int, d: int)
    ensures (m + 1) * d == m * d + d
    ensures (m - 1) * d == m * d - d
  {
  }

  /** `chunk_text`: refuses "", otherwise slides a `chunkSize` window forward
      by `chunkSize - chunkOverlap` until it passes the end. On a non-empty
      text the loop only ends when that stride is positive, which the source
      does not check. */
  method ChunkText(text: string, chunkSize: int, chunkOverlap: int) returns (r: Result<seq<string>, Error>)
    requires text != "" ==> chunkSize - chunkOverlap > 0
    ensures r.Failure? <==> text == ""
    ensures r.Failure? ==> r.error == ValueError("Can't chunk empty string")
    ensures r.Success? ==> IsChunking(text, chunkSize, chunkSize - chunkOverlap, r.value)
  {
    if text == "" {
      return Failure(ValueError("Can't chunk empty string"));
    }
    var chunks: seq<string> := [];
    var start := 0;
    var textLength := |text|;
    var stride := chunkSize - chunkOverlap;
    while start < textLength
      invariant start == |chunks| * stride
      invariant forall i :: 0 <= i < |chunks| ==> i * stride < textLength && chunks[i] == Window(text, i * stride, chunkSize)
      invariant |chunks| == 0 || (|chunks| - 1) * stride < textLength
      decreases textLength - start
    {
      var end := Min(start + chunkSize, textLength);
      var chunk := Slice(text, start, end);
      ChunkTextStep(text, chunkSize, stride, chunks, start);
      chunks := chunks + [chunk];
      start := start + stride;
    }
    NumChunksIsCeiling(textLength, stride, |chunks|);
    r := Success(chunks);
  }

  /** One turn of `chunk_text`'s loop keeps its invariant. */
  lemma ChunkTextStep(text: string, chunkSize: int, stride: int, chunks: seq<string>, start: int)
    requires stride > 0 && 0 <= start < |text| && start == |chunks| * stride
    requires forall i :: 0 <= i < |chunks| ==> i * stride < |text| && chunks[i] == Window(text, i * stride, chunkSize)
    ensures start + stride == (|chunks| + 1) * stride
    ensures |chunks| * stride < |text|
    ensures var next := chunks + [Window(text, start, chunkSize)];
            forall i :: 0 <= i < |next| ==> i * stride < |text| && next[i] == Window(text, i * stride, chunkSize)
  {
    MulStep(|chunks|, stride);
    var next := chunks + [Window(text, start, chunkSize)];
    forall i | 0 <= i < |next| ensures i * stride < |text| && next[i] == Window(text, i * stride, chunkSize) {
      if i < |chunks| {
        assert next[i] == chunks[i];
      }
    }
  }

  /** With a positive chunk size, every chunk holds between 1 and
      `chunkSize` characters. */
  lemma ChunkLengths(text: string, chunkSize: int, stride: int, chunks: seq<string>)
    requires 0 < stride && chunkSize >= 1
    requires IsChunking(text, chunkSize, stride, chunks)
    ensures forall i :: 0 <= i < |chunks| ==> 1 <= |chunks[i]| <= chunkSize
  {
  }

  /** One chunk per started stride: `|chunks|` is the ceiling of `|text| / stride`. */
  lemma ChunkCount(text: string, chunkSize: int, stride: int, chunks: seq<string>)
    requires 0 < stride
    requires IsChunking(text, chunkSize, stride, chunks)
    ensures |chunks| * stride >= |text|
    ensures |text| > 0 ==> (|chunks| - 1) * stride < |text|
  {
    CeilingBounds(|text|, stride);
  }

  lemma CeilingBounds(n: nat, d: int)
    requires d > 0
    ensures NumChunks(n, d) * d >= n
    ensures n > 0 ==> (NumChunks(n, d) - 1) * d < n
  {
    var q, r := (n + d - 1) / d, (n + d - 1) % d;
    assert n + d - 1 == q * d + r && 0 <= r < d;
    MulStep(q, d);
  }

  /** End offset of chunk `i` in the text. */
  function ChunkEnd(n: nat, chunkSize: int, stride: int, i: nat): int
  {
    Min(i * stride + chunkSize, n)
  }

  /** With a non-negative overlap (`stride <= chunkSize`), the last chunk
      reaches the end of the text. */
  lemma LastChunkEndsAtEnd(text: string, chunkSize: int, stride: int, chunks: seq<string>)
    requires 0 < stride <= chunkSize
    requires IsChunking(text, chunkSize, stride, chunks)
    requires text != ""
    ensures |chunks| >= 1
    ensures ChunkEnd(|text|, chunkSize, stride, |chunks| - 1) == |text|
    ensures chunks[|chunks| - 1] == text[(|chunks| - 1) * stride..]
  {
    ChunkCount(text, chunkSize, stride, chunks);
    var m := |chunks|;
    MulStep(m, stride);
    var start := (m - 1) * stride;
    assert start + chunkSize >= |text|;
    assert chunks[m - 1] == Window(text, start, chunkSize);
  }

  /** Some `i < m` has `i * d <= p < i * d + d`. */
  lemma StrideIndex(n: nat, d: int, m: nat, p: nat) returns (i: nat)
    requires d > 0 && m * d >= n && p < n
    ensures i < m && i * d <= p < i * d + d
  {
    var r := p % d;
    i := p / d;
    assert p == i * d + r && 0 <= r < d;
    if i >= m {
      MulMonotone(m, i, d);
    }
  }

  /** With a non-negative overlap, every character of the text lies in some chunk. */
  lemma ChunksCoverText(text: string, chunkSize: int, stride: int, chunks: seq<string>, p: nat)
    requires 0 < stride <= chunkSize
    requires IsChunking(text, chunkSize, stride, chunks)
    requires p < |text|
    ensures exists i :: 0 <= i < |chunks| && i * stride <= p < i * stride + |chunks[i]|
  {
    ChunkCount(text, chunkSize, stride, chunks);
    var i := StrideIndex(|text|, stride, |chunks|, p);
    assert chunks[i] == Window(text, i * stride, chunkSize);
  }

  /** `c` without its first `min(overlap, len(c))` characters. */
  function DropOverlap(c: string, overlap: nat): string
  {
    c[Min(overlap, |c|)..]
  }

  /** The first chunk, then every later chunk with its overlap dropped. */
  function Reassemble(chunks: seq<string>, overlap: nat): string
    decreases |chunks|
  {
    if |chunks| == 0 then ""
    else if |chunks| == 1 then chunks[0]
    else Reassemble(chunks[..|chunks| - 1], overlap) + DropOverlap(chunks[|chunks| - 1], overlap)
  }

  /** The first `m` chunks, reassembled, are the text up to the end of chunk `m - 1`. */
  lemma {:induction false} ReassemblePrefix(text: string, chunkSize: int, stride: int, chunks: seq<string>, m: nat)
    requires 0 < stride <= chunkSize
    requires IsChunking(text, chunkSize, stride, chunks)
    requires 1 <= m <= |chunks|
    ensures 0 <= ChunkEnd(|text|, chunkSize, stride, m - 1) <= |text|
    ensures Reassemble(chunks[..m], chunkSize - stride) == text[..ChunkEnd(|text|, chunkSize, stride, m - 1)]
  {
    if m == 1 {
      FirstChunk(text, chunkSize, stride, chunks);
    } else {
      var prev := ChunkEnd(|text|, chunkSize, stride, m - 2);
      var end := ChunkEnd(|text|, chunkSize, stride, m - 1);
      ReassemblePrefix(text, chunkSize, stride, chunks, m - 1);
      DroppedChunk(text, chunkSize, stride, chunks, m - 1);
      ReassembleStep(text, chunkSize - stride, chunks, m, prev, end);
    }
  }

  /** The first chunk alone is the text up to its end. */
  lemma FirstChunk(text: string, chunkSize: int, stride: int, chunks: seq<string>)
    requires 0 < stride <= chunkSize
    requires IsChunking(text, chunkSize, stride, chunks)
    requires 1 <= |chunks|
    ensures 0 <= ChunkEnd(|text|, chunkSize, stride, 0) <= |text|
    ensures Reassemble(chunks[..1], chunkSize - stride) == text[..ChunkEnd(|text|, chunkSize, stride, 0)]
  {
    assert chunks[..1] == [chunks[0]];
    assert chunks[0] == Window(text, 0, chunkSize);
  }

  /** Adding a chunk whose overlap-dropped part is `text[prev..end]` extends
      the text prefix ending at `prev` to the prefix ending at `end`. */
  lemma ReassembleStep(text: string, overlap: nat, chunks: seq<string>, m: nat, prev: int, end: int)
    requires 2 <= m <= |chunks|
    requires 0 <= prev <= end <= |text|
    requires Reassemble(chunks[..m - 1], overlap) == text[..prev]
    requires DropOverlap(chunks[m - 1], overlap) == text[prev..end]
    ensures Reassemble(chunks[..m], overlap) == text[..end]
  {
    assert chunks[..m][..m - 1] == chunks[..m - 1];
    assert Reassemble(chunks[..m], overlap) == Reassemble(chunks[..m - 1], overlap) + DropOverlap(chunks[m - 1], overlap);
    SlicesJoin(text, prev, end);
  }

  /** Chunk `j >= 1` with its overlap dropped is the text from the end of
      chunk `j - 1` to its own end. */
  lemma DroppedChunk(text: string, chunkSize: int, stride: int, chunks: seq<string>, j: nat)
    requires 0 < stride <= chunkSize
    requires IsChunking(text, chunkSize, stride, chunks)
    requires 1 <= j < |chunks|
    ensures 0 <= ChunkEnd(|text|, chunkSize, stride, j - 1) <= ChunkEnd(|text|, chunkSize, stride, j) <= |text|
    ensures DropOverlap(chunks[j], chunkSize - stride) ==
              text[ChunkEnd(|text|, chunkSize, stride, j - 1)..ChunkEnd(|text|, chunkSize, stride, j)]
  {
    var n := |text|;
    var prev := ChunkEnd(n, chunkSize, stride, j - 1);
    var start := j * stride;
    var end := ChunkEnd(n, chunkSize, stride, j);
    assert start < n && chunks[j] == Window(text, start, chunkSize);
    OverlapArith(n, chunkSize, stride, j, start, prev, end);
    assert chunks[j] == text[start..end];
  }

  lemma SlicesJoin(text: string, i: int, j: int)
    requires 0 <= i <= j <= |text|
    ensures text[..i] + text[i..j] == text[..j]
  {
  }

  /** Where chunk `j` starts, minus the overlap, is where chunk `j - 1` ends. */
  lemma OverlapArith(n: nat, chunkSize: int, stride: int, j: nat, start: int, prev: int, end: int)
    requires 0 < stride <= chunkSize && j >= 1
    requires start == j * stride && start < n
    requires prev == ChunkEnd(n, chunkSize, stride, j - 1)
    requires end == ChunkEnd(n, chunkSize, stride, j)
    ensures 0 <= prev <= end && start <= end <= n
    ensures Min(start + (chunkSize - stride), end) == prev
  {
    MulStep(j, stride);
    MulMonotone(0, j - 1, stride);
  }

  /** The chunks, with each later chunk's overlap dropped, spell out the text
      again (for `0 <= chunkOverlap < chunkSize`, i.e. `0 < stride <= chunkSize`). */
  lemma ReassembleChunks(text: string, chunkSize: int, stride: int, chunks: seq<string>)
    requires 0 < stride <= chunkSize
    requires IsChunking(text, chunkSize, stride, chunks)
    ensures Reassemble(chunks, chunkSize - stride) == text
  {
    if text != "" {
      LastChunkEndsAtEnd(text, chunkSize, stride, chunks);
      ReassemblePrefix(text, chunkSize, stride, chunks, |chunks|);
      assert chunks[..|chunks|] == chunks;
    }
  }
}
