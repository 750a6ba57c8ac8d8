/** The cross-encoder reranker: every chunk is scored against the query by
    the model (the parameter `score`), the (score, chunk) pairs are sorted by
    score, highest first and stably, and the chunks scoring at least the
    threshold are kept, each with its `score` field written in place. */
module Reranker {
  import opened Wrappers
  import opened Models
  import Ranking

  /** `self.model.predict([[query, chunk.content] for chunk in chunks])`. */
  function Scores(score: (string, string) -> real, query: string, chunks: seq<Chunk>): (r: seq<real>)
    ensures |r| == |chunks| && forall i :: 0 <= i < |chunks| ==> r[i] == score(query, chunks[i].content)
  {
    seq(|chunks|, i requires 0 <= i < |chunks| => score(query, chunks[i].content))
  }

  /** The positions of `order` whose score reaches the threshold, in the order
      `order` lists them. */
  function Kept(scores: seq<real>, threshold: real, order: seq<nat>): (r: seq<nat>)
    requires forall p :: 0 <= p < |order| ==> order[p] < |scores|
    ensures |r| <= |order|
    ensures forall p :: 0 <= p < |r| ==> r[p] < |scores|
    decreases |order|
  {
    if order == [] then []
    else
      var x := order[|order| - 1];
      var rest := Kept(scores, threshold, order[..|order| - 1]);
      if scores[x] >= threshold then rest + [x] else rest
  }

  /** `Kept` holds the positions of `order` scoring at least the threshold. */
  lemma {:induction false} KeptMembers(scores: seq<real>, threshold: real, order: seq<nat>)
    requires forall p :: 0 <= p < |order| ==> order[p] < |scores|
    ensures forall x :: x in Kept(scores, threshold, order) <==> x in order && scores[x] >= threshold
    decreases |order|
  {
    if order != [] {
      var init := order[..|order| - 1];
      var x := order[|order| - 1];
      KeptMembers(scores, threshold, init);
      assert order == init + [x];
      assert forall y :: y in order <==> y in init || y == x;
      var rest := Kept(scores, threshold, init);
      assert Kept(scores, threshold, order) == if scores[x] >= threshold then rest + [x] else rest;
    }
  }

  /** `Kept` keeps the order of `order`: sorted in, sorted out. */
  lemma {:induction false} KeptOrdered(scores: seq<real>, threshold: real, order: seq<nat>)
    requires forall p :: 0 <= p < |order| ==> order[p] < |scores|
    requires forall p, q :: 0 <= p < q < |order| ==> Ranking.Before(scores, order[p], order[q])
    ensures forall p, q :: 0 <= p < q < |Kept(scores, threshold, order)| ==>
              Ranking.Before(scores, Kept(scores, threshold, order)[p], Kept(scores, threshold, order)[q])
    decreases |order|
  {
    if order != [] {
      var init := order[..|order| - 1];
      var x := order[|order| - 1];
      KeptOrdered(scores, threshold, init);
      KeptMembers(scores, threshold, init);
      var rest := Kept(scores, threshold, init);
      forall p | 0 <= p < |rest| ensures Ranking.Before(scores, rest[p], x) {
        assert rest[p] in init;
        var i :| 0 <= i < |init| && init[i] == rest[p];
        assert order[i] == rest[p];
      }
      if scores[x] >= threshold {
        var r := rest + [x];
        assert Kept(scores, threshold, order) == r;
        forall p, q | 0 <= p < q < |r| ensures Ranking.Before(scores, r[p], r[q]) {
          if q < |rest| {
            assert r[p] == rest[p] && r[q] == rest[q];
          } else {
            assert r[p] == rest[p] && r[q] == x;
          }
        }
      }
    }
  }

  /** The positions `rerank` keeps, in the order it returns them: the stable
      descending sort of the scores, filtered by `score >= threshold`. */
  function RerankOrder(scores: seq<real>, threshold: real): (r: seq<nat>)
    ensures |r| <= |scores|
    ensures forall p :: 0 <= p < |r| ==> r[p] < |scores|
    ensures forall i :: 0 <= i < |scores| ==> (i in r <==> scores[i] >= threshold)
    ensures forall p, q :: 0 <= p < q < |r| ==> r[p] != r[q]
    ensures forall p, q :: 0 <= p < q < |r| ==> scores[r[p]] >= scores[r[q]]
    ensures forall p, q :: 0 <= p < q < |r| && scores[r[p]] == scores[r[q]] ==> r[p] < r[q]
  {
    var order := Ranking.Rank(scores);
    var r := Kept(scores, threshold, order);
    KeptMembers(scores, threshold, order);
    KeptOrdered(scores, threshold, order);
    forall i | 0 <= i < |scores| ensures i in r <==> scores[i] >= threshold {
      assert i in order;
    }
    forall p, q | 0 <= p < q < |r| ensures r[p] != r[q] {
      assert Ranking.Before(scores, r[p], r[q]);
    }
    r
  }

  /** The chunk at position `i` with its score written. */
  function Rescored(chunks: seq<Chunk>, scores: seq<real>, i: nat): Chunk
    requires i < |chunks| && i < |scores|
  {
    chunks[i].(score := Some(scores[i]))
  }

  /** The rescored chunks at the positions `idx`, in that order. */
  function Pick(chunks: seq<Chunk>, scores: seq<real>, idx: seq<nat>): (r: seq<Chunk>)
    requires forall p :: 0 <= p < |idx| ==> idx[p] < |chunks| && idx[p] < |scores|
    ensures |r| == |idx| && forall p :: 0 <= p < |idx| ==> r[p] == Rescored(chunks, scores, idx[p])
  {
    seq(|idx|, p requires 0 <= p < |idx| => Rescored(chunks, scores, idx[p]))
  }

  /** `c` is a chunk scoring at least the threshold, with its score written. */
  ghost predicate Qualifies(chunks: seq<Chunk>, scores: seq<real>, threshold: real, c: Chunk)
    requires |scores| == |chunks|
  {
    exists i :: 0 <= i < |chunks| && scores[i] >= threshold && c == Rescored(chunks, scores, i)
  }

  /** What `rerank` returns for chunks with the given scores: exactly the
      chunks scoring at least the threshold, each carrying its score, highest
      score first, equal scores in input order. */
  function Reranked(chunks: seq<Chunk>, scores: seq<real>, threshold: real): (r: seq<Chunk>)
    requires |scores| == |chunks|
    ensures |r| <= |chunks|
    ensures forall p :: 0 <= p < |r| ==> r[p].score.Some? && r[p].score.value >= threshold
    ensures forall p, q :: 0 <= p < q < |r| ==> r[p].score.value >= r[q].score.value
    ensures forall i :: 0 <= i < |chunks| && scores[i] >= threshold ==> Rescored(chunks, scores, i) in r
    ensures forall p :: 0 <= p < |r| ==> Qualifies(chunks, scores, threshold, r[p])
  {
    var order := RerankOrder(scores, threshold);
    var r := Pick(chunks, scores, order);
    PickRanked(chunks, scores, threshold, order);
    r
  }

  /** Picking along an order with the properties of `RerankOrder` gives the
      qualifying chunks, rescored, highest score first. */
  lemma PickRanked(chunks: seq<Chunk>, scores: seq<real>, threshold: real, order: seq<nat>)
    requires |scores| == |chunks|
    requires |order| <= |scores| && forall p :: 0 <= p < |order| ==> order[p] < |scores|
    requires forall i :: 0 <= i < |scores| ==> (i in order <==> scores[i] >= threshold)
    requires forall p, q :: 0 <= p < q < |order| ==> scores[order[p]] >= scores[order[q]]
    ensures var r := Pick(chunks, scores, order);
            && |r| <= |chunks|
            && (forall p :: 0 <= p < |r| ==> r[p].score.Some? && r[p].score.value >= threshold)
            && (forall p, q :: 0 <= p < q < |r| ==> r[p].score.value >= r[q].score.value)
            && (forall i :: 0 <= i < |chunks| && scores[i] >= threshold ==> Rescored(chunks, scores, i) in r)
            && (forall p :: 0 <= p < |r| ==> Qualifies(chunks, scores, threshold, r[p]))
  {
    var r := Pick(chunks, scores, order);
    forall p | 0 <= p < |r|
      ensures r[p].score == Some(scores[order[p]]) && scores[order[p]] >= threshold
    {
      assert r[p] == Rescored(chunks, scores, order[p]);
      assert order[p] in order;
    }
    forall i | 0 <= i < |chunks| && scores[i] >= threshold
      ensures Rescored(chunks, scores, i) in r
    {
      var p :| 0 <= p < |order| && order[p] == i;
      assert r[p] == Rescored(chunks, scores, i);
    }
    forall p | 0 <= p < |r|
      ensures Qualifies(chunks, scores, threshold, r[p])
    {
      assert order[p] in order && r[p] == Rescored(chunks, scores, order[p]);
    }
  }

  /** The chunks after the walk has passed the positions `done`: those kept
      carry their score, every other one is as it was. */
  function Written(input: seq<Chunk>, scores: seq<real>, threshold: real, done: seq<nat>): (r: seq<Chunk>)
    requires |scores| == |input|
    ensures |r| == |input|
  {
    seq(|input|, i requires 0 <= i < |input| =>
      if i in done && scores[i] >= threshold then Rescored(input, scores, i) else input[i])
  }

  /** Passing one more position writes at most that position. */
  lemma WrittenStep(input: seq<Chunk>, scores: seq<real>, threshold: real, done: seq<nat>, i: nat)
    requires |scores| == |input| && i < |input| && i !in done
    ensures Written(input, scores, threshold, done)[i] == input[i]
    ensures Written(input, scores, threshold, done + [i]) ==
              if scores[i] >= threshold
              then Written(input, scores, threshold, done)[i := Rescored(input, scores, i)]
              else Written(input, scores, threshold, done)
  {
    assert forall x :: x in done + [i] <==> x in done || x == i;
  }

  /** Passing one more position keeps it when its score reaches the threshold. */
  lemma KeptStep(scores: seq<real>, threshold: real, order: seq<nat>, j: nat)
    requires j < |order| && forall p :: 0 <= p < |order| ==> order[p] < |scores|
    ensures Kept(scores, threshold, order[..j + 1]) ==
              Kept(scores, threshold, order[..j]) + (if scores[order[j]] >= threshold then [order[j]] else [])
  {
    assert order[..j + 1][..j] == order[..j];
  }

  lemma PickSnoc(chunks: seq<Chunk>, scores: seq<real>, idx: seq<nat>, x: nat)
    requires forall p :: 0 <= p < |idx| ==> idx[p] < |chunks| && idx[p] < |scores|
    requires x < |chunks| && x < |scores|
    ensures Pick(chunks, scores, idx + [x]) == Pick(chunks, scores, idx) + [Rescored(chunks, scores, x)]
  {
  }

  /** One step of the walk over the ranking at a position scoring at least
      the threshold: it is written and kept. */
  lemma WalkKeep(input: seq<Chunk>, scores: seq<real>, threshold: real, order: seq<nat>, j: nat)
    requires |scores| == |input| && Ranking.IsRanking(scores, order) && j < |order|
    requires scores[order[j]] >= threshold
    ensures order[j] < |input|
    ensures Written(input, scores, threshold, order[..j])[order[j]] == input[order[j]]
    ensures Pick(input, scores, Kept(scores, threshold, order[..j + 1])) ==
              Pick(input, scores, Kept(scores, threshold, order[..j])) + [Rescored(input, scores, order[j])]
    ensures Written(input, scores, threshold, order[..j + 1]) ==
              Written(input, scores, threshold, order[..j])[order[j] := Rescored(input, scores, order[j])]
  {
    var i := order[j];
    Ranking.RankDistinct(scores, order);
    assert order[..j + 1] == order[..j] + [i];
    assert i !in order[..j];
    WrittenStep(input, scores, threshold, order[..j], i);
    KeptStep(scores, threshold, order, j);
    PickSnoc(input, scores, Kept(scores, threshold, order[..j]), i);
  }

  /** One step of the walk at a position scoring below the threshold:
      nothing changes. */
  lemma WalkSkip(input: seq<Chunk>, scores: seq<real>, threshold: real, order: seq<nat>, j: nat)
    requires |scores| == |input| && Ranking.IsRanking(scores, order) && j < |order|
    requires scores[order[j]] < threshold
    ensures Kept(scores, threshold, order[..j + 1]) == Kept(scores, threshold, order[..j])
    ensures Written(input, scores, threshold, order[..j + 1]) == Written(input, scores, threshold, order[..j])
  {
    var i := order[j];
    Ranking.RankDistinct(scores, order);
    assert order[..j + 1] == order[..j] + [i];
    assert i !in order[..j];
    WrittenStep(input, scores, threshold, order[..j], i);
    KeptStep(scores, threshold, order, j);
  }

  /** Once every ranked position is passed, the kept chunks are `Reranked`
      and exactly those scoring at least the threshold were written. */
  lemma WalkDone(input: seq<Chunk>, scores: seq<real>, threshold: real)
    requires |scores| == |input|
    ensures Pick(input, scores, Kept(scores, threshold, Ranking.Rank(scores))) == Reranked(input, scores, threshold)
    ensures forall i :: 0 <= i < |input| ==>
              Written(input, scores, threshold, Ranking.Rank(scores))[i] ==
                if scores[i] >= threshold then Rescored(input, scores, i) else input[i]
  {
    assert Kept(scores, threshold, Ranking.Rank(scores)) == RerankOrder(scores, threshold);
  }

  /** One turn of `rerank`'s loop, at the `j`-th ranked position: when its
      score reaches the threshold, the score is written into the chunk and
      the chunk appended. */
  method Visit(chunks: array<Chunk>, ghost input: seq<Chunk>, scores: seq<real>, threshold: real,
               order: seq<nat>, j: nat, reranked: seq<Chunk>)
    returns (next: seq<Chunk>)
    requires |scores| == |input| == chunks.Length && Ranking.IsRanking(scores, order) && j < |order|
    requires reranked == Pick(input, scores, Kept(scores, threshold, order[..j]))
    requires chunks[..] == Written(input, scores, threshold, order[..j])
    modifies chunks
    ensures next == Pick(input, scores, Kept(scores, threshold, order[..j + 1]))
    ensures chunks[..] == Written(input, scores, threshold, order[..j + 1])
  {
    var i := order[j];
    if scores[i] >= threshold {
      WalkKeep(input, scores, threshold, order, j);
      chunks[i] := chunks[i].(score := Some(scores[i]));
      assert chunks[..] == old(chunks[..])[i := Rescored(input, scores, i)];
      next := reranked + [chunks[i]];
    } else {
      WalkSkip(input, scores, threshold, order, j);
      next := reranked;
    }
  }

  /** `rerank`: scores every chunk, walks the pairs in sorted order, and for
      each pair at or above the threshold writes the score into the chunk and
      appends it. The array stands for the caller's list of chunks, whose
      entries are changed in place. The source's default threshold is -2. */
  method Rerank(query: string, chunks: array<Chunk>, score: (string, string) -> real, threshold: real)
    returns (reranked: seq<Chunk>)
    modifies chunks
    ensures var input := old(chunks[..]);
            var scores := Scores(score, query, input);
            && reranked == Reranked(input, scores, threshold)
            && forall i :: 0 <= i < chunks.Length ==>
                 chunks[i] == if scores[i] >= threshold then Rescored(input, scores, i) else input[i]
  {
    ghost var input := chunks[..];
    var scores := Scores(score, query, chunks[..]);
    var order := Ranking.Rank(scores);
    reranked := [];
    var j := 0;
    while j < |order|
      invariant 0 <= j <= |order|
      invariant reranked == Pick(input, scores, Kept(scores, threshold, order[..j]))
      invariant chunks[..] == Written(input, scores, threshold, order[..j])
    {
      reranked := Visit(chunks, input, scores, threshold, order, j, reranked);
      j := j + 1;
    }
    assert order[..j] == order;
    WalkDone(input, scores, threshold);
    assert reranked == Reranked(input, scores, threshold);
    forall i | 0 <= i < chunks.Length
      ensures chunks[i] == if scores[i] >= threshold then Rescored(input, scores, i) else input[i]
    {
      assert chunks[i] == chunks[..][i];
    }
  }
}
