/** `VectorStore.search`: embed the query, then ask the index for the nearest
    chunks. */
module VectorStore {
  import opened Wrappers
  import opened Models
  import opened DocumentStore
  import Vectorizer

  /** The default `k` of `search`. */
  const DefaultK := 5

  /** `search`: an empty query is refused by the embedding guard before the
      index is read; otherwise the result of `get_k_nearest` is returned as
      it is: no reranking and no deduplication. Being a function of the
      tables, it leaves them unchanged. */
  function Search(db: DocumentDB, encode: string -> Embedding, distance: (Embedding, Embedding) -> real,
                  query: string, k: int): (r: Result<seq<Chunk>, Error>)
    reads db
    ensures r.Failure? <==> query == ""
    ensures r.Failure? ==> r.error == ValueError("Can't embed empty string")
    ensures r.Success? ==> r.value == db.GetKNearest(encode(query), k, distance)
    ensures r.Success? && 0 <= k ==> |r.value| <= k
    ensures r.Success? ==> forall p :: 0 <= p < |r.value| ==>
              r.value[p].distance.Some? && r.value[p].distance.value <= MaxDistance
    ensures r.Success? ==> forall p, q :: 0 <= p < q < |r.value| ==>
              r.value[p].distance.value <= r.value[q].distance.value
  {
    match Vectorizer.GenerateEmbeddings(encode, query)
    case Failure(e) => Failure(e)
    case Success(embedding) => Success(db.GetKNearest(embedding, k, distance))
  }

  /** With the default `k`, at most five chunks come back. */
  lemma SearchDefaultAtMostFive(db: DocumentDB, encode: string -> Embedding,
                                distance: (Embedding, Embedding) -> real, query: string)
    ensures var r := Search(db, encode, distance, query, DefaultK);
            r.Success? ==> |r.value| <= 5
  {
  }
}
