/** The records the retrieval code passes around: Document and Chunk (with the
    fields the database, reranker and context code actually read and write),
    the chat messages, and the exceptions the core raises. */
module Models {
  import opened Wrappers

  /** A dense vector produced by the embedding model; never computed here. */
  type Embedding = seq<real>

  datatype Document = Document(id: Option<int>, name: string, category: string, url: Option<string>)

  /** A chunk as the code builds it: the stored columns, plus `distance` and
      `source` (set by the nearest-neighbour query), `score` (set by the
      reranker) and the legacy `source_name`/`source_categorie` fields that
      `build_rag_context` reads. */
  datatype Chunk = Chunk(
    id: Option<int>,
    documentId: int,
    content: string,
    emb384: Embedding,
    emb3: Option<Embedding>,
    distance: Option<real>,
    source: Option<Document>,
    score: Option<real>,
    sourceName: Option<string>,
    sourceCategorie: Option<string>)

  /** `Chunk(document_id=..., content=..., emb_384d=...)`: every optional field unset. */
  function NewChunk(documentId: int, content: string, emb: Embedding): (c: Chunk)
    ensures c.documentId == documentId && c.content == content && c.emb384 == emb
    ensures c.id == None && c.emb3 == None && c.distance == None && c.source == None && c.score == None
  {
    Chunk(None, documentId, content, emb, None, None, None, None, None, None)
  }

  /** Role-tagged chat messages. */
  datatype Message = System(content: string) | User(content: string) | Assistant(content: string)

  datatype Error =
    | ValueError(message: string)
    | IndexError
    | MissingAPIKeyError(message: string)
    | AttributeError(message: string)
    | OperationalError(message: string)  // sqlite3's error for a statement SQLite refuses

  /** Python's truthiness of an optional string: neither None nor "". */
  predicate Truthy(s: Option<string>)
  {
    s.Some? && s.value != ""
  }

  /** How a Python f-string prints an optional string. */
  function Show(s: Option<string>): string
  {
    match s
    case Some(v) => v
    case None => "None"
  }
}
