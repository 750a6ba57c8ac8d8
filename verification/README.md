# me.exe retrieval core, modelled in Dafny

me.exe is a portfolio chatbot that answers questions about its author using
retrieval-augmented generation (RAG). Its core, modelled here, has five parts:

- **Ingestion** (`feed_db.py`, `parse_md.py`). Each file under
  `data/files/<category>/` becomes a Document. The file is read by extension,
  cut into overlapping 750-character chunks (50 characters of overlap), and
  each chunk is embedded and stored.
- **Storage** (`document_db.py`). A Document table and a Chunk table with
  SQLite-style rowids. The nearest-neighbour query joins chunks with their
  documents, keeps those within cosine distance 0.65, orders them by distance
  and keeps the first `k`.
- **Retrieval** (`vectorizer.py`, `vector_store.py`, `reranker.py`).
  - `search` refuses an empty query, then returns the `k` nearest chunks (5 by
    default).
  - The reranker scores each chunk with a cross-encoder. It keeps the chunks
    scoring at least the threshold, highest first, and writes each kept
    chunk's score into the chunk itself.
- **Grounding** (`context.py`, `llm.py`).
  - A `Context` renders its sourced chunks as `> name (category)\n...content...`
    entries, separated by blank lines.
  - An `LLMSession` keeps a message history that always starts with the system
    prompt. `chat` appends the grounding text (when non-empty), the user's
    message and the assistant's reply.
  - An `LLMHandler` keeps the registry of sessions by id.
- **One turn** (`rag_service.py`). `make_query` looks up the session,
  retrieves chunks, wraps them in a Context and asks the model.

Everything the program gets from outside is a parameter of the model:

- the embedding model: `encode`;
- the cosine distance of sqlite-vec: `distance`;
- the cross-encoder: `score`;
- the Mistral completion call: `complete`;
- the Markdown-to-text conversion: `fromString`;
- the file readers: `Readers`;
- the API key, system prompt, UUIDs and directory listings.

Modules:

| module | file | models |
|---|---|---|
| `Wrappers` | `wrappers.dfy` | `Option`, `Result`, `Outcome` |
| `Models` | `models.dfy` | `Document`, `Chunk`, the chat messages and the exceptions |
| `Strings` | `strings.dfy` | `str.join`, `''.join` and `str.split`, with their algebra |
| `Ranking` | `ranking.dfy` | Python's stable `sorted(..., reverse=True)` on positions |
| `Vectorizer` | `vectorizer.dfy` | the embedding guard; `chunk_text` as a loop |
| `DocumentStore` | `document_db.dfy` | class `DocumentDB` over the two tables; the query as functions |
| `VectorStore` | `vector_store.dfy` | `search` |
| `Reranker` | `reranker.dfy` | `rerank` over an array of chunks, written in place |
| `ContextModel` | `context.dfy` | `Context.context` |
| `Llm` | `llm.dfy` | classes `LLMSession` and `LLMHandler` |
| `RagService` | `rag_service.dfy` | `make_query`, as written and as intended |
| `FeedDb` | `feed_db.dfy` | `load_documents`, `parse_content` and the ingestion loop |
| `ParseMd` | `parse_md.dfy` | `unmark_element` over an element tree, with a `StringIO` buffer |

How the model follows the code:

- **`search` does not rerank.** The code of `search` returns the rows of
  `get_k_nearest` as they are, so the model does the same.
- **The `Chunk` record.** `Chunk` holds every field the core code reads or
  writes: `distance`, `source`, `score` and `emb_3d`, and also the
  `source_name`/`source_categorie` fields that `build_rag_context` prints.
  `app/models/chunk.py` declares only some of these.
- **`make_query`.** The code calls methods that `LLMSession` does not define.
  The model keeps that version as `MakeQueryAsWritten` and uses the evident
  meaning in `MakeQuery` (see Findings).

## Model

| member | source | states |
|---|---|---|
| `Ranking.Rank` | app/rag/reranker.py:90 | lists every position exactly once, higher key first, equal keys in input order (a stable descending sort) |
| `Vectorizer.GenerateEmbeddings` | app/rag/vectorizer.py:98-102 | fails with ValueError "Can't embed empty string" exactly when the text is empty; otherwise returns the model's embedding of the text |
| `Vectorizer.Slice` | app/rag/vectorizer.py:122-123 | Python's `text[start:end]`: the text from `start`, up to `end`, with a negative end counted back from the end of the text, and empty when that end is at or before the start |
| `Vectorizer.NegativeEndWindow` | app/rag/vectorizer.py:122-123 | a negative chunk size makes the slice end count from the back: "ab" with size -1 gives the chunk "a" |
| `Vectorizer.ChunkText` | app/rag/vectorizer.py:104-128 | fails with ValueError "Can't chunk empty string" exactly for ""; otherwise chunk `i` is the Python slice of `chunk_size` characters starting at `i * (chunk_size - chunk_overlap)`, clipped at the end of the text, for every start before the end |
| `Vectorizer.NumChunksIsCeiling` | app/rag/vectorizer.py:121-126 | the loop runs the least number of times whose strides reach the text length: the ceiling of length / stride |
| `Vectorizer.ChunkLengths` | app/rag/vectorizer.py:122-123 | every chunk holds between 1 and `chunk_size` characters |
| `Vectorizer.ChunkCount` | app/rag/vectorizer.py:121-126 | the chunks' strides cover the text, and one chunk fewer would not |
| `Vectorizer.LastChunkEndsAtEnd` | app/rag/vectorizer.py:121-123 | with an overlap smaller than the size, there is a chunk, the last one ends at the end of the text, and it is the text's suffix from its start |
| `Vectorizer.ChunksCoverText` | app/rag/vectorizer.py:121-126 | with an overlap smaller than the size, every character of the text lies in some chunk |
| `Vectorizer.DroppedChunk` | app/rag/vectorizer.py:122-126 | a later chunk with its first `chunk_overlap` characters dropped is exactly the text between the ends of the previous chunk and itself |
| `Vectorizer.ReassemblePrefix` | app/rag/vectorizer.py:121-126 | the first `m` chunks, each after the first with its overlap dropped, spell out the text up to the end of chunk `m - 1` |
| `Vectorizer.ReassembleChunks` | app/rag/vectorizer.py:104-128 | the chunks, each after the first with its overlap dropped, concatenate back to the text: nothing lost, nothing repeated |
| `DocumentStore.NextId` | app/database/document_db.py:193-204 | the rowid SQLite gives a new row is larger than every id in the table |
| `DocumentStore.SelectDocuments` | app/database/document_db.py:63-80 | a Document is returned exactly when it is built from a row that the `if ids:` filter selects (all rows for None or []) |
| `DocumentStore.SelectChunks` | app/database/document_db.py:96-114 | a Chunk is returned exactly when it is built from a row that the `if ids:` filter selects (the corrected reading; see Findings) |
| `DocumentStore.SelectDocumentsInOrder` | app/database/document_db.py:63-80 | the Documents are the selected rows, each once, in table order: there is a strictly increasing list of exactly the selected positions whose rows, converted, are the result element by element |
| `DocumentStore.SelectChunksInOrder` | app/database/document_db.py:96-114 | the same for the Chunks: each selected row once, in table order |
| `DocumentStore.UnfilteredChunks` | app/database/document_db.py:96-114 | with `ids` None or empty, every chunk row comes back, in table order |
| `DocumentStore.SelectChunksAsWritten` | app/database/document_db.py:96-104 | `get_chunks` as written: a non-empty `ids` adds `WHERE id IN (...)` and fails with OperationalError "no such column: id"; without a filter it returns every row, in table order |
| `DocumentStore.ChunkReadAsWrittenFails` | app/database/document_db.py:99-104 | the as-written read gives the intended answer exactly when `ids` is None or empty; every non-empty `ids` makes it fail |
| `DocumentStore.FilteredReadAsWrittenFails` | app/database/document_db.py:99-104 | `get_chunks(conn, [1])` on a table whose one row has rowid 1 should return that row and, as written, raises OperationalError |
| `DocumentStore.FindDocument` | app/database/document_db.py:151 | the document row the join finds has the chunk's document id; none is found only when no row has it |
| `DocumentStore.JoinWithin` | app/database/document_db.py:150-152 | every joined row pairs a stored chunk with its own document, at its distance, within 0.65; every chunk that has a document and is within 0.65 is joined |
| `DocumentStore.JoinWithinIncreasing` | app/database/document_db.py:150-152 | the join keeps table order: chunk rowids that increase in the table increase in the joined rows |
| `DocumentStore.OrderByDistance` | app/database/document_db.py:153 | the same rows as a multiset (a permutation of them), in ascending distance |
| `DocumentStore.InsertByDistance` | app/database/document_db.py:153 | inserting a row into rows in ascending distance gives those rows plus it, as a multiset, still in ascending distance |
| `DocumentStore.Limit` | app/database/document_db.py:154 | `LIMIT k` keeps the first `k` rows, and all of them for a negative `k` |
| `DocumentStore.Nearest` | app/database/document_db.py:150-154 | exactly `k` candidates (all of them when there are fewer or `k` is negative), each taken at most as often as it is a candidate, in ascending distance, and no candidate left out is nearer than one kept |
| `DocumentStore.LimitKeepsNearest` | app/database/document_db.py:153-154 | cutting a permutation of the candidates ordered by distance keeps its order, takes no candidate more often than it occurs, and every candidate cut is at least as far as every row kept |
| `DocumentStore.NearestDistinct` | app/database/document_db.py:150-154 | candidates with increasing rowids come back from the ordering and limit with no rowid twice |
| `DocumentStore.HitChunksFacts` | app/database/document_db.py:159-175 | each Chunk is built from a stored chunk row joined with its own document, at that row's distance from the query, within 0.65; the count bound and ascending order carry over; each source is a stored document with the chunk's document id; distinct rowids give distinct ids |
| `DocumentStore.KNearestFacts` | app/database/document_db.py:150-175 | the Chunks built from the `k` nearest candidates keep the count bound, the stored row and document each comes from, its true distance within 0.65, ascending order and its source; no id twice when the candidates' rowids increase |
| `DocumentStore.DocumentDB.constructor` | app/_scripts/create_db.py:11-33 | a fresh database has empty Document and Chunk tables |
| `DocumentStore.DocumentDB.GetDocument` | app/database/document_db.py:49-80 | `get_document`: a Document is returned exactly when its row's id is selected by `ids`; the result is the selected rows, each once, in table order |
| `DocumentStore.DocumentDB.GetChunks` | app/database/document_db.py:82-114 | `get_chunks`, corrected to filter on the rowid: a Chunk is returned exactly when its rowid is selected by `ids`; the result is the selected rows, each once, in table order |
| `DocumentStore.DocumentDB.Candidates` | app/database/document_db.py:146-152 | every candidate is a stored chunk joined with its own document, at its distance from the query, within 0.65; every stored chunk within 0.65 whose document exists is a candidate; with valid tables the candidates' rowids increase |
| `DocumentStore.DocumentDB.GetKNearest` | app/database/document_db.py:116-177 | at most `k` chunks, each built from a stored chunk row and its own document at that row's distance from the query, within 0.65, in ascending distance, each with its stored document as source; with valid tables no chunk comes back twice |
| `DocumentStore.DocumentDB.AddDocument` | app/database/document_db.py:181-204 | appends one row with the name and category (url NULL) under an id larger than every earlier one; the Chunk table is unchanged |
| `DocumentStore.DocumentDB.AddChunk` | app/database/document_db.py:206-229 | appends one row with the chunk's embeddings, content and document id under an id larger than every earlier one; the Document table is unchanged |
| `DocumentStore.KNearestComplete` | app/database/document_db.py:150-154 | every stored chunk within 0.65 whose document exists is returned, unless `k` chunks were returned, none farther than it |
| `DocumentStore.NearestComplete` | app/database/document_db.py:153-154 | the same completeness for the joined rows |
| `DocumentStore.SingleChunkFound` | app/database/document_db.py:116-177 | one "resume"/"career" document with one chunk at distance 0 from the query: the single result is that chunk, at distance 0, with the document as source |
| `VectorStore.Search` | app/rag/vector_store.py:12-34 | fails with ValueError exactly for an empty query; otherwise returns the `k` nearest chunks, within 0.65 and in ascending distance, reading the tables without changing them |
| `VectorStore.SearchDefaultAtMostFive` | app/rag/vector_store.py:12 | with the default `k`, at most five chunks come back |
| `Reranker.KeptMembers` | app/rag/reranker.py:91 | a position is kept exactly when its score reaches the threshold |
| `Reranker.KeptOrdered` | app/rag/reranker.py:90-93 | filtering keeps the ranking's order |
| `Reranker.RerankOrder` | app/rag/reranker.py:90-93 | every position scoring at least the threshold appears exactly once and no other does, higher score first, equal scores in input order |
| `Reranker.Reranked` | app/rag/reranker.py:74-95 | every result is a chunk scoring at least the threshold with its score written, every such chunk is a result, and results come in non-increasing score |
| `Reranker.PickRanked` | app/rag/reranker.py:90-93 | walking an order with these properties collects exactly the qualifying chunks, rescored, in non-increasing score |
| `Reranker.WalkKeep` | app/rag/reranker.py:91-93 | a position at or above the threshold is appended with its score and has its score written in place |
| `Reranker.WalkSkip` | app/rag/reranker.py:91 | a position below the threshold is neither appended nor changed |
| `Reranker.WalkDone` | app/rag/reranker.py:90-95 | after the whole ranking is walked, the list is the reranked result, and exactly the kept chunks carry their new score |
| `Reranker.Visit` | app/rag/reranker.py:90-93 | one loop turn keeps the list and the array in step with the walk |
| `Reranker.Rerank` | app/rag/reranker.py:74-95 | returns the reranked chunks, and in the caller's list exactly the chunks scoring at least the threshold get their score set; the others are unchanged |
| `ContextModel.Entry` | app/models/context.py:20-23 | an entry starts with "> " |
| `ContextModel.Sourced` | app/models/context.py:18-19 | every kept chunk has a source; a chunk is kept exactly when it is among the input chunks and has a source; never more results than chunks |
| `ContextModel.SourcedAppend` | app/models/context.py:18-19 | filtering a concatenation gives the filtered parts concatenated, so the filter keeps input order |
| `ContextModel.SourcedSingle` | app/models/context.py:19 | one chunk is kept exactly when it has a source; with the append law this makes the result the sourced chunks in input order |
| `ContextModel.Render` | app/models/context.py:16-25 | the `context` text is empty exactly when no chunk has a source; otherwise its length is that of all the sourced chunks' entries plus one "\n\n" between each two (with `RenderSingle` and `RenderAppend`: the entries, in input order, joined by "\n\n") |
| `ContextModel.RenderSingle` | app/models/context.py:16-25 | a single chunk renders to its entry, or to "" when it has no source |
| `ContextModel.RenderAppend` | app/models/context.py:25 | rendering a concatenation renders the parts with one blank line between them when both have entries: no leading or trailing separator |
| `ContextModel.UnsourcedIgnored` | app/models/context.py:19 | a chunk without a source changes nothing, wherever it stands |
| `ContextModel.RenderEmpty` | app/models/context.py:16-25 | the rendering is empty exactly when no chunk has a source |
| `Llm.Prompt` | app/rag/llm.py:106-114 | a turn first adds the grounding text as a system message when it is neither None nor "", then the user's message |
| `Llm.AfterChat` | app/rag/llm.py:106-129 | a turn only appends to the history: the grounding text when non-empty, the user's message, and the assistant's reply when there is one |
| `Llm.AfterChatKeepsPrompt` | app/rag/llm.py:106-129 | a history that starts with the system prompt still does after a turn |
| `Llm.BuildRagContext` | app/rag/llm.py:64-87 | no chunks give "", one chunk gives its entry |
| `Llm.BuildRagContextAppend` | app/rag/llm.py:80-87 | two non-empty lists render as their renderings with one blank line between them |
| `Llm.BuildRagContextLength` | app/rag/llm.py:87 | the length is every entry's length plus two characters per gap |
| `Llm.LLMSession.constructor` | app/rag/llm.py:44-62 | a new session keeps its id, system prompt and model, and its history is the system prompt alone |
| `Llm.LLMSession.Create` | app/rag/llm.py:28-46 | fails with MissingAPIKeyError exactly when the API key is empty; otherwise a fresh session whose history is the system prompt alone |
| `Llm.LLMSession.Chat` | app/rag/llm.py:89-137 | the model is sent the old history plus the prompt; the history becomes the turn's history; the result is ValueError without choices, else the converted reply |
| `Llm.LLMSession.ChatAsWritten` | app/rag/llm.py:132-135 | the same history update, but a reply always ends in AttributeError, because `ParseMD` has no `from_string` |
| `Llm.LLMSession.ClearMessages` | app/rag/llm.py:139-143 | the history is the system prompt alone again |
| `Llm.Find` | app/rag/llm.py:159-163 | the first session with the id, or none exactly when no session has it |
| `Llm.FindAfterAppend` | app/rag/llm.py:159-174 | registering a session leaves earlier lookups as they were and finds the new one only for an id nobody had |
| `Llm.LLMHandler.constructor` | app/rag/llm.py:150 | the registry starts empty |
| `Llm.LLMHandler.GetSession` | app/rag/llm.py:152-163 | returns the first registered session with the id, and IndexError exactly when there is none |
| `Llm.LLMHandler.CreateSession` | app/rag/llm.py:165-174 | appends a fresh session with the default model and a history of the system prompt alone; with an empty API key it fails and registers nothing |
| `Llm.LLMHandler.ClearSession` | app/rag/llm.py:176-184 | resets the found session's history to the system prompt alone and leaves every other session unchanged; IndexError exactly when no session has the id |
| `RagService.MakeQueryAsWritten` | app/services/rag_service.py:14-47 | always fails: IndexError for an unknown session, ValueError for an empty query, otherwise AttributeError for the missing `build_context` or `send_message` |
| `RagService.Grounding` | app/services/rag_service.py:42-45 | a grounding text exactly when there is a context |
| `RagService.ContextFor` | app/services/rag_service.py:37-39 | a context exactly when chunks were found, holding those chunks |
| `RagService.Ask` | app/services/rag_service.py:37-47 | the session's history gets the turn with the rendered context, and the reply comes back paired with the context |
| `RagService.MakeQuery` | app/services/rag_service.py:14-47 | IndexError for an unknown session and ValueError for an empty query, both leaving every history unchanged; otherwise the found session chats with the context of the nearest chunks, and no other session changes |
| `FeedDb.Extension` | app/_scripts/feed_db.py:41 | the extension holds no dot |
| `FeedDb.NameAndExtension` | app/_scripts/feed_db.py:25 | for `a.b` with no dot in `b`, the name is `a` without its dots and the extension is `b` |
| `FeedDb.NameWithoutDot` | app/_scripts/feed_db.py:25 | a file name with no dot gives the empty name and is its own extension |
| `FeedDb.NameExamples` | app/_scripts/feed_db.py:25 | "cv.v2.pdf" is named "cvv2" with extension "pdf"; "README" is named "" |
| `FeedDb.ParseContent` | app/_scripts/feed_db.py:31-51 | fails with ValueError naming the extension and path exactly when the extension is not txt, pdf or md; a .txt path gives the plain read, a .pdf path `ParsePDF`, a .md path the Markdown reader (the intended reading; see Findings) |
| `FeedDb.ParseContentAsWritten` | app/_scripts/feed_db.py:48-49 | a Markdown file ends in AttributeError, because `ParseMD` has no `from_path`; any other file is handled as intended |
| `FeedDb.MarkdownRefusedAsWritten` | app/_scripts/feed_db.py:48-49 | "cv.md" is read as intended but refused as written |
| `FeedDb.ParseContentByExtension` | app/_scripts/feed_db.py:41-51 | a path `a.ext` goes to the reader of `ext`, whatever dots `a` holds |
| `FeedDb.LoadDocumentsAsWrittenLosesSubdirectory` | app/_scripts/feed_db.py:20-28 | a file in a sub-directory of a category is given a path that skips the sub-directory |
| `FeedDb.WalkPairs` | app/_scripts/feed_db.py:22-28 | a pair is listed exactly when it names a file of a walked directory, joined to that directory |
| `FeedDb.LoadDocuments` | app/_scripts/feed_db.py:10-28 | a pair is listed exactly when it names a file of some category's walk, with that category and the file's real path |
| `FeedDb.LoadDocumentsAgreeAtTopLevel` | app/_scripts/feed_db.py:20-28 | where every file lies directly in its category directory, the code as written and the intended listing agree |
| `FeedDb.WalkPairsAgree` | app/_scripts/feed_db.py:22-28 | the same agreement for one category |
| `FeedDb.IngestOne` | app/_scripts/feed_db.py:63-75 | with the corrected reader `ParseContent` (a .md file read as Markdown): adds one Document row, with the file's name and category, no url and an id above every earlier one; on a readable non-empty file, adds rows whose contents are the file's chunking, in order, each with the document's id and its content's embedding; on an unreadable or empty file fails with the reader's or chunker's error |
| `FeedDb.ChunkAndStore` | app/_scripts/feed_db.py:66-75 | refuses empty content and adds nothing; otherwise adds the content's chunking as rows of the document |
| `FeedDb.AddPieces` | app/_scripts/feed_db.py:68-75 | appends one row per piece, in order, with the document id, the piece and its embedding; the Document table is unchanged |
| `FeedDb.Ingest` | app/_scripts/feed_db.py:55-75 | with the corrected reader `ParseContent`: the tables only grow, and the files are handled in listing order. Each handled file has its own new Document row with its name and category, followed by its own run of new chunk rows; these carry that row's id and their content's embedding, and their contents are the chunking of the file's content. When every file succeeds, there is one such row and run per listed file. When file `i` raises, the files before it are stored this way, file `i` has its Document row, no chunk row and the reader's or chunker's error, and nothing after it was read |
| `ParseMd.UnmarkedLength` | app/parser/parse_md.py:6-15 | the output is exactly as long as all texts and tails of the tree together |
| `ParseMd.UnmarkedBounds` | app/parser/parse_md.py:9-14 | an element's own text comes first and its tail last; a leaf gives just the two |
| `ParseMd.UnmarkElement` | app/parser/parse_md.py:6-15 | without a buffer returns the element's text; with one, appends the element's text to what the buffer held and returns the whole buffer |

## Left out

- The embedding model, the cross-encoder, the Mistral client and the Markdown, PDF and text readers are opaque functions passed as parameters. Their outputs are not modelled.
- Embeddings are sequences of reals; the distance is a parameter.
  - The float32 conversion is not modelled.
  - The 384- and 3-dimension checks of the vec0 table are not modelled.
  - `np.frombuffer` on a NULL `emb_3d` is not modelled.
- Connections and transactions are not modelled. Nor is opening the database file, or a failed insert returning no `lastrowid`: the tables are in memory and an insert always succeeds.
- DocumentStore.DocumentDB.GetChunks: models the corrected read, which filters on the rowid. As written, a non-empty `ids` filters on an `id` column that the Chunk table does not have, and the call fails (see Findings, `SelectChunksAsWritten`). The model takes each row's `rowid` to be readable from `SELECT *`, as the unfiltered read needs.
- SQL leaves the order of equal distances open. The model keeps them in table order.
- File-system access is not modelled. `os.listdir` and `os.walk` are given as values (`Category`, `WalkEntry`); directory order is theirs.
- `ParseMD.__new__` and the Markdown conversion (app/parser/parse_md.py:21-39) are the `md` reader and the `fromString` parameter. `unmark_element` is modelled on an element tree given as a value.
- Vectorizer.ChunkText: requires `chunk_size - chunk_overlap > 0` for a non-empty text, because otherwise the source's loop never ends. The empty text is refused with ValueError, as in the source, whatever the sizes.
- ContextModel.Sourced: its own contract states which chunks are kept and the length bound. The order is stated by `SourcedAppend` and `SourcedSingle`, which together fix the result.
- FeedDb.IngestOne and FeedDb.Ingest: they read files through the corrected `ParseContent`. As written, a .md file ends the script with AttributeError after its Document row was inserted and before any chunk row (see Findings, `ParseContentAsWritten`).
- Llm.LLMSession.Chat: `temperature` and `max_tokens` are passed to the model but not modelled.
- Llm.LLMSession.Chat: `str()` of a None reply content is taken to be the content itself.
- Llm.LLMHandler.GetSession: the IndexError's message is not modelled; it formats the `uuid` module rather than the id.
- Llm.LLMHandler: `sessions` is a class attribute in Python, shared by every handler. The model gives each handler its own registry.
- Reranker.Rerank: the chunks are an array of values. The same chunk object appearing twice in the Python list (aliasing) is not modelled.
- The model's `Chunk` has all the fields the core code reads and writes. `app/models/chunk.py` declares only some of them.
- Model loading and caching (`model` properties, environment variables) are not modelled.
- `document_service.py` is not part of this model. Nor are the routers, the plots, the 3-D reductor or the `application/` package.

## Findings

| source | as written | input that shows it | evidently intended | confidence | as-written member | corrected member |
|---|---|---|---|---|---|---|
| app/services/rag_service.py:39-45 | calls `session.build_context` and `session.send_message`, which `LLMSession` does not define | any known session and any non-empty query | wrap the found chunks in a `Context` and `chat` with its rendering | high, not executed | `RagService.MakeQueryAsWritten` | `RagService.MakeQuery` |
| app/_scripts/feed_db.py:22-28 | builds every path from `category_path`, dropping the directory `os.walk` is in | a file `f` in `d/c/s`: listed as `d/c/f` | join each file to the directory it was found in | high, not executed | `FeedDb.LoadDocumentsAsWrittenLosesSubdirectory` | `FeedDb.LoadDocuments` |
| app/_scripts/feed_db.py:48-49 | calls `ParseMD.from_path`, which `ParseMD` does not define | the path "cv.md" | read the Markdown file as text | high, not executed | `FeedDb.MarkdownRefusedAsWritten` | `FeedDb.ParseContent` |
| app/database/document_db.py:99-104 | filters with `WHERE id IN (...)`, but the vec0 Chunk table (app/_scripts/create_db.py:20-27) has no `id` column | `get_chunks(conn, [1])` on a table whose one row has rowid 1: OperationalError "no such column: id" | filter with `WHERE rowid IN (...)` | high, not executed | `DocumentStore.FilteredReadAsWrittenFails` | `DocumentStore.DocumentDB.GetChunks` |
| app/rag/llm.py:132-135 | calls `ParseMD.from_string`, which `ParseMD` does not define | any completion with a choice | convert the reply to plain text | high, not executed | `Llm.LLMSession.ChatAsWritten` | `Llm.LLMSession.Chat` |
