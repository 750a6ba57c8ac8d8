/** The ingestion script: listing the files of the corpus as Documents (the
    name is the file name without its dots and extension, the category the
    top-level directory), reading a file by its extension, and filling the
    index one document at a time, the Document row first and then one Chunk
    row per piece of its text. Directory listings are given as values and
    the three file readers as parameters. */
module FeedDb {
  import opened Wrappers
  import opened Models
  import opened Strings
  import opened DocumentStore
  import opened Vectorizer

  /** `''.join(f.split('.')[:-1])`: every dot-separated part but the last,
      glued together without the dots. */
  function DocumentName(f: string): string
  {
    var parts := Split(f, '.');
    Concat(parts[..|parts| - 1])
  }

  /** `path.split('.')[-1]`: the text after the last dot, or the whole path
      when there is none. */
  function Extension(path: string): (r: string)
    ensures '.' !in r
  {
    var parts := Split(path, '.');
    SplitJoin(path, '.');
    parts[|parts| - 1]
  }

  /** A file name with an extension: the name drops the extension and every
      dot before it; the extension is what follows the last dot. */
  lemma NameAndExtension(a: string, b: string)
    requires '.' !in b
    ensures DocumentName(a + "." + b) == Remove(a, '.')
    ensures Extension(a + "." + b) == b
  {
    SplitLast(a, b, '.');
    var parts := Split(a + "." + b, '.');
    assert parts[..|parts| - 1] == Split(a, '.');
    ConcatSplit(a, '.');
  }

  /** A file name without a dot gives the empty name, and is its own extension. */
  lemma NameWithoutDot(f: string)
    requires '.' !in f
    ensures DocumentName(f) == ""
    ensures Extension(f) == f
  {
    SplitNone(f, '.');
  }

  lemma NameExamples()
    ensures DocumentName("cv.v2.pdf") == "cvv2"
    ensures Extension("cv.v2.pdf") == "pdf"
    ensures DocumentName("README") == ""
  {
    assert "cv.v2.pdf" == "cv.v2" + "." + "pdf";
    NameAndExtension("cv.v2", "pdf");
    assert Remove("cv.v2", '.') == "cvv2";
    NameWithoutDot("README");
  }

  /** The readers of `parse_content`: plain read for .txt, `ParsePDF` for
      .pdf, `ParseMD.from_path` for .md. */
  datatype Readers = Readers(txt: string -> string, pdf: string -> string, md: string -> string)

  /** `parse_content`: dispatches on the extension, case-sensitively; any
      other extension is a ValueError naming it and the path. */
  function ParseContent(path: string, readers: Readers): (r: Result<string, Error>)
    ensures r.Failure? <==> Extension(path) != "txt" && Extension(path) != "pdf" && Extension(path) != "md"
    ensures r.Failure? ==> r.error == ValueError("Impossible to parse '" + Extension(path) + "' files (" + path + ")")
    ensures Extension(path) == "txt" ==> r == Success(readers.txt(path))
    ensures Extension(path) == "pdf" ==> r == Success(readers.pdf(path))
    ensures Extension(path) == "md" ==> r == Success(readers.md(path))
  {
    match Extension(path)
    case "txt" => Success(readers.txt(path))
    case "pdf" => Success(readers.pdf(path))
    case "md" => Success(readers.md(path))
    case ext => Failure(ValueError("Impossible to parse '" + ext + "' files (" + path + ")"))
  }

  /** What Python reports for `ParseMD.from_path`, which the Markdown
      parser class does not define. */
  const NoFromPath := "type object 'ParseMD' has no attribute 'from_path'"

  /** `parse_content` as it stands: the .md branch calls `ParseMD.from_path`,
      which does not exist, so every Markdown file raises AttributeError;
      every other path is handled as by `ParseContent`. */
  function ParseContentAsWritten(path: string, readers: Readers): (r: Result<string, Error>)
    ensures Extension(path) == "md" ==> r == Failure(AttributeError(NoFromPath))
    ensures Extension(path) != "md" ==> r == ParseContent(path, readers)
  {
    match Extension(path)
    case "txt" => Success(readers.txt(path))
    case "pdf" => Success(readers.pdf(path))
    case "md" => Failure(AttributeError(NoFromPath))
    case ext => Failure(ValueError("Impossible to parse '" + ext + "' files (" + path + ")"))
  }

  /** A Markdown file the ingestion evidently means to read is refused as
      written: `cv.md` goes to the .md reader in `ParseContent` but raises in
      `ParseContentAsWritten`. */
  lemma MarkdownRefusedAsWritten(readers: Readers)
    ensures ParseContent("cv.md", readers) == Success(readers.md("cv.md"))
    ensures ParseContentAsWritten("cv.md", readers) == Failure(AttributeError(NoFromPath))
  {
    assert "cv.md" == "cv" + "." + "md";
    NameAndExtension("cv", "md");
  }

  /** A path `a.ext` goes to the reader of `ext`, whatever dots `a` holds. */
  lemma ParseContentByExtension(a: string, ext: string, readers: Readers)
    requires '.' !in ext
    ensures var path := a + "." + ext;
            && (ext == "txt" ==> ParseContent(path, readers) == Success(readers.txt(path)))
            && (ext == "pdf" ==> ParseContent(path, readers) == Success(readers.pdf(path)))
            && (ext == "md" ==> ParseContent(path, readers) == Success(readers.md(path)))
            && (ext != "txt" && ext != "pdf" && ext != "md" ==>
                  ParseContent(path, readers) == Failure(ValueError("Impossible to parse '" + ext + "' files (" + path + ")")))
  {
    NameAndExtension(a, ext);
  }

  /** `os.path.join(a, b)` on POSIX paths. */
  function PathJoin(a: string, b: string): string
  {
    if |b| > 0 && b[0] == '/' then b
    else if a == "" || a[|a| - 1] == '/' then a + b
    else a + "/" + b
  }

  /** One triple of `os.walk`: a directory and the files directly in it
      (the sub-directory names play no part here). */
  datatype WalkEntry = WalkEntry(dirpath: string, files: seq<string>)

  /** A top-level entry of the corpus directory and what `os.walk` yields
      for it. */
  datatype Category = Category(name: string, walk: seq<WalkEntry>)

  /** The Document `load_documents` builds for file `f` of a category. */
  function FileDocument(category: string, f: string): Document
  {
    Document(None, DocumentName(f), category, None)
  }

  /** The pairs for the files of one directory, each path made from `dir`. */
  function FilePairs(category: string, dir: string, files: seq<string>): (r: seq<(Document, string)>)
    ensures |r| == |files| && forall i :: 0 <= i < |files| ==> r[i] == (FileDocument(category, files[i]), PathJoin(dir, files[i]))
  {
    seq(|files|, i requires 0 <= i < |files| => (FileDocument(category, files[i]), PathJoin(dir, files[i])))
  }

  /** `load_documents` as written: every file found under a category is
      paired with `os.path.join(category_path, f)`, whichever directory of
      the walk it was found in. */
  function WalkPairsAsWritten(category: string, categoryPath: string, walk: seq<WalkEntry>): seq<(Document, string)>
    decreases |walk|
  {
    if walk == [] then []
    else FilePairs(category, categoryPath, walk[0].files) + WalkPairsAsWritten(category, categoryPath, walk[1..])
  }

  function LoadDocumentsAsWritten(path: string, categories: seq<Category>): seq<(Document, string)>
    decreases |categories|
  {
    if categories == [] then []
    else
      var c := categories[0];
      WalkPairsAsWritten(c.name, PathJoin(path, c.name), c.walk) + LoadDocumentsAsWritten(path, categories[1..])
  }

  /** A file in a sub-directory of a category gets a path that skips the
      sub-directory: file `f` found in `d/c/s` is listed as `d/c/f`. */
  lemma LoadDocumentsAsWrittenLosesSubdirectory()
    ensures var walk := [WalkEntry("d/c", []), WalkEntry("d/c/s", ["f"])];
            var listed := LoadDocumentsAsWritten("d", [Category("c", walk)]);
            && |listed| == 1
            && listed[0].1 == "d/c/f"
            && PathJoin(walk[1].dirpath, "f") == "d/c/s/f"
  {
    var walk := [WalkEntry("d/c", []), WalkEntry("d/c/s", ["f"])];
    var c := Category("c", walk);
    assert [c][1..] == [];
    assert walk[1..][1..] == [];
    assert PathJoin("d", "c") == "d/c";
    var pairs := WalkPairsAsWritten("c", "d/c", walk);
    assert pairs == FilePairs("c", "d/c", ["f"]);
    assert PathJoin("d/c", "f") == "d/c/f";
  }

  /** `load_documents` with each file paired with the directory the walk
      found it in, `os.path.join(dirpath, f)`. */
  function WalkPairs(category: string, walk: seq<WalkEntry>): (r: seq<(Document, string)>)
    ensures forall x :: x in r <==> exists e, f :: e in walk && f in e.files && x == (FileDocument(category, f), PathJoin(e.dirpath, f))
    decreases |walk|
  {
    if walk == [] then []
    else
      var here := FilePairs(category, walk[0].dirpath, walk[0].files);
      var rest := WalkPairs(category, walk[1..]);
      assert forall e :: e in walk <==> e == walk[0] || e in walk[1..];
      assert forall x :: x in here <==> exists f :: f in walk[0].files && x == (FileDocument(category, f), PathJoin(walk[0].dirpath, f)) by {
        forall x | x in here ensures exists f :: f in walk[0].files && x == (FileDocument(category, f), PathJoin(walk[0].dirpath, f)) {
          var i :| 0 <= i < |here| && here[i] == x;
          assert walk[0].files[i] in walk[0].files;
        }
        forall f | f in walk[0].files ensures (FileDocument(category, f), PathJoin(walk[0].dirpath, f)) in here {
          var i :| 0 <= i < |walk[0].files| && walk[0].files[i] == f;
          assert here[i] == (FileDocument(category, f), PathJoin(walk[0].dirpath, f));
        }
      }
      here + rest
  }

  /** Every pair names a file of a category with that category, and every
      file the walks find is listed, at the path it was found at. */
  function LoadDocuments(path: string, categories: seq<Category>): (r: seq<(Document, string)>)
    ensures forall x :: x in r <==>
              exists c, e, f :: c in categories && e in c.walk && f in e.files &&
                                x == (FileDocument(c.name, f), PathJoin(e.dirpath, f))
    decreases |categories|
  {
    if categories == [] then []
    else
      var c := categories[0];
      var rest := LoadDocuments(path, categories[1..]);
      assert forall d :: d in categories <==> d == c || d in categories[1..];
      WalkPairs(c.name, c.walk) + rest
  }

  /** Where every file lies directly in its category directory (each walk
      entry is the category directory itself), the listing as written and
      the corrected one agree. */
  lemma {:induction false} LoadDocumentsAgreeAtTopLevel(path: string, categories: seq<Category>)
    requires forall c, e :: c in categories && e in c.walk ==> e.dirpath == PathJoin(path, c.name)
    ensures LoadDocumentsAsWritten(path, categories) == LoadDocuments(path, categories)
    decreases |categories|
  {
    if categories != [] {
      var c := categories[0];
      WalkPairsAgree(c.name, PathJoin(path, c.name), c.walk);
      assert forall d :: d in categories[1..] ==> d in categories;
      LoadDocumentsAgreeAtTopLevel(path, categories[1..]);
    }
  }

  lemma {:induction false} WalkPairsAgree(category: string, dir: string, walk: seq<WalkEntry>)
    requires forall e :: e in walk ==> e.dirpath == dir
    ensures WalkPairsAsWritten(category, dir, walk) == WalkPairs(category, walk)
    decreases |walk|
  {
    if walk != [] {
      assert walk[0] in walk;
      assert forall e :: e in walk[1..] ==> e in walk;
      WalkPairsAgree(category, dir, walk[1..]);
    }
  }

  /** The contents of chunk rows, in order. */
  function Contents(rows: seq<ChunkRow>): (r: seq<string>)
    ensures |r| == |rows| && forall i :: 0 <= i < |rows| ==> r[i] == rows[i].content
  {
    seq(|rows|, i requires 0 <= i < |rows| => rows[i].content)
  }

  /** Rows holding the pieces of a chunking, in order, hold that chunking. */
  lemma SameChunking(text: string, pieces: seq<string>, rows: seq<ChunkRow>)
    requires IsChunking(text, DefaultChunkSize, DefaultChunkSize - DefaultChunkOverlap, pieces)
    requires |rows| == |pieces| && forall j :: 0 <= j < |rows| ==> rows[j].content == pieces[j]
    ensures IsChunking(text, DefaultChunkSize, DefaultChunkSize - DefaultChunkOverlap, Contents(rows))
  {
    assert Contents(rows) == pieces;
  }

  /** What one turn of the ingestion loop leaves for one listed file: its
      Document row `row` and the chunk rows `segment` written after it. The
      row carries the file's name and category and no url; every chunk row
      carries the row's id, its content's embedding and no 3-D embedding.
      A reader error, or empty content, ends the turn with that error and
      no chunk row; otherwise the turn passes and the contents of the chunk
      rows, in order, are the chunking of the file's content. */
  ghost predicate FileStored(path: string, readers: Readers, encode: string -> Embedding, document: Document,
                             row: DocumentRow, segment: seq<ChunkRow>, r: Outcome<Error>)
  {
    && row.name == document.name && row.category == document.category && row.url == None
    && (forall k :: 0 <= k < |segment| ==>
          segment[k].documentId == row.id && segment[k].emb384 == encode(segment[k].content) && segment[k].emb3 == None)
    && match ParseContent(path, readers)
       case Failure(e) => r == Fail(e) && segment == []
       case Success(content) =>
         if content == "" then r == Fail(ValueError("Can't chunk empty string")) && segment == []
         else r == Pass && IsChunking(content, DefaultChunkSize, DefaultChunkSize - DefaultChunkOverlap, Contents(segment))
  }

  /** One turn of the ingestion loop: `add_document`, then `parse_content`,
      then `chunk_text` with the default 750/50, then per piece
      `generate_embeddings` and `add_chunk` with the new document's id. A
      file that cannot be parsed or is empty raises after its Document row
      was written, and that row stays. Embedding never fails here: every
      piece is non-empty. */
  method IngestOne(db: DocumentDB, document: Document, path: string, readers: Readers, encode: string -> Embedding)
    returns (r: Outcome<Error>)
    requires db.Valid()
    modifies db
    ensures db.Valid()
    ensures |db.documents| == |old(db.documents)| + 1 && db.documents[..|old(db.documents)|] == old(db.documents)
    ensures forall d :: d in old(db.documents) ==> d.id < db.documents[|old(db.documents)|].id
    ensures |db.chunks| >= |old(db.chunks)| && db.chunks[..|old(db.chunks)|] == old(db.chunks)
    ensures FileStored(path, readers, encode, document, db.documents[|old(db.documents)|], db.chunks[|old(db.chunks)|..], r)
    ensures r.Fail? ==> db.chunks == old(db.chunks)
  {
    var docId := db.AddDocument(document);
    var content := ParseContent(path, readers);
    if content.Failure? {
      return Fail(content.error);
    }
    r := ChunkAndStore(db, docId, content.value, encode);
  }

  /** The second half of one turn: `chunk_text` with the default 750/50,
      then one chunk row per piece under the given document id. Empty
      content raises before any row is written. */
  method ChunkAndStore(db: DocumentDB, docId: int, content: string, encode: string -> Embedding)
    returns (r: Outcome<Error>)
    requires db.Valid()
    modifies db
    ensures db.Valid() && db.documents == old(db.documents)
    ensures |db.chunks| >= |old(db.chunks)| && db.chunks[..|old(db.chunks)|] == old(db.chunks)
    ensures forall k :: |old(db.chunks)| <= k < |db.chunks| ==>
              && db.chunks[k].documentId == docId
              && db.chunks[k].emb384 == encode(db.chunks[k].content)
              && db.chunks[k].emb3 == None
    ensures content == "" ==> r == Fail(ValueError("Can't chunk empty string")) && db.chunks == old(db.chunks)
    ensures content != "" ==> r == Pass && IsChunking(content, DefaultChunkSize, DefaultChunkSize - DefaultChunkOverlap,
                                                      Contents(db.chunks[|old(db.chunks)|..]))
  {
    var pieces := ChunkText(content, DefaultChunkSize, DefaultChunkOverlap);
    if pieces.Failure? {
      return Fail(pieces.error);
    }
    ChunkLengths(content, DefaultChunkSize, DefaultChunkSize - DefaultChunkOverlap, pieces.value);
    AddPieces(db, docId, pieces.value, encode);
    SameChunking(content, pieces.value, db.chunks[|old(db.chunks)|..]);
    return Pass;
  }

  /** The inner loop of one turn: per piece, `generate_embeddings` and
      `add_chunk` under the given document id, in piece order. */
  method AddPieces(db: DocumentDB, docId: int, pieces: seq<string>, encode: string -> Embedding)
    requires db.Valid()
    requires forall j :: 0 <= j < |pieces| ==> pieces[j] != ""
    modifies db
    ensures db.Valid() && db.documents == old(db.documents)
    ensures |db.chunks| == |old(db.chunks)| + |pieces| && db.chunks[..|old(db.chunks)|] == old(db.chunks)
    ensures forall k :: |old(db.chunks)| <= k < |db.chunks| ==>
              && db.chunks[k].documentId == docId
              && db.chunks[k].emb384 == encode(db.chunks[k].content)
              && db.chunks[k].emb3 == None
    ensures forall j :: 0 <= j < |pieces| ==> db.chunks[|old(db.chunks)| + j].content == pieces[j]
  {
    ghost var before := db.chunks;
    var k := 0;
    while k < |pieces|
      invariant 0 <= k <= |pieces|
      invariant db.Valid() && db.documents == old(db.documents)
      invariant |db.chunks| == |before| + k && db.chunks[..|before|] == before
      invariant forall j :: 0 <= j < k ==>
                  db.chunks[|before| + j] == ChunkRow(db.chunks[|before| + j].rowid, docId, pieces[j], encode(pieces[j]), None)
    {
      var emb := GenerateEmbeddings(encode, pieces[k]);
      var chunk := NewChunk(docId, pieces[k], emb.value);
      var _ := db.AddChunk(chunk);
      k := k + 1;
    }
    forall k | |before| <= k < |db.chunks|
      ensures && db.chunks[k].documentId == docId
              && db.chunks[k].emb384 == encode(db.chunks[k].content)
              && db.chunks[k].emb3 == None
    {
      var j := k - |before|;
      assert db.chunks[|before| + j].content == pieces[j];
    }
  }

  /** A prefix of a prefix is a prefix. */
  lemma PrefixExtends<T>(a: seq<T>, b: seq<T>, c: seq<T>)
    requires |a| <= |b| && b[..|a|] == a
    requires |b| <= |c| && c[..|b|] == b
    ensures c[..|a|] == a
  {
    assert forall j :: 0 <= j < |a| ==> c[j] == b[j];
  }

  /** The first `|bounds| - 1` listed files were ingested and passed: file
      `j` has the Document row at `d0 + j` and the chunk rows from
      `bounds[j]` up to `bounds[j + 1]`. */
  ghost predicate Ingested(listed: seq<(Document, string)>, readers: Readers, encode: string -> Embedding,
                           docs: seq<DocumentRow>, chunks: seq<ChunkRow>, d0: int, bounds: seq<int>)
  {
    && 1 <= |bounds| <= |listed| + 1
    && 0 <= d0 && d0 + |bounds| - 1 <= |docs|
    && (forall j, k :: 0 <= j <= k < |bounds| ==> 0 <= bounds[j] <= bounds[k] <= |chunks|)
    && forall j :: 0 <= j < |bounds| - 1 ==>
         FileStored(listed[j].1, readers, encode, listed[j].0, docs[d0 + j], chunks[bounds[j]..bounds[j + 1]], Pass)
  }

  /** Appending rows to both tables keeps what was ingested. */
  lemma IngestedPrefix(listed: seq<(Document, string)>, readers: Readers, encode: string -> Embedding,
                       docs: seq<DocumentRow>, chunks: seq<ChunkRow>, docs': seq<DocumentRow>, chunks': seq<ChunkRow>,
                       d0: int, bounds: seq<int>)
    requires Ingested(listed, readers, encode, docs, chunks, d0, bounds)
    requires |docs| <= |docs'| && docs'[..|docs|] == docs
    requires |chunks| <= |chunks'| && chunks'[..|chunks|] == chunks
    ensures Ingested(listed, readers, encode, docs', chunks', d0, bounds)
  {
    forall j | 0 <= j < |bounds| - 1
      ensures FileStored(listed[j].1, readers, encode, listed[j].0, docs'[d0 + j], chunks'[bounds[j]..bounds[j + 1]], Pass)
    {
      assert docs'[d0 + j] == docs[d0 + j];
      assert chunks'[bounds[j]..bounds[j + 1]] == chunks[bounds[j]..bounds[j + 1]];
    }
  }

  /** One more file that passed, whose chunk rows are those appended. */
  lemma IngestedGrows(listed: seq<(Document, string)>, readers: Readers, encode: string -> Embedding,
                      docs: seq<DocumentRow>, chunks: seq<ChunkRow>, docs': seq<DocumentRow>, chunks': seq<ChunkRow>,
                      d0: int, bounds: seq<int>)
    requires Ingested(listed, readers, encode, docs, chunks, d0, bounds)
    requires |bounds| <= |listed| && bounds[|bounds| - 1] == |chunks| && |docs| == d0 + |bounds| - 1
    requires |docs| < |docs'| && docs'[..|docs|] == docs
    requires |chunks| <= |chunks'| && chunks'[..|chunks|] == chunks
    requires FileStored(listed[|bounds| - 1].1, readers, encode, listed[|bounds| - 1].0, docs'[|docs|], chunks'[|chunks|..], Pass)
    ensures Ingested(listed, readers, encode, docs', chunks', d0, bounds + [|chunks'|])
  {
    IngestedPrefix(listed, readers, encode, docs, chunks, docs', chunks', d0, bounds);
    var b := bounds + [|chunks'|];
    forall j, k | 0 <= j <= k < |b| ensures 0 <= b[j] <= b[k] <= |chunks'| {
      assert j < |bounds| ==> b[j] == bounds[j] && bounds[j] <= bounds[|bounds| - 1];
      assert k < |bounds| ==> b[k] == bounds[k];
    }
    forall j | 0 <= j < |b| - 1
      ensures FileStored(listed[j].1, readers, encode, listed[j].0, docs'[d0 + j], chunks'[b[j]..b[j + 1]], Pass)
    {
      if j < |bounds| - 1 {
        assert b[j] == bounds[j] && b[j + 1] == bounds[j + 1];
      } else {
        assert b[j] == |chunks| && b[j + 1] == |chunks'|;
      }
    }
  }

  /** The ingestion loop over the listed files, in order, stopping at the
      first file that raises. `bounds` marks where each file's chunk rows
      begin and end. When every file passes, file `j` has the new Document
      row `j` and the chunk rows between `bounds[j]` and `bounds[j + 1]`,
      which hold the chunking of its content. When file `i` raises, the
      files before it are stored the same way, file `i` has its Document row
      and no chunk row, and nothing comes after it. */
  method Ingest(db: DocumentDB, listed: seq<(Document, string)>, readers: Readers, encode: string -> Embedding)
    returns (r: Outcome<Error>, ghost bounds: seq<int>)
    requires db.Valid()
    modifies db
    ensures db.Valid()
    ensures |db.documents| >= |old(db.documents)| && db.documents[..|old(db.documents)|] == old(db.documents)
    ensures |db.chunks| >= |old(db.chunks)| && db.chunks[..|old(db.chunks)|] == old(db.chunks)
    ensures Ingested(listed, readers, encode, db.documents, db.chunks, |old(db.documents)|, bounds)
    ensures bounds[0] == |old(db.chunks)| && bounds[|bounds| - 1] == |db.chunks|
    ensures r.Pass? ==> |bounds| == |listed| + 1 && |db.documents| == |old(db.documents)| + |listed|
    ensures r.Fail? ==> var i := |bounds| - 1;
              && i < |listed| && |db.documents| == |old(db.documents)| + i + 1
              && FileStored(listed[i].1, readers, encode, listed[i].0, db.documents[|old(db.documents)| + i], [], r)
  {
    ghost var docs0 := db.documents;
    ghost var chunks0 := db.chunks;
    bounds := [|db.chunks|];
    var i := 0;
    while i < |listed|
      invariant 0 <= i <= |listed|
      invariant db.Valid()
      invariant |db.documents| == |docs0| + i && db.documents[..|docs0|] == docs0
      invariant |db.chunks| >= |chunks0| && db.chunks[..|chunks0|] == chunks0
      invariant |bounds| == i + 1 && bounds[0] == |chunks0| && bounds[i] == |db.chunks|
      invariant Ingested(listed, readers, encode, db.documents, db.chunks, |docs0|, bounds)
    {
      ghost var docsBefore := db.documents;
      ghost var chunksBefore := db.chunks;
      r := IngestOne(db, listed[i].0, listed[i].1, readers, encode);
      PrefixExtends(docs0, docsBefore, db.documents);
      PrefixExtends(chunks0, chunksBefore, db.chunks);
      if r.Fail? {
        assert db.chunks[|chunksBefore|..] == [];
        IngestedPrefix(listed, readers, encode, docsBefore, chunksBefore, db.documents, db.chunks, |docs0|, bounds);
        return;
      }
      IngestedGrows(listed, readers, encode, docsBefore, chunksBefore, db.documents, db.chunks, |docs0|, bounds);
      bounds := bounds + [|db.chunks|];
      i := i + 1;
    }
    return Pass, bounds;
  }
}
