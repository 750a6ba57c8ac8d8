/** The vector index: a Document table and a Chunk table held in memory,
    with the reads (`get_document`, `get_chunks`, `get_k_nearest`) as
    functions of the tables and the inserts as methods that append a row.
    The cosine distance of sqlite-vec is the parameter `distance`. */
module DocumentStore {
  import opened Wrappers
  import opened Models
  import Ranking

  /** The cut-off of `WHERE query_distance <= 0.65`. */
  const MaxDistance: real := 0.65

  datatype DocumentRow = DocumentRow(id: int, name: string, category: string, url: Option<string>)

  datatype ChunkRow = ChunkRow(rowid: int, documentId: int, content: string, emb384: Embedding, emb3: Option<Embedding>)

  /** One row of the nearest-neighbour join: a chunk, its document and their distance. */
  datatype Hit = Hit(row: ChunkRow, doc: DocumentRow, distance: real)

  /** `Document(id=row['id'], name=..., category=..., url=...)`. */
  function ToDocument(row: DocumentRow): Document
  {
    Document(Some(row.id), row.name, row.category, row.url)
  }

  /** The `Chunk(...)` built by `get_chunks`: stored columns only. */
  function ToChunk(row: ChunkRow): Chunk
  {
    Chunk(Some(row.rowid), row.documentId, row.content, row.emb384, row.emb3, None, None, None, None, None)
  }

  /** The `Chunk(...)` built by `get_k_nearest`: stored columns, the distance
      and the joined document as `source`. */
  function HitChunk(h: Hit): Chunk
  {
    Chunk(Some(h.row.rowid), h.row.documentId, h.row.content, h.row.emb384, h.row.emb3,
          Some(h.distance),
          Some(Document(Some(h.row.documentId), h.doc.name, h.doc.category, h.doc.url)),
          None, None, None)
  }

  /** `if ids:` — None and [] select every row, otherwise `WHERE id IN ids`. */
  predicate Selects(ids: Option<seq<int>>, id: int)
  {
    ids == None || ids == Some([]) || id in ids.value
  }

  /** Ids strictly increasing in table order, as rowids handed out by
      SQLite (one more than the largest) are. */
  ghost predicate Increasing(ids: seq<int>)
  {
    forall p, q :: 0 <= p < q < |ids| ==> ids[p] < ids[q]
  }

  function DocumentIds(rows: seq<DocumentRow>): (r: seq<int>)
    ensures |r| == |rows| && forall p :: 0 <= p < |rows| ==> r[p] == rows[p].id
  {
    seq(|rows|, p requires 0 <= p < |rows| => rows[p].id)
  }

  function ChunkIds(rows: seq<ChunkRow>): (r: seq<int>)
    ensures |r| == |rows| && forall p :: 0 <= p < |rows| ==> r[p] == rows[p].rowid
  {
    seq(|rows|, p requires 0 <= p < |rows| => rows[p].rowid)
  }

  /** The rowid SQLite gives the next inserted row: one more than the largest. */
  function NextId(ids: seq<int>): (r: int)
    requires Increasing(ids)
    ensures forall p :: 0 <= p < |ids| ==> ids[p] < r
  {
    if ids == [] then 1 else ids[|ids| - 1] + 1
  }

  /** `d` is built from a row whose id the filter selects. */
  ghost predicate DocumentSelected(rows: seq<DocumentRow>, ids: Option<seq<int>>, d: Document)
  {
    exists j :: 0 <= j < |rows| && Selects(ids, rows[j].id) && d == ToDocument(rows[j])
  }

  /** `c` is built from a row whose rowid the filter selects. */
  ghost predicate ChunkSelected(rows: seq<ChunkRow>, ids: Option<seq<int>>, c: Chunk)
  {
    exists j :: 0 <= j < |rows| && Selects(ids, rows[j].rowid) && c == ToChunk(rows[j])
  }

  function SelectDocuments(rows: seq<DocumentRow>, ids: Option<seq<int>>): (r: seq<Document>)
    ensures |r| <= |rows|
    ensures forall d :: d in r <==> DocumentSelected(rows, ids, d)
    decreases |rows|
  {
    if rows == [] then []
    else
      var rest := SelectDocuments(rows[1..], ids);
      assert forall j :: 1 <= j < |rows| ==> rows[j] == rows[1..][j - 1];
      if Selects(ids, rows[0].id) then [ToDocument(rows[0])] + rest else rest
  }

  function SelectChunks(rows: seq<ChunkRow>, ids: Option<seq<int>>): (r: seq<Chunk>)
    ensures |r| <= |rows|
    ensures forall c :: c in r <==> ChunkSelected(rows, ids, c)
    decreases |rows|
  {
    if rows == [] then []
    else
      var rest := SelectChunks(rows[1..], ids);
      assert forall j :: 1 <= j < |rows| ==> rows[j] == rows[1..][j - 1];
      if Selects(ids, rows[0].rowid) then [ToChunk(rows[0])] + rest else rest
  }

  /** Without a filter every chunk row comes back, in table order. */
  lemma {:induction false} UnfilteredChunks(rows: seq<ChunkRow>, ids: Option<seq<int>>)
    requires ids.None? || ids.value == []
    ensures |SelectChunks(rows, ids)| == |rows|
    ensures forall p :: 0 <= p < |rows| ==> SelectChunks(rows, ids)[p] == ToChunk(rows[p])
    decreases |rows|
  {
    if rows != [] {
      UnfilteredChunks(rows[1..], ids);
      assert SelectChunks(rows, ids) == [ToChunk(rows[0])] + SelectChunks(rows[1..], ids);
    }
  }

  /** What SQLite reports for a filter on `id` in the Chunk table: its vec0
      schema declares emb_384d, emb_3d, content and document_id, and its
      rowid is not called `id`. */
  const NoIdColumn := "no such column: id"

  /** `get_chunks` as it stands. A non-empty `ids` appends `WHERE id IN
      (...)`, which names a column the Chunk table does not have, so SQLite
      refuses the statement before reading any row. Without a filter every
      row comes back, in table order. */
  function SelectChunksAsWritten(rows: seq<ChunkRow>, ids: Option<seq<int>>): (r: Result<seq<Chunk>, Error>)
    ensures ids.Some? && ids.value != [] ==> r == Failure(OperationalError(NoIdColumn))
    ensures ids.None? || ids.value == [] ==>
              r.Success? && |r.value| == |rows| && forall p :: 0 <= p < |rows| ==> r.value[p] == ToChunk(rows[p])
  {
    if ids.Some? && ids.value != [] then Failure(OperationalError(NoIdColumn))
    else
      UnfilteredChunks(rows, ids);
      Success(SelectChunks(rows, ids))
  }

  /** As written, `get_chunks` gives the intended answer exactly when it is
      called without a filter: with a filter it fails, even where the
      intended read has no row to return. */
  lemma ChunkReadAsWrittenFails(rows: seq<ChunkRow>, ids: Option<seq<int>>)
    ensures SelectChunksAsWritten(rows, ids) == Success(SelectChunks(rows, ids)) <==> ids.None? || ids.value == []
  {
  }

  /** `get_chunks(conn, [1])` on a table whose one row has rowid 1: that
      row is intended, OperationalError is what happens. */
  lemma FilteredReadAsWrittenFails()
    ensures var row := ChunkRow(1, 1, "a", [0.0], None);
            && SelectChunks([row], Some([1])) == [ToChunk(row)]
            && SelectChunksAsWritten([row], Some([1])) == Failure(OperationalError(NoIdColumn))
  {
    var row := ChunkRow(1, 1, "a", [0.0], None);
    assert SelectChunks([row][1..], Some([1])) == [];
  }

  /** `pos` lists, in increasing order, exactly the positions `j` whose key
      the filter selects: each selected row once, in table order. */
  ghost predicate SelectedPositions(keys: seq<int>, ids: Option<seq<int>>, pos: seq<int>)
  {
    PositionsSelected(keys, ids, pos) && Increasing(pos) && PositionsComplete(keys, ids, pos)
  }

  /** Every listed position is a row whose key is selected. */
  ghost predicate PositionsSelected(keys: seq<int>, ids: Option<seq<int>>, pos: seq<int>)
  {
    forall p :: 0 <= p < |pos| ==> 0 <= pos[p] < |keys| && Selects(ids, keys[pos[p]])
  }

  /** Every row whose key is selected is listed. */
  ghost predicate PositionsComplete(keys: seq<int>, ids: Option<seq<int>>, pos: seq<int>)
  {
    forall j :: 0 <= j < |keys| && Selects(ids, keys[j]) ==> j in pos
  }

  /** Every position one further on. */
  function Shift(pos: seq<int>): (r: seq<int>)
    ensures |r| == |pos| && forall p :: 0 <= p < |pos| ==> r[p] == pos[p] + 1
  {
    seq(|pos|, p requires 0 <= p < |pos| => pos[p] + 1)
  }

  /** The selected positions of a table: its first row's, when selected,
      then those of the rest, one further on. */
  function ConsPositions(keys: seq<int>, ids: Option<seq<int>>, tail: seq<int>): seq<int>
    requires keys != []
  {
    (if Selects(ids, keys[0]) then [0] else []) + Shift(tail)
  }

  lemma ConsSelected(keys: seq<int>, ids: Option<seq<int>>, tail: seq<int>)
    requires keys != [] && PositionsSelected(keys[1..], ids, tail)
    ensures PositionsSelected(keys, ids, ConsPositions(keys, ids, tail))
  {
    var pos := ConsPositions(keys, ids, tail);
    var h := if Selects(ids, keys[0]) then 1 else 0;
    forall p | 0 <= p < |pos| ensures 0 <= pos[p] < |keys| && Selects(ids, keys[pos[p]]) {
      if h <= p {
        assert pos[p] == tail[p - h] + 1;
        assert keys[1..][tail[p - h]] == keys[pos[p]];
      }
    }
  }

  lemma ConsIncreasing(keys: seq<int>, ids: Option<seq<int>>, tail: seq<int>)
    requires keys != [] && Increasing(tail)
    requires forall p :: 0 <= p < |tail| ==> 0 <= tail[p]
    ensures Increasing(ConsPositions(keys, ids, tail))
  {
    var pos := ConsPositions(keys, ids, tail);
    var h := if Selects(ids, keys[0]) then 1 else 0;
    forall p, q | 0 <= p < q < |pos| ensures pos[p] < pos[q] {
      assert pos[q] == tail[q - h] + 1;
      if h <= p {
        assert pos[p] == tail[p - h] + 1;
      }
    }
  }

  lemma ConsComplete(keys: seq<int>, ids: Option<seq<int>>, tail: seq<int>)
    requires keys != [] && PositionsComplete(keys[1..], ids, tail)
    ensures PositionsComplete(keys, ids, ConsPositions(keys, ids, tail))
  {
    var pos := ConsPositions(keys, ids, tail);
    var h := if Selects(ids, keys[0]) then 1 else 0;
    forall j | 0 <= j < |keys| && Selects(ids, keys[j]) ensures j in pos {
      if j == 0 {
        assert pos[0] == 0;
      } else {
        assert keys[1..][j - 1] == keys[j];
        var p :| 0 <= p < |tail| && tail[p] == j - 1;
        assert pos[h + p] == j;
      }
    }
  }

  lemma SelectedPositionsCons(keys: seq<int>, ids: Option<seq<int>>, tail: seq<int>)
    requires keys != [] && SelectedPositions(keys[1..], ids, tail)
    ensures SelectedPositions(keys, ids, ConsPositions(keys, ids, tail))
  {
    ConsSelected(keys, ids, tail);
    ConsIncreasing(keys, ids, tail);
    ConsComplete(keys, ids, tail);
  }

  /** `r[p]` is the image under `f` of the row at position `pos[p]`. */
  ghost predicate MapsAt<T, U>(rows: seq<T>, f: T -> U, pos: seq<int>, r: seq<U>)
  {
    |pos| == |r| && forall p :: 0 <= p < |pos| ==> 0 <= pos[p] < |rows| && r[p] == f(rows[pos[p]])
  }

  /** One step of the in-order proofs: consing a row onto the table conses
      its image onto the selection and position 0 onto the positions. */
  lemma MappedCons<T, U>(rows: seq<T>, f: T -> U, sel: bool, tail: seq<int>, rest: seq<U>, pos: seq<int>, r: seq<U>)
    requires rows != [] && MapsAt(rows[1..], f, tail, rest)
    requires pos == (if sel then [0] else []) + Shift(tail)
    requires r == (if sel then [f(rows[0])] else []) + rest
    ensures MapsAt(rows, f, pos, r)
  {
    var h := if sel then 1 else 0;
    forall p | 0 <= p < |pos| ensures 0 <= pos[p] < |rows| && r[p] == f(rows[pos[p]]) {
      if h <= p {
        assert pos[p] == tail[p - h] + 1 && r[p] == rest[p - h];
        assert rows[1..][tail[p - h]] == rows[pos[p]];
      }
    }
  }

  /** `get_document`'s rows are the rows at the selected positions, each
      once, in table order. */
  lemma {:induction false} SelectDocumentsInOrder(rows: seq<DocumentRow>, ids: Option<seq<int>>)
    ensures exists pos :: SelectedPositions(DocumentIds(rows), ids, pos) && MapsAt(rows, ToDocument, pos, SelectDocuments(rows, ids))
    decreases |rows|
  {
    if rows == [] {
      assert SelectedPositions(DocumentIds(rows), ids, []) && MapsAt(rows, ToDocument, [], SelectDocuments(rows, ids));
    } else {
      SelectDocumentsInOrder(rows[1..], ids);
      var tail :| SelectedPositions(DocumentIds(rows[1..]), ids, tail) && MapsAt(rows[1..], ToDocument, tail, SelectDocuments(rows[1..], ids));
      assert DocumentIds(rows)[1..] == DocumentIds(rows[1..]);
      SelectedPositionsCons(DocumentIds(rows), ids, tail);
      var pos := ConsPositions(DocumentIds(rows), ids, tail);
      MappedCons(rows, ToDocument, Selects(ids, rows[0].id), tail, SelectDocuments(rows[1..], ids), pos, SelectDocuments(rows, ids));
    }
  }

  /** `get_chunks`' rows are the rows at the selected positions, each once,
      in table order. */
  lemma {:induction false} SelectChunksInOrder(rows: seq<ChunkRow>, ids: Option<seq<int>>)
    ensures exists pos :: SelectedPositions(ChunkIds(rows), ids, pos) && MapsAt(rows, ToChunk, pos, SelectChunks(rows, ids))
    decreases |rows|
  {
    if rows == [] {
      assert SelectedPositions(ChunkIds(rows), ids, []) && MapsAt(rows, ToChunk, [], SelectChunks(rows, ids));
    } else {
      SelectChunksInOrder(rows[1..], ids);
      var tail :| SelectedPositions(ChunkIds(rows[1..]), ids, tail) && MapsAt(rows[1..], ToChunk, tail, SelectChunks(rows[1..], ids));
      assert ChunkIds(rows)[1..] == ChunkIds(rows[1..]);
      SelectedPositionsCons(ChunkIds(rows), ids, tail);
      var pos := ConsPositions(ChunkIds(rows), ids, tail);
      MappedCons(rows, ToChunk, Selects(ids, rows[0].rowid), tail, SelectChunks(rows[1..], ids), pos, SelectChunks(rows, ids));
    }
  }

  /** The first document row with the given id (the primary key makes it the only one). */
  function FindDocument(docs: seq<DocumentRow>, id: int): (r: Option<DocumentRow>)
    ensures r.Some? ==> r.value in docs && r.value.id == id
    ensures r.None? ==> forall d :: d in docs ==> d.id != id
    decreases |docs|
  {
    if docs == [] then None
    else if docs[0].id == id then Some(docs[0])
    else FindDocument(docs[1..], id)
  }

  /** Some joined row is the chunk row `c`. */
  ghost predicate HasRow(hits: seq<Hit>, c: ChunkRow)
  {
    exists h :: h in hits && h.row == c
  }

  /** The rows of `Chunk JOIN Document ... WHERE query_distance <= 0.65`, in
      chunk-table order. */
  function JoinWithin(chunks: seq<ChunkRow>, docs: seq<DocumentRow>, embedding: Embedding,
                      distance: (Embedding, Embedding) -> real): (r: seq<Hit>)
    ensures |r| <= |chunks|
    ensures forall h :: h in r ==>
      && h.row in chunks && h.doc in docs && h.doc.id == h.row.documentId
      && h.distance == distance(h.row.emb384, embedding) && h.distance <= MaxDistance
    ensures forall c, d ::
              c in chunks && d in docs && d.id == c.documentId && distance(c.emb384, embedding) <= MaxDistance
              ==> HasRow(r, c)
    decreases |chunks|
  {
    if chunks == [] then []
    else
      var rest := JoinWithin(chunks[1..], docs, embedding, distance);
      var c := chunks[0];
      var found := FindDocument(docs, c.documentId);
      var dist := distance(c.emb384, embedding);
      assert forall x :: x in chunks ==> x == c || x in chunks[1..];
      if found.Some? && dist <= MaxDistance then [Hit(c, found.value, dist)] + rest else rest
  }

  /** Joined rows whose chunk rowids strictly increase. */
  ghost predicate RowidsIncrease(hits: seq<Hit>)
  {
    forall p, q :: 0 <= p < q < |hits| ==> hits[p].row.rowid < hits[q].row.rowid
  }

  /** Joined rows no two of which are the same chunk row. */
  ghost predicate DistinctRowids(hits: seq<Hit>)
  {
    forall p, q :: 0 <= p < q < |hits| ==> hits[p].row.rowid != hits[q].row.rowid
  }

  /** The join keeps table order, so rowids that increase in the table
      increase in the joined rows. */
  lemma {:induction false} JoinWithinIncreasing(chunks: seq<ChunkRow>, docs: seq<DocumentRow>, embedding: Embedding,
                                                distance: (Embedding, Embedding) -> real)
    ensures Increasing(ChunkIds(chunks)) ==> RowidsIncrease(JoinWithin(chunks, docs, embedding, distance))
    decreases |chunks|
  {
    if chunks != [] && Increasing(ChunkIds(chunks)) {
      IncreasingTail(chunks);
      JoinWithinIncreasing(chunks[1..], docs, embedding, distance);
      var rest := JoinWithin(chunks[1..], docs, embedding, distance);
      var found := FindDocument(docs, chunks[0].documentId);
      var dist := distance(chunks[0].emb384, embedding);
      if found.Some? && dist <= MaxDistance {
        var x := Hit(chunks[0], found.value, dist);
        assert forall h :: h in rest ==> x.row.rowid < h.row.rowid;
        ConsIncrease(x, rest);
      }
    }
  }

  /** A row below every later rowid can go in front. */
  lemma ConsIncrease(x: Hit, rest: seq<Hit>)
    requires RowidsIncrease(rest)
    requires forall h :: h in rest ==> x.row.rowid < h.row.rowid
    ensures RowidsIncrease([x] + rest)
  {
    var r := [x] + rest;
    forall p, q | 0 <= p < q < |r| ensures r[p].row.rowid < r[q].row.rowid {
      assert r[q] == rest[q - 1];
      if p > 0 {
        assert r[p] == rest[p - 1];
      }
    }
  }

  /** Dropping the first row keeps rowids increasing, and the first row's
      rowid is below every later one. */
  lemma IncreasingTail(chunks: seq<ChunkRow>)
    requires chunks != []
    ensures Increasing(ChunkIds(chunks)) ==> Increasing(ChunkIds(chunks[1..]))
    ensures Increasing(ChunkIds(chunks)) ==> forall x :: x in chunks[1..] ==> chunks[0].rowid < x.rowid
  {
    if Increasing(ChunkIds(chunks)) {
      var ids := ChunkIds(chunks);
      var tail := ChunkIds(chunks[1..]);
      forall p, q | 0 <= p < q < |tail| ensures tail[p] < tail[q] {
        assert tail[p] == ids[p + 1] && tail[q] == ids[q + 1];
      }
      forall x | x in chunks[1..] ensures chunks[0].rowid < x.rowid {
        var j :| 0 <= j < |chunks[1..]| && chunks[1..][j] == x;
        assert ids[0] < ids[j + 1];
      }
    }
  }

  /** The joined rows in `ORDER BY query_distance` order: the same rows,
      nearest first. SQL leaves the order of equal distances open; the model
      keeps them in table order. */
  function OrderByDistance(hits: seq<Hit>): (r: seq<Hit>)
    ensures |r| == |hits|
    ensures multiset(r) == multiset(hits)
    ensures SortedByDistance(r)
    decreases |hits|
  {
    if hits == [] then []
    else
      assert hits == [hits[0]] + hits[1..];
      InsertByDistance(hits[0], OrderByDistance(hits[1..]))
  }

  /** Puts `h` in front of the first row that is not nearer than it. */
  function InsertByDistance(h: Hit, s: seq<Hit>): (r: seq<Hit>)
    requires SortedByDistance(s)
    ensures |r| == |s| + 1
    ensures multiset(r) == multiset(s) + multiset{h}
    ensures SortedByDistance(r)
    decreases |s|
  {
    if s == [] || h.distance <= s[0].distance then
      ConsSorted(h, s);
      [h] + s
    else
      var t := InsertByDistance(h, s[1..]);
      HeadBelowTail(s);
      BoundedByMultiset(t, s[1..], h, s[0].distance);
      ConsSorted(s[0], t);
      assert s == [s[0]] + s[1..];
      [s[0]] + t
  }

  /** Rows in ascending distance. */
  ghost predicate SortedByDistance(s: seq<Hit>)
  {
    forall p, q :: 0 <= p < q < |s| ==> s[p].distance <= s[q].distance
  }

  /** A row no farther than every row of a sorted sequence can go in front. */
  lemma ConsSorted(x: Hit, s: seq<Hit>)
    requires SortedByDistance(s)
    requires forall q :: 0 <= q < |s| ==> x.distance <= s[q].distance
    ensures SortedByDistance([x] + s)
  {
    var r := [x] + s;
    forall p, q | 0 <= p < q < |r| ensures r[p].distance <= r[q].distance {
      assert r[q] == s[q - 1];
      if p > 0 {
        assert r[p] == s[p - 1];
      }
    }
  }

  /** The first row of a sorted sequence is no farther than any later one. */
  lemma HeadBelowTail(s: seq<Hit>)
    requires s != [] && SortedByDistance(s)
    ensures SortedByDistance(s[1..])
    ensures forall x :: x in s[1..] ==> s[0].distance <= x.distance
  {
    forall p, q | 0 <= p < q < |s[1..]| ensures s[1..][p].distance <= s[1..][q].distance {
      assert s[1..][p] == s[p + 1] && s[1..][q] == s[q + 1];
    }
    forall x | x in s[1..] ensures s[0].distance <= x.distance {
      var j :| 0 <= j < |s[1..]| && s[1..][j] == x;
      assert s[1..][j] == s[j + 1];
    }
  }

  /** A lower bound on the rows of `u` and on `h` bounds every row of a
      sequence holding exactly those. */
  lemma BoundedByMultiset(t: seq<Hit>, u: seq<Hit>, h: Hit, bound: real)
    requires multiset(t) == multiset(u) + multiset{h}
    requires forall x :: x in u ==> bound <= x.distance
    requires bound <= h.distance
    ensures forall q :: 0 <= q < |t| ==> bound <= t[q].distance
  {
    forall q | 0 <= q < |t| ensures bound <= t[q].distance {
      assert t[q] in multiset(t);
      if t[q] != h {
        assert t[q] in multiset(u);
      }
    }
  }

  /** `LIMIT k`; SQLite reads a negative limit as no limit. */
  function Limit<T>(s: seq<T>, k: int): (r: seq<T>)
    ensures |r| == if 0 <= k < |s| then k else |s|
    ensures r == s[..|r|]
  {
    if 0 <= k < |s| then s[..k] else s
  }

  /** `ORDER BY query_distance LIMIT k` over the joined rows: the `k`
      nearest, nearest first; a candidate left out is no nearer than any row
      kept. */
  function Nearest(candidates: seq<Hit>, k: int): (r: seq<Hit>)
    ensures |r| == if 0 <= k < |candidates| then k else |candidates|
    ensures multiset(r) <= multiset(candidates)
    ensures forall h :: h in r ==> h in candidates
    ensures forall p, q :: 0 <= p < q < |r| ==> r[p].distance <= r[q].distance
    ensures forall h :: h in candidates && h !in r ==>
              |r| == k && forall p :: 0 <= p < |r| ==> r[p].distance <= h.distance
  {
    var ordered := OrderByDistance(candidates);
    LimitKeepsNearest(candidates, ordered, k);
    Limit(ordered, k)
  }

  /** `LIMIT k` over the candidates in ascending distance keeps them in
      that order and takes each at most as often as it is a candidate, and
      every candidate it drops is no nearer than any row it keeps. */
  lemma LimitKeepsNearest(candidates: seq<Hit>, ordered: seq<Hit>, k: int)
    requires multiset(ordered) == multiset(candidates)
    requires SortedByDistance(ordered)
    ensures var r := Limit(ordered, k);
            && multiset(r) <= multiset(candidates)
            && (forall h :: h in r ==> h in candidates)
            && (forall p, q :: 0 <= p < q < |r| ==> r[p].distance <= r[q].distance)
            && (forall h :: h in candidates && h !in r ==>
                  |r| == k && forall p :: 0 <= p < |r| ==> r[p].distance <= h.distance)
  {
    var r := Limit(ordered, k);
    assert ordered == r + ordered[|r|..];
    assert multiset(r) <= multiset(ordered);
    forall h | h in r ensures h in candidates {
      assert h in multiset(r);
    }
    forall h | h in candidates && h !in r
      ensures |r| == k && forall p :: 0 <= p < |r| ==> r[p].distance <= h.distance
    {
      assert h in multiset(ordered);
      var i :| 0 <= i < |ordered| && ordered[i] == h;
      assert |r| <= i;
    }
  }

  /** Rows with strictly increasing rowids keep distinct rowids through
      `ORDER BY query_distance LIMIT k`: no chunk comes back twice. */
  lemma NearestDistinct(candidates: seq<Hit>, k: int)
    ensures RowidsIncrease(candidates) ==> DistinctRowids(Nearest(candidates, k))
  {
    var r := Nearest(candidates, k);
    if RowidsIncrease(candidates) {
      forall p, q | 0 <= p < q < |r| ensures r[p].row.rowid != r[q].row.rowid {
        var i :| 0 <= i < |candidates| && candidates[i] == r[p];
        var j :| 0 <= j < |candidates| && candidates[j] == r[q];
        Twice(r, p, q);
        Once(candidates, r[p]);
        assert r[p] != r[q];
        if i < j {
          assert candidates[i].row.rowid < candidates[j].row.rowid;
        } else {
          assert i != j;
          assert candidates[j].row.rowid < candidates[i].row.rowid;
        }
      }
    }
  }

  /** A value at two positions is counted at least twice. */
  lemma Twice<T>(s: seq<T>, p: nat, q: nat)
    requires p < q < |s|
    ensures s[p] == s[q] ==> multiset(s)[s[p]] >= 2
  {
    assert s == s[..q] + s[q..];
    assert s[p] == s[..q][p];
    assert s[q] == s[q..][0];
  }

  /** In a sequence whose rowids strictly increase, every row is counted at most once. */
  lemma {:induction false} Once(s: seq<Hit>, x: Hit)
    requires forall i, j :: 0 <= i < j < |s| ==> s[i].row.rowid < s[j].row.rowid
    ensures multiset(s)[x] <= 1
    decreases |s|
  {
    if s != [] {
      Once(s[1..], x);
      assert s == [s[0]] + s[1..];
      if x == s[0] {
        forall y | y in s[1..] ensures y != x {
          var j :| 0 <= j < |s[1..]| && s[1..][j] == y;
          assert s[0].row.rowid < s[j + 1].row.rowid;
        }
        assert x !in s[1..];
      }
    }
  }

  /** `h` joins a stored chunk row with its document, at that row's
      distance from the query, within 0.65. */
  ghost predicate Joined(chunks: seq<ChunkRow>, docs: seq<DocumentRow>, embedding: Embedding,
                         distance: (Embedding, Embedding) -> real, h: Hit)
  {
    && h.row in chunks && h.doc in docs && h.doc.id == h.row.documentId
    && h.distance == distance(h.row.emb384, embedding) && h.distance <= MaxDistance
  }

  /** `x` is the Chunk `get_k_nearest` builds from a stored chunk row joined
      with its document, at that row's distance from the query, within 0.65. */
  ghost predicate FromRow(chunks: seq<ChunkRow>, docs: seq<DocumentRow>, embedding: Embedding,
                          distance: (Embedding, Embedding) -> real, x: Chunk)
  {
    exists c, d :: c in chunks && d in docs && d.id == c.documentId
      && distance(c.emb384, embedding) <= MaxDistance
      && x == HitChunk(Hit(c, d, distance(c.emb384, embedding)))
  }

  /** `x` carries as `source` a stored document whose id is its `document_id`. */
  ghost predicate SourcedFrom(docs: seq<DocumentRow>, x: Chunk)
  {
    x.source.Some? && exists d :: d in docs && d.id == x.documentId && x.source.value == ToDocument(d)
  }

  /** The Chunks built from the joined rows, in order. */
  function HitChunks(hits: seq<Hit>): (r: seq<Chunk>)
    ensures |r| == |hits| && forall p :: 0 <= p < |hits| ==> r[p] == HitChunk(hits[p])
  {
    seq(|hits|, p requires 0 <= p < |hits| => HitChunk(hits[p]))
  }

  /** What `get_k_nearest` promises of its rows carries over to the Chunks
      built from them. */
  lemma HitChunksFacts(hits: seq<Hit>, chunks: seq<ChunkRow>, docs: seq<DocumentRow>, embedding: Embedding,
                       distance: (Embedding, Embedding) -> real, k: int)
    requires 0 <= k ==> |hits| <= k
    requires forall h :: h in hits ==> Joined(chunks, docs, embedding, distance, h)
    requires forall p, q :: 0 <= p < q < |hits| ==> hits[p].distance <= hits[q].distance
    ensures var r := HitChunks(hits);
            && (0 <= k ==> |r| <= k)
            && (forall p :: 0 <= p < |r| ==> FromRow(chunks, docs, embedding, distance, r[p]))
            && (forall p :: 0 <= p < |r| ==> r[p].distance.Some? && r[p].distance.value <= MaxDistance)
            && (forall p, q :: 0 <= p < q < |r| ==> r[p].distance.value <= r[q].distance.value)
            && (forall p :: 0 <= p < |r| ==> SourcedFrom(docs, r[p]))
            && (DistinctRowids(hits) ==>
                  forall p, q :: 0 <= p < q < |r| ==> r[p].id != r[q].id)
  {
    var r := HitChunks(hits);
    forall p | 0 <= p < |r|
      ensures FromRow(chunks, docs, embedding, distance, r[p])
      ensures SourcedFrom(docs, r[p])
    {
      assert hits[p] in hits;
      assert r[p] == HitChunk(Hit(hits[p].row, hits[p].doc, distance(hits[p].row.emb384, embedding)));
      assert r[p].source.value == ToDocument(hits[p].doc);
    }
  }

  /** The Chunks `get_k_nearest` builds from the `k` nearest of the joined
      rows keep what the join promises, and no chunk comes back twice when
      the rowids increase. */
  lemma KNearestFacts(candidates: seq<Hit>, hits: seq<Hit>, chunks: seq<ChunkRow>, docs: seq<DocumentRow>,
                      embedding: Embedding, distance: (Embedding, Embedding) -> real, k: int)
    requires forall h :: h in candidates ==> Joined(chunks, docs, embedding, distance, h)
    requires hits == Nearest(candidates, k)
    ensures var r := HitChunks(hits);
            && (0 <= k ==> |r| <= k)
            && (forall p :: 0 <= p < |r| ==> FromRow(chunks, docs, embedding, distance, r[p]))
            && (forall p :: 0 <= p < |r| ==> r[p].distance.Some? && r[p].distance.value <= MaxDistance)
            && (forall p, q :: 0 <= p < q < |r| ==> r[p].distance.value <= r[q].distance.value)
            && (forall p :: 0 <= p < |r| ==> SourcedFrom(docs, r[p]))
            && (RowidsIncrease(candidates) ==> forall p, q :: 0 <= p < q < |r| ==> r[p].id != r[q].id)
  {
    HitChunksFacts(hits, chunks, docs, embedding, distance, k);
    NearestDistinct(candidates, k);
  }

  class DocumentDB {
    var documents: seq<DocumentRow>
    var chunks: seq<ChunkRow>

    /** Primary keys: ids unique and, as SQLite hands them out, increasing. */
    ghost predicate Valid()
      reads this
    {
      Increasing(DocumentIds(documents)) && Increasing(ChunkIds(chunks))
    }

    constructor ()
      ensures Valid() && documents == [] && chunks == []
    {
      documents := [];
      chunks := [];
    }

    /** `get_document`: every row for None or [], else the rows whose id is
        in `ids`; always in table order. */
    function GetDocument(ids: Option<seq<int>>): (r: seq<Document>)
      reads this
      ensures |r| <= |documents|
      ensures forall d :: d in r <==> exists j :: 0 <= j < |documents| && Selects(ids, documents[j].id) && d == ToDocument(documents[j])
      ensures exists pos :: SelectedPositions(DocumentIds(documents), ids, pos) && MapsAt(documents, ToDocument, pos, r)
    {
      SelectDocumentsInOrder(documents, ids);
      SelectDocuments(documents, ids)
    }

    /** `get_chunks`: every row for None or [], else the rows whose rowid is
        in `ids`; always in table order, without distance or source. */
    function GetChunks(ids: Option<seq<int>>): (r: seq<Chunk>)
      reads this
      ensures |r| <= |chunks|
      ensures forall c :: c in r <==> exists j :: 0 <= j < |chunks| && Selects(ids, chunks[j].rowid) && c == ToChunk(chunks[j])
      ensures exists pos :: SelectedPositions(ChunkIds(chunks), ids, pos) && MapsAt(chunks, ToChunk, pos, r)
    {
      SelectChunksInOrder(chunks, ids);
      SelectChunks(chunks, ids)
    }

    /** The chunks that pass the JOIN and the distance cut-off, before ordering. */
    function Candidates(embedding: Embedding, distance: (Embedding, Embedding) -> real): (r: seq<Hit>)
      reads this
      ensures forall h :: h in r ==>
        && h.row in chunks && h.doc in documents && h.doc.id == h.row.documentId
        && h.distance == distance(h.row.emb384, embedding) && h.distance <= MaxDistance
      ensures forall c, d ::
                c in chunks && d in documents && d.id == c.documentId && distance(c.emb384, embedding) <= MaxDistance
                ==> HasRow(r, c)
      ensures Valid() ==> RowidsIncrease(r)
    {
      JoinWithinIncreasing(chunks, documents, embedding, distance);
      JoinWithin(chunks, documents, embedding, distance)
    }

    /** `get_k_nearest`: at most `k` chunks (all of them for a negative `k`)
        within distance 0.65, nearest first, each carrying the document it
        joins with as `source`. */
    function GetKNearest(embedding: Embedding, k: int, distance: (Embedding, Embedding) -> real): (r: seq<Chunk>)
      reads this
      ensures 0 <= k ==> |r| <= k
      ensures forall p :: 0 <= p < |r| ==> FromRow(chunks, documents, embedding, distance, r[p])
      ensures forall p :: 0 <= p < |r| ==> r[p].distance.Some? && r[p].distance.value <= MaxDistance
      ensures forall p, q :: 0 <= p < q < |r| ==> r[p].distance.value <= r[q].distance.value
      ensures forall p :: 0 <= p < |r| ==> SourcedFrom(documents, r[p])
      ensures Valid() ==> forall p, q :: 0 <= p < q < |r| ==> r[p].id != r[q].id
    {
      var candidates := Candidates(embedding, distance);
      var hits := Nearest(candidates, k);
      KNearestFacts(candidates, hits, chunks, documents, embedding, distance, k);
      HitChunks(hits)
    }

    /** `add_document`: inserts name and category only (url stays NULL) and
        returns the new row's id, larger than every id before it. */
    method AddDocument(document: Document) returns (id: int)
      requires Valid()
      modifies this
      ensures Valid()
      ensures documents == old(documents) + [DocumentRow(id, document.name, document.category, None)]
      ensures chunks == old(chunks)
      ensures forall d :: d in old(documents) ==> d.id < id
    {
      id := NextId(DocumentIds(documents));
      documents := documents + [DocumentRow(id, document.name, document.category, None)];
      assert DocumentIds(documents) == DocumentIds(old(documents)) + [id];
    }

    /** `add_chunk`: appends one row with the chunk's embeddings, content and
        `document_id` and returns its rowid, larger than every rowid before it. */
    method AddChunk(chunk: Chunk) returns (id: int)
      requires Valid()
      modifies this
      ensures Valid()
      ensures chunks == old(chunks) + [ChunkRow(id, chunk.documentId, chunk.content, chunk.emb384, chunk.emb3)]
      ensures documents == old(documents)
      ensures forall c :: c in old(chunks) ==> c.rowid < id
    {
      id := NextId(ChunkIds(chunks));
      chunks := chunks + [ChunkRow(id, chunk.documentId, chunk.content, chunk.emb384, chunk.emb3)];
      assert ChunkIds(chunks) == ChunkIds(old(chunks)) + [id];
    }
  }

  /** The chunk with row id `id` and text `content`, at distance `dist` from
      the query, is in the result `r`, or `r` holds `k` chunks none of which
      is farther than it. */
  ghost predicate Covered(r: seq<Chunk>, k: int, id: int, content: string, dist: real)
  {
    || (exists p :: 0 <= p < |r| && r[p].id == Some(id) && r[p].content == content)
    || (|r| == k && forall p :: 0 <= p < |r| ==> r[p].distance.Some? && r[p].distance.value <= dist)
  }

  /** The k-nearest property of `get_k_nearest`: a chunk that joins with a
      document and lies within the cut-off is returned, unless `k` rows were
      returned, each at least as near as it. So when fewer than `k` chunks
      qualify, all of them are returned. */
  lemma KNearestComplete(db: DocumentDB, embedding: Embedding, k: int, distance: (Embedding, Embedding) -> real,
                         c: ChunkRow, d: DocumentRow)
    requires c in db.chunks && d in db.documents && d.id == c.documentId
    requires distance(c.emb384, embedding) <= MaxDistance
    ensures Covered(db.GetKNearest(embedding, k, distance), k, c.rowid, c.content, distance(c.emb384, embedding))
  {
    var candidates := db.Candidates(embedding, distance);
    assert db.GetKNearest(embedding, k, distance) == HitChunks(Nearest(candidates, k));
    var h :| h in candidates && h.row == c;
    NearestComplete(candidates, k, h);
  }

  /** The same for the joined rows: a candidate is among the Chunks built
      from the `k` nearest, or `k` Chunks were built, none farther than it. */
  lemma NearestComplete(candidates: seq<Hit>, k: int, h: Hit)
    requires h in candidates
    ensures Covered(HitChunks(Nearest(candidates, k)), k, h.row.rowid, h.row.content, h.distance)
  {
    var hits := Nearest(candidates, k);
    var r := HitChunks(hits);
    if h in hits {
      var p :| 0 <= p < |hits| && hits[p] == h;
      assert r[p] == HitChunk(h);
    }
  }

  /** One document, one chunk, and a query at distance 0 from it: the one
      nearest chunk is that chunk, at distance 0, with its document as source. */
  lemma SingleChunkFound(db: DocumentDB, e: Embedding, distance: (Embedding, Embedding) -> real)
    requires db.documents == [DocumentRow(1, "resume", "career", None)]
    requires db.chunks == [ChunkRow(1, 1, "5 years of data engineering", e, None)]
    requires distance(e, e) == 0.0
    ensures var r := db.GetKNearest(e, 1, distance);
            && |r| == 1 && r[0].id == Some(1) && r[0].content == "5 years of data engineering"
            && r[0].distance == Some(0.0)
            && r[0].source == Some(Document(Some(1), "resume", "career", None))
  {
    var c := db.chunks[0];
    var d := db.documents[0];
    var candidates := db.Candidates(e, distance);
    assert db.chunks[1..] == [];
    assert candidates == [Hit(c, d, 0.0)];
    var hits := Nearest(candidates, 1);
    assert |hits| == 1 && hits[0] in candidates;
    assert db.GetKNearest(e, 1, distance) == HitChunks(hits);
  }
}
