/** `Context.context`: the grounding text built from retrieved chunks. Each
    chunk that carries a source document becomes one entry
    `> name (category)\n...content...`; the entries are joined by blank lines.
    The `id` is a fresh UUID in the program and a parameter here. */
module ContextModel {
  import opened Wrappers
  import opened Models
  import opened Strings

  datatype Context = Context(id: string, chunks: seq<Chunk>)

  /** The entry of one sourced chunk. */
  function Entry(c: Chunk): (r: string)
    requires c.source.Some?
    ensures |r| >= 2 && r[..2] == "> "
  {
    "> " + c.source.value.name + " (" + c.source.value.category + ")" + "\n..." + c.content + "..."
  }

  /** The chunks whose `source` is not None, in order. */
  function Sourced(chunks: seq<Chunk>): (r: seq<Chunk>)
    ensures |r| <= |chunks|
    ensures forall p :: 0 <= p < |r| ==> r[p].source.Some?
    ensures forall c :: c in r <==> c in chunks && c.source.Some?
    decreases |chunks|
  {
    if chunks == [] then []
    else
      var rest := Sourced(chunks[1..]);
      assert forall c :: c in chunks <==> c == chunks[0] || c in chunks[1..] by {
        assert chunks == [chunks[0]] + chunks[1..];
      }
      if chunks[0].source.Some? then [chunks[0]] + rest else rest
  }

  /** One entry per sourced chunk, in chunk order. */
  function Entries(chunks: seq<Chunk>): (r: seq<string>)
    ensures |r| == |Sourced(chunks)|
    ensures forall p :: 0 <= p < |r| ==> r[p] == Entry(Sourced(chunks)[p])
  {
    var s := Sourced(chunks);
    seq(|s|, p requires 0 <= p < |s| => Entry(s[p]))
  }

  /** The `context` property: the entries joined by "\n\n". It is empty
      exactly when no chunk has a source; otherwise it holds every entry and
      one blank-line separator between each two. */
  function Render(ctx: Context): (r: string)
    ensures r == "" <==> Sourced(ctx.chunks) == []
    ensures |r| == SumLengths(Entries(ctx.chunks)) + (if Sourced(ctx.chunks) == [] then 0 else 2 * (|Sourced(ctx.chunks)| - 1))
  {
    var e := Entries(ctx.chunks);
    JoinLength("\n\n", e);
    assert e != [] ==> SumLengths(e) >= |e[0]| >= 2;
    Join("\n\n", e)
  }

  lemma {:induction false} SourcedAppend(a: seq<Chunk>, b: seq<Chunk>)
    ensures Sourced(a + b) == Sourced(a) + Sourced(b)
    decreases |a|
  {
    if a == [] {
      assert a + b == b;
    } else {
      assert (a + b)[1..] == a[1..] + b;
      SourcedAppend(a[1..], b);
    }
  }

  /** A single chunk is kept exactly when it has a source. With
      `SourcedAppend` this fixes `Sourced` on every list: the chunks with a
      source, in their original order. */
  lemma SourcedSingle(c: Chunk)
    ensures Sourced([c]) == if c.source.Some? then [c] else []
  {
    assert [c][1..] == [];
  }

  lemma EntriesAppend(a: seq<Chunk>, b: seq<Chunk>)
    ensures Entries(a + b) == Entries(a) + Entries(b)
  {
    SourcedAppend(a, b);
  }

  /** A context of one chunk renders to its entry, or to "" when the chunk
      has no source. */
  lemma RenderSingle(id: string, c: Chunk)
    ensures Render(Context(id, [c])) == if c.source.Some? then Entry(c) else ""
  {
    assert [c][1..] == [];
    if c.source.Some? {
      assert Entries([c]) == [Entry(c)];
    } else {
      assert Entries([c]) == [];
    }
  }

  /** Rendering a concatenation is rendering the parts, with one blank line
      between them when both have sourced chunks: no leading or trailing
      separator. Together with `RenderSingle` this determines `Render`. */
  lemma RenderAppend(id: string, a: seq<Chunk>, b: seq<Chunk>)
    ensures Render(Context(id, a + b)) ==
      if Sourced(a) == [] then Render(Context(id, b))
      else if Sourced(b) == [] then Render(Context(id, a))
      else Render(Context(id, a)) + "\n\n" + Render(Context(id, b))
  {
    EntriesAppend(a, b);
    JoinAppend("\n\n", Entries(a), Entries(b));
  }

  /** A chunk without a source contributes nothing, wherever it stands. */
  lemma UnsourcedIgnored(id: string, a: seq<Chunk>, c: Chunk, b: seq<Chunk>)
    requires c.source.None?
    ensures Render(Context(id, a + [c] + b)) == Render(Context(id, a + b))
  {
    assert Sourced([c]) == [] by {
      assert [c][1..] == [];
    }
    calc {
      Sourced(a + [c] + b);
      { SourcedAppend(a + [c], b); }
      Sourced(a + [c]) + Sourced(b);
      { SourcedAppend(a, [c]); assert Sourced(a) + [] == Sourced(a); }
      Sourced(a) + Sourced(b);
      { SourcedAppend(a, b); }
      Sourced(a + b);
    }
  }

  /** The rendering is empty exactly when no chunk has a source. */
  lemma {:induction false} RenderEmpty(ctx: Context)
    ensures Render(ctx) == "" <==> forall c :: c in ctx.chunks ==> c.source.None?
  {
    var e := Entries(ctx.chunks);
    if e != [] {
      JoinLength("\n\n", e);
      assert SumLengths(e) >= |e[0]| >= 2;
      assert Sourced(ctx.chunks)[0] in ctx.chunks;
    } else {
      assert forall c :: c in ctx.chunks && c.source.Some? ==> c in Sourced(ctx.chunks);
    }
  }
}
