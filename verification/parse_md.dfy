/** `unmark_element`: the plain-text output format of the Markdown parser. It
    walks the element tree depth first and writes every element's text, then
    its children, then its tail into one shared buffer. The tree is the
    parser's output and is given as a value. */
module ParseMd {
  import opened Wrappers
  import opened Strings

  /** An element of the parsed document: its text, its children in order,
      and its tail (the text that follows its closing tag). */
  datatype Element = Element(text: Option<string>, children: seq<Element>, tail: Option<string>)

  /** What `if element.text:` writes: nothing for None or "". */
  function Text(s: Option<string>): string
  {
    if s.Some? then s.value else ""
  }

  /** The text of an element: its text, each child's text in order, then
      its tail. */
  function Unmarked(e: Element): string
    decreases e
  {
    Text(e.text) + Concat(seq(|e.children|, i requires 0 <= i < |e.children| => Unmarked(e.children[i]))) + Text(e.tail)
  }

  /** The total length of every text and tail in the tree. */
  function TextLength(e: Element): nat
    decreases e
  {
    |Text(e.text)| + SumOver(e.children) + |Text(e.tail)|
  }

  function SumOver(es: seq<Element>): nat
    decreases es
  {
    if es == [] then 0 else TextLength(es[0]) + SumOver(es[1..])
  }

  function UnmarkedAll(es: seq<Element>): (r: seq<string>)
    ensures |r| == |es| && forall i :: 0 <= i < |es| ==> r[i] == Unmarked(es[i])
  {
    seq(|es|, i requires 0 <= i < |es| => Unmarked(es[i]))
  }

  /** The output is exactly as long as all texts and tails of the tree
      together: nothing is added, nothing dropped. */
  lemma {:induction false} UnmarkedLength(e: Element)
    ensures |Unmarked(e)| == TextLength(e)
    decreases e, 1
  {
    var parts := UnmarkedAll(e.children);
    UnmarkedParts(e);
    ConcatLength(parts);
    SumLengthsOver(e.children, e);
  }

  lemma {:induction false} SumLengthsOver(es: seq<Element>, parent: Element)
    requires forall i :: 0 <= i < |es| ==> es[i] in parent.children
    ensures SumLengths(UnmarkedAll(es)) == SumOver(es)
    decreases parent, 0, |es|
  {
    if es != [] {
      UnmarkedLength(es[0]);
      assert UnmarkedAll(es)[1..] == UnmarkedAll(es[1..]);
      SumLengthsOver(es[1..], parent);
    }
  }

  /** `Unmarked` through `UnmarkedAll`. */
  lemma UnmarkedParts(e: Element)
    ensures Unmarked(e) == Text(e.text) + Concat(UnmarkedAll(e.children)) + Text(e.tail)
  {
    assert UnmarkedAll(e.children) == seq(|e.children|, i requires 0 <= i < |e.children| => Unmarked(e.children[i]));
  }

  /** The element's own text comes first and its tail last; a leaf element
      gives just the two. */
  lemma UnmarkedBounds(e: Element)
    ensures |Unmarked(e)| >= |Text(e.text)| + |Text(e.tail)|
    ensures Unmarked(e)[..|Text(e.text)|] == Text(e.text)
    ensures Unmarked(e)[|Unmarked(e)| - |Text(e.tail)|..] == Text(e.tail)
    ensures e.children == [] ==> Unmarked(e) == Text(e.text) + Text(e.tail)
  {
    UnmarkedParts(e);
    var body := Concat(UnmarkedAll(e.children));
    assert Unmarked(e) == Text(e.text) + body + Text(e.tail);
    if e.children == [] {
      assert UnmarkedAll(e.children) == [];
      assert body == "";
    }
  }

  /** Concatenation regroups; the buffer proofs below need it spelled out. */
  lemma Associative(a: string, b: string, c: string)
    ensures a + b + c == a + (b + c)
  {
  }

  lemma ConcatStep(parts: seq<string>, i: nat)
    requires i < |parts|
    ensures Concat(parts[..i + 1]) == Concat(parts[..i]) + parts[i]
  {
    assert parts[..i + 1] == parts[..i] + [parts[i]];
    ConcatAppend(parts[..i], [parts[i]]);
  }

  /** `io.StringIO`, as far as it is used: a string that grows by `write`. */
  class StringIO {
    var value: string

    constructor ()
      ensures value == ""
    {
      value := "";
    }

    method Write(s: string)
      modifies this
      ensures value == old(value) + s
    {
      value := value + s;
    }
  }

  /** `unmark_element(element, stream)`: writes the element's text, then
      each child's through the same buffer, then its tail, and returns the
      whole buffer. Without a buffer a new one is used, so the result is the
      element's text alone; with one, it is what the buffer held before
      followed by the element's text. */
  method UnmarkElement(e: Element, stream: StringIO?) returns (r: string)
    modifies stream
    ensures stream == null ==> r == Unmarked(e)
    ensures stream != null ==> stream.value == old(stream.value) + Unmarked(e) && r == stream.value
    decreases e
  {
    var s: StringIO;
    if stream == null {
      s := new StringIO();
    } else {
      s := stream;
    }
    ghost var start := s.value;
    if e.text.Some? && e.text.value != "" {
      s.Write(e.text.value);
    }
    ghost var head := start + Text(e.text);
    assert s.value == head;
    ghost var parts := UnmarkedAll(e.children);
    assert Concat(parts[..0]) == "" by {
      assert parts[..0] == [];
    }
    for i := 0 to |e.children|
      invariant s.value == head + Concat(parts[..i])
      invariant stream != null ==> s == stream
    {
      ghost var before := s.value;
      var _ := UnmarkElement(e.children[i], s);
      ConcatStep(parts, i);
      Associative(head, Concat(parts[..i]), parts[i]);
    }
    assert parts[..|e.children|] == parts;
    ghost var body := Concat(parts);
    if e.tail.Some? && e.tail.value != "" {
      s.Write(e.tail.value);
    }
    assert s.value == head + body + Text(e.tail);
    UnmarkedParts(e);
    Associative(start, Text(e.text), body);
    Associative(start, Text(e.text) + body, Text(e.tail));
    return s.value;
  }
}
