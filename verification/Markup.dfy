/** HTML fragments as lxml holds them, and as what they mean.

    An lxml element keeps the text before its first child in `text` and the text after itself,
    which belongs to its parent, in `tail`.  An `Item` sequence is the same content read in
    document order: characters and elements, interleaved. */
module Markup {

  datatype Element = Element(
    tag: string,
    attributes: seq<(string, string)>,
    text: string,
    children: seq<Element>,
    tail: string)

  datatype Item = Letter(c: char) | Node(tag: string, attributes: seq<(string, string)>, content: seq<Item>)

  function Letters(s: string): seq<Item> {
    seq(|s|, i requires 0 <= i < |s| => Letter(s[i]))
  }

  function View(e: Element): (r: Item)
    ensures r.Node?
    decreases e, 1
  {
    Node(e.tag, e.attributes, Content(e))
  }

  function Content(e: Element): seq<Item>
    decreases e, 0
  {
    Letters(e.text) + Flow(e.children)
  }

  /** A list of siblings with the text between and after them. */
  function Flow(es: seq<Element>): (r: seq<Item>)
    ensures r != [] ==> r[0].Node?
    decreases es
  {
    if es == [] then [] else [View(es[0])] + Letters(es[0].tail) + Flow(es[1..])
  }

  lemma LettersConcat(s: string, t: string)
    ensures Letters(s + t) == Letters(s) + Letters(t)
  {}

  lemma {:induction false} FlowConcat(a: seq<Element>, b: seq<Element>)
    ensures Flow(a + b) == Flow(a) + Flow(b)
  {
    if a == [] {
      assert a + b == b;
    } else {
      assert (a + b)[1..] == a[1..] + b;
      FlowConcat(a[1..], b);
    }
  }

  lemma FlowOne(e: Element)
    ensures Flow([e]) == [View(e)] + Letters(e.tail)
  {}

  lemma ThreeInARow(a: seq<Item>, b: seq<Item>, c: seq<Item>)
    ensures a + (b + c) == a + b + c
  {}

  lemma FourInARow(a: seq<Item>, b: seq<Item>, c: seq<Item>, d: seq<Item>)
    ensures a + (b + (c + d)) == a + b + c + d
    ensures a + (b + c + d) == a + b + c + d
    ensures a + (b + c) + d == a + b + c + d
    ensures a + b + (c + d) == a + b + c + d
  {}

  lemma ConcatCancels(a: seq<Item>, b: seq<Item>, c: seq<Item>)
    requires a + b == a + c
    ensures b == c
  {
    assert b == (a + b)[|a|..];
    assert c == (a + c)[|a|..];
  }
}
