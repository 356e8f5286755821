/** XML as a writer emits it: events, the trees they spell, and reading them back. */
module Xml {
  import opened Sequences
  import opened Wrappers

  /** A tag name as written, with the namespace it binds to the prefix X, if any. */
  datatype Tag = Tag(name: string, xmlns: Option<string>)

  datatype Event = Start(tag: Tag) | End(name: string) | Empty(tag: Tag) | Text(text: string)

  datatype Node = Element(tag: Tag, children: seq<Node>) | EmptyElement(tag: Tag) | TextNode(text: string)

  // ----- names (section 2.3 of XML 1.0; without the colon, section 4 of Namespaces in XML 1.0)

  predicate NameStart(c: char) {
    var n := c as int;
    || 'A' <= c <= 'Z' || c == '_' || 'a' <= c <= 'z'
    || 0xC0 <= n <= 0xD6 || 0xD8 <= n <= 0xF6 || 0xF8 <= n <= 0x2FF || 0x370 <= n <= 0x37D
    || 0x37F <= n <= 0x1FFF || 0x200C <= n <= 0x200D || 0x2070 <= n <= 0x218F || 0x2C00 <= n <= 0x2FEF
    || 0x3001 <= n <= 0xD7FF || 0xF900 <= n <= 0xFDCF || 0xFDF0 <= n <= 0xFFFD || 0x10000 <= n <= 0xEFFFF
  }

  predicate NamePart(c: char) {
    var n := c as int;
    || NameStart(c) || c == '-' || c == '.' || '0' <= c <= '9'
    || n == 0xB7 || 0x300 <= n <= 0x36F || 0x203F <= n <= 0x2040
  }

  /** A name that can stand in a tag, alone or behind a prefix. */
  predicate LocalName(s: string) {
    s != "" && NameStart(s[0]) && forall i :: 0 <= i < |s| ==> NamePart(s[i])
  }

  // ----- trees

  function Events(forest: seq<Node>): seq<Event> {
    if forest == [] then [] else
    (match forest[0]
     case Element(tag, children) => [Start(tag)] + Events(children) + [End(tag.name)]
     case EmptyElement(tag) => [Empty(tag)]
     case TextNode(text) => [Text(text)]) + Events(forest[1..])
  }

  /** Reads trees until the events end or close an element opened before; returns what is left. */
  function Parse(es: seq<Event>): (r: (seq<Node>, seq<Event>))
    ensures |r.1| <= |es|
    decreases |es|
  {
    if es == [] then ([], [])
    else match es[0]
    case End(_) => ([], es)
    case Text(text) => var r := Parse(es[1..]); ([TextNode(text)] + r.0, r.1)
    case Empty(tag) => var r := Parse(es[1..]); ([EmptyElement(tag)] + r.0, r.1)
    case Start(tag) =>
      var inner := Parse(es[1..]);
      if inner.1 == [] || inner.1[0] != End(tag.name) then ([], es)
      else var r := Parse(inner.1[1..]); ([Element(tag, inner.0)] + r.0, r.1)
  }

  lemma Unwrap(open: Event, inner: seq<Event>, close: Event, next: seq<Event>, rest: seq<Event>)
    ensures var es := [open] + inner + [close] + next + rest;
            es[0] == open && es[1..] == inner + ([close] + (next + rest))
  {
  }

  lemma First(e: Event, rest: seq<Event>)
    ensures ([e] + rest)[0] == e && ([e] + rest)[1..] == rest
  {
  }

  /** Written trees are properly nested: reading the events gives the trees back. */
  lemma {:induction false} ParseEvents(forest: seq<Node>, rest: seq<Event>)
    requires rest == [] || rest[0].End?
    ensures Parse(Events(forest) + rest) == (forest, rest)
  {
    if forest == [] {
      assert Events(forest) + rest == rest;
    } else {
      var es, tail := Events(forest) + rest, Events(forest[1..]) + rest;
      assert forest == [forest[0]] + forest[1..];
      ParseEvents(forest[1..], rest);
      match forest[0] {
        case Element(tag, children) =>
          Unwrap(Start(tag), Events(children), End(tag.name), Events(forest[1..]), rest);
          First(End(tag.name), tail);
          ParseEvents(children, [End(tag.name)] + tail);
        case EmptyElement(tag) =>
          AppendAssoc([Empty(tag)], Events(forest[1..]), rest);
          First(Empty(tag), tail);
        case TextNode(text) =>
          AppendAssoc([Text(text)], Events(forest[1..]), rest);
          First(Text(text), tail);
      }
    }
  }

  lemma {:induction false} EventsAppend(a: seq<Node>, b: seq<Node>)
    ensures Events(a + b) == Events(a) + Events(b)
  {
    if a == [] {
      assert a + b == b;
    } else {
      EventsAppend(a[1..], b);
      assert (a + b)[1..] == a[1..] + b;
    }
  }

  lemma EventsOne(node: Node)
    ensures node.Element? ==> Events([node]) == [Start(node.tag)] + Events(node.children) + [End(node.tag.name)]
    ensures node.EmptyElement? ==> Events([node]) == [Empty(node.tag)]
    ensures node.TextNode? ==> Events([node]) == [Text(node.text)]
  {
    assert [node][1..] == [];
    assert Events([]) == [];
  }
}
