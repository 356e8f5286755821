/**
 The multistatus body that lists the chunks of an upload session: escaping whole hrefs and
 dates, or only the parts that may need it.
 */
module UploadBody {
  import opened Wrappers
  import opened Sequences
  import opened Strings
  import opened Formatters

  // ----- escaping

  function EscapeChar(c: char): string {
    match c
    case '&' => "&amp;"
    case '<' => "&lt;"
    case '>' => "&gt;"
    case '"' => "&quot;"
    case '\'' => "&apos;"
    case _ => [c]
  }

  function Escape(s: string): string {
    if s == [] then [] else EscapeChar(s[0]) + Escape(s[1..])
  }

  method XmlEscape(s: string) returns (out: string)
    ensures out == Escape(s)
  {
    out := [];
    for i := 0 to |s|
      invariant out == Escape(s[..i])
    {
      match s[i] {
        case '&' => out := out + "&amp;";
        case '<' => out := out + "&lt;";
        case '>' => out := out + "&gt;";
        case '"' => out := out + "&quot;";
        case '\'' => out := out + "&apos;";
        case c => out := out + [c];
      }
      SliceSnoc(s, i);
      EscapeAppend(s[..i], [s[i]]);
      assert [s[i]][1..] == [];
      assert Escape([s[i]]) == EscapeChar(s[i]) + Escape([]);
    }
    assert s[..|s|] == s;
  }

  /** Escaping distributes over concatenation. */
  lemma {:induction false} EscapeAppend(a: string, b: string)
    ensures Escape(a + b) == Escape(a) + Escape(b)
  {
    if a == [] {
      assert a + b == b;
    } else {
      EscapeAppend(a[1..], b);
      TailAppend(a, b);
      AppendAssoc(EscapeChar(a[0]), Escape(a[1..]), Escape(b));
    }
  }

  predicate Special(c: char) {
    c in {'&', '<', '>', '"', '\''}
  }

  predicate Plain(s: string) {
    forall i :: 0 <= i < |s| ==> !Special(s[i])
  }

  lemma {:induction false} EscapePlain(s: string)
    requires Plain(s)
    ensures Escape(s) == s
  {
    if s != [] {
      EscapePlain(s[1..]);
      assert s == [s[0]] + s[1..];
    }
  }

  /** The first character meant, and how much text stood for it. */
  function Entity(s: string): (char, nat)
    requires s != []
    ensures 0 < Entity(s).1 <= |s|
  {
    if StartsWith(s, "&amp;") then ('&', 5)
    else if StartsWith(s, "&lt;") then ('<', 4)
    else if StartsWith(s, "&gt;") then ('>', 4)
    else if StartsWith(s, "&quot;") then ('"', 6)
    else if StartsWith(s, "&apos;") then ('\'', 6)
    else (s[0], 1)
  }

  function Unescape(s: string): string {
    if s == [] then [] else [Entity(s).0] + Unescape(s[Entity(s).1..])
  }

  lemma EntityOf(c: char, rest: string)
    ensures var s := EscapeChar(c) + rest; Entity(s).0 == c && s[Entity(s).1..] == rest
  {
    var s := EscapeChar(c) + rest;
    assert s[..|EscapeChar(c)|] == EscapeChar(c);
    assert s[|EscapeChar(c)|..] == rest;
    assert s[0] == EscapeChar(c)[0];
    match c {
      case '&' => assert StartsWith(s, "&amp;");
      case '<' => assert StartsWith(s, "&lt;") && s[1] == 'l';
      case '>' => assert StartsWith(s, "&gt;") && s[1] == 'g';
      case '"' => assert StartsWith(s, "&quot;") && s[1] == 'q';
      case '\'' => assert StartsWith(s, "&apos;") && s[1] == 'a' && s[2] == 'p';
      case _ => assert s[0] == c;
    }
  }

  /** Unescaping undoes escaping. */
  lemma {:induction false} UnescapeEscape(s: string)
    ensures Unescape(Escape(s)) == s
  {
    if s != [] {
      EntityOf(s[0], Escape(s[1..]));
      UnescapeEscape(s[1..]);
      assert s == [s[0]] + s[1..];
    }
  }

  /** Escaped text can neither open nor close a tag nor end an attribute. */
  lemma {:induction false} EscapeNoMarkup(s: string)
    ensures forall c :: c in Escape(s) ==> c !in {'<', '>', '"', '\''}
  {
    if s != [] {
      EscapeNoMarkup(s[1..]);
    }
  }

  // ----- dates hold nothing to escape

  lemma MomentPlain(m: Moment)
    requires Renderable(m)
    ensures Plain(MomentText(m))
  {
    NamesPlain(m.days % 7, m.date.month - 1);
    DigitsPlain(m.date.day, m.date.year);
    TimePlain(m);
  }

  lemma NamesPlain(day: int, month: int)
    requires 0 <= day < 7 && 0 <= month < 12
    ensures Plain(WEEKDAYS[day]) && Plain(MONTHS[month])
  {
  }

  lemma DigitsPlain(day: int, year: int)
    requires 1 <= day <= 31 && 0 <= year < 10_000
    ensures Plain(DayText(day)) && Plain(Four(year))
  {
  }

  lemma ClockPlain(m: Moment)
    requires Renderable(m)
    ensures Plain(ClockText(m))
  {
    assert Plain(Two(m.hour)) && Plain(Two(m.minute)) && Plain(Two(m.second));
  }

  lemma TimePlain(m: Moment)
    requires Renderable(m)
    ensures Plain(TimeText(m))
  {
    NamesPlain(0, m.date.month - 1);
    DigitsPlain(m.date.day, m.date.year);
    ClockPlain(m);
  }

  lemma DatePlain(secs: int)
    requires Rfc2822(secs).Some?
    ensures Plain(Rfc2822(secs).value)
  {
    SplitRenderable(secs);
    MomentPlain(SplitSeconds(secs));
  }

  // ----- the body

  datatype Chunk = Chunk(name: string, size: nat, mtime: int)

  /** A tag. */
  function Open(name: string): string {
    "<" + name + ">"
  }

  /** An element with text. */
  function Elem(name: string, text: string): string {
    Open(name) + text + Open("/" + name)
  }

  const XML_TAG := "?xml version=\"1.0\" encoding=\"utf-8\"?"
  const ROOT_TAG := "d:multistatus xmlns:d=\"DAV:\""
  const HEAD := Open(XML_TAG) + Open(ROOT_TAG)
  const TYPE := Open("d:resourcetype") + Open("d:collection/") + Open("/d:resourcetype")
  const OK_END := Open("/d:prop") + Elem("d:status", "HTTP/1.1 200 OK") + Open("/d:propstat") + Open("/d:response")
  const FOOT := Open("/d:multistatus")
  const ROOT := "/remote.php/dav/uploads/"

  function Href(user: string, upload: string, name: string): string {
    ROOT + user + "/" + upload + "/" + name
  }

  function Stamp(text: string): string {
    Elem("d:getlastmodified", text)
  }

  function Opening(href: string): string {
    Open("d:response") + Elem("d:href", href) + Open("d:propstat") + Open("d:prop")
  }

  function SizeText(size: nat): string {
    Open("d:resourcetype/") + Elem("d:getcontentlength", Decimal(size))
  }

  function ChunkXml(user: string, upload: string, chunk: Chunk, render: int -> string): string {
    Opening(Escape(Href(user, upload, chunk.name))) + SizeText(chunk.size) + Stamp(Escape(render(chunk.mtime))) + OK_END
  }

  function ChunksXml(user: string, upload: string, chunks: seq<Chunk>, render: int -> string): string {
    if chunks == [] then []
    else ChunksXml(user, upload, chunks[..|chunks| - 1], render) + ChunkXml(user, upload, chunks[|chunks| - 1], render)
  }

  function SessionXml(user: string, upload: string, mtime: int, render: int -> string): string {
    Opening(Escape(Href(user, upload, ""))) + TYPE
    + Stamp(Escape(render(mtime))) + OK_END
  }

  function Body(user: string, upload: string, mtime: int, chunks: seq<Chunk>, render: int -> string): string {
    HEAD + SessionXml(user, upload, mtime, render) + ChunksXml(user, upload, chunks, render) + FOOT
  }

  /** Every href and date is put together, then escaped whole. */
  method BodyEscapedWhole(user: string, upload: string, mtime: int, chunks: seq<Chunk>, render: int -> string)
    returns (body: string)
    ensures body == Body(user, upload, mtime, chunks, render)
  {
    body := HEAD;
    var text := XmlEscape(Href(user, upload, ""));
    var xml := Opening(text);
    text := XmlEscape(render(mtime));
    xml := xml + TYPE + Stamp(text) + OK_END;
    body := body + xml;
    ghost var front := body;
    for i := 0 to |chunks|
      invariant body == front + ChunksXml(user, upload, chunks[..i], render)
    {
      text := XmlEscape(Href(user, upload, chunks[i].name));
      xml := Opening(text) + SizeText(chunks[i].size);
      text := XmlEscape(render(chunks[i].mtime));
      xml := xml + Stamp(text) + OK_END;
      body := body + xml;
      NextChunk(front, user, upload, chunks, render, i);
    }
    assert chunks[..|chunks|] == chunks;
    body := body + FOOT;
  }

  lemma NextChunk(front: string, user: string, upload: string, chunks: seq<Chunk>, render: int -> string, i: nat)
    requires i < |chunks|
    ensures front + ChunksXml(user, upload, chunks[..i], render) + ChunkXml(user, upload, chunks[i], render) ==
            front + ChunksXml(user, upload, chunks[..i + 1], render)
  {
    assert chunks[..i + 1][..i] == chunks[..i];
    AppendAssoc(front, ChunksXml(user, upload, chunks[..i], render), ChunkXml(user, upload, chunks[i], render));
  }

  /** The fast renderer where it answers, without escaping; the general one, escaped, elsewhere. */
  method LastModified(secs: int, render: int -> string) returns (xml: string)
    requires Rfc2822(secs).Some? ==> render(secs) == Rfc2822(secs).value
    ensures xml == Stamp(Escape(render(secs)))
  {
    var buf := new char[31];
    var len := WriteRfc2822(buf, secs);
    if len.Some? {
      DatePlain(secs);
      EscapePlain(render(secs));
      xml := Stamp(buf[..len.value]);
    } else {
      var text := XmlEscape(render(secs));
      xml := Stamp(text);
    }
  }

  lemma EscapeSix(a: string, b: string, c: string, d: string, e: string, f: string)
    ensures Escape(a + b + c + d + e + f) == Escape(a) + Escape(b) + Escape(c) + Escape(d) + Escape(e) + Escape(f)
  {
    EscapeAppend(a + b + c + d + e, f);
    EscapeAppend(a + b + c + d, e);
    EscapeAppend(a + b + c, d);
    EscapeAppend(a + b, c);
    EscapeAppend(a, b);
  }

  lemma EscapeParts(root: string, slash: string, user: string, upload: string, name: string)
    requires Plain(root) && Plain(slash)
    ensures Escape(root + user + slash + upload + slash + name) ==
            root + Escape(user) + slash + Escape(upload) + slash + Escape(name)
  {
    EscapePlain(root);
    EscapePlain(slash);
    EscapeSix(root, user, slash, upload, slash, name);
  }

  lemma EscapeHref(user: string, upload: string, name: string)
    ensures Escape(Href(user, upload, name)) == ROOT + Escape(user) + "/" + Escape(upload) + "/" + Escape(name)
  {
    EscapeParts(ROOT, "/", user, upload, name);
  }

  /**
   The parts of an href are escaped on their own and rendered dates not at all.  The body is
   the same, for every user, upload and chunk list, when both renderers agree where the fast
   one answers.
   */
  method BodyEscapedParts(user: string, upload: string, mtime: int, chunks: seq<Chunk>, render: int -> string)
    returns (body: string)
    requires forall secs :: Rfc2822(secs).Some? ==> render(secs) == Rfc2822(secs).value
    ensures body == Body(user, upload, mtime, chunks, render)
  {
    var user' := XmlEscape(user);
    var upload' := XmlEscape(upload);
    EscapeHref(user, upload, "");
    body := HEAD;
    var date := LastModified(mtime, render);
    var href := ROOT + user' + "/" + upload' + "/";
    assert href == Escape(Href(user, upload, ""));
    body := body + (Opening(href) + TYPE + date + OK_END);
    ghost var front := body;
    for i := 0 to |chunks|
      invariant body == front + ChunksXml(user, upload, chunks[..i], render)
    {
      EscapeHref(user, upload, chunks[i].name);
      var name := XmlEscape(chunks[i].name);
      date := LastModified(chunks[i].mtime, render);
      body := body + (Opening(ROOT + user' + "/" + upload' + "/" + name) + SizeText(chunks[i].size) + date + OK_END);
      NextChunk(front, user, upload, chunks, render, i);
    }
    assert chunks[..|chunks|] == chunks;
    body := body + FOOT;
  }
}
