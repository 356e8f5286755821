/** What a client reads out of the multistatus body of an upload session. */
module UploadBodyRead {
  import opened Formatters
  import opened Sequences
  import opened Strings
  import opened UploadBody
  import opened Wrappers

  // ----- markup and text

  datatype Token = Tag(name: string) | Text(text: string)

  function Tokens(s: string): seq<Token>
    decreases |s|
  {
    if s == [] then []
    else if s[0] == '<' then
      match Find(s, ">", 1)
      case None => [Text(s)]
      case Some(j) => [Tag(s[1..j])] + Tokens(s[j + 1..])
    else
      match Find(s, "<", 1)
      case None => [Text(s)]
      case Some(j) => [Text(s[..j])] + Tokens(s[j..])
  }

  function ShowOne(t: Token): string {
    match t
    case Tag(name) => Open(name)
    case Text(text) => text
  }

  function Show(tokens: seq<Token>): string {
    if tokens == [] then "" else ShowOne(tokens[0]) + Show(tokens[1..])
  }

  /** Tags hold no closing bracket; texts are not empty, hold no opening one and do not touch. */
  ghost predicate Proper(tokens: seq<Token>) {
    && (forall t :: t in tokens ==> if t.Tag? then '>' !in t.name else t.text != "" && '<' !in t.text)
    && (forall i :: 0 <= i < |tokens| - 1 && tokens[i].Text? ==> tokens[i + 1].Tag?)
  }

  lemma FindChar(a: string, c: char, b: string, from: nat)
    requires from <= |a| && c !in a[from..]
    ensures Find(a + [c] + b, [c], from) == Some(|a|)
  {
    var s := a + [c] + b;
    assert s[|a|..|a| + 1] == [c];
    forall j | from <= j < |a| ensures !At(s, [c], j) {
      assert a[from..][j - from] == a[j];
      assert s[j..j + 1][0] == a[j];
    }
    FindIs(s, [c], from, |a|);
  }

  lemma CharAt(s: string, c: char, j: nat)
    requires At(s, [c], j)
    ensures c in s
  {
    assert s[j..j + 1][0] == s[j];
  }

  lemma TagRead(name: string, rest: string)
    requires '>' !in name
    ensures Tokens("<" + name + ">" + rest) == [Tag(name)] + Tokens(rest)
  {
    var s := "<" + name + ">" + rest;
    assert ("<" + name)[1..] == name;
    FindChar("<" + name, '>', rest, 1);
    assert s[1..1 + |name|] == name && s[2 + |name|..] == rest;
  }

  lemma TextRead(text: string, rest: string)
    requires text != "" && '<' !in text && (rest == "" || rest[0] == '<')
    ensures Tokens(text + rest) == [Text(text)] + Tokens(rest)
  {
    var s := text + rest;
    assert s[0] == text[0] && text[0] in text;
    if rest == "" {
      assert s == text;
      forall j: nat ensures !At(s, "<", j) {
        if At(s, "<", j) {
          CharAt(s, '<', j);
        }
      }
    } else {
      assert s == text + ['<'] + rest[1..];
      assert forall c :: c in text[1..] ==> c in text;
      FindChar(text, '<', rest[1..], 1);
      assert s[..|text|] == text && s[|text|..] == rest;
    }
  }

  /** Proper tokens written out are read back. */
  lemma {:induction false} TokensShow(tokens: seq<Token>)
    requires Proper(tokens)
    ensures Tokens(Show(tokens)) == tokens
  {
    if tokens != [] {
      var t, rest := tokens[0], tokens[1..];
      assert t in tokens && forall i :: 0 <= i < |rest| ==> rest[i] == tokens[i + 1];
      assert Proper(rest);
      TokensShow(rest);
      assert tokens == [t] + rest;
      match t {
        case Tag(name) => TagRead(name, Show(rest));
        case Text(text) =>
          assert rest != [] ==> tokens[0 + 1].Tag?;
          TextRead(text, Show(rest));
      }
    }
  }

  lemma {:induction false} ShowAppend(a: seq<Token>, b: seq<Token>)
    ensures Show(a + b) == Show(a) + Show(b)
  {
    if a == [] {
      assert a + b == b;
    } else {
      ShowAppend(a[1..], b);
      TailAppend(a, b);
      AppendAssoc(ShowOne(a[0]), Show(a[1..]), Show(b));
    }
  }

  // ----- the client

  datatype Entry = Entry(href: string, collection: bool, length: Option<string>, modified: string, status: string)

  const BLANK: Entry := Entry("", false, None, "", "")

  function Put(e: Entry, name: string, text: string): Entry {
    match name
    case "d:href" => e.(href := Unescape(text))
    case "d:getcontentlength" => e.(length := Some(Unescape(text)))
    case "d:getlastmodified" => e.(modified := Unescape(text))
    case "d:status" => e.(status := Unescape(text))
    case _ => e
  }

  /** One entry per response element; texts belong to the tag before them. */
  function Read(tokens: seq<Token>, e: Entry, tag: string): seq<Entry>
    decreases |tokens|
  {
    if tokens == [] then []
    else
      match tokens[0]
      case Text(text) => Read(tokens[1..], Put(e, tag, text), tag)
      case Tag(name) =>
        if name == "d:response" then Read(tokens[1..], BLANK, name)
        else if name == "/d:response" then [e] + Read(tokens[1..], e, name)
        else Read(tokens[1..], if name == "d:collection/" then e.(collection := true) else e, name)
  }

  function ReadBody(body: string): seq<Entry> {
    Read(Tokens(body), BLANK, "")
  }

  // ----- the body as tokens

  /** An element with text. */
  function Leaf(name: string, text: string): seq<Token> {
    [Tag(name)] + (if text == "" then [] else [Text(text)]) + [Tag("/" + name)]
  }

  /** A piece of a body: proper tokens that end with a tag. */
  ghost predicate Piece(tokens: seq<Token>) {
    Proper(tokens) && tokens != [] && tokens[|tokens| - 1].Tag?
  }

  lemma PieceJoin(a: seq<Token>, b: seq<Token>)
    requires Piece(a) && Piece(b)
    ensures Piece(a + b)
  {
    var c := a + b;
    forall i | 0 <= i < |c| - 1 && c[i].Text? ensures c[i + 1].Tag? {
      if i < |a| {
        assert i != |a| - 1 && a[i + 1].Tag?;
      } else {
        assert b[i - |a| + 1].Tag?;
      }
    }
  }

  lemma PieceAppend(a: seq<Token>, b: seq<Token>)
    requires Piece(a) && Piece(b)
    ensures Piece(a + b) && Show(a + b) == Show(a) + Show(b)
  {
    ShowAppend(a, b);
    PieceJoin(a, b);
  }

  lemma TagPiece(name: string)
    requires '>' !in name
    ensures Piece([Tag(name)]) && Show([Tag(name)]) == Open(name)
  {
    assert [Tag(name)][1..] == [];
    assert Show([Tag(name)]) == ShowOne(Tag(name)) + Show([]);
  }

  lemma LeafPiece(name: string, text: string)
    requires '>' !in name && '<' !in text
    ensures Piece(Leaf(name, text)) && Show(Leaf(name, text)) == Elem(name, text)
  {
    var open, close := [Tag(name)], [Tag("/" + name)];
    var mid := if text == "" then [] else [Text(text)];
    TagPiece(name);
    TagPiece("/" + name);
    ShowAppend(open + mid, close);
    ShowAppend(open, mid);
    assert mid != [] ==> mid[1..] == [] && Show(mid) == text + Show([]);
    assert forall i :: 0 <= i < |Leaf(name, text)| - 1 && Leaf(name, text)[i].Text? ==> Leaf(name, text)[i + 1].Tag?;
  }

  /** A tag that only names what text follows. */
  ghost predicate Silent(name: string) {
    name != "d:response" && name != "/d:response" && name != "d:collection/"
  }

  lemma ReadTag(name: string, rest: seq<Token>, e: Entry, tag: string)
    requires Silent(name)
    ensures Read([Tag(name)] + rest, e, tag) == Read(rest, e, name)
  {
    assert ([Tag(name)] + rest)[1..] == rest;
  }

  lemma ReadText(text: string, rest: seq<Token>, e: Entry, tag: string)
    ensures Read([Text(text)] + rest, e, tag) == Read(rest, Put(e, tag, text), tag)
  {
    assert ([Text(text)] + rest)[1..] == rest;
  }

  lemma ReadLeaf(name: string, text: string, rest: seq<Token>, e: Entry, tag: string)
    requires Silent(name) && Silent("/" + name)
    ensures Read(Leaf(name, text) + rest, e, tag) ==
            Read(rest, if text == "" then e else Put(e, name, text), "/" + name)
  {
    var close := [Tag("/" + name)] + rest;
    if text == "" {
      assert Leaf(name, text) + rest == [Tag(name)] + close;
      ReadTag(name, close, e, tag);
      ReadTag("/" + name, rest, e, name);
    } else {
      assert Leaf(name, text) + rest == [Tag(name)] + ([Text(text)] + close);
      ReadTag(name, [Text(text)] + close, e, tag);
      ReadText(text, close, e, name);
      ReadTag("/" + name, rest, Put(e, name, text), name);
    }
  }

  function OpeningTokens(href: string): seq<Token> {
    [Tag("d:response")] + Leaf("d:href", href) + [Tag("d:propstat")] + [Tag("d:prop")]
  }

  function SizeTokens(size: nat): seq<Token> {
    [Tag("d:resourcetype/")] + Leaf("d:getcontentlength", Decimal(size))
  }

  function TypeTokens(): seq<Token> {
    [Tag("d:resourcetype")] + [Tag("d:collection/")] + [Tag("/d:resourcetype")]
  }

  function OkTokens(): seq<Token> {
    [Tag("/d:prop")] + Leaf("d:status", "HTTP/1.1 200 OK") + [Tag("/d:propstat")] + [Tag("/d:response")]
  }

  function StampTokens(text: string): seq<Token> {
    Leaf("d:getlastmodified", text)
  }

  lemma OpeningPiece(href: string)
    requires '<' !in href
    ensures Piece(OpeningTokens(href)) && Show(OpeningTokens(href)) == Opening(href)
  {
    TagPiece("d:response");
    LeafPiece("d:href", href);
    TagPiece("d:propstat");
    TagPiece("d:prop");
    PieceAppend([Tag("d:response")], Leaf("d:href", href));
    PieceAppend([Tag("d:response")] + Leaf("d:href", href), [Tag("d:propstat")]);
    PieceAppend([Tag("d:response")] + Leaf("d:href", href) + [Tag("d:propstat")], [Tag("d:prop")]);
  }

  lemma SizePiece(size: nat)
    ensures Piece(SizeTokens(size)) && Show(SizeTokens(size)) == SizeText(size)
  {
    DecimalPlain(size);
    TagPiece("d:resourcetype/");
    LeafPiece("d:getcontentlength", Decimal(size));
    PieceAppend([Tag("d:resourcetype/")], Leaf("d:getcontentlength", Decimal(size)));
  }

  lemma {:induction false} DecimalPlain(size: nat)
    ensures Decimal(size) != "" && '<' !in Decimal(size)
  {
    if size >= 10 {
      DecimalPlain(size / 10);
    }
  }

  lemma TypePiece()
    ensures Piece(TypeTokens()) && Show(TypeTokens()) == TYPE
  {
    TagPiece("d:resourcetype");
    TagPiece("d:collection/");
    TagPiece("/d:resourcetype");
    PieceAppend([Tag("d:resourcetype")], [Tag("d:collection/")]);
    PieceAppend([Tag("d:resourcetype")] + [Tag("d:collection/")], [Tag("/d:resourcetype")]);
  }

  lemma OkPiece()
    ensures Piece(OkTokens()) && Show(OkTokens()) == OK_END
  {
    TagPiece("/d:prop");
    LeafPiece("d:status", "HTTP/1.1 200 OK");
    TagPiece("/d:propstat");
    TagPiece("/d:response");
    var front := [Tag("/d:prop")] + Leaf("d:status", "HTTP/1.1 200 OK");
    PieceAppend([Tag("/d:prop")], Leaf("d:status", "HTTP/1.1 200 OK"));
    PieceAppend(front, [Tag("/d:propstat")]);
    PieceAppend(front + [Tag("/d:propstat")], [Tag("/d:response")]);
  }

  /** One response: what opens it, what it says of type and size, when it was modified, and its end. */
  function ResponseTokens(href: string, kind: seq<Token>, date: string): seq<Token> {
    OpeningTokens(href) + kind + StampTokens(date) + OkTokens()
  }

  lemma ResponsePiece(href: string, kind: seq<Token>, date: string)
    requires '<' !in href && '<' !in date && Piece(kind)
    ensures Piece(ResponseTokens(href, kind, date))
    ensures Show(ResponseTokens(href, kind, date)) == Opening(href) + Show(kind) + Stamp(date) + OK_END
  {
    OpeningPiece(href);
    LeafPiece("d:getlastmodified", date);
    OkPiece();
    PieceAppend(OpeningTokens(href), kind);
    PieceAppend(OpeningTokens(href) + kind, StampTokens(date));
    PieceAppend(OpeningTokens(href) + kind + StampTokens(date), OkTokens());
  }

  lemma ReadOpening(href: string, rest: seq<Token>, e: Entry, tag: string)
    requires href != ""
    ensures Read(OpeningTokens(href) + rest, e, tag) == Read(rest, BLANK.(href := Unescape(href)), "d:prop")
  {
    var inner := [Tag("d:propstat")] + ([Tag("d:prop")] + rest);
    assert OpeningTokens(href) + rest == [Tag("d:response")] + (Leaf("d:href", href) + inner);
    assert ([Tag("d:response")] + (Leaf("d:href", href) + inner))[1..] == Leaf("d:href", href) + inner;
    ReadLeaf("d:href", href, inner, BLANK, "d:response");
    var found := BLANK.(href := Unescape(href));
    assert Put(BLANK, "d:href", href) == found;
    ReadTag("d:propstat", [Tag("d:prop")] + rest, found, "/d:href");
    ReadTag("d:prop", rest, found, "d:propstat");
  }

  lemma ReadOk(rest: seq<Token>, e: Entry, tag: string)
    ensures var done := e.(status := Unescape("HTTP/1.1 200 OK"));
            Read(OkTokens() + rest, e, tag) == [done] + Read(rest, done, "/d:response")
  {
    var ok := "HTTP/1.1 200 OK";
    var last := [Tag("/d:response")] + rest;
    var inner := Leaf("d:status", ok) + ([Tag("/d:propstat")] + last);
    assert OkTokens() + rest == [Tag("/d:prop")] + inner;
    ReadTag("/d:prop", inner, e, tag);
    ReadLeaf("d:status", ok, [Tag("/d:propstat")] + last, e, "/d:prop");
    var done := e.(status := Unescape(ok));
    ReadTag("/d:propstat", last, done, "/d:status");
    assert last[1..] == rest;
  }

  lemma ReadStamp(date: string, rest: seq<Token>, e: Entry, tag: string)
    requires e.modified == ""
    ensures Read(StampTokens(date) + rest, e, tag) ==
            Read(rest, e.(modified := Unescape(date)), "/" + "d:getlastmodified")
  {
    ReadLeaf("d:getlastmodified", date, rest, e, tag);
    assert date == "" ==> Unescape(date) == "";
  }

  lemma ReadSize(size: nat, rest: seq<Token>, e: Entry, tag: string)
    ensures Read(SizeTokens(size) + rest, e, tag) ==
            Read(rest, e.(length := Some(Unescape(Decimal(size)))), "/" + "d:getcontentlength")
  {
    DecimalPlain(size);
    AppendAssoc([Tag("d:resourcetype/")], Leaf("d:getcontentlength", Decimal(size)), rest);
    ReadTag("d:resourcetype/", Leaf("d:getcontentlength", Decimal(size)) + rest, e, tag);
    ReadLeaf("d:getcontentlength", Decimal(size), rest, e, "d:resourcetype/");
  }

  lemma ReadType(rest: seq<Token>, e: Entry, tag: string)
    ensures Read(TypeTokens() + rest, e, tag) == Read(rest, e.(collection := true), "/d:resourcetype")
  {
    var last := [Tag("/d:resourcetype")] + rest;
    assert TypeTokens() + rest == [Tag("d:resourcetype")] + ([Tag("d:collection/")] + last);
    ReadTag("d:resourcetype", [Tag("d:collection/")] + last, e, tag);
    assert ([Tag("d:collection/")] + last)[1..] == last;
    ReadTag("/d:resourcetype", rest, e.(collection := true), "d:collection/");
  }

  /** A response is about the session itself or about a chunk of some size. */
  datatype Kind = Session | Sized(size: nat)

  function KindTokens(kind: Kind): seq<Token> {
    match kind
    case Session => TypeTokens()
    case Sized(size) => SizeTokens(size)
  }

  function KindTag(kind: Kind): string {
    match kind
    case Session => "/d:resourcetype"
    case Sized(_) => "/" + "d:getcontentlength"
  }

  lemma ReadKind(kind: Kind, rest: seq<Token>, e: Entry, tag: string)
    requires !e.collection && e.length.None?
    ensures Read(KindTokens(kind) + rest, e, tag) ==
            Read(rest, e.(collection := kind.Session?, length := Length(kind)), KindTag(kind))
  {
    match kind {
      case Session => ReadType(rest, e, tag);
      case Sized(size) =>
        ReadSize(size, rest, e, tag);
        DigitsUnescaped(size);
    }
  }

  /** The length a client reads, as the decimal form of the size. */
  function Length(kind: Kind): Option<string> {
    match kind
    case Session => None
    case Sized(size) => Some(Decimal(size))
  }

  lemma {:induction false} DigitsPlain(size: nat)
    ensures UploadBody.Plain(Decimal(size))
  {
    if size >= 10 {
      DigitsPlain(size / 10);
    }
  }

  lemma PlainUnescaped(s: string)
    requires UploadBody.Plain(s)
    ensures Unescape(s) == s
  {
    EscapePlain(s);
    UnescapeEscape(s);
  }

  lemma DigitsUnescaped(size: nat)
    ensures Unescape(Decimal(size)) == Decimal(size)
  {
    DigitsPlain(size);
    PlainUnescaped(Decimal(size));
  }

  lemma StatusUnescaped()
    ensures Unescape("HTTP/1.1 200 OK") == "HTTP/1.1 200 OK"
  {
    PlainUnescaped("HTTP/1.1 200 OK");
  }

  function EntryOf(href: string, kind: Kind, date: string): Entry {
    Entry(href, kind.Session?, Length(kind), date, "HTTP/1.1 200 OK")
  }

  lemma ReadResponse(href: string, kind: Kind, date: string, rest: seq<Token>, e: Entry, tag: string)
    requires href != ""
    ensures var done := EntryOf(Unescape(href), kind, Unescape(date));
            Read(ResponseTokens(href, KindTokens(kind), date) + rest, e, tag) ==
            [done] + Read(rest, done, "/d:response")
  {
    var end := OkTokens() + rest;
    var stamped := StampTokens(date) + end;
    ResponseParts(href, KindTokens(kind), date, rest);
    ReadOpening(href, KindTokens(kind) + stamped, e, tag);
    var e1 := BLANK.(href := Unescape(href));
    ReadKind(kind, stamped, e1, "d:prop");
    var e2 := e1.(collection := kind.Session?, length := Length(kind));
    ReadStamp(date, end, e2, KindTag(kind));
    StatusUnescaped();
    ReadOk(rest, e2.(modified := Unescape(date)), "/" + "d:getlastmodified");
  }

  lemma ResponseParts(href: string, kind: seq<Token>, date: string, rest: seq<Token>)
    ensures ResponseTokens(href, kind, date) + rest ==
            OpeningTokens(href) + (kind + (StampTokens(date) + (OkTokens() + rest)))
  {
    AppendAssoc(OpeningTokens(href) + kind + StampTokens(date), OkTokens(), rest);
    AppendAssoc(OpeningTokens(href) + kind, StampTokens(date), OkTokens() + rest);
    AppendAssoc(OpeningTokens(href), kind, StampTokens(date) + (OkTokens() + rest));
  }

  // ----- the whole body

  function ChunkTokens(user: string, upload: string, chunk: Chunk, render: int -> string): seq<Token> {
    ResponseTokens(Escape(Href(user, upload, chunk.name)), KindTokens(Sized(chunk.size)), Escape(render(chunk.mtime)))
  }

  function ChunksTokens(user: string, upload: string, chunks: seq<Chunk>, render: int -> string): seq<Token> {
    if chunks == [] then []
    else
      ChunksTokens(user, upload, chunks[..|chunks| - 1], render)
      + ChunkTokens(user, upload, chunks[|chunks| - 1], render)
  }

  /** Where a chunk of an upload lies; without a name, where the upload itself does. */
  function PathOf(user: string, upload: string, name: string): string {
    "/remote.php/dav/uploads/" + (user + ("/" + (upload + ("/" + name))))
  }

  lemma HrefIsPath(user: string, upload: string, name: string)
    ensures Href(user, upload, name) == PathOf(user, upload, name)
  {
    Nested(ROOT, user, "/", upload, name);
  }

  lemma Nested(root: string, user: string, slash: string, upload: string, name: string)
    ensures root + user + slash + upload + slash + name == root + (user + (slash + (upload + (slash + name))))
  {
  }

  function ChunkEntry(user: string, upload: string, render: int -> string): Chunk -> Entry {
    (chunk: Chunk) => EntryOf(PathOf(user, upload, chunk.name), Sized(chunk.size), render(chunk.mtime))
  }

  lemma EscapedNoBracket(s: string)
    ensures '<' !in Escape(s)
  {
    EscapeNoMarkup(s);
  }

  lemma KindPiece(kind: Kind)
    ensures Piece(KindTokens(kind))
    ensures Show(KindTokens(kind)) == match kind case Session => TYPE case Sized(size) => SizeText(size)
  {
    match kind {
      case Session => TypePiece();
      case Sized(size) => SizePiece(size);
    }
  }

  lemma EscapedPiece(href: string, kind: Kind, date: string)
    ensures Piece(ResponseTokens(Escape(href), KindTokens(kind), Escape(date)))
    ensures Show(ResponseTokens(Escape(href), KindTokens(kind), Escape(date))) ==
            Opening(Escape(href)) + Show(KindTokens(kind)) + Stamp(Escape(date)) + OK_END
  {
    EscapedNoBracket(href);
    EscapedNoBracket(date);
    KindPiece(kind);
    ResponsePiece(Escape(href), KindTokens(kind), Escape(date));
  }

  lemma {:induction false} EscapedNonEmpty(s: string)
    requires s != ""
    ensures Escape(s) != ""
  {
  }

  lemma EscapedRead(href: string, kind: Kind, date: string, rest: seq<Token>, e: Entry, tag: string)
    requires href != ""
    ensures var done := EntryOf(href, kind, date);
            Read(ResponseTokens(Escape(href), KindTokens(kind), Escape(date)) + rest, e, tag) ==
            [done] + Read(rest, done, "/d:response")
  {
    EscapedNonEmpty(href);
    ReadResponse(Escape(href), kind, Escape(date), rest, e, tag);
    UnescapeEscape(href);
    UnescapeEscape(date);
  }

  function LastOf(e: Entry, entries: seq<Entry>): Entry {
    if entries == [] then e else entries[|entries| - 1]
  }

  lemma {:induction false} ChunksPiece(user: string, upload: string, chunks: seq<Chunk>, render: int -> string)
    ensures chunks != [] ==> Piece(ChunksTokens(user, upload, chunks, render))
    ensures Show(ChunksTokens(user, upload, chunks, render)) == ChunksXml(user, upload, chunks, render)
  {
    if chunks != [] {
      var n := |chunks| - 1;
      ChunksPiece(user, upload, chunks[..n], render);
      EscapedPiece(Href(user, upload, chunks[n].name), Sized(chunks[n].size), render(chunks[n].mtime));
      KindPiece(Sized(chunks[n].size));
      ShowAppend(ChunksTokens(user, upload, chunks[..n], render), ChunkTokens(user, upload, chunks[n], render));
      if n > 0 {
        PieceJoin(ChunksTokens(user, upload, chunks[..n], render), ChunkTokens(user, upload, chunks[n], render));
      } else {
        assert ChunksTokens(user, upload, chunks, render) == ChunkTokens(user, upload, chunks[n], render);
      }
    }
  }

  lemma HrefNonEmpty(user: string, upload: string, name: string)
    ensures Href(user, upload, name) != ""
  {
  }

  lemma {:induction false} ChunksRead(
    user: string, upload: string, chunks: seq<Chunk>, render: int -> string, rest: seq<Token>, e: Entry
  )
    ensures var entries := Map(ChunkEntry(user, upload, render), chunks);
            Read(ChunksTokens(user, upload, chunks, render) + rest, e, "/d:response") ==
            entries + Read(rest, LastOf(e, entries), "/d:response")
    decreases |chunks|
  {
    if chunks == [] {
      assert ChunksTokens(user, upload, chunks, render) + rest == rest;
    } else {
      var n := |chunks| - 1;
      var f := ChunkEntry(user, upload, render);
      var front, last := ChunksTokens(user, upload, chunks[..n], render), ChunkTokens(user, upload, chunks[n], render);
      var before := Map(f, chunks[..n]);
      ChunksRead(user, upload, chunks[..n], render, last + rest, e);
      ChunkRead(user, upload, chunks[n], render, rest, LastOf(e, before));
      JoinRead(front, last, rest, e, before, f(chunks[n]));
      MapLast(f, chunks);
    }
  }

  lemma ChunkRead(user: string, upload: string, chunk: Chunk, render: int -> string, rest: seq<Token>, e: Entry)
    ensures var done := ChunkEntry(user, upload, render)(chunk);
            Read(ChunkTokens(user, upload, chunk, render) + rest, e, "/d:response") ==
            [done] + Read(rest, done, "/d:response")
  {
    HrefNonEmpty(user, upload, chunk.name);
    HrefIsPath(user, upload, chunk.name);
    EscapedRead(Href(user, upload, chunk.name), Sized(chunk.size), render(chunk.mtime), rest, e, "/d:response");
  }

  lemma MapLast<T, R>(f: T -> R, s: seq<T>)
    requires s != []
    ensures Map(f, s) == Map(f, s[..|s| - 1]) + [f(s[|s| - 1])]
  {
  }

  lemma JoinRead(front: seq<Token>, last: seq<Token>, rest: seq<Token>, e: Entry, before: seq<Entry>, done: Entry)
    requires Read(front + (last + rest), e, "/d:response") ==
             before + Read(last + rest, LastOf(e, before), "/d:response")
    requires Read(last + rest, LastOf(e, before), "/d:response") == [done] + Read(rest, done, "/d:response")
    ensures Read(front + last + rest, e, "/d:response") ==
            (before + [done]) + Read(rest, LastOf(e, before + [done]), "/d:response")
  {
    AppendAssoc(front, last, rest);
    AppendAssoc(before, [done], Read(rest, done, "/d:response"));
  }

  function SessionTokens(user: string, upload: string, mtime: int, render: int -> string): seq<Token> {
    ResponseTokens(Escape(Href(user, upload, "")), KindTokens(Session), Escape(render(mtime)))
  }

  const HEAD_TOKENS := [Tag(XML_TAG)] + [Tag(ROOT_TAG)]

  function BodyTokens(user: string, upload: string, mtime: int, chunks: seq<Chunk>, render: int -> string): seq<Token> {
    HEAD_TOKENS + SessionTokens(user, upload, mtime, render) + ChunksTokens(user, upload, chunks, render)
    + [Tag("/d:multistatus")]
  }

  lemma TwoTags(a: string, b: string)
    requires '>' !in a && '>' !in b
    ensures Piece([Tag(a)] + [Tag(b)]) && Show([Tag(a)] + [Tag(b)]) == Open(a) + Open(b)
  {
    TagPiece(a);
    TagPiece(b);
    PieceAppend([Tag(a)], [Tag(b)]);
  }

  lemma HeadTags()
    ensures '>' !in XML_TAG && '>' !in ROOT_TAG
  {
  }

  lemma HeadPiece()
    ensures Piece(HEAD_TOKENS) && Show(HEAD_TOKENS) == HEAD
  {
    HeadTags();
    TwoTags(XML_TAG, ROOT_TAG);
  }

  lemma FourPieces(a: seq<Token>, b: seq<Token>, c: seq<Token>, d: seq<Token>)
    requires Piece(a) && Piece(b) && (c == [] || Piece(c)) && Piece(d)
    ensures Piece(a + b + c + d) && Show(a + b + c + d) == Show(a) + Show(b) + Show(c) + Show(d)
  {
    PieceAppend(a, b);
    if c == [] {
      assert a + b + c == a + b && Show(a) + Show(b) + Show(c) == Show(a) + Show(b);
    } else {
      PieceAppend(a + b, c);
    }
    PieceAppend(a + b + c, d);
  }

  lemma SessionPiece(user: string, upload: string, mtime: int, render: int -> string)
    ensures Piece(SessionTokens(user, upload, mtime, render))
    ensures Show(SessionTokens(user, upload, mtime, render)) == SessionXml(user, upload, mtime, render)
  {
    EscapedPiece(Href(user, upload, ""), Session, render(mtime));
    KindPiece(Session);
  }

  lemma BodyPiece(user: string, upload: string, mtime: int, chunks: seq<Chunk>, render: int -> string)
    ensures Piece(BodyTokens(user, upload, mtime, chunks, render))
    ensures Show(BodyTokens(user, upload, mtime, chunks, render)) == Body(user, upload, mtime, chunks, render)
  {
    HeadPiece();
    SessionPiece(user, upload, mtime, render);
    ChunksPiece(user, upload, chunks, render);
    TagPiece("/d:multistatus");
    FourPieces(HEAD_TOKENS, SessionTokens(user, upload, mtime, render), ChunksTokens(user, upload, chunks, render),
               [Tag("/d:multistatus")]);
  }

  /**
   For every user, upload and chunk list a client reads the session as a collection with its
   date, then each chunk in order with its path, its size in decimals and its date.
   */
  lemma BodyRead(user: string, upload: string, mtime: int, chunks: seq<Chunk>, render: int -> string)
    ensures ReadBody(Body(user, upload, mtime, chunks, render)) ==
            [EntryOf(PathOf(user, upload, ""), Session, render(mtime))]
            + Map(ChunkEntry(user, upload, render), chunks)
  {
    BodyPiece(user, upload, mtime, chunks, render);
    TokensShow(BodyTokens(user, upload, mtime, chunks, render));
    BodyTokensRead(user, upload, mtime, chunks, render);
  }

  lemma HeadRead(rest: seq<Token>)
    ensures Read(HEAD_TOKENS + rest, BLANK, "") == Read(rest, BLANK, ROOT_TAG)
  {
    AppendAssoc([Tag(XML_TAG)], [Tag(ROOT_TAG)], rest);
    ReadTag(XML_TAG, [Tag(ROOT_TAG)] + rest, BLANK, "");
    ReadTag(ROOT_TAG, rest, BLANK, XML_TAG);
  }

  lemma FootRead(e: Entry)
    ensures Read([Tag("/d:multistatus")], e, "/d:response") == []
  {
    assert [Tag("/d:multistatus")][1..] == [];
    assert Read([], e, "/d:multistatus") == [];
  }

  lemma BodyTokensRead(user: string, upload: string, mtime: int, chunks: seq<Chunk>, render: int -> string)
    ensures Read(BodyTokens(user, upload, mtime, chunks, render), BLANK, "") ==
            [EntryOf(PathOf(user, upload, ""), Session, render(mtime))]
            + Map(ChunkEntry(user, upload, render), chunks)
  {
    var session, list := SessionTokens(user, upload, mtime, render), ChunksTokens(user, upload, chunks, render);
    var foot := [Tag("/d:multistatus")];
    var first := EntryOf(Href(user, upload, ""), Session, render(mtime));
    HrefIsPath(user, upload, "");
    var entries := Map(ChunkEntry(user, upload, render), chunks);
    AppendAssoc(HEAD_TOKENS + session, list, foot);
    AppendAssoc(HEAD_TOKENS, session, list + foot);
    HeadRead(session + (list + foot));
    HrefNonEmpty(user, upload, "");
    EscapedRead(Href(user, upload, ""), Session, render(mtime), list + foot, BLANK, ROOT_TAG);
    ChunksRead(user, upload, chunks, render, foot, first);
    FootRead(LastOf(first, entries));
    assert entries + [] == entries;
  }
}
