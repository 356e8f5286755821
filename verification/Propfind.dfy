/**
 The WebDAV PROPFIND answer (section 9.1 of RFC 4918): the writers that emit one resource's
 response as XML events, and what a client reads out of it.
 Dates and numbers are taken as their printed text.
 */
module Propfind {
  import opened Wrappers
  import opened Sequences
  import opened Strings
  import opened Xml

  datatype QName = QName(namespace: string, name: string)

  datatype Quota = Quota(used: string, available: Option<string>)

  datatype Resource =
    | File(name: string, mimeType: string, size: string, created: string, modified: string, etag: string)
    | Folder(name: string, created: string, modified: string, etag: string, quota: Option<Quota>)

  datatype DeadProp = DeadProp(name: QName, value: Option<string>)

  datatype Request = Prop(props: seq<QName>) | AllProp | PropName

  const DAV := "DAV:"
  const LIVE_NAMES := [
    "resourcetype", "displayname", "creationdate", "getlastmodified", "getetag", "getcontentlength", "getcontenttype"
  ]
  const OK := "HTTP/1.1 200 OK"
  const NOT_FOUND := "HTTP/1.1 404 Not Found"

  predicate IsKnown(res: Resource, q: QName) {
    && q.namespace == DAV
    && (|| q.name in LIVE_NAMES
        || (q.name == "quota-used-bytes" && res.Folder? && res.quota.Some?)
        || (q.name == "quota-available-bytes" && res.Folder? && res.quota.Some? && res.quota.value.available.Some?))
  }

  // ----- the trees that are written

  function D(name: string): Tag {
    Tag("D:" + name, None)
  }

  function TextProp(name: string, text: string): Node {
    Element(D(name), [TextNode(text)])
  }

  /** The element of a live property, if the resource has it. */
  function Live(res: Resource, q: QName): seq<Node> {
    if q.namespace != DAV then []
    else if q.name == "resourcetype" then
      if res.Folder? then [Element(D("resourcetype"), [EmptyElement(D("collection"))])]
      else [EmptyElement(D("resourcetype"))]
    else if q.name == "displayname" then [TextProp(q.name, res.name)]
    else if q.name == "creationdate" then [TextProp(q.name, res.created)]
    else if q.name == "getlastmodified" then [TextProp(q.name, res.modified)]
    else if q.name == "getetag" then [TextProp(q.name, "\"" + res.etag + "\"")]
    else if q.name == "getcontentlength" then [TextProp(q.name, if res.Folder? then "0" else res.size)]
    else if q.name == "getcontenttype" then
      [TextProp(q.name, if res.Folder? then "httpd/unix-directory" else res.mimeType)]
    else if q.name == "quota-used-bytes" && res.Folder? && res.quota.Some? then [TextProp(q.name, res.quota.value.used)]
    else if q.name == "quota-available-bytes" && res.Folder? && res.quota.Some? && res.quota.value.available.Some? then
      [TextProp(q.name, res.quota.value.available.value)]
    else []
  }

  function LiveNodes(res: Resource, props: seq<QName>): seq<Node> {
    if props == [] then [] else Live(res, props[0]) + LiveNodes(res, props[1..])
  }

  /** The names an allprop request lists, in the order of the writer. */
  function StandardNames(res: Resource): seq<QName> {
    Map(Named, Standard(res))
  }

  function Standard(res: Resource): seq<string> {
    if res.File? then
      ["resourcetype", "displayname", "getcontenttype", "getcontentlength",
       "creationdate", "getlastmodified", "getetag"]
    else
      ["resourcetype", "displayname", "creationdate", "getlastmodified",
       "getetag", "getcontentlength", "getcontenttype"]
      + QuotaNames(res.quota)
  }

  function QuotaNames(quota: Option<Quota>): seq<string> {
    if quota.None? then []
    else if quota.value.available.None? then ["quota-used-bytes"]
    else ["quota-used-bytes", "quota-available-bytes"]
  }

  function Named(name: string): QName {
    QName(DAV, name)
  }

  function UnknownTag(q: QName): Tag {
    if q.namespace == "" then Tag(q.name, None)
    else if q.namespace == DAV then D(q.name)
    else Tag("X:" + q.name, Some(q.namespace))
  }

  function UnknownNode(q: QName): Node {
    EmptyElement(UnknownTag(q))
  }

  function DeadTag(q: QName): Tag {
    if q.namespace == "" then Tag(q.name, None) else Tag("X:" + q.name, Some(q.namespace))
  }

  function DeadNode(d: DeadProp): Node {
    if d.value.Some? && d.value.value != "" then Element(DeadTag(d.name), [TextNode(d.value.value)])
    else EmptyElement(DeadTag(d.name))
  }

  function PropstatNode(props: seq<Node>, status: string): Node {
    Element(D("propstat"), [Element(D("prop"), props), TextProp("status", status)])
  }

  // ----- names

  function Known(res: Resource): QName -> bool {
    (q: QName) => IsKnown(res, q)
  }

  function Requested(props: seq<QName>): DeadProp -> bool {
    (d: DeadProp) => d.name in props
  }

  function NameOf(d: DeadProp): QName {
    d.name
  }

  function RelevantDead(request: Request, dead: seq<DeadProp>): seq<DeadProp> {
    match request
    case Prop(props) => Filter(Requested(props), dead)
    case AllProp => dead
    case PropName => []
  }

  function Missing(res: Resource, dead: seq<DeadProp>): QName -> bool {
    (q: QName) => !IsKnown(res, q) && q !in Map(NameOf, dead)
  }

  /** The live names answered with 200. */
  function LiveNames(res: Resource, request: Request): seq<QName> {
    match request
    case Prop(props) => Filter(Known(res), props)
    case AllProp => StandardNames(res)
    case PropName => []
  }

  function MissingNames(res: Resource, request: Request, dead: seq<DeadProp>): seq<QName> {
    if request.Prop? then Filter(Missing(res, RelevantDead(request, dead)), request.props) else []
  }

  function Propstats(res: Resource, request: Request, dead: seq<DeadProp>): seq<Node> {
    var missing, relevant := MissingNames(res, request, dead), RelevantDead(request, dead);
    [PropstatNode(LiveNodes(res, LiveNames(res, request)), OK)]
    + (if missing == [] then [] else [PropstatNode(Map(UnknownNode, missing), NOT_FOUND)])
    + (if relevant == [] then [] else [PropstatNode(Map(DeadNode, relevant), OK)])
  }

  function Response(res: Resource, request: Request, href: string, dead: seq<DeadProp>): Node {
    Element(D("response"), [TextProp("href", href)] + Propstats(res, request, dead))
  }

  // ----- live properties

  /** A property is known exactly when the writer of requested properties emits something for it. */
  lemma KnownIffLive(res: Resource, q: QName)
    ensures IsKnown(res, q) <==> Live(res, q) != []
    ensures IsKnown(res, q) ==> |Live(res, q)| == 1 && !Live(res, q)[0].TextNode? && Live(res, q)[0].tag == D(q.name)
  {
  }

  lemma KnownIffStandard(res: Resource, q: QName)
    ensures IsKnown(res, q) <==> q in StandardNames(res)
  {
    if q in StandardNames(res) {
      var i :| 0 <= i < |StandardNames(res)| && StandardNames(res)[i] == q;
      assert q.name == Standard(res)[i];
    }
    if IsKnown(res, q) {
      assert q.name in Standard(res);
      var i :| 0 <= i < |Standard(res)| && Standard(res)[i] == q.name;
      assert StandardNames(res)[i] == q;
    }
  }

  /** Unknown names leave no trace: writing all requested names or only the known ones is the same. */
  lemma {:induction false} OnlyKnownWritten(res: Resource, props: seq<QName>)
    ensures LiveNodes(res, props) == LiveNodes(res, Filter(Known(res), props))
  {
    if props != [] {
      OnlyKnownWritten(res, props[1..]);
      KnownIffLive(res, props[0]);
      if IsKnown(res, props[0]) {
        assert ([props[0]] + Filter(Known(res), props[1..]))[1..] == Filter(Known(res), props[1..]);
      }
    }
  }

  lemma {:induction false} LiveAppend(res: Resource, a: seq<QName>, b: seq<QName>)
    ensures LiveNodes(res, a + b) == LiveNodes(res, a) + LiveNodes(res, b)
  {
    if a == [] {
      assert a + b == b;
    } else {
      LiveAppend(res, a[1..], b);
      TailAppend(a, b);
      AppendAssoc(Live(res, a[0]), LiveNodes(res, a[1..]), LiveNodes(res, b));
    }
  }

  // ----- the writers

  method WriteText(out: seq<Event>, name: string, text: string) returns (out': seq<Event>)
    ensures out' == out + Events([TextProp(name, text)])
  {
    out' := out + [Start(D(name))];
    out' := out' + [Text(text)];
    out' := out' + [End("D:" + name)];
    EventsOne(TextProp(name, text));
    EventsOne(TextNode(text));
  }

  method WriteResourceType(out: seq<Event>, res: Resource) returns (out': seq<Event>)
    ensures out' == out + Events(Live(res, Named("resourcetype")))
  {
    assert Live(res, Named("resourcetype")) == [Live(res, Named("resourcetype"))[0]];
    EventsOne(Live(res, Named("resourcetype"))[0]);
    if res.Folder? {
      EventsOne(EmptyElement(D("collection")));
      out' := out + [Start(D("resourcetype"))];
      out' := out' + [Empty(D("collection"))];
      out' := out' + [End(D("resourcetype").name)];
    } else {
      out' := out + [Empty(D("resourcetype"))];
    }
  }

  method WriteRequested(out: seq<Event>, res: Resource, props: seq<QName>) returns (out': seq<Event>)
    ensures out' == out + Events(LiveNodes(res, props))
  {
    out' := out;
    for i := 0 to |props|
      invariant out' == out + Events(LiveNodes(res, props[..i]))
    {
      out' := WriteOne(out', res, props[i]);
      LiveSnoc(out, res, props, i);
    }
    assert props[..|props|] == props;
  }

  method WriteOne(out: seq<Event>, res: Resource, q: QName) returns (out': seq<Event>)
    ensures out' == out + Events(Live(res, q))
  {
    out' := out;
    if q.namespace == DAV {
      if q.name == "resourcetype" {
        out' := WriteResourceType(out', res);
      } else if q.name == "displayname" {
        out' := WriteText(out', q.name, res.name);
      } else if q.name == "creationdate" {
        out' := WriteText(out', q.name, res.created);
      } else if q.name == "getlastmodified" {
        out' := WriteText(out', q.name, res.modified);
      } else if q.name == "getetag" {
        out' := WriteText(out', q.name, "\"" + res.etag + "\"");
      } else if q.name == "getcontentlength" {
        out' := WriteText(out', q.name, if res.Folder? then "0" else res.size);
      } else if q.name == "getcontenttype" {
        out' := WriteText(out', q.name, if res.Folder? then "httpd/unix-directory" else res.mimeType);
      } else if res.Folder? {
        if q.name == "quota-used-bytes" {
          if res.quota.Some? {
            out' := WriteText(out', q.name, res.quota.value.used);
          }
        } else if q.name == "quota-available-bytes" {
          if res.quota.Some? && res.quota.value.available.Some? {
            out' := WriteText(out', q.name, res.quota.value.available.value);
          }
        }
      }
    }
  }

  lemma LiveSnoc(out: seq<Event>, res: Resource, props: seq<QName>, i: nat)
    requires i < |props|
    ensures out + Events(LiveNodes(res, props[..i])) + Events(Live(res, props[i])) ==
            out + Events(LiveNodes(res, props[..i + 1]))
  {
    SliceSnoc(props, i);
    LiveAppend(res, props[..i], [props[i]]);
    assert [props[i]][1..] == [];
    assert LiveNodes(res, [props[i]]) == Live(res, props[i]);
    EventsAppend(LiveNodes(res, props[..i]), Live(res, props[i]));
    AppendAssoc(out, Events(LiveNodes(res, props[..i])), Events(Live(res, props[i])));
  }

  /** What is out after the first `k` standard properties. */
  ghost function Written(out: seq<Event>, res: Resource, k: nat): seq<Event>
    requires k <= |Standard(res)|
  {
    out + Events(LiveNodes(res, StandardNames(res)[..k]))
  }

  /** The standard property `k` is `name`, and its live value is `text`. */
  ghost predicate Next(res: Resource, k: nat, name: string, text: string)
    requires k < |Standard(res)|
  {
    Standard(res)[k] == name && Live(res, Named(name)) == [TextProp(name, text)]
  }

  lemma FileNext(res: Resource)
    requires res.File?
    ensures Next(res, 1, "displayname", res.name) && Next(res, 2, "getcontenttype", res.mimeType)
    ensures Next(res, 3, "getcontentlength", res.size) && Next(res, 4, "creationdate", res.created)
    ensures Next(res, 5, "getlastmodified", res.modified) && Next(res, 6, "getetag", "\"" + res.etag + "\"")
  {
  }

  lemma FolderNext(res: Resource)
    requires res.Folder?
    ensures Next(res, 1, "displayname", res.name) && Next(res, 2, "creationdate", res.created)
    ensures Next(res, 3, "getlastmodified", res.modified) && Next(res, 4, "getetag", "\"" + res.etag + "\"")
    ensures Next(res, 5, "getcontentlength", "0") && Next(res, 6, "getcontenttype", "httpd/unix-directory")
  {
  }

  lemma QuotaNext(res: Resource)
    requires res.Folder? && res.quota.Some?
    ensures Next(res, 7, "quota-used-bytes", res.quota.value.used)
    ensures res.quota.value.available.Some? ==> Next(res, 8, "quota-available-bytes", res.quota.value.available.value)
  {
  }

  method WriteNext(ghost out0: seq<Event>, out: seq<Event>, res: Resource, ghost k: nat, name: string, text: string)
    returns (out': seq<Event>)
    requires k < |Standard(res)| && out == Written(out0, res, k)
    requires Next(res, k, name, text)
    ensures out' == Written(out0, res, k + 1)
  {
    out' := WriteText(out, name, text);
    LiveSnoc(out0, res, StandardNames(res), k);
  }

  method WriteFileStandard(out: seq<Event>, res: Resource) returns (out': seq<Event>)
    requires res.File?
    ensures out' == Written(out, res, 7)
  {
    FileNext(res);
    out' := WriteResourceType(out, res);
    LiveSnoc(out, res, StandardNames(res), 0);
    out' := WriteNext(out, out', res, 1, "displayname", res.name);
    out' := WriteNext(out, out', res, 2, "getcontenttype", res.mimeType);
    out' := WriteNext(out, out', res, 3, "getcontentlength", res.size);
    out' := WriteNext(out, out', res, 4, "creationdate", res.created);
    out' := WriteNext(out, out', res, 5, "getlastmodified", res.modified);
    out' := WriteNext(out, out', res, 6, "getetag", "\"" + res.etag + "\"");
  }

  method WriteFolderStandard(out: seq<Event>, res: Resource) returns (out': seq<Event>)
    requires res.Folder?
    ensures out' == Written(out, res, 7)
  {
    FolderNext(res);
    out' := WriteResourceType(out, res);
    LiveSnoc(out, res, StandardNames(res), 0);
    out' := WriteNext(out, out', res, 1, "displayname", res.name);
    out' := WriteNext(out, out', res, 2, "creationdate", res.created);
    out' := WriteNext(out, out', res, 3, "getlastmodified", res.modified);
    out' := WriteNext(out, out', res, 4, "getetag", "\"" + res.etag + "\"");
    out' := WriteNext(out, out', res, 5, "getcontentlength", "0");
    out' := WriteNext(out, out', res, 6, "getcontenttype", "httpd/unix-directory");
  }

  /** The standard properties are written as if they had been requested by name. */
  method WriteStandard(out: seq<Event>, res: Resource) returns (out': seq<Event>)
    ensures out' == out + Events(LiveNodes(res, StandardNames(res)))
  {
    if res.File? {
      out' := WriteFileStandard(out, res);
    } else {
      out' := WriteFolderStandard(out, res);
      if res.quota.Some? {
        QuotaNext(res);
        out' := WriteNext(out, out', res, 7, "quota-used-bytes", res.quota.value.used);
        if res.quota.value.available.Some? {
          out' := WriteNext(out, out', res, 8, "quota-available-bytes", res.quota.value.available.value);
        }
      }
    }
    assert StandardNames(res)[..|Standard(res)|] == StandardNames(res);
  }

  method WriteMissing(out: seq<Event>, missing: seq<QName>) returns (out': seq<Event>)
    ensures out' == out + Events(if missing == [] then [] else [PropstatNode(Map(UnknownNode, missing), NOT_FOUND)])
  {
    if missing == [] {
      return out;
    }
    out' := out + [Start(D("propstat"))] + [Start(D("prop"))];
    ghost var front := out';
    for i := 0 to |missing|
      invariant out' == front + Events(Map(UnknownNode, missing[..i]))
    {
      out' := out' + [Empty(UnknownTag(missing[i]))];
      SliceSnoc(missing, i);
      assert Map(UnknownNode, missing[..i + 1]) == Map(UnknownNode, missing[..i]) + [UnknownNode(missing[i])];
      EventsSnoc(front, Map(UnknownNode, missing[..i]), UnknownNode(missing[i]));
    }
    assert missing[..|missing|] == missing;
    out' := ClosePropstat(out, out', Map(UnknownNode, missing), NOT_FOUND);
  }

  method WriteDead(out: seq<Event>, dead: seq<DeadProp>) returns (out': seq<Event>)
    ensures out' == out + Events(if dead == [] then [] else [PropstatNode(Map(DeadNode, dead), OK)])
  {
    if dead == [] {
      return out;
    }
    out' := out + [Start(D("propstat"))] + [Start(D("prop"))];
    ghost var front := out';
    for i := 0 to |dead|
      invariant out' == front + Events(Map(DeadNode, dead[..i]))
    {
      var tag := DeadTag(dead[i].name);
      if dead[i].value.Some? && dead[i].value.value != "" {
        out' := out' + ([Start(tag)] + [Text(dead[i].value.value)] + [End(tag.name)]);
        EventsOne(TextNode(dead[i].value.value));
      } else {
        out' := out' + [Empty(tag)];
      }
      EventsOne(DeadNode(dead[i]));
      SliceSnoc(dead, i);
      assert Map(DeadNode, dead[..i + 1]) == Map(DeadNode, dead[..i]) + [DeadNode(dead[i])];
      EventsSnoc(front, Map(DeadNode, dead[..i]), DeadNode(dead[i]));
    }
    assert dead[..|dead|] == dead;
    out' := ClosePropstat(out, out', Map(DeadNode, dead), OK);
  }

  lemma EventsSnoc(front: seq<Event>, nodes: seq<Node>, node: Node)
    ensures front + Events(nodes) + Events([node]) == front + Events(nodes + [node])
    ensures node.EmptyElement? ==> Events([node]) == [Empty(node.tag)]
  {
    EventsAppend(nodes, [node]);
    EventsOne(node);
    AppendAssoc(front, Events(nodes), Events([node]));
  }

  /** Closes the prop element, states the status and closes the propstat. */
  method ClosePropstat(ghost out0: seq<Event>, out: seq<Event>, ghost props: seq<Node>, status: string)
    returns (out': seq<Event>)
    requires out == out0 + [Start(D("propstat"))] + [Start(D("prop"))] + Events(props)
    ensures out' == out0 + Events([PropstatNode(props, status)])
  {
    out' := out + [End(D("prop").name)];
    out' := WriteText(out', "status", status);
    out' := out' + [End(D("propstat").name)];
    PropstatEvents(out0, props, status);
  }

  lemma PropstatEvents(out: seq<Event>, props: seq<Node>, status: string)
    ensures out + Events([PropstatNode(props, status)]) ==
            out + [Start(D("propstat"))] + [Start(D("prop"))] + Events(props) + [End(D("prop").name)]
            + Events([TextProp("status", status)]) + [End(D("propstat").name)]
  {
    var prop, stat := Element(D("prop"), props), TextProp("status", status);
    EventsOne(PropstatNode(props, status));
    EventsAppend([prop], [stat]);
    assert [prop] + [stat] == [prop, stat];
    EventsOne(prop);
    assert Events([PropstatNode(props, status)]) ==
           [Start(D("propstat"))]
           + ([Start(D("prop"))] + Events(props) + [End(D("prop").name)] + Events([stat]))
           + [End(D("propstat").name)];
  }

  lemma ResponseEvents(out: seq<Event>, res: Resource, request: Request, href: string, dead: seq<DeadProp>)
    ensures var missing, relevant := MissingNames(res, request, dead), RelevantDead(request, dead);
            out + Events([Response(res, request, href, dead)]) ==
            out + [Start(D("response"))] + Events([TextProp("href", href)])
            + Events([PropstatNode(LiveNodes(res, LiveNames(res, request)), OK)])
            + Events(if missing == [] then [] else [PropstatNode(Map(UnknownNode, missing), NOT_FOUND)])
            + Events(if relevant == [] then [] else [PropstatNode(Map(DeadNode, relevant), OK)])
            + [End(D("response").name)]
  {
    var missing, relevant := MissingNames(res, request, dead), RelevantDead(request, dead);
    var a, b := [TextProp("href", href)], [PropstatNode(LiveNodes(res, LiveNames(res, request)), OK)];
    var c := if missing == [] then [] else [PropstatNode(Map(UnknownNode, missing), NOT_FOUND)];
    var d := if relevant == [] then [] else [PropstatNode(Map(DeadNode, relevant), OK)];
    EventsOne(Response(res, request, href, dead));
    EventsAppend(a, b + c + d);
    EventsAppend(b + c, d);
    EventsAppend(b, c);
    Regroup(out, [Start(D("response"))], Events(a), Events(b), Events(c), Events(d), [End(D("response").name)]);
  }

  lemma Regroup<T>(out: seq<T>, x: seq<T>, a: seq<T>, b: seq<T>, c: seq<T>, d: seq<T>, y: seq<T>)
    ensures out + (x + (a + (b + c + d)) + y) == out + x + a + b + c + d + y
  {
  }

  /** The first propstat: what is live, under 200. */
  method WriteLive(out: seq<Event>, res: Resource, request: Request) returns (out': seq<Event>)
    ensures out' == out + Events([PropstatNode(LiveNodes(res, LiveNames(res, request)), OK)])
  {
    out' := out + [Start(D("propstat"))] + [Start(D("prop"))];
    match request {
      case Prop(props) => out' := WriteRequested(out', res, Filter(Known(res), props));
      case AllProp => out' := WriteStandard(out', res);
      case PropName => assert out' + Events([]) == out';
    }
    out' := ClosePropstat(out, out', LiveNodes(res, LiveNames(res, request)), OK);
  }

  method WriteResponse(out: seq<Event>, res: Resource, request: Request, href: string, dead: seq<DeadProp>)
    returns (out': seq<Event>)
    ensures out' == out + Events([Response(res, request, href, dead)])
  {
    out' := out + [Start(D("response"))];
    out' := WriteText(out', "href", href);
    out' := WriteLive(out', res, request);
    out' := WriteMissing(out', MissingNames(res, request, dead));
    out' := WriteDead(out', RelevantDead(request, dead));
    out' := out' + [End(D("response").name)];
    ResponseEvents(out, res, request, href, dead);
  }

  // ----- what a client reads

  /** A namespace-aware reader: one colon at most, a prefix only where it is bound, and names of name characters. */
  function Resolve(tag: Tag): Option<QName> {
    match Find(tag.name, ":", 0)
    case None => if LocalName(tag.name) then Some(QName("", tag.name)) else None
    case Some(i) =>
      var prefix, local := tag.name[..i], tag.name[i + 1..];
      if !LocalName(local) then None
      else if prefix == "D" then Some(QName(DAV, local))
      else if prefix == "X" && tag.xmlns.Some? then Some(QName(tag.xmlns.value, local))
      else None
  }

  /** A name that can stand in a tag. */
  predicate Plain(q: QName) {
    LocalName(q.name)
  }

  lemma NoColon(name: string)
    ensures Find(name, ":", 0).None? <==> ':' !in name
  {
    if ':' in name {
      var i :| 0 <= i < |name| && name[i] == ':';
      assert At(name, ":", i) by { assert name[i..i + 1] == ":"; }
    }
    if Find(name, ":", 0).Some? {
      var i := Find(name, ":", 0).value;
      assert name[i..i + 1][0] == name[i];
    }
  }

  lemma Prefixed(prefix: char, name: string)
    requires prefix != ':'
    ensures Find([prefix] + ":" + name, ":", 0) == Some(1)
    ensures ([prefix] + ":" + name)[..1] == [prefix] && ([prefix] + ":" + name)[2..] == name
  {
    var tag := [prefix] + ":" + name;
    assert tag[1..2] == ":" && tag[0..1] == [prefix];
    FindIs(tag, ":", 0, 1);
  }

  lemma UnprefixedReadIff(q: QName)
    requires q.namespace == ""
    ensures Resolve(Tag(q.name, None)) == Some(q) <==> Plain(q)
  {
    NoColon(q.name);
  }

  /** Names survive writing exactly when they are plain. */
  lemma NameReadIff(q: QName)
    ensures Resolve(UnknownTag(q)) == Some(q) <==> Plain(q)
    ensures Resolve(DeadTag(q)) == Some(q) <==> Plain(q)
  {
    if q.namespace == "" {
      UnprefixedReadIff(q);
    } else {
      Prefixed('D', q.name);
      Prefixed('X', q.name);
      assert "D:" == ['D'] + ":" && "X:" == ['X'] + ":";
    }
  }

  /** What a client makes of an element's content; an empty element has the empty text. */
  datatype Value = Content(text: string) | Collection | Other

  datatype Property = Property(name: QName, value: Value)
  datatype Propstat = Propstat(props: seq<Property>, status: string)
  datatype Answer = Answer(href: string, stats: seq<Propstat>)

  function NodeName(node: Node): Option<QName> {
    if node.TextNode? then None else Resolve(node.tag)
  }

  function NodeValue(node: Node): Value {
    match node
    case TextNode(text) => Other
    case EmptyElement(_) => Content("")
    case Element(_, children) =>
      if children == [] then Content("")
      else if |children| > 1 then Other
      else if children[0].TextNode? then Content(children[0].text)
      else if NodeName(children[0]) == Some(QName(DAV, "collection")) then Collection
      else Other
  }

  function NodeProperty(node: Node): Option<Property> {
    match NodeName(node)
    case None => None
    case Some(q) => Some(Property(q, NodeValue(node)))
  }

  function ReadProperties(nodes: seq<Node>): Option<seq<Property>> {
    if nodes == [] then Some([]) else
    var first, rest := NodeProperty(nodes[0]), ReadProperties(nodes[1..]);
    if first.None? || rest.None? then None else Some([first.value] + rest.value)
  }

  predicate IsText(node: Node, name: string) {
    node.Element? && node.tag == D(name) && |node.children| == 1 && node.children[0].TextNode?
  }

  function ReadPropstat(node: Node): Option<Propstat> {
    if && node.Element? && node.tag == D("propstat") && |node.children| == 2
       && node.children[0].Element? && node.children[0].tag == D("prop") && IsText(node.children[1], "status")
    then
      var props := ReadProperties(node.children[0].children);
      if props.None? then None else Some(Propstat(props.value, node.children[1].children[0].text))
    else None
  }

  function ReadPropstats(nodes: seq<Node>): Option<seq<Propstat>> {
    if nodes == [] then Some([]) else
    var first, rest := ReadPropstat(nodes[0]), ReadPropstats(nodes[1..]);
    if first.None? || rest.None? then None else Some([first.value] + rest.value)
  }

  /** The client's side: one response element, an href, then propstats. */
  function Read(es: seq<Event>): Option<Answer> {
    var parsed := Parse(es);
    if && parsed.1 == [] && |parsed.0| == 1 && parsed.0[0].Element? && parsed.0[0].tag == D("response")
       && |parsed.0[0].children| > 0 && IsText(parsed.0[0].children[0], "href")
    then
      var stats := ReadPropstats(parsed.0[0].children[1..]);
      if stats.None? then None else Some(Answer(parsed.0[0].children[0].children[0].text, stats.value))
    else None
  }

  /** Elements are read as given properties exactly when each is. */
  lemma {:induction false} PropertiesReadIff(nodes: seq<Node>, props: seq<Property>)
    requires |nodes| == |props|
    ensures ReadProperties(nodes) == Some(props) <==>
            forall i :: 0 <= i < |nodes| ==> NodeProperty(nodes[i]) == Some(props[i])
  {
    if nodes != [] {
      PropertiesReadIff(nodes[1..], props[1..]);
      assert props == [props[0]] + props[1..];
      assert ReadProperties(nodes) == Some(props) <==>
             NodeProperty(nodes[0]) == Some(props[0]) && ReadProperties(nodes[1..]) == Some(props[1..]) by {
        if ReadProperties(nodes) == Some(props) {
          assert props[1..] == ReadProperties(nodes[1..]).value;
        }
      }
      assert forall i :: 0 < i < |nodes| ==> nodes[i] == nodes[1..][i - 1] && props[i] == props[1..][i - 1];
    }
  }

  // ----- what the answer should say

  /** What a resource has to say under a live name. */
  function Told(res: Resource, name: string): Value {
    match name
    case "resourcetype" => if res.Folder? then Collection else Content("")
    case "displayname" => Content(res.name)
    case "creationdate" => Content(res.created)
    case "getlastmodified" => Content(res.modified)
    case "getetag" => Content("\"" + res.etag + "\"")
    case "getcontentlength" => Content(if res.File? then res.size else "0")
    case "getcontenttype" => Content(if res.File? then res.mimeType else "httpd/unix-directory")
    case "quota-used-bytes" => if res.Folder? && res.quota.Some? then Content(res.quota.value.used) else Other
    case "quota-available-bytes" =>
      if res.Folder? && res.quota.Some? && res.quota.value.available.Some?
      then Content(res.quota.value.available.value) else Other
    case _ => Other
  }

  function LiveProperty(res: Resource): QName -> Property {
    (q: QName) => Property(q, Told(res, q.name))
  }

  function MissingProperty(q: QName): Property {
    Property(q, Content(""))
  }

  /** A dead property as stored, without a value the empty text. */
  function DeadProperty(d: DeadProp): Property {
    Property(d.name, Content(if d.value.Some? then d.value.value else ""))
  }

  lemma CollectionRead()
    ensures Resolve(D("collection")) == Some(QName(DAV, "collection"))
  {
    assert LocalName("collection");
    DavRead(QName(DAV, "collection"));
  }

  lemma TypeRead(res: Resource)
    requires Resolve(D("collection")) == Some(QName(DAV, "collection"))
    ensures |Live(res, Named("resourcetype"))| == 1
    ensures NodeValue(Live(res, Named("resourcetype"))[0]) == if res.Folder? then Collection else Content("")
  {
  }

  lemma TextRead(name: string, text: string)
    ensures NodeValue(TextProp(name, text)) == Content(text)
  {
  }

  /** Every live property but the type is one element with the text told. */
  lemma KnownText(res: Resource, q: QName)
    requires IsKnown(res, q) && q.name != "resourcetype"
    ensures Told(res, q.name).Content? && Live(res, q) == [TextProp(q.name, Told(res, q.name).text)]
  {
  }

  lemma KnownValue(res: Resource, q: QName)
    requires IsKnown(res, q) && Resolve(D("collection")) == Some(QName(DAV, "collection"))
    ensures |Live(res, q)| == 1 && NodeValue(Live(res, q)[0]) == Told(res, q.name)
  {
    if q.name == "resourcetype" {
      TypeRead(res);
      assert q == Named("resourcetype");
    } else {
      KnownText(res, q);
      TextRead(q.name, Told(res, q.name).text);
    }
  }

  lemma KnownRead(res: Resource, q: QName)
    requires IsKnown(res, q)
    ensures |Live(res, q)| == 1 && NodeProperty(Live(res, q)[0]) == Some(Property(q, Told(res, q.name)))
  {
    CollectionRead();
    KnownValue(res, q);
    KnownIffLive(res, q);
    KnownPlain(res, q);
  }

  lemma {:induction false} LiveRead(res: Resource, props: seq<QName>)
    requires forall q :: q in props ==> IsKnown(res, q)
    ensures ReadProperties(LiveNodes(res, props)) == Some(Map(LiveProperty(res), props))
  {
    if props != [] {
      LiveRead(res, props[1..]);
      KnownRead(res, props[0]);
      var nodes := LiveNodes(res, props);
      assert nodes[0] == Live(res, props[0])[0] && nodes[1..] == LiveNodes(res, props[1..]);
      assert Map(LiveProperty(res), props) == [LiveProperty(res)(props[0])] + Map(LiveProperty(res), props[1..]);
    }
  }

  lemma KnownPlain(res: Resource, q: QName)
    requires IsKnown(res, q)
    ensures Resolve(D(q.name)) == Some(q)
  {
    StandardPlain(q.name);
    QuotaPlain(q.name);
    DavRead(q);
  }

  lemma DavRead(q: QName)
    requires q.namespace == DAV && Plain(q)
    ensures Resolve(D(q.name)) == Some(q)
  {
    NameReadIff(q);
  }

  lemma StandardPlain(name: string)
    ensures name in LIVE_NAMES ==> LocalName(name)
  {
    ShortNamesPlain();
    LongNamesPlain();
  }

  lemma ShortNamesPlain()
    ensures LocalName("resourcetype") && LocalName("displayname") && LocalName("creationdate") && LocalName("getetag")
  {
  }

  lemma LongNamesPlain()
    ensures LocalName("getlastmodified") && LocalName("getcontentlength") && LocalName("getcontenttype")
  {
  }

  lemma QuotaPlain(name: string)
    ensures name == "quota-used-bytes" || name == "quota-available-bytes" ==> LocalName(name)
  {
    assert LocalName("quota-used-bytes") && LocalName("quota-available-bytes");
  }

  lemma {:induction false} StatsReadIff(a: seq<Node>, b: seq<Node>, x: seq<Propstat>, y: seq<Propstat>)
    requires |a| == |x| && |b| == |y|
    ensures ReadPropstats(a + b) == Some(x + y) <==> ReadPropstats(a) == Some(x) && ReadPropstats(b) == Some(y)
  {
    if a == [] {
      assert a + b == b && x + y == y;
    } else {
      TailAppend(a, b);
      TailAppend(x, y);
      StatsReadIff(a[1..], b, x[1..], y);
      StatsReadCons(a, x);
      StatsReadCons(a + b, x + y);
    }
  }

  lemma StatsReadCons(nodes: seq<Node>, stats: seq<Propstat>)
    requires nodes != [] && stats != []
    ensures ReadPropstats(nodes) == Some(stats) <==>
            ReadPropstat(nodes[0]) == Some(stats[0]) && ReadPropstats(nodes[1..]) == Some(stats[1..])
  {
    assert stats == [stats[0]] + stats[1..];
    if ReadPropstats(nodes) == Some(stats) {
      assert ReadPropstats(nodes[1..]).value == stats[1..];
    }
  }

  lemma StatReadIff(nodes: seq<Node>, props: seq<Property>, status: string)
    ensures ReadPropstats([PropstatNode(nodes, status)]) == Some([Propstat(props, status)]) <==>
            ReadProperties(nodes) == Some(props)
  {
    StatsReadCons([PropstatNode(nodes, status)], [Propstat(props, status)]);
    assert [PropstatNode(nodes, status)][1..] == [] && [Propstat(props, status)][1..] == [];
  }

  function Stat(props: seq<Property>, status: string): seq<Propstat> {
    if props == [] then [] else [Propstat(props, status)]
  }

  /** The live properties, then the missing ones if any under 404, then the dead ones if any. */
  function Stats(res: Resource, request: Request, dead: seq<DeadProp>): seq<Propstat> {
    [Propstat(Map(LiveProperty(res), LiveNames(res, request)), OK)]
    + Stat(Map(MissingProperty, MissingNames(res, request, dead)), NOT_FOUND)
    + Stat(Map(DeadProperty, RelevantDead(request, dead)), OK)
  }

  /** The names written outside the standard properties can stand in tags. */
  ghost predicate NamesPlain(res: Resource, request: Request, dead: seq<DeadProp>) {
    && (forall q :: q in MissingNames(res, request, dead) ==> Plain(q))
    && (forall d :: d in RelevantDead(request, dead) ==> Plain(d.name))
  }

  lemma ResponseRead(href: string, propstats: seq<Node>)
    ensures Read(Events([Element(D("response"), [TextProp("href", href)] + propstats)])) ==
            match ReadPropstats(propstats)
            case None => None
            case Some(stats) => Some(Answer(href, stats))
  {
    var node := Element(D("response"), [TextProp("href", href)] + propstats);
    ParseEvents([node], []);
    assert Events([node]) + [] == Events([node]);
    assert node.children[1..] == propstats;
  }

  /**
   For every response: a client reads the href, what the resource says under its live names,
   the missing names, and the dead properties as stored, if and only if the names written
   beside the live ones are plain.
   */
  lemma ResponseReadIff(res: Resource, request: Request, href: string, dead: seq<DeadProp>)
    ensures Read(Events([Response(res, request, href, dead)])) == Some(Answer(href, Stats(res, request, dead))) <==>
            NamesPlain(res, request, dead)
  {
    ResponseRead(href, Propstats(res, request, dead));
    PropstatsReadIff(res, request, dead);
  }

  lemma PropstatsReadIff(res: Resource, request: Request, dead: seq<DeadProp>)
    ensures ReadPropstats(Propstats(res, request, dead)) == Some(Stats(res, request, dead)) <==>
            NamesPlain(res, request, dead)
  {
    var missing, relevant := MissingNames(res, request, dead), RelevantDead(request, dead);
    var live := [PropstatNode(LiveNodes(res, LiveNames(res, request)), OK)];
    var notFound := if missing == [] then [] else [PropstatNode(Map(UnknownNode, missing), NOT_FOUND)];
    var kept := if relevant == [] then [] else [PropstatNode(Map(DeadNode, relevant), OK)];
    LiveStatRead(res, request);
    MissingReadIff(missing);
    DeadReadIff(relevant);
    var said := [Propstat(Map(LiveProperty(res), LiveNames(res, request)), OK)];
    var absent := Stat(Map(MissingProperty, missing), NOT_FOUND);
    StatsReadIff(live, notFound, said, absent);
    StatsReadIff(live + notFound, kept, said + absent, Stat(Map(DeadProperty, relevant), OK));
  }

  lemma LiveStatRead(res: Resource, request: Request)
    ensures ReadPropstats([PropstatNode(LiveNodes(res, LiveNames(res, request)), OK)]) ==
            Some([Propstat(Map(LiveProperty(res), LiveNames(res, request)), OK)])
  {
    var names := LiveNames(res, request);
    forall q | q in names ensures IsKnown(res, q) {
      KnownIffStandard(res, q);
    }
    LiveRead(res, names);
    StatReadIff(LiveNodes(res, names), Map(LiveProperty(res), names), OK);
  }

  lemma MissingReadIff(missing: seq<QName>)
    ensures (ReadPropstats(if missing == [] then [] else [PropstatNode(Map(UnknownNode, missing), NOT_FOUND)]) ==
             Some(Stat(Map(MissingProperty, missing), NOT_FOUND))) <==> forall q :: q in missing ==> Plain(q)
  {
    var nodes, props := Map(UnknownNode, missing), Map(MissingProperty, missing);
    PropertiesReadIff(nodes, props);
    forall i | 0 <= i < |missing| ensures NodeProperty(nodes[i]) == Some(props[i]) <==> Plain(missing[i]) {
      NameReadIff(missing[i]);
    }
    StatReadIff(nodes, props, NOT_FOUND);
  }

  lemma DeadReadIff(dead: seq<DeadProp>)
    ensures (ReadPropstats(if dead == [] then [] else [PropstatNode(Map(DeadNode, dead), OK)]) ==
             Some(Stat(Map(DeadProperty, dead), OK))) <==> forall d :: d in dead ==> Plain(d.name)
  {
    var nodes, props := Map(DeadNode, dead), Map(DeadProperty, dead);
    PropertiesReadIff(nodes, props);
    forall i | 0 <= i < |dead| ensures NodeProperty(nodes[i]) == Some(props[i]) <==> Plain(dead[i].name) {
      NameReadIff(dead[i].name);
    }
    StatReadIff(nodes, props, OK);
  }

  /**
   Of the requested names the answer says 404 for exactly those neither live nor dead, in the
   order asked for; every requested name is answered; no other name is.
   */
  lemma EveryNameAnswered(res: Resource, props: seq<QName>, dead: seq<DeadProp>)
    ensures MissingNames(res, Prop(props), dead) == Filter(Missing(res, dead), props)
    ensures forall q :: q in props <==>
              || q in LiveNames(res, Prop(props))
              || q in MissingNames(res, Prop(props), dead)
              || q in Map(NameOf, RelevantDead(Prop(props), dead))
    ensures forall q :: q in MissingNames(res, Prop(props), dead) ==>
              q !in LiveNames(res, Prop(props)) && q !in Map(NameOf, RelevantDead(Prop(props), dead))
  {
    var relevant := RelevantDead(Prop(props), dead);
    forall q | q in props ensures q in Map(NameOf, relevant) <==> q in Map(NameOf, dead) {
      if q in Map(NameOf, dead) {
        var i :| 0 <= i < |dead| && NameOf(dead[i]) == q;
        assert dead[i] in relevant;
        var k :| 0 <= k < |relevant| && relevant[k] == dead[i];
        assert Map(NameOf, relevant)[k] == q;
      }
      if q in Map(NameOf, relevant) {
        var i :| 0 <= i < |relevant| && NameOf(relevant[i]) == q;
        assert relevant[i] in dead;
        var k :| 0 <= k < |dead| && dead[k] == relevant[i];
        assert Map(NameOf, dead)[k] == q;
      }
    }
    forall q | q in Map(NameOf, relevant) ensures q in props {
      var i :| 0 <= i < |relevant| && NameOf(relevant[i]) == q;
      assert relevant[i] in relevant;
    }
    FilterAgree(Missing(res, relevant), Missing(res, dead), props);
  }

  /** An allprop answer tells every live property of the resource and every dead one, and misses none. */
  lemma AllPropTells(res: Resource, dead: seq<DeadProp>, q: QName)
    ensures MissingNames(res, AllProp, dead) == [] && RelevantDead(AllProp, dead) == dead
    ensures q in LiveNames(res, AllProp) <==> q.namespace == "DAV:" && Told(res, q.name) != Other
  {
    KnownIffStandard(res, q);
    if q.namespace == DAV {
      KnownTold(res, q);
    }
  }

  /** A resource has something to say exactly under its known names. */
  lemma KnownTold(res: Resource, q: QName)
    requires q.namespace == DAV
    ensures IsKnown(res, q) <==> Told(res, q.name) != Other
  {
  }
}
