/**
 Time zone definitions in the streamed .ics file. Every stored row may carry VTIMEZONE
 blocks of its own; the stream writes each zone the first time it shows up and remembers it
 across pages, so the pages share state although each has its own buffer.
 */
module CalDavZones {
  import opened Sequences
  import opened Strings
  import opened Ordering
  import opened Wrappers
  import opened CalDavBundles
  import opened ICalendar
  import opened CalDavStream

  const ZONE_BEGIN: string := "BEGIN:VTIMEZONE"
  const ZONE_END: string := "END:VTIMEZONE"

  predicate NonEmpty(chunks: seq<string>) {
    forall i :: 0 <= i < |chunks| ==> chunks[i] != []
  }

  /** The next slice of a body from a BEGIN to the first END after it, with its line end. */
  function NextChunk(body: string, beginTag: string, endTag: string, from: nat): (r: Option<(nat, nat)>)
    requires endTag != []
    ensures r.Some? ==> from <= r.value.0 < r.value.1 <= |body|
  {
    match FindAnyCase(body, beginTag, from)
    case None => None
    case Some(begin) =>
      match FindAnyCase(body, endTag, begin)
      case None => None
      case Some(close) => Some((begin, PastLineEnd(body, close + |endTag|)))
  }

  function Chunks(body: string, beginTag: string, endTag: string, from: nat): (r: seq<string>)
    requires endTag != []
    ensures NonEmpty(r)
    decreases |body| - from
  {
    match NextChunk(body, beginTag, endTag, from)
    case None => []
    case Some((begin, end)) => [body[begin..end]] + Chunks(body, beginTag, endTag, end)
  }

  /** The VTIMEZONE blocks of a body. */
  function ZoneChunks(body: string): (r: seq<string>)
    ensures NonEmpty(r)
  {
    Chunks(body, ZONE_BEGIN, ZONE_END, 0)
  }

  lemma ChunksNext(body: string, beginTag: string, endTag: string, from: nat, r: Option<(nat, nat)>)
    requires endTag != [] && NextChunk(body, beginTag, endTag, from) == r
    ensures Chunks(body, beginTag, endTag, from) ==
            if r.None? then [] else [body[r.value.0..r.value.1]] + Chunks(body, beginTag, endTag, r.value.1)
  {
  }

  /** The loop that collects slices. */
  method ExtractChunks(body: string, beginTag: string, endTag: string) returns (out: seq<string>)
    requires endTag != []
    ensures out == Chunks(body, beginTag, endTag, 0)
  {
    out := [];
    var from := 0;
    var next := NextChunk(body, beginTag, endTag, from);
    ChunksNext(body, beginTag, endTag, from, next);
    while next.Some?
      invariant from <= |body| && next == NextChunk(body, beginTag, endTag, from)
      invariant out + Chunks(body, beginTag, endTag, from) == Chunks(body, beginTag, endTag, 0)
      decreases |body| - from
    {
      var (begin, end) := next.value;
      ChunksNext(body, beginTag, endTag, from, next);
      AppendAssoc(out, [body[begin..end]], Chunks(body, beginTag, endTag, end));
      out := out + [body[begin..end]];
      from := end;
      next := NextChunk(body, beginTag, endTag, from);
    }
    ChunksNext(body, beginTag, endTag, from, next);
  }

  function TrimEnd(line: string): string {
    if line != [] && IsWhitespace(line[|line| - 1]) then TrimEnd(line[..|line| - 1]) else line
  }

  /** The value of the first non-empty TZID line. */
  function Tzid(lines: seq<string>): Option<string> {
    if lines == [] then None
    else
      var line := TrimEndCr(lines[0]);
      if StartsWith(Upper(line), "TZID:") && TrimEnd(TrimStart(line[5..])) != ""
      then Some(TrimEnd(TrimStart(line[5..])))
      else Tzid(lines[1..])
  }

  /** What a zone is told apart by: its TZID, or all of it. */
  function ZoneKey(chunk: string): string {
    match Tzid(Lines(chunk))
    case Some(id) => id
    case None => chunk
  }

  // ----- what rows put out, given the zones already written

  function ZonesText(seen: set<string>, chunks: seq<string>): string
    requires NonEmpty(chunks)
    decreases |chunks|
  {
    if chunks == [] then ""
    else
      var key := ZoneKey(chunks[0]);
      (if key in seen then "" else ChunkLine(chunks[0])) + ZonesText(seen + {key}, chunks[1..])
  }

  function KeySet(chunks: seq<string>): set<string> { set c | c in chunks :: ZoneKey(c) }

  function Zones(e: Event): (r: seq<string>)
    ensures NonEmpty(r)
  {
    ZoneChunks(e.icalData)
  }

  function Seen(seen: set<string>, rows: seq<Event>): set<string>
    decreases |rows|
  {
    if rows == [] then seen else Seen(seen + KeySet(Zones(rows[0])), rows[1..])
  }

  function RowsText(seen: set<string>, rows: seq<Event>): string
    decreases |rows|
  {
    if rows == [] then ""
    else ZonesText(seen, Zones(rows[0])) + EventText(rows[0]) + RowsText(seen + KeySet(Zones(rows[0])), rows[1..])
  }

  /** Pages in turn, each starting from the zones of those before. */
  function PagesText(seen: set<string>, pages: seq<seq<Event>>): string
    decreases |pages|
  {
    if pages == [] then ""
    else
      var rows := Flatten(Bundles(pages[0]));
      RowsText(seen, rows) + PagesText(Seen(seen, rows), pages[1..])
  }

  function ZoneText(seen: set<string>, vtz: string): string
    requires vtz != []
  {
    if ZoneKey(vtz) in seen then "" else ChunkLine(vtz)
  }

  method PushZone(buf: string, seen: set<string>, vtz: string) returns (out: string, seen': set<string>)
    requires vtz != []
    ensures out == buf + ZoneText(seen, vtz)
    ensures seen' == seen + {ZoneKey(vtz)}
  {
    var key := ZoneKey(vtz);
    out, seen' := buf, seen + {key};
    if key !in seen {
      out := out + vtz;
      assert out[|out| - 1] == vtz[|vtz| - 1];
      if out == [] || out[|out| - 1] != '\n' {
        AppendAssoc(buf, vtz, CRLF);
        out := out + CRLF;
      }
    }
  }

  lemma {:induction false} ZonesSnoc(seen: set<string>, chunks: seq<string>, vtz: string)
    requires NonEmpty(chunks) && vtz != []
    ensures NonEmpty(chunks + [vtz])
    ensures ZonesText(seen, chunks + [vtz]) == ZonesText(seen, chunks) + ZoneText(seen + KeySet(chunks), vtz)
    decreases |chunks|
  {
    if chunks == [] {
      assert chunks + [vtz] == [vtz] && [vtz][1..] == [];
      assert seen + KeySet(chunks) == seen;
      assert ZonesText(seen, [vtz]) == ZoneText(seen, vtz) + ZonesText(seen + {ZoneKey(vtz)}, []);
    } else {
      var key := ZoneKey(chunks[0]);
      TailAppend(chunks, [vtz]);
      ZonesSnoc(seen + {key}, chunks[1..], vtz);
      KeySetCons(chunks);
      assert seen + {key} + KeySet(chunks[1..]) == seen + KeySet(chunks);
      AppendAssoc(ZoneText(seen, chunks[0]), ZonesText(seen + {key}, chunks[1..]),
                  ZoneText(seen + KeySet(chunks), vtz));
    }
  }

  lemma KeySetCons(chunks: seq<string>)
    requires chunks != []
    ensures KeySet(chunks) == {ZoneKey(chunks[0])} + KeySet(chunks[1..])
  {
    assert chunks == [chunks[0]] + chunks[1..];
  }

  lemma KeySetSnoc(chunks: seq<string>, vtz: string)
    ensures KeySet(chunks + [vtz]) == KeySet(chunks) + {ZoneKey(vtz)}
  {
  }

  lemma NextZone(buf: string, seen: set<string>, chunks: seq<string>, i: nat)
    requires i < |chunks| && NonEmpty(chunks)
    ensures buf + ZonesText(seen, chunks[..i]) + ZoneText(seen + KeySet(chunks[..i]), chunks[i]) ==
            buf + ZonesText(seen, chunks[..i + 1])
    ensures KeySet(chunks[..i + 1]) == KeySet(chunks[..i]) + {ZoneKey(chunks[i])}
  {
    SliceSnoc(chunks, i);
    ZonesSnoc(seen, chunks[..i], chunks[i]);
    KeySetSnoc(chunks[..i], chunks[i]);
    AppendAssoc(buf, ZonesText(seen, chunks[..i]), ZoneText(seen + KeySet(chunks[..i]), chunks[i]));
  }

  method PushZones(buf: string, seen: set<string>, chunks: seq<string>) returns (out: string, seen': set<string>)
    requires NonEmpty(chunks)
    ensures out == buf + ZonesText(seen, chunks)
    ensures seen' == seen + KeySet(chunks)
  {
    out, seen' := buf, seen;
    for i := 0 to |chunks|
      invariant out == buf + ZonesText(seen, chunks[..i])
      invariant seen' == seen + KeySet(chunks[..i])
    {
      NextZone(buf, seen, chunks, i);
      out, seen' := PushZone(out, seen', chunks[i]);
    }
    assert chunks[..|chunks|] == chunks;
  }

  method PushRowsZoned(buf: string, seen: set<string>, rows: seq<Event>) returns (out: string, seen': set<string>)
    ensures out == buf + RowsText(seen, rows)
    ensures seen' == Seen(seen, rows)
  {
    out, seen' := buf, seen;
    for i := 0 to |rows|
      invariant out == buf + RowsText(seen, rows[..i])
      invariant seen' == Seen(seen, rows[..i])
    {
      SliceSnoc(rows, i);
      RowsAppend(seen, rows[..i], [rows[i]]);
      OneRow(seen', rows[i]);
      AppendAssoc(buf, RowsText(seen, rows[..i]), RowsText(seen', [rows[i]]));
      AppendAssoc(out, ZonesText(seen', Zones(rows[i])), EventText(rows[i]));
      var zones := ExtractChunks(rows[i].icalData, ZONE_BEGIN, ZONE_END);
      out, seen' := PushZones(out, seen', zones);
      out := PushEvent(out, rows[i]);
    }
    assert rows[..|rows|] == rows;
  }

  lemma OneRow(seen: set<string>, e: Event)
    ensures RowsText(seen, [e]) == ZonesText(seen, Zones(e)) + EventText(e)
    ensures Seen(seen, [e]) == seen + KeySet(Zones(e))
  {
    assert [e][1..] == [];
    assert RowsText(seen + KeySet(Zones(e)), []) == "";
  }

  /** One page of the stream: a fresh buffer, the shared set of zones. */
  method RenderPage(seen: set<string>, page: seq<Event>) returns (chunk: string, seen': set<string>)
    ensures chunk == RowsText(seen, Flatten(Bundles(page)))
    ensures seen' == Seen(seen, Flatten(Bundles(page)))
  {
    var groups := GroupByUid(page);
    chunk, seen' := "", seen;
    for i := 0 to |groups|
      invariant chunk == RowsText(seen, Flatten(groups[..i]))
      invariant seen' == Seen(seen, Flatten(groups[..i]))
    {
      SliceSnoc(groups, i);
      FlattenSnoc(groups[..i], groups[i]);
      RowsAppend(seen, Flatten(groups[..i]), groups[i]);
      chunk, seen' := PushRowsZoned(chunk, seen', groups[i]);
    }
    assert groups[..|groups|] == groups;
  }

  // ----- paging is invisible

  lemma {:induction false} RowsAppend(seen: set<string>, a: seq<Event>, b: seq<Event>)
    ensures RowsText(seen, a + b) == RowsText(seen, a) + RowsText(Seen(seen, a), b)
    ensures Seen(seen, a + b) == Seen(Seen(seen, a), b)
    decreases |a|
  {
    if a == [] {
      assert a + b == b;
    } else {
      TailAppend(a, b);
      var seen1 := seen + KeySet(Zones(a[0]));
      RowsAppend(seen1, a[1..], b);
      AppendAssoc(ZonesText(seen, Zones(a[0])) + EventText(a[0]), RowsText(seen1, a[1..]), RowsText(Seen(seen, a), b));
    }
  }

  lemma {:induction false} PagesAreRows(seen: set<string>, pages: seq<seq<Event>>)
    ensures PagesText(seen, pages) == RowsText(seen, Flatten(Flatten(Map(Bundles, pages))))
    decreases |pages|
  {
    if pages != [] {
      var rows, rest := Flatten(Bundles(pages[0])), Flatten(Map(Bundles, pages[1..]));
      assert Map(Bundles, pages)[1..] == Map(Bundles, pages[1..]);
      FlattenAppend(Bundles(pages[0]), rest);
      PagesAreRows(Seen(seen, rows), pages[1..]);
      RowsAppend(seen, rows, Flatten(rest));
    }
  }

  /** With zones too, the streamed file is the file of the buffered listing in one buffer. */
  lemma ZonedIcsByteIdentical(b: seq<Event>, s: seq<Event>, collate: (string, string) -> bool, pageSize: nat)
    requires multiset(b) == multiset(s) && NoTies(b)
    requires SortedBy(StartLe(), b)
    requires Collation(collate) && SortedBy(StreamLe(s, collate), s)
    ensures PagesText({}, Cut([], s, pageSize)) == RowsText({}, Flatten(Bundles(b)))
  {
    PagesAreRows({}, Cut([], s, pageSize));
    StreamedBundles(b, s, collate, pageSize);
  }

  /** The stream: pages cut at UID changes, each in a buffer of its own, one set of zones for all. */
  method StreamedZonedIcs(name: string, rows: seq<Event>, pageSize: nat) returns (ics: string)
    ensures ics == ICS_HEAD + name + CRLF + PagesText({}, Cut([], rows, pageSize)) + ICS_FOOT
  {
    var head := ICS_HEAD + name + CRLF;
    ics := head;
    var pages := CutPages(rows, pageSize);
    var seen: set<string> := {};
    for i := 0 to |pages|
      invariant ics == head + PagesText({}, pages[..i])
      invariant seen == PagesSeen({}, pages[..i])
    {
      NextPage(head, pages, i);
      var chunk, seen' := RenderPage(seen, pages[i]);
      ics, seen := ics + chunk, seen';
    }
    assert pages[..|pages|] == pages;
    ics := ics + ICS_FOOT;
  }

  function PagesSeen(seen: set<string>, pages: seq<seq<Event>>): set<string>
    decreases |pages|
  {
    if pages == [] then seen else PagesSeen(Seen(seen, Flatten(Bundles(pages[0]))), pages[1..])
  }

  lemma {:induction false} PagesSnoc(seen: set<string>, pages: seq<seq<Event>>, page: seq<Event>)
    ensures PagesText(seen, pages + [page]) ==
            PagesText(seen, pages) + RowsText(PagesSeen(seen, pages), Flatten(Bundles(page)))
    ensures PagesSeen(seen, pages + [page]) == Seen(PagesSeen(seen, pages), Flatten(Bundles(page)))
    decreases |pages|
  {
    if pages == [] {
      assert pages + [page] == [page] && [page][1..] == [];
      OnePage(seen, page);
    } else {
      var rows := Flatten(Bundles(pages[0]));
      TailAppend(pages, [page]);
      PagesSnoc(Seen(seen, rows), pages[1..], page);
      AppendAssoc(RowsText(seen, rows), PagesText(Seen(seen, rows), pages[1..]),
                  RowsText(PagesSeen(seen, pages), Flatten(Bundles(page))));
    }
  }

  lemma OnePage(seen: set<string>, page: seq<Event>)
    ensures PagesText(seen, [page]) == RowsText(seen, Flatten(Bundles(page)))
    ensures PagesSeen(seen, [page]) == Seen(seen, Flatten(Bundles(page)))
  {
    assert [page][1..] == [];
    assert PagesText(Seen(seen, Flatten(Bundles(page))), []) == "";
  }

  lemma NextPage(head: string, pages: seq<seq<Event>>, i: nat)
    requires i < |pages|
    ensures head + PagesText({}, pages[..i + 1]) ==
            head + PagesText({}, pages[..i]) + RowsText(PagesSeen({}, pages[..i]), Flatten(Bundles(pages[i])))
    ensures PagesSeen({}, pages[..i + 1]) == Seen(PagesSeen({}, pages[..i]), Flatten(Bundles(pages[i])))
  {
    SliceSnoc(pages, i);
    PagesSnoc({}, pages[..i], pages[i]);
    AppendAssoc(head, PagesText({}, pages[..i]), RowsText(PagesSeen({}, pages[..i]), Flatten(Bundles(pages[i]))));
  }

  // ----- what the text is made of

  /** The file is zone definitions and events in turn. */
  datatype Piece = Zone(chunk: string) | Component(event: Event)

  function PieceText(p: Piece): string {
    match p
    case Zone(chunk) => if chunk == [] then "" else ChunkLine(chunk)
    case Component(e) => EventText(e)
  }

  function ZonePieces(seen: set<string>, chunks: seq<string>): seq<Piece>
    decreases |chunks|
  {
    if chunks == [] then []
    else
      var key := ZoneKey(chunks[0]);
      (if key in seen then [] else [Zone(chunks[0])]) + ZonePieces(seen + {key}, chunks[1..])
  }

  function Pieces(seen: set<string>, rows: seq<Event>): seq<Piece>
    decreases |rows|
  {
    if rows == [] then []
    else ZonePieces(seen, Zones(rows[0])) + [Component(rows[0])] + Pieces(seen + KeySet(Zones(rows[0])), rows[1..])
  }

  function PiecesText(pieces: seq<Piece>): string {
    Flatten(Map(PieceText, pieces))
  }

  lemma PiecesAppend(a: seq<Piece>, b: seq<Piece>)
    ensures PiecesText(a + b) == PiecesText(a) + PiecesText(b)
  {
    MapAppend(PieceText, a, b);
    FlattenAppend(Map(PieceText, a), Map(PieceText, b));
  }

  lemma OnePiece(p: Piece)
    ensures PiecesText([p]) == PieceText(p)
  {
    assert Map(PieceText, [p]) == [PieceText(p)];
    assert [PieceText(p)][1..] == [];
    assert Flatten([PieceText(p)]) == PieceText(p) + Flatten([]);
  }

  lemma {:induction false} ZonesTextIs(seen: set<string>, chunks: seq<string>)
    requires NonEmpty(chunks)
    ensures ZonesText(seen, chunks) == PiecesText(ZonePieces(seen, chunks))
    decreases |chunks|
  {
    if chunks != [] {
      var key := ZoneKey(chunks[0]);
      ZonesTextIs(seen + {key}, chunks[1..]);
      if key !in seen {
        OnePiece(Zone(chunks[0]));
        PiecesAppend([Zone(chunks[0])], ZonePieces(seen + {key}, chunks[1..]));
      } else {
        assert [] + ZonePieces(seen + {key}, chunks[1..]) == ZonePieces(seen + {key}, chunks[1..]);
      }
    }
  }

  /** The bytes put out for rows are those of their pieces. */
  lemma {:induction false} RowsTextIs(seen: set<string>, rows: seq<Event>)
    ensures RowsText(seen, rows) == PiecesText(Pieces(seen, rows))
    decreases |rows|
  {
    if rows != [] {
      var zones, rest := ZonePieces(seen, Zones(rows[0])), Pieces(seen + KeySet(Zones(rows[0])), rows[1..]);
      ZonesTextIs(seen, Zones(rows[0]));
      RowsTextIs(seen + KeySet(Zones(rows[0])), rows[1..]);
      OnePiece(Component(rows[0]));
      PiecesAppend(zones, [Component(rows[0])]);
      PiecesAppend(zones + [Component(rows[0])], rest);
    }
  }

  /** The keys of the zones among the pieces, in order. */
  function Keys(pieces: seq<Piece>): seq<string> {
    if pieces == [] then []
    else (if pieces[0].Zone? then [ZoneKey(pieces[0].chunk)] else []) + Keys(pieces[1..])
  }

  lemma {:induction false} KeysAppend(a: seq<Piece>, b: seq<Piece>)
    ensures Keys(a + b) == Keys(a) + Keys(b)
  {
    if a == [] {
      assert a + b == b;
    } else {
      KeysAppend(a[1..], b);
      TailAppend(a, b);
      AppendAssoc(if a[0].Zone? then [ZoneKey(a[0].chunk)] else [], Keys(a[1..]), Keys(b));
    }
  }

  lemma {:induction false} ZoneKeysOnce(seen: set<string>, chunks: seq<string>)
    ensures Distinct(Keys(ZonePieces(seen, chunks)))
    ensures forall k :: k in Keys(ZonePieces(seen, chunks)) <==> k in KeySet(chunks) && k !in seen
    decreases |chunks|
  {
    if chunks != [] {
      var key := ZoneKey(chunks[0]);
      ZoneKeysOnce(seen + {key}, chunks[1..]);
      KeySetCons(chunks);
      KeysOfFirst(seen, chunks);
      if key !in seen {
        DistinctJoin([key], Keys(ZonePieces(seen + {key}, chunks[1..])));
      }
    }
  }

  lemma KeysOfFirst(seen: set<string>, chunks: seq<string>)
    requires chunks != []
    ensures var key := ZoneKey(chunks[0]);
            var rest := Keys(ZonePieces(seen + {key}, chunks[1..]));
            Keys(ZonePieces(seen, chunks)) == if key in seen then rest else [key] + rest
  {
    var key := ZoneKey(chunks[0]);
    var rest := ZonePieces(seen + {key}, chunks[1..]);
    if key in seen {
      assert [] + rest == rest;
    } else {
      TailAppend([Zone(chunks[0])], rest);
      assert [Zone(chunks[0])][1..] + rest == rest;
    }
  }

  lemma RowKeys(seen: set<string>, rows: seq<Event>)
    requires rows != []
    ensures Keys(Pieces(seen, rows)) ==
            Keys(ZonePieces(seen, Zones(rows[0]))) + Keys(Pieces(seen + KeySet(Zones(rows[0])), rows[1..]))
  {
    var zones, rest := ZonePieces(seen, Zones(rows[0])), Pieces(seen + KeySet(Zones(rows[0])), rows[1..]);
    KeysAppend(zones + [Component(rows[0])], rest);
    KeysAppend(zones, [Component(rows[0])]);
    assert [Component(rows[0])][1..] == [];
    assert Keys([Component(rows[0])]) == [];
    assert Keys(zones) + [] == Keys(zones);
  }

  ghost predicate Defined(rows: seq<Event>, k: string) {
    exists e :: e in rows && k in KeySet(Zones(e))
  }

  /** In the text of any rows each zone they define is written once, unless it already was. */
  lemma {:induction false} ZonesOnce(seen: set<string>, rows: seq<Event>)
    ensures RowsText(seen, rows) == PiecesText(Pieces(seen, rows))
    ensures Distinct(Keys(Pieces(seen, rows)))
    ensures forall k :: k in Keys(Pieces(seen, rows)) <==> k !in seen && Defined(rows, k)
    decreases |rows|
  {
    RowsTextIs(seen, rows);
    if rows != [] {
      var here := KeySet(Zones(rows[0]));
      RowKeys(seen, rows);
      ZoneKeysOnce(seen, Zones(rows[0]));
      ZonesOnce(seen + here, rows[1..]);
      DistinctJoin(Keys(ZonePieces(seen, Zones(rows[0]))), Keys(Pieces(seen + here, rows[1..])));
      forall k ensures Defined(rows, k) <==> k in here || Defined(rows[1..], k) {
        DefinedCons(rows, k);
      }
    }
  }

  lemma DefinedCons(rows: seq<Event>, k: string)
    requires rows != []
    ensures Defined(rows, k) <==> k in KeySet(Zones(rows[0])) || Defined(rows[1..], k)
  {
    assert rows[0] in rows;
    if e :| e in rows[1..] && k in KeySet(Zones(e)) {
      assert e in rows;
    }
    if e :| e in rows && k in KeySet(Zones(e)) {
      assert e == rows[0] || e in rows[1..];
    }
  }

  /** The events among the pieces are the rows, in order. */
  function Components(pieces: seq<Piece>): seq<Event> {
    if pieces == [] then []
    else (if pieces[0].Component? then [pieces[0].event] else []) + Components(pieces[1..])
  }

  lemma {:induction false} ComponentsAppend(a: seq<Piece>, b: seq<Piece>)
    ensures Components(a + b) == Components(a) + Components(b)
  {
    if a == [] {
      assert a + b == b;
    } else {
      ComponentsAppend(a[1..], b);
      TailAppend(a, b);
      AppendAssoc(if a[0].Component? then [a[0].event] else [], Components(a[1..]), Components(b));
    }
  }

  lemma {:induction false} NoComponents(seen: set<string>, chunks: seq<string>)
    ensures Components(ZonePieces(seen, chunks)) == []
    decreases |chunks|
  {
    if chunks != [] {
      var key := ZoneKey(chunks[0]);
      var first := if key in seen then [] else [Zone(chunks[0])];
      NoComponents(seen + {key}, chunks[1..]);
      ComponentsAppend(first, ZonePieces(seen + {key}, chunks[1..]));
      assert key !in seen ==> first[1..] == [];
      assert Components(first) == [];
    }
  }

  /** No event is lost, repeated or moved by writing zones between events. */
  lemma {:induction false} EventsInOrder(seen: set<string>, rows: seq<Event>)
    ensures Components(Pieces(seen, rows)) == rows
    decreases |rows|
  {
    if rows != [] {
      var zones, rest := ZonePieces(seen, Zones(rows[0])), Pieces(seen + KeySet(Zones(rows[0])), rows[1..]);
      EventsInOrder(seen + KeySet(Zones(rows[0])), rows[1..]);
      NoComponents(seen, Zones(rows[0]));
      ComponentsAppend(zones + [Component(rows[0])], rest);
      ComponentsAppend(zones, [Component(rows[0])]);
      assert [Component(rows[0])][1..] == [];
      assert Components([Component(rows[0])]) == [rows[0]] + Components([]);
      assert rows == [rows[0]] + rows[1..];
    }
  }

  /** The keys in `keys` are all out: seen before or among the pieces. */
  ghost predicate Out(keys: set<string>, seen: set<string>, pieces: seq<Piece>) {
    forall k :: k in keys ==> k in seen || k in Keys(pieces)
  }

  lemma OwnZonesOut(seen: set<string>, e: Event)
    ensures Out(KeySet(Zones(e)), seen, ZonePieces(seen, Zones(e)))
  {
    ZoneKeysOnce(seen, Zones(e));
  }

  lemma StillOut(keys: set<string>, seen: set<string>, here: set<string>, first: seq<Piece>, later: seq<Piece>)
    requires Out(keys, seen + here, later) && Out(here, seen, first)
    ensures Out(keys, seen, first + later)
  {
    KeysAppend(first, later);
  }

  lemma OutLonger(keys: set<string>, seen: set<string>, a: seq<Piece>, b: seq<Piece>)
    requires Out(keys, seen, a)
    ensures Out(keys, seen, a + b)
  {
    KeysAppend(a, b);
  }

  lemma PiecesCons(seen: set<string>, rows: seq<Event>)
    requires rows != []
    ensures var zones, later := ZonePieces(seen, Zones(rows[0])), Pieces(seen + KeySet(Zones(rows[0])), rows[1..]);
            && Pieces(seen, rows) == zones + ([Component(rows[0])] + later)
            && Pieces(seen, rows) == zones + [Component(rows[0])] + later
  {
    AppendAssoc(ZonePieces(seen, Zones(rows[0])), [Component(rows[0])],
                Pieces(seen + KeySet(Zones(rows[0])), rows[1..]));
  }

  /** `event` stands among the pieces, and before it every zone of `keys` is out. */
  ghost predicate OutBefore(keys: set<string>, seen: set<string>, pieces: seq<Piece>, event: Event) {
    exists front, back :: pieces == front + ([Component(event)] + back) && Out(keys, seen, front)
  }

  lemma OutBeforeLater(
    keys: set<string>, seen: set<string>, here: set<string>, first: seq<Piece>, pieces: seq<Piece>, event: Event
  )
    requires OutBefore(keys, seen + here, pieces, event) && Out(here, seen, first)
    ensures OutBefore(keys, seen, first + pieces, event)
  {
    var front, back :| pieces == front + ([Component(event)] + back) && Out(keys, seen + here, front);
    StillOut(keys, seen, here, first, front);
    AppendAssoc(first, front, [Component(event)] + back);
  }

  /** Before an event is written, every zone its row defines is out: written by these rows or seen before. */
  lemma {:induction false} ZonesBeforeUse(seen: set<string>, rows: seq<Event>, i: nat)
    requires i < |rows|
    ensures OutBefore(KeySet(Zones(rows[i])), seen, Pieces(seen, rows), rows[i])
    decreases |rows|
  {
    var here, zones := KeySet(Zones(rows[0])), ZonePieces(seen, Zones(rows[0]));
    OwnZonesOut(seen, rows[0]);
    PiecesCons(seen, rows);
    if i > 0 {
      ZonesBeforeUse(seen + here, rows[1..], i - 1);
      OutLonger(here, seen, zones, [Component(rows[0])]);
      OutBeforeLater(KeySet(Zones(rows[i])), seen, here, zones + [Component(rows[0])], Pieces(seen + here, rows[1..]),
                     rows[i]);
    }
  }
}
