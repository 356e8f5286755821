/**
 The whole-calendar responses: a multistatus REPORT with one response per bundle, and the
 collection's .ics file. Each is built once from a buffered listing and once page by page
 from the stream. The response of one bundle is an arbitrary function of the bundle.
 */
module CalDavStream {
  import opened Sequences
  import opened Ordering
  import opened Wrappers
  import opened CalDavBundles
  import opened ICalendar

  type Renderer = seq<Event> -> string

  function Rendered(render: Renderer, bundles: seq<seq<Event>>): string {
    Flatten(Map(render, bundles))
  }

  function PageText(render: Renderer): seq<Event> -> string {
    (page: seq<Event>) => Rendered(render, Bundles(page))
  }

  /** What a stream of pages puts on the wire. */
  function PagedText(render: Renderer, pages: seq<seq<Event>>): string {
    Flatten(Map(PageText(render), pages))
  }

  // ----- the multistatus report

  method WriteReportPage(render: Renderer, rows: seq<Event>) returns (out: string)
    ensures out == PageText(render)(rows)
  {
    var bundles := GroupByUid(rows);
    out := "";
    for i := 0 to |bundles|
      invariant out == Rendered(render, bundles[..i])
    {
      SliceSnoc(bundles, i);
      FlatMapSnoc(render, bundles[..i], bundles[i]);
      out := out + render(bundles[i]);
    }
    assert bundles[..|bundles|] == bundles;
  }

  method BufferedReport(render: Renderer, head: string, foot: string, rows: seq<Event>) returns (out: string)
    ensures out == head + Rendered(render, Bundles(rows)) + foot
  {
    var body := WriteReportPage(render, rows);
    out := head + body + foot;
  }

  /** Reads one row ahead; a page is written when it is full and the next row starts another UID. */
  method StreamedReport(render: Renderer, head: string, foot: string, rows: seq<Event>, pageSize: nat)
    returns (out: string)
    ensures out == head + PagedText(render, Cut([], rows, pageSize)) + foot
  {
    ghost var body := PagedText(render, Cut([], rows, pageSize));
    out := head;
    ghost var sent := "";
    var page: seq<Event> := [];
    var i := 0;
    assert rows[0..] == rows;
    while true
      invariant 0 <= i <= |rows|
      invariant out == head + sent
      invariant sent + PagedText(render, Cut(page, rows[i..], pageSize)) == body
      decreases |rows| - i
    {
      var next := if i < |rows| then Some(rows[i]) else None;
      var flush := match next
        case Some(ev) => ClosesPage(page, ev, pageSize)
        case None => page != [];
      OpenPage(render, page, rows, i, pageSize);
      if flush {
        var chunk := WriteReportPage(render, page);
        page := [];
        out := out + chunk;
        AppendAssoc(sent, chunk, PagedText(render, Cut(page, rows[i..], pageSize)));
        AppendAssoc(head, sent, chunk);
        sent := sent + chunk;
      }
      match next {
        case Some(ev) =>
          page := page + [ev];
          i := i + 1;
        case None =>
          break;
      }
    }
    out := out + foot;
  }

  /** One look at the next row: close the open page or keep it. */
  lemma CutNext(page: seq<Event>, rows: seq<Event>, i: nat, pageSize: nat)
    requires i < |rows|
    ensures Cut(page, rows[i..], pageSize) ==
              if ClosesPage(page, rows[i], pageSize)
              then [page] + Cut([rows[i]], rows[i + 1..], pageSize)
              else Cut(page + [rows[i]], rows[i + 1..], pageSize)
  {
    assert rows[i..][0] == rows[i] && rows[i..][1..] == rows[i + 1..];
  }

  lemma OpenPage(render: Renderer, page: seq<Event>, rows: seq<Event>, i: nat, pageSize: nat)
    requires i <= |rows|
    ensures i < |rows| && ClosesPage(page, rows[i], pageSize) ==>
              PagedText(render, Cut(page, rows[i..], pageSize)) ==
                PageText(render)(page) + PagedText(render, Cut([], rows[i..], pageSize))
    ensures i < |rows| && !ClosesPage(page, rows[i], pageSize) ==>
              Cut(page, rows[i..], pageSize) == Cut(page + [rows[i]], rows[i + 1..], pageSize)
    ensures i < |rows| ==> Cut([], rows[i..], pageSize) == Cut([] + [rows[i]], rows[i + 1..], pageSize)
    ensures i == |rows| ==>
              PagedText(render, Cut(page, rows[i..], pageSize)) == if page == [] then "" else PageText(render)(page)
    ensures i == |rows| ==> PagedText(render, Cut([], rows[i..], pageSize)) == ""
  {
    if i < |rows| {
      CutNext(page, rows, i, pageSize);
      CutNext([], rows, i, pageSize);
      assert [] + [rows[i]] == [rows[i]];
      PagedCons(render, page, Cut([rows[i]], rows[i + 1..], pageSize));
    } else {
      assert rows[i..] == [];
      PagedCons(render, page, []);
      assert [page] + [] == [page];
    }
  }

  lemma PagedCons(render: Renderer, page: seq<Event>, pages: seq<seq<Event>>)
    ensures PagedText(render, [page] + pages) == PageText(render)(page) + PagedText(render, pages)
  {
    assert Map(PageText(render), [page] + pages)[1..] == Map(PageText(render), pages);
  }

  /** Paging is invisible: what the pages say is what the bundles of all of them say. */
  lemma PagedIsRendered(render: Renderer, pages: seq<seq<Event>>)
    ensures PagedText(render, pages) == Rendered(render, Flatten(Map(Bundles, pages)))
  {
    var perPage := Map(Bundles, pages);
    var flat := (bs: seq<seq<Event>>) => Flatten(Map(render, bs));
    FlatMapFlatten(render, flat, perPage);
    assert Map(flat, perPage) == Map(PageText(render), pages);
  }

  /**
   The streamed report is the buffered one, byte for byte, for every renderer of a bundle,
   every table without ties, every listing the database may return and every page size.
   */
  lemma ReportByteIdentical(
    render: Renderer, b: seq<Event>, s: seq<Event>, collate: (string, string) -> bool, pageSize: nat
  )
    requires multiset(b) == multiset(s) && NoTies(b)
    requires SortedBy(StartLe(), b)
    requires Collation(collate) && SortedBy(StreamLe(s, collate), s)
    ensures PagedText(render, Cut([], s, pageSize)) == Rendered(render, Bundles(b))
  {
    PagedIsRendered(render, Cut([], s, pageSize));
    StreamedBundles(b, s, collate, pageSize);
  }

  // ----- the collection's .ics file

  const ICS_HEAD: string :=
    "BEGIN:VCALENDAR\r\nVERSION:2.0\r\nPRODID:-//OxiCloud//NONSGML Calendar//EN\r\nX-WR-CALNAME:"
  const ICS_FOOT: string := "END:VCALENDAR\r\n"

  /** A chunk with its line end. */
  function ChunkLine(chunk: string): (r: string)
    requires chunk != []
    ensures chunk <= r && r[|r| - 1] == '\n' && (chunk[|chunk| - 1] == '\n' ==> r == chunk)
  {
    if chunk[|chunk| - 1] == '\n' then chunk else chunk + CRLF
  }

  function EventText(e: Event): string {
    match ShippedChunk(e.icalData)
    case None => ""
    case Some(chunk) => ChunkLine(chunk)
  }

  function BundleText(): Renderer { (bundle: seq<Event>) => Flatten(Map(EventText, bundle)) }

  /** The fix-up looks at the end of the buffer, whatever the buffer held before the chunk. */
  method PushEvent(buf: string, e: Event) returns (out: string)
    ensures out == buf + EventText(e)
  {
    out := buf;
    var chunk := ShippedChunk(e.icalData);
    if chunk.Some? {
      out := out + chunk.value;
      assert out[|out| - 1] == chunk.value[|chunk.value| - 1];
      if out == [] || out[|out| - 1] != '\n' {
        AppendAssoc(buf, chunk.value, CRLF);
        out := out + CRLF;
      }
    }
  }

  method PushBundle(buf: string, bundle: seq<Event>) returns (out: string)
    ensures out == buf + BundleText()(bundle)
  {
    out := buf;
    for i := 0 to |bundle|
      invariant out == buf + BundleText()(bundle[..i])
    {
      SliceSnoc(bundle, i);
      FlatMapSnoc(EventText, bundle[..i], bundle[i]);
      AppendAssoc(buf, BundleText()(bundle[..i]), EventText(bundle[i]));
      out := PushEvent(out, bundle[i]);
    }
    assert bundle[..|bundle|] == bundle;
  }

  method PushRows(buf: string, rows: seq<Event>) returns (out: string)
    ensures out == buf + Rendered(BundleText(), Bundles(rows))
  {
    var groups := GroupByUid(rows);
    out := buf;
    for i := 0 to |groups|
      invariant out == buf + Rendered(BundleText(), groups[..i])
    {
      SliceSnoc(groups, i);
      FlatMapSnoc(BundleText(), groups[..i], groups[i]);
      AppendAssoc(buf, Rendered(BundleText(), groups[..i]), BundleText()(groups[i]));
      out := PushBundle(out, groups[i]);
    }
    assert groups[..|groups|] == groups;
  }

  /** One buffer for the whole calendar. */
  method BufferedIcs(name: string, rows: seq<Event>) returns (buf: string)
    ensures buf == ICS_HEAD + name + CRLF + Rendered(BundleText(), Bundles(rows)) + ICS_FOOT
  {
    buf := ICS_HEAD + name + CRLF;
    buf := PushRows(buf, rows);
    buf := buf + ICS_FOOT;
  }

  method CutPages(rows: seq<Event>, pageSize: nat) returns (pages: seq<seq<Event>>)
    ensures pages == Cut([], rows, pageSize)
  {
    pages := [];
    var page: seq<Event> := [];
    var i := 0;
    assert rows[0..] == rows;
    while i < |rows|
      invariant 0 <= i <= |rows|
      invariant pages + Cut(page, rows[i..], pageSize) == Cut([], rows, pageSize)
    {
      var ev := rows[i];
      assert rows[i..][0] == ev && rows[i..][1..] == rows[i + 1..];
      if ClosesPage(page, ev, pageSize) {
        AppendAssoc(pages, [page], Cut([ev], rows[i + 1..], pageSize));
        pages := pages + [page];
        page := [];
        assert page + [ev] == [ev];
      }
      page := page + [ev];
      i := i + 1;
    }
    if page != [] {
      pages := pages + [page];
    }
  }

  /** A fresh buffer for every page. */
  method StreamedIcs(name: string, rows: seq<Event>, pageSize: nat) returns (ics: string)
    ensures ics == ICS_HEAD + name + CRLF + PagedText(BundleText(), Cut([], rows, pageSize)) + ICS_FOOT
  {
    var head := ICS_HEAD + name + CRLF;
    ics := head;
    var pages := CutPages(rows, pageSize);
    for i := 0 to |pages|
      invariant ics == head + PagedText(BundleText(), pages[..i])
    {
      SliceSnoc(pages, i);
      FlatMapSnoc(PageText(BundleText()), pages[..i], pages[i]);
      var chunk := PushRows("", pages[i]);
      assert chunk == PageText(BundleText())(pages[i]);
      AppendAssoc(head, PagedText(BundleText(), pages[..i]), chunk);
      ics := ics + chunk;
    }
    assert pages[..|pages|] == pages;
    ics := ics + ICS_FOOT;
  }

  /** The two files have the same bytes for every contiguous row list and page size. */
  lemma IcsByteIdentical(rows: seq<Event>, pageSize: nat)
    requires Contiguous(rows)
    ensures PagedText(BundleText(), Cut([], rows, pageSize)) == Rendered(BundleText(), Bundles(rows))
  {
    PagedIsRendered(BundleText(), Cut([], rows, pageSize));
    assert [] + rows == rows;
    PagedBundles([], rows, pageSize);
  }
}
