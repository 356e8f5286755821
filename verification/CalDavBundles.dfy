/**
 Calendar rows folded into one bundle per UID, and the row stream that lets the folding be
 done page by page. The buffered listing is ordered by start time; the streamed one by the
 earliest start of a row's UID, then UID, masters before overrides, then start time.
 */
module CalDavBundles {
  import opened Sequences
  import opened Ordering
  import opened Wrappers

  /** A stored calendar object: a master, or an override of one occurrence of it. */
  datatype Event = Event(id: nat, uid: string, start: int, recurrenceId: Option<int>, icalData: string)

  function OfUid(u: string): Event -> bool { (e: Event) => e.uid == u }

  function IsMaster(): Event -> bool { (e: Event) => e.recurrenceId.None? }

  function IsOverride(): Event -> bool { (e: Event) => e.recurrenceId.Some? }

  // ----- grouping

  /** The UIDs of the rows, by first appearance. */
  function Order(rows: seq<Event>): seq<string> {
    if rows == [] then []
    else
      var o, uid := Order(rows[..|rows| - 1]), rows[|rows| - 1].uid;
      if uid in o then o else o + [uid]
  }

  /** A stable sort on "has a recurrence id". */
  function MastersFirst(bucket: seq<Event>): seq<Event> {
    Filter(IsMaster(), bucket) + Filter(IsOverride(), bucket)
  }

  function Bundle(rows: seq<Event>, u: string): seq<Event> {
    MastersFirst(Filter(OfUid(u), rows))
  }

  function BundleIn(rows: seq<Event>): string -> seq<Event> { (u: string) => Bundle(rows, u) }

  function Bundles(rows: seq<Event>): seq<seq<Event>> {
    Map(BundleIn(rows), Order(rows))
  }

  /** No other arrangement puts masters first and leaves each kind in its order. */
  lemma {:induction false} StableSortUnique(bucket: seq<Event>, r: seq<Event>)
    requires forall i, j :: 0 <= i < j < |r| && IsMaster()(r[j]) ==> IsMaster()(r[i])
    requires Filter(IsMaster(), r) == Filter(IsMaster(), bucket)
    requires Filter(IsOverride(), r) == Filter(IsOverride(), bucket)
    ensures r == MastersFirst(bucket)
  {
    MastersLead(r);
  }

  lemma {:induction false} MastersLead(r: seq<Event>)
    requires forall i, j :: 0 <= i < j < |r| && IsMaster()(r[j]) ==> IsMaster()(r[i])
    ensures r == MastersFirst(r)
  {
    if r != [] {
      if IsMaster()(r[0]) {
        MastersLead(r[1..]);
      } else {
        FilterNone(IsMaster(), r);
        FilterAll(IsOverride(), r);
      }
    }
  }

  /** What one more row does to the order of UIDs and to their buckets. */
  lemma AddRow(rows: seq<Event>, e: Event)
    ensures Order(rows + [e]) == if e.uid in Order(rows) then Order(rows) else Order(rows) + [e.uid]
    ensures Filter(OfUid(e.uid), rows + [e]) == Filter(OfUid(e.uid), rows) + [e]
    ensures forall u :: u != e.uid ==> Filter(OfUid(u), rows + [e]) == Filter(OfUid(u), rows)
    ensures e.uid !in Order(rows) ==> Filter(OfUid(e.uid), rows) == []
  {
    assert (rows + [e])[..|rows + [e]| - 1] == rows;
    FilterAppend(OfUid(e.uid), rows, [e]);
    forall u | u != e.uid ensures Filter(OfUid(u), rows + [e]) == Filter(OfUid(u), rows) {
      FilterAppend(OfUid(u), rows, [e]);
    }
    if e.uid !in Order(rows) {
      OrderMembers(rows);
      FilterNone(OfUid(e.uid), rows);
    }
  }

  /** The UIDs met so far in order, and the rows of each. */
  ghost predicate Collected(rows: seq<Event>, order: seq<string>, buckets: map<string, seq<Event>>) {
    && order == Order(rows)
    && (forall u :: u in order <==> u in buckets)
    && (forall u :: u in buckets ==> buckets[u] == Filter(OfUid(u), rows))
  }

  function BucketOf(buckets: map<string, seq<Event>>, u: string): seq<Event> {
    if u in buckets then buckets[u] else []
  }

  lemma CollectRow(rows: seq<Event>, e: Event, order: seq<string>, buckets: map<string, seq<Event>>)
    requires Collected(rows, order, buckets)
    ensures Collected(rows + [e], if e.uid in buckets then order else order + [e.uid],
                      buckets[e.uid := BucketOf(buckets, e.uid) + [e]])
  {
    AddRow(rows, e);
  }

  method CollectBuckets(rows: seq<Event>) returns (order: seq<string>, buckets: map<string, seq<Event>>)
    ensures Collected(rows, order, buckets)
  {
    order, buckets := [], map[];
    var i := 0;
    while i < |rows|
      invariant 0 <= i <= |rows|
      invariant Collected(rows[..i], order, buckets)
    {
      var e := rows[i];
      CollectRow(rows[..i], e, order, buckets);
      SliceSnoc(rows, i);
      if e.uid !in buckets {
        order := order + [e.uid];
      }
      buckets := buckets[e.uid := BucketOf(buckets, e.uid) + [e]];
      i := i + 1;
    }
    assert rows[..i] == rows;
  }

  method GroupByUid(rows: seq<Event>) returns (bundles: seq<seq<Event>>)
    ensures bundles == Bundles(rows)
  {
    var order, buckets := CollectBuckets(rows);
    bundles := [];
    var k := 0;
    while k < |order|
      invariant 0 <= k <= |order|
      invariant bundles == Map(BundleIn(rows), order[..k])
    {
      SliceSnoc(order, k);
      MapAppend(BundleIn(rows), order[..k], [order[k]]);
      assert Map(BundleIn(rows), [order[k]]) == [BundleIn(rows)(order[k])];
      assert order[k] in order;
      var bucket := buckets[order[k]];
      bundles := bundles + [MastersFirst(bucket)];
      k := k + 1;
    }
    assert order[..k] == order;
  }

  lemma {:induction false} OrderMembers(rows: seq<Event>)
    ensures Distinct(Order(rows))
    ensures forall e :: e in rows ==> e.uid in Order(rows)
    ensures forall u :: u in Order(rows) ==> exists e :: e in rows && e.uid == u
  {
    if rows != [] {
      var front, last := rows[..|rows| - 1], rows[|rows| - 1];
      OrderMembers(front);
      assert rows == front + [last];
      forall u | u in Order(rows) ensures exists e :: e in rows && e.uid == u {
        if u == last.uid {
          assert last in rows;
        } else {
          assert u in Order(front);
          var e :| e in front && e.uid == u;
          assert e in rows;
        }
      }
    }
  }

  // ----- grouping page by page

  ghost predicate Separated(p: seq<Event>, q: seq<Event>) {
    forall x, y :: x in p && y in q ==> x.uid != y.uid
  }

  lemma {:induction false} OrderAppend(p: seq<Event>, q: seq<Event>)
    requires Separated(p, q)
    ensures Order(p + q) == Order(p) + Order(q)
  {
    if q == [] {
      assert p + q == p;
    } else {
      var front, last := q[..|q| - 1], q[|q| - 1];
      assert q == front + [last];
      OrderAppend(p, front);
      OrderMembers(p);
      assert (p + q)[..|p + q| - 1] == p + front;
      assert last.uid !in Order(p);
      AppendAssoc(Order(p), Order(front), [last.uid]);
    }
  }

  lemma BundleBefore(p: seq<Event>, q: seq<Event>, u: string)
    requires forall e :: e in q ==> e.uid != u
    ensures Bundle(p + q, u) == Bundle(p, u)
  {
    FilterAppend(OfUid(u), p, q);
    FilterNone(OfUid(u), q);
    assert Filter(OfUid(u), p + q) == Filter(OfUid(u), p);
  }

  lemma BundleAfter(p: seq<Event>, q: seq<Event>, u: string)
    requires forall e :: e in p ==> e.uid != u
    ensures Bundle(p + q, u) == Bundle(q, u)
  {
    FilterAppend(OfUid(u), p, q);
    FilterNone(OfUid(u), p);
    assert Filter(OfUid(u), p + q) == Filter(OfUid(u), q);
  }

  /** Pages that share no UID can be grouped one by one. */
  lemma BundlesAppend(p: seq<Event>, q: seq<Event>)
    requires Separated(p, q)
    ensures Bundles(p + q) == Bundles(p) + Bundles(q)
  {
    OrderAppend(p, q);
    OrderMembers(p);
    OrderMembers(q);
    forall u | u in Order(p) ensures BundleIn(p + q)(u) == BundleIn(p)(u) {
      BundleBefore(p, q, u);
    }
    forall u | u in Order(q) ensures BundleIn(p + q)(u) == BundleIn(q)(u) {
      BundleAfter(p, q, u);
    }
    MapAppend(BundleIn(p + q), Order(p), Order(q));
    MapAgree(BundleIn(p + q), BundleIn(p), Order(p));
    MapAgree(BundleIn(p + q), BundleIn(q), Order(q));
  }

  /** Rows of one UID are adjacent. */
  ghost predicate Contiguous(rows: seq<Event>) {
    forall i, j, k :: 0 <= i <= j <= k < |rows| && rows[i].uid == rows[k].uid ==> rows[j].uid == rows[i].uid
  }

  /** A page is closed before `next` when it is full and `next` starts another UID. */
  predicate ClosesPage(page: seq<Event>, next: Event, pageSize: nat) {
    |page| >= pageSize && page != [] && page[|page| - 1].uid != next.uid
  }

  /** The pages still to come when `page` is open and `rest` has not been read. */
  function Cut(page: seq<Event>, rest: seq<Event>, pageSize: nat): seq<seq<Event>>
    decreases |rest|
  {
    if rest == [] then (if page == [] then [] else [page])
    else if ClosesPage(page, rest[0], pageSize) then [page] + Cut([rest[0]], rest[1..], pageSize)
    else Cut(page + [rest[0]], rest[1..], pageSize)
  }

  /** A page that was not closed too late: from `pageSize` rows on it goes on only within one UID. */
  ghost predicate NotLate(page: seq<Event>, pageSize: nat) {
    forall j :: 1 <= j < |page| && j >= pageSize ==> page[j - 1].uid == page[j].uid
  }

  /** Pages that hold the rows in order, none empty, each but the last with enough rows and ending with its UID. */
  ghost predicate ProperPages(pages: seq<seq<Event>>, pageSize: nat) {
    && (forall k :: 0 <= k < |pages| ==> pages[k] != [] && NotLate(pages[k], pageSize))
    && (forall k :: 0 <= k < |pages| - 1 ==>
          |pages[k]| >= pageSize && pages[k][|pages[k]| - 1].uid != pages[k + 1][0].uid)
  }

  lemma ProperCons(page: seq<Event>, later: seq<seq<Event>>, pageSize: nat)
    requires ProperPages(later, pageSize) && later != [] && page != [] && NotLate(page, pageSize)
    requires |page| >= pageSize && page[|page| - 1].uid != later[0][0].uid
    ensures ProperPages([page] + later, pageSize)
  {
    var pages := [page] + later;
    assert forall k :: 0 < k < |pages| ==> pages[k] == later[k - 1];
  }

  /** Pages are cut as soon as they are full and the UID changes, and at no other place; they hold all rows in order. */
  lemma {:induction false} CutExact(page: seq<Event>, rest: seq<Event>, pageSize: nat)
    requires NotLate(page, pageSize)
    ensures ProperPages(Cut(page, rest, pageSize), pageSize) && Flatten(Cut(page, rest, pageSize)) == page + rest
    ensures page != [] ==> Cut(page, rest, pageSize) != [] && page <= Cut(page, rest, pageSize)[0]
    decreases |rest|
  {
    if rest == [] {
      assert page != [] ==> [page][1..] == [];
      assert page != [] ==> Flatten([page]) == page + Flatten([]);
    } else if ClosesPage(page, rest[0], pageSize) {
      var later := Cut([rest[0]], rest[1..], pageSize);
      CutExact([rest[0]], rest[1..], pageSize);
      assert later[0][0] == rest[0];
      ProperCons(page, later, pageSize);
      assert rest == [rest[0]] + rest[1..];
      assert ([page] + later)[1..] == later;
    } else {
      CutExact(page + [rest[0]], rest[1..], pageSize);
      AppendAssoc(page, [rest[0]], rest[1..]);
      assert rest == [rest[0]] + rest[1..];
    }
  }

  lemma ClosedPageSeparated(page: seq<Event>, rest: seq<Event>)
    requires Contiguous(page + rest) && page != [] && rest != []
    requires page[|page| - 1].uid != rest[0].uid
    ensures Separated(page, rest) && Contiguous(rest)
  {
    var rows := page + rest;
    forall i, k | 0 <= i < |page| && 0 <= k < |rest| ensures page[i].uid != rest[k].uid {
      assert rows[i] == page[i] && rows[|page| + k] == rest[k];
      assert rows[|page| - 1] == page[|page| - 1] && rows[|page|] == rest[0];
    }
    forall i, j, k | 0 <= i <= j <= k < |rest| && rest[i].uid == rest[k].uid ensures rest[j].uid == rest[i].uid {
      assert rows[|page| + i] == rest[i] && rows[|page| + j] == rest[j] && rows[|page| + k] == rest[k];
    }
  }

  /** For every page size, 0 included: cutting at UID changes and grouping each page loses nothing. */
  lemma {:induction false} PagedBundles(page: seq<Event>, rest: seq<Event>, pageSize: nat)
    requires Contiguous(page + rest)
    ensures Flatten(Map(Bundles, Cut(page, rest, pageSize))) == Bundles(page + rest)
    decreases |rest|
  {
    var pages := Cut(page, rest, pageSize);
    if rest == [] {
      assert page + rest == page;
      if page != [] {
        assert Map(Bundles, pages) == [Bundles(page)];
        assert Flatten([Bundles(page)]) == Bundles(page) + Flatten([]);
      }
    } else if ClosesPage(page, rest[0], pageSize) {
      assert [rest[0]] + rest[1..] == rest;
      ClosedPageSeparated(page, rest);
      PagedBundles([rest[0]], rest[1..], pageSize);
      BundlesAppend(page, rest);
      var later := Cut([rest[0]], rest[1..], pageSize);
      MapAppend(Bundles, [page], later);
      FlattenAppend(Map(Bundles, [page]), Map(Bundles, later));
      assert Flatten(Map(Bundles, [page])) == Bundles(page) + Flatten([]);
    } else {
      assert (page + [rest[0]]) + rest[1..] == page + rest;
      PagedBundles(page + [rest[0]], rest[1..], pageSize);
    }
  }

  // ----- the two row orders

  /** The earliest start among rows. */
  function EarliestStart(rows: seq<Event>): (m: int)
    requires rows != []
    ensures forall e :: e in rows ==> m <= e.start
    ensures exists e :: e in rows && e.start == m
  {
    if |rows| == 1 then
      assert rows[0] in rows;
      rows[0].start
    else
      var m := EarliestStart(rows[1..]);
      assert forall e :: e in rows[1..] ==> e in rows;
      if rows[0].start <= m then
        assert rows[0] in rows;
        rows[0].start
      else m
  }

  /** MIN(start_time) OVER (PARTITION BY ical_uid); 0 for a UID without rows. */
  function MinStart(rows: seq<Event>, u: string): int {
    var own := Filter(OfUid(u), rows);
    if own == [] then 0 else EarliestStart(own)
  }

  lemma MinStartIs(rows: seq<Event>, e: Event)
    requires e in rows
    ensures MinStart(rows, e.uid) <= e.start
    ensures exists f :: f in rows && f.uid == e.uid && f.start == MinStart(rows, e.uid)
  {
    var own := Filter(OfUid(e.uid), rows);
    assert e in own;
    var f :| f in own && f.start == EarliestStart(own);
  }

  /** The window value depends on the table, not on the order it is read in. */
  lemma MinStartPermutation(b: seq<Event>, s: seq<Event>, e: Event)
    requires multiset(b) == multiset(s) && e in b
    ensures MinStart(b, e.uid) == MinStart(s, e.uid)
  {
    SameMembers(b, s, e);
    MinStartIs(b, e);
    MinStartIs(s, e);
    var f :| f in b && f.uid == e.uid && f.start == MinStart(b, e.uid);
    var g :| g in s && g.uid == e.uid && g.start == MinStart(s, e.uid);
    SameMembers(b, s, f);
    SameMembers(b, s, g);
    MinStartIs(b, g);
    MinStartIs(s, f);
  }

  /** ORDER BY start_time: ties in any order. */
  function StartLe(): (Event, Event) -> bool { (a: Event, b: Event) => a.start <= b.start }

  /** ORDER BY the UID's earliest start, UID, override, start time: ties in any order. */
  function StreamLe(rows: seq<Event>, collate: (string, string) -> bool): (Event, Event) -> bool {
    (a: Event, b: Event) =>
      var m, n := MinStart(rows, a.uid), MinStart(rows, b.uid);
      || m < n
      || (m == n && collate(a.uid, b.uid))
      || (a.uid == b.uid && IsMaster()(a) && IsOverride()(b))
      || (a.uid == b.uid && IsMaster()(a) == IsMaster()(b) && a.start <= b.start)
  }

  /**
   What both listings leave open is decided nowhere: UIDs start at different times, and
   within a UID no two masters and no two overrides start together. Distinct start times
   give this.
   */
  ghost predicate NoTies(rows: seq<Event>) {
    Distinct(rows) && UidsStartApart(rows) && AlikeStartApart(rows)
  }

  ghost predicate UidsStartApart(rows: seq<Event>) {
    forall a, b :: a in rows && b in rows && a.uid != b.uid ==> MinStart(rows, a.uid) != MinStart(rows, b.uid)
  }

  predicate Alike(a: Event, b: Event) {
    a.uid == b.uid && a.recurrenceId.None? == b.recurrenceId.None?
  }

  ghost predicate AlikeStartApart(rows: seq<Event>) {
    forall a, b :: a in rows && b in rows && a != b && Alike(a, b) ==> a.start != b.start
  }

  lemma DistinctStartsNoTies(rows: seq<Event>)
    requires Distinct(rows)
    requires forall a, b :: a in rows && b in rows && a != b ==> a.start != b.start
    ensures NoTies(rows)
  {
    forall a, b | a in rows && b in rows && a.uid != b.uid ensures MinStart(rows, a.uid) != MinStart(rows, b.uid) {
      MinStartIs(rows, a);
      MinStartIs(rows, b);
      var f :| f in rows && f.uid == a.uid && f.start == MinStart(rows, a.uid);
      var g :| g in rows && g.uid == b.uid && g.start == MinStart(rows, b.uid);
    }
  }

  /** The stream keeps the rows of a UID together. */
  lemma Between(s: seq<Event>, collate: (string, string) -> bool, a: Event, b: Event, c: Event)
    requires Collation(collate) && StreamLe(s, collate)(a, b) && StreamLe(s, collate)(b, c) && a.uid == c.uid
    ensures b.uid == a.uid
  {
  }

  lemma SortedContiguous(le: (Event, Event) -> bool, s: seq<Event>)
    requires SortedBy(le, s)
    requires forall a, b, c :: le(a, b) && le(b, c) && a.uid == c.uid ==> b.uid == a.uid
    ensures Contiguous(s)
  {
    forall i, j, k | 0 <= i <= j <= k < |s| && s[i].uid == s[k].uid ensures s[j].uid == s[i].uid {
      if i < j < k {
        assert le(s[i], s[j]) && le(s[j], s[k]);
      }
    }
  }

  lemma StreamContiguous(s: seq<Event>, collate: (string, string) -> bool)
    requires Collation(collate) && SortedBy(StreamLe(s, collate), s)
    ensures Contiguous(s)
  {
    forall a, b, c | StreamLe(s, collate)(a, b) && StreamLe(s, collate)(b, c) && a.uid == c.uid ensures b.uid == a.uid {
      Between(s, collate, a, b, c);
    }
    SortedContiguous(StreamLe(s, collate), s);
  }

  ghost predicate FirstOfUid(rows: seq<Event>, j: nat)
    requires j < |rows|
  {
    forall k :: 0 <= k < j ==> rows[k].uid != rows[j].uid
  }

  /** Every UID's first row comes after rows of smaller UIDs only. */
  ghost predicate FirstRowsIncrease(lt: (string, string) -> bool, rows: seq<Event>) {
    forall i, j :: 0 <= i < j < |rows| && FirstOfUid(rows, j) ==> lt(rows[i].uid, rows[j].uid)
  }

  lemma NewUidLast(lt: (string, string) -> bool, rows: seq<Event>, front: seq<Event>, last: Event)
    requires FirstRowsIncrease(lt, rows) && rows == front + [last]
    requires last.uid !in Order(front)
    ensures forall u :: u in Order(front) ==> lt(u, last.uid)
  {
    OrderMembers(front);
    assert forall k :: 0 <= k < |front| ==> front[k] in front && rows[k] == front[k];
    assert FirstOfUid(rows, |front|);
    forall u | u in Order(front) ensures lt(u, last.uid) {
      var e :| e in front && e.uid == u;
      var i :| 0 <= i < |front| && front[i] == e;
      assert rows[i].uid == u;
    }
  }

  lemma {:induction false} OrderIncreasing(lt: (string, string) -> bool, rows: seq<Event>)
    requires FirstRowsIncrease(lt, rows)
    ensures SortedBy(lt, Order(rows))
  {
    if rows != [] {
      var n := |rows| - 1;
      var front, last := rows[..n], rows[n];
      forall i, j | 0 <= i < j < |front| && FirstOfUid(front, j) ensures lt(front[i].uid, front[j].uid) {
        assert FirstOfUid(rows, j);
      }
      OrderIncreasing(lt, front);
      if last.uid !in Order(front) {
        assert rows == front + [last];
        NewUidLast(lt, rows, front, last);
      }
    }
  }

  function ByMinStart(rows: seq<Event>): (string, string) -> bool {
    (u: string, v: string) => MinStart(rows, u) < MinStart(rows, v)
  }

  lemma BufferedOrder(b: seq<Event>)
    requires NoTies(b) && SortedBy(StartLe(), b)
    ensures SortedBy(ByMinStart(b), Order(b))
  {
    forall i, j | 0 <= i < j < |b| && FirstOfUid(b, j) ensures ByMinStart(b)(b[i].uid, b[j].uid) {
      MinStartIs(b, b[i]);
      MinStartIs(b, b[j]);
      var f :| f in b && f.uid == b[j].uid && f.start == MinStart(b, b[j].uid);
      var k :| 0 <= k < |b| && b[k] == f;
      assert k >= j;
      assert b[i].start <= b[j].start && (k == j || StartLe()(b[j], b[k]));
      assert b[i].uid != b[j].uid;
    }
    OrderIncreasing(ByMinStart(b), b);
  }

  lemma StreamedOrder(s: seq<Event>, collate: (string, string) -> bool)
    requires NoTies(s) && Collation(collate) && SortedBy(StreamLe(s, collate), s)
    ensures SortedBy(ByMinStart(s), Order(s))
  {
    forall i, j | 0 <= i < j < |s| && FirstOfUid(s, j) ensures ByMinStart(s)(s[i].uid, s[j].uid) {
      assert StreamLe(s, collate)(s[i], s[j]);
      assert s[i].uid != s[j].uid;
    }
    OrderIncreasing(ByMinStart(s), s);
  }

  lemma SameUids(b: seq<Event>, s: seq<Event>)
    requires multiset(b) == multiset(s)
    ensures multiset(Order(b)) == multiset(Order(s))
    ensures forall u :: u in Order(b) ==> u in Order(s) && MinStart(b, u) == MinStart(s, u)
  {
    OrderMembers(b);
    OrderMembers(s);
    forall u | u in Order(b) ensures u in Order(s) && MinStart(b, u) == MinStart(s, u) {
      var e :| e in b && e.uid == u;
      SameMembers(b, s, e);
      MinStartPermutation(b, s, e);
    }
    forall u | u in Order(s) ensures u in Order(b) {
      var e :| e in s && e.uid == u;
      SameMembers(b, s, e);
    }
    DistinctSameMembers(Order(b), Order(s));
  }

  lemma SameUidOrder(b: seq<Event>, s: seq<Event>, collate: (string, string) -> bool)
    requires multiset(b) == multiset(s) && NoTies(b) && NoTies(s)
    requires SortedBy(StartLe(), b)
    requires Collation(collate) && SortedBy(StreamLe(s, collate), s)
    ensures Order(b) == Order(s)
  {
    SameUids(b, s);
    SameUids(s, b);
    BufferedOrder(b);
    StreamedOrder(s, collate);
    var o := Order(s);
    forall i, j | 0 <= i < j < |o| ensures ByMinStart(b)(o[i], o[j]) {
      assert ByMinStart(s)(o[i], o[j]);
      assert o[i] in o && o[j] in o;
    }
    UidsStrict(b);
    SortedUnique(ByMinStart(b), Order(b), o);
  }

  lemma UidsStrict(b: seq<Event>)
    requires NoTies(b)
    ensures StrictOrderOn(ByMinStart(b), Elements(Order(b)))
  {
    OrderMembers(b);
    forall u, v | u in Elements(Order(b)) && v in Elements(Order(b)) && u != v
      ensures MinStart(b, u) != MinStart(b, v)
    {
      var e :| e in b && e.uid == u;
      var f :| f in b && f.uid == v;
    }
  }

  function ByStart(): (Event, Event) -> bool { (a: Event, b: Event) => a.start < b.start }

  /** An order that, among rows alike, goes by start. */
  ghost predicate StartsWithin(le: (Event, Event) -> bool, rows: seq<Event>) {
    forall a, b :: a in rows && b in rows && Alike(a, b) && le(a, b) ==> a.start <= b.start
  }

  lemma AlikeSorted(rows: seq<Event>, le: (Event, Event) -> bool, r: seq<Event>)
    requires AlikeStartApart(rows) && StartsWithin(le, rows)
    requires Distinct(r) && SortedBy(le, r) && (forall e :: e in r ==> e in rows)
    requires forall a, b :: a in r && b in r ==> Alike(a, b)
    ensures SortedBy(ByStart(), r)
    ensures StrictOrderOn(ByStart(), Elements(r))
  {
    forall i, j | 0 <= i < j < |r| ensures ByStart()(r[i], r[j]) {
      assert r[i] in r && r[j] in r;
      assert le(r[i], r[j]) && r[i] != r[j];
    }
  }

  /** The rows of one UID and kind, in either listing, by start. */
  lemma KindSorted(rows: seq<Event>, le: (Event, Event) -> bool, u: string, kind: Event -> bool)
    requires NoTies(rows) && SortedBy(le, rows) && StartsWithin(le, rows)
    requires kind == IsMaster() || kind == IsOverride()
    ensures SortedBy(ByStart(), Filter(kind, Filter(OfUid(u), rows)))
    ensures StrictOrderOn(ByStart(), Elements(Filter(kind, Filter(OfUid(u), rows))))
  {
    var own := Filter(OfUid(u), rows);
    FilterSorted(le, OfUid(u), rows);
    FilterSorted(le, kind, own);
    FilterDistinct(OfUid(u), rows);
    FilterDistinct(kind, own);
    AlikeSorted(rows, le, Filter(kind, own));
  }

  lemma SameKind(b: seq<Event>, s: seq<Event>, collate: (string, string) -> bool, u: string, kind: Event -> bool)
    requires multiset(b) == multiset(s) && NoTies(b) && NoTies(s)
    requires SortedBy(StartLe(), b)
    requires Collation(collate) && SortedBy(StreamLe(s, collate), s)
    requires kind == IsMaster() || kind == IsOverride()
    ensures Filter(kind, Filter(OfUid(u), b)) == Filter(kind, Filter(OfUid(u), s))
  {
    KindSorted(b, StartLe(), u, kind);
    KindSorted(s, StreamLe(s, collate), u, kind);
    FilterSameMultiset(OfUid(u), b, s);
    FilterSameMultiset(kind, Filter(OfUid(u), b), Filter(OfUid(u), s));
    SortedUnique(ByStart(), Filter(kind, Filter(OfUid(u), b)), Filter(kind, Filter(OfUid(u), s)));
  }

  lemma NoTiesPermutation(b: seq<Event>, s: seq<Event>)
    requires multiset(b) == multiset(s) && NoTies(b)
    ensures NoTies(s)
  {
    DistinctCounts(b);
    CountsDistinct(s);
    forall e | e in s ensures e in b && MinStart(b, e.uid) == MinStart(s, e.uid) {
      SameMembers(b, s, e);
      MinStartPermutation(b, s, e);
    }
  }

  /** Both listings fold into the same bundles in the same order. */
  lemma SameBundles(b: seq<Event>, s: seq<Event>, collate: (string, string) -> bool)
    requires multiset(b) == multiset(s) && NoTies(b)
    requires SortedBy(StartLe(), b)
    requires Collation(collate) && SortedBy(StreamLe(s, collate), s)
    ensures Bundles(b) == Bundles(s)
  {
    NoTiesPermutation(b, s);
    SameUidOrder(b, s, collate);
    forall u | u in Order(b) ensures BundleIn(b)(u) == BundleIn(s)(u) {
      SameKind(b, s, collate, u, IsMaster());
      SameKind(b, s, collate, u, IsOverride());
    }
    MapAgree(BundleIn(b), BundleIn(s), Order(b));
  }

  /**
   The streamed bundles are the buffered ones, for every table, every order the database may
   return for ties it has to break, and every page size.
   */
  lemma StreamedBundles(b: seq<Event>, s: seq<Event>, collate: (string, string) -> bool, pageSize: nat)
    requires multiset(b) == multiset(s) && NoTies(b)
    requires SortedBy(StartLe(), b)
    requires Collation(collate) && SortedBy(StreamLe(s, collate), s)
    ensures Flatten(Map(Bundles, Cut([], s, pageSize))) == Bundles(b)
  {
    SameBundles(b, s, collate);
    StreamContiguous(s, collate);
    assert [] + s == s;
    PagedBundles([], s, pageSize);
  }
}
