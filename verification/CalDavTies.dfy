/**
 When the streamed report is the buffered one. With ties in the start times the buffered
 listing itself is not determined, and swapping two tied rows changes what it folds into;
 so the absence of ties is not only enough but needed.
 */
module CalDavTies {
  import opened Sequences
  import opened Ordering
  import opened CalDavBundles

  /** `b` may be returned by the start-ordered listing of the table that `s` lists. */
  ghost predicate Buffered(b: seq<Event>, s: seq<Event>) {
    multiset(b) == multiset(s) && SortedBy(StartLe(), b)
  }

  ghost predicate Before<T>(r: seq<T>, x: T, y: T) {
    exists i, j :: 0 <= i < j < |r| && r[i] == x && r[j] == y
  }

  lemma OneOrder<T>(r: seq<T>, x: T, y: T)
    requires Distinct(r) && Before(r, x, y)
    ensures !Before(r, y, x)
  {
  }

  // ----- a buffered listing exists

  lemma {:induction false} InsertByStart(x: Event, s: seq<Event>)
    requires SortedBy(StartLe(), s)
    ensures SortedBy(StartLe(), Insert(ByStart(), x, s))
  {
    if s != [] && !ByStart()(x, s[0]) {
      InsertByStart(x, s[1..]);
      InsertMultiset(ByStart(), x, s[1..]);
      var r := Insert(ByStart(), x, s[1..]);
      forall j | 0 <= j < |r| ensures StartLe()(s[0], r[j]) {
        assert r[j] in multiset(r);
        assert r[j] in s[1..] || r[j] == x;
      }
    }
  }

  lemma {:induction false} OrderByStart(s: seq<Event>)
    ensures Buffered(OrderBy(ByStart(), s), s)
  {
    OrderByRows(ByStart(), s);
    if s != [] {
      OrderByStart(s[1..]);
      InsertByStart(s[0], OrderBy(ByStart(), s[1..]));
    }
  }

  // ----- exchanging two rows that start together

  lemma SwappedBuffered(b: seq<Event>, s: seq<Event>, i: nat, j: nat)
    requires Buffered(b, s) && i < j < |b| && b[i].start == b[j].start
    ensures Buffered(Swapped(b, i, j), s)
  {
    SwappedMultiset(b, i, j);
    var t := Swapped(b, i, j);
    assert forall k :: 0 <= k < |b| ==> t[k].start == b[k].start;
    forall k, l | 0 <= k < l < |t| ensures StartLe()(t[k], t[l]) {
      assert StartLe()(b[k], b[l]);
    }
  }

  // ----- what bundles tell about the rows

  lemma {:induction false} FilterKeepsOrder<T>(p: T -> bool, r: seq<T>, i: nat, j: nat)
    requires i < j < |r| && p(r[i]) && p(r[j])
    ensures Before(Filter(p, r), r[i], r[j])
  {
    if i > 0 {
      FilterKeepsOrder(p, r[1..], i - 1, j - 1);
      var f := Filter(p, r[1..]);
      var k, l :| 0 <= k < l < |f| && f[k] == r[i] && f[l] == r[j];
      if p(r[0]) {
        assert ([r[0]] + f)[k + 1] == r[i] && ([r[0]] + f)[l + 1] == r[j];
      }
    } else {
      assert r[j] in r[1..];
      var f := Filter(p, r[1..]);
      assert r[j] in f;
      var l :| 0 <= l < |f| && f[l] == r[j];
      assert ([r[0]] + f)[0] == r[0] && ([r[0]] + f)[l + 1] == r[j];
    }
  }

  /** A bundle shows its UID. */
  lemma BundleShowsUid(rows: seq<Event>, u: string)
    requires u in Order(rows)
    ensures Bundle(rows, u) != [] && Bundle(rows, u)[0].uid == u
  {
    OrderMembers(rows);
    var e :| e in rows && e.uid == u;
    var own := Filter(OfUid(u), rows);
    assert e in own;
    assert e in Bundle(rows, u);
    assert Bundle(rows, u)[0] in own;
  }

  /** Equal bundles come from equal UID orders. */
  lemma BundlesShowOrder(a: seq<Event>, b: seq<Event>)
    requires Bundles(a) == Bundles(b)
    ensures Order(a) == Order(b)
  {
    forall k | 0 <= k < |Order(a)| ensures Order(a)[k] == Order(b)[k] {
      BundleShowsUid(a, Order(a)[k]);
      BundleShowsUid(b, Order(b)[k]);
      assert Bundles(a)[k] == Bundle(a, Order(a)[k]);
      assert Bundles(b)[k] == Bundle(b, Order(b)[k]);
    }
  }

  /** Masters and overrides of a bundle are those of the rows, in the rows' order. */
  lemma BundleShowsKinds(rows: seq<Event>, u: string)
    ensures Filter(IsMaster(), Bundle(rows, u)) == Filter(IsMaster(), Filter(OfUid(u), rows))
    ensures Filter(IsOverride(), Bundle(rows, u)) == Filter(IsOverride(), Filter(OfUid(u), rows))
  {
    var m, o := Filter(IsMaster(), Filter(OfUid(u), rows)), Filter(IsOverride(), Filter(OfUid(u), rows));
    FilterAppend(IsMaster(), m, o);
    FilterAppend(IsOverride(), m, o);
    FilterAll(IsMaster(), m);
    FilterNone(IsMaster(), o);
    FilterNone(IsOverride(), m);
    FilterAll(IsOverride(), o);
  }

  function AlikeTo(x: Event): Event -> bool { (e: Event) => Alike(e, x) }

  /** Bundles show the order of rows alike. */
  lemma BundlesShowAlike(a: seq<Event>, b: seq<Event>, x: Event)
    requires Bundles(a) == Bundles(b) && x in a
    ensures Filter(AlikeTo(x), a) == Filter(AlikeTo(x), b)
  {
    BundlesShowOrder(a, b);
    OrderMembers(a);
    var k :| 0 <= k < |Order(a)| && Order(a)[k] == x.uid;
    assert Bundles(a)[k] == Bundle(a, x.uid) && Bundles(b)[k] == Bundle(b, x.uid);
    BundleShowsKinds(a, x.uid);
    BundleShowsKinds(b, x.uid);
    var kind := if x.recurrenceId.None? then IsMaster() else IsOverride();
    FilterFilter(kind, OfUid(x.uid), AlikeTo(x), a);
    FilterFilter(kind, OfUid(x.uid), AlikeTo(x), b);
  }

  lemma {:induction false} OrderPrefix(rows: seq<Event>, n: nat)
    requires n <= |rows|
    ensures Order(rows[..n]) <= Order(rows)
    decreases |rows|
  {
    if n < |rows| {
      var front := rows[..|rows| - 1];
      assert front[..n] == rows[..n];
      OrderPrefix(front, n);
    } else {
      assert rows[..n] == rows;
    }
  }

  lemma NotSeenBefore(rows: seq<Event>, j: nat)
    requires j < |rows| && FirstOfUid(rows, j)
    ensures rows[j].uid !in Order(rows[..j])
  {
    OrderMembers(rows[..j]);
  }

  lemma UidPosition(rows: seq<Event>, i: nat) returns (k: nat)
    requires i < |rows|
    ensures k < |Order(rows)| && Order(rows)[k] == rows[i].uid
  {
    OrderMembers(rows);
    assert rows[i] in rows;
    k :| 0 <= k < |Order(rows)| && Order(rows)[k] == rows[i].uid;
  }

  /** A UID whose first row comes first comes first. */
  lemma OrderByFirstRow(rows: seq<Event>, i: nat, j: nat)
    requires i < j < |rows| && FirstOfUid(rows, j)
    ensures Before(Order(rows), rows[i].uid, rows[j].uid)
  {
    var k := UidPosition(rows[..j], i);
    var l := UidPosition(rows, j);
    OrderPrefix(rows, j);
    NotSeenBefore(rows, j);
    var seen, all := Order(rows[..j]), Order(rows);
    assert all[k] == seen[k];
    assert l >= |seen|;
  }

  // ----- ties

  /** Two rows alike that start together: exchanging them changes their bundle. */
  lemma AlikeTie(b: seq<Event>, s: seq<Event>, i: nat, j: nat)
    requires Buffered(b, s) && Distinct(b)
    requires i < j < |b| && b[i].start == b[j].start && Alike(b[i], b[j])
    ensures Buffered(Swapped(b, i, j), s) && Bundles(Swapped(b, i, j)) != Bundles(b)
  {
    var t := Swapped(b, i, j);
    SwappedBuffered(b, s, i, j);
    if Bundles(t) == Bundles(b) {
      var p := AlikeTo(b[i]);
      BundlesShowAlike(b, t, b[i]);
      FilterKeepsOrder(p, b, i, j);
      FilterKeepsOrder(p, t, i, j);
      FilterDistinct(p, b);
      OneOrder(Filter(p, b), b[i], b[j]);
    }
  }

  /** Two UIDs that start together: exchanging their first rows exchanges their bundles. */
  lemma UidTie(b: seq<Event>, s: seq<Event>, i: nat, j: nat)
    requires Buffered(b, s)
    requires i < j < |b| && b[i].start == b[j].start && b[i].uid != b[j].uid
    requires FirstOfUid(b, i) && FirstOfUid(b, j)
    ensures Buffered(Swapped(b, i, j), s) && Bundles(Swapped(b, i, j)) != Bundles(b)
  {
    var t := Swapped(b, i, j);
    SwappedBuffered(b, s, i, j);
    OrderByFirstRow(b, i, j);
    var u := b[i].uid;
    var k := FirstRowOf(t, j);
    assert k > i;
    OrderByFirstRow(t, i, k);
    if Bundles(t) == Bundles(b) {
      BundlesShowOrder(t, b);
      OrderMembers(b);
      OneOrder(Order(b), b[i].uid, b[j].uid);
    }
  }

  /** The first row of the UID of row `j`. */
  lemma {:induction false} FirstRowOf(rows: seq<Event>, j: nat) returns (k: nat)
    requires j < |rows|
    ensures k <= j && rows[k].uid == rows[j].uid && FirstOfUid(rows, k)
  {
    if FirstOfUid(rows, j) {
      k := j;
    } else {
      var l :| 0 <= l < j && rows[l].uid == rows[j].uid;
      k := FirstRowOf(rows, l);
    }
  }

  /** In a start-ordered listing a UID's first row has its earliest start. */
  lemma FirstRowIsEarliest(b: seq<Event>, k: nat)
    requires SortedBy(StartLe(), b) && k < |b| && FirstOfUid(b, k)
    ensures b[k].start == MinStart(b, b[k].uid)
  {
    MinStartIs(b, b[k]);
    var f :| f in b && f.uid == b[k].uid && f.start == MinStart(b, b[k].uid);
    var l :| 0 <= l < |b| && b[l] == f;
    assert l >= k;
    assert l == k || StartLe()(b[k], b[l]);
  }

  /** With a tie, two buffered listings of one table fold differently. */
  lemma TieShows(b: seq<Event>, s: seq<Event>) returns (t: seq<Event>)
    requires Buffered(b, s) && Distinct(b) && !NoTies(b)
    ensures Buffered(t, s) && Bundles(t) != Bundles(b)
  {
    if !AlikeStartApart(b) {
      t := AlikeTieShows(b, s);
    } else {
      t := UidTieShows(b, s);
    }
  }

  lemma AlikeTieShows(b: seq<Event>, s: seq<Event>) returns (t: seq<Event>)
    requires Buffered(b, s) && Distinct(b) && !AlikeStartApart(b)
    ensures Buffered(t, s) && Bundles(t) != Bundles(b)
  {
    var x, y :| x in b && y in b && x != y && Alike(x, y) && x.start == y.start;
    var i :| 0 <= i < |b| && b[i] == x;
    var j :| 0 <= j < |b| && b[j] == y;
    if i < j {
      AlikeTie(b, s, i, j);
      t := Swapped(b, i, j);
    } else {
      AlikeTie(b, s, j, i);
      t := Swapped(b, j, i);
    }
  }

  lemma UidTieShows(b: seq<Event>, s: seq<Event>) returns (t: seq<Event>)
    requires Buffered(b, s) && Distinct(b) && !UidsStartApart(b)
    ensures Buffered(t, s) && Bundles(t) != Bundles(b)
  {
    var p, q := UidTieRows(b);
    UidTie(b, s, p, q);
    t := Swapped(b, p, q);
  }

  /** The first row of a UID starts when the UID does. */
  lemma UidRow(b: seq<Event>, x: Event) returns (p: nat)
    requires SortedBy(StartLe(), b) && x in b
    ensures p < |b| && b[p].uid == x.uid && FirstOfUid(b, p) && b[p].start == MinStart(b, x.uid)
  {
    var i :| 0 <= i < |b| && b[i] == x;
    p := FirstRowOf(b, i);
    FirstRowIsEarliest(b, p);
  }

  /** The first rows of two UIDs that start together. */
  lemma UidTieRows(b: seq<Event>) returns (p: nat, q: nat)
    requires SortedBy(StartLe(), b) && !UidsStartApart(b)
    ensures p < q < |b| && b[p].start == b[q].start && b[p].uid != b[q].uid && FirstOfUid(b, p) && FirstOfUid(b, q)
  {
    var x, y :| x in b && y in b && x.uid != y.uid && MinStart(b, x.uid) == MinStart(b, y.uid);
    p := UidRow(b, x);
    q := UidRow(b, y);
    if q < p {
      p, q := q, p;
    }
  }

  ghost predicate StreamExact(s: seq<Event>) {
    forall b :: Buffered(b, s) ==> Bundles(b) == Bundles(s)
  }

  /**
   The stream folds into what every buffered listing of the table folds into exactly when
   no two UIDs share their earliest start and no two rows alike start together.
   */
  lemma StreamExactIff(s: seq<Event>, collate: (string, string) -> bool)
    requires Distinct(s) && Collation(collate) && SortedBy(StreamLe(s, collate), s)
    ensures StreamExact(s) <==> NoTies(s)
  {
    if NoTies(s) {
      forall b | Buffered(b, s) ensures Bundles(b) == Bundles(s) {
        NoTiesPermutation(s, b);
        SameBundles(b, s, collate);
      }
    } else {
      var b := OrderBy(ByStart(), s);
      OrderByStart(s);
      DistinctCounts(s);
      CountsDistinct(b);
      if NoTies(b) {
        NoTiesPermutation(b, s);
      }
      var t := TieShows(b, s);
      assert Bundles(b) != Bundles(s) || Bundles(t) != Bundles(s);
    }
  }
}
