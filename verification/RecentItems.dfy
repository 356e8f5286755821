/**
 The recently-used list of every user: one table of accesses, refreshed by an upsert and cut
 back to `cap` rows per user.  The older recorder prunes after every access, the newer one
 only when the upsert inserted a row.
 */
module RecentItems {
  import opened Sequences
  import opened Ordering

  /** An item is its id together with its type; the table has one row per user and item. */
  datatype Row = Row(user: nat, item: string, at: int)

  datatype Event = Access(user: nat, item: string, at: int) | Remove(user: nat, item: string) | Clear(user: nat)

  predicate Newer(a: Row, b: Row) {
    a.at > b.at
  }

  function Of(user: nat): Row -> bool {
    (r: Row) => r.user == user
  }

  function OtherThan(user: nat, item: string): Row -> bool {
    (r: Row) => r.user != user || r.item != item
  }

  function NotIn(gone: seq<Row>): Row -> bool {
    (r: Row) => r !in gone
  }

  function OfUser(rows: seq<Row>, user: nat): seq<Row> {
    Filter(Of(user), rows)
  }

  /** The user's rows, newest first. */
  function Listing(rows: seq<Row>, user: nat): seq<Row> {
    OrderBy(Newer, OfUser(rows, user))
  }

  predicate HasKey(rows: seq<Row>, user: nat, item: string) {
    exists r :: r in rows && r.user == user && r.item == item
  }

  function Upsert(rows: seq<Row>, user: nat, item: string, now: int): seq<Row> {
    Filter(OtherThan(user, item), rows) + [Row(user, item, now)]
  }

  /** What a prune leaves when `listing` is the newest-first listing the database uses. */
  function PruneBy(rows: seq<Row>, listing: seq<Row>, cap: nat): seq<Row> {
    Filter(NotIn(Drop(cap, listing)), rows)
  }

  function Prune(rows: seq<Row>, user: nat, cap: nat): seq<Row> {
    PruneBy(rows, Listing(rows, user), cap)
  }

  function ExceptUser(user: nat): Row -> bool {
    (r: Row) => r.user != user
  }

  function Delete(rows: seq<Row>, e: Event): seq<Row>
    requires !e.Access?
  {
    match e
    case Remove(user, item) => Filter(OtherThan(user, item), rows)
    case Clear(user) => Filter(ExceptUser(user), rows)
  }

  /** Prune after every access. */
  function StepAlways(rows: seq<Row>, e: Event, cap: nat): seq<Row> {
    if e.Access? then Prune(Upsert(rows, e.user, e.item, e.at), e.user, cap) else Delete(rows, e)
  }

  /** Prune only when the access inserted a row. */
  function StepOnInsert(rows: seq<Row>, e: Event, cap: nat): seq<Row> {
    if e.Access? then
      var rows' := Upsert(rows, e.user, e.item, e.at);
      if HasKey(rows, e.user, e.item) then rows' else Prune(rows', e.user, cap)
    else Delete(rows, e)
  }

  function RunAlways(rows: seq<Row>, events: seq<Event>, cap: nat): seq<Row> {
    if events == [] then rows
    else StepAlways(RunAlways(rows, events[..|events| - 1], cap), events[|events| - 1], cap)
  }

  function RunOnInsert(rows: seq<Row>, events: seq<Event>, cap: nat): seq<Row> {
    if events == [] then rows
    else StepOnInsert(RunOnInsert(rows, events[..|events| - 1], cap), events[|events| - 1], cap)
  }

  ghost predicate Table(rows: seq<Row>) {
    && Distinct(rows)
    && forall a, b :: a in rows && b in rows && a.user == b.user && a.item == b.item ==> a == b
  }

  ghost predicate WithinCap(rows: seq<Row>, cap: nat) {
    forall user: nat :: |OfUser(rows, user)| <= cap
  }

  // ----- one statement

  lemma FilterTable(p: Row -> bool, rows: seq<Row>)
    requires Table(rows)
    ensures Table(Filter(p, rows))
  {
    FilterDistinct(p, rows);
  }

  lemma UpsertTable(rows: seq<Row>, user: nat, item: string, now: int)
    requires Table(rows)
    ensures Table(Upsert(rows, user, item, now))
  {
    var kept := Filter(OtherThan(user, item), rows);
    FilterTable(OtherThan(user, item), rows);
    assert Row(user, item, now) !in kept;
    DistinctJoin(kept, [Row(user, item, now)]);
  }

  /** One row for user and item, with the new time; every other row stays. */
  lemma UpsertMeaning(rows: seq<Row>, user: nat, item: string, now: int)
    requires Table(rows)
    ensures forall r :: r in Upsert(rows, user, item, now) <==>
              r == Row(user, item, now) || (r in rows && (r.user != user || r.item != item))
    ensures |Upsert(rows, user, item, now)| == |rows| + if HasKey(rows, user, item) then 0 else 1
  {
    if HasKey(rows, user, item) {
      var r :| r in rows && r.user == user && r.item == item;
      FilterDropsOne(OtherThan(user, item), rows, r);
    } else {
      FilterAll(OtherThan(user, item), rows);
    }
  }

  /** A removal takes exactly the one row, a clearing exactly the user's rows; nothing else goes or changes place. */
  lemma DeleteMeaning(rows: seq<Row>, e: Event, r: Row)
    requires !e.Access?
    ensures r in Delete(rows, e) <==> r in rows && (r.user != e.user || (e.Remove? && r.item != e.item))
    ensures e.Remove? && !HasKey(rows, e.user, e.item) ==> Delete(rows, e) == rows
    ensures e.Clear? ==> OfUser(Delete(rows, e), e.user) == []
    ensures r.user != e.user ==> OfUser(Delete(rows, e), r.user) == OfUser(rows, r.user)
  {
    match e {
      case Remove(user, item) =>
        if !HasKey(rows, user, item) {
          FilterAll(OtherThan(user, item), rows);
        }
        FilterSwap(Of(r.user), OtherThan(user, item), rows);
        if r.user != user {
          FilterAll(OtherThan(user, item), OfUser(rows, r.user));
        }
      case Clear(user) =>
        FilterNone(Of(user), Delete(rows, e));
        FilterSwap(Of(r.user), ExceptUser(user), rows);
        if r.user != user {
          FilterAll(ExceptUser(user), OfUser(rows, r.user));
        }
    }
  }

  lemma StepTable(rows: seq<Row>, e: Event, cap: nat)
    requires Table(rows)
    ensures Table(StepAlways(rows, e, cap)) && Table(StepOnInsert(rows, e, cap))
  {
    match e {
      case Access(user, item, now) =>
        UpsertTable(rows, user, item, now);
        var rows' := Upsert(rows, user, item, now);
        FilterTable(NotIn(Drop(cap, Listing(rows', user))), rows');
      case Remove(user, item) => FilterTable(OtherThan(user, item), rows);
      case Clear(user) => FilterTable(ExceptUser(user), rows);
    }
  }

  /** A filter that loses one element loses exactly one. */
  lemma {:induction false} FilterDropsOne<T>(p: T -> bool, s: seq<T>, x: T)
    requires Distinct(s) && x in s && forall y :: y in s ==> (p(y) <==> y != x)
    ensures |Filter(p, s)| == |s| - 1
  {
    if s[0] != x {
      FilterDropsOne(p, s[1..], x);
    } else {
      assert s[0] !in s[1..];
      FilterAll(p, s[1..]);
    }
  }

  function Both<T>(p: T -> bool, q: T -> bool): T -> bool {
    (x: T) => p(x) && q(x)
  }

  lemma FilterSwap<T>(p: T -> bool, q: T -> bool, s: seq<T>)
    ensures Filter(p, Filter(q, s)) == Filter(q, Filter(p, s))
  {
    FilterFilter(p, q, Both(p, q), s);
    FilterFilter(q, p, Both(p, q), s);
  }

  /** The rows of the accessing user after an upsert, and those of any other user. */
  lemma UpsertOfUser(rows: seq<Row>, user: nat, item: string, now: int, u: nat)
    ensures OfUser(Upsert(rows, user, item, now), u) ==
            if u == user then Filter(OtherThan(user, item), OfUser(rows, u)) + [Row(user, item, now)]
            else OfUser(rows, u)
  {
    var kept := Filter(OtherThan(user, item), rows);
    FilterAppend(Of(u), kept, [Row(user, item, now)]);
    assert [Row(user, item, now)][1..] == [];
    FilterSwap(Of(u), OtherThan(user, item), rows);
    if u != user {
      FilterAll(OtherThan(user, item), OfUser(rows, u));
    }
  }

  lemma ListingRows(rows: seq<Row>, user: nat)
    requires Distinct(rows)
    ensures Distinct(OfUser(rows, user)) && Distinct(Listing(rows, user))
    ensures forall r :: r in Listing(rows, user) <==> r in rows && r.user == user
    ensures |Listing(rows, user)| == |OfUser(rows, user)|
  {
    FilterDistinct(Of(user), rows);
    OrderByRows(Newer, OfUser(rows, user));
    DistinctCounts(OfUser(rows, user));
    CountsDistinct(Listing(rows, user));
  }

  lemma PruneByOfUser(rows: seq<Row>, user: nat, listing: seq<Row>, cap: nat, u: nat)
    requires Distinct(rows) && multiset(listing) == multiset(OfUser(rows, user))
    ensures u == user ==> multiset(OfUser(PruneBy(rows, listing, cap), u)) == multiset(Take(cap, listing))
    ensures u == user ==> |OfUser(PruneBy(rows, listing, cap), u)| == |Take(cap, listing)|
    ensures u != user ==> OfUser(PruneBy(rows, listing, cap), u) == OfUser(rows, u)
  {
    var top, gone := Take(cap, listing), Drop(cap, listing);
    FilterDistinct(Of(user), rows);
    DistinctCounts(OfUser(rows, user));
    CountsDistinct(listing);
    forall r ensures r in listing <==> r in OfUser(rows, user) {
      SameMembers(listing, OfUser(rows, user), r);
    }
    FilterSwap(Of(u), NotIn(gone), rows);
    if u != user {
      FilterAll(NotIn(gone), OfUser(rows, u));
    } else {
      assert listing == top + gone;
      DistinctParts(top, gone);
      FilterDistinct(NotIn(gone), OfUser(rows, u));
      DistinctSameMembers(OfUser(PruneBy(rows, listing, cap), u), top);
      assert |multiset(OfUser(PruneBy(rows, listing, cap), u))| == |multiset(top)|;
    }
  }

  /** Pruning leaves the user with the first `cap` rows of the listing and nobody else touched. */
  lemma PruneOfUser(rows: seq<Row>, user: nat, cap: nat, u: nat)
    requires Distinct(rows)
    ensures u == user ==> multiset(OfUser(Prune(rows, user, cap), u)) == multiset(Take(cap, Listing(rows, user)))
    ensures u == user ==> |OfUser(Prune(rows, user, cap), u)| == |Take(cap, Listing(rows, user))|
    ensures u != user ==> OfUser(Prune(rows, user, cap), u) == OfUser(rows, u)
  {
    OrderByRows(Newer, OfUser(rows, user));
    PruneByOfUser(rows, user, Listing(rows, user), cap, u);
  }

  /** A prune of a user within the cap deletes nothing. */
  lemma PruneIdle(rows: seq<Row>, user: nat, cap: nat)
    requires |OfUser(rows, user)| <= cap
    ensures Prune(rows, user, cap) == rows
  {
    FilterAll(NotIn(Drop(cap, Listing(rows, user))), rows);
  }

  // ----- both recorders agree

  lemma UpsertCount(rows: seq<Row>, user: nat, item: string, now: int, u: nat)
    requires Table(rows)
    ensures |OfUser(Upsert(rows, user, item, now), u)| ==
            |OfUser(rows, u)| + if u == user && !HasKey(rows, user, item) then 1 else 0
  {
    UpsertOfUser(rows, user, item, now, u);
    if u == user {
      if HasKey(rows, user, item) {
        var r :| r in rows && r.user == user && r.item == item;
        FilterDistinct(Of(user), rows);
        FilterDropsOne(OtherThan(user, item), OfUser(rows, user), r);
      } else {
        FilterAll(OtherThan(user, item), OfUser(rows, user));
      }
    }
  }

  lemma FilterShrinks<T>(p: T -> bool, q: T -> bool, s: seq<T>)
    ensures |Filter(p, Filter(q, s))| <= |Filter(p, s)|
  {
    FilterSwap(p, q, s);
  }

  lemma StepsAgree(rows: seq<Row>, e: Event, cap: nat)
    requires Table(rows) && WithinCap(rows, cap)
    ensures StepAlways(rows, e, cap) == StepOnInsert(rows, e, cap)
    ensures WithinCap(StepOnInsert(rows, e, cap), cap)
  {
    match e {
      case Access(user, item, now) =>
        var rows' := Upsert(rows, user, item, now);
        UpsertTable(rows, user, item, now);
        if HasKey(rows, user, item) {
          UpsertCount(rows, user, item, now, user);
          PruneIdle(rows', user, cap);
        }
        forall u: nat ensures |OfUser(Prune(rows', user, cap), u)| <= cap {
          UpsertCount(rows, user, item, now, u);
          PruneOfUser(rows', user, cap, u);
        }
      case Remove(user, item) =>
        forall u: nat ensures |OfUser(Delete(rows, e), u)| <= cap {
          assert |OfUser(rows, u)| <= cap;
          FilterShrinks(Of(u), OtherThan(user, item), rows);
        }
      case Clear(user) =>
        forall u: nat ensures |OfUser(Delete(rows, e), u)| <= cap {
          assert |OfUser(rows, u)| <= cap;
          FilterShrinks(Of(u), ExceptUser(user), rows);
        }
    }
  }

  lemma {:induction false} RunsAgree(rows: seq<Row>, events: seq<Event>, cap: nat)
    requires Table(rows) && WithinCap(rows, cap)
    ensures RunAlways(rows, events, cap) == RunOnInsert(rows, events, cap)
    ensures Table(RunOnInsert(rows, events, cap)) && WithinCap(RunOnInsert(rows, events, cap), cap)
    decreases |events|
  {
    if events != [] {
      var n := |events| - 1;
      RunsAgree(rows, events[..n], cap);
      StepTable(RunOnInsert(rows, events[..n], cap), events[n], cap);
      StepsAgree(RunOnInsert(rows, events[..n], cap), events[n], cap);
    }
  }

  /** One more access to an item already held tells the recorders apart above the cap. */
  lemma AboveCapDiffers(rows: seq<Row>, user: nat, cap: nat) returns (e: Event)
    requires Table(rows) && |OfUser(rows, user)| > cap
    ensures RunAlways(rows, [e], cap) != RunOnInsert(rows, [e], cap)
  {
    var r := OfUser(rows, user)[0];
    assert r in OfUser(rows, user);
    e := Access(user, r.item, r.at);
    var rows' := Upsert(rows, user, r.item, r.at);
    assert HasKey(rows, user, r.item);
    UpsertTable(rows, user, r.item, r.at);
    UpsertCount(rows, user, r.item, r.at, user);
    PruneOfUser(rows', user, cap, user);
    assert [e][..0] == [];
  }

  /** The recorders give equal tables over every run exactly when nobody starts above the cap. */
  lemma RunsAgreeIff(rows: seq<Row>, cap: nat)
    requires Table(rows)
    ensures (forall events :: RunAlways(rows, events, cap) == RunOnInsert(rows, events, cap)) <==> WithinCap(rows, cap)
  {
    if WithinCap(rows, cap) {
      forall events ensures RunAlways(rows, events, cap) == RunOnInsert(rows, events, cap) {
        RunsAgree(rows, events, cap);
      }
    } else {
      var user: nat :| |OfUser(rows, user)| > cap;
      var e := AboveCapDiffers(rows, user, cap);
    }
  }

  // ----- what the table holds

  /** The user's items by their last access, newest first. */
  function Recency(history: seq<Event>, user: nat): seq<Row> {
    if history == [] then [] else
    var e := history[|history| - 1];
    var before := Recency(history[..|history| - 1], user);
    if e.Access? && e.user == user then [Row(user, e.item, e.at)] + Filter(OtherThan(user, e.item), before)
    else before
  }

  ghost predicate AccessesInOrder(history: seq<Event>) {
    && (forall i :: 0 <= i < |history| ==> history[i].Access?)
    && (forall i, j :: 0 <= i < j < |history| ==> history[i].at < history[j].at)
  }

  /** `history[i]` is the last access of its item by its user. */
  ghost predicate LastAccess(history: seq<Event>, i: nat) {
    && i < |history| && history[i].Access?
    && forall j :: i < j < |history| && history[j].Access? ==>
         history[j].user != history[i].user || history[j].item != history[i].item
  }

  ghost predicate IsLast(history: seq<Event>, r: Row) {
    exists i: nat :: LastAccess(history, i) && Access(r.user, r.item, r.at) == history[i]
  }

  lemma LastStep(history: seq<Event>, e: Event, r: Row)
    requires e.Access?
    ensures IsLast(history + [e], r) <==>
            r == Row(e.user, e.item, e.at) || (IsLast(history, r) && OtherThan(e.user, e.item)(r))
  {
    var h := history + [e];
    if IsLast(history, r) && OtherThan(e.user, e.item)(r) {
      var i: nat :| LastAccess(history, i) && Access(r.user, r.item, r.at) == history[i];
      assert LastAccess(h, i) && Access(r.user, r.item, r.at) == h[i];
    }
    if r == Row(e.user, e.item, e.at) {
      assert LastAccess(h, |history|) && Access(r.user, r.item, r.at) == h[|history|];
    }
    if IsLast(h, r) && r != Row(e.user, e.item, e.at) {
      var i: nat :| LastAccess(h, i) && Access(r.user, r.item, r.at) == h[i];
      assert forall j :: 0 <= j < |history| ==> h[j] == history[j];
      assert LastAccess(history, i) && Access(r.user, r.item, r.at) == history[i];
      assert h[|history|] == e;
    }
  }

  lemma {:induction false} RecencyBefore(history: seq<Event>, user: nat, t: int)
    requires forall i :: 0 <= i < |history| && history[i].Access? ==> history[i].at < t
    ensures forall r :: r in Recency(history, user) ==> r.user == user && r.at < t
  {
    if history != [] {
      RecencyBefore(history[..|history| - 1], user, t);
    }
  }

  lemma {:induction false} RecencySorted(history: seq<Event>, user: nat)
    requires AccessesInOrder(history)
    ensures SortedBy(Newer, Recency(history, user)) && Table(Recency(history, user))
  {
    if history != [] {
      var n := |history| - 1;
      var e, before := history[n], Recency(history[..n], user);
      RecencySorted(history[..n], user);
      if e.user == user {
        RecencyBefore(history[..n], user, e.at);
        MovedToFront(before, Row(user, e.item, e.at));
      }
    }
  }

  lemma MovedToFront(before: seq<Row>, row: Row)
    requires SortedBy(Newer, before) && Table(before)
    requires forall r :: r in before ==> r.at < row.at
    ensures var moved := [row] + Filter(OtherThan(row.user, row.item), before); SortedBy(Newer, moved) && Table(moved)
  {
    FilterSorted(Newer, OtherThan(row.user, row.item), before);
    FilterTable(OtherThan(row.user, row.item), before);
  }

  /** The recency list holds exactly the user's last access of each item. */
  lemma {:induction false} RecencyMeaning(history: seq<Event>, user: nat, r: Row)
    requires AccessesInOrder(history)
    ensures r in Recency(history, user) <==> r.user == user && IsLast(history, r)
  {
    if history != [] {
      var n := |history| - 1;
      RecencyMeaning(history[..n], user, r);
      assert history == history[..n] + [history[n]];
      LastStep(history[..n], history[n], r);
    }
  }

  lemma ListingIs(rows: seq<Row>, user: nat, t: seq<Row>)
    requires Distinct(rows) && SortedBy(Newer, t)
    requires multiset(OfUser(rows, user)) == multiset(t)
    ensures Listing(rows, user) == t
  {
    assert StrictOrderOn(Newer, Elements(t)) by {
      forall a, b | a in t && b in t && a != b ensures Newer(a, b) || Newer(b, a) {
      }
    }
    FilterDistinct(Of(user), rows);
    forall r ensures r in OfUser(rows, user) <==> r in t {
      SameMembers(OfUser(rows, user), t, r);
    }
    assert Elements(OfUser(rows, user)) == Elements(t);
    OrderByPermutation(Newer, OfUser(rows, user), t);
    OrderBySortedId(Newer, t);
  }

  lemma FrontOrBack<T>(x: T, a: seq<T>, b: seq<T>)
    requires multiset(a) == multiset(b)
    ensures multiset(a + [x]) == multiset([x] + b)
  {
  }

  lemma UpsertRows(rows: seq<Row>, user: nat, item: string, now: int)
    ensures multiset(OfUser(Upsert(rows, user, item, now), user)) ==
            multiset([Row(user, item, now)] + Filter(OtherThan(user, item), Listing(rows, user)))
  {
    OrderByRows(Newer, OfUser(rows, user));
    UpsertOfUser(rows, user, item, now, user);
    FilterSameMultiset(OtherThan(user, item), OfUser(rows, user), Listing(rows, user));
    FrontOrBack(Row(user, item, now), Filter(OtherThan(user, item), OfUser(rows, user)),
                Filter(OtherThan(user, item), Listing(rows, user)));
  }

  lemma ListingTable(rows: seq<Row>, user: nat)
    requires Table(rows)
    ensures Table(Listing(rows, user))
  {
    ListingRows(rows, user);
  }

  lemma UpsertListing(rows: seq<Row>, user: nat, item: string, now: int)
    requires Table(rows) && SortedBy(Newer, Listing(rows, user))
    requires forall r :: r in Listing(rows, user) ==> r.at < now
    ensures Listing(Upsert(rows, user, item, now), user) ==
            [Row(user, item, now)] + Filter(OtherThan(user, item), Listing(rows, user))
    ensures SortedBy(Newer, Listing(Upsert(rows, user, item, now), user))
  {
    ListingTable(rows, user);
    MovedToFront(Listing(rows, user), Row(user, item, now));
    UpsertTable(rows, user, item, now);
    UpsertRows(rows, user, item, now);
    ListingIs(Upsert(rows, user, item, now), user,
              [Row(user, item, now)] + Filter(OtherThan(user, item), Listing(rows, user)));
  }

  lemma TakeLonger(k: nat, a: seq<Row>, b: seq<Row>)
    requires |a| >= k || b == []
    ensures Take(k, a) == Take(k, a + b)
  {
    if b == [] {
      assert a + b == a;
    }
  }

  /** Cutting back and moving to the front commute. */
  lemma TakeFront(k: nat, x: Row, p: Row -> bool, s: seq<Row>)
    requires k > 0 && Distinct(s) && forall y, z :: y in s && z in s && !p(y) && !p(z) ==> y == z
    ensures Take(k, [x] + Filter(p, Take(k, s))) == Take(k, [x] + Filter(p, s))
  {
    var top, rest := Take(k, s), Drop(k, s);
    FilterAppend(p, top, rest);
    TakeCons(k, x, Filter(p, top));
    TakeCons(k, x, Filter(p, s));
    if rest == [] {
      FilterNone(p, rest);
    } else {
      LosesOne(p, s, top, rest);
    }
    TakeLonger(k - 1, Filter(p, top), Filter(p, rest));
  }

  lemma LosesOne(p: Row -> bool, s: seq<Row>, top: seq<Row>, rest: seq<Row>)
    requires s == top + rest && Distinct(s)
    requires forall y, z :: y in s && z in s && !p(y) && !p(z) ==> y == z
    ensures |Filter(p, top)| >= |top| - 1
  {
    DistinctParts(top, rest);
    if y :| y in top && !p(y) {
      assert forall z :: z in top ==> z in s;
      FilterDropsOne(p, top, y);
    } else {
      FilterAll(p, top);
    }
  }

  lemma PruneListing(rows: seq<Row>, user: nat, cap: nat)
    requires Distinct(rows) && SortedBy(Newer, Listing(rows, user))
    ensures Listing(Prune(rows, user, cap), user) == Take(cap, Listing(rows, user))
  {
    PruneOfUser(rows, user, cap, user);
    FilterDistinct(NotIn(Drop(cap, Listing(rows, user))), rows);
    ListingIs(Prune(rows, user, cap), user, Take(cap, Listing(rows, user)));
  }

  lemma StepListing(rows: seq<Row>, e: Event, cap: nat)
    requires Table(rows) && WithinCap(rows, cap) && e.Access?
    requires SortedBy(Newer, Listing(rows, e.user)) && forall r :: r in Listing(rows, e.user) ==> r.at < e.at
    ensures Listing(StepOnInsert(rows, e, cap), e.user) ==
            Take(cap, [Row(e.user, e.item, e.at)] + Filter(OtherThan(e.user, e.item), Listing(rows, e.user)))
  {
    StepsAgree(rows, e, cap);
    UpsertListing(rows, e.user, e.item, e.at);
    UpsertTable(rows, e.user, e.item, e.at);
    PruneListing(Upsert(rows, e.user, e.item, e.at), e.user, cap);
  }

  lemma StepOther(rows: seq<Row>, e: Event, cap: nat, u: nat)
    requires Table(rows) && e.Access? && u != e.user
    ensures Listing(StepOnInsert(rows, e, cap), u) == Listing(rows, u)
  {
    UpsertOfUser(rows, e.user, e.item, e.at, u);
    UpsertTable(rows, e.user, e.item, e.at);
    PruneOfUser(Upsert(rows, e.user, e.item, e.at), e.user, cap, u);
  }

  /**
   From an empty table, after any accesses in order of time, every user's rows are the `cap`
   most recently accessed distinct items, each with the time of its last access.
   */
  lemma {:induction false} TableIsRecent(history: seq<Event>, cap: nat, user: nat)
    requires AccessesInOrder(history)
    ensures Listing(RunOnInsert([], history, cap), user) == Take(cap, Recency(history, user))
  {
    if history != [] {
      var n := |history| - 1;
      var h, e := history[..n], history[n];
      TableIsRecent(h, cap, user);
      RunsAgree([], h, cap);
      if e.user == user {
        RecencySorted(h, user);
        RecencyBefore(h, user, e.at);
        RecentStep(RunOnInsert([], h, cap), e, cap, Recency(h, user));
      } else {
        StepOther(RunOnInsert([], h, cap), e, cap, user);
      }
    }
  }

  lemma RecentStep(rows: seq<Row>, e: Event, cap: nat, recent: seq<Row>)
    requires Table(rows) && WithinCap(rows, cap) && e.Access?
    requires Listing(rows, e.user) == Take(cap, recent) && SortedBy(Newer, recent) && Table(recent)
    requires forall r :: r in recent ==> r.at < e.at
    ensures Listing(StepOnInsert(rows, e, cap), e.user) ==
            Take(cap, [Row(e.user, e.item, e.at)] + Filter(OtherThan(e.user, e.item), recent))
  {
    StepListing(rows, e, cap);
    if cap > 0 {
      TakeFront(cap, Row(e.user, e.item, e.at), OtherThan(e.user, e.item), recent);
    }
  }

  // ----- the recorders as they run

  class RecentTable {
    const cap: nat
    var rows: seq<Row>

    /** One row per user and item. */
    ghost predicate Valid()
      reads this
    {
      Table(rows)
    }

    constructor (cap: nat)
      ensures Valid() && this.cap == cap && rows == []
    {
      this.cap := cap;
      rows := [];
    }

    /** Afterwards one row has this user and item, with the new time; says whether there was none before. */
    method Touch(user: nat, item: string, now: int) returns (inserted: bool)
      requires Valid()
      modifies this
      ensures Valid() && rows == Upsert(old(rows), user, item, now)
      ensures forall r :: r in rows <==>
                r == Row(user, item, now) || (r in old(rows) && (r.user != user || r.item != item))
      ensures inserted <==> forall r :: r in old(rows) ==> r.user != user || r.item != item
      ensures |rows| == |old(rows)| + if inserted then 1 else 0
    {
      inserted := !HasKey(rows, user, item);
      UpsertTable(rows, user, item, now);
      UpsertMeaning(rows, user, item, now);
      rows := Filter(OtherThan(user, item), rows) + [Row(user, item, now)];
    }

    method CutBack(user: nat)
      requires Valid()
      modifies this
      ensures Valid() && rows == Prune(old(rows), user, cap)
    {
      FilterTable(NotIn(Drop(cap, Listing(rows, user))), rows);
      rows := Filter(NotIn(Drop(cap, Listing(rows, user))), rows);
    }

    method RecordAlways(events: seq<Event>)
      requires Valid()
      modifies this
      ensures Valid() && rows == RunAlways(old(rows), events, cap)
    {
      for i := 0 to |events|
        invariant Valid() && rows == RunAlways(old(rows), events[..i], cap)
      {
        SliceSnoc(events, i);
        assert events[..i + 1][..i] == events[..i];
        StepTable(rows, events[i], cap);
        match events[i] {
          case Access(user, item, now) =>
            var _ := Touch(user, item, now);
            CutBack(user);
          case Remove(_, _) => rows := Delete(rows, events[i]);
          case Clear(_) => rows := Delete(rows, events[i]);
        }
      }
      assert events[..|events|] == events;
    }

    method RecordOnInsert(events: seq<Event>)
      requires Valid()
      modifies this
      ensures Valid() && rows == RunOnInsert(old(rows), events, cap)
    {
      for i := 0 to |events|
        invariant Valid() && rows == RunOnInsert(old(rows), events[..i], cap)
      {
        SliceSnoc(events, i);
        assert events[..i + 1][..i] == events[..i];
        StepTable(rows, events[i], cap);
        match events[i] {
          case Access(user, item, now) =>
            var inserted := Touch(user, item, now);
            if inserted {
              CutBack(user);
            }
          case Remove(_, _) => rows := Delete(rows, events[i]);
          case Clear(_) => rows := Delete(rows, events[i]);
        }
      }
      assert events[..|events|] == events;
    }
  }
}
