/**
 Accesses at equal times.  The database may break such ties as it likes, so a listing, a prune
 and a whole run of the recorder have several possible outcomes.
 */
module RecentTies {
  import opened Ordering
  import opened RecentItems
  import opened Sequences

  ghost predicate NewestFirst(listing: seq<Row>) {
    forall i, j :: 0 <= i < j < |listing| ==> listing[i].at >= listing[j].at
  }

  /** A newest-first listing of the user's rows that the database may use: ties stand in any order. */
  ghost predicate MayList(rows: seq<Row>, user: nat, listing: seq<Row>) {
    multiset(listing) == multiset(OfUser(rows, user)) && NewestFirst(listing)
  }

  ghost predicate MayPrune(rows: seq<Row>, user: nat, cap: nat, rows': seq<Row>) {
    exists listing :: MayList(rows, user, listing) && rows' == PruneBy(rows, listing, cap)
  }

  // ----- the listing of the model is one of them

  lemma {:induction false} InsertNewest(x: Row, s: seq<Row>)
    requires NewestFirst(s)
    ensures NewestFirst(Insert(Newer, x, s))
  {
    if s != [] && !Newer(x, s[0]) {
      InsertNewest(x, s[1..]);
      InsertMultiset(Newer, x, s[1..]);
      var r := Insert(Newer, x, s[1..]);
      forall j | 0 <= j < |r| ensures s[0].at >= r[j].at {
        assert r[j] in multiset(r);
        assert r[j] in s[1..] || r[j] == x;
      }
    }
  }

  lemma {:induction false} OrderByNewest(s: seq<Row>)
    ensures NewestFirst(OrderBy(Newer, s))
  {
    if s != [] {
      OrderByNewest(s[1..]);
      InsertNewest(s[0], OrderBy(Newer, s[1..]));
    }
  }

  lemma ListingMay(rows: seq<Row>, user: nat)
    ensures MayList(rows, user, Listing(rows, user))
  {
    OrderByRows(Newer, OfUser(rows, user));
    OrderByNewest(OfUser(rows, user));
  }

  lemma MayListRows(rows: seq<Row>, user: nat, listing: seq<Row>)
    requires Table(rows) && MayList(rows, user, listing)
    ensures Distinct(listing) && forall r :: r in listing <==> r in rows && r.user == user
  {
    FilterDistinct(Of(user), rows);
    DistinctCounts(OfUser(rows, user));
    CountsDistinct(listing);
    forall r ensures r in listing <==> r in rows && r.user == user {
      SameMembers(listing, OfUser(rows, user), r);
    }
  }

  /** Two rows of one time may change places. */
  lemma SwappedMay(rows: seq<Row>, user: nat, listing: seq<Row>, i: nat, j: nat)
    requires MayList(rows, user, listing) && i < j < |listing| && listing[i].at == listing[j].at
    ensures MayList(rows, user, Swapped(listing, i, j))
  {
    SwappedMultiset(listing, i, j);
    var t := Swapped(listing, i, j);
    assert forall k :: 0 <= k < |listing| ==> t[k].at == listing[k].at;
    forall k, l | 0 <= k < l < |t| ensures t[k].at >= t[l].at {
      assert listing[k].at >= listing[l].at;
    }
  }

  // ----- when the listing is decided

  ghost predicate TimesApart(rows: seq<Row>, user: nat) {
    forall a, b :: a in rows && b in rows && a.user == user && b.user == user && a.at == b.at ==> a == b
  }

  /** Distinct times leave the database no choice. */
  lemma DistinctTimesDecide(rows: seq<Row>, user: nat, listing: seq<Row>)
    requires Table(rows) && MayList(rows, user, listing) && TimesApart(rows, user)
    ensures listing == Listing(rows, user)
  {
    MayListRows(rows, user, listing);
    forall i, j | 0 <= i < j < |listing| ensures Newer(listing[i], listing[j]) {
      assert listing[i] in listing && listing[j] in listing && listing[i] != listing[j];
    }
    ListingIs(rows, user, listing);
  }

  lemma TieListedBothWays(rows: seq<Row>, user: nat, a: Row, b: Row) returns (other: seq<Row>)
    requires Table(rows) && a in rows && b in rows && a.user == user && b.user == user && a.at == b.at && a != b
    ensures MayList(rows, user, other) && other != Listing(rows, user)
  {
    var listing := Listing(rows, user);
    ListingMay(rows, user);
    MayListRows(rows, user, listing);
    var i :| 0 <= i < |listing| && listing[i] == a;
    var j :| 0 <= j < |listing| && listing[j] == b;
    var lo, hi := if i < j then i else j, if i < j then j else i;
    SwappedMay(rows, user, listing, lo, hi);
    other := Swapped(listing, lo, hi);
    assert other[lo] != listing[lo];
  }

  /** The user's listing is decided if and only if no two of their rows have one time. */
  lemma ListingDecidedIff(rows: seq<Row>, user: nat)
    requires Table(rows)
    ensures (forall listing :: MayList(rows, user, listing) ==> listing == Listing(rows, user)) <==>
            TimesApart(rows, user)
  {
    if TimesApart(rows, user) {
      forall listing | MayList(rows, user, listing) ensures listing == Listing(rows, user) {
        DistinctTimesDecide(rows, user, listing);
      }
    } else {
      var a, b :| a in rows && b in rows && a.user == user && b.user == user && a.at == b.at && a != b;
      var other := TieListedBothWays(rows, user, a, b);
    }
  }

  // ----- when a prune is decided

  /** The last row with room and the first without have different times. */
  predicate ApartAtCap(rows: seq<Row>, user: nat, cap: nat) {
    var listing := Listing(rows, user);
    0 < cap < |listing| ==> listing[cap - 1].at != listing[cap].at
  }

  function AtLeast(t: int): Row -> bool {
    (r: Row) => r.at >= t
  }

  lemma FilterCut<T>(p: T -> bool, s: seq<T>, k: nat)
    requires k <= |s| && (forall i :: 0 <= i < k ==> p(s[i])) && forall i :: k <= i < |s| ==> !p(s[i])
    ensures Filter(p, s) == s[..k]
  {
    assert s == s[..k] + s[k..];
    FilterAppend(p, s[..k], s[k..]);
    FilterAll(p, s[..k]);
    FilterNone(p, s[k..]);
  }

  /** In a newest-first listing the rows since `t` come first. */
  lemma SinceComesFirst(listing: seq<Row>, t: int) returns (k: nat)
    requires NewestFirst(listing)
    ensures k <= |listing| && Filter(AtLeast(t), listing) == listing[..k]
  {
    k := 0;
    while k < |listing| && listing[k].at >= t
      invariant k <= |listing| && forall i :: 0 <= i < k ==> listing[i].at >= t
    {
      k := k + 1;
    }
    FilterCut(AtLeast(t), listing, k);
  }

  lemma SameLength<T>(s: seq<T>, t: seq<T>)
    requires multiset(s) == multiset(t)
    ensures |s| == |t|
  {
    assert |multiset(s)| == |s| && |multiset(t)| == |t|;
  }

  lemma SameTopSince(listing: seq<Row>, ours: seq<Row>, cap: nat)
    requires multiset(listing) == multiset(ours) && NewestFirst(listing) && NewestFirst(ours)
    requires 0 < cap < |ours| && ours[cap - 1].at != ours[cap].at
    ensures multiset(Take(cap, listing)) == multiset(Take(cap, ours))
  {
    var t := ours[cap - 1].at;
    FilterCut(AtLeast(t), ours, cap);
    var k := SinceComesFirst(listing, t);
    FilterSameMultiset(AtLeast(t), listing, ours);
    SameLength(Filter(AtLeast(t), listing), Filter(AtLeast(t), ours));
    SameLength(listing, ours);
  }

  /** With room up to a gap in time every possible listing begins with the same rows. */
  lemma SameTop(rows: seq<Row>, user: nat, cap: nat, listing: seq<Row>)
    requires MayList(rows, user, listing) && ApartAtCap(rows, user, cap)
    ensures multiset(Take(cap, listing)) == multiset(Take(cap, Listing(rows, user)))
  {
    var ours := Listing(rows, user);
    ListingMay(rows, user);
    SameLength(listing, ours);
    if cap == 0 {
      assert Take(cap, listing) == [] == Take(cap, ours);
    } else if cap < |ours| {
      SameTopSince(listing, ours, cap);
    } else {
      assert Take(cap, listing) == listing && Take(cap, ours) == ours;
    }
  }

  lemma Rest<T>(cap: nat, s: seq<T>)
    ensures multiset(Drop(cap, s)) == multiset(s) - multiset(Take(cap, s))
  {
    assert s == Take(cap, s) + Drop(cap, s);
  }

  lemma ApartDecides(rows: seq<Row>, user: nat, cap: nat, listing: seq<Row>)
    requires MayList(rows, user, listing) && ApartAtCap(rows, user, cap)
    ensures PruneBy(rows, listing, cap) == Prune(rows, user, cap)
  {
    var ours := Listing(rows, user);
    ListingMay(rows, user);
    SameTop(rows, user, cap, listing);
    Rest(cap, listing);
    Rest(cap, ours);
    forall r ensures r in Drop(cap, listing) <==> r in Drop(cap, ours) {
      SameMembers(Drop(cap, listing), Drop(cap, ours), r);
    }
    FilterAgree(NotIn(Drop(cap, listing)), NotIn(Drop(cap, ours)), rows);
  }

  lemma TieKeptEitherWay(rows: seq<Row>, user: nat, cap: nat) returns (rows': seq<Row>)
    requires Table(rows) && !ApartAtCap(rows, user, cap)
    ensures MayPrune(rows, user, cap, rows') && rows' != Prune(rows, user, cap)
  {
    var ours := Listing(rows, user);
    ListingMay(rows, user);
    MayListRows(rows, user, ours);
    SwappedMay(rows, user, ours, cap - 1, cap);
    var other := Swapped(ours, cap - 1, cap);
    var x := ours[cap - 1];
    rows' := PruneBy(rows, other, cap);
    assert Drop(cap, other)[0] == x;
    assert x in rows && x !in rows';
    assert x !in Drop(cap, ours);
  }

  /**
   What a prune leaves is decided if and only if the last row with room and the first without
   have different times.
   */
  lemma PruneDecidedIff(rows: seq<Row>, user: nat, cap: nat)
    requires Table(rows)
    ensures (forall rows' :: MayPrune(rows, user, cap, rows') ==> rows' == Prune(rows, user, cap)) <==>
            ApartAtCap(rows, user, cap)
  {
    if ApartAtCap(rows, user, cap) {
      forall rows' | MayPrune(rows, user, cap, rows') ensures rows' == Prune(rows, user, cap) {
        var listing :| MayList(rows, user, listing) && rows' == PruneBy(rows, listing, cap);
        ApartDecides(rows, user, cap, listing);
      }
    } else {
      var rows' := TieKeptEitherWay(rows, user, cap);
    }
  }

  /** Neighbours in the listing separate all rows of one time. */
  lemma TieAtSomeCap(rows: seq<Row>, user: nat, i: nat, j: nat)
    requires i < j < |Listing(rows, user)| && Listing(rows, user)[i].at == Listing(rows, user)[j].at
    ensures !ApartAtCap(rows, user, i + 1)
  {
    ListingMay(rows, user);
    var ours := Listing(rows, user);
    assert ours[i].at >= ours[i + 1].at >= ours[j].at;
  }

  lemma TieHasCap(rows: seq<Row>, user: nat, a: Row, b: Row) returns (cap: nat)
    requires Table(rows) && a in rows && b in rows && a.user == user && b.user == user && a.at == b.at && a != b
    ensures !ApartAtCap(rows, user, cap)
  {
    var ours := Listing(rows, user);
    ListingRows(rows, user);
    var i :| 0 <= i < |ours| && ours[i] == a;
    var j :| 0 <= j < |ours| && ours[j] == b;
    if i < j {
      TieAtSomeCap(rows, user, i, j);
      cap := i + 1;
    } else {
      TieAtSomeCap(rows, user, j, i);
      cap := j + 1;
    }
  }

  lemma ApartEverywhere(rows: seq<Row>, user: nat, cap: nat)
    requires Table(rows) && TimesApart(rows, user)
    ensures ApartAtCap(rows, user, cap)
  {
    var ours := Listing(rows, user);
    ListingRows(rows, user);
    if 0 < cap < |ours| {
      assert ours[cap - 1] in ours && ours[cap] in ours && ours[cap - 1] != ours[cap];
    }
  }

  /** Every prune of the user is decided if and only if no two of their rows have one time. */
  lemma PrunesDecidedIff(rows: seq<Row>, user: nat)
    requires Table(rows)
    ensures (forall cap: nat :: ApartAtCap(rows, user, cap)) <==> TimesApart(rows, user)
  {
    if TimesApart(rows, user) {
      forall cap: nat ensures ApartAtCap(rows, user, cap) {
        ApartEverywhere(rows, user, cap);
      }
    } else {
      var a, b :| a in rows && b in rows && a.user == user && b.user == user && a.at == b.at && a != b;
      var cap := TieHasCap(rows, user, a, b);
    }
  }

  lemma MayPruneBy(rows: seq<Row>, user: nat, cap: nat, listing: seq<Row>)
    requires MayList(rows, user, listing)
    ensures MayPrune(rows, user, cap, PruneBy(rows, listing, cap))
  {
  }

  lemma TieRows(user: nat, a: string, b: string, t: int)
    requires a != b
    ensures Upsert(Upsert([], user, a, t), user, b, t) == [Row(user, a, t), Row(user, b, t)]
  {
    var first := [Row(user, a, t)];
    assert Upsert([], user, a, t) == first;
    FilterAll(OtherThan(user, b), first);
  }

  lemma FilterPair<T>(p: T -> bool, x: T, y: T)
    ensures Filter(p, [x, y]) == (if p(x) then [x] else []) + (if p(y) then [y] else [])
  {
    assert [x, y][1..] == [y] && [y][1..] == [];
    assert Filter(p, [y]) == if p(y) then [y] else [];
  }

  lemma PairPruned(x: Row, y: Row)
    requires x != y
    ensures PruneBy([x, y], [x, y], 1) == [x] && PruneBy([x, y], [y, x], 1) == [y]
  {
    assert Drop(1, [x, y]) == [y] && Drop(1, [y, x]) == [x];
    FilterPair(NotIn([y]), x, y);
    FilterPair(NotIn([x]), x, y);
  }

  lemma PairListed(x: Row, y: Row)
    requires x.user == y.user && x.at == y.at
    ensures MayList([x, y], x.user, [x, y]) && MayList([x, y], x.user, [y, x])
  {
    FilterPair(Of(x.user), x, y);
    assert multiset([y, x]) == multiset([x, y]) == multiset{x, y};
  }

  lemma PairMay(x: Row, y: Row)
    requires x != y && x.user == y.user && x.at == y.at
    ensures MayPrune([x, y], x.user, 1, [x]) && MayPrune([x, y], x.user, 1, [y])
  {
    PairListed(x, y);
    MayPruneBy([x, y], x.user, 1, [x, y]);
    MayPruneBy([x, y], x.user, 1, [y, x]);
    PairPruned(x, y);
  }

  /** Of two items accessed at one instant a prune to one row may keep either. */
  lemma TieDecidedAnyhow(user: nat, a: string, b: string, t: int)
    requires a != b
    ensures var rows := Upsert(Upsert([], user, a, t), user, b, t);
            MayPrune(rows, user, 1, [Row(user, a, t)]) && MayPrune(rows, user, 1, [Row(user, b, t)])
  {
    TieRows(user, a, b, t);
    PairMay(Row(user, a, t), Row(user, b, t));
  }

  // ----- every run the database may take

  ghost predicate MayStep(rows: seq<Row>, e: Event, cap: nat, rows': seq<Row>) {
    if e.Access? then
      var up := Upsert(rows, e.user, e.item, e.at);
      if HasKey(rows, e.user, e.item) then rows' == up else MayPrune(up, e.user, cap, rows')
    else rows' == Delete(rows, e)
  }

  /** The tables that the newer recorder may go through, from an empty one. */
  ghost predicate MayRun(history: seq<Event>, cap: nat, tables: seq<seq<Row>>) {
    && |tables| == |history| + 1
    && if history == [] then tables[0] == []
       else
         var n := |history| - 1;
         MayRun(history[..n], cap, tables[..n + 1]) && MayStep(tables[n], history[n], cap, tables[n + 1])
  }

  lemma StepMay(rows: seq<Row>, e: Event, cap: nat)
    ensures MayStep(rows, e, cap, StepOnInsert(rows, e, cap))
  {
    if e.Access? {
      var up := Upsert(rows, e.user, e.item, e.at);
      ListingMay(up, e.user);
      MayPruneBy(up, e.user, cap, Listing(up, e.user));
    }
  }

  /** The run of the model is one of them. */
  lemma {:induction false} RunMay(history: seq<Event>, cap: nat) returns (tables: seq<seq<Row>>)
    ensures MayRun(history, cap, tables) && tables[|history|] == RunOnInsert([], history, cap)
    decreases |history|
  {
    if history == [] {
      tables := [[]];
    } else {
      var n := |history| - 1;
      var before := RunMay(history[..n], cap);
      StepMay(before[n], history[n], cap);
      tables := before + [StepOnInsert(before[n], history[n], cap)];
      assert tables[..n + 1] == before;
    }
  }

  ghost predicate AccessesNotBack(history: seq<Event>) {
    && (forall i :: 0 <= i < |history| ==> history[i].Access?)
    && (forall i, j :: 0 <= i < j < |history| ==> history[i].at <= history[j].at)
  }

  /** A row of `rows` is a last access, and a last access that is not there had no room among newer or equal ones. */
  ghost predicate MostRecent(history: seq<Event>, cap: nat, rows: seq<Row>) {
    && (forall r :: r in rows ==> IsLast(history, r))
    && (forall r :: IsLast(history, r) && r !in rows ==> NoRoom(rows, r, cap))
  }

  ghost predicate NoRoom(rows: seq<Row>, r: Row, cap: nat) {
    |OfUser(rows, r.user)| == cap && forall k :: k in rows && k.user == r.user ==> k.at >= r.at
  }

  lemma EmptyRecent(cap: nat)
    ensures RecentRows([], cap, [])
  {
  }

  /** An upsert alone: what is missing now was missing before. */
  lemma UpsertRecent(history: seq<Event>, e: Event, cap: nat, rows: seq<Row>, r: Row)
    requires Table(rows) && MostRecent(history, cap, rows) && e.Access?
    ensures var up := Upsert(rows, e.user, e.item, e.at);
            && (r in up ==> IsLast(history + [e], r))
            && (IsLast(history + [e], r) && r !in up ==>
                  IsLast(history, r) && r !in rows && NoRoom(rows, r, cap))
  {
    LastStep(history, e, r);
    UpsertMeaning(rows, e.user, e.item, e.at);
  }

  lemma LastNotLater(history: seq<Event>, e: Event, r: Row)
    requires e.Access? && IsLast(history, r) && AccessesNotBack(history + [e])
    ensures r.at <= e.at
  {
    var i: nat :| LastAccess(history, i) && Access(r.user, r.item, r.at) == history[i];
    var h := history + [e];
    assert h[i] == history[i] && h[|history|] == e;
  }

  lemma MissingOlder(history: seq<Event>, e: Event, cap: nat, rows: seq<Row>, r: Row)
    requires Table(rows) && e.Access? && AccessesNotBack(history + [e]) && IsLast(history, r) && NoRoom(rows, r, cap)
    ensures forall k :: k in Upsert(rows, e.user, e.item, e.at) && k.user == r.user ==> k.at >= r.at
  {
    LastNotLater(history, e, r);
    UpsertMeaning(rows, e.user, e.item, e.at);
  }

  /** The rows a prune keeps are not older than those it deletes. */
  lemma PrunedOlder(rows: seq<Row>, user: nat, cap: nat, listing: seq<Row>)
    requires Table(rows) && MayList(rows, user, listing)
    ensures forall r :: r in PruneBy(rows, listing, cap) ==> r in rows
    ensures forall r :: r in rows && r !in PruneBy(rows, listing, cap) ==>
              r.user == user && |OfUser(PruneBy(rows, listing, cap), user)| == cap
    ensures forall r, k :: r in rows && r !in PruneBy(rows, listing, cap) && k in PruneBy(rows, listing, cap) ==>
              k.user == user ==> k.at >= r.at
  {
    var rows' := PruneBy(rows, listing, cap);
    var top, gone := Take(cap, listing), Drop(cap, listing);
    assert listing == top + gone;
    MayListRows(rows, user, listing);
    PruneByOfUser(rows, user, listing, cap, user);
    forall r, k | r in gone && k in rows' && k.user == user ensures k.at >= r.at {
      assert k in OfUser(rows', user);
      SameMembers(OfUser(rows', user), top, k);
      var i :| 0 <= i < |top| && top[i] == k;
      var j :| 0 <= j < |gone| && gone[j] == r;
      assert listing[i] == k && listing[|top| + j] == r;
    }
  }

  lemma RefreshRecent(history: seq<Event>, e: Event, cap: nat, rows: seq<Row>)
    requires Table(rows) && MostRecent(history, cap, rows) && e.Access? && AccessesNotBack(history + [e])
    requires HasKey(rows, e.user, e.item)
    ensures MostRecent(history + [e], cap, Upsert(rows, e.user, e.item, e.at))
  {
    var up := Upsert(rows, e.user, e.item, e.at);
    forall r ensures r in up ==> IsLast(history + [e], r) {
      UpsertRecent(history, e, cap, rows, r);
    }
    forall r | IsLast(history + [e], r) && r !in up ensures NoRoom(up, r, cap) {
      UpsertRecent(history, e, cap, rows, r);
      MissingOlder(history, e, cap, rows, r);
      UpsertCount(rows, e.user, e.item, e.at, r.user);
    }
  }

  /** What was missing stays without room after an insert and its prune. */
  lemma MissingStays(history: seq<Event>, e: Event, cap: nat, rows: seq<Row>, listing: seq<Row>, r: Row)
    requires Table(rows) && e.Access? && AccessesNotBack(history + [e]) && IsLast(history, r) && NoRoom(rows, r, cap)
    requires !HasKey(rows, e.user, e.item) && MayList(Upsert(rows, e.user, e.item, e.at), e.user, listing)
    ensures NoRoom(PruneBy(Upsert(rows, e.user, e.item, e.at), listing, cap), r, cap)
  {
    var up := Upsert(rows, e.user, e.item, e.at);
    UpsertTable(rows, e.user, e.item, e.at);
    MissingOlder(history, e, cap, rows, r);
    UpsertCount(rows, e.user, e.item, e.at, r.user);
    PruneByOfUser(up, e.user, listing, cap, r.user);
    SameLength(listing, OfUser(up, e.user));
  }

  lemma InsertRecent(history: seq<Event>, e: Event, cap: nat, rows: seq<Row>, listing: seq<Row>)
    requires Table(rows) && MostRecent(history, cap, rows) && e.Access? && AccessesNotBack(history + [e])
    requires !HasKey(rows, e.user, e.item) && MayList(Upsert(rows, e.user, e.item, e.at), e.user, listing)
    ensures MostRecent(history + [e], cap, PruneBy(Upsert(rows, e.user, e.item, e.at), listing, cap))
  {
    var up := Upsert(rows, e.user, e.item, e.at);
    var rows' := PruneBy(up, listing, cap);
    UpsertTable(rows, e.user, e.item, e.at);
    PrunedOlder(up, e.user, cap, listing);
    forall r | r in rows' ensures IsLast(history + [e], r) {
      UpsertRecent(history, e, cap, rows, r);
    }
    forall r | IsLast(history + [e], r) && r !in rows' ensures NoRoom(rows', r, cap) {
      UpsertRecent(history, e, cap, rows, r);
      if r !in up {
        MissingStays(history, e, cap, rows, listing, r);
      }
    }
  }

  lemma StepWithin(rows: seq<Row>, e: Event, cap: nat, rows': seq<Row>)
    requires Table(rows) && WithinCap(rows, cap) && e.Access? && MayStep(rows, e, cap, rows')
    ensures Table(rows') && WithinCap(rows', cap)
  {
    var up := Upsert(rows, e.user, e.item, e.at);
    UpsertTable(rows, e.user, e.item, e.at);
    if HasKey(rows, e.user, e.item) {
      forall u: nat ensures |OfUser(up, u)| <= cap {
        UpsertCount(rows, e.user, e.item, e.at, u);
      }
    } else {
      var listing :| MayList(up, e.user, listing) && rows' == PruneBy(up, listing, cap);
      FilterTable(NotIn(Drop(cap, listing)), up);
      forall u: nat ensures |OfUser(rows', u)| <= cap {
        UpsertCount(rows, e.user, e.item, e.at, u);
        PruneByOfUser(up, e.user, listing, cap, u);
      }
    }
  }

  lemma StepRecent(history: seq<Event>, e: Event, cap: nat, rows: seq<Row>, rows': seq<Row>)
    requires Table(rows) && MostRecent(history, cap, rows) && e.Access? && AccessesNotBack(history + [e])
    requires MayStep(rows, e, cap, rows')
    ensures MostRecent(history + [e], cap, rows')
  {
    if HasKey(rows, e.user, e.item) {
      RefreshRecent(history, e, cap, rows);
    } else {
      var up := Upsert(rows, e.user, e.item, e.at);
      var listing :| MayList(up, e.user, listing) && rows' == PruneBy(up, listing, cap);
      InsertRecent(history, e, cap, rows, listing);
    }
  }

  lemma NotBackPrefix(history: seq<Event>, n: nat)
    requires AccessesNotBack(history) && n <= |history|
    ensures AccessesNotBack(history[..n])
  {
  }

  /** A table the recorder may leave: within the cap, and the most recent accesses. */
  ghost predicate RecentRows(history: seq<Event>, cap: nat, rows: seq<Row>) {
    Table(rows) && WithinCap(rows, cap) && MostRecent(history, cap, rows)
  }

  lemma StepRecentRows(history: seq<Event>, e: Event, cap: nat, rows: seq<Row>, rows': seq<Row>)
    requires AccessesNotBack(history + [e]) && e.Access?
    requires RecentRows(history, cap, rows) && MayStep(rows, e, cap, rows')
    ensures RecentRows(history + [e], cap, rows')
  {
    StepWithin(rows, e, cap, rows');
    StepRecent(history, e, cap, rows, rows');
  }

  /**
   However the database breaks ties, after any accesses whose times do not go back every row
   is the last access of its item, nobody has more than `cap` rows, and a last access is
   missing only where `cap` others of its user are as recent.
   */
  lemma {:induction false} EveryRunRecent(history: seq<Event>, cap: nat, tables: seq<seq<Row>>)
    requires AccessesNotBack(history) && MayRun(history, cap, tables)
    ensures RecentRows(history, cap, tables[|history|])
    decreases |history|
  {
    if history == [] {
      EmptyRecent(cap);
    } else {
      var n := |history| - 1;
      NotBackPrefix(history, n);
      EveryRunRecent(history[..n], cap, tables[..n + 1]);
      LastSnoc(history);
      StepRecentRows(history[..n], history[n], cap, tables[n], tables[n + 1]);
    }
  }
}
