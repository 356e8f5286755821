/**
 The photos timeline over the drives a caller may see, newest first. The first query shape
 sorts the media of all accessible drives; the second takes the newest `limit` of each
 drive (CROSS JOIN LATERAL) and merges those. Times are microseconds since the epoch.
 */
module PhotosTimeline {
  import opened Sequences
  import opened Ordering
  import opened Strings
  import opened Wrappers

  datatype File = File(id: nat, drive: nat, trashed: bool, mime: string, takenAt: int)

  datatype Subject = User(id: nat) | Group(id: nat)
  datatype Drive = Drive(id: nat, inPhotoIndex: bool)
  datatype Grant = Grant(subject: Subject, drive: nat, expiresAt: Option<int>)

  /** A grant counts for a caller directly or through one of the caller's groups, until it expires. */
  predicate Grants(g: Grant, drive: nat, caller: nat, groups: set<nat>, now: int) {
    && g.drive == drive
    && (match g.subject case User(u) => u == caller case Group(x) => x in groups)
    && (g.expiresAt.None? || g.expiresAt.value > now)
  }

  /** The grants join: a drive once for every grant that reaches it. */
  function Accessible(drives: seq<Drive>, grants: seq<Grant>, caller: nat, groups: set<nat>, now: int): seq<nat> {
    if drives == [] then []
    else
      var d := drives[0];
      var matching := Filter((g: Grant) => Grants(g, d.id, caller, groups, now), grants);
      (if d.inPhotoIndex then seq(|matching|, _ => d.id) else []) + Accessible(drives[1..], grants, caller, groups, now)
  }

  predicate Eligible(before: Option<int>, f: File) {
    && !f.trashed
    && (StartsWith(f.mime, "image/") || StartsWith(f.mime, "video/"))
    && (before.None? || f.takenAt < before.value)
  }

  /** ORDER BY media_sort_date DESC. */
  function NewestFirst(): (File, File) -> bool {
    (a: File, b: File) => a.takenAt > b.takenAt
  }

  /** WHERE drive_id IN (accessible): a repeated drive changes nothing. */
  function InDrives(accessible: seq<nat>, before: Option<int>): File -> bool {
    (f: File) => f.drive in accessible && Eligible(before, f)
  }

  function InDrive(drive: nat, before: Option<int>): File -> bool {
    (f: File) => f.drive == drive && Eligible(before, f)
  }

  function OldPage(files: seq<File>, accessible: seq<nat>, before: Option<int>, limit: nat): seq<File> {
    Take(limit, OrderBy(NewestFirst(), Filter(InDrives(accessible, before), files)))
  }

  /** The rows of each row of the accessible CTE: a repeated drive repeats its rows. */
  function PerDrive(files: seq<File>, accessible: seq<nat>, before: Option<int>): (r: seq<seq<File>>)
    ensures |r| == |accessible|
  {
    if accessible == [] then []
    else [Filter(InDrive(accessible[0], before), files)] + PerDrive(files, accessible[1..], before)
  }

  function NewPage(files: seq<File>, accessible: seq<nat>, before: Option<int>, limit: nat): seq<File> {
    Take(limit, OrderBy(NewestFirst(), Flatten(TopEach(NewestFirst(), limit, PerDrive(files, accessible, before)))))
  }

  /** Files are rows of a table with a key, and capture dates of visible media are distinct. */
  ghost predicate Valid(files: seq<File>, accessible: seq<nat>) {
    && Distinct(files)
    && forall a, b ::
         a in files && b in files && a != b && InDrives(accessible, None)(a) && InDrives(accessible, None)(b) ==>
           a.takenAt != b.takenAt
  }

  /** Every drive that has something to show was reached by one grant only. */
  ghost predicate NoRepeatedShow(files: seq<File>, accessible: seq<nat>, before: Option<int>) {
    forall f :: f in files && Eligible(before, f) ==> multiset(accessible)[f.drive] <= 1
  }

  // ----- the per-drive query against the global one

  /** A visible file is in the lateral join once for every time its drive is accessible. */
  lemma {:induction false} PerDriveCount(files: seq<File>, accessible: seq<nat>, before: Option<int>, f: File)
    requires Distinct(files)
    ensures multiset(Flatten(PerDrive(files, accessible, before)))[f]
         == if f in files && Eligible(before, f) then multiset(accessible)[f.drive] else 0
  {
    if accessible != [] {
      var d: nat, rest: seq<nat> := accessible[0], accessible[1..];
      PerDriveCount(files, rest, before, f);
      InDriveCount(files, d, before, f);
      HeadCount(accessible, f.drive);
      TailAppend([Filter(InDrive(d, before), files)], PerDrive(files, rest, before));
    }
  }

  lemma InDriveCount(files: seq<File>, d: nat, before: Option<int>, f: File)
    requires Distinct(files)
    ensures multiset(Filter(InDrive(d, before), files))[f] ==
            if f in files && Eligible(before, f) && f.drive == d then 1 else 0
  {
    FilterDistinct(InDrive(d, before), files);
    DistinctCounts(Filter(InDrive(d, before), files));
  }

  lemma HeadCount(s: seq<nat>, x: nat)
    requires s != []
    ensures multiset(s)[x] == multiset(s[1..])[x] + if s[0] == x then 1 else 0
  {
    assert s == [s[0]] + s[1..];
  }

  lemma SameRows(files: seq<File>, accessible: seq<nat>, before: Option<int>)
    requires Distinct(files) && NoRepeatedShow(files, accessible, before)
    ensures multiset(Flatten(PerDrive(files, accessible, before))) ==
            multiset(Filter(InDrives(accessible, before), files))
  {
    var parts, rows := Flatten(PerDrive(files, accessible, before)), Filter(InDrives(accessible, before), files);
    FilterDistinct(InDrives(accessible, before), files);
    DistinctCounts(rows);
    forall f ensures multiset(parts)[f] == multiset(rows)[f] {
      PerDriveCount(files, accessible, before, f);
      SameRow(files, accessible, before, f);
    }
  }

  lemma SameRow(files: seq<File>, accessible: seq<nat>, before: Option<int>, f: File)
    requires NoRepeatedShow(files, accessible, before)
    ensures (if f in files && Eligible(before, f) then multiset(accessible)[f.drive] else 0)
         == if f in Filter(InDrives(accessible, before), files) then 1 else 0
  {
    assert f.drive in accessible <==> f.drive in multiset(accessible);
  }

  lemma VisibleStrict(files: seq<File>, accessible: seq<nat>, before: Option<int>)
    requires Valid(files, accessible)
    ensures Distinct(Filter(InDrives(accessible, before), files))
    ensures StrictOrderOn(NewestFirst(), Elements(Filter(InDrives(accessible, before), files)))
  {
    FilterDistinct(InDrives(accessible, before), files);
  }

  lemma PagesAgree(files: seq<File>, accessible: seq<nat>, before: Option<int>, limit: nat)
    requires Valid(files, accessible) && NoRepeatedShow(files, accessible, before)
    ensures NewPage(files, accessible, before, limit) == OldPage(files, accessible, before, limit)
  {
    var rows := Filter(InDrives(accessible, before), files);
    var parts := PerDrive(files, accessible, before);
    VisibleStrict(files, accessible, before);
    SameRows(files, accessible, before);
    DistinctCounts(rows);
    CountsDistinct(Flatten(parts));
    forall f ensures f in rows <==> f in Flatten(parts) {
      SameMembers(rows, Flatten(parts), f);
    }
    assert Elements(rows) == Elements(Flatten(parts));
    TopOfMany(NewestFirst(), limit, parts);
    OrderByPermutation(NewestFirst(), rows, Flatten(parts));
  }

  lemma {:induction false} TopEachAll(limit: nat, parts: seq<seq<File>>)
    requires forall i :: 0 <= i < |parts| ==> |parts[i]| <= limit
    ensures multiset(Flatten(TopEach(NewestFirst(), limit, parts))) == multiset(Flatten(parts))
  {
    if parts != [] {
      var tops := TopEach(NewestFirst(), limit, parts);
      TopEachAll(limit, parts[1..]);
      OrderByRows(NewestFirst(), parts[0]);
      assert tops[1..] == TopEach(NewestFirst(), limit, parts[1..]);
      assert tops[0] == OrderBy(NewestFirst(), parts[0]);
      assert multiset(Flatten(tops)) == multiset(tops[0]) + multiset(Flatten(tops[1..]));
      assert multiset(Flatten(parts)) == multiset(parts[0]) + multiset(Flatten(parts[1..]));
    }
  }

  lemma {:induction false} PerDriveSizes(files: seq<File>, accessible: seq<nat>, before: Option<int>)
    ensures forall i :: 0 <= i < |accessible| ==> |PerDrive(files, accessible, before)[i]| <= |files|
  {
    if accessible != [] {
      PerDriveSizes(files, accessible[1..], before);
    }
  }

  lemma WideTop(limit: nat, parts: seq<seq<File>>)
    requires forall i :: 0 <= i < |parts| ==> |parts[i]| <= limit
    requires |Flatten(parts)| <= limit
    ensures multiset(Take(limit, OrderBy(NewestFirst(), Flatten(TopEach(NewestFirst(), limit, parts))))) ==
            multiset(Flatten(parts))
  {
    TopEachAll(limit, parts);
    var tops := Flatten(TopEach(NewestFirst(), limit, parts));
    assert |tops| == |multiset(tops)| == |multiset(Flatten(parts))| == |Flatten(parts)|;
    OrderByRows(NewestFirst(), tops);
    assert Take(limit, OrderBy(NewestFirst(), tops)) == OrderBy(NewestFirst(), tops);
  }

  /** With a limit nothing reaches, the new page holds the whole lateral join. */
  lemma WideNewPage(files: seq<File>, accessible: seq<nat>, before: Option<int>, limit: nat)
    requires limit >= |files| && limit >= |Flatten(PerDrive(files, accessible, before))|
    ensures multiset(NewPage(files, accessible, before, limit)) ==
            multiset(Flatten(PerDrive(files, accessible, before)))
  {
    PerDriveSizes(files, accessible, before);
    WideTop(limit, PerDrive(files, accessible, before));
  }

  ghost predicate AgreeAt(files: seq<File>, accessible: seq<nat>, before: Option<int>, limit: nat) {
    NewPage(files, accessible, before, limit) == OldPage(files, accessible, before, limit)
  }

  /**
   The rewrite is right for every limit exactly when no drive with something to show is
   accessible twice. A user grant and a group grant on one drive break it.
   */
  lemma PagesAgreeIff(files: seq<File>, accessible: seq<nat>, before: Option<int>)
    requires Valid(files, accessible)
    ensures NoRepeatedShow(files, accessible, before) <==>
            forall limit: nat :: AgreeAt(files, accessible, before, limit)
  {
    if NoRepeatedShow(files, accessible, before) {
      forall limit: nat ensures AgreeAt(files, accessible, before, limit) {
        PagesAgree(files, accessible, before, limit);
      }
    } else {
      var f :| f in files && Eligible(before, f) && multiset(accessible)[f.drive] > 1;
      var limit := |files| + |Flatten(PerDrive(files, accessible, before))|;
      WideNewPage(files, accessible, before, limit);
      PerDriveCount(files, accessible, before, f);
      OldPageOnce(files, accessible, before, limit, f);
      assert !AgreeAt(files, accessible, before, limit);
    }
  }

  /** The global query shows a file once. */
  lemma OldPageOnce(files: seq<File>, accessible: seq<nat>, before: Option<int>, limit: nat, f: File)
    requires Distinct(files) && limit >= |files|
    ensures multiset(OldPage(files, accessible, before, limit))[f] <= 1
  {
    var rows := Filter(InDrives(accessible, before), files);
    FilterDistinct(InDrives(accessible, before), files);
    DistinctCounts(rows);
    OrderByRows(NewestFirst(), rows);
    assert OldPage(files, accessible, before, limit) == OrderBy(NewestFirst(), rows);
    assert multiset(rows)[f] <= 1;
  }

  /** The grants join does return a drive twice: one direct grant, one through a group. */
  lemma TwoGrantsRepeatDrive(drive: nat, caller: nat, group: nat, now: int)
    ensures Accessible([Drive(drive, true)], [Grant(User(caller), drive, None), Grant(Group(group), drive, None)],
                       caller, {group}, now) == [drive, drive]
  {
    var d, grants := Drive(drive, true), [Grant(User(caller), drive, None), Grant(Group(group), drive, None)];
    var p := (g: Grant) => Grants(g, drive, caller, {group}, now);
    FilterAll(p, grants);
    assert [d][1..] == [];
    assert Accessible([], grants, caller, {group}, now) == [];
    assert Accessible([d], grants, caller, {group}, now) == seq(2, _ => drive) + [];
  }

  /** The join reaches exactly the indexed drives with an unexpired grant to the caller or to one of their groups. */
  lemma {:induction false} AccessibleIff(
    drives: seq<Drive>, grants: seq<Grant>, caller: nat, groups: set<nat>, now: int, id: nat
  )
    ensures id in Accessible(drives, grants, caller, groups, now) <==>
            && Drive(id, true) in drives
            && exists g :: g in grants && g.drive == id && (g.expiresAt == None || g.expiresAt.value > now)
                           && (g.subject == User(caller) || (g.subject.Group? && g.subject.id in groups))
  {
    if drives != [] {
      var d := drives[0];
      var p := (g: Grant) => Grants(g, d.id, caller, groups, now);
      var rest := Accessible(drives[1..], grants, caller, groups, now);
      AccessibleIff(drives[1..], grants, caller, groups, now, id);
      FilterFinds(p, grants);
      var own := if d.inPhotoIndex then seq(|Filter(p, grants)|, _ => d.id) else [];
      assert Accessible(drives, grants, caller, groups, now) == own + rest;
      assert id in own <==> d == Drive(id, true) && Filter(p, grants) != [] by {
        if d == Drive(id, true) && Filter(p, grants) != [] {
          assert own[0] == id;
        }
      }
    }
  }

  lemma FilterFinds<T>(p: T -> bool, s: seq<T>)
    ensures Filter(p, s) != [] <==> exists x :: x in s && p(x)
  {
    if Filter(p, s) != [] {
      assert Filter(p, s)[0] in Filter(p, s);
    }
  }

  // ----- walking the timeline

  const SECOND: int := 1_000_000

  /** EXTRACT(EPOCH ..)::bigint: the nearest whole second, halves away from zero. */
  function EpochSeconds(us: int): int {
    if us >= 0 then (us + SECOND / 2) / SECOND else -((-us + SECOND / 2) / SECOND)
  }

  /** The cursor a client sends back for a last row taken at `us`. */
  function CursorTime(us: int): int { EpochSeconds(us) * SECOND }

  /** The whole timeline. */
  function Timeline(files: seq<File>, accessible: seq<nat>): seq<File> {
    OrderBy(NewestFirst(), Filter(InDrives(accessible, None), files))
  }

  /** The timeline holds exactly the images and videos of the accessible drives that are not in the trash, each once. */
  lemma TimelineHolds(files: seq<File>, accessible: seq<nat>, f: File)
    requires Distinct(files)
    ensures f in Timeline(files, accessible) <==>
            f in files && f.drive in accessible && !f.trashed && ("image/" <= f.mime || "video/" <= f.mime)
    ensures Distinct(Timeline(files, accessible))
  {
    var shown := Filter(InDrives(accessible, None), files);
    FilterDistinct(InDrives(accessible, None), files);
    OrderByRows(NewestFirst(), shown);
    DistinctCounts(shown);
    CountsDistinct(Timeline(files, accessible));
    SameMembers(shown, Timeline(files, accessible), f);
  }

  /** The timeline runs from the newest to the oldest. */
  lemma TimelineNewestFirst(files: seq<File>, accessible: seq<nat>, i: nat, j: nat)
    requires Valid(files, accessible) && i < j < |Timeline(files, accessible)|
    ensures Timeline(files, accessible)[i].takenAt > Timeline(files, accessible)[j].takenAt
  {
    TimelineSorted(files, accessible);
    assert NewestFirst()(Timeline(files, accessible)[i], Timeline(files, accessible)[j]);
  }

  lemma TimelineSorted(files: seq<File>, accessible: seq<nat>)
    requires Valid(files, accessible)
    ensures SortedBy(NewestFirst(), Timeline(files, accessible))
    ensures forall f :: f in Timeline(files, accessible) <==> f in files && InDrives(accessible, None)(f)
  {
    var rows := Filter(InDrives(accessible, None), files);
    VisibleStrict(files, accessible, None);
    OrderBySorted(NewestFirst(), rows, Elements(rows));
    OrderByRows(NewestFirst(), rows);
  }

  function TakenBefore(c: int): File -> bool { (f: File) => f.takenAt < c }

  /** A cursor selects from the timeline by date alone. */
  lemma PageFromTimeline(files: seq<File>, accessible: seq<nat>, c: int, limit: nat)
    requires Valid(files, accessible)
    ensures OldPage(files, accessible, Some(c), limit) ==
            Take(limit, Filter(TakenBefore(c), Timeline(files, accessible)))
  {
    var rows := Filter(InDrives(accessible, None), files);
    VisibleStrict(files, accessible, None);
    FilterOrderBy(NewestFirst(), TakenBefore(c), rows);
    FilterFilter(TakenBefore(c), InDrives(accessible, None), InDrives(accessible, Some(c)), files);
  }

  /**
   A cursor `c` made from row `m - 1` continues the timeline at row `m` exactly when it does
   not lie after that row and no photo lies between the two.
   */
  lemma CursorExact(t: seq<File>, m: nat, c: int)
    requires SortedBy(NewestFirst(), t) && 0 < m <= |t|
    ensures Filter(TakenBefore(c), t) == t[m..] <==>
              c <= t[m - 1].takenAt && forall f :: f in t ==> !(c <= f.takenAt < t[m - 1].takenAt)
  {
    var last := t[m - 1];
    forall f | f in t[..m] ensures f.takenAt >= last.takenAt {
    }
    forall f | f in t[m..] ensures f.takenAt < last.takenAt {
      var j :| m <= j < |t| && t[j] == f;
      assert NewestFirst()(t[m - 1], t[j]);
    }
    if c <= last.takenAt && forall f :: f in t ==> !(c <= f.takenAt < last.takenAt) {
      FilterSuffix(TakenBefore(c), t, m);
    } else if c > last.takenAt {
      assert last in Filter(TakenBefore(c), t) && last !in t[m..];
    } else {
      var f :| f in t && c <= f.takenAt < last.takenAt;
      assert f !in t[..m] && f in t[m..];
      assert f !in Filter(TakenBefore(c), t);
    }
  }

  /** The fraction of a second a time rounds down on. */
  predicate RoundsDown(us: int) {
    if us >= 0 then us % SECOND < SECOND / 2 else us % SECOND <= SECOND / 2
  }

  lemma CursorRounds(us: int)
    ensures CursorTime(us) == us - us % SECOND + if RoundsDown(us) then 0 else SECOND
  {
    var q, r := us / SECOND, us % SECOND;
    assert us == q * SECOND + r;
    if us >= 0 {
      assert (us + SECOND / 2) / SECOND == if r < SECOND / 2 then q else q + 1;
    } else {
      assert (-us + SECOND / 2) / SECOND == if r <= SECOND / 2 then -q else -q - 1;
    }
  }

  /**
   For any capture dates: the walk continues right after row `m - 1` exactly when that row's
   time rounds down and no photo lies earlier in the same second. Otherwise the next page
   brings the row again (it rounded up) or leaves photos of that second out.
   */
  lemma SecondsCursorExact(t: seq<File>, m: nat)
    requires SortedBy(NewestFirst(), t) && 0 < m <= |t|
    ensures var last := t[m - 1].takenAt;
            Filter(TakenBefore(CursorTime(last)), t) == t[m..] <==>
              RoundsDown(last) && forall f :: f in t ==> !(last - last % SECOND <= f.takenAt < last)
  {
    CursorRounds(t[m - 1].takenAt);
    CursorExact(t, m, CursorTime(t[m - 1].takenAt));
  }

  /** Row `m - 1` makes a cursor that goes on at row `m`. */
  ghost predicate Boundary(t: seq<File>, m: nat)
    requires 0 < m <= |t|
  {
    var last := t[m - 1].takenAt;
    RoundsDown(last) && forall f :: f in t ==> !(last - last % SECOND <= f.takenAt < last)
  }

  /** Whole-second times have good cursors everywhere. */
  lemma WholeSeconds(t: seq<File>, m: nat)
    requires 0 < m <= |t| && t[m - 1].takenAt % SECOND == 0
    ensures Boundary(t, m)
  {
  }

  /** Half a second after the full one, a photo comes again on the page after it. */
  lemma LastRowRepeats(id: nat)
    ensures var f := File(id, 0, false, "image/png", 500_000); OldPage([f], [0], Some(CursorTime(f.takenAt)), 1) == [f]
  {
    var f := File(id, 0, false, "image/png", 500_000);
    CursorRounds(f.takenAt);
    assert StartsWith(f.mime, "image/");
    FilterAll(InDrives([0], Some(CursorTime(f.takenAt))), [f]);
    assert [f][1..] == [];
    assert OrderBy(NewestFirst(), [f]) == Insert(NewestFirst(), f, []);
  }

  // ----- walking pages

  /** The query behind a walk: what it answers for a cursor. */
  type Pager = Option<int> -> seq<File>

  /** The query pages through the timeline by date. */
  ghost predicate Pages(page: Pager, t: seq<File>, limit: nat) {
    && page(None) == Take(limit, t)
    && forall c :: page(Some(c)) == Take(limit, Filter(TakenBefore(c), t))
  }

  datatype Walked = Walked(rows: seq<File>, before: Option<int>)

  /** A walk after some requests; an empty answer ends it, that is, changes nothing any more. */
  function WalkBy(page: Pager, pages: nat): Walked {
    if pages == 0 then Walked([], None)
    else
      var w := WalkBy(page, pages - 1);
      var rows := page(w.before);
      if rows == [] then w else Walked(w.rows + rows, Some(CursorTime(rows[|rows| - 1].takenAt)))
  }

  lemma {:induction false} WalkEnded(page: Pager, i: nat, pages: nat)
    requires i <= pages && page(WalkBy(page, i).before) == []
    ensures WalkBy(page, pages) == WalkBy(page, i)
  {
    if i < pages {
      WalkEnded(page, i, pages - 1);
    }
  }

  function PagerOf(files: seq<File>, accessible: seq<nat>, newShape: bool, limit: nat): Pager {
    (before: Option<int>) =>
      if newShape then NewPage(files, accessible, before, limit) else OldPage(files, accessible, before, limit)
  }

  function IdOf(): File -> nat {
    (f: File) => f.id
  }

  method WalkPages(page: Pager, pages: nat) returns (ids: seq<nat>)
    ensures ids == Map(IdOf(), WalkBy(page, pages).rows)
  {
    var before: Option<int> := None;
    ids := [];
    var i := 0;
    while i < pages
      invariant i <= pages && before == WalkBy(page, i).before && ids == Map(IdOf(), WalkBy(page, i).rows)
    {
      var rows := page(before);
      if rows == [] {
        WalkEnded(page, i, pages);
        break;
      }
      MapAppend(IdOf(), WalkBy(page, i).rows, rows);
      before := Some(CursorTime(rows[|rows| - 1].takenAt));
      ids := ids + Map(IdOf(), rows);
      i := i + 1;
    }
  }

  /** Asks for `pages` pages of either shape, whatever the drives and the capture dates. */
  method Walk(files: seq<File>, accessible: seq<nat>, limit: nat, pages: nat, newShape: bool) returns (ids: seq<nat>)
    ensures ids == Map(IdOf(), WalkBy(PagerOf(files, accessible, newShape, limit), pages).rows)
  {
    ids := WalkPages(PagerOf(files, accessible, newShape, limit), pages);
  }

  // ----- when a walk is the timeline

  /** How far `i` pages reach into `n` rows. */
  function Reached(i: nat, limit: nat, n: nat): (m: nat)
    ensures m <= n
  {
    if i == 0 then 0 else if Reached(i - 1, limit, n) + limit <= n then Reached(i - 1, limit, n) + limit else n
  }

  lemma {:induction false} ReachedIs(i: nat, limit: nat, n: nat)
    ensures Reached(i, limit, n) == if i * limit <= n then i * limit else n
  {
    if i > 0 {
      ReachedIs(i - 1, limit, n);
      assert i * limit == (i - 1) * limit + limit;
    }
  }

  lemma TakeReached(i: nat, limit: nat, t: seq<File>)
    ensures Take(i * limit, t) == t[..Reached(i, limit, |t|)]
  {
    ReachedIs(i, limit, |t|);
  }

  /** Where a walk stands after `m` photos of a timeline. */
  function Position(t: seq<File>, m: nat): Option<int>
    requires m <= |t|
  {
    if m == 0 then None else Some(CursorTime(t[m - 1].takenAt))
  }

  /** The page asked for after `m` photos goes on at the next one. */
  ghost predicate GoesOn(page: Pager, t: seq<File>, limit: nat, m: nat) {
    m <= |t| && page(Position(t, m)) == Take(limit, t[m..])
  }

  /** The walk has the first `m` photos behind it after `i` pages. */
  ghost predicate OnTrack(page: Pager, t: seq<File>, i: nat, m: nat) {
    m <= |t| && WalkBy(page, i) == Walked(t[..m], Position(t, m))
  }

  function Further(m: nat, limit: nat, n: nat): nat {
    if m + limit <= n then m + limit else n
  }

  lemma TrackStep(page: Pager, t: seq<File>, limit: nat, i: nat, m: nat)
    requires OnTrack(page, t, i, m) && GoesOn(page, t, limit, m)
    ensures OnTrack(page, t, i + 1, Further(m, limit, |t|))
  {
    var rows := page(Position(t, m));
    var next := m + |rows|;
    assert rows == t[m..next];
    assert t[..m] + t[m..next] == t[..next];
  }

  lemma GoodCursor(page: Pager, t: seq<File>, limit: nat, m: nat)
    requires Pages(page, t, limit) && SortedBy(NewestFirst(), t) && m <= |t| && (m > 0 ==> Boundary(t, m))
    ensures GoesOn(page, t, limit, m)
  {
    if m > 0 {
      SecondsCursorExact(t, m);
    } else {
      assert t[0..] == t;
    }
  }

  /** A page that goes on at the right row has a good cursor behind it. */
  lemma RightPage(page: Pager, t: seq<File>, limit: nat, m: nat)
    requires Pages(page, t, limit) && SortedBy(NewestFirst(), t) && 0 < m <= |t| && limit > 0
    requires GoesOn(page, t, limit, m)
    ensures Boundary(t, m)
  {
    var c := CursorTime(t[m - 1].takenAt);
    var j := FirstBefore(t, c);
    FilterSuffix(TakenBefore(c), t, j);
    assert Take(limit, t[j..]) == Take(limit, t[m..]);
    if j < |t| {
      assert Take(limit, t[j..])[0] == t[j];
    }
    if m < |t| {
      assert Take(limit, t[m..])[0] == t[m];
    }
    SameRowSamePlace(t, j, m);
    SecondsCursorExact(t, m);
  }

  lemma SameRowSamePlace(t: seq<File>, j: nat, m: nat)
    requires SortedBy(NewestFirst(), t) && j <= |t| && m <= |t|
    requires (j < |t| <==> m < |t|) && (j < |t| ==> t[j] == t[m])
    ensures j == m
  {
  }

  lemma {:induction false} FirstBefore(t: seq<File>, c: int) returns (j: nat)
    requires SortedBy(NewestFirst(), t)
    ensures j <= |t| && (forall f :: f in t[..j] ==> f.takenAt >= c) && (forall f :: f in t[j..] ==> f.takenAt < c)
  {
    if t == [] {
      j := 0;
    } else if t[|t| - 1].takenAt >= c {
      j := |t|;
      forall f | f in t[..j] ensures f.takenAt >= c {
        var i :| 0 <= i < |t| && t[i] == f;
        assert i < |t| - 1 ==> NewestFirst()(t[i], t[|t| - 1]);
      }
    } else {
      var n := |t| - 1;
      j := FirstBefore(t[..n], c);
      assert t[..n][..j] == t[..j];
      assert t[j..] == t[..n][j..] + [t[n]];
    }
  }

  ghost predicate GoodBoundaries(t: seq<File>, limit: nat) {
    forall i: nat :: i > 0 && Reached(i, limit, |t|) > 0 ==> Boundary(t, Reached(i, limit, |t|))
  }

  ghost predicate WalkFits(page: Pager, t: seq<File>, limit: nat, pages: nat) {
    WalkBy(page, pages).rows == Take(pages * limit, t)
  }

  lemma {:induction false} GoodWalk(page: Pager, t: seq<File>, limit: nat, pages: nat)
    requires forall i: nat :: GoesOn(page, t, limit, Reached(i, limit, |t|))
    ensures OnTrack(page, t, pages, Reached(pages, limit, |t|))
  {
    if pages == 0 {
      assert t[..0] == [];
    } else {
      GoodWalk(page, t, limit, pages - 1);
      TrackStep(page, t, limit, pages - 1, Reached(pages - 1, limit, |t|));
    }
  }

  lemma {:induction false} FittingWalk(page: Pager, t: seq<File>, limit: nat, i: nat)
    requires forall pages: nat :: WalkFits(page, t, limit, pages)
    ensures OnTrack(page, t, i, Reached(i, limit, |t|)) && GoesOn(page, t, limit, Reached(i, limit, |t|))
  {
    if i == 0 {
      assert t[..0] == [];
    } else {
      FittingWalk(page, t, limit, i - 1);
      TrackStep(page, t, limit, i - 1, Reached(i - 1, limit, |t|));
    }
    assert WalkFits(page, t, limit, i + 1);
    FittingPage(page, t, limit, i, Reached(i, limit, |t|));
  }

  lemma FittingPage(page: Pager, t: seq<File>, limit: nat, i: nat, m: nat)
    requires m == Reached(i, limit, |t|) && OnTrack(page, t, i, m) && WalkFits(page, t, limit, i + 1)
    ensures GoesOn(page, t, limit, m)
  {
    var rows, next := page(Position(t, m)), Further(m, limit, |t|);
    TakeReached(i + 1, limit, t);
    assert t[..m] + rows == WalkBy(page, i + 1).rows;
    RestOf(t, m, next, rows);
  }

  lemma RestOf(t: seq<File>, m: nat, next: nat, rows: seq<File>)
    requires m <= next <= |t| && t[..m] + rows == t[..next]
    ensures rows == t[m..next] == t[m..][..next - m]
  {
    assert rows == (t[..m] + rows)[m..];
  }

  /**
   For each positive page size: any number of pages are the first rows of the timeline, none
   skipped or repeated, exactly when every page ends on a row with a good cursor.
   */
  lemma WalkIff(page: Pager, t: seq<File>, limit: nat)
    requires Pages(page, t, limit) && SortedBy(NewestFirst(), t) && limit > 0
    ensures (forall pages: nat :: WalkFits(page, t, limit, pages)) <==> GoodBoundaries(t, limit)
  {
    if GoodBoundaries(t, limit) {
      forall i: nat ensures GoesOn(page, t, limit, Reached(i, limit, |t|)) {
        GoodCursor(page, t, limit, Reached(i, limit, |t|));
      }
      forall pages: nat ensures WalkFits(page, t, limit, pages) {
        GoodWalk(page, t, limit, pages);
        TakeReached(pages, limit, t);
      }
    }
    if forall pages: nat :: WalkFits(page, t, limit, pages) {
      forall i: nat | i > 0 && Reached(i, limit, |t|) > 0 ensures Boundary(t, Reached(i, limit, |t|)) {
        FittingWalk(page, t, limit, i);
        RightPage(page, t, limit, Reached(i, limit, |t|));
      }
    }
  }

  /** Either shape pages through the timeline; the newer one if no drive with something to show repeats. */
  lemma ShapePages(files: seq<File>, accessible: seq<nat>, newShape: bool, limit: nat)
    requires Valid(files, accessible) && (newShape ==> NoRepeatedShow(files, accessible, None))
    ensures Pages(PagerOf(files, accessible, newShape, limit), Timeline(files, accessible), limit)
    ensures SortedBy(NewestFirst(), Timeline(files, accessible))
  {
    var page := PagerOf(files, accessible, newShape, limit);
    TimelineSorted(files, accessible);
    if newShape {
      PagesAgree(files, accessible, None, limit);
    }
    forall c ensures page(Some(c)) == Take(limit, Filter(TakenBefore(c), Timeline(files, accessible))) {
      PageFromTimeline(files, accessible, c, limit);
      if newShape {
        PagesAgree(files, accessible, Some(c), limit);
      }
    }
  }

  /** The walk of either shape over any files and drives. */
  lemma WalkExactIff(files: seq<File>, accessible: seq<nat>, newShape: bool, limit: nat)
    requires Valid(files, accessible) && (newShape ==> NoRepeatedShow(files, accessible, None)) && limit > 0
    ensures (forall pages: nat ::
               WalkFits(PagerOf(files, accessible, newShape, limit), Timeline(files, accessible), limit, pages)) <==>
            GoodBoundaries(Timeline(files, accessible), limit)
  {
    ShapePages(files, accessible, newShape, limit);
    WalkIff(PagerOf(files, accessible, newShape, limit), Timeline(files, accessible), limit);
  }
}
