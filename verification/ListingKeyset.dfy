/**
 The paged folder listing: subfolders and files of one parent, in name order (folders
 first) or newest first. The first query shape filters and sorts the whole union for every
 page; the second pushes the cursor and the limit into both branches of the union.
 */
module ListingKeyset {
  import opened Sequences
  import opened Ordering
  import opened Wrappers

  /** A row of either table. `sortStr` is the LOWER(name) column. */
  datatype Row = Row(isFolder: bool, id: nat, parent: nat, trashed: bool, sortStr: string, modifiedAt: int)

  datatype Cursor = Cursor(folderFirst: int, sortStr: string, modifiedAt: int, id: nat)

  function FolderFirst(r: Row): int { if r.isFolder then 0 else 1 }

  function CursorOf(r: Row): Cursor { Cursor(FolderFirst(r), r.sortStr, r.modifiedAt, r.id) }

  /** The two tables. `collate` is the database's collation, a strict order on strings. */
  datatype Store = Store(folders: seq<Row>, files: seq<Row>, collate: (string, string) -> bool) {

    /** Ids are primary keys of their table; a collation orders all strings. */
    ghost predicate Valid() {
      && (forall r :: r in folders ==> r.isFolder)
      && (forall r :: r in files ==> !r.isFolder)
      && UniqueIds(folders) && UniqueIds(files)
      && Collation(collate)
    }

    /** No folder and file of one parent share both modification time and id. */
    ghost predicate StampsDistinct(parent: nat) {
      forall d, f :: d in FolderBranch(parent) && f in FileBranch(parent) ==>
        d.modifiedAt != f.modifiedAt || d.id != f.id
    }

    function FolderBranch(parent: nat): seq<Row> {
      Filter((r: Row) => r.parent == parent && !r.trashed, folders)
    }

    function FileBranch(parent: nat): seq<Row> {
      Filter((r: Row) => r.parent == parent && !r.trashed, files)
    }

    /** ORDER BY folder_first, sort_str, id. */
    function NameOrder(): (Row, Row) -> bool {
      (a: Row, b: Row) =>
        || FolderFirst(a) < FolderFirst(b)
        || (FolderFirst(a) == FolderFirst(b) && NameThenId(a.sortStr, a.id, b.sortStr, b.id))
    }

    predicate NameThenId(s: string, i: nat, t: string, j: nat) {
      collate(s, t) || (s == t && i < j)
    }

    /** ORDER BY sort_str, id inside one branch. */
    function BranchOrder(): (Row, Row) -> bool {
      (a: Row, b: Row) => NameThenId(a.sortStr, a.id, b.sortStr, b.id)
    }

    /** The cursor condition applied outside the union. */
    predicate AfterName(cur: Option<Cursor>, r: Row) {
      match cur
      case None => true
      case Some(c) =>
        || FolderFirst(r) > c.folderFirst
        || (FolderFirst(r) == c.folderFirst && collate(c.sortStr, r.sortStr))
        || (FolderFirst(r) == c.folderFirst && c.sortStr == r.sortStr && r.id > c.id)
    }

    function Following(cur: Option<Cursor>): Row -> bool {
      (r: Row) => AfterName(cur, r)
    }

    function OldPageName(parent: nat, cur: Option<Cursor>, limit: nat): seq<Row> {
      Take(limit, OrderBy(NameOrder(), Filter(Following(cur), FolderBranch(parent) + FileBranch(parent))))
    }

    function InBranch(c: Cursor): Row -> bool {
      (r: Row) => NameThenId(c.sortStr, c.id, r.sortStr, r.id)
    }

    /** A branch cut by the row-value comparison (LOWER(name), id) > cursor. */
    function BranchAfter(branch: seq<Row>, c: Cursor): seq<Row> {
      Filter(InBranch(c), branch)
    }

    function NewPageName(parent: nat, cur: Option<Cursor>, limit: nat): seq<Row> {
      match cur
      case None =>
        Take(limit, OrderBy(NameOrder(),
          Take(limit, OrderBy(BranchOrder(), FolderBranch(parent))) +
          Take(limit, OrderBy(BranchOrder(), FileBranch(parent)))))
      case Some(c) =>
        if c.folderFirst == 0 then
          Take(limit, OrderBy(NameOrder(),
            Take(limit, OrderBy(BranchOrder(), BranchAfter(FolderBranch(parent), c))) +
            Take(limit, OrderBy(BranchOrder(), FileBranch(parent)))))
        else
          Take(limit, OrderBy(NameOrder(),
            Take(limit, OrderBy(BranchOrder(), BranchAfter(FileBranch(parent), c)))))
    }

    /** ORDER BY modified_at DESC, id DESC. */
    static function ModifiedOrder(): (Row, Row) -> bool {
      (a: Row, b: Row) => a.modifiedAt > b.modifiedAt || (a.modifiedAt == b.modifiedAt && a.id > b.id)
    }

    static predicate AfterModified(cur: Option<Cursor>, r: Row) {
      match cur
      case None => true
      case Some(c) => r.modifiedAt < c.modifiedAt || (r.modifiedAt == c.modifiedAt && r.id < c.id)
    }

    static function Older(cur: Option<Cursor>): Row -> bool {
      (r: Row) => AfterModified(cur, r)
    }

    function OldPageModified(parent: nat, cur: Option<Cursor>, limit: nat): seq<Row> {
      Take(limit, OrderBy(ModifiedOrder(), Filter(Older(cur), FolderBranch(parent) + FileBranch(parent))))
    }

    function NewPageModified(parent: nat, cur: Option<Cursor>, limit: nat): seq<Row> {
      var folders := Filter(Older(cur), FolderBranch(parent));
      var files := Filter(Older(cur), FileBranch(parent));
      Take(limit, OrderBy(ModifiedOrder(),
        Take(limit, OrderBy(ModifiedOrder(), folders)) + Take(limit, OrderBy(ModifiedOrder(), files))))
    }

    /** The query a drain sends for its next page. */
    function Page(newShape: bool, byModified: bool, parent: nat, cur: Option<Cursor>, limit: nat): seq<Row> {
      match (newShape, byModified)
      case (false, false) => OldPageName(parent, cur, limit)
      case (true, false) => NewPageName(parent, cur, limit)
      case (false, true) => OldPageModified(parent, cur, limit)
      case (true, true) => NewPageModified(parent, cur, limit)
    }

    function Order(byModified: bool): (Row, Row) -> bool {
      if byModified then ModifiedOrder() else NameOrder()
    }

    /** The rows a cursor leaves. */
    function After(byModified: bool, cur: Option<Cursor>): Row -> bool {
      if byModified then Older(cur) else Following(cur)
    }

    function Rest(byModified: bool, parent: nat, cur: Option<Cursor>): seq<Row> {
      Filter(After(byModified, cur), FolderBranch(parent) + FileBranch(parent))
    }

    /** The whole listing, in one go. */
    function Listing(byModified: bool, parent: nat): seq<Row> {
      OrderBy(Order(byModified), FolderBranch(parent) + FileBranch(parent))
    }
  }

  ghost predicate UniqueIds(rows: seq<Row>) {
    forall i, j :: 0 <= i < j < |rows| ==> rows[i].id != rows[j].id
  }

  // ----- the orders are strict on the rows of one parent

  lemma {:induction false} FilterUniqueIds(p: Row -> bool, s: seq<Row>)
    requires UniqueIds(s)
    ensures UniqueIds(Filter(p, s))
  {
    if s != [] {
      FilterUniqueIds(p, s[1..]);
      var r := Filter(p, s[1..]);
      forall j | 0 <= j < |r| ensures r[j].id != s[0].id {
        assert r[j] in s[1..];
      }
    }
  }

  lemma UnionDistinct(st: Store, parent: nat)
    requires st.Valid()
    ensures Distinct(st.FolderBranch(parent) + st.FileBranch(parent))
  {
    var p := (r: Row) => r.parent == parent && !r.trashed;
    FilterUniqueIds(p, st.folders);
    FilterUniqueIds(p, st.files);
    DistinctJoin(st.FolderBranch(parent), st.FileBranch(parent));
  }

  lemma SameIdSameRow(s: seq<Row>, a: Row, b: Row)
    requires UniqueIds(s) && a in s && b in s && a.id == b.id
    ensures a == b
  {
  }

  lemma NameOrderStrict(st: Store, s: seq<Row>)
    requires st.Valid()
    requires forall r :: r in s ==> r in st.folders + st.files
    ensures StrictOrderOn(st.NameOrder(), Elements(s))
  {
    forall a, b | a in s && b in s && a != b && FolderFirst(a) == FolderFirst(b) ensures a.id != b.id {
      if a.id == b.id {
        SameIdSameRow(if a.isFolder then st.folders else st.files, a, b);
      }
    }
  }

  lemma ModifiedOrderStrict(st: Store, parent: nat, s: seq<Row>)
    requires st.Valid() && st.StampsDistinct(parent)
    requires forall r :: r in s ==> r in st.FolderBranch(parent) + st.FileBranch(parent)
    ensures StrictOrderOn(Store.ModifiedOrder(), Elements(s))
  {
    forall a, b | a in s && b in s && a != b ensures a.modifiedAt != b.modifiedAt || a.id != b.id {
      if a.id == b.id && a.isFolder == b.isFolder {
        SameIdSameRow(if a.isFolder then st.folders else st.files, a, b);
      }
    }
  }

  // ----- the pushed-down page is the page

  /** For every store, parent, limit and row the cursor is taken from. */
  lemma NamePageEquivalence(st: Store, parent: nat, cur: Option<Cursor>, limit: nat)
    requires st.Valid()
    requires cur.Some? ==> exists r :: cur.value == CursorOf(r)
    ensures st.NewPageName(parent, cur, limit) == st.OldPageName(parent, cur, limit)
  {
    var fb, lb := st.FolderBranch(parent), st.FileBranch(parent);
    FilterAppend(st.Following(cur), fb, lb);
    UnionDistinct(st, parent);
    FilterDistinct(st.Following(cur), fb + lb);
    if cur.None? {
      FilterAll(st.Following(cur), fb);
      FilterAll(st.Following(cur), lb);
      PushIntoBranches(st, limit, fb, lb);
    } else if cur.value.folderFirst == 0 {
      FilterAgree(st.Following(cur), st.InBranch(cur.value), fb);
      FilterAll(st.Following(cur), lb);
      PushIntoBranches(st, limit, st.BranchAfter(fb, cur.value), lb);
    } else {
      FilterNone(st.Following(cur), fb);
      FilterAgree(st.Following(cur), st.InBranch(cur.value), lb);
      var rest := st.BranchAfter(lb, cur.value);
      assert [] + rest == rest;
      OneBranch(st, limit, rest);
    }
  }

  lemma OneBranch(st: Store, limit: nat, rest: seq<Row>)
    requires st.Valid() && Distinct(rest) && forall r :: r in rest ==> r in st.files
    ensures Take(limit, OrderBy(st.NameOrder(), Take(limit, OrderBy(st.BranchOrder(), rest))))
         == Take(limit, OrderBy(st.NameOrder(), rest))
  {
    BranchListing(st, rest);
    NameOrderStrict(st, rest);
    OrderBySorted(st.NameOrder(), rest, Elements(rest));
    OrderBySortedId(st.NameOrder(), Take(limit, OrderBy(st.NameOrder(), rest)));
  }

  /** Inside one branch folder_first is constant, so it may be left out of the order. */
  lemma BranchListing(st: Store, s: seq<Row>)
    requires forall a, b :: a in s && b in s ==> a.isFolder == b.isFolder
    ensures OrderBy(st.BranchOrder(), s) == OrderBy(st.NameOrder(), s)
  {
    forall a, b | a in s && b in s ensures st.BranchOrder()(a, b) == st.NameOrder()(a, b) {
      assert FolderFirst(a) == FolderFirst(b);
    }
    OrderByAgree(st.BranchOrder(), st.NameOrder(), s);
  }

  lemma PushIntoBranches(st: Store, limit: nat, a: seq<Row>, b: seq<Row>)
    requires st.Valid() && Distinct(a + b)
    requires (forall r :: r in a ==> r in st.folders) && (forall r :: r in b ==> r in st.files)
    ensures Take(limit, OrderBy(st.NameOrder(),
              Take(limit, OrderBy(st.BranchOrder(), a)) + Take(limit, OrderBy(st.BranchOrder(), b))))
         == Take(limit, OrderBy(st.NameOrder(), a + b))
  {
    BranchListing(st, a);
    BranchListing(st, b);
    NameOrderStrict(st, a + b);
    TopOfBoth(st.NameOrder(), limit, a, b);
  }

  lemma ModifiedPageEquivalence(st: Store, parent: nat, cur: Option<Cursor>, limit: nat)
    requires st.Valid() && st.StampsDistinct(parent)
    ensures st.NewPageModified(parent, cur, limit) == st.OldPageModified(parent, cur, limit)
  {
    var fb, lb := st.FolderBranch(parent), st.FileBranch(parent);
    var after := Store.Older(cur);
    FilterAppend(after, fb, lb);
    UnionDistinct(st, parent);
    FilterDistinct(after, fb + lb);
    ModifiedOrderStrict(st, parent, Filter(after, fb) + Filter(after, lb));
    TopOfBoth(Store.ModifiedOrder(), limit, Filter(after, fb), Filter(after, lb));
  }

  // ----- draining a folder

  /** What the order needs of the store: the name order needs nothing more. */
  ghost predicate Drainable(st: Store, byModified: bool, parent: nat) {
    st.Valid() && (byModified ==> st.StampsDistinct(parent))
  }

  lemma OrderStrict(st: Store, byModified: bool, parent: nat)
    requires Drainable(st, byModified, parent)
    ensures StrictOrderOn(st.Order(byModified), Elements(st.FolderBranch(parent) + st.FileBranch(parent)))
    ensures SortedBy(st.Order(byModified), st.Listing(byModified, parent))
  {
    var rows := st.FolderBranch(parent) + st.FileBranch(parent);
    UnionDistinct(st, parent);
    if byModified {
      ModifiedOrderStrict(st, parent, rows);
    } else {
      NameOrderStrict(st, rows);
    }
    OrderBySorted(st.Order(byModified), rows, Elements(rows));
  }

  /** Where a walk stands after `m` rows of a listing. */
  function Position(listing: seq<Row>, m: nat): Option<Cursor>
    requires m <= |listing|
  {
    if m == 0 then None else Some(CursorOf(listing[m - 1]))
  }

  /** Rows past a cursor, listed, are the listing past the cursor's row. */
  lemma AfterIsSuffix(lt: (Row, Row) -> bool, after: Row -> bool, rows: seq<Row>, all: seq<Row>, m: nat)
    requires StrictOrderOn(lt, Elements(rows)) && Distinct(rows)
    requires all == OrderBy(lt, rows) && m <= |all|
    requires forall r :: r in rows ==> after(r) == (m == 0 || lt(all[m - 1], r))
    ensures OrderBy(lt, Filter(after, rows)) == all[m..]
  {
    OrderBySorted(lt, rows, Elements(rows));
    OrderByRows(lt, rows);
    FilterOrderBy(lt, after, rows);
    if m == 0 {
      FilterAll(after, all);
    } else {
      KeysetIsSuffix(lt, after, all, m, Elements(rows));
    }
  }

  lemma NamePageIsSlice(st: Store, parent: nat, m: nat, limit: nat)
    requires st.Valid()
    requires m <= |st.Listing(false, parent)|
    ensures st.OldPageName(parent, Position(st.Listing(false, parent), m), limit) ==
            Take(limit, st.Listing(false, parent)[m..])
  {
    var rows := st.FolderBranch(parent) + st.FileBranch(parent);
    var cur := Position(st.Listing(false, parent), m);
    UnionDistinct(st, parent);
    NameOrderStrict(st, rows);
    AfterIsSuffix(st.NameOrder(), st.Following(cur), rows, st.Listing(false, parent), m);
  }

  lemma ModifiedPageIsSlice(st: Store, parent: nat, m: nat, limit: nat)
    requires st.Valid() && st.StampsDistinct(parent)
    requires m <= |st.Listing(true, parent)|
    ensures st.OldPageModified(parent, Position(st.Listing(true, parent), m), limit) ==
            Take(limit, st.Listing(true, parent)[m..])
  {
    var rows := st.FolderBranch(parent) + st.FileBranch(parent);
    var cur := Position(st.Listing(true, parent), m);
    UnionDistinct(st, parent);
    ModifiedOrderStrict(st, parent, rows);
    AfterIsSuffix(Store.ModifiedOrder(), Store.Older(cur), rows, st.Listing(true, parent), m);
  }

  /** The page asked for after `m` rows of the listing is the next `limit` rows of it. */
  lemma PageIsSlice(st: Store, newShape: bool, byModified: bool, parent: nat, m: nat, limit: nat)
    requires Drainable(st, byModified, parent)
    requires m <= |st.Listing(byModified, parent)|
    ensures st.Page(newShape, byModified, parent, Position(st.Listing(byModified, parent), m), limit)
         == Take(limit, st.Listing(byModified, parent)[m..])
  {
    var cur := Position(st.Listing(byModified, parent), m);
    if byModified {
      ModifiedPageIsSlice(st, parent, m, limit);
      ModifiedPageEquivalence(st, parent, cur, limit);
    } else {
      NamePageIsSlice(st, parent, m, limit);
      NamePageEquivalence(st, parent, cur, limit);
    }
  }

  // ----- walking pages, whatever the query behind them

  /** A cursor made from a row, or none. */
  predicate RowCursor(cur: Option<Cursor>) {
    cur.Some? ==> cur.value.folderFirst == 0 || cur.value.folderFirst == 1
  }

  function LastCursor(rows: seq<Row>): Option<Cursor>
    requires rows != []
  {
    Some(CursorOf(rows[|rows| - 1]))
  }

  /** The query behind a walk, and how many rows its cursors leave. */
  type Pager = Option<Cursor> -> seq<Row>
  type Measure = Option<Cursor> -> nat

  /** A full page leaves fewer rows to ask for. */
  ghost predicate Progress(page: Pager, left: Measure, limit: nat) {
    && limit > 0
    && forall cur :: RowCursor(cur) && |page(cur)| >= limit ==> left(LastCursor(page(cur))) < left(cur)
  }

  /** What a walk yields from a cursor on: full pages go on from their last row, a short page ends it. */
  ghost function WalkBy(page: Pager, left: Measure, limit: nat, cur: Option<Cursor>): seq<Row>
    requires Progress(page, left, limit) && RowCursor(cur)
    decreases left(cur)
  {
    if |page(cur)| < limit then page(cur) else page(cur) + WalkBy(page, left, limit, LastCursor(page(cur)))
  }

  function Key(): Row -> (bool, nat) {
    (r: Row) => (r.isFolder, r.id)
  }

  method DrainBy(page: Pager, ghost left: Measure, limit: nat) returns (drained: seq<(bool, nat)>)
    requires Progress(page, left, limit)
    ensures drained == Map(Key(), WalkBy(page, left, limit, None))
  {
    ghost var all := WalkBy(page, left, limit, None);
    ghost var walked: seq<Row> := [];
    var cur: Option<Cursor> := None;
    drained := [];
    while true
      invariant RowCursor(cur) && walked + WalkBy(page, left, limit, cur) == all
      invariant drained == Map(Key(), walked)
      decreases left(cur)
    {
      var rows := page(cur);
      MapAppend(Key(), walked, rows);
      drained := drained + Map(Key(), rows);
      ghost var before := walked;
      walked := walked + rows;
      if |rows| < limit {
        break;
      }
      cur := LastCursor(rows);
      AppendAssoc(before, rows, WalkBy(page, left, limit, cur));
    }
  }

  ghost predicate Slices(page: Pager, limit: nat, all: seq<Row>) {
    forall m :: 0 <= m <= |all| ==> page(Position(all, m)) == Take(limit, all[m..])
  }

  /** Pages that are slices of a listing walk the listing. */
  lemma {:induction false} WalkSlices(page: Pager, left: Measure, limit: nat, all: seq<Row>, m: nat)
    requires Progress(page, left, limit) && Slices(page, limit, all) && m <= |all|
    ensures WalkBy(page, left, limit, Position(all, m)) == all[m..]
    decreases |all| - m
  {
    var rows := page(Position(all, m));
    if |rows| >= limit {
      var next := m + limit;
      assert rows == all[m..next];
      assert LastCursor(rows) == Position(all, next);
      WalkSlices(page, left, limit, all, next);
      SliceTail(all, m, next);
    }
  }

  lemma SliceTail(s: seq<Row>, m: nat, n: nat)
    requires m <= n <= |s|
    ensures s[m..n] + s[n..] == s[m..]
  {
  }

  // ----- the drain of a store

  /** Every row of a page lies past the cursor. */
  lemma PageRows(st: Store, newShape: bool, byModified: bool, parent: nat, cur: Option<Cursor>, limit: nat)
    requires st.Valid() && RowCursor(cur)
    ensures forall r :: r in st.Page(newShape, byModified, parent, cur, limit) ==> r in st.Rest(byModified, parent, cur)
  {
    if newShape && byModified {
      NewModifiedRows(st, parent, cur, limit);
    } else if newShape {
      SomeRow(cur);
      NamePageEquivalence(st, parent, cur, limit);
      OrderedRows(st.NameOrder(), limit, st.Rest(false, parent, cur));
    } else {
      OrderedRows(st.Order(byModified), limit, st.Rest(byModified, parent, cur));
    }
  }

  lemma SomeRow(cur: Option<Cursor>)
    requires RowCursor(cur)
    ensures cur.Some? ==> exists r :: cur.value == CursorOf(r)
  {
    if cur.Some? {
      var c := cur.value;
      assert c == CursorOf(Row(c.folderFirst == 0, c.id, 0, false, c.sortStr, c.modifiedAt));
    }
  }

  lemma NewModifiedRows(st: Store, parent: nat, cur: Option<Cursor>, limit: nat)
    ensures forall r :: r in st.NewPageModified(parent, cur, limit) ==> r in st.Rest(true, parent, cur)
  {
    var folders := Filter(Store.Older(cur), st.FolderBranch(parent));
    var files := Filter(Store.Older(cur), st.FileBranch(parent));
    OrderedRows(Store.ModifiedOrder(), limit, folders);
    OrderedRows(Store.ModifiedOrder(), limit, files);
    OrderedRows(Store.ModifiedOrder(), limit,
                Take(limit, OrderBy(Store.ModifiedOrder(), folders))
                + Take(limit, OrderBy(Store.ModifiedOrder(), files)));
  }

  lemma PastPast(st: Store, byModified: bool, cur: Option<Cursor>, last: Row, r: Row)
    requires st.Valid() && st.After(byModified, cur)(last) && st.After(byModified, Some(CursorOf(last)))(r)
    ensures st.After(byModified, cur)(r)
  {
  }

  /** The cursor of a row that a cursor leaves, leaves fewer rows. */
  lemma RestShrinks(st: Store, byModified: bool, parent: nat, cur: Option<Cursor>, last: Row)
    requires st.Valid() && last in st.Rest(byModified, parent, cur)
    ensures |st.Rest(byModified, parent, Some(CursorOf(last)))| < |st.Rest(byModified, parent, cur)|
  {
    var rows, next := st.FolderBranch(parent) + st.FileBranch(parent), st.After(byModified, Some(CursorOf(last)));
    forall r | r in rows ensures next(r) == (next(r) && st.After(byModified, cur)(r)) {
      if next(r) {
        PastPast(st, byModified, cur, last, r);
      }
    }
    FilterFilter(next, st.After(byModified, cur), next, rows);
    FilterDrops(next, st.Rest(byModified, parent, cur), last);
  }

  function PagerOf(st: Store, newShape: bool, byModified: bool, parent: nat, limit: nat): Pager {
    (cur: Option<Cursor>) => st.Page(newShape, byModified, parent, cur, limit)
  }

  function LeftOf(st: Store, byModified: bool, parent: nat): Measure {
    (cur: Option<Cursor>) => |st.Rest(byModified, parent, cur)|
  }

  lemma StoreProgress(st: Store, newShape: bool, byModified: bool, parent: nat, limit: nat)
    requires st.Valid() && limit > 0
    ensures Progress(PagerOf(st, newShape, byModified, parent, limit), LeftOf(st, byModified, parent), limit)
  {
    var page := PagerOf(st, newShape, byModified, parent, limit);
    forall cur | RowCursor(cur) && |page(cur)| >= limit
      ensures LeftOf(st, byModified, parent)(LastCursor(page(cur))) < LeftOf(st, byModified, parent)(cur)
    {
      PageShrinks(st, newShape, byModified, parent, limit, cur, page(cur));
    }
  }

  lemma PageShrinks(
    st: Store, newShape: bool, byModified: bool, parent: nat, limit: nat, cur: Option<Cursor>, rows: seq<Row>
  )
    requires st.Valid() && RowCursor(cur) && rows == st.Page(newShape, byModified, parent, cur, limit) && rows != []
    ensures |st.Rest(byModified, parent, LastCursor(rows))| < |st.Rest(byModified, parent, cur)|
  {
    PageRow(st, newShape, byModified, parent, limit, cur, rows[|rows| - 1]);
    RestShrinks(st, byModified, parent, cur, rows[|rows| - 1]);
  }

  lemma PageRow(st: Store, newShape: bool, byModified: bool, parent: nat, limit: nat, cur: Option<Cursor>, r: Row)
    requires st.Valid() && RowCursor(cur) && r in st.Page(newShape, byModified, parent, cur, limit)
    ensures r in st.Rest(byModified, parent, cur)
  {
    PageRows(st, newShape, byModified, parent, cur, limit);
  }

  /** All that a drain yields. */
  ghost function Walk(st: Store, newShape: bool, byModified: bool, parent: nat, limit: nat): seq<Row>
    requires st.Valid() && limit > 0
  {
    StoreProgress(st, newShape, byModified, parent, limit);
    WalkBy(PagerOf(st, newShape, byModified, parent, limit), LeftOf(st, byModified, parent), limit, None)
  }

  /** Walks a folder page by page: for every store the loop ends, with the rows of the walk. */
  method Drain(st: Store, newShape: bool, byModified: bool, parent: nat, limit: nat)
    returns (drained: seq<(bool, nat)>)
    requires st.Valid() && limit > 0
    ensures drained == Map(Key(), Walk(st, newShape, byModified, parent, limit))
  {
    StoreProgress(st, newShape, byModified, parent, limit);
    drained := DrainBy(PagerOf(st, newShape, byModified, parent, limit), LeftOf(st, byModified, parent), limit);
  }

  /** Where the order is strict, the walk is the listing, for every shape and positive limit. */
  lemma WalkIsListing(st: Store, newShape: bool, byModified: bool, parent: nat, limit: nat)
    requires Drainable(st, byModified, parent) && limit > 0
    ensures Walk(st, newShape, byModified, parent, limit) == st.Listing(byModified, parent)
  {
    var page, all := PagerOf(st, newShape, byModified, parent, limit), st.Listing(byModified, parent);
    StoreProgress(st, newShape, byModified, parent, limit);
    forall m | 0 <= m <= |all| ensures page(Position(all, m)) == Take(limit, all[m..]) {
      PageIsSlice(st, newShape, byModified, parent, m, limit);
    }
    WalkSlices(page, LeftOf(st, byModified, parent), limit, all, 0);
    assert all[0..] == all;
  }

  /** A drain leaves nothing out and repeats nothing. */
  lemma ListingComplete(st: Store, byModified: bool, parent: nat)
    requires Drainable(st, byModified, parent)
    ensures Distinct(st.Listing(byModified, parent))
    ensures forall r :: r in st.Listing(byModified, parent) <==>
              r in st.folders + st.files && r.parent == parent && !r.trashed
  {
    var rows := st.FolderBranch(parent) + st.FileBranch(parent);
    OrderStrict(st, byModified, parent);
    OrderByRows(st.Order(byModified), rows);
    SortedDistinct(st.Order(byModified), st.Listing(byModified, parent), Elements(rows));
  }

  /** `a` comes before `b`: newer, or by kind and name. */
  ghost predicate Precedes(st: Store, byModified: bool, a: Row, b: Row) {
    if byModified then a.modifiedAt > b.modifiedAt || (a.modifiedAt == b.modifiedAt && a.id > b.id)
    else if a.isFolder != b.isFolder then a.isFolder
    else st.collate(a.sortStr, b.sortStr) || (a.sortStr == b.sortStr && a.id < b.id)
  }

  lemma OrderPrecedes(st: Store, byModified: bool, a: Row, b: Row)
    requires st.Order(byModified)(a, b)
    ensures Precedes(st, byModified, a, b)
  {
    if !byModified {
      var order := st.NameOrder();
      assert order(a, b);
      assert FolderFirst(a) < FolderFirst(b) || (FolderFirst(a) == FolderFirst(b) && st.BranchOrder()(a, b));
    }
  }

  /** A listing runs from the newest row to the oldest, or through the folders by name and then through the files. */
  lemma ListingOrdered(st: Store, byModified: bool, parent: nat, i: nat, j: nat)
    requires Drainable(st, byModified, parent) && i < j < |st.Listing(byModified, parent)|
    ensures Precedes(st, byModified, st.Listing(byModified, parent)[i], st.Listing(byModified, parent)[j])
  {
    OrderStrict(st, byModified, parent);
    OrderPrecedes(st, byModified, st.Listing(byModified, parent)[i], st.Listing(byModified, parent)[j]);
  }

  // ----- the newest-first drain needs distinct stamps

  /** Every page holds at most one row, older than its cursor. */
  ghost predicate SingleOlder(page: Pager) {
    forall cur :: RowCursor(cur) ==> |page(cur)| <= 1 && forall r :: r in page(cur) ==> Store.AfterModified(cur, r)
  }

  /** One row per page: every row lies strictly past the one before. */
  lemma {:induction false} SingleRowsOrdered(page: Pager, left: Measure, cur: Option<Cursor>)
    requires Progress(page, left, 1) && SingleOlder(page) && RowCursor(cur)
    ensures SortedBy(Store.ModifiedOrder(), WalkBy(page, left, 1, cur))
    ensures forall r :: r in WalkBy(page, left, 1, cur) ==> Store.AfterModified(cur, r)
    decreases left(cur)
  {
    if |page(cur)| >= 1 {
      var last := page(cur)[0];
      assert page(cur) == [last] && last in page(cur);
      SingleRowsOrdered(page, left, LastCursor(page(cur)));
      var rest := WalkBy(page, left, 1, LastCursor(page(cur)));
      forall j | 0 <= j < |rest| ensures Store.ModifiedOrder()(last, rest[j]) {
        assert rest[j] in rest;
      }
      assert WalkBy(page, left, 1, cur) == [last] + rest;
    }
  }

  lemma SingleStorePages(st: Store, newShape: bool, parent: nat)
    requires st.Valid()
    ensures SingleOlder(PagerOf(st, newShape, true, parent, 1))
  {
    var page := PagerOf(st, newShape, true, parent, 1);
    forall cur | RowCursor(cur) ensures |page(cur)| <= 1 && forall r :: r in page(cur) ==> Store.AfterModified(cur, r) {
      PageRows(st, newShape, true, parent, cur, 1);
    }
  }

  ghost predicate DrainsAll(st: Store, newShape: bool, parent: nat, limit: nat)
    requires st.Valid() && limit > 0
  {
    forall r :: r in st.FolderBranch(parent) + st.FileBranch(parent) ==> r in Walk(st, newShape, true, parent, limit)
  }

  lemma SortedApart(walk: seq<Row>, d: Row, f: Row)
    requires SortedBy(Store.ModifiedOrder(), walk) && d in walk && f in walk && d != f
    ensures d.modifiedAt != f.modifiedAt || d.id != f.id
  {
    var i :| 0 <= i < |walk| && walk[i] == d;
    var j :| 0 <= j < |walk| && walk[j] == f;
    assert if i < j then Store.ModifiedOrder()(walk[i], walk[j]) else Store.ModifiedOrder()(walk[j], walk[i]);
  }

  lemma SingleRowsNeedStamps(st: Store, newShape: bool, parent: nat)
    requires st.Valid() && DrainsAll(st, newShape, parent, 1)
    ensures st.StampsDistinct(parent)
  {
    var walk := Walk(st, newShape, true, parent, 1);
    StoreProgress(st, newShape, true, parent, 1);
    SingleStorePages(st, newShape, parent);
    SingleRowsOrdered(PagerOf(st, newShape, true, parent, 1), LeftOf(st, true, parent), None);
    forall d, f | d in st.FolderBranch(parent) && f in st.FileBranch(parent)
      ensures d.modifiedAt != f.modifiedAt || d.id != f.id {
      assert d in walk && f in walk && d.isFolder && !f.isFolder;
      SortedApart(walk, d, f);
    }
  }

  lemma StampsSuffice(st: Store, newShape: bool, parent: nat, limit: nat)
    requires st.Valid() && st.StampsDistinct(parent) && limit > 0
    ensures DrainsAll(st, newShape, parent, limit)
  {
    WalkIsListing(st, newShape, true, parent, limit);
    OrderByRows(Store.ModifiedOrder(), st.FolderBranch(parent) + st.FileBranch(parent));
  }

  /**
   In either shape, draining newest first yields every row at every positive limit exactly
   when no folder and file of the parent share time and id.
   */
  lemma StampsNeeded(st: Store, newShape: bool, parent: nat)
    requires st.Valid()
    ensures st.StampsDistinct(parent) <==> forall limit: nat :: limit > 0 ==> DrainsAll(st, newShape, parent, limit)
  {
    if st.StampsDistinct(parent) {
      forall limit: nat | limit > 0 ensures DrainsAll(st, newShape, parent, limit) {
        StampsSuffice(st, newShape, parent, limit);
      }
    } else {
      if DrainsAll(st, newShape, parent, 1) {
        SingleRowsNeedStamps(st, newShape, parent);
      }
      assert !DrainsAll(st, newShape, parent, 1);
    }
  }
}
