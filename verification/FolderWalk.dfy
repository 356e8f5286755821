/**
 Walking the subfolders of one parent by name: LIMIT/OFFSET pages against keyset pages
 that ask for the names after the last one seen. A table is the sequence of the names of
 the live subfolders; `lt` is the database's collation.
 */
module FolderWalk {
  import opened Sequences
  import opened Ordering
  import opened Wrappers

  function OffsetPage(lt: (string, string) -> bool, names: seq<string>, page: nat, offset: nat): seq<string> {
    Take(page, Drop(offset, OrderBy(lt, names)))
  }

  /** WHERE name > after, or no condition on the first page. */
  function IsAfter(lt: (string, string) -> bool, after: Option<string>): string -> bool {
    (n: string) => after.None? || lt(after.value, n)
  }

  function Remaining(lt: (string, string) -> bool, names: seq<string>, after: Option<string>): seq<string> {
    Filter(IsAfter(lt, after), names)
  }

  function KeysetPage(lt: (string, string) -> bool, names: seq<string>, page: nat, after: Option<string>): seq<string> {
    Take(page, OrderBy(lt, Remaining(lt, names, after)))
  }

  /** Full pages are followed by another request; a short page ends the walk. */
  method WalkOffset(lt: (string, string) -> bool, names: seq<string>, page: nat) returns (walked: seq<string>)
    requires page > 0
    ensures walked == OrderBy(lt, names)
  {
    ghost var all := OrderBy(lt, names);
    var offset := 0;
    walked := [];
    while true
      invariant offset <= |all| && walked == all[..offset]
      decreases |all| - offset
    {
      var rows := OffsetPage(lt, names, page, offset);
      assert walked + rows == all[..offset + |rows|];
      walked := walked + rows;
      if |rows| < page {
        break;
      }
      offset := offset + |rows|;
    }
  }

  /** What the keyset walk returns from a cursor on. */
  ghost function KeysetNames(
    lt: (string, string) -> bool, names: seq<string>, page: nat, after: Option<string>
  ): seq<string>
    requires page > 0 && Collation(lt)
    decreases |Remaining(lt, names, after)|
  {
    var rows := KeysetPage(lt, names, page, after);
    if |rows| < page then rows
    else
      CursorAdvances(lt, names, page, after);
      rows + KeysetNames(lt, names, page, Some(rows[|rows| - 1]))
  }

  lemma CursorAdvances(lt: (string, string) -> bool, names: seq<string>, page: nat, after: Option<string>)
    requires page > 0 && Collation(lt) && |KeysetPage(lt, names, page, after)| == page
    ensures var last := KeysetPage(lt, names, page, after)[page - 1];
            |Remaining(lt, names, Some(last))| < |Remaining(lt, names, after)|
  {
    var rest := Remaining(lt, names, after);
    var last := KeysetPage(lt, names, page, after)[page - 1];
    OrderByRows(lt, rest);
    assert last in rest;
    RemainingNarrows(lt, names, after, last);
    FilterDrops(IsAfter(lt, Some(last)), rest, last);
  }

  /** Moving the cursor to a remaining name selects from what remained. */
  lemma RemainingNarrows(lt: (string, string) -> bool, names: seq<string>, after: Option<string>, last: string)
    requires Collation(lt) && last in Remaining(lt, names, after)
    ensures Remaining(lt, names, Some(last)) == Filter(IsAfter(lt, Some(last)), Remaining(lt, names, after))
  {
    FilterFilter(IsAfter(lt, Some(last)), IsAfter(lt, after), IsAfter(lt, Some(last)), names);
  }

  lemma KeysetEnds(
    lt: (string, string) -> bool, names: seq<string>, page: nat, after: Option<string>, rows: seq<string>
  )
    requires page > 0 && Collation(lt) && rows == KeysetPage(lt, names, page, after) && |rows| < page
    ensures KeysetNames(lt, names, page, after) == rows
  {
  }

  lemma KeysetGoesOn(
    lt: (string, string) -> bool, names: seq<string>, page: nat, after: Option<string>, rows: seq<string>
  )
    requires page > 0 && Collation(lt) && rows == KeysetPage(lt, names, page, after) && |rows| >= page
    ensures KeysetNames(lt, names, page, after) == rows + KeysetNames(lt, names, page, Some(rows[|rows| - 1]))
    ensures |Remaining(lt, names, Some(rows[|rows| - 1]))| < |Remaining(lt, names, after)|
  {
    CursorAdvances(lt, names, page, after);
  }

  method WalkKeyset(lt: (string, string) -> bool, names: seq<string>, page: nat) returns (walked: seq<string>)
    requires page > 0 && Collation(lt)
    ensures walked == KeysetNames(lt, names, page, None)
  {
    ghost var all := KeysetNames(lt, names, page, None);
    var after: Option<string> := None;
    walked := [];
    while true
      invariant walked + KeysetNames(lt, names, page, after) == all
      decreases |Remaining(lt, names, after)|
    {
      var rows := KeysetPage(lt, names, page, after);
      ghost var before := walked;
      walked := walked + rows;
      if |rows| < page {
        KeysetEnds(lt, names, page, after, rows);
        break;
      }
      KeysetGoesOn(lt, names, page, after, rows);
      AppendAssoc(before, rows, KeysetNames(lt, names, page, Some(rows[|rows| - 1])));
      after := if rows == [] then None else Some(rows[|rows| - 1]);
    }
  }

  /** With unique sibling names the keyset walk is the listing, whatever the page size. */
  lemma {:induction false} KeysetComplete(
    lt: (string, string) -> bool, names: seq<string>, page: nat, after: Option<string>
  )
    requires page > 0 && Collation(lt) && Distinct(names)
    ensures KeysetNames(lt, names, page, after) == OrderBy(lt, Remaining(lt, names, after))
    decreases |Remaining(lt, names, after)|
  {
    var rest := Remaining(lt, names, after);
    var all := OrderBy(lt, rest);
    var rows := KeysetPage(lt, names, page, after);
    if |rows| == page {
      CursorAdvances(lt, names, page, after);
      var last := rows[page - 1];
      KeysetComplete(lt, names, page, Some(last));
      FilterDistinct(IsAfter(lt, after), names);
      SuffixAfterPage(lt, names, page, after);
      assert rows + all[page..] == all;
    }
  }

  lemma SuffixAfterPage(lt: (string, string) -> bool, names: seq<string>, page: nat, after: Option<string>)
    requires page > 0 && Collation(lt) && Distinct(Remaining(lt, names, after))
    requires |KeysetPage(lt, names, page, after)| == page
    ensures var all := OrderBy(lt, Remaining(lt, names, after));
            OrderBy(lt, Remaining(lt, names, Some(all[page - 1]))) == all[page..]
  {
    var rest := Remaining(lt, names, after);
    var all := OrderBy(lt, rest);
    var later := IsAfter(lt, Some(all[page - 1]));
    OrderByRows(lt, rest);
    OrderBySorted(lt, rest, Elements(rest));
    KeysetIsSuffix(lt, later, all, page, Elements(rest));
    FilterOrderBy(lt, later, rest);
    assert all[page - 1] in rest;
    RemainingNarrows(lt, names, after, all[page - 1]);
  }

  lemma LeadsSorted(lt: (string, string) -> bool, x: string, s: seq<string>)
    requires SortedBy(lt, s) && forall n :: n in s ==> lt(x, n)
    ensures SortedBy(lt, [x] + s)
  {
    forall j | 0 <= j < |s| ensures lt(x, s[j]) {
      assert s[j] in s;
    }
  }

  /** One name per page: the walk never repeats a name. */
  lemma {:induction false} SinglePagesIncrease(lt: (string, string) -> bool, names: seq<string>, after: Option<string>)
    requires Collation(lt)
    ensures SortedBy(lt, KeysetNames(lt, names, 1, after))
    ensures forall n :: n in KeysetNames(lt, names, 1, after) ==> after.None? || lt(after.value, n)
    decreases |Remaining(lt, names, after)|
  {
    var rest := Remaining(lt, names, after);
    var rows := KeysetPage(lt, names, 1, after);
    OrderByRows(lt, rest);
    if |rows| == 1 {
      KeysetGoesOn(lt, names, 1, after, rows);
      SinglePagesIncrease(lt, names, Some(rows[0]));
      assert rows == [rows[0]] && rows[0] in rest;
      LeadsSorted(lt, rows[0], KeysetNames(lt, names, 1, Some(rows[0])));
    }
  }

  ghost predicate WalksAgree(lt: (string, string) -> bool, names: seq<string>, page: nat)
    requires page > 0 && Collation(lt)
  {
    KeysetNames(lt, names, page, None) == OrderBy(lt, names)
  }

  lemma UniqueNamesAgree(lt: (string, string) -> bool, names: seq<string>, page: nat)
    requires page > 0 && Collation(lt) && Distinct(names)
    ensures WalksAgree(lt, names, page)
  {
    FilterAll(IsAfter(lt, None), names);
    KeysetComplete(lt, names, page, None);
  }

  lemma SinglePagesNeedUnique(lt: (string, string) -> bool, names: seq<string>)
    requires Collation(lt) && WalksAgree(lt, names, 1)
    ensures Distinct(names)
  {
    var all := OrderBy(lt, names);
    SinglePagesIncrease(lt, names, None);
    SortedDistinct(lt, all, Elements(all));
    OrderByRows(lt, names);
    DistinctCounts(all);
    CountsDistinct(names);
  }

  /**
   The two walks agree for every page size exactly when no two siblings share a name: the
   unique index the keyset walk is served by is what makes it complete.
   */
  lemma WalksAgreeIffUnique(lt: (string, string) -> bool, names: seq<string>)
    requires Collation(lt)
    ensures Distinct(names) <==> forall page: nat :: page > 0 ==> WalksAgree(lt, names, page)
  {
    if Distinct(names) {
      forall page: nat | page > 0 ensures WalksAgree(lt, names, page) {
        UniqueNamesAgree(lt, names, page);
      }
    } else if WalksAgree(lt, names, 1) {
      SinglePagesNeedUnique(lt, names);
    }
  }
}
