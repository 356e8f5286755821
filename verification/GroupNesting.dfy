/**
 Adding a group to a group: the cycle check, the depth check, and what the two keep of the
 nesting over every run of additions and removals, one at a time.
 */
module GroupNesting {
  import opened Sequences
  import opened Ordering
  import opened GroupExpansion

  // ----- depth

  ghost predicate Acyclic(rel: Relation) {
    forall p :: Path(rel, p) && |p| > 1 ==> p[0] != p[|p| - 1]
  }

  /** A path of `n` edges leads down from `x`. */
  ghost predicate Walk(rel: Relation, x: Id, n: nat) {
    exists p :: Path(rel, p) && |p| == n + 1 && p[0] == x
  }

  /** The longest path from `x` has `n` edges. */
  ghost predicate Longest(rel: Relation, x: Id, n: nat) {
    Walk(rel, x, n) && !Walk(rel, x, n + 1)
  }

  /** What `k` edges lead to. */
  function Level(rel: Relation, x: Id, k: nat): set<Id> {
    if k == 0 then {x} else Successors(rel, Level(rel, x, k - 1))
  }

  lemma {:induction false} LevelPath(rel: Relation, x: Id, k: nat, y: Id) returns (p: seq<Id>)
    requires y in Level(rel, x, k)
    ensures Joins(rel, p, x, y) && |p| == k + 1
  {
    if k == 0 {
      p := [x];
    } else {
      var e :| e in rel && e.0 in Level(rel, x, k - 1) && e.1 == y;
      var q := LevelPath(rel, x, k - 1, e.0);
      assert (e.0, y) == e;
      p := q + [y];
    }
  }

  lemma {:induction false} PathLevel(rel: Relation, p: seq<Id>)
    requires Path(rel, p)
    ensures p[|p| - 1] in Level(rel, p[0], |p| - 1)
  {
    var n := |p| - 1;
    if n > 0 {
      PathLevel(rel, p[..n]);
      assert (p[n - 1], p[n - 1 + 1]) in rel;
    }
  }

  lemma LevelWalk(rel: Relation, x: Id, k: nat)
    ensures Level(rel, x, k) != {} <==> Walk(rel, x, k)
  {
    if y :| y in Level(rel, x, k) {
      var p := LevelPath(rel, x, k, y);
    }
    if p :| Path(rel, p) && |p| == k + 1 && p[0] == x {
      PathLevel(rel, p);
    }
  }

  function Nodes(rel: Relation): set<Id> {
    (set e | e in rel :: e.0) + Targets(rel)
  }

  lemma SubPath(rel: Relation, p: seq<Id>, i: nat, j: nat)
    requires Path(rel, p) && i < j < |p|
    ensures Path(rel, p[i..j + 1])
  {
    var q := p[i..j + 1];
    forall k | 0 <= k < |q| - 1 ensures (q[k], q[k + 1]) in rel {
      assert (p[i + k], p[i + k + 1]) in rel;
    }
  }

  /** In an acyclic nesting a path meets each group once. */
  lemma MeetsOnce(rel: Relation, p: seq<Id>, i: nat, j: nat)
    requires Acyclic(rel) && Path(rel, p) && i < j < |p|
    ensures p[i] != p[j]
  {
    SubPath(rel, p, i, j);
    assert p[i..j + 1][0] == p[i] && p[i..j + 1][|p[i..j + 1]| - 1] == p[j];
  }

  /** A path without cycles meets each group once, so it is no longer than there are groups. */
  lemma PathBounded(rel: Relation, p: seq<Id>)
    requires Acyclic(rel) && Path(rel, p) && |p| > 1
    ensures |p| <= |Nodes(rel)|
  {
    forall i, j | 0 <= i < j < |p| ensures p[i] != p[j] {
      MeetsOnce(rel, p, i, j);
    }
    DistinctElements(p);
    forall x | x in Elements(p) ensures x in Nodes(rel) {
      var i :| 0 <= i < |p| && p[i] == x;
      if i < |p| - 1 {
        assert (p[i], p[i + 1]) in rel;
      } else {
        assert (p[i - 1], p[i - 1 + 1]) in rel;
      }
    }
    SubsetSize(Elements(p), Nodes(rel));
  }

  lemma SubsetSize(a: set<Id>, b: set<Id>)
    requires a <= b
    ensures |a| <= |b|
  {
    if a != b {
      SmallerSet(a, b);
    }
  }

  /** Nothing below the parent leads back to it. */
  lemma NotBelowItself(rel: Relation, x: Id, k: nat)
    requires Acyclic(rel) && k > 0
    ensures x !in Level(rel, x, k)
  {
    if x in Level(rel, x, k) {
      var p := LevelPath(rel, x, k, x);
    }
  }

  /** WITH RECURSIVE … UNION ALL, level by level: MAX(depth) as if the new edge were there. */
  method DepthBelow(rel: Relation, parent: Id, child: Id) returns (depth: nat)
    requires Acyclic(rel + {(parent, child)})
    ensures Longest(rel + {(parent, child)}, parent, depth)
  {
    ghost var rel' := rel + {(parent, child)};
    var level := Successors(rel, {parent}) + {child};
    depth := 1;
    FirstLevel(rel, parent, child);
    while true
      invariant depth > 0 && level == Level(rel', parent, depth) && level != {}
      decreases |Nodes(rel')| - depth
    {
      var next := Successors(rel, level);
      NextLevel(rel, parent, child, depth);
      LevelWalk(rel', parent, depth);
      LevelWalk(rel', parent, depth + 1);
      if next == {} {
        break;
      }
      ghost var p :| Path(rel', p) && |p| == depth + 2 && p[0] == parent;
      PathBounded(rel', p);
      level := next;
      depth := depth + 1;
    }
  }

  lemma FirstLevel(rel: Relation, parent: Id, child: Id)
    ensures Level(rel + {(parent, child)}, parent, 1) == Successors(rel, {parent}) + {child}
  {
    var rel' := rel + {(parent, child)};
    assert Level(rel', parent, 0) == {parent};
    assert (parent, child) in rel';
    forall x | x in Successors(rel, {parent}) ensures x in Successors(rel', {parent}) {
      var e :| e in rel && e.0 in {parent} && e.1 == x;
      assert e in rel';
    }
  }

  lemma NextLevel(rel: Relation, parent: Id, child: Id, k: nat)
    requires Acyclic(rel + {(parent, child)}) && k > 0
    ensures Level(rel + {(parent, child)}, parent, k + 1) == Successors(rel, Level(rel + {(parent, child)}, parent, k))
  {
    var rel' := rel + {(parent, child)};
    var level := Level(rel', parent, k);
    NotBelowItself(rel', parent, k);
    forall x | x in Successors(rel, level) ensures x in Successors(rel', level) {
      var e :| e in rel && e.0 in level && e.1 == x;
      assert e in rel';
    }
    forall x | x in Successors(rel', level) ensures x in Successors(rel, level) {
      var e :| e in rel' && e.0 in level && e.1 == x;
      assert e in rel;
    }
  }

  // ----- adding a group to a group

  const MAX_GROUP_DEPTH := 8

  datatype Verdict = Added | Cycle | TooDeep | AlreadyPresent

  /** The cycle check, then the depth check on the low eight bits of the depth, then the insert. */
  method AddGroup(table: set<Row>, parent: Id, child: Id) returns (verdict: Verdict, table': set<Row>)
    requires Acyclic(Down(table))
    ensures Acyclic(Down(table')) && Change(table, table')
    ensures verdict.Cycle? <==> !Acyclic(Down(table + {GroupRow(parent, child)}))
    ensures verdict.TooDeep? <==> !verdict.Cycle? && exists m: nat ::
              Longest(Down(table + {GroupRow(parent, child)}), parent, m) && m % 256 > MAX_GROUP_DEPTH
    ensures verdict.Added? ==> GroupRow(parent, child) !in table
    ensures verdict.AlreadyPresent? ==> GroupRow(parent, child) in table
    ensures table' == if verdict.Added? then table + {GroupRow(parent, child)} else table
    ensures verdict.Added? && Within(Down(table), MAX_GROUP_DEPTH) ==>
              (Within(Down(table'), MAX_GROUP_DEPTH) <==> LevelsFit(table, parent, child, MAX_GROUP_DEPTH))
  {
    var rel := Down(table);
    DownAdd(table, parent, child);
    var below := RecursiveUnion(rel, Successors(rel, {child}));
    ClosesCycle(rel, parent, child);
    StepThenClosure(rel, child, parent);
    if parent == child || parent in below {
      return Cycle, table;
    }
    var depth := DepthBelow(rel, parent, child);
    forall m: nat | Longest(rel + {(parent, child)}, parent, m) ensures m == depth {
      LongestUnique(rel + {(parent, child)}, parent, m, depth);
    }
    if depth % 256 > MAX_GROUP_DEPTH {
      return TooDeep, table;
    }
    if GroupRow(parent, child) in table {
      return AlreadyPresent, table;
    }
    if Within(Down(table), MAX_GROUP_DEPTH) {
      CapKeptIff(table, parent, child);
    }
    return Added, table + {GroupRow(parent, child)};
  }

  lemma ShorterWalk(rel: Relation, x: Id, m: nat, n: nat)
    requires Walk(rel, x, n) && m <= n
    ensures Walk(rel, x, m)
  {
    var p :| Path(rel, p) && |p| == n + 1 && p[0] == x;
    assert Path(rel, p[..m + 1]);
  }

  lemma LongestUnique(rel: Relation, x: Id, m: nat, n: nat)
    requires Longest(rel, x, m) && Longest(rel, x, n)
    ensures m == n
  {
    if m < n {
      ShorterWalk(rel, x, m + 1, n);
    } else if n < m {
      ShorterWalk(rel, x, n + 1, m);
    }
  }

  lemma DownAdd(table: set<Row>, parent: Id, child: Id)
    ensures Down(table + {GroupRow(parent, child)}) == Down(table) + {(parent, child)}
  {
    var t := table + {GroupRow(parent, child)};
    forall e | e in Down(table) + {(parent, child)} ensures e in Down(t) {
      assert GroupRow(e.0, e.1) in t;
    }
  }

  /** Besides itself, a group reaches what its members' closure holds. */
  lemma StepThenClosure(rel: Relation, child: Id, x: Id)
    ensures Reaches(rel, child, x) <==> x == child || x in Closure(rel, Successors(rel, {child}))
  {
    var seed := Successors(rel, {child});
    ClosureReaches(rel, seed, x);
    if x == child {
      assert Joins(rel, [child], child, child);
    } else if p :| Joins(rel, p, child, x) {
      assert (p[0], p[1]) in rel;
      assert p[1] in seed;
      assert Joins(rel, p[1..], p[1], x);
    }
    if s :| s in seed && Reaches(rel, s, x) {
      var p :| Joins(rel, p, s, x);
      assert (child, s) in rel;
      assert Joins(rel, [child] + p, child, x);
    }
  }

  /** A new edge closes a cycle exactly when its end already reaches its start. */
  lemma ClosesCycle(rel: Relation, parent: Id, child: Id)
    requires Acyclic(rel)
    ensures Acyclic(rel + {(parent, child)}) <==> !Reaches(rel, child, parent)
  {
    var rel' := rel + {(parent, child)};
    if p :| Joins(rel, p, child, parent) {
      var q := [parent] + p;
      assert forall i :: 0 < i < |q| - 1 ==> (q[i], q[i + 1]) == (p[i - 1], p[i]);
      assert Path(rel', q) && q[0] == q[|q| - 1];
    } else {
      forall p | Path(rel', p) && |p| > 1 ensures p[0] != p[|p| - 1] {
        NoNewCycle(rel, parent, child, p);
      }
    }
  }

  lemma NoNewCycle(rel: Relation, parent: Id, child: Id, p: seq<Id>)
    requires Acyclic(rel) && !Reaches(rel, child, parent)
    requires Path(rel + {(parent, child)}, p) && |p| > 1
    ensures p[0] != p[|p| - 1]
  {
    var rel' := rel + {(parent, child)};
    var below := Closure(rel, {child});
    ClosureLeast(rel, {child});
    ClosureReaches(rel, {child}, parent);
    assert Closed(rel', below) by {
      forall x | x in Successors(rel', below) ensures x in below {
        var e :| e in rel' && e.0 in below && e.1 == x;
        assert x in Successors(rel, below);
      }
    }
    if !Path(rel, p) {
      var i :| 0 <= i < |p| - 1 && (p[i], p[i + 1]) !in rel;
      assert (p[i], p[i + 1]) in rel';
      StaysIn(rel', below, p, i + 1, |p| - 1);
      if p[0] in below {
        StaysIn(rel', below, p, 0, i);
      }
    }
  }

  // ----- what the depth check keeps

  /** Of what is accepted, at most eight levels lie under the parent exactly when there are fewer than 256. */
  lemma DepthUnderParent(rel: Relation, parent: Id, m: nat)
    requires Longest(rel, parent, m) && m % 256 <= MAX_GROUP_DEPTH
    ensures !Walk(rel, parent, MAX_GROUP_DEPTH + 1) <==> m < 256
  {
    if m < 256 && Walk(rel, parent, MAX_GROUP_DEPTH + 1) {
      ShorterWalk(rel, parent, m + 1, MAX_GROUP_DEPTH + 1);
    }
    if m >= 256 {
      ShorterWalk(rel, parent, MAX_GROUP_DEPTH + 1, m);
    }
  }

  /** No path has more than `n` edges. */
  ghost predicate Within(rel: Relation, n: nat) {
    forall p :: Path(rel, p) ==> |p| <= n + 1
  }

  /** No path that ends at the parent, joined to one that starts at the child, has more than `n` edges. */
  ghost predicate PathsFit(rel: Relation, parent: Id, child: Id, n: nat) {
    forall p, q :: Path(rel, p) && p[|p| - 1] == parent && Path(rel, q) && q[0] == child ==> |p| + |q| <= n + 1
  }

  lemma JoinPaths(rel: Relation, parent: Id, child: Id, p: seq<Id>, q: seq<Id>)
    requires Path(rel, p) && p[|p| - 1] == parent && Path(rel, q) && q[0] == child
    ensures Path(rel + {(parent, child)}, p + q)
  {
    var r := p + q;
    forall i | 0 <= i < |r| - 1 ensures (r[i], r[i + 1]) in rel + {(parent, child)} {
      if i < |p| - 1 {
        assert (p[i], p[i + 1]) in rel;
      } else if i >= |p| {
        assert (q[i - |p|], q[i - |p| + 1]) in rel;
      }
    }
  }

  lemma SplitPath(rel: Relation, parent: Id, child: Id, r: seq<Id>, i: nat)
    requires Acyclic(rel + {(parent, child)}) && Path(rel + {(parent, child)}, r)
    requires i < |r| - 1 && (r[i], r[i + 1]) == (parent, child)
    ensures Path(rel, r[..i + 1]) && Path(rel, r[i + 1..])
  {
    var rel' := rel + {(parent, child)};
    forall k | 0 <= k < |r| - 1 && k != i ensures (r[k], r[k + 1]) in rel {
      assert (r[k], r[k + 1]) in rel';
      if k < i {
        MeetsOnce(rel', r, k, i);
      } else {
        MeetsOnce(rel', r, i, k);
      }
    }
    var p, q := r[..i + 1], r[i + 1..];
    assert forall k :: 0 <= k < |p| - 1 ==> (p[k], p[k + 1]) == (r[k], r[k + 1]);
    assert forall k :: 0 <= k < |q| - 1 ==> (q[k], q[k + 1]) == (r[i + 1 + k], r[i + 1 + k + 1]);
  }

  /** A new edge keeps a nesting within `n` levels exactly when the paths it joins fit. */
  lemma WithinIff(rel: Relation, parent: Id, child: Id, n: nat)
    requires Acyclic(rel + {(parent, child)}) && Within(rel, n)
    ensures Within(rel + {(parent, child)}, n) <==> PathsFit(rel, parent, child, n)
  {
    var rel' := rel + {(parent, child)};
    if Within(rel', n) {
      forall p, q | Path(rel, p) && p[|p| - 1] == parent && Path(rel, q) && q[0] == child ensures |p| + |q| <= n + 1 {
        JoinPaths(rel, parent, child, p, q);
      }
    }
    if PathsFit(rel, parent, child, n) {
      forall r | Path(rel', r) ensures |r| <= n + 1 {
        if !Path(rel, r) {
          var i :| 0 <= i < |r| - 1 && (r[i], r[i + 1]) !in rel;
          assert (r[i], r[i + 1]) in rel';
          SplitPath(rel, parent, child, r, i);
          assert r[..i + 1][i] == parent && r[i + 1..][0] == child;
        }
      }
    }
  }

  // ----- the same in levels

  /** Levels above the parent, the new one, and levels under the child are at most `n`. */
  ghost predicate LevelsFit(table: set<Row>, parent: Id, child: Id, n: nat) {
    forall above: nat, under: nat ::
      Longest(Up(table), parent, above) && Longest(Down(table), child, under) ==> above + 1 + under <= n
  }

  lemma NoLonger(rel: Relation, x: Id, n: nat, p: seq<Id>)
    requires Longest(rel, x, n) && Path(rel, p) && p[0] == x
    ensures |p| <= n + 1
  {
    if |p| > n + 1 {
      assert Walk(rel, x, |p| - 1);
      ShorterWalk(rel, x, n + 1, |p| - 1);
    }
  }

  /** In an acyclic nesting every group has a longest path, down and up. */
  lemma {:induction false} HasLongest(rel: Relation, x: Id, k: nat) returns (n: nat)
    requires Acyclic(rel) && Walk(rel, x, k)
    ensures Longest(rel, x, n)
    decreases |Nodes(rel)| - k
  {
    if Walk(rel, x, k + 1) {
      var p :| Path(rel, p) && |p| == k + 2 && p[0] == x;
      PathBounded(rel, p);
      n := HasLongest(rel, x, k + 1);
    } else {
      n := k;
    }
  }

  lemma UpAcyclic(table: set<Row>)
    requires Acyclic(Down(table))
    ensures Acyclic(Up(table))
  {
    forall p | Path(Up(table), p) && |p| > 1 ensures p[0] != p[|p| - 1] {
      var q := ReversePath(table, p);
    }
  }

  lemma LevelsExist(table: set<Row>, parent: Id, child: Id) returns (above: nat, under: nat)
    requires Acyclic(Down(table))
    ensures Longest(Up(table), parent, above) && Longest(Down(table), child, under)
  {
    UpAcyclic(table);
    assert Path(Up(table), [parent]) && Path(Down(table), [child]);
    above := HasLongest(Up(table), parent, 0);
    under := HasLongest(Down(table), child, 0);
  }

  lemma LevelsArePaths(table: set<Row>, parent: Id, child: Id, n: nat)
    requires Acyclic(Down(table))
    ensures LevelsFit(table, parent, child, n) <==> PathsFit(Down(table), parent, child, n)
  {
    var above, under := LevelsExist(table, parent, child);
    if LevelsFit(table, parent, child, n) {
      forall p, q | Path(Down(table), p) && p[|p| - 1] == parent && Path(Down(table), q) && q[0] == child
        ensures |p| + |q| <= n + 1
      {
        var r := ReversePath(table, p);
        NoLonger(Up(table), parent, above, r);
        NoLonger(Down(table), child, under, q);
      }
    }
    if PathsFit(Down(table), parent, child, n) {
      forall a: nat, b: nat | Longest(Up(table), parent, a) && Longest(Down(table), child, b) ensures a + 1 + b <= n {
        var r :| Path(Up(table), r) && |r| == a + 1 && r[0] == parent;
        var q :| Path(Down(table), q) && |q| == b + 1 && q[0] == child;
        var p := ReversePath(table, r);
      }
    }
  }

  /** An addition that makes no cycle keeps a table within the cap exactly when its levels fit. */
  lemma CapKeptIff(table: set<Row>, parent: Id, child: Id)
    requires Acyclic(Down(table)) && Acyclic(Down(table + {GroupRow(parent, child)}))
    requires Within(Down(table), MAX_GROUP_DEPTH)
    ensures Within(Down(table + {GroupRow(parent, child)}), MAX_GROUP_DEPTH) <==>
            LevelsFit(table, parent, child, MAX_GROUP_DEPTH)
  {
    DownAdd(table, parent, child);
    WithinIff(Down(table), parent, child, MAX_GROUP_DEPTH);
    LevelsArePaths(table, parent, child, MAX_GROUP_DEPTH);
  }

  // ----- runs that leave the cap behind

  /** Groups lo to hi, each inside the one before. */
  function Chain(lo: nat, hi: nat): set<Row> {
    set i: nat | lo <= i < hi :: Link(i)
  }

  function Link(i: nat): Row {
    GroupRow(i, i + 1)
  }

  lemma ChainDown(lo: nat, hi: nat)
    ensures forall e: (Id, Id) :: e in Down(Chain(lo, hi)) <==> lo <= e.0 < hi && e.1 == e.0 + 1
  {
    forall e: (Id, Id) | lo <= e.0 < hi && e.1 == e.0 + 1 ensures e in Down(Chain(lo, hi)) {
      assert Link(e.0) in Chain(lo, hi);
      assert GroupRow(e.0, e.1) in Chain(lo, hi);
    }
  }

  lemma {:induction false} ChainRises(lo: nat, hi: nat, p: seq<Id>, i: nat)
    requires Path(Down(Chain(lo, hi)), p) && i < |p|
    ensures p[i] == p[0] + i && (|p| > 1 ==> p[i] <= hi)
  {
    ChainDown(lo, hi);
    if i > 0 {
      ChainRises(lo, hi, p, i - 1);
      assert (p[i - 1], p[i - 1 + 1]) in Down(Chain(lo, hi));
    } else if |p| > 1 {
      assert (p[0], p[0 + 1]) in Down(Chain(lo, hi));
    }
  }

  lemma ChainAcyclic(lo: nat, hi: nat)
    ensures Acyclic(Down(Chain(lo, hi)))
  {
    forall p | Path(Down(Chain(lo, hi)), p) && |p| > 1 ensures p[0] != p[|p| - 1] {
      ChainRises(lo, hi, p, |p| - 1);
    }
  }

  lemma ChainLongest(lo: nat, hi: nat, i: nat)
    requires lo <= i <= hi
    ensures Longest(Down(Chain(lo, hi)), i, hi - i)
  {
    var rel := Down(Chain(lo, hi));
    ChainDown(lo, hi);
    var p := seq(hi - i + 1, k requires 0 <= k => i + k);
    assert Path(rel, p);
    if Walk(rel, i, hi - i + 1) {
      var q :| Path(rel, q) && |q| == hi - i + 2 && q[0] == i;
      ChainRises(lo, hi, q, |q| - 1);
    }
  }

  lemma ChainNext(lo: nat, hi: nat)
    requires lo <= hi
    ensures Chain(lo, hi + 1) == Chain(lo, hi) + {GroupRow(hi, hi + 1)} && GroupRow(hi, hi + 1) !in Chain(lo, hi)
  {
    assert Link(hi) in Chain(lo, hi + 1);
  }

  lemma OnlyDepth(rel: Relation, x: Id, depth: nat)
    requires Longest(rel, x, depth)
    ensures forall m: nat :: Longest(rel, x, m) ==> m == depth
  {
    forall m: nat | Longest(rel, x, m) ensures m == depth {
      LongestUnique(rel, x, m, depth);
    }
  }

  /**
   The cap is not a bound on nesting: built from the top, one accepted edge at a time, a chain
   grows to any depth.
   */
  method GrowChain(lo: nat, hi: nat) returns (table: set<Row>)
    requires lo <= hi
    ensures table == Chain(lo, hi) && Longest(Down(table), lo, hi - lo)
  {
    table := {};
    for i := lo to hi
      invariant table == Chain(lo, i)
    {
      ChainAcyclic(lo, i);
      ChainNext(lo, i);
      ChainAcyclic(lo, i + 1);
      ChainLongest(lo, i + 1, i);
      OnlyDepth(Down(Chain(lo, i + 1)), i, 1);
      var verdict, next := AddGroup(table, i, i + 1);
      table := next;
    }
    ChainLongest(lo, hi, lo);
  }

  /** A subtree of 255 levels, grown that way, may be put under a new group: 256 counts as 0. */
  method LiftLongChain() returns (table: set<Row>)
    ensures table == Chain(0, 256)
  {
    table := GrowChain(1, 256);
    FirstLink(256);
    ChainAcyclic(1, 256);
    ChainAcyclic(0, 256);
    ChainLongest(0, 256, 0);
    OnlyDepth(Down(Chain(0, 256)), 0, 256);
    var verdict, next := AddGroup(table, 0, 1);
    table := next;
  }

  lemma FirstLink(hi: nat)
    requires hi > 0
    ensures Chain(1, hi) + {GroupRow(0, 1)} == Chain(0, hi) && GroupRow(0, 1) !in Chain(1, hi)
  {
    assert Link(0) in Chain(0, hi);
  }

  // ----- every run

  /** A change to the table: a group added where it closes no cycle, a user added, or rows taken out. */
  ghost predicate Change(before: set<Row>, after: set<Row>) {
    || after <= before
    || (exists parent, child :: after == before + {GroupRow(parent, child)} && !Reaches(Down(before), child, parent))
    || (exists group, user :: after == before + {UserRow(group, user)})
  }

  lemma UserAdded(before: set<Row>, group: Id, user: Id)
    ensures Down(before + {UserRow(group, user)}) == Down(before)
  {
    forall e | e in Down(before) ensures e in Down(before + {UserRow(group, user)}) {
      assert GroupRow(e.0, e.1) in before + {UserRow(group, user)};
    }
  }

  lemma FewerRows(before: set<Row>, after: set<Row>)
    requires Acyclic(Down(before)) && after <= before
    ensures Acyclic(Down(after))
  {
    forall p | Path(Down(after), p) && |p| > 1 ensures p[0] != p[|p| - 1] {
      assert Path(Down(before), p);
    }
  }

  /** However groups are nested and taken out, one change at a time, no cycle ever arises. */
  lemma {:induction false} NeverCyclic(run: seq<set<Row>>, k: nat)
    requires k < |run| && run[0] == {}
    requires forall i :: 0 <= i < |run| - 1 ==> Change(run[i], run[i + 1])
    ensures Acyclic(Down(run[k]))
  {
    if k == 0 {
      assert forall p: seq<Id> :: |p| > 1 ==> (p[0], p[0 + 1]) !in Down({});
    } else {
      NeverCyclic(run, k - 1);
      assert Change(run[k - 1], run[k - 1 + 1]);
      if run[k] <= run[k - 1] {
        FewerRows(run[k - 1], run[k]);
      } else if group, user :| run[k] == run[k - 1] + {UserRow(group, user)} {
        UserAdded(run[k - 1], group, user);
      } else {
        var parent, child :|
          run[k] == run[k - 1] + {GroupRow(parent, child)} && !Reaches(Down(run[k - 1]), child, parent);
        DownAdd(run[k - 1], parent, child);
        ClosesCycle(Down(run[k - 1]), parent, child);
      }
    }
  }

  ghost predicate Adds(before: set<Row>, after: set<Row>, parent: Id, child: Id) {
    after == before + {GroupRow(parent, child)}
  }

  /** Every group was added where its levels fit. */
  ghost predicate AllFit(run: seq<set<Row>>) {
    forall i, parent, child :: 0 <= i < |run| - 1 && Adds(run[i], run[i + 1], parent, child) ==>
      LevelsFit(run[i], parent, child, MAX_GROUP_DEPTH)
  }

  ghost predicate AllWithin(run: seq<set<Row>>) {
    forall k :: 0 <= k < |run| ==> Within(Down(run[k]), MAX_GROUP_DEPTH)
  }

  lemma FewerWithin(before: set<Row>, after: set<Row>, n: nat)
    requires Within(Down(before), n) && after <= before
    ensures Within(Down(after), n)
  {
    forall p | Path(Down(after), p) ensures |p| <= n + 1 {
      assert Path(Down(before), p);
    }
  }

  lemma {:induction false} FitWithin(run: seq<set<Row>>, k: nat)
    requires k < |run| && run[0] == {} && AllFit(run)
    requires forall i :: 0 <= i < |run| - 1 ==> Change(run[i], run[i + 1])
    ensures Within(Down(run[k]), MAX_GROUP_DEPTH)
  {
    if k == 0 {
      assert forall p: seq<Id> :: |p| > 1 ==> (p[0], p[0 + 1]) !in Down({});
    } else {
      FitWithin(run, k - 1);
      assert Change(run[k - 1], run[k - 1 + 1]);
      if run[k] <= run[k - 1] {
        FewerWithin(run[k - 1], run[k], MAX_GROUP_DEPTH);
      } else if group, user :| run[k] == run[k - 1] + {UserRow(group, user)} {
        UserAdded(run[k - 1], group, user);
      } else {
        var parent, child :|
          run[k] == run[k - 1] + {GroupRow(parent, child)} && !Reaches(Down(run[k - 1]), child, parent);
        assert Adds(run[k - 1], run[k - 1 + 1], parent, child);
        NeverCyclic(run, k - 1);
        NeverCyclic(run, k);
        CapKeptIff(run[k - 1], parent, child);
      }
    }
  }

  /** Over every run the nesting stays within the cap exactly when every group is added where its levels fit. */
  lemma CapOverRuns(run: seq<set<Row>>)
    requires |run| > 0 && run[0] == {}
    requires forall i :: 0 <= i < |run| - 1 ==> Change(run[i], run[i + 1])
    ensures AllWithin(run) <==> AllFit(run)
  {
    if AllFit(run) {
      forall k | 0 <= k < |run| ensures Within(Down(run[k]), MAX_GROUP_DEPTH) {
        FitWithin(run, k);
      }
    }
    if AllWithin(run) {
      forall i, parent, child | 0 <= i < |run| - 1 && Adds(run[i], run[i + 1], parent, child)
        ensures LevelsFit(run[i], parent, child, MAX_GROUP_DEPTH)
      {
        NeverCyclic(run, i);
        NeverCyclic(run, i + 1);
        CapKeptIff(run[i], parent, child);
      }
    }
  }
}
