/** Nested groups: expanding a user's memberships and a group's members with recursive queries. */
module GroupExpansion {
  type Id = nat
  type Relation = set<(Id, Id)>

  /** A row of the membership table: a user or a group inside a group. */
  datatype Row = UserRow(group: Id, user: Id) | GroupRow(group: Id, member: Id)

  // ----- recursive queries

  function Successors(rel: Relation, from: set<Id>): set<Id> {
    set e | e in rel && e.0 in from :: e.1
  }

  function Targets(rel: Relation): set<Id> {
    set e | e in rel :: e.1
  }

  ghost predicate Closed(rel: Relation, s: set<Id>) {
    Successors(rel, s) <= s
  }

  ghost function Closure(rel: Relation, seed: set<Id>): set<Id>
    decreases |Targets(rel) - seed|
  {
    if Closed(rel, seed) then seed
    else
      assert Targets(rel) - seed > Targets(rel) - (seed + Successors(rel, seed)) by { Shrinks(rel, seed); }
      SmallerSet(Targets(rel) - (seed + Successors(rel, seed)), Targets(rel) - seed);
      Closure(rel, seed + Successors(rel, seed))
  }

  lemma Shrinks(rel: Relation, seed: set<Id>)
    requires !Closed(rel, seed)
    ensures Targets(rel) - seed > Targets(rel) - (seed + Successors(rel, seed))
  {
    var x :| x in Successors(rel, seed) && x !in seed;
    assert x in Targets(rel) - seed && x !in Targets(rel) - (seed + Successors(rel, seed));
  }

  lemma {:induction false} SmallerSet(a: set<Id>, b: set<Id>)
    requires a < b
    ensures |a| < |b|
    decreases a
  {
    if a == {} {
      var y :| y in b;
    } else {
      var x :| x in a;
      SmallerSet(a - {x}, b - {x});
    }
  }

  /** The closure is the least set that holds the seed and all it leads to. */
  lemma {:induction false} ClosureLeast(rel: Relation, seed: set<Id>)
    ensures seed <= Closure(rel, seed) && Closed(rel, Closure(rel, seed))
    ensures forall c: set<Id> :: seed <= c && Closed(rel, c) ==> Closure(rel, seed) <= c
    decreases |Targets(rel) - seed|
  {
    if !Closed(rel, seed) {
      var grown := seed + Successors(rel, seed);
      Shrinks(rel, seed);
      SmallerSet(Targets(rel) - grown, Targets(rel) - seed);
      ClosureLeast(rel, grown);
      forall c: set<Id> | seed <= c && Closed(rel, c) ensures Closure(rel, seed) <= c {
        assert Successors(rel, seed) <= Successors(rel, c);
        assert grown <= c;
      }
    }
  }

  /** WITH RECURSIVE … UNION: rows found in one round and not seen before feed the next. */
  method RecursiveUnion(rel: Relation, seed: set<Id>) returns (found: set<Id>)
    ensures found == Closure(rel, seed)
  {
    found := seed;
    var working := seed;
    ClosureLeast(rel, seed);
    while working != {}
      invariant seed <= found && working <= found <= Closure(rel, seed)
      invariant Successors(rel, found - working) <= found
      decreases |Targets(rel) - found|, |working|
    {
      var next := Successors(rel, working) - found;
      assert next <= Successors(rel, Closure(rel, seed));
      if next == {} {
        assert Targets(rel) - (found + next) == Targets(rel) - found;
      } else {
        var x :| x in next;
        assert x in Targets(rel) - found && x !in Targets(rel) - (found + next);
        SmallerSet(Targets(rel) - (found + next), Targets(rel) - found);
      }
      assert Successors(rel, found) <= Successors(rel, found - working) + Successors(rel, working);
      assert found + next - next == found;
      found := found + next;
      working := next;
    }
    assert found - {} == found;
  }

  // ----- paths

  ghost predicate Path(rel: Relation, p: seq<Id>) {
    p != [] && forall i :: 0 <= i < |p| - 1 ==> (p[i], p[i + 1]) in rel
  }

  ghost predicate Joins(rel: Relation, p: seq<Id>, from: Id, to: Id) {
    Path(rel, p) && p[0] == from && p[|p| - 1] == to
  }

  ghost predicate Reaches(rel: Relation, from: Id, to: Id) {
    exists p :: Joins(rel, p, from, to)
  }

  /** A closed set is never left by a path. */
  lemma {:induction false} StaysIn(rel: Relation, c: set<Id>, p: seq<Id>, a: nat, b: nat)
    requires Closed(rel, c) && Path(rel, p) && a <= b < |p| && p[a] in c
    ensures p[b] in c
    decreases b
  {
    if a < b {
      StaysIn(rel, c, p, a, b - 1);
      assert (p[b - 1], p[b - 1 + 1]) in rel;
      assert p[b] in Successors(rel, c);
    }
  }

  lemma Extend(rel: Relation, from: Id, mid: Id, to: Id)
    requires Reaches(rel, from, mid) && (mid, to) in rel
    ensures Reaches(rel, from, to)
  {
    var p :| Joins(rel, p, from, mid);
    assert Joins(rel, p + [to], from, to);
  }

  ghost predicate FromSeed(rel: Relation, seed: set<Id>, x: Id) {
    exists s :: s in seed && Reaches(rel, s, x)
  }

  lemma FromSeedStep(rel: Relation, seed: set<Id>, x: Id, y: Id)
    requires FromSeed(rel, seed, x) && (x, y) in rel
    ensures FromSeed(rel, seed, y)
  {
    var s :| s in seed && Reaches(rel, s, x);
    Extend(rel, s, x, y);
  }

  lemma ClosureFromSeed(rel: Relation, seed: set<Id>)
    ensures forall x :: x in Closure(rel, seed) ==> FromSeed(rel, seed, x)
  {
    ClosureLeast(rel, seed);
    var all := Closure(rel, seed);
    var reached := set y | y in all && FromSeed(rel, seed, y);
    forall s | s in seed ensures s in reached {
      assert Joins(rel, [s], s, s);
    }
    forall y | y in Successors(rel, reached) ensures y in reached {
      var e :| e in rel && e.0 in reached && e.1 == y;
      assert y in Successors(rel, all);
      assert (e.0, y) == e;
      FromSeedStep(rel, seed, e.0, y);
    }
    assert seed <= reached && Closed(rel, reached);
  }

  /** What a recursive query returns is what its seed reaches. */
  lemma ClosureReaches(rel: Relation, seed: set<Id>, x: Id)
    ensures x in Closure(rel, seed) <==> exists s :: s in seed && Reaches(rel, s, x)
  {
    ClosureFromSeed(rel, seed);
    assert FromSeed(rel, seed, x) <==> exists s :: s in seed && Reaches(rel, s, x);
    if s :| s in seed && Reaches(rel, s, x) {
      ClosureLeast(rel, seed);
      var p :| Joins(rel, p, s, x);
      StaysIn(rel, Closure(rel, seed), p, 0, |p| - 1);
    }
  }

  // ----- users and groups

  function Up(table: set<Row>): Relation {
    set r | r in table && r.GroupRow? :: (r.member, r.group)
  }

  function Down(table: set<Row>): Relation {
    set r | r in table && r.GroupRow? :: (r.group, r.member)
  }

  function DirectGroups(table: set<Row>, user: Id): set<Id> {
    set r | r in table && r.UserRow? && r.user == user :: r.group
  }

  function DirectUsers(table: set<Row>, groups: set<Id>): set<Id> {
    set r | r in table && r.UserRow? && r.group in groups :: r.user
  }

  /** The user belongs to the group, directly or through nested groups. */
  ghost predicate Belongs(table: set<Row>, user: Id, group: Id) {
    exists direct :: UserRow(direct, user) in table && Reaches(Up(table), direct, group)
  }

  method GroupsForUser(table: set<Row>, user: Id) returns (groups: set<Id>)
    ensures forall g :: g in groups <==> Belongs(table, user, g)
  {
    groups := RecursiveUnion(Up(table), DirectGroups(table, user));
    forall g ensures g in groups <==> Belongs(table, user, g) {
      ClosureReaches(Up(table), DirectGroups(table, user), g);
      if g in groups {
        var d :| d in DirectGroups(table, user) && Reaches(Up(table), d, g);
        assert UserRow(d, user) in table;
      }
      if Belongs(table, user, g) {
        var d :| UserRow(d, user) in table && Reaches(Up(table), d, g);
        assert d in DirectGroups(table, user);
      }
    }
  }

  lemma ReversePath(table: set<Row>, p: seq<Id>) returns (q: seq<Id>)
    requires Path(Up(table), p) || Path(Down(table), p)
    ensures |q| == |p| && q[0] == p[|p| - 1] && q[|q| - 1] == p[0]
    ensures Path(Up(table), p) ==> Path(Down(table), q)
    ensures Path(Down(table), p) ==> Path(Up(table), q)
  {
    q := seq(|p|, i requires 0 <= i < |p| => p[|p| - 1 - i]);
    if Path(Up(table), p) {
      forall i | 0 <= i < |q| - 1 ensures (q[i], q[i + 1]) in Down(table) {
        var k := |p| - 2 - i;
        assert (p[k], p[k + 1]) in Up(table);
      }
    }
    if Path(Down(table), p) {
      forall i | 0 <= i < |q| - 1 ensures (q[i], q[i + 1]) in Up(table) {
        var k := |p| - 2 - i;
        assert (p[k], p[k + 1]) in Down(table);
      }
    }
  }

  lemma Turned(table: set<Row>, from: Id, to: Id)
    ensures Reaches(Up(table), from, to) <==> Reaches(Down(table), to, from)
  {
    if p :| Joins(Up(table), p, from, to) {
      var q := ReversePath(table, p);
      assert Joins(Down(table), q, to, from);
    }
    if p :| Joins(Down(table), p, to, from) {
      var q := ReversePath(table, p);
      assert Joins(Up(table), q, from, to);
    }
  }

  /** Walking down from a group finds exactly the users whose upward walk finds the group. */
  method TransitiveUsers(table: set<Row>, group: Id) returns (users: set<Id>)
    ensures forall u :: u in users <==> Belongs(table, u, group)
  {
    var groups := RecursiveUnion(Down(table), {group});
    users := DirectUsers(table, groups);
    forall u ensures u in users <==> Belongs(table, u, group) {
      if u in users {
        var r :| r in table && r.UserRow? && r.group in groups && r.user == u;
        ClosureReaches(Down(table), {group}, r.group);
        Turned(table, r.group, group);
        assert UserRow(r.group, u) in table;
      }
      if Belongs(table, u, group) {
        var d :| UserRow(d, u) in table && Reaches(Up(table), d, group);
        Turned(table, d, group);
        ClosureReaches(Down(table), {group}, d);
        assert d in groups;
        assert UserRow(d, u).group in groups;
      }
    }
  }
}
