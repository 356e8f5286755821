/**
 Groups added by transactions that run side by side.  Each locks the row of its parent, checks
 for a cycle in what is committed at that moment, checks the depth, inserts and commits; the
 insert's foreign keys take a shared lock on the child.  What is not committed is not seen.
 */
module GroupRaces {
  import opened GroupExpansion
  import opened GroupNesting

  /** `seen` is the nesting the cycle check looked at. */
  datatype Phase =
    | Begun
    | Locked
    | Checked(seen: Relation)
    | Measured(seen: Relation)  // the depth was accepted
    | Inserted(seen: Relation)  // not committed yet
    | Ended(added: bool)

  datatype Add = Add(parent: Id, child: Id, phase: Phase)

  datatype State = State(table: set<Row>, adds: seq<Add>)

  /** `deep` is what a depth check says; rows go and users come at any moment. */
  datatype Event = Step(i: nat, deep: bool) | Remove(rows: set<Row>) | AddUser(group: Id, user: Id)

  predicate Running(a: Add) {
    !a.phase.Begun? && !a.phase.Ended?
  }

  /** SELECT … FOR UPDATE on the parent is kept until the end. */
  predicate Owns(a: Add, group: Id) {
    Running(a) && a.parent == group
  }

  /** The foreign key to the child keeps its row from being locked for update. */
  predicate Shares(a: Add, group: Id) {
    a.phase.Inserted? && a.child == group
  }

  predicate Enabled(s: State, i: nat) {
    && i < |s.adds|
    && match s.adds[i].phase
       case Begun =>
         forall j :: 0 <= j < |s.adds| && j != i ==>
           !Owns(s.adds[j], s.adds[i].parent) && !Shares(s.adds[j], s.adds[i].parent)
       case Measured(_) => forall j :: 0 <= j < |s.adds| && j != i ==> !Owns(s.adds[j], s.adds[i].child)
       case Ended(_) => false
       case _ => true
  }

  ghost function Advance(table: set<Row>, a: Add, deep: bool): Phase {
    match a.phase
    case Begun => Locked
    case Locked => if Reaches(Down(table), a.child, a.parent) then Ended(false) else Checked(Down(table))
    case Checked(seen) => if deep then Ended(false) else Measured(seen)
    case Measured(seen) => if GroupRow(a.parent, a.child) in table then Ended(false) else Inserted(seen)
    case Inserted(_) => Ended(true)
    case Ended(_) => a.phase
  }

  predicate Commits(s: State, e: Event) {
    e.Step? && Enabled(s, e.i) && s.adds[e.i].phase.Inserted?
  }

  ghost function Next(s: State, e: Event): State {
    match e
    case Remove(rows) => s.(table := s.table - rows)
    case AddUser(group, user) => s.(table := s.table + {UserRow(group, user)})
    case Step(i, deep) =>
      if !Enabled(s, i) then s
      else State(if Commits(s, e) then s.table + {GroupRow(s.adds[i].parent, s.adds[i].child)} else s.table,
                 s.adds[i := s.adds[i].(phase := Advance(s.table, s.adds[i], deep))])
  }

  ghost function Run(s: State, events: seq<Event>): State {
    if events == [] then s else Next(Run(s, events[..|events| - 1]), events[|events| - 1])
  }

  ghost predicate Fresh(s: State) {
    forall i :: 0 <= i < |s.adds| ==> s.adds[i].phase.Begun?
  }

  // ----- when no cycle arises

  /** What an addition saw did not let the child reach the parent. */
  ghost predicate SawNone(s: State) {
    forall i :: 0 <= i < |s.adds| && Running(s.adds[i]) && !s.adds[i].phase.Locked? ==>
      !Reaches(s.adds[i].phase.seen, s.adds[i].child, s.adds[i].parent)
  }

  lemma {:induction false} RunSawNone(s: State, events: seq<Event>)
    requires Fresh(s)
    ensures SawNone(Run(s, events))
  {
    if events != [] {
      RunSawNone(s, events[..|events| - 1]);
    }
  }

  /** A way from the child to the parent leads over an edge committed since the check. */
  ghost predicate NewWay(rel: Relation, a: Add, p: seq<Id>)
    requires a.phase.Inserted?
  {
    Joins(rel, p, a.child, a.parent) && exists k :: 0 <= k < |p| - 1 && (p[k], p[k + 1]) !in a.phase.seen
  }

  ghost predicate Undisturbed(s: State, e: Event) {
    Commits(s, e) ==> forall p :: !NewWay(Down(s.table), s.adds[e.i], p)
  }

  lemma WayIsNew(rel: Relation, a: Add)
    requires a.phase.Inserted? && !Reaches(a.phase.seen, a.child, a.parent)
    ensures Reaches(rel, a.child, a.parent) <==> exists p :: NewWay(rel, a, p)
  {
    if p :| Joins(rel, p, a.child, a.parent) {
      if forall k :: 0 <= k < |p| - 1 ==> (p[k], p[k + 1]) in a.phase.seen {
        assert Joins(a.phase.seen, p, a.child, a.parent);
      }
      assert NewWay(rel, a, p);
    }
  }

  lemma NextAcyclicIff(s: State, e: Event)
    requires SawNone(s) && Acyclic(Down(s.table))
    ensures Acyclic(Down(Next(s, e).table)) <==> Undisturbed(s, e)
  {
    match e {
      case Remove(rows) => FewerRows(s.table, s.table - rows);
      case AddUser(group, user) => UserAdded(s.table, group, user);
      case Step(i, _) =>
        if Commits(s, e) {
          DownAdd(s.table, s.adds[i].parent, s.adds[i].child);
          ClosesCycle(Down(s.table), s.adds[i].parent, s.adds[i].child);
          WayIsNew(Down(s.table), s.adds[i]);
        }
    }
  }

  /** In every state of the run. */
  ghost predicate AlwaysAcyclic(s: State, events: seq<Event>) {
    && Acyclic(Down(Run(s, events).table))
    && (events != [] ==> AlwaysAcyclic(s, events[..|events| - 1]))
  }

  /** At every event of the run. */
  ghost predicate NeverDisturbed(s: State, events: seq<Event>) {
    events != [] ==>
      && Undisturbed(Run(s, events[..|events| - 1]), events[|events| - 1])
      && NeverDisturbed(s, events[..|events| - 1])
  }

  /**
   In every interleaving of any number of additions, removals and user changes, the nesting
   stays acyclic exactly when at no commit an edge committed since that addition's check lets
   its child reach its parent.
   */
  lemma {:induction false} RaceIff(s: State, events: seq<Event>)
    requires Fresh(s) && Acyclic(Down(s.table))
    ensures AlwaysAcyclic(s, events) <==> NeverDisturbed(s, events)
  {
    if events != [] {
      var front := events[..|events| - 1];
      RaceIff(s, front);
      RunSawNone(s, front);
      if Acyclic(Down(Run(s, front).table)) {
        NextAcyclicIff(Run(s, front), events[|events| - 1]);
      }
    }
  }

  /** An addition during which no group was added elsewhere is undisturbed. */
  lemma QuietCommit(s: State, e: Event)
    requires Commits(s, e) ==> Down(s.table) <= s.adds[e.i].phase.seen
    ensures Undisturbed(s, e)
  {
    if Commits(s, e) {
      forall p ensures !NewWay(Down(s.table), s.adds[e.i], p) {
      }
    }
  }

  // ----- what the locks do stop

  ghost predicate LocksHeld(s: State) {
    forall i, j :: 0 <= i < |s.adds| && 0 <= j < |s.adds| && i != j && Running(s.adds[i]) ==>
      !Owns(s.adds[j], s.adds[i].parent) && !Shares(s.adds[j], s.adds[i].parent)
  }

  /** The edge back was not there at the check and cannot come while the parent is locked. */
  ghost predicate NoEdgeBack(s: State) {
    forall i :: 0 <= i < |s.adds| && Running(s.adds[i]) && !s.adds[i].phase.Locked? ==>
      s.adds[i].parent != s.adds[i].child && (s.adds[i].child, s.adds[i].parent) !in Down(s.table)
  }

  /** No group holds itself, and of two groups only one holds the other. */
  ghost predicate OneWay(rel: Relation) {
    forall e :: e in rel ==> (e.1, e.0) !in rel
  }

  lemma NextLocks(s: State, e: Event)
    requires LocksHeld(s)
    ensures LocksHeld(Next(s, e))
  {
  }

  lemma DirectEdge(rel: Relation, from: Id, to: Id)
    requires from == to || (from, to) in rel
    ensures Reaches(rel, from, to)
  {
    if from == to {
      assert Joins(rel, [from], from, to);
    } else {
      assert Joins(rel, [from, to], from, to);
    }
  }

  lemma NextNoEdgeBack(s: State, e: Event)
    requires LocksHeld(s) && NoEdgeBack(s)
    ensures NoEdgeBack(Next(s, e))
  {
    match e {
      case Remove(rows) =>
      case AddUser(group, user) => UserAdded(s.table, group, user);
      case Step(i, _) =>
        if Enabled(s, i) {
          var a := s.adds[i];
          if a.phase.Locked? && (a.parent == a.child || (a.child, a.parent) in Down(s.table)) {
            DirectEdge(Down(s.table), a.child, a.parent);
          }
          if Commits(s, e) {
            DownAdd(s.table, a.parent, a.child);
          }
        }
    }
  }

  lemma NextOneWay(s: State, e: Event)
    requires NoEdgeBack(s) && OneWay(Down(s.table))
    ensures OneWay(Down(Next(s, e).table))
  {
    match e {
      case Remove(rows) =>
      case AddUser(group, user) => UserAdded(s.table, group, user);
      case Step(i, _) =>
        if Commits(s, e) {
          DownAdd(s.table, s.adds[i].parent, s.adds[i].child);
        }
    }
  }

  /** In every interleaving the locks keep two groups from being put into each other. */
  lemma {:induction false} NeverBothWays(s: State, events: seq<Event>)
    requires Fresh(s) && OneWay(Down(s.table))
    ensures OneWay(Down(Run(s, events).table)) && LocksHeld(Run(s, events)) && NoEdgeBack(Run(s, events))
  {
    if events != [] {
      var t, e := Run(s, events[..|events| - 1]), events[|events| - 1];
      NeverBothWays(s, events[..|events| - 1]);
      NextLocks(t, e);
      NextNoEdgeBack(t, e);
      NextOneWay(t, e);
    }
  }

  // ----- a cycle that gets through

  const BEFORE := {GroupRow(1, 2), GroupRow(3, 0)}

  lemma BeforeDown()
    ensures Down(BEFORE) == {(1, 2), (3, 0)}
  {
    assert GroupRow(1, 2) in BEFORE && GroupRow(3, 0) in BEFORE;
  }

  lemma NotReached(from: Id, mid: Id, to: Id)
    requires (from, mid, to) == (1, 2, 0) || (from, mid, to) == (3, 0, 2)
    ensures !Reaches(Down(BEFORE), from, to)
  {
    BeforeDown();
    if p :| Joins(Down(BEFORE), p, from, to) {
      StaysIn(Down(BEFORE), {from, mid}, p, 0, |p| - 1);
    }
  }

  function BothAt(phase: Phase): State {
    State(BEFORE, [Add(0, 1, phase), Add(2, 3, phase)])
  }

  lemma Both(phase: Phase, next: Phase)
    requires phase.Begun? ==> next == Locked
    requires phase.Locked? ==> next == Checked(Down(BEFORE))
    requires phase.Checked? ==> next == Measured(phase.seen)
    requires phase.Measured? ==> next == Inserted(phase.seen)
    requires !phase.Inserted? && !phase.Ended?
    ensures Next(Next(BothAt(phase), Step(0, false)), Step(1, false)) == BothAt(next)
  {
    NotReached(1, 2, 0);
    NotReached(3, 0, 2);
    var s := Next(BothAt(phase), Step(0, false));
    assert s == State(BEFORE, [Add(0, 1, next), Add(2, 3, phase)]);
  }

  lemma Move(s: State, events: seq<Event>, e: Event) returns (longer: seq<Event>)
    ensures Run(s, longer) == Next(Run(s, events), e)
  {
    longer := events + [e];
    assert longer[..|events|] == events;
  }

  lemma MoveBoth(s: State, events: seq<Event>) returns (longer: seq<Event>)
    ensures Run(s, longer) == Next(Next(Run(s, events), Step(0, false)), Step(1, false))
  {
    longer := Move(s, events, Step(0, false));
    longer := Move(s, longer, Step(1, false));
  }

  lemma BothInserted() returns (events: seq<Event>)
    ensures Run(BothAt(Begun), events) == BothAt(Inserted(Down(BEFORE)))
  {
    var seen := Down(BEFORE);
    events := [];
    Both(Begun, Locked);
    events := MoveBoth(BothAt(Begun), events);
    Both(Locked, Checked(seen));
    events := MoveBoth(BothAt(Begun), events);
    Both(Checked(seen), Measured(seen));
    events := MoveBoth(BothAt(Begun), events);
    Both(Measured(seen), Inserted(seen));
    events := MoveBoth(BothAt(Begun), events);
  }

  lemma BothCommitted()
    ensures Next(Next(BothAt(Inserted(Down(BEFORE))), Step(0, false)), Step(1, false)).table ==
            BEFORE + {GroupRow(0, 1), GroupRow(2, 3)}
  {
    var s := BothAt(Inserted(Down(BEFORE)));
    var t := Next(s, Step(0, false));
    assert t.table == BEFORE + {GroupRow(0, 1)} && t.adds[1] == s.adds[1];
    assert Next(t, Step(1, false)).table == t.table + {GroupRow(2, 3)};
  }

  /**
   With 2 in 1 and 0 in 3, putting 1 into 0 and 3 into 2 at the same time passes both checks,
   waits for no lock, and leaves the cycle 0, 1, 2, 3, 0.
   */
  lemma RacingAdds() returns (events: seq<Event>)
    ensures Fresh(BothAt(Begun)) && Acyclic(Down(BEFORE))
    ensures Run(BothAt(Begun), events).table == BEFORE + {GroupRow(0, 1), GroupRow(2, 3)}
    ensures !Acyclic(Down(Run(BothAt(Begun), events).table))
  {
    events := BothInserted();
    BothCommitted();
    events := MoveBoth(BothAt(Begun), events);
    BeforeAcyclic();
    CycleOfFour();
  }

  lemma CycleOfFour()
    ensures !Acyclic(Down(BEFORE + {GroupRow(0, 1), GroupRow(2, 3)}))
  {
    var t := BEFORE + {GroupRow(0, 1), GroupRow(2, 3)};
    assert GroupRow(0, 1) in t && GroupRow(1, 2) in t && GroupRow(2, 3) in t && GroupRow(3, 0) in t;
    assert Path(Down(t), [0, 1, 2, 3, 0]);
  }

  lemma BeforeAcyclic()
    ensures Acyclic(Down(BEFORE))
  {
    BeforeDown();
    forall p | Path(Down(BEFORE), p) && |p| > 1 ensures p[0] != p[|p| - 1] {
      var n := |p| - 1;
      assert (p[0], p[0 + 1]) in Down(BEFORE) && (p[n - 1], p[n - 1 + 1]) in Down(BEFORE);
    }
  }
}
