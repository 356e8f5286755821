/**
 Rotating a refresh session: the old one is revoked, a new one inserted, the login stamped.
 A database transaction commits all of its statements or none, so what others can see are
 the states after each commit, up to wherever the server stops.
 */
module SessionRotation {
  datatype Session = Session(user: nat, revoked: bool)
  datatype Tables = Tables(sessions: map<nat, Session>, lastLogin: map<nat, int>)

  datatype Statement =
    | Revoke(id: nat)
    | Insert(id: nat, user: nat)
    | Stamp(user: nat, now: int)

  type Transaction = seq<Statement>

  function Apply(t: Tables, s: Statement): Tables {
    match s
    case Revoke(id) =>
      if id in t.sessions then t.(sessions := t.sessions[id := t.sessions[id].(revoked := true)]) else t
    case Insert(id, user) => t.(sessions := t.sessions[id := Session(user, false)])
    case Stamp(user, now) => if user in t.lastLogin then t.(lastLogin := t.lastLogin[user := now]) else t
  }

  function Commit(t: Tables, statements: Transaction): Tables {
    if statements == [] then t else Apply(Commit(t, statements[..|statements| - 1]), statements[|statements| - 1])
  }

  /** The tables once the first `k` transactions are through. */
  function After(t: Tables, program: seq<Transaction>, k: nat): Tables
    requires k <= |program|
  {
    if k == 0 then t else Commit(After(t, program, k - 1), program[k - 1])
  }

  function Creation(user: nat, newId: nat, now: int): Transaction {
    [Insert(newId, user), Stamp(user, now)]
  }

  /** Revoke in one transaction, create in another. */
  function TwoStep(oldId: nat, user: nat, newId: nat, now: int): seq<Transaction> {
    [[Revoke(oldId)], Creation(user, newId, now)]
  }

  /** The same three statements in one transaction. */
  function Fused(oldId: nat, user: nat, newId: nat, now: int): seq<Transaction> {
    [[Revoke(oldId)] + Creation(user, newId, now)]
  }

  lemma {:induction false} CommitAppend(t: Tables, a: Transaction, b: Transaction)
    ensures Commit(t, a + b) == Commit(Commit(t, a), b)
  {
    if b == [] {
      assert a + b == a;
    } else {
      var n := |b| - 1;
      CommitAppend(t, a, b[..n]);
      assert (a + b)[..|a| + n] == a + b[..n];
    }
  }

  /** Both programs end in the same tables. */
  lemma SameEnd(t: Tables, oldId: nat, user: nat, newId: nat, now: int)
    ensures After(t, TwoStep(oldId, user, newId, now), 2) == After(t, Fused(oldId, user, newId, now), 1)
  {
    CommitAppend(t, [Revoke(oldId)], Creation(user, newId, now));
    var two := TwoStep(oldId, user, newId, now);
    assert After(t, two, 1) == Commit(After(t, two, 0), two[0]);
  }

  /** The client's old session is gone and the new one is not there yet. */
  predicate Stranded(t: Tables, oldId: nat, newId: nat) {
    (oldId in t.sessions ==> t.sessions[oldId].revoked) && newId !in t.sessions
  }

  predicate Live(t: Tables, id: nat) {
    id in t.sessions && !t.sessions[id].revoked
  }

  /** A program strands the client if some committed state does. */
  ghost predicate Strands(t: Tables, program: seq<Transaction>, oldId: nat, newId: nat) {
    exists k :: 0 <= k <= |program| && Stranded(After(t, program, k), oldId, newId)
  }

  lemma Revoked(t: Tables, oldId: nat)
    ensures Commit(t, [Revoke(oldId)]) == Apply(t, Revoke(oldId))
  {
    assert [Revoke(oldId)][..0] == [];
  }

  lemma Created(t: Tables, user: nat, newId: nat, now: int)
    ensures newId in Commit(t, Creation(user, newId, now)).sessions
  {
    var c := Creation(user, newId, now);
    assert c[..1] == [Insert(newId, user)] && c[..1][..0] == [];
    assert Commit(t, c[..1]) == Apply(Commit(t, []), Insert(newId, user));
  }

  /** Starting from a live session, one transaction never strands the client; two always can. */
  lemma OnlyTwoStepStrands(t: Tables, oldId: nat, user: nat, newId: nat, now: int)
    requires Live(t, oldId) && newId !in t.sessions
    ensures !Strands(t, Fused(oldId, user, newId, now), oldId, newId)
    ensures Strands(t, TwoStep(oldId, user, newId, now), oldId, newId)
  {
    var fused, two := Fused(oldId, user, newId, now), TwoStep(oldId, user, newId, now);
    CommitAppend(t, [Revoke(oldId)], Creation(user, newId, now));
    Revoked(t, oldId);
    Created(Commit(t, [Revoke(oldId)]), user, newId, now);
    assert After(t, fused, 0) == t && After(t, fused, 1) == Commit(After(t, fused, 0), fused[0]);
    assert After(t, two, 1) == Commit(After(t, two, 0), two[0]);
    assert Stranded(After(t, two, 1), oldId, newId);
  }

  /** After the rotation the old session is revoked, the new one is the user's and live, and the login is stamped. */
  lemma RotationResult(t: Tables, oldId: nat, user: nat, newId: nat, now: int)
    requires oldId in t.sessions && newId != oldId
    ensures var r := After(t, Fused(oldId, user, newId, now), 1);
            && r.sessions == t.sessions[oldId := Session(t.sessions[oldId].user, true)][newId := Session(user, false)]
            && r.lastLogin == if user in t.lastLogin then t.lastLogin[user := now] else t.lastLogin
  {
    var fused := Fused(oldId, user, newId, now);
    var c := Creation(user, newId, now);
    CommitAppend(t, [Revoke(oldId)], c);
    Revoked(t, oldId);
    assert c[..1] == [Insert(newId, user)] && c[..1][..0] == [];
    var u := Commit(t, [Revoke(oldId)]);
    assert Commit(u, c[..1]) == Apply(Commit(u, []), Insert(newId, user));
    assert After(t, fused, 1) == Commit(After(t, fused, 0), fused[0]);
  }
}
