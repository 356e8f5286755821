/**
 Upload admission: the user's envelope and the drive's cap, asked for one after the other or
 with one joined query, over the machine integers the counters are kept in.
 */
module Quota {
  import opened MachineInts
  import opened Wrappers

  /** `as i64`, and what an `i64` addition leaves when it wraps. */
  function Wrap(x: int): (r: I64)
    ensures r % TWO_64 == x % TWO_64
  {
    var m := x % TWO_64;
    if m < TWO_63 then m else m - TWO_64
  }

  /** `used` is the counter column, `stored` the bytes really held. */
  datatype User = User(used: I64, quota: I64, stored: int)
  datatype Drive = Drive(used: I64, quota: Option<I64>, stored: int)
  datatype State = State(users: map<nat, User>, drives: map<nat, Drive>)
  datatype Request = Request(user: nat, drive: nat, additional: U64)
  datatype Verdict = Accepted | UserQuotaExceeded | DriveQuotaExceeded | DriveNotFound

  predicate EnvelopeAdmits(user: User, additional: U64) {
    user.quota <= 0
    || (Wrap(additional) <= user.quota && Wrap(user.used + Wrap(additional)) <= user.quota)
  }

  /** The drive's sum is formed in 128 bits. */
  predicate CapAdmits(used: I64, quota: Option<I64>, additional: U64) {
    quota.None? || used + additional <= quota.value
  }

  /**
   When the envelope refuses, in whole numbers: a limited user's size is taken as an `i64`, so
   that 2^63 and more count as negative, and is refused when it alone, or the counter with it,
   lies above the quota.  A sum outside the range of an `i64` comes back 2^64 lower or higher.
   */
  predicate EnvelopeRefuses(user: User, additional: U64) {
    var size := if additional < TWO_63 then additional else additional - TWO_64;
    && user.quota > 0
    && (|| size > user.quota
        || user.quota < user.used + size < TWO_63
        || user.quota - TWO_64 < user.used + size < -TWO_63)
  }

  /** Which verdict is given when, from the columns. */
  ghost predicate Answers(s: State, r: Request, verdict: Verdict)
    requires r.user in s.users
  {
    var refused := EnvelopeRefuses(s.users[r.user], r.additional);
    var full := r.drive in s.drives && s.drives[r.drive].quota.Some?
                && s.drives[r.drive].used + r.additional > s.drives[r.drive].quota.value;
    && (verdict == UserQuotaExceeded <==> refused)
    && (verdict == DriveNotFound <==> !refused && r.drive !in s.drives)
    && (verdict == DriveQuotaExceeded <==> !refused && full)
    && (verdict == Accepted <==> !refused && r.drive in s.drives && !full)
  }

  /** The user is read and judged, then the drive. */
  method CheckSerial(s: State, r: Request) returns (verdict: Verdict)
    requires r.user in s.users
    ensures verdict == Judge(s, r) && Answers(s, r, verdict)
  {
    JudgeAnswers(s, r);
    var user := s.users[r.user];
    if user.quota > 0 {
      var additional := Wrap(r.additional);
      if additional > user.quota || Wrap(user.used + additional) > user.quota {
        return UserQuotaExceeded;
      }
    }
    if r.drive !in s.drives {
      return DriveNotFound;
    }
    var drive := s.drives[r.drive];
    if drive.quota.None? {
      return Accepted;
    }
    if drive.used + r.additional > drive.quota.value {
      return DriveQuotaExceeded;
    }
    return Accepted;
  }

  /** The row of the left join: the drive's columns are null when there is no such drive. */
  datatype Joined = Joined(used: I64, quota: I64, driveUsed: Option<I64>, driveQuota: Option<I64>, driveFound: bool)

  function Join(s: State, r: Request): Joined
    requires r.user in s.users
  {
    var user := s.users[r.user];
    if r.drive in s.drives then
      Joined(user.used, user.quota, Some(s.drives[r.drive].used), s.drives[r.drive].quota, true)
    else Joined(user.used, user.quota, None, None, false)
  }

  /** Both are judged from one joined row. */
  method CheckFused(s: State, r: Request) returns (verdict: Verdict)
    requires r.user in s.users
    ensures verdict == Judge(s, r) && Answers(s, r, verdict)
  {
    JudgeAnswers(s, r);
    var row := Join(s, r);
    if row.quota > 0 {
      var additional := Wrap(r.additional);
      if additional > row.quota || Wrap(row.used + additional) > row.quota {
        return UserQuotaExceeded;
      }
    }
    if !row.driveFound {
      return DriveNotFound;
    }
    if row.driveQuota.None? {
      return Accepted;
    }
    var driveUsed := if row.driveUsed.Some? then row.driveUsed.value else 0;
    if driveUsed + r.additional > row.driveQuota.value {
      return DriveQuotaExceeded;
    }
    return Accepted;
  }

  /** The verdict both ways of asking give: envelope first, then the drive's existence, then its cap. */
  function Judge(s: State, r: Request): Verdict
    requires r.user in s.users
  {
    if !EnvelopeAdmits(s.users[r.user], r.additional) then UserQuotaExceeded
    else if r.drive !in s.drives then DriveNotFound
    else if !CapAdmits(s.drives[r.drive].used, s.drives[r.drive].quota, r.additional) then DriveQuotaExceeded
    else Accepted
  }

  lemma WrapSum(x: int)
    requires -TWO_64 <= x < TWO_64
    ensures Wrap(x) == if x < -TWO_63 then x + TWO_64 else if x < TWO_63 then x else x - TWO_64
  {
    if x < -TWO_63 {
      assert x % TWO_64 == (x + TWO_64) % TWO_64;
      WrapOnce(x + TWO_64);
    } else {
      WrapOnce(x);
    }
  }

  lemma JudgeAnswers(s: State, r: Request)
    requires r.user in s.users
    ensures Answers(s, r, Judge(s, r))
  {
    WrapOnce(r.additional);
    WrapSum(s.users[r.user].used + Wrap(r.additional));
  }

  // ----- the envelope in machine integers

  /** What the envelope promises, in whole numbers. */
  predicate Fits(user: User, additional: U64) {
    user.quota <= 0 || user.used + additional <= user.quota
  }

  /**
   The envelope test answers as whole numbers would exactly when neither the conversion nor
   the sum goes round.  A size of 2^63 or more turns negative and is refused only while the
   sum stays above the quota.
   */
  lemma EnvelopeExactIff(user: User, additional: U64)
    requires 0 <= user.used
    ensures (EnvelopeAdmits(user, additional) <==> Fits(user, additional)) <==>
            || user.quota <= 0
            || (additional <= I64_MAX && (additional > user.quota || user.used + additional <= I64_MAX))
            || (additional > I64_MAX && user.used + additional > TWO_64 + user.quota)
  {
    WrapOnce(additional);
    WrapOnce(user.used + Wrap(additional));
  }

  lemma WrapOnce(x: int)
    requires -TWO_63 <= x < TWO_64
    ensures Wrap(x) == if x < TWO_63 then x else x - TWO_64
  {
    if 0 <= x {
      assert x % TWO_64 == x;
    } else {
      assert x % TWO_64 == x + TWO_64;
    }
  }

  ghost predicate Keeps(quota: I64) {
    forall used: I64, additional: U64 ::
      used <= quota && additional <= I64_MAX && EnvelopeAdmits(User(used, quota, used), additional) ==>
      used + additional <= quota
  }

  /**
   With sizes that fit an `i64`, admission keeps a user inside the envelope exactly for quotas
   below 2^62.  At 2^62 a full user sending 2^62 bytes is admitted.
   */
  lemma EnvelopeKeptIff(quota: I64)
    requires quota > 0
    ensures Keeps(quota) <==> quota < TWO_63 / 2
  {
    if quota < TWO_63 / 2 {
      forall used: I64, additional: U64 |
        used <= quota && additional <= I64_MAX && EnvelopeAdmits(User(used, quota, used), additional)
        ensures used + additional <= quota
      {
        WrapOnce(additional);
        WrapOnce(used + additional);
      }
    } else {
      WrapOnce(quota);
      WrapOnce(quota + quota);
      assert EnvelopeAdmits(User(quota, quota, quota), quota);
    }
  }

  /** No quota holds against sizes of 2^63 and more: the largest one counts as -1. */
  lemma HugeSizeAdmitted(user: User)
    requires 0 <= user.used <= user.quota
    ensures exists additional: U64 :: EnvelopeAdmits(user, additional) && (user.quota > 0 ==> !Fits(user, additional))
  {
    var additional: U64 := TWO_64 - 1;
    WrapOnce(additional);
    WrapOnce(user.used - 1);
    assert EnvelopeAdmits(user, additional);
  }

  // ----- runs of uploads

  /** The counter after a charge, clamped at zero; a sum outside the column's range fails and changes nothing. */
  function Charge(used: I64, additional: U64): I64 {
    var sum := used + Wrap(additional);
    if sum > I64_MAX then used else if sum < 0 then 0 else sum
  }

  /** An accepted upload is stored, then charged to the user's counter and to the drive's. */
  function Upload(s: State, r: Request): State {
    if r.user !in s.users || Judge(s, r) != Accepted then s else
    var user, drive := s.users[r.user], s.drives[r.drive];
    State(s.users[r.user := User(Charge(user.used, r.additional), user.quota, user.stored + r.additional)],
          s.drives[r.drive := Drive(Charge(drive.used, r.additional), drive.quota, drive.stored + r.additional)])
  }

  function Uploads(s: State, rs: seq<Request>): State {
    if rs == [] then s else Upload(Uploads(s, rs[..|rs| - 1]), rs[|rs| - 1])
  }

  /** The bytes of the uploads of a run that were accepted onto a drive. */
  function AcceptedBytes(s: State, rs: seq<Request>, drive: nat): nat {
    if rs == [] then 0
    else
      var n := |rs| - 1;
      var t := Uploads(s, rs[..n]);
      var taken := rs[n].drive == drive && rs[n].user in t.users && Judge(t, rs[n]) == Accepted;
      AcceptedBytes(s, rs[..n], drive) + if taken then rs[n].additional else 0
  }

  /** The bytes of the uploads of a run that were accepted from a user. */
  function AcceptedFrom(s: State, rs: seq<Request>, user: nat): nat {
    if rs == [] then 0
    else
      var n := |rs| - 1;
      var t := Uploads(s, rs[..n]);
      var taken := rs[n].user == user && rs[n].user in t.users && Judge(t, rs[n]) == Accepted;
      AcceptedFrom(s, rs[..n], user) + if taken then rs[n].additional else 0
  }

  lemma {:induction false} UserBytesConserved(s: State, rs: seq<Request>, user: nat)
    requires user in s.users
    ensures user in Uploads(s, rs).users
    ensures Uploads(s, rs).users[user].stored == s.users[user].stored + AcceptedFrom(s, rs, user)
    decreases |rs|
  {
    if rs != [] {
      UserBytesConserved(s, rs[..|rs| - 1], user);
    }
  }

  /** Nothing accepted is lost and nothing refused is stored: a drive holds what it held and the accepted bytes. */
  lemma {:induction false} BytesConserved(s: State, rs: seq<Request>, drive: nat)
    requires drive in s.drives
    ensures drive in Uploads(s, rs).drives
    ensures Uploads(s, rs).drives[drive].stored == s.drives[drive].stored + AcceptedBytes(s, rs, drive)
    decreases |rs|
  {
    if rs != [] {
      BytesConserved(s, rs[..|rs| - 1], drive);
    }
  }

  /** Every limited user's counter is exact and inside the quota. */
  ghost predicate EnvelopesHeld(s: State) {
    forall u :: u in s.users && s.users[u].quota > 0 ==> 0 <= s.users[u].used == s.users[u].stored <= s.users[u].quota
  }

  ghost predicate CapsHeld(s: State) {
    forall d :: d in s.drives && s.drives[d].quota.Some? ==>
      0 <= s.drives[d].used == s.drives[d].stored <= s.drives[d].quota.value
  }

  ghost predicate QuotasKept(s: State, t: State) {
    && s.users.Keys == t.users.Keys && (forall u :: u in s.users ==> s.users[u].quota == t.users[u].quota)
    && s.drives.Keys == t.drives.Keys && (forall d :: d in s.drives ==> s.drives[d].quota == t.drives[d].quota)
  }

  /** Drive caps hold over every run, whatever the sizes. */
  lemma {:induction false} CapsKept(s: State, rs: seq<Request>)
    requires CapsHeld(s)
    ensures CapsHeld(Uploads(s, rs))
    decreases |rs|
  {
    if rs != [] {
      var n := |rs| - 1;
      CapsKept(s, rs[..n]);
      if rs[n].additional <= I64_MAX {
        WrapOnce(rs[n].additional);
      }
    }
  }

  /** Envelopes hold over every run when quotas are below 2^62 and sizes fit an `i64`. */
  lemma {:induction false} EnvelopesKept(s: State, rs: seq<Request>)
    requires EnvelopesHeld(s)
    requires forall u :: u in s.users ==> s.users[u].quota < TWO_63 / 2
    requires forall r :: r in rs ==> r.additional <= I64_MAX
    ensures EnvelopesHeld(Uploads(s, rs)) && QuotasKept(s, Uploads(s, rs))
    decreases |rs|
  {
    if rs != [] {
      var n := |rs| - 1;
      EnvelopesKept(s, rs[..n]);
      var t := Uploads(s, rs[..n]);
      WrapOnce(rs[n].additional);
      if rs[n].user in t.users && t.users[rs[n].user].quota > 0 {
        var user := t.users[rs[n].user];
        EnvelopeKeptIff(user.quota);
        assert user == User(user.used, user.quota, user.used);
      }
    }
  }

  /** At quota 2^62 one upload can carry a user past it. */
  lemma EnvelopeLost()
    ensures exists s: State, r: Request ::
              EnvelopesHeld(s) && (forall u :: u in s.users ==> s.users[u].quota <= TWO_63 / 2)
              && r.additional <= I64_MAX && !EnvelopesHeld(Upload(s, r))
  {
    var half := TWO_63 / 2;
    var s := State(map[0 := User(half, half, half)], map[0 := Drive(0, None, 0)]);
    WrapOnce(half);
    WrapOnce(half + half);
    var r := Request(0, 0, half);
    assert Upload(s, r).users[0].stored == half + half;
  }

  // ----- uploads side by side

  /** A capped drive's counter, and the uploads accepted but not yet charged. */
  datatype Flight = Flight(used: I64, pending: seq<U64>)

  /** An upload is judged by the counter as it stands; later, in any order, it is charged. */
  datatype Move = Ask(additional: U64) | Land(k: nat)

  function Sum(sizes: seq<U64>): nat {
    if sizes == [] then 0 else sizes[0] + Sum(sizes[1..])
  }

  predicate Admitted(f: Flight, cap: I64, m: Move) {
    m.Ask? && CapAdmits(f.used, Some(cap), m.additional)
  }

  function Next(f: Flight, cap: I64, m: Move): Flight {
    match m
    case Ask(additional) => if Admitted(f, cap, m) then f.(pending := f.pending + [additional]) else f
    case Land(k) =>
      if k < |f.pending| then Flight(Charge(f.used, f.pending[k]), f.pending[..k] + f.pending[k + 1..]) else f
  }

  function Fly(f: Flight, cap: I64, moves: seq<Move>): Flight {
    if moves == [] then f else Next(Fly(f, cap, moves[..|moves| - 1]), cap, moves[|moves| - 1])
  }

  lemma {:induction false} SumAppend(a: seq<U64>, b: seq<U64>)
    ensures Sum(a + b) == Sum(a) + Sum(b)
  {
    if a == [] {
      assert a + b == b;
    } else {
      SumAppend(a[1..], b);
      assert (a + b)[1..] == a[1..] + b;
    }
  }

  lemma SumOne(x: U64)
    ensures Sum([x]) == x
  {
    assert [x][1..] == [];
  }

  lemma SumWithout(s: seq<U64>, k: nat)
    requires k < |s|
    ensures Sum(s) == Sum(s[..k] + s[k + 1..]) + s[k]
  {
    SumAppend(s[..k], s[k + 1..]);
    SumAppend(s[..k] + [s[k]], s[k + 1..]);
    SumAppend(s[..k], [s[k]]);
    SumOne(s[k]);
    assert s == s[..k] + [s[k]] + s[k + 1..];
  }

  /** Counters start at zero or above, and what was accepted fits an `i64`. */
  ghost predicate Sound(f: Flight) {
    f.used >= 0 && forall i :: 0 <= i < |f.pending| ==> f.pending[i] <= I64_MAX
  }

  /** What an acceptance adds and a charge leaves. */
  lemma NextTotal(f: Flight, cap: I64, m: Move)
    requires Sound(f)
    ensures Sound(Next(f, cap, m))
    ensures Admitted(f, cap, m) ==>
              Next(f, cap, m).used == f.used && Sum(Next(f, cap, m).pending) == Sum(f.pending) + m.additional
    ensures !Admitted(f, cap, m) ==>
              Next(f, cap, m).used + Sum(Next(f, cap, m).pending) <= f.used + Sum(f.pending)
  {
    match m {
      case Ask(additional) =>
        SumAppend(f.pending, [additional]);
        SumOne(additional);
      case Land(k) =>
        if k < |f.pending| {
          SumWithout(f.pending, k);
          WrapOnce(f.pending[k]);
        }
    }
  }

  /** Whenever an upload was accepted, at most `most` accepted bytes were still uncharged. */
  ghost predicate AtMostPending(f: Flight, cap: I64, moves: seq<Move>, most: nat) {
    moves != [] ==>
      var front, m := moves[..|moves| - 1], moves[|moves| - 1];
      && AtMostPending(f, cap, front, most)
      && (Admitted(Fly(f, cap, front), cap, m) ==> Sum(Fly(f, cap, front).pending) <= most)
  }

  /** In every interleaving the cap is passed by no more than what was pending at some acceptance. */
  lemma {:induction false} OvershootBounded(f: Flight, cap: I64, moves: seq<Move>, most: nat)
    requires Sound(f) && f.used <= cap && f.pending == [] && AtMostPending(f, cap, moves, most)
    ensures Sound(Fly(f, cap, moves))
    ensures Fly(f, cap, moves).used + Sum(Fly(f, cap, moves).pending) <= cap + most
  {
    if moves != [] {
      var front := moves[..|moves| - 1];
      OvershootBounded(f, cap, front, most);
      NextTotal(Fly(f, cap, front), cap, moves[|moves| - 1]);
    }
  }

  ghost predicate AlwaysWithin(f: Flight, cap: I64, moves: seq<Move>) {
    && Fly(f, cap, moves).used + Sum(Fly(f, cap, moves).pending) <= cap
    && (moves != [] ==> AlwaysWithin(f, cap, moves[..|moves| - 1]))
  }

  /** Every accepted upload fitted together with all that was accepted and uncharged. */
  ghost predicate FitsWithPending(f: Flight, cap: I64, moves: seq<Move>) {
    moves != [] ==>
      var front, m := moves[..|moves| - 1], moves[|moves| - 1];
      var g := Fly(f, cap, front);
      FitsWithPending(f, cap, front) && (Admitted(g, cap, m) ==> g.used + Sum(g.pending) + m.additional <= cap)
  }

  /** The cap covers all accepted bytes all the time exactly when each upload fits with what is pending. */
  lemma {:induction false} InFlightIff(f: Flight, cap: I64, moves: seq<Move>)
    requires Sound(f) && f.used <= cap && f.pending == []
    ensures Sound(Fly(f, cap, moves))
    ensures AlwaysWithin(f, cap, moves) <==> FitsWithPending(f, cap, moves)
  {
    if moves != [] {
      var front := moves[..|moves| - 1];
      InFlightIff(f, cap, front);
      NextTotal(Fly(f, cap, front), cap, moves[|moves| - 1]);
    }
  }

  /** The bytes accepted in a run with uploads in flight. */
  function AskedBytes(f: Flight, cap: I64, moves: seq<Move>): nat {
    if moves == [] then 0
    else
      var front, m := moves[..|moves| - 1], moves[|moves| - 1];
      var taken := m.Ask? && Fly(f, cap, front).used + m.additional <= cap;
      AskedBytes(f, cap, front) + if taken then m.additional else 0
  }

  /** In every interleaving all accepted bytes are charged or in flight, while the counter has room for them. */
  lemma {:induction false} FlightConserved(f: Flight, cap: I64, moves: seq<Move>)
    requires Sound(f) && f.pending == [] && f.used + AskedBytes(f, cap, moves) <= I64_MAX
    ensures Sound(Fly(f, cap, moves))
    ensures Fly(f, cap, moves).used + Sum(Fly(f, cap, moves).pending) == f.used + AskedBytes(f, cap, moves)
  {
    if moves != [] {
      var front, m := moves[..|moves| - 1], moves[|moves| - 1];
      FlightConserved(f, cap, front);
      NextTotal(Fly(f, cap, front), cap, m);
      if m.Land? {
        LandTotal(Fly(f, cap, front), cap, m.k);
      }
    }
  }

  lemma LandTotal(f: Flight, cap: I64, k: nat)
    requires Sound(f) && f.used + Sum(f.pending) <= I64_MAX
    ensures Next(f, cap, Land(k)).used + Sum(Next(f, cap, Land(k)).pending) == f.used + Sum(f.pending)
  {
    if k < |f.pending| {
      SumWithout(f.pending, k);
      WrapOnce(f.pending[k]);
    }
  }

  /** Two uploads of 6 bytes, both judged before either is charged, pass a cap of 10. */
  lemma BothAccepted()
    ensures Fly(Flight(0, []), 10, [Ask(6), Ask(6), Land(0), Land(0)]) == Flight(12, [])
  {
    var moves := [Ask(6), Ask(6), Land(0), Land(0)];
    assert moves[..3][..2] == moves[..2] && moves[..2][..1] == moves[..1] && moves[..1][..0] == [];
    WrapOnce(6);
    assert Fly(Flight(0, []), 10, moves[..1]) == Flight(0, [6]);
    assert Fly(Flight(0, []), 10, moves[..2]) == Flight(0, [6, 6]);
    assert Fly(Flight(0, []), 10, moves[..3]) == Flight(6, [6]);
  }
}
