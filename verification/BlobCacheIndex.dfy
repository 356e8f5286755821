/**
 The disk cache of blobs and its byte-budget index. Every indexed blob has its file; blobs
 pushed out for size lose theirs, replaced ones keep it. Which entries are pushed out is the
 index's own affair, so victims are arbitrary.
 */
module BlobCacheIndex {
  import opened Sequences
  import opened Wrappers

  const U32_MAX: nat := 0xFFFF_FFFF

  /** The weight an entry counts with: its size, at least 1, at most 32 bits. */
  function Weight(size: nat): nat {
    if size < 1 then 1 else if size > U32_MAX then U32_MAX else size
  }

  /** cache_dir/<first two characters>/<hash>.blob */
  function Path(dir: string, hash: string): string {
    var prefix := if |hash| < 2 then hash else hash[..2];
    dir + "/" + prefix + "/" + hash + ".blob"
  }

  /** Different blobs have different files. */
  lemma PathInjective(dir: string, a: string, b: string)
    requires Path(dir, a) == Path(dir, b)
    ensures a == b
  {
    PathTail(dir, a);
    PathTail(dir, b);
    assert |Path(dir, a)| == |Path(dir, b)|;
    assert |a| == |b|;
  }

  lemma PathTail(dir: string, h: string)
    ensures |Path(dir, h)| == |dir| + 7 + |h| + if |h| < 2 then |h| else 2
    ensures Path(dir, h)[|Path(dir, h)| - 5 - |h|..|Path(dir, h)| - 5] == h
  {
    var prefix := if |h| < 2 then h else h[..2];
    var front := dir + "/" + prefix + "/";
    assert Path(dir, h) == front + h + ".blob";
    assert Path(dir, h)[|front|..|front| + |h|] == h;
  }

  // ----- totals over an index

  /** The sum of a measure of the sizes of all entries. */
  ghost function Total(f: nat -> nat, index: map<string, nat>): nat
    decreases |index|
  {
    if index == map[] then 0
    else
      var h :| h in index;
      f(index[h]) + Total(f, index - {h})
  }

  lemma {:induction false} TotalWithout(f: nat -> nat, index: map<string, nat>, h: string)
    requires h in index
    ensures Total(f, index) == f(index[h]) + Total(f, index - {h})
    decreases |index|
  {
    var k :| k in index && Total(f, index) == f(index[k]) + Total(f, index - {k});
    if k != h {
      TotalWithout(f, index - {k}, h);
      TotalWithout(f, index - {h}, k);
      assert index - {k} - {h} == index - {h} - {k};
    }
  }

  function Size(): nat -> nat { (size: nat) => size }
  function Weighing(): nat -> nat { (size: nat) => Weight(size) }

  /** Bytes the weigher does not see. */
  function Unseen(): nat -> nat { (size: nat) => if size > U32_MAX then size - U32_MAX else 0 }

  /** What an empty blob weighs for nothing. */
  function Padding(): nat -> nat { (size: nat) => if size == 0 then 1 else 0 }

  /** Exactly how far the weights are from the bytes on disk. */
  lemma {:induction false} WeightsAndBytes(index: map<string, nat>)
    ensures Total(Size(), index) + Total(Padding(), index) == Total(Weighing(), index) + Total(Unseen(), index)
    decreases |index|
  {
    if index != map[] {
      var h :| h in index;
      TotalWithout(Size(), index, h);
      TotalWithout(Padding(), index, h);
      TotalWithout(Weighing(), index, h);
      TotalWithout(Unseen(), index, h);
      WeightsAndBytes(index - {h});
    }
  }

  lemma {:induction false} NothingUnseen(index: map<string, nat>)
    requires forall h :: h in index ==> index[h] <= U32_MAX
    ensures Total(Unseen(), index) == 0
    decreases |index|
  {
    if index != map[] {
      var h :| h in index;
      TotalWithout(Unseen(), index, h);
      NothingUnseen(index - {h});
    }
  }

  /** An index within its budget of weight is within it in bytes if no blob exceeds 32 bits. */
  lemma BytesWithinBudget(index: map<string, nat>, budget: nat)
    requires Total(Weighing(), index) <= budget
    ensures Total(Size(), index) <= budget + Total(Unseen(), index)
    ensures (forall h :: h in index ==> index[h] <= U32_MAX) ==> Total(Size(), index) <= budget
  {
    WeightsAndBytes(index);
    if forall h :: h in index ==> index[h] <= U32_MAX {
      NothingUnseen(index);
    }
  }

  /** A larger blob does go past the budget unseen. */
  lemma OversizeUnseen(hash: string, size: nat)
    requires size > U32_MAX
    ensures Total(Weighing(), map[hash := size]) == U32_MAX && Total(Size(), map[hash := size]) == size
  {
    var index := map[hash := size];
    TotalWithout(Weighing(), index, hash);
    TotalWithout(Size(), index, hash);
    assert index - {hash} == map[];
  }

  // ----- index and files, one action at a time

  /** The index, and what lies at each path. */
  datatype Cache = Cache(index: map<string, nat>, disk: map<string, nat>)

  /**
   The actions tasks interleave.  `left` is what a write left at the path: the whole blob, a
   part of it, or nothing.
   */
  datatype Step =
    | Write(hash: string, left: Option<nat>)
    | Insert(hash: string, size: nat)
    | Forget(hash: string)  // the entry is invalidated
    | Unlink(hash: string)  // the file of a forgotten entry is removed
    | Evict(hash: string)   // an entry is pushed out for size, and its file with it

  const EMPTY := Cache(map[], map[])

  function Apply(dir: string, c: Cache, step: Step): Cache {
    var path := Path(dir, step.hash);
    match step
    case Write(_, left) => c.(disk := if left.Some? then c.disk[path := left.value] else c.disk - {path})
    case Insert(hash, size) => c.(index := c.index[hash := size])
    case Forget(hash) => c.(index := c.index - {hash})
    case Unlink(_) => c.(disk := c.disk - {path})
    case Evict(hash) => if hash in c.index then Cache(c.index - {hash}, c.disk - {path}) else c
  }

  function Run(dir: string, steps: seq<Step>): Cache {
    if steps == [] then EMPTY else Apply(dir, Run(dir, steps[..|steps| - 1]), steps[|steps| - 1])
  }

  function FileAt(dir: string, c: Cache, hash: string): Option<nat> {
    if Path(dir, hash) in c.disk then Some(c.disk[Path(dir, hash)]) else None
  }

  function EntryAt(c: Cache, hash: string): Option<nat> {
    if hash in c.index then Some(c.index[hash]) else None
  }

  ghost predicate BackedAt(dir: string, c: Cache, hash: string) {
    EntryAt(c, hash).Some? ==> FileAt(dir, c, hash) == EntryAt(c, hash)
  }

  /** Every entry has its file, of the size the entry says. */
  ghost predicate Backed(dir: string, c: Cache) {
    forall hash :: BackedAt(dir, c, hash)
  }

  /** An action on one blob leaves every other blob's entry and file alone. */
  lemma OthersUntouched(dir: string, c: Cache, step: Step, hash: string)
    requires hash != step.hash
    ensures FileAt(dir, Apply(dir, c, step), hash) == FileAt(dir, c, hash)
    ensures EntryAt(Apply(dir, c, step), hash) == EntryAt(c, hash)
  {
    if Path(dir, hash) == Path(dir, step.hash) {
      PathInjective(dir, hash, step.hash);
    }
  }

  // ----- the history of one blob

  datatype Trace = Trace(file: Option<nat>, entry: Option<nat>)

  function Next(t: Trace, step: Step): Trace {
    match step
    case Write(_, left) => t.(file := left)
    case Insert(_, size) => t.(entry := Some(size))
    case Forget(_) => t.(entry := None)
    case Unlink(_) => t.(file := None)
    case Evict(_) => if t.entry.Some? then Trace(None, None) else t
  }

  /** What the actions on one blob, in their order, make of its file and entry. */
  function History(steps: seq<Step>, hash: string): Trace {
    if steps == [] then Trace(None, None)
    else
      var t, step := History(steps[..|steps| - 1], hash), steps[|steps| - 1];
      if step.hash == hash then Next(t, step) else t
  }

  lemma {:induction false} HistoryIs(dir: string, steps: seq<Step>, hash: string)
    ensures Trace(FileAt(dir, Run(dir, steps), hash), EntryAt(Run(dir, steps), hash)) == History(steps, hash)
  {
    if steps != [] {
      var n := |steps| - 1;
      HistoryIs(dir, steps[..n], hash);
      if steps[n].hash != hash {
        OthersUntouched(dir, Run(dir, steps[..n]), steps[n], hash);
      }
    }
  }

  /** `steps[i]` indexed the blob, and no later action indexed it again, forgot it or evicted it. */
  ghost predicate IndexedAt(steps: seq<Step>, i: nat, hash: string, size: nat) {
    && i < |steps| && steps[i] == Insert(hash, size)
    && forall j :: i < j < |steps| && steps[j].hash == hash ==> steps[j].Write? || steps[j].Unlink?
  }

  ghost predicate Indexed(steps: seq<Step>, hash: string, size: nat) {
    exists i: nat :: IndexedAt(steps, i, hash, size)
  }

  lemma IndexedSnoc(steps: seq<Step>, step: Step, hash: string, size: nat)
    ensures Indexed(steps + [step], hash, size) <==>
            || step == Insert(hash, size)
            || (Indexed(steps, hash, size) && (step.hash == hash ==> step.Write? || step.Unlink?))
  {
    var all, n := steps + [step], |steps|;
    assert forall j :: 0 <= j < n ==> all[j] == steps[j];
    if step == Insert(hash, size) {
      assert IndexedAt(all, n, hash, size);
    }
    if i: nat :| IndexedAt(steps, i, hash, size) {
      assert step.hash != hash || step.Write? || step.Unlink? ==> IndexedAt(all, i, hash, size);
    }
    if i: nat :| IndexedAt(all, i, hash, size) {
      assert all[n] == step;
      assert i < n ==> IndexedAt(steps, i, hash, size);
    }
  }

  /** The blob has its entry exactly when it was not forgotten, evicted or indexed anew since it was indexed. */
  lemma {:induction false} IndexedSince(steps: seq<Step>, hash: string, size: nat)
    ensures History(steps, hash).entry == Some(size) <==> Indexed(steps, hash, size)
  {
    if steps != [] {
      var n := |steps| - 1;
      IndexedSince(steps[..n], hash, size);
      LastSnoc(steps);
      IndexedSnoc(steps[..n], steps[n], hash, size);
    }
  }

  lemma UnindexedIs(steps: seq<Step>, hash: string)
    ensures History(steps, hash).entry.None? <==> forall size: nat :: !Indexed(steps, hash, size)
  {
    forall size: nat ensures History(steps, hash).entry == Some(size) <==> Indexed(steps, hash, size) {
      IndexedSince(steps, hash, size);
    }
    if History(steps, hash).entry.Some? {
      assert Indexed(steps, hash, History(steps, hash).entry.value);
    }
  }

  /** The action takes the blob's file away or overwrites it; an eviction does so while the blob is indexed. */
  ghost predicate Clears(steps: seq<Step>, step: Step, hash: string) {
    && step.hash == hash
    && (step.Write? || step.Unlink? || (step.Evict? && exists size: nat :: Indexed(steps, hash, size)))
  }

  /** `steps[i]` wrote the whole file, and no later action cleared it. */
  ghost predicate WrittenAt(steps: seq<Step>, i: nat, hash: string, size: nat) {
    && i < |steps| && steps[i] == Write(hash, Some(size))
    && forall j :: i < j < |steps| ==> !Clears(steps[..j], steps[j], hash)
  }

  ghost predicate Written(steps: seq<Step>, hash: string, size: nat) {
    exists i: nat :: WrittenAt(steps, i, hash, size)
  }

  lemma WrittenSnoc(steps: seq<Step>, step: Step, hash: string, size: nat)
    ensures Written(steps + [step], hash, size) <==>
            step == Write(hash, Some(size)) || (Written(steps, hash, size) && !Clears(steps, step, hash))
  {
    var all, n := steps + [step], |steps|;
    assert all[..n] == steps && all[n] == step;
    assert forall j :: 0 <= j < n ==> all[j] == steps[j] && all[..j] == steps[..j];
    if step == Write(hash, Some(size)) {
      assert WrittenAt(all, n, hash, size);
    }
    if i: nat :| WrittenAt(steps, i, hash, size) {
      assert !Clears(steps, step, hash) ==> WrittenAt(all, i, hash, size);
    }
    if i: nat :| WrittenAt(all, i, hash, size) {
      assert i < n ==> WrittenAt(steps, i, hash, size);
    }
  }

  /** The whole blob is on disk exactly when it was not overwritten, evicted or dropped since its file was written. */
  lemma {:induction false} WrittenSince(steps: seq<Step>, hash: string, size: nat)
    ensures History(steps, hash).file == Some(size) <==> Written(steps, hash, size)
  {
    if steps != [] {
      var n := |steps| - 1;
      WrittenSince(steps[..n], hash, size);
      LastSnoc(steps);
      WrittenSnoc(steps[..n], steps[n], hash, size);
      UnindexedIs(steps[..n], hash);
    }
  }

  // ----- when the index and the files stay in step

  /** The action keeps the blob in step. */
  predicate Keeps(t: Trace, step: Step) {
    match step
    case Write(_, left) => t.entry.None? || left == t.entry
    case Insert(_, size) => t.file == Some(size)
    case Unlink(_) => t.entry.None?
    case Forget(_) => true
    case Evict(_) => true
  }

  /**
   The action fits the actions before it: a blob is indexed only if its whole file was written
   and not cleared since, an indexed blob is overwritten only by itself, and its file is
   removed only while the blob is not indexed.
   */
  ghost predicate Fits(steps: seq<Step>, step: Step) {
    match step
    case Write(hash, left) => forall size: nat :: Indexed(steps, hash, size) ==> left == Some(size)
    case Insert(hash, size) => Written(steps, hash, size)
    case Unlink(hash) => forall size: nat :: !Indexed(steps, hash, size)
    case Forget(_) => true
    case Evict(_) => true
  }

  lemma FitsIs(steps: seq<Step>, step: Step)
    ensures Fits(steps, step) <==> Keeps(History(steps, step.hash), step)
  {
    UnindexedIs(steps, step.hash);
    match step {
      case Insert(hash, size) => WrittenSince(steps, hash, size);
      case Write(hash, left) =>
        forall size: nat ensures History(steps, hash).entry == Some(size) <==> Indexed(steps, hash, size) {
          IndexedSince(steps, hash, size);
        }
      case Unlink(_) =>
      case Forget(_) =>
      case Evict(_) =>
    }
  }

  ghost predicate Undisturbed(steps: seq<Step>) {
    forall j :: 0 <= j < |steps| ==> Fits(steps[..j], steps[j])
  }

  lemma StepBackedIff(dir: string, steps: seq<Step>, step: Step)
    requires Backed(dir, Run(dir, steps))
    ensures Backed(dir, Apply(dir, Run(dir, steps), step)) <==> Fits(steps, step)
  {
    var c, h := Run(dir, steps), step.hash;
    HistoryIs(dir, steps, h);
    assert BackedAt(dir, c, h);
    FitsIs(steps, step);
    assert BackedAt(dir, Apply(dir, c, step), h) <==> Keeps(History(steps, h), step);
    forall k | k != h ensures BackedAt(dir, Apply(dir, c, step), k) {
      OthersUntouched(dir, c, step, k);
      assert BackedAt(dir, c, k);
    }
  }

  /** Every entry had its file after every step of the run. */
  ghost predicate AlwaysBacked(dir: string, steps: seq<Step>) {
    Backed(dir, Run(dir, steps)) && (steps != [] ==> AlwaysBacked(dir, steps[..|steps| - 1]))
  }

  lemma UndisturbedSnoc(steps: seq<Step>, step: Step)
    ensures Undisturbed(steps + [step]) <==> Undisturbed(steps) && Fits(steps, step)
  {
    var all, n := steps + [step], |steps|;
    assert all[..n] == steps && all[n] == step;
    assert forall j :: 0 <= j < n ==> all[..j] == steps[..j] && all[j] == steps[j];
  }

  /** Over every interleaving: all entries have their files all the time exactly when the run is undisturbed. */
  lemma {:induction false} BackedIff(dir: string, steps: seq<Step>)
    ensures AlwaysBacked(dir, steps) <==> Undisturbed(steps)
  {
    if steps == [] {
      assert forall h :: BackedAt(dir, EMPTY, h);
    } else {
      var n := |steps| - 1;
      BackedIff(dir, steps[..n]);
      LastSnoc(steps);
      UndisturbedSnoc(steps[..n], steps[n]);
      if Backed(dir, Run(dir, steps[..n])) {
        StepBackedIff(dir, steps[..n], steps[n]);
      }
    }
  }

  /** One eviction between writing a blob again and indexing it leaves an entry without a file. */
  lemma EvictedBetween(dir: string, hash: string, size: nat)
    ensures var write, insert := Write(hash, Some(size)), Insert(hash, size);
            var steps := [write, insert, write, Evict(hash), insert];
            History(steps, hash) == Trace(None, Some(size)) && !Backed(dir, Run(dir, steps))
  {
    var write, insert := Write(hash, Some(size)), Insert(hash, size);
    var steps := [write, insert, write, Evict(hash), insert];
    assert steps[..4][..3] == steps[..3] && steps[..3][..2] == steps[..2] && steps[..2][..1] == steps[..1];
    assert steps[..1][..0] == [];
    assert History(steps[..1], hash) == Trace(Some(size), None);
    assert History(steps[..3], hash) == Trace(Some(size), Some(size));
    assert History(steps[..4], hash) == Trace(None, None);
    HistoryIs(dir, steps, hash);
    assert !BackedAt(dir, Run(dir, steps), hash);
  }

  /** A blob out of step is the only one, and writing and indexing it whole puts it right. */
  lemma Restored(dir: string, c: Cache, hash: string, size: nat)
    requires forall k :: k != hash ==> BackedAt(dir, c, k)
    ensures Backed(dir, Apply(dir, Apply(dir, c, Write(hash, Some(size))), Insert(hash, size)))
  {
    var written := Apply(dir, c, Write(hash, Some(size)));
    forall k ensures BackedAt(dir, Apply(dir, written, Insert(hash, size)), k) {
      if k != hash {
        OthersUntouched(dir, c, Write(hash, Some(size)), k);
        OthersUntouched(dir, written, Insert(hash, size), k);
        assert BackedAt(dir, c, k);
      }
    }
  }

  // ----- the cache

  /** Some entry that was there and is gone would exceed the budget again. */
  ghost predicate NoRoomFor(index: map<string, nat>, before: map<string, nat>, budget: nat) {
    exists h :: h in before && h !in index && Total(Weighing(), index[h := before[h]]) > budget
  }

  /** The files of the entries that went. */
  ghost function Evicted(dir: string, before: map<string, nat>, index: map<string, nat>): set<string> {
    set h | h in before && h !in index :: Path(dir, h)
  }

  /** What stays is as it was, and of the files only those of the evicted are gone. */
  ghost predicate Shrunk(dir: string, before: Cache, now: Cache) {
    && (forall h :: h in now.index ==> h in before.index && now.index[h] == before.index[h])
    && now.disk == before.disk - Evicted(dir, before.index, now.index)
  }

  lemma ShrunkSelf(dir: string, c: Cache)
    ensures Shrunk(dir, c, c)
  {
    assert Evicted(dir, c.index, c.index) == {};
  }

  lemma ShrunkOnce(dir: string, before: Cache, c: Cache, victim: string)
    requires Shrunk(dir, before, c) && victim in c.index
    ensures Shrunk(dir, before, Cache(c.index - {victim}, c.disk - {Path(dir, victim)}))
  {
    var index := c.index - {victim};
    assert Evicted(dir, before.index, index) == Evicted(dir, before.index, c.index) + {Path(dir, victim)} by {
      forall path | path in Evicted(dir, before.index, index)
        ensures path in Evicted(dir, before.index, c.index) + {Path(dir, victim)}
      {
        var h :| h in before.index && h !in index && path == Path(dir, h);
      }
    }
  }

  /** An eviction from an index that does not fit leaves no room for its victim. */
  lemma EvictedHadNoRoom(before: map<string, nat>, index: map<string, nat>, victim: string, budget: nat)
    requires victim in index && victim in before && before[victim] == index[victim]
    requires Total(Weighing(), index) > budget
    ensures NoRoomFor(index - {victim}, before, budget)
  {
    assert (index - {victim})[victim := before[victim]] == index;
  }

  class BlobCache {
    const dir: string
    const budget: nat
    var index: map<string, nat>
    var disk: map<string, nat>
    var unlinked: nat

    ghost predicate Valid()
      reads this
    {
      Backed(dir, Cache(index, disk))
    }

    constructor (dir: string, budget: nat)
      ensures Valid() && index == map[] && disk == map[] && unlinked == 0
      ensures this.dir == dir && this.budget == budget
    {
      this.dir, this.budget := dir, budget;
      index, disk, unlinked := map[], map[], 0;
    }

    /**
     Write-through of an upload: the file, then the entry, whatever the write left.  Nothing is
     unlinked, and at most this blob gets out of step.
     */
    method WriteThrough(hash: string, size: nat, left: Option<nat>)
      modifies this
      ensures unlinked == old(unlinked)
      ensures Cache(index, disk) ==
              Apply(dir, Apply(dir, Cache(old(index), old(disk)), Write(hash, left)), Insert(hash, size))
      ensures forall k :: k != hash && BackedAt(dir, Cache(old(index), old(disk)), k) ==>
                BackedAt(dir, Cache(index, disk), k)
    {
      ghost var before := Cache(index, disk);
      ghost var written := Apply(dir, before, Write(hash, left));
      disk := if left.Some? then disk[Path(dir, hash) := left.value] else disk - {Path(dir, hash)};
      index := index[hash := size];
      forall k | k != hash && BackedAt(dir, before, k) ensures BackedAt(dir, Cache(index, disk), k) {
        OthersUntouched(dir, before, Write(hash, left), k);
        OthersUntouched(dir, written, Insert(hash, size), k);
      }
    }

    /** The entry first, then its file; no other file goes. */
    method Drop(hash: string)
      requires Valid()
      modifies this`index, this`disk
      ensures Valid()
      ensures index == old(index) - {hash} && disk == old(disk) - {Path(dir, hash)}
    {
      ghost var before := Cache(index, disk);
      index := index - {hash};
      disk := disk - {Path(dir, hash)};
      forall k ensures BackedAt(dir, Cache(index, disk), k) {
        assert BackedAt(dir, before, k);
        if k != hash {
          OthersUntouched(dir, before, Forget(hash), k);
          OthersUntouched(dir, Apply(dir, before, Forget(hash)), Unlink(hash), k);
        }
      }
    }

    /** Size eviction of one entry: the only removal that counts as an unlink. */
    method EvictForSize(victim: string)
      requires Valid() && victim in index
      modifies this
      ensures Valid() && unlinked == old(unlinked) + 1
      ensures index == old(index) - {victim} && disk == old(disk) - {Path(dir, victim)}
      ensures |index| == |old(index)| - 1
      ensures Total(Weighing(), old(index)) == Weight(old(index)[victim]) + Total(Weighing(), index)
    {
      TotalWithout(Weighing(), index, victim);
      OneFewer(index, victim);
      Drop(victim);
      unlinked := unlinked + 1;
    }

    /**
     Evicts until the weights fit, whichever entries are chosen, and no longer: nothing goes
     while they fit, the last entry evicted did not fit, and only the files of the evicted go.
     */
    method Settle()
      requires Valid()
      modifies this
      ensures Valid()
      ensures Total(Weighing(), index) <= budget
      ensures Total(Weighing(), old(index)) <= budget ==>
                index == old(index) && disk == old(disk) && unlinked == old(unlinked)
      ensures Total(Weighing(), old(index)) > budget ==> NoRoomFor(index, old(index), budget)
      ensures Shrunk(dir, Cache(old(index), old(disk)), Cache(index, disk))
      ensures unlinked == old(unlinked) + |old(index)| - |index|
      ensures (forall h :: h in old(index) ==> old(index)[h] <= U32_MAX) ==> Total(Size(), index) <= budget
    {
      ghost var before := Cache(index, disk);
      ShrunkSelf(dir, before);
      var weighted := WeightedSize();
      while weighted > budget
        invariant Valid()
        invariant weighted == Total(Weighing(), index)
        invariant Total(Weighing(), before.index) <= budget ==>
                    Cache(index, disk) == before && unlinked == old(unlinked)
        invariant Total(Weighing(), before.index) > budget ==>
                    weighted > budget || NoRoomFor(index, before.index, budget)
        invariant Shrunk(dir, before, Cache(index, disk))
        invariant unlinked == old(unlinked) + |before.index| - |index|
        decreases |index|
      {
        var victim :| victim in index;
        weighted := weighted - Weight(index[victim]);
        EvictedHadNoRoom(before.index, index, victim, budget);
        ShrunkOnce(dir, before, Cache(index, disk), victim);
        EvictForSize(victim);
      }
      BytesWithinBudget(index, budget);
    }

    /** The weights of all entries, as the index keeps them. */
    method WeightedSize() returns (w: nat)
      ensures w == Total(Weighing(), index)
    {
      var rest := index;
      w := 0;
      while rest != map[]
        invariant w + Total(Weighing(), rest) == Total(Weighing(), index)
        decreases |rest|
      {
        var h :| h in rest;
        TotalWithout(Weighing(), rest, h);
        w := w + Weight(rest[h]);
        rest := rest - {h};
      }
    }
  }

  lemma OneFewer(index: map<string, nat>, victim: string)
    requires victim in index
    ensures |index - {victim}| == |index| - 1
  {
    assert index.Keys == (index.Keys - {victim}) + {victim};
    assert (index - {victim}).Keys == index.Keys - {victim};
  }
}
