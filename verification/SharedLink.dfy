/**
 Streams that share one link: before it sends a chunk, a stream reserves the chunk's time
 on the link and sleeps until that time has passed. A state machine over the clock and the
 atomic steps of any number of streams; times are microseconds.
 */
module SharedLink {
  import opened MachineInts
  import opened Sequences

  const LINK_BYTES_PER_SEC: nat := 1024 * 1024 * 1024
  const CHUNK: nat := 4 * 1024 * 1024
  const FIRST_BYTE: nat := 15_000

  datatype Phase =
    | Connecting(since: nat)
    | Ready
    | Sleeping(slot: nat)   // index of the reserved slot

  /** `off` bytes are sent; `out` is what the reader got. */
  datatype Stream = Stream(data: seq<Byte>, off: nat, phase: Phase, out: seq<Byte>)

  /** A reserved piece of link time, and whether its chunk was sent. */
  datatype Slot = Slot(stream: nat, start: nat, end: nat, bytes: nat, sent: bool)

  datatype State = State(now: nat, busyUntil: nat, streams: seq<Stream>, slots: seq<Slot>)

  datatype Event = Tick(us: nat) | Step(stream: nat)

  function Init(blobs: seq<seq<Byte>>): State {
    State(0, 0, Map((d: seq<Byte>) => Stream(d, 0, Connecting(0), []), blobs), [])
  }

  function ChunkEnd(s: Stream): nat {
    if s.off + CHUNK <= |s.data| then s.off + CHUNK else |s.data|
  }

  /** Truncating division, as the source computes it. */
  function SlotTime(bytes: nat): nat { bytes * 1_000_000 / LINK_BYTES_PER_SEC }

  predicate Enabled(s: State, i: nat) {
    && i < |s.streams|
    && match s.streams[i].phase
       case Connecting(since) => s.now >= since + FIRST_BYTE
       case Ready => s.streams[i].off < |s.streams[i].data|
       case Sleeping(k) => k < |s.slots| && s.slots[k].end <= s.now && s.streams[i].off < |s.streams[i].data|
  }

  /** Takes the next free time on the link, under its lock. */
  function Reserve(s: State, i: nat): State
    requires i < |s.streams| && s.streams[i].off < |s.streams[i].data|
  {
    var stream := s.streams[i];
    var bytes := ChunkEnd(stream) - stream.off;
    var start := if s.busyUntil >= s.now then s.busyUntil else s.now;
    var end := start + SlotTime(bytes);
    s.(busyUntil := end,
       streams := s.streams[i := stream.(phase := Sleeping(|s.slots|))],
       slots := s.slots + [Slot(i, start, end, bytes, false)])
  }

  /** Sends the chunk of a slot that has passed. */
  function Send(s: State, i: nat, k: nat): State
    requires i < |s.streams| && k < |s.slots| && s.streams[i].off < |s.streams[i].data|
  {
    var stream := s.streams[i];
    var end := ChunkEnd(stream);
    s.(streams := s.streams[i := stream.(off := end, phase := Ready, out := stream.out + stream.data[stream.off..end])],
       slots := s.slots[k := s.slots[k].(sent := true)])
  }

  function Next(s: State, e: Event): State {
    match e
    case Tick(us) => s.(now := s.now + us)
    case Step(i) =>
      if !Enabled(s, i) then s
      else match s.streams[i].phase
        case Connecting(_) => s.(streams := s.streams[i := s.streams[i].(phase := Ready)])
        case Ready => Reserve(s, i)
        case Sleeping(k) => Send(s, i, k)
  }

  function Run(s: State, events: seq<Event>): State
    decreases |events|
  {
    if events == [] then s else Run(Next(s, events[0]), events[1..])
  }

  // ----- the invariant

  /** Slots follow one another on the link. */
  ghost predicate SlotsOrdered(s: State) {
    && (forall j, k :: 0 <= j < k < |s.slots| ==> s.slots[j].end <= s.slots[k].start)
    && (forall k :: 0 <= k < |s.slots| ==>
          s.slots[k].start + SlotTime(s.slots[k].bytes) == s.slots[k].end && s.slots[k].end <= s.busyUntil)
  }

  /** Nothing is sent before its slot has passed. */
  ghost predicate SentAfterSlot(s: State) {
    forall k :: 0 <= k < |s.slots| && s.slots[k].sent ==> s.slots[k].end <= s.now
  }

  /** A sleeping stream has a slot of its own, for its next chunk. */
  ghost predicate SleepersKnown(s: State) {
    forall i :: 0 <= i < |s.streams| && s.streams[i].phase.Sleeping? ==>
      var k := s.streams[i].phase.slot;
      && k < |s.slots| && s.slots[k].stream == i && !s.slots[k].sent
      && s.streams[i].off < |s.streams[i].data|
      && s.slots[k].bytes == ChunkEnd(s.streams[i]) - s.streams[i].off
  }

  /** A reader has got the first `off` bytes of its blob. */
  ghost predicate InOrder(s: State) {
    forall i :: 0 <= i < |s.streams| ==>
      s.streams[i].off <= |s.streams[i].data| && s.streams[i].out == s.streams[i].data[..s.streams[i].off]
  }

  function SentBytes(slots: seq<Slot>): nat {
    if slots == [] then 0
    else SentBytes(slots[..|slots| - 1]) + if slots[|slots| - 1].sent then slots[|slots| - 1].bytes else 0
  }

  function SentChunks(slots: seq<Slot>): nat {
    if slots == [] then 0
    else SentChunks(slots[..|slots| - 1]) + if slots[|slots| - 1].sent then 1 else 0
  }

  function Received(streams: seq<Stream>): nat {
    if streams == [] then 0 else |streams[0].out| + Received(streams[1..])
  }

  ghost predicate Inv(s: State) {
    && SlotsOrdered(s) && SentAfterSlot(s) && SleepersKnown(s) && InOrder(s)
    && Received(s.streams) == SentBytes(s.slots)
  }

  // ----- accounts

  lemma {:induction false} MarkSent(slots: seq<Slot>, k: nat)
    requires k < |slots| && !slots[k].sent
    ensures SentBytes(slots[k := slots[k].(sent := true)]) == SentBytes(slots) + slots[k].bytes
    ensures SentChunks(slots[k := slots[k].(sent := true)]) == SentChunks(slots) + 1
  {
    var n := |slots| - 1;
    var marked := slots[k := slots[k].(sent := true)];
    if k < n {
      MarkSent(slots[..n], k);
      assert marked[..n] == slots[..n][k := slots[k].(sent := true)];
    } else {
      assert marked[..n] == slots[..n];
    }
  }

  lemma AddSlot(slots: seq<Slot>, slot: Slot)
    requires !slot.sent
    ensures SentBytes(slots + [slot]) == SentBytes(slots) && SentChunks(slots + [slot]) == SentChunks(slots)
  {
    assert (slots + [slot])[..|slots|] == slots;
  }

  lemma {:induction false} ReceivedUpdate(streams: seq<Stream>, i: nat, stream: Stream)
    requires i < |streams|
    ensures Received(streams[i := stream]) == Received(streams) - |streams[i].out| + |stream.out|
  {
    if i > 0 {
      ReceivedUpdate(streams[1..], i - 1, stream);
      assert streams[i := stream][1..] == streams[1..][i - 1 := stream];
    }
  }

  lemma {:induction false} NothingReceived(blobs: seq<seq<Byte>>)
    ensures Received(Init(blobs).streams) == 0
  {
    if blobs != [] {
      NothingReceived(blobs[1..]);
      assert Init(blobs).streams[1..] == Init(blobs[1..]).streams;
    }
  }

  lemma InitInv(blobs: seq<seq<Byte>>)
    ensures Inv(Init(blobs))
  {
    NothingReceived(blobs);
  }

  lemma ReserveInv(s: State, i: nat)
    requires Inv(s) && i < |s.streams| && s.streams[i].phase.Ready? && s.streams[i].off < |s.streams[i].data|
    ensures Inv(Reserve(s, i))
  {
    var t := Reserve(s, i);
    ReserveSlots(s, i);
    ReserveStreams(s, i);
    AddSlot(s.slots, t.slots[|s.slots|]);
    ReceivedUpdate(s.streams, i, t.streams[i]);
  }

  lemma ReserveSlots(s: State, i: nat)
    requires SlotsOrdered(s) && SentAfterSlot(s) && i < |s.streams| && s.streams[i].off < |s.streams[i].data|
    ensures SlotsOrdered(Reserve(s, i)) && SentAfterSlot(Reserve(s, i))
  {
  }

  lemma ReserveStreams(s: State, i: nat)
    requires SleepersKnown(s) && InOrder(s) && i < |s.streams| && s.streams[i].off < |s.streams[i].data|
    ensures SleepersKnown(Reserve(s, i)) && InOrder(Reserve(s, i))
  {
  }

  lemma SendInv(s: State, i: nat)
    requires Inv(s) && i < |s.streams| && s.streams[i].phase.Sleeping? && Enabled(s, i)
    ensures Inv(Send(s, i, s.streams[i].phase.slot))
  {
    var k := s.streams[i].phase.slot;
    var t := Send(s, i, k);
    SendStreams(s, i, k);
    MarkSent(s.slots, k);
    ReceivedUpdate(s.streams, i, t.streams[i]);
  }

  lemma SendStreams(s: State, i: nat, k: nat)
    requires SleepersKnown(s) && InOrder(s) && i < |s.streams| && s.streams[i].phase == Sleeping(k)
    ensures SleepersKnown(Send(s, i, k)) && InOrder(Send(s, i, k))
  {
    var t := Send(s, i, k);
    assert t.streams[i].out == t.streams[i].data[..t.streams[i].off];
  }

  lemma NextInv(s: State, e: Event)
    requires Inv(s)
    ensures Inv(Next(s, e))
  {
    match e {
      case Tick(_) =>
      case Step(i) =>
        if Enabled(s, i) {
          match s.streams[i].phase {
            case Connecting(_) => ReceivedUpdate(s.streams, i, s.streams[i].(phase := Ready));
            case Ready => ReserveInv(s, i);
            case Sleeping(_) => SendInv(s, i);
          }
        }
    }
  }

  lemma {:induction false} RunInv(s: State, events: seq<Event>)
    requires Inv(s)
    ensures Inv(Run(s, events))
    decreases |events|
  {
    if events != [] {
      NextInv(s, events[0]);
      RunInv(Next(s, events[0]), events[1..]);
    }
  }

  // ----- every interleaving of any number of streams

  /** Reservations are disjoint and in order, and no chunk is sent before its slot has passed. */
  lemma SlotsDisjoint(blobs: seq<seq<Byte>>, events: seq<Event>)
    ensures SlotsOrdered(Run(Init(blobs), events)) && SentAfterSlot(Run(Init(blobs), events))
  {
    InitInv(blobs);
    RunInv(Init(blobs), events);
  }

  lemma {:induction false} StreamsKept(s: State, events: seq<Event>)
    ensures |Run(s, events).streams| == |s.streams|
    ensures forall i :: 0 <= i < |s.streams| ==> Run(s, events).streams[i].data == s.streams[i].data
    decreases |events|
  {
    if events != [] {
      var t := Next(s, events[0]);
      assert |t.streams| == |s.streams| && forall i :: 0 <= i < |s.streams| ==> t.streams[i].data == s.streams[i].data;
      StreamsKept(t, events[1..]);
    }
  }

  /** A reader always holds a prefix of its blob, and the blob when its stream has ended. */
  lemma ReadersInOrder(blobs: seq<seq<Byte>>, events: seq<Event>, i: nat)
    requires i < |blobs|
    ensures var s := Run(Init(blobs), events);
            && |s.streams| == |blobs| && s.streams[i].out <= blobs[i]
            && (s.streams[i].off == |blobs[i]| ==> s.streams[i].out == blobs[i])
  {
    InitInv(blobs);
    RunInv(Init(blobs), events);
    StreamsKept(Init(blobs), events);
  }

  ghost predicate Consecutive(slots: seq<Slot>) {
    && (forall j, k :: 0 <= j < k < |slots| ==> slots[j].end <= slots[k].start)
    && (forall k :: 0 <= k < |slots| ==> slots[k].start + SlotTime(slots[k].bytes) == slots[k].end)
  }

  /** A slot lasts as many whole microseconds as the link needs for the bytes. */
  lemma SlotCarries(bytes: nat)
    ensures SlotTime(bytes) * LINK_BYTES_PER_SEC <= bytes * 1_000_000 < (SlotTime(bytes) + 1) * LINK_BYTES_PER_SEC
  {
  }

  /** Slots that do not overlap, all passed by `t`, carry at most `t` microseconds and a rest per chunk. */
  lemma {:induction false} BytesByTime(slots: seq<Slot>, t: nat)
    requires Consecutive(slots)
    requires forall k :: 0 <= k < |slots| && slots[k].sent ==> slots[k].end <= t
    ensures SentBytes(slots) * 1_000_000 <= (t + SentChunks(slots)) * LINK_BYTES_PER_SEC
  {
    if slots != [] {
      var n := |slots| - 1;
      if slots[n].sent {
        BeforeLast(slots);
        BytesByTime(slots[..n], slots[n].start);
        SlotCarries(slots[n].bytes);
      } else {
        BytesByTime(slots[..n], t);
      }
    }
  }

  lemma BeforeLast(slots: seq<Slot>)
    requires Consecutive(slots) && slots != []
    ensures Consecutive(slots[..|slots| - 1])
    ensures forall k :: 0 <= k < |slots| - 1 ==> slots[k].end <= slots[|slots| - 1].start
  {
  }

  /**
   What all readers together have received at any moment is at most what the link carries in
   that time, plus one microsecond's worth for each chunk, which the truncating division
   gives away.
   */
  lemma LinkRespected(blobs: seq<seq<Byte>>, events: seq<Event>)
    ensures var s := Run(Init(blobs), events);
            Received(s.streams) * 1_000_000 <= (s.now + SentChunks(s.slots)) * LINK_BYTES_PER_SEC
  {
    var s := Run(Init(blobs), events);
    InitInv(blobs);
    RunInv(Init(blobs), events);
    BytesByTime(s.slots, s.now);
  }

  // ----- progress

  /** The end of the last slot reserved. */
  function LastEnd(slots: seq<Slot>): nat {
    if slots == [] then 0 else slots[|slots| - 1].end
  }

  lemma NextBusy(s: State, e: Event)
    requires s.busyUntil == LastEnd(s.slots)
    ensures Next(s, e).busyUntil == LastEnd(Next(s, e).slots)
  {
  }

  lemma {:induction false} BusyIsLast(s: State, events: seq<Event>)
    requires s.busyUntil == LastEnd(s.slots)
    ensures Run(s, events).busyUntil == LastEnd(Run(s, events).slots)
    decreases |events|
  {
    if events != [] {
      NextBusy(s, events[0]);
      BusyIsLast(Next(s, events[0]), events[1..]);
    }
  }

  /** The link is not left idle: a chunk gets the time right after the last slot, or at once if that has passed. */
  lemma NoIdleTime(blobs: seq<seq<Byte>>, events: seq<Event>, i: nat)
    requires var s := Run(Init(blobs), events);
             i < |s.streams| && s.streams[i].phase.Ready? && s.streams[i].off < |s.streams[i].data|
    ensures var s := Run(Init(blobs), events);
            var rest := |s.streams[i].data| - s.streams[i].off;
            var bytes := if rest < CHUNK then rest else CHUNK;
            var start := if LastEnd(s.slots) > s.now then LastEnd(s.slots) else s.now;
            Next(s, Step(i)).slots == s.slots + [Slot(i, start, start + SlotTime(bytes), bytes, false)]
  {
    BusyIsLast(Init(blobs), events);
  }

  ghost predicate AllReceived(s: State) {
    forall i :: 0 <= i < |s.streams| ==> s.streams[i].out == s.streams[i].data
  }

  function Rank(phase: Phase): nat {
    match phase
    case Connecting(_) => 2
    case Ready => 1
    case Sleeping(_) => 0
  }

  /** How many more steps a stream can take, at most. */
  function Left(stream: Stream): nat {
    3 * (if stream.off < |stream.data| then |stream.data| - stream.off else 0) + Rank(stream.phase)
  }

  function Work(streams: seq<Stream>): nat {
    if streams == [] then 0 else Left(streams[0]) + Work(streams[1..])
  }

  lemma {:induction false} WorkDrops(streams: seq<Stream>, i: nat, stream: Stream)
    requires i < |streams| && Left(stream) < Left(streams[i])
    ensures Work(streams[i := stream]) < Work(streams)
  {
    if i > 0 {
      WorkDrops(streams[1..], i - 1, stream);
      assert streams[i := stream][1..] == streams[1..][i - 1 := stream];
    }
  }

  /** How long a stream has to wait before it can move. */
  function Wait(s: State, i: nat): nat
    requires i < |s.streams|
  {
    match s.streams[i].phase
    case Connecting(since) => since + FIRST_BYTE
    case Ready => 0
    case Sleeping(k) => if k < |s.slots| then s.slots[k].end else 0
  }

  lemma Waited(s: State, i: nat)
    requires Inv(s) && i < |s.streams| && s.streams[i].off < |s.streams[i].data|
    ensures Enabled(Next(s, Tick(Wait(s, i))), i)
  {
  }

  lemma StepWorks(s: State, i: nat)
    requires Enabled(s, i) && s.streams[i].off < |s.streams[i].data|
    ensures Work(Next(s, Step(i)).streams) < Work(s.streams)
  {
    var t := Next(s, Step(i));
    assert Left(t.streams[i]) < Left(s.streams[i]);
    assert t.streams == s.streams[i := t.streams[i]];
    WorkDrops(s.streams, i, t.streams[i]);
  }

  lemma AllSent(s: State)
    requires InOrder(s) && forall i :: 0 <= i < |s.streams| ==> s.streams[i].off >= |s.streams[i].data|
    ensures AllReceived(s)
  {
    forall i | 0 <= i < |s.streams| ensures s.streams[i].out == s.streams[i].data {
      assert s.streams[i].data[..|s.streams[i].data|] == s.streams[i].data;
    }
  }

  /** Every state reached can be run until each reader holds its blob. */
  lemma {:induction false} CanFinish(s: State) returns (events: seq<Event>)
    requires Inv(s)
    ensures AllReceived(Run(s, events))
    decreases Work(s.streams)
  {
    if forall i :: 0 <= i < |s.streams| ==> s.streams[i].off >= |s.streams[i].data| {
      AllSent(s);
      events := [];
    } else {
      var i :| 0 <= i < |s.streams| && s.streams[i].off < |s.streams[i].data|;
      var tick := Tick(Wait(s, i));
      Waited(s, i);
      NextInv(s, tick);
      StepWorks(Next(s, tick), i);
      NextInv(Next(s, tick), Step(i));
      var rest := CanFinish(Next(Next(s, tick), Step(i)));
      events := [tick] + ([Step(i)] + rest);
      assert events[1..] == [Step(i)] + rest && ([Step(i)] + rest)[1..] == rest;
    }
  }

  lemma {:induction false} RunAppend(s: State, a: seq<Event>, b: seq<Event>)
    ensures Run(s, a + b) == Run(Run(s, a), b)
    decreases |a|
  {
    if a == [] {
      assert a + b == b;
    } else {
      TailAppend(a, b);
      RunAppend(Next(s, a[0]), a[1..], b);
    }
  }

  /** Whatever happened so far, the run can go on until every reader has exactly its blob. */
  lemma EveryoneServed(blobs: seq<seq<Byte>>, events: seq<Event>) returns (more: seq<Event>)
    ensures var s := Run(Init(blobs), events + more);
            |s.streams| == |blobs| && forall i :: 0 <= i < |blobs| ==> s.streams[i].out == blobs[i]
  {
    InitInv(blobs);
    RunInv(Init(blobs), events);
    more := CanFinish(Run(Init(blobs), events));
    RunAppend(Init(blobs), events, more);
    StreamsKept(Init(blobs), events + more);
  }
}
