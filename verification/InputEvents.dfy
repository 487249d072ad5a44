/** The virtio-input event path of src/virtio/input.cpp on values: a bounded, drop-oldest
    backlog of events, and the buffers the driver posts for them. */
module InputEvents {
  import opened Bytes
  import opened GuestMemory
  import opened SplitRing
  import opened Virtqueue

  const QUEUE_SIZE: ringsize := 64
  const MAX_PENDING := 128
  const EVENT_SIZE := 8

  const EV_SYN: uint16 := 0
  const EV_KEY: uint16 := 1
  const EV_ABS: uint16 := 3
  const SYN_REPORT: uint16 := 0
  const ABS_X: uint16 := 0
  const ABS_Y: uint16 := 1
  const BTN_LEFT: uint16 := 0x110
  const BTN_RIGHT: uint16 := 0x111

  datatype InputEvent = InputEvent(kind: uint16, code: uint16, value: uint32)

  function Wire(e: InputEvent): (b: seq<byte>)
    ensures |b| == EVENT_SIZE
  {
    Le16(e.kind) + Le16(e.code) + Le32(e.value)
  }

  function ReadEvent(b: seq<byte>, at: nat): InputEvent
    requires at + EVENT_SIZE <= |b|
  {
    InputEvent(ReadLe16(b, at), ReadLe16(b, at + 2), ReadLe32(b, at + 4))
  }

  lemma ReadEventInverse(b: seq<byte>, at: nat, e: InputEvent)
    requires at + EVENT_SIZE <= |b| && b[at..at + EVENT_SIZE] == Wire(e)
    ensures ReadEvent(b, at) == e
  {
    var w := b[at..at + EVENT_SIZE];
    assert forall k :: 0 <= k < EVENT_SIZE ==> w[k] == b[at + k];
    var v := e.value;
    assert v == v / TWO_16 * TWO_16 + v % TWO_16;
  }

  datatype World = World(pending: seq<InputEvent>, ram: seq<byte>, ring: Ring)

  predicate Trusted(w: World, base: uint64, desc: seq<Desc>) {
    InRange(desc, w.ring.avail, QUEUE_SIZE) && Sized(w.ring, QUEUE_SIZE) && WholeTable(base, |w.ram|, desc)
  }

  /** The backlog after one more event: the oldest goes once there are more than 128. */
  function Push(pending: seq<InputEvent>, e: InputEvent): (p: seq<InputEvent>)
    ensures |pending| <= MAX_PENDING ==> |p| <= MAX_PENDING
  {
    if |pending| + 1 > MAX_PENDING then (pending + [e])[1..] else pending + [e]
  }

  /** A buffer an event can be written to. */
  predicate Usable(d: Desc, base: uint64, size: nat) {
    Translate(base, size, d.addr).Some? && d.Writable() && d.len >= EVENT_SIZE
  }

  predicate Busy(w: World) {
    w.pending != [] && HasWork(w.ring)
  }

  function NextBuffer(w: World, base: uint64, desc: seq<Desc>): Desc
    requires Trusted(w, base, desc)
  {
    desc[Head(w.ring, QUEUE_SIZE)]
  }

  /** One pass of the flush loop: the oldest event into the next buffer, or that buffer skipped. */
  function FlushStep(w: World, base: uint64, desc: seq<Desc>): (w': World)
    requires Trusted(w, base, desc) && Busy(w)
    ensures Trusted(w', base, desc) && |w'.ram| == |w.ram| && Backlog(w'.ring) == Backlog(w.ring) - 1
  {
    var d := NextBuffer(w, base, desc);
    BacklogDecreases(w.ring, QUEUE_SIZE, EVENT_SIZE);
    if Usable(d, base, |w.ram|) then
      var at := Place(d, base, |w.ram|, desc);
      World(w.pending[1..], Splice(w.ram, at, Wire(w.pending[0])), Complete(w.ring, QUEUE_SIZE, EVENT_SIZE))
    else w.(ring := Skip(w.ring))
  }

  function Place(d: Desc, base: uint64, size: nat, desc: seq<Desc>): (at: nat)
    requires d in desc && WholeTable(base, size, desc) && Usable(d, base, size)
    ensures at + EVENT_SIZE <= size
  {
    Translate(base, size, d.addr).value
  }

  function Flush(w: World, base: uint64, desc: seq<Desc>): (w': World)
    requires Trusted(w, base, desc)
    ensures Trusted(w', base, desc) && |w'.ram| == |w.ram|
    decreases Backlog(w.ring)
  {
    if Busy(w) then Flush(FlushStep(w, base, desc), base, desc) else w
  }

  /** What a flush writes into the driver's buffers, read back from guest memory as it goes. */
  function Written(w: World, base: uint64, desc: seq<Desc>): seq<InputEvent>
    requires Trusted(w, base, desc)
    decreases Backlog(w.ring)
  {
    if !Busy(w) then []
    else
      var d, w' := NextBuffer(w, base, desc), FlushStep(w, base, desc);
      (if w'.ring.usedIdx == w.ring.usedIdx then [] else [ReadEvent(w'.ram, Place(d, base, |w.ram|, desc))])
      + Written(w', base, desc)
  }

  // ----- one flush -----

  /** How many of the posted buffers not yet taken can hold an event. */
  function UsableLeft(avail: seq<uint16>, availIdx: uint16, lastAvail: uint16, base: uint64, size: nat,
                      desc: seq<Desc>): nat
    requires InRange(desc, avail, QUEUE_SIZE)
    decreases U16(availIdx - lastAvail + TWO_16)
  {
    if lastAvail == availIdx then 0
    else
      (if Usable(desc[avail[lastAvail % QUEUE_SIZE]], base, size) then 1 else 0)
      + UsableLeft(avail, availIdx, U16(lastAvail + 1), base, size, desc)
  }

  lemma StepWrites(w: World, base: uint64, desc: seq<Desc>)
    requires Trusted(w, base, desc) && Busy(w)
    ensures var w', d := FlushStep(w, base, desc), NextBuffer(w, base, desc);
            if Usable(d, base, |w.ram|) then
              w'.pending == w.pending[1..] && w'.ring.usedIdx == U16(w.ring.usedIdx + 1) != w.ring.usedIdx
              && ReadEvent(w'.ram, Place(d, base, |w.ram|, desc)) == w.pending[0]
            else w'.pending == w.pending && w'.ring.usedIdx == w.ring.usedIdx
  {
    var w', d := FlushStep(w, base, desc), NextBuffer(w, base, desc);
    if Usable(d, base, |w.ram|) {
      var at := Place(d, base, |w.ram|, desc);
      assert w'.ram[at..at + EVENT_SIZE] == Wire(w.pending[0]);
      ReadEventInverse(w'.ram, at, w.pending[0]);
    }
  }

  function Left(w: World, base: uint64, desc: seq<Desc>): nat
    requires Trusted(w, base, desc)
  {
    UsableLeft(w.ring.avail, w.ring.availIdx, w.ring.lastAvail, base, |w.ram|, desc)
  }

  lemma LeftStep(w: World, base: uint64, desc: seq<Desc>)
    requires Trusted(w, base, desc) && Busy(w)
    ensures Left(w, base, desc) == (if Usable(NextBuffer(w, base, desc), base, |w.ram|) then 1 else 0)
                                   + Left(FlushStep(w, base, desc), base, desc)
  {
    hide Usable, Splice, Place, Whole;
  }

  lemma WrittenStep(w: World, base: uint64, desc: seq<Desc>)
    requires Trusted(w, base, desc) && Busy(w)
    ensures var w' := FlushStep(w, base, desc);
            && Flush(w, base, desc) == Flush(w', base, desc)
            && Written(w, base, desc)
            == (if Usable(NextBuffer(w, base, desc), base, |w.ram|) then [w.pending[0]] else [])
               + Written(w', base, desc)
  {
    StepWrites(w, base, desc);
    hide FlushStep, ReadEvent, Place;
  }

  lemma U16Sum(x: nat, k: nat)
    ensures U16(U16(x) + k) == U16(x + k)
  {}

  lemma TakeOne(p: seq<InputEvent>, k: nat)
    requires p != []
    ensures k < |p| ==> [p[0]] + p[1..][..k] == p[..k + 1] && p[1..][k..] == p[k + 1..]
  {}

  /** `out` is the oldest part of the backlog, one event for each of `room` buffers. */
  predicate Delivers(w: World, out: seq<InputEvent>, room: nat, w': World) {
    var k := |out|;
    && k == Min(|w.pending|, room)
    && out == w.pending[..k] && w'.pending == w.pending[k..]
    && w'.ring.usedIdx == U16(w.ring.usedIdx + k)
  }

  lemma DeliversOne(w: World, next: World, out: seq<InputEvent>, room: nat, w': World)
    requires Delivers(next, out, room, w') && w.pending != [] && next.pending == w.pending[1..]
    requires next.ring.usedIdx == U16(w.ring.usedIdx + 1)
    ensures Delivers(w, [w.pending[0]] + out, 1 + room, w')
  {
    hide U16;
    U16Sum(w.ring.usedIdx + 1, |out|);
    TakeOne(w.pending, |out|);
  }

  lemma FlushDone(w: World, base: uint64, desc: seq<Desc>)
    requires Trusted(w, base, desc) && !Busy(w)
    ensures Delivers(w, Written(w, base, desc), Left(w, base, desc), Flush(w, base, desc))
  {}

  /** A flush writes the oldest events, in order, one for each usable buffer, until either runs
      out; unusable buffers cost no event, and `used.idx` counts what was written. */
  lemma {:induction false} FlushDelivers(w: World, base: uint64, desc: seq<Desc>)
    requires Trusted(w, base, desc)
    ensures Delivers(w, Written(w, base, desc), Left(w, base, desc), Flush(w, base, desc))
    decreases Backlog(w.ring)
  {
    hide Written, Flush, Usable, ReadEvent, Place, FlushStep, NextBuffer, Trusted, Left, U16;
    if Busy(w) {
      var w' := FlushStep(w, base, desc);
      FlushDelivers(w', base, desc);
      LeftStep(w, base, desc);
      WrittenStep(w, base, desc);
      StepWrites(w, base, desc);
      if Usable(NextBuffer(w, base, desc), base, |w.ram|) {
        DeliversOne(w, w', Written(w', base, desc), Left(w', base, desc), Flush(w', base, desc));
      }
    } else {
      FlushDone(w, base, desc);
    }
  }

  // ----- whole histories between resets -----

  /** An event that was written to a buffer, and its place in the pushed history. */
  datatype Delivery = Delivery(serial: nat, e: InputEvent)

  datatype History = History(w: World, desc: seq<Desc>, pushed: seq<InputEvent>, delivered: seq<Delivery>, dropped: nat)

  datatype Event =
    | Pushed(e: InputEvent)
    | Flushed
    | GuestActs(ram: seq<byte>, desc: seq<Desc>, avail: seq<uint16>, availIdx: uint16)

  predicate Enabled(h: History, base: uint64, e: Event) {
    match e
    case Pushed(_) => true
    case Flushed => Trusted(h.w, base, h.desc)
    case GuestActs(ram, _, _, _) => |ram| == |h.w.ram|
  }

  /** Serial numbers follow the pushed history: the backlog is its newest part. */
  function Deliveries(first: nat, es: seq<InputEvent>): (ds: seq<Delivery>)
    ensures |ds| == |es| && forall i :: 0 <= i < |es| ==> ds[i] == Delivery(first + i, es[i])
  {
    seq(|es|, i requires 0 <= i < |es| => Delivery(first + i, es[i]))
  }

  function Next(h: History, base: uint64, e: Event): History
    requires Enabled(h, base, e)
    requires |h.w.pending| <= |h.pushed|
  {
    match e
    case Pushed(ev) =>
      h.(w := h.w.(pending := Push(h.w.pending, ev)), pushed := h.pushed + [ev],
         dropped := h.dropped + |h.w.pending| + 1 - |Push(h.w.pending, ev)|)
    case Flushed =>
      h.(w := Flush(h.w, base, h.desc),
         delivered := h.delivered + Deliveries(|h.pushed| - |h.w.pending|, Written(h.w, base, h.desc)))
    case GuestActs(ram, desc, avail, availIdx) =>
      h.(w := h.w.(ram := ram, ring := h.w.ring.(avail := avail, availIdx := availIdx)), desc := desc)
  }

  /** The backlog is the newest part of the history, at most 128 long; what was delivered comes
      from before it, in order and once; and every event is delivered, dropped or pending. */
  ghost predicate Inv(h: History, used0: nat) {
    var first := |h.pushed| - |h.w.pending|;
    && first >= 0 && |h.w.pending| <= MAX_PENDING
    && h.w.pending == h.pushed[first..]
    && (forall i :: 0 <= i < |h.delivered| ==>
          h.delivered[i].serial < first && h.delivered[i].e == h.pushed[h.delivered[i].serial])
    && (forall i, j :: 0 <= i < j < |h.delivered| ==> h.delivered[i].serial < h.delivered[j].serial)
    && |h.pushed| == |h.delivered| + h.dropped + |h.w.pending|
    && h.w.ring.usedIdx == U16(used0 + |h.delivered|)
  }

  lemma FlushKeepsInv(h: History, base: uint64, used0: nat)
    requires Inv(h, used0) && Trusted(h.w, base, h.desc)
    ensures Inv(Next(h, base, Flushed), used0)
  {
    hide Trusted, Flush, Written, Left, U16;
    FlushDelivers(h.w, base, h.desc);
    U16Sum(used0 + |h.delivered|, |Written(h.w, base, h.desc)|);
  }

  lemma PushKeepsInv(h: History, base: uint64, e: InputEvent, used0: nat)
    requires Inv(h, used0)
    ensures Inv(Next(h, base, Pushed(e)), used0)
  {}

  ghost predicate Run(h0: History, base: uint64, events: seq<Event>, h: History)
    decreases |events|
  {
    if events == [] then h == h0
    else
      |h0.w.pending| <= |h0.pushed| && Enabled(h0, base, events[0])
      && Run(Next(h0, base, events[0]), base, events[1..], h)
  }

  lemma {:induction false} RunKeepsInv(h0: History, base: uint64, events: seq<Event>, h: History, used0: nat)
    requires Inv(h0, used0) && Run(h0, base, events, h)
    ensures Inv(h, used0)
    decreases |events|
  {
    if events != [] {
      hide Trusted;
      match events[0] {
        case Pushed(e) => PushKeepsInv(h0, base, e, used0);
        case Flushed => FlushKeepsInv(h0, base, used0);
        case GuestActs(_, _, _, _) =>
      }
      RunKeepsInv(Next(h0, base, events[0]), base, events[1..], h, used0);
    }
  }

  lemma EmptyHistory(w0: World, desc0: seq<Desc>)
    requires w0.pending == []
    ensures Inv(History(w0, desc0, [], [], 0), w0.ring.usedIdx)
  {}

  /** Over any run of pushes, flushes and anything the guest does to its memory, starting with
      an empty backlog. */
  lemma EventHistory(w0: World, desc0: seq<Desc>, base: uint64, events: seq<Event>, h: History)
    requires w0.pending == [] && Run(History(w0, desc0, [], [], 0), base, events, h)
    ensures Inv(h, w0.ring.usedIdx)
  {
    EmptyHistory(w0, desc0);
    hide Run, Inv;
    RunKeepsInv(History(w0, desc0, [], [], 0), base, events, h, w0.ring.usedIdx);
  }

  /** Nothing is dropped before more than 128 events wait. */
  lemma DropsOnlyWhenFull(h: History, base: uint64, e: Event, used0: nat)
    requires Inv(h, used0) && Enabled(h, base, e)
    ensures Next(h, base, e).dropped != h.dropped <==> e.Pushed? && |h.w.pending| == MAX_PENDING
    ensures Next(h, base, e).dropped <= h.dropped + 1
  {}
}
