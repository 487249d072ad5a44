/** Whole runs of the virtio-gpu device: register writes by the guest, interleaved with
    anything it does to its own memory, and the frames the callback is given. */
module GpuRuns {
  import opened Bytes
  import opened SplitRing
  import opened Virtqueue
  import opened GpuCommands
  import opened GpuDrain

  /** Everything behind one `mtx_`, the guest memory it works on, and every frame the callback
      has been given. */
  datatype Machine = Machine(w: World, desc: seq<Desc>, live: bool, status: uint32, driverFeatures: uint64,
                             irqStatus: uint32, trace: seq<Frame>)

  datatype Event =
    | GuestActs(ram: seq<byte>, desc: seq<Desc>, ring: Ring)
    | Configure(live: bool, driverFeatures: uint64)
    | Notify(queue: uint32)
    | AckIrq(bits: uint32)
    | WriteStatus(value: uint32)

  /** The device offers VIRTIO_F_VERSION_1 (bit 32) alone. */
  predicate Unsupported(driverFeatures: uint64) {
    driverFeatures % TWO_32 != 0 || driverFeatures / (2 * TWO_32) != 0
  }

  predicate FeaturesOk(status: uint32) {
    status / 8 % 2 == 1
  }

  function StatusAfter(prev: uint32, val: uint32, driverFeatures: uint64): (s: uint32)
    ensures Unsupported(driverFeatures) && !FeaturesOk(prev) ==> !FeaturesOk(s)
    ensures s == val || (FeaturesOk(val) && s == val - 8)
  {
    if FeaturesOk(val) && !FeaturesOk(prev) && Unsupported(driverFeatures) then val - 8 else val
  }

  /** The guest changes its own memory, never the device's counter nor RAM's size. */
  ghost predicate Enabled(env: Env, m: Machine, e: Event) {
    match e
    case GuestActs(ram, _, ring) => |ram| == |m.w.ram| && ring.lastAvail == m.w.ring.lastAvail
    case Notify(queue) => queue == 0 && m.live ==> DrainOk(env, m.w, m.desc)
    case _ => true
  }

  /** What a register write does while it holds the lock. */
  ghost function Locked(env: Env, m: Machine, e: Event): Machine
    requires Enabled(env, m, e)
  {
    match e
    case GuestActs(ram, desc, ring) => m.(w := World(m.w.dev, ram, ring), desc := desc)
    case Configure(live, driverFeatures) => m.(live := live, driverFeatures := driverFeatures)
    case Notify(queue) =>
      if queue == 0 && m.live then m.(w := Drain(env, m.w, m.desc), irqStatus := RaiseIrq(m.irqStatus)) else m
    case AckIrq(bits) => if bits % 2 == 1 then m.(irqStatus := m.irqStatus - m.irqStatus % 2) else m
    case WriteStatus(value) =>
      var status := StatusAfter(m.status, value, m.driverFeatures);
      if value == 0 then
        m.(w := m.w.(dev := State(map[], 0, []), ring := m.w.ring.(lastAvail := 0)), live := false,
           status := status, driverFeatures := 0, irqStatus := 0)
      else m.(status := status)
  }

  /** A register write: the frames staged under the lock go to the callback after it. */
  ghost function Next(env: Env, m: Machine, e: Event): Machine
    requires Enabled(env, m, e)
  {
    var m' := Locked(env, m, e);
    if e.GuestActs? then m'
    else
      m'.(w := m'.w.(dev := m'.w.dev.(pending := [])),
          trace := m'.trace + if env.hasCallback then m'.w.dev.pending else [])
  }

  ghost predicate Possible(env: Env, m: Machine, events: seq<Event>)
    decreases |events|
  {
    events == [] || (Enabled(env, m, events[0]) && Possible(env, Next(env, m, events[0]), events[1..]))
  }

  ghost function Final(env: Env, m: Machine, events: seq<Event>): Machine
    requires Possible(env, m, events)
    decreases |events|
  {
    if events == [] then m else Final(env, Next(env, m, events[0]), events[1..])
  }

  /** The flushes of a run: those of each drain, in order. */
  ghost function Flushes(env: Env, m: Machine, events: seq<Event>): seq<Frame>
    requires Possible(env, m, events)
    decreases |events|
  {
    if events == [] then []
    else FlushesAt(env, m, events[0]) + Flushes(env, Next(env, m, events[0]), events[1..])
  }

  ghost function FlushesAt(env: Env, m: Machine, e: Event): seq<Frame>
    requires Enabled(env, m, e)
  {
    if e.Notify? && e.queue == 0 && m.live then FramesOf(env, m.w, m.desc) else []
  }

  /** Between register writes: nothing is staged, and every host buffer has its right size. */
  ghost predicate AtRest(env: Env, m: Machine) {
    m.w.dev.pending == [] && Sane(m.w.dev, env.base, |m.w.ram|)
  }

  lemma {:induction false} NoCallbackNoFrames(env: Env, w: World, desc: seq<Desc>)
    requires DrainOk(env, w, desc) && !env.hasCallback
    ensures FramesOf(env, w, desc) == []
    decreases Backlog(w.ring)
  {
    hide Trusted, StepOk, ServeNext, HasWork, Backlog, Decode, Request, Visited;
    if HasWork(w.ring) {
      NoCallbackNoFrames(env, ServeNext(env, w, desc), desc);
    }
  }

  lemma NextStep(env: Env, m: Machine, e: Event)
    requires AtRest(env, m) && Enabled(env, m, e)
    ensures AtRest(env, Next(env, m, e))
    ensures Next(env, m, e).trace == m.trace + FlushesAt(env, m, e)
  {
    hide DrainOk, Drain, FramesOf, StatusAfter, ResOk;
    if e.Notify? && e.queue == 0 && m.live {
      DrainStages(env, m.w, m.desc);
      if !env.hasCallback {
        NoCallbackNoFrames(env, m.w, m.desc);
      }
    }
  }

  /** Over every run: whenever the lock is free nothing is staged and each resource has exactly
      width * height * 4 bytes; and the callback has been given exactly the flushes of the
      then-current scanout resource, in order, with the pixels of the moment of the flush. */
  lemma {:induction false} TraceIsFlushes(env: Env, m: Machine, events: seq<Event>)
    requires AtRest(env, m) && Possible(env, m, events)
    ensures AtRest(env, Final(env, m, events))
    ensures Final(env, m, events).trace == m.trace + Flushes(env, m, events)
    decreases |events|
  {
    hide AtRest, Next, FlushesAt, Enabled;
    if events != [] {
      NextStep(env, m, events[0]);
      var m' := Next(env, m, events[0]);
      TraceIsFlushes(env, m', events[1..]);
      AssocFrames(m.trace, FlushesAt(env, m, events[0]), Flushes(env, m', events[1..]));
    }
  }

  /** Acknowledging bit 0 clears it; no other write does, but for a reset. */
  lemma InterruptStays(env: Env, m: Machine, e: Event)
    requires Enabled(env, m, e) && m.irqStatus % 2 == 1
    ensures Next(env, m, e).irqStatus % 2 == 0 <==> (e.AckIrq? && e.bits % 2 == 1) || (e.WriteStatus? && e.value == 0)
  {
    hide DrainOk, Drain, StatusAfter;
  }

  /** A drain of the control queue raises the interrupt; a notification of another queue, or of a
      device that is not set up, does nothing. */
  lemma NotifyInterrupts(env: Env, m: Machine, queue: uint32)
    requires AtRest(env, m) && Enabled(env, m, Notify(queue))
    ensures var m' := Next(env, m, Notify(queue));
            if queue == 0 && m.live then m'.irqStatus % 2 == 1 && !HasWork(m'.w.ring)
            else m'.irqStatus == m.irqStatus && m'.w.ring == m.w.ring && m'.w.ram == m.w.ram && m'.trace == m.trace
  {
    hide DrainOk, StatusAfter, Sane;
    assert m.trace + [] == m.trace;
  }
}
