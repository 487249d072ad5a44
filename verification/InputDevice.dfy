/** The virtio-input device of src/virtio/input.cpp: its event backlog and its two queues,
    updated in place. */
module InputDevice {
  import opened Bytes
  import opened SplitRing
  import opened Virtqueue
  import opened InputEvents

  /** Returns every posted buffer with nothing in it. */
  function ReturnAll(r: Ring): (r': Ring)
    requires Sized(r, QUEUE_SIZE)
    ensures Sized(r', QUEUE_SIZE) && !HasWork(r')
    decreases Backlog(r)
  {
    if HasWork(r) then
      BacklogDecreases(r, QUEUE_SIZE, 0);
      ReturnAll(Complete(r, QUEUE_SIZE, 0))
    else r
  }

  /** The events of a key press or release, and of a pointer report. */
  function KeyReport(code: uint16, pressed: bool): seq<InputEvent> {
    [InputEvent(EV_KEY, code, if pressed then 1 else 0), InputEvent(EV_SYN, SYN_REPORT, 0)]
  }

  function PointerReport(x: uint32, y: uint32, left: bool, right: bool): seq<InputEvent> {
    [InputEvent(EV_ABS, ABS_X, x), InputEvent(EV_ABS, ABS_Y, y),
     InputEvent(EV_KEY, BTN_LEFT, if left then 1 else 0), InputEvent(EV_KEY, BTN_RIGHT, if right then 1 else 0),
     InputEvent(EV_SYN, SYN_REPORT, 0)]
  }

  function PushAll(pending: seq<InputEvent>, es: seq<InputEvent>): seq<InputEvent>
    decreases |es|
  {
    if es == [] then pending else PushAll(Push(pending, es[0]), es[1..])
  }

  /** However many are pushed, the backlog is the newest 128 of them all. */
  lemma {:induction false} PushAllKeepsNewest(pending: seq<InputEvent>, es: seq<InputEvent>)
    requires |pending| <= MAX_PENDING
    ensures PushAll(pending, es) == Newest(pending + es)
    decreases |es|
  {
    if es != [] {
      PushAllKeepsNewest(Push(pending, es[0]), es[1..]);
      NewestAfterPush(pending, es);
    }
  }

  function Newest(all: seq<InputEvent>): seq<InputEvent> {
    if |all| <= MAX_PENDING then all else all[|all| - MAX_PENDING..]
  }

  lemma NewestAfterPush(pending: seq<InputEvent>, es: seq<InputEvent>)
    requires |pending| <= MAX_PENDING && es != []
    ensures Newest(Push(pending, es[0]) + es[1..]) == Newest(pending + es)
  {
    var all := pending + es;
    assert Push(pending, es[0]) + es[1..] == if |pending| == MAX_PENDING then all[1..] else all;
  }

  lemma PushTwo(p: seq<InputEvent>, a: InputEvent, b: InputEvent)
    ensures PushAll(p, [a, b]) == Push(Push(p, a), b)
  {
    hide Push;
    assert [a, b][1..] == [b] && [b][1..] == [];
    assert PushAll(Push(p, a), [b]) == PushAll(Push(Push(p, a), b), []);
  }

  lemma PushFive(p: seq<InputEvent>, a: InputEvent, b: InputEvent, c: InputEvent, d: InputEvent, e: InputEvent)
    ensures PushAll(p, [a, b, c, d, e]) == Push(Push(Push(Push(Push(p, a), b), c), d), e)
  {
    hide Push;
    assert [a, b, c, d, e][1..] == [b, c, d, e] && [b, c, d, e][1..] == [c, d, e] && [c, d, e][1..] == [d, e];
    assert PushAll(p, [a, b, c, d, e]) == PushAll(Push(p, a), [b, c, d, e]);
    assert PushAll(Push(p, a), [b, c, d, e]) == PushAll(Push(Push(p, a), b), [c, d, e]);
    PushTwo(Push(Push(Push(p, a), b), c), d, e);
  }

  class Input {
    const eventq: Queue
    const statusq: Queue
    const ram: array<byte>
    const base: uint64
    /** Whether each queue is ready and its rings mapped. */
    var eventLive: bool
    var statusLive: bool
    var pending: seq<InputEvent>
    var irqStatus: uint32

    constructor (eventq: Queue, statusq: Queue, ram: array<byte>, base: uint64)
      ensures this.eventq == eventq && this.statusq == statusq && this.ram == ram && this.base == base
      ensures pending == [] && irqStatus == 0
    {
      this.eventq, this.statusq, this.ram, this.base := eventq, statusq, ram, base;
      eventLive, statusLive, pending, irqStatus := false, false, [], 0;
    }

    ghost predicate Valid()
      reads this, eventq, eventq.desc, eventq.avail, statusq, statusq.desc, statusq.avail, ram
    {
      eventq.Valid() && eventq.n == QUEUE_SIZE && statusq.Valid() && statusq.n == QUEUE_SIZE
      && eventq != statusq && eventq.used != statusq.used && eventq.avail != statusq.avail
      && WholeTable(base, ram.Length, eventq.desc[..]) && |pending| <= MAX_PENDING
    }

    ghost function View(): World
      reads this, eventq, eventq.avail, eventq.used, ram
    {
      World(pending, ram[..], eventq.View())
    }

    method PushEvent(e: InputEvent)
      requires |pending| <= MAX_PENDING
      modifies this`pending
      ensures pending == Push(old(pending), e)
    {
      pending := pending + [e];
      if |pending| > MAX_PENDING {
        pending := pending[1..];
      }
    }

    /** One pass of the flush loop. */
    method FlushOne() returns (injected: bool)
      requires Valid() && Busy(View())
      modifies this`pending, ram, eventq`usedIdx, eventq`lastAvail, eventq.used
      ensures Valid() && Trusted(old(View()), base, eventq.desc[..])
      ensures View() == FlushStep(old(View()), base, eventq.desc[..])
      ensures injected == (pending != old(pending))
    {
      var head := eventq.Peek();
      var d := eventq.desc[head];
      injected := Usable(d, base, ram.Length);
      if injected {
        var ev := pending[0];
        pending := pending[1..];
        CopyInto(ram, Place(d, base, ram.Length, eventq.desc[..]), Wire(ev));
        eventq.Return(head, EVENT_SIZE);
      } else {
        eventq.SkipOne();
      }
    }

    method FlushEvents()
      requires Valid()
      modifies this`pending, this`irqStatus, ram, eventq`usedIdx, eventq`lastAvail, eventq.used
      ensures Valid() && Trusted(old(View()), base, eventq.desc[..])
      ensures View() == if eventLive then Flush(old(View()), base, eventq.desc[..]) else old(View())
      ensures irqStatus == if |pending| < |old(pending)| then RaiseIrq(old(irqStatus)) else old(irqStatus)
    {
      if !eventLive {
        return;
      }
      hide FlushStep, WholeTable, InRange, RaiseIrq;
      ghost var desc, w0 := eventq.desc[..], View();
      var injected := false;
      while pending != [] && eventq.lastAvail != eventq.availIdx
        invariant Valid() && eventq.desc[..] == desc && eventLive && Trusted(View(), base, desc)
        invariant Flush(View(), base, desc) == Flush(w0, base, desc)
        invariant |pending| <= |w0.pending| && (injected <==> |pending| < |w0.pending|)
        invariant irqStatus == old(irqStatus)
        decreases Backlog(eventq.View())
      {
        ghost var n := |pending|;
        FlushShrinks(View(), base, desc);
        var one := FlushOne();
        injected := injected || one;
      }
      if injected {
        irqStatus := RaiseIrq(irqStatus);
      }
    }

    method SendKey(code: uint16, pressed: bool)
      requires Valid()
      modifies this`pending, this`irqStatus, ram, eventq`usedIdx, eventq`lastAvail, eventq.used
      ensures Valid() && Trusted(old(View()), base, eventq.desc[..])
      ensures var w := old(View()).(pending := PushAll(old(pending), KeyReport(code, pressed)));
              View() == (if eventLive then Flush(w, base, eventq.desc[..]) else w)
              && irqStatus == (if |pending| < |w.pending| then RaiseIrq(old(irqStatus)) else old(irqStatus))
    {
      ghost var es := KeyReport(code, pressed);
      PushTwo(pending, es[0], es[1]);
      assert es == [es[0], es[1]];
      PushEvent(InputEvent(EV_KEY, code, if pressed then 1 else 0));
      PushEvent(InputEvent(EV_SYN, SYN_REPORT, 0));
      FlushEvents();
    }

    method SendPointer(x: uint32, y: uint32, left: bool, right: bool)
      requires Valid()
      modifies this`pending, this`irqStatus, ram, eventq`usedIdx, eventq`lastAvail, eventq.used
      ensures Valid() && Trusted(old(View()), base, eventq.desc[..])
      ensures var w := old(View()).(pending := PushAll(old(pending), PointerReport(x, y, left, right)));
              View() == (if eventLive then Flush(w, base, eventq.desc[..]) else w)
              && irqStatus == (if |pending| < |w.pending| then RaiseIrq(old(irqStatus)) else old(irqStatus))
    {
      ghost var es := PointerReport(x, y, left, right);
      PushFive(pending, es[0], es[1], es[2], es[3], es[4]);
      assert es == [es[0], es[1], es[2], es[3], es[4]];
      PushEvent(InputEvent(EV_ABS, ABS_X, x));
      PushEvent(InputEvent(EV_ABS, ABS_Y, y));
      PushEvent(InputEvent(EV_KEY, BTN_LEFT, if left then 1 else 0));
      PushEvent(InputEvent(EV_KEY, BTN_RIGHT, if right then 1 else 0));
      PushEvent(InputEvent(EV_SYN, SYN_REPORT, 0));
      FlushEvents();
    }

    method ProcessStatusq()
      requires Valid()
      modifies this`irqStatus, statusq`usedIdx, statusq`lastAvail, statusq.used
      ensures Valid() && Sized(old(statusq.View()), QUEUE_SIZE) && View() == old(View())
      ensures statusq.View() == if statusLive then ReturnAll(old(statusq.View())) else old(statusq.View())
      ensures irqStatus == if statusLive && HasWork(old(statusq.View()))
                           then RaiseIrq(old(irqStatus)) else old(irqStatus)
    {
      if !statusLive {
        return;
      }
      ghost var r0 := statusq.View();
      var drained := false;
      while statusq.lastAvail != statusq.availIdx
        invariant Valid() && statusLive && View() == old(View()) && irqStatus == old(irqStatus)
        invariant Sized(statusq.View(), QUEUE_SIZE)
        invariant ReturnAll(statusq.View()) == ReturnAll(r0)
        invariant drained || statusq.View() == r0
        invariant drained ==> HasWork(r0)
        decreases Backlog(statusq.View())
      {
        BacklogDecreases(statusq.View(), QUEUE_SIZE, 0);
        var head := statusq.Peek();
        statusq.Return(head, 0);
        drained := true;
      }
      if drained {
        irqStatus := RaiseIrq(irqStatus);
      }
    }

    method Reset()
      requires Valid()
      modifies this`pending, this`irqStatus, this`eventLive, this`statusLive, eventq`lastAvail, statusq`lastAvail
      ensures Valid() && pending == [] && irqStatus == 0 && !eventLive && !statusLive
      ensures eventq.View() == old(eventq.View()).(lastAvail := 0)
      ensures statusq.View() == old(statusq.View()).(lastAvail := 0)
    {
      eventq.lastAvail, statusq.lastAvail := 0, 0;
      pending, irqStatus, eventLive, statusLive := [], 0, false, false;
    }
  }

  lemma FlushShrinks(w: World, base: uint64, desc: seq<Desc>)
    requires Trusted(w, base, desc) && Busy(w)
    ensures var w' := FlushStep(w, base, desc);
            && Flush(w, base, desc) == Flush(w', base, desc)
            && (w'.pending == w.pending || w'.pending == w.pending[1..])
            && Backlog(w'.ring) < Backlog(w.ring)
  {}
}
