/** The virtio-gpu device of src/virtio/gpu.cpp: its resource table, scanout and staged frames,
    updated in place. */
module GpuDevice {
  import opened Bytes
  import opened GuestMemory
  import opened SplitRing
  import opened Virtqueue
  import opened GpuBacking
  import opened GpuTransfer
  import opened GpuCommands
  import opened GpuDrain
  import opened GpuRuns

  datatype Resource = Resource(format: uint32, width: uint32, height: uint32, backing: seq<MemEntry>,
                               hostBuf: array<byte>)

  class Gpu {
    const env: Env
    const q: Queue
    const ram: array<byte>
    var resources: map<uint32, Resource>
    var scanout: uint32
    var pending: seq<Frame>
    var status: uint32
    var driverFeatures: uint64
    var irqStatus: uint32
    /** The frames the callback has been given. */
    var shown: seq<Frame>
    /** Whether the control queue is ready and its rings mapped. */
    var live: bool

    constructor (env: Env, q: Queue, ram: array<byte>)
      ensures this.env == env && this.q == q && this.ram == ram
      ensures Separate() && View() == State(map[], 0, []) && irqStatus == 0 && shown == []
    {
      this.env, this.q, this.ram := env, q, ram;
      resources, scanout, pending := map[], 0, [];
      status, driverFeatures, irqStatus, live, shown := 0, 0, 0, false, [];
    }

    ghost function Bufs(): set<array<byte>>
      reads this
    {
      set id | id in resources :: resources[id].hostBuf
    }

    /** Each resource has a host buffer of its own, apart from guest RAM. */
    ghost predicate Separate()
      reads this
    {
      (forall i, j :: i in resources && j in resources && i != j ==> resources[i].hostBuf != resources[j].hostBuf)
      && ram !in Bufs()
    }

    ghost function View(): State
      reads this, Bufs()
    {
      State(map id | id in resources :: ViewOf(resources[id]), scanout, pending)
    }

    ghost predicate Valid()
      reads this, Bufs(), ram, q, q.desc, q.avail
    {
      Separate() && q.Valid() && q.n == QUEUE_SIZE
      && WholeTable(env.base, ram.Length, q.desc[..]) && Sane(View(), env.base, ram.Length)
    }

    ghost function WorldView(): World
      reads this, Bufs(), ram, q, q.avail, q.used
    {
      World(View(), ram[..], q.View())
    }

    method Create(id: uint32, format: uint32, w: uint32, h: uint32)
      requires Separate()
      modifies this`resources
      ensures Separate() && fresh(Bufs() - old(Bufs()))
      ensures View() == old(View()).(resources := old(View()).resources[id := NewRes(format, w, h)])
    {
      hide NewRes, Gpu.View, Gpu.Separate;
      var r := NewResource(format, w, h);
      Apart(r);
      Put(id, r);
    }

    /** A buffer allocated now is none of the table's. */
    twostate lemma Apart(new r: Resource)
      requires old(Separate()) && resources == old(resources) && scanout == old(scanout) && pending == old(pending)
      requires fresh(r.hostBuf) && forall b :: b in old(Bufs()) ==> b[..] == old(b[..])
      ensures Separate() && r.hostBuf !in Bufs() && r.hostBuf != ram && View() == old(View())
    {}

    method Put(id: uint32, r: Resource)
      requires Separate() && r.hostBuf !in Bufs() && r.hostBuf != ram
      modifies this`resources
      ensures Separate() && Bufs() <= old(Bufs()) + {r.hostBuf}
      ensures View() == old(View()).(resources := old(View()).resources[id := ViewOf(r)])
    {
      ghost var before := resources;
      resources := resources[id := r];
      assert forall i :: i in before && i != id ==> resources[i] == before[i];
    }

    method Receive(id: uint32, t: Transfer)
      requires Separate() && Sane(View(), env.base, ram.Length) && id in resources
      requires InBounds(t, resources[id].width, resources[id].height)
      modifies resources[id].hostBuf
      ensures View() == old(View()).(resources :=
                old(View()).resources[id := Received(ram[..], env.base, old(View()).resources[id], t)])
    {
      var r := resources[id];
      assert ResOk(View().resources[id], env.base, ram.Length);
      TransferToHost(ram[..], env.base, r.backing, r.hostBuf, r.width, r.height, t);
    }

    method Drop(id: uint32)
      requires Separate()
      modifies this`resources
      ensures Separate() && Bufs() <= old(Bufs())
      ensures scanout == View().scanout
      ensures View() == old(View()).(resources := old(View()).resources - {id})
    {
      ghost var before := resources;
      resources := resources - {id};
      assert forall i :: i in resources ==> i in before && resources[i].hostBuf == before[i].hostBuf;
    }

    method SetBacking(id: uint32, backing: seq<MemEntry>)
      requires Separate() && id in resources
      modifies this`resources
      ensures Separate() && Bufs() == old(Bufs())
      ensures View() == old(View()).(resources :=
                old(View()).resources[id := old(View()).resources[id].(backing := backing)])
    {
      ghost var before := resources;
      resources := resources[id := resources[id].(backing := backing)];
      assert resources.Keys == before.Keys;
      assert forall i :: i in before ==> resources[i].hostBuf == before[i].hostBuf;
      assert forall b :: b in old(Bufs()) ==> exists i :: i in before && before[i].hostBuf == b;
    }

    /** Executes one command on the table, scanout and staged frames. */
    method Dispatch(req: seq<byte>) returns (reply: Reply)
      requires Separate() && Sane(View(), env.base, ram.Length)
      requires |req| >= HDR_SIZE && CommandOk(View(), Decode(req), env.base, ram.Length)
      modifies this`resources, this`scanout, this`pending, Bufs()
      ensures Separate() && fresh(Bufs() - old(Bufs()))
      ensures Outcome(View(), reply) == Exec(env, old(ram[..]), old(View()), Decode(req))
    {
      hide Word, Word64, RectAt, Entries, Received, NewRes, WholeEntries, ResOk;
      ghost var s := View();
      assert s.resources.Keys == resources.Keys;
      assert forall id :: id in resources ==> s.resources[id].backing == resources[id].backing;
      var c := Decode(req);
      assert c.Attach? ==> |req| >= 32 && c.entries == Entries(req, 0, Word(req, 7));
      hide Gpu.View, Gpu.Separate, Sane, Decode, Shown, CommandOk;
      reply := Ok;
      match c
      case DisplayInfo => reply := Display;
      case Create(id, format, w, h) => Create(id, format, w, h);
      case Unref(id) =>
        Drop(id);
        if scanout == id {
          PointScanout(0);
        }
      case SetScanout(_, target, id) =>
        if target == 0 {
          PointScanout(id);
        }
      case Flush(_, id) =>
        if id !in resources {
          return Err(ERR_INVALID_RESOURCE_ID);
        }
        StageFrame(id);
      case TransferToHost2d(id, t) =>
        if id !in resources {
          return Err(ERR_INVALID_RESOURCE_ID);
        }
        Receive(id, t);
      case Attach(id, _) =>
        if id !in resources {
          return Err(ERR_INVALID_RESOURCE_ID);
        }
        var backing := AppendEntries(resources[id].backing, req, Word(req, 7));
        SetBacking(id, backing);
      case Detach(id) =>
        if id in resources {
          SetBacking(id, []);
        }
      case Malformed => reply := Err(ERR_UNSPEC);
    }

    method PointScanout(id: uint32)
      modifies this`scanout
      ensures View() == old(View()).(scanout := id)
      ensures old(Separate()) ==> Separate()
    {
      scanout := id;
    }

    /** A copy of the pixels as they are now is staged, for the scanout resource only. */
    method StageFrame(id: uint32)
      requires id in resources
      modifies this`pending
      ensures View() == old(View()).(pending := old(View()).pending + Shown(env, old(View()), id))
      ensures old(Separate()) ==> Separate()
    {
      var r := resources[id];
      if env.hasCallback && id == scanout && r.hostBuf.Length != 0 {
        pending := pending + [Frame(r.hostBuf[..], r.width, r.height, U32(r.width * 4))];
      }
    }

    // ----- the control queue -----

    method ServeOne()
      requires Valid() && HasWork(q.View()) && StepOk(env, WorldView(), q.desc[..])
      modifies this`resources, this`scanout, this`pending, Bufs(), ram, q`usedIdx, q`lastAvail, q.used
      ensures Valid() && fresh(Bufs() - old(Bufs()))
      ensures WorldView() == ServeNext(env, old(WorldView()), q.desc[..])
    {
      hide Handle, Sane, Gpu.View, Gpu.Separate, Readable, Reach, Target, Splice, RequestOk, Head, Backlog, HasWork;
      var head := q.Peek();
      var req, target := Collect(q.desc[..], ram[..], env.base, head);
      var respLen: uint32 := 0;
      if req != [] && target.Some? && target.value.len >= HDR_SIZE {
        respLen := HandleCommand(req[..U32(|req|)], target.value);
      } else if target.Some? && target.value.len >= HDR_SIZE {
        NoRequest(env, ram[..], View(), target.value);
      }
      q.Return(head, respLen);
    }

    method HandleCommand(req: seq<byte>, target: Desc) returns (respLen: uint32)
      requires Separate() && Sane(View(), env.base, ram.Length) && RequestOk(View(), req, env.base, ram.Length)
      requires Mapped(env.base, ram.Length, target) && target.len >= HDR_SIZE
      modifies this`resources, this`scanout, this`pending, Bufs(), ram
      ensures Separate() && fresh(Bufs() - old(Bufs()))
      ensures var h := Handle(env, old(ram[..]), old(View()), req, target.len);
              && View() == h.dev && respLen == |h.resp|
              && ram[..] == Splice(old(ram[..]), At(env.base, ram.Length, target), h.resp)
    {
      hide Decode, Splice, Response, Exec, Sane, Translate, CommandOk;
      if |req| < HDR_SIZE {
        SpliceNothing(ram[..], At(env.base, ram.Length, target));
        return 0;
      }
      var reply := Dispatch(req);
      var resp := Response(env, reply, Fenced(req), Word64(req, 2), target.len);
      CopyInto(ram, At(env.base, ram.Length, target), resp);
      respLen := |resp|;
    }

    /** Drains the control queue. */
    method ProcessControlq()
      requires Valid() && (live ==> DrainOk(env, WorldView(), q.desc[..]))
      modifies this`resources, this`scanout, this`pending, this`live, this`driverFeatures, this`status, this`irqStatus
      modifies Bufs(), ram, q`usedIdx, q`lastAvail, q.used
      ensures Valid() && fresh(Bufs() - old(Bufs()))
      ensures q.desc[..] == old(q.desc[..])
      ensures live == old(live) && driverFeatures == old(driverFeatures) && status == old(status)
      ensures old(live) ==> WorldView() == Drain(env, old(WorldView()), old(q.desc[..]))
      ensures irqStatus == if old(live) then RaiseIrq(old(irqStatus)) else old(irqStatus)
      ensures !old(live) ==> WorldView() == old(WorldView())
    {
      if !live {
        return;
      }
      hide Drain, DrainOk, Gpu.Valid, Gpu.View, RaiseIrq;
      DrainQueue();
      SetRegisters(live, driverFeatures, status, RaiseIrq(irqStatus));
    }

    method DrainQueue()
      requires Valid() && DrainOk(env, WorldView(), q.desc[..])
      modifies this`resources, this`scanout, this`pending, Bufs(), ram, q`usedIdx, q`lastAvail, q.used
      ensures Valid() && fresh(Bufs() - old(Bufs()))
      ensures q.desc[..] == old(q.desc[..])
      ensures WorldView() == Drain(env, old(WorldView()), old(q.desc[..]))
    {
      hide StepOk, ServeNext, Trusted, Drain, DrainOk, Gpu.Valid, Gpu.View;
      ghost var desc, w0 := q.desc[..], WorldView();
      while q.lastAvail != q.availIdx
        invariant Valid() && q.desc[..] == desc && fresh(Bufs() - old(Bufs()))
        invariant DrainOk(env, WorldView(), desc)
        invariant Drain(env, WorldView(), desc) == Drain(env, w0, desc)
        decreases Backlog(q.View())
      {
        DrainStep(env, WorldView(), desc);
        ServeOne();
      }
      DrainEnd(env, WorldView(), desc);
    }

    /** Registers apart from the queues. */
    method SetRegisters(live: bool, driverFeatures: uint64, status: uint32, irqStatus: uint32)
      requires Valid()
      modifies this`live, this`driverFeatures, this`status, this`irqStatus
      ensures Valid() && Bufs() == old(Bufs()) && WorldView() == old(WorldView())
      ensures this.live == live && this.driverFeatures == driverFeatures
      ensures this.status == status && this.irqStatus == irqStatus
    {
      this.live, this.driverFeatures, this.status, this.irqStatus := live, driverFeatures, status, irqStatus;
    }

    // ----- register writes -----

    ghost function MachineView(): Machine
      reads this, Bufs(), ram, q, q.desc, q.avail, q.used
    {
      Machine(WorldView(), q.desc[..], live, status, driverFeatures, irqStatus, shown)
    }

    /** The device's own state goes back to what it was when made. */
    method Reset()
      requires Valid()
      modifies this`resources, this`scanout, this`pending, this`live, this`driverFeatures, this`irqStatus, q`lastAvail
      ensures Valid() && Bufs() == {}
      ensures var m := old(MachineView());
              MachineView() == m.(w := m.w.(dev := State(map[], 0, []), ring := m.w.ring.(lastAvail := 0)),
                                  live := false, driverFeatures := 0, irqStatus := 0)
    {
      q.lastAvail := 0;
      irqStatus, scanout, resources, driverFeatures, pending, live := 0, 0, map[], 0, [], false;
    }

    /** The staged frames are swapped out and handed to the callback one by one. */
    method DeliverFrames()
      requires Valid()
      modifies this`pending, this`shown
      ensures Valid() && Bufs() == old(Bufs())
      ensures var m := old(MachineView());
              MachineView() == m.(w := m.w.(dev := m.w.dev.(pending := [])),
                                  trace := m.trace + if env.hasCallback then m.w.dev.pending else [])
    {
      hide WholeTable, InRange, ResOk, Queue.View;
      var frames := pending;
      pending := [];
      if env.hasCallback {
        for i := 0 to |frames|
          invariant shown == old(shown) + frames[..i] && pending == []
        {
          shown := shown + [frames[i]];
        }
        assert frames[..|frames|] == frames;
      }
    }

    /** The part of a register write under the lock. */
    method WriteLocked(e: GpuRuns.Event)
      requires Valid() && !e.GuestActs? && GpuRuns.Enabled(env, MachineView(), e)
      modifies this, Bufs(), ram, q`usedIdx, q`lastAvail, q.used
      ensures Valid() && fresh(Bufs() - old(Bufs()))
      ensures MachineView() == Locked(env, old(MachineView()), e)
    {
      hide Gpu.View, Gpu.Separate, Gpu.Valid, DrainOk, Drain, RaiseIrq;
      match e
      case Configure(live, driverFeatures) => SetRegisters(live, driverFeatures, status, irqStatus);
      case Notify(queue) =>
        if queue == 0 {
          ProcessControlq();
        }
      case AckIrq(bits) =>
        if bits % 2 == 1 {
          SetRegisters(live, driverFeatures, status, irqStatus - irqStatus % 2);
        }
      case WriteStatus(value) =>
        SetRegisters(live, driverFeatures, StatusAfter(status, value, driverFeatures), irqStatus);
        if value == 0 {
          Reset();
        }
      case GuestActs(_, _, _) => assert false;
    }

    method Write(e: GpuRuns.Event)
      requires Valid() && !e.GuestActs? && GpuRuns.Enabled(env, MachineView(), e)
      modifies this, Bufs(), ram, q`usedIdx, q`lastAvail, q.used
      ensures Valid() && fresh(Bufs() - old(Bufs()))
      ensures MachineView() == GpuRuns.Next(env, old(MachineView()), e)
    {
      hide Locked, GpuRuns.Enabled;
      WriteLocked(e);
      DeliverFrames();
    }
  }

  lemma DrainStep(env: Env, w: World, desc: seq<Desc>)
    requires DrainOk(env, w, desc) && HasWork(w.ring)
    ensures StepOk(env, w, desc) && DrainOk(env, ServeNext(env, w, desc), desc)
    ensures Drain(env, w, desc) == Drain(env, ServeNext(env, w, desc), desc)
    ensures Backlog(ServeNext(env, w, desc).ring) < Backlog(w.ring)
  {
    hide Trusted, StepOk, ServeNext;
  }

  lemma DrainEnd(env: Env, w: World, desc: seq<Desc>)
    requires DrainOk(env, w, desc) && !HasWork(w.ring)
    ensures Drain(env, w, desc) == w
  {}

  /** Walks the chain from `head`: the readable buffers' bytes, and the last writable buffer. */
  method Collect(desc: seq<Desc>, ram: seq<byte>, base: uint64, head: uint16)
    returns (req: seq<byte>, target: Option<Desc>)
    requires head < |desc| && forall i :: 0 <= i < |desc| ==> desc[i].next < |desc|
    requires WholeTable(base, |ram|, desc)
    ensures forall s :: s in Reach(desc, base, |ram|, head, MAX_CHAIN) ==> Mapped(base, |ram|, s)
    ensures req == Readable(ram, base, Reach(desc, base, |ram|, head, MAX_CHAIN))
    ensures target == Target(Reach(desc, base, |ram|, head, MAX_CHAIN))
  {
    hide Reach, Readable, Target, WholeTable, Whole, Translate, Desc.HasNext, Desc.Writable, Mapped, At;
    ghost var walk := Reach(desc, base, |ram|, head, MAX_CHAIN);
    ghost var done: seq<Desc> := [];
    EmptyWalk(ram, base);
    req, target := [], None;
    var c: uint16, step := head, 0;
    assert walk == done + Reach(desc, base, |ram|, c, MAX_CHAIN);
    while step < MAX_CHAIN
      invariant step <= MAX_CHAIN && c < |desc|
      invariant walk == done + Reach(desc, base, |ram|, c, MAX_CHAIN - step)
      invariant forall s :: s in done ==> Mapped(base, |ram|, s)
      invariant req == Readable(ram, base, done) && target == Target(done)
      decreases MAX_CHAIN - step
    {
      var d := desc[c];
      ReachStep(desc, base, |ram|, c, MAX_CHAIN - step);
      if Translate(base, |ram|, d.addr).None? {
        Finished(walk, done);
        return;
      }
      var at := Translate(base, |ram|, d.addr).value;
      MappedInTable(base, |ram|, desc, c);
      ReadableStep(ram, base, done, d);
      TargetStep(done, d);
      if d.Writable() {
        target := Some(d);
      } else {
        req := req + ram[at..at + d.len];
      }
      if !d.HasNext() {
        WalkOn(walk, done, d, []);
        Finished(walk, done + [d]);
        return;
      }
      WalkOn(walk, done, d, Reach(desc, base, |ram|, d.next, MAX_CHAIN - step - 1));
      done := done + [d];
      c, step := d.next, step + 1;
    }
    ReachStep(desc, base, |ram|, c, 1);
    Finished(walk, done);
  }

  lemma Finished(walk: seq<Desc>, done: seq<Desc>)
    requires walk == done + []
    ensures walk == done
  {}

  lemma EmptyWalk(ram: seq<byte>, base: uint64)
    ensures Readable(ram, base, []) == [] && Target([]) == None
  {}

  lemma ReachStep(desc: seq<Desc>, base: uint64, size: nat, c: uint16, fuel: nat)
    requires c < |desc| && (forall i :: 0 <= i < |desc| ==> desc[i].next < |desc|) && fuel > 0
    ensures Reach(desc, base, size, c, 0) == []
    ensures Reach(desc, base, size, c, fuel) == if Translate(base, size, desc[c].addr).None? then []
            else [desc[c]] + if desc[c].HasNext() then Reach(desc, base, size, desc[c].next, fuel - 1) else []
  {}

  lemma MappedInTable(base: uint64, size: nat, desc: seq<Desc>, c: uint16)
    requires c < |desc| && WholeTable(base, size, desc) && Translate(base, size, desc[c].addr).Some?
    ensures Mapped(base, size, desc[c]) && At(base, size, desc[c]) == Translate(base, size, desc[c].addr).value
  {}

  lemma ReadableStep(ram: seq<byte>, base: uint64, done: seq<Desc>, d: Desc)
    requires (forall s :: s in done ==> Mapped(base, |ram|, s)) && Mapped(base, |ram|, d)
    ensures forall s :: s in done + [d] ==> Mapped(base, |ram|, s)
    ensures Readable(ram, base, done + [d]) == Readable(ram, base, done)
              + if d.Writable() then [] else ram[At(base, |ram|, d)..At(base, |ram|, d) + d.len]
  {
    assert (done + [d])[..|done|] == done;
  }

  lemma TargetStep(done: seq<Desc>, d: Desc)
    ensures Target(done + [d]) == if d.Writable() then Some(d) else Target(done)
  {
    assert (done + [d])[..|done|] == done;
  }

  lemma NoRequest(env: Env, ram: seq<byte>, s: State, target: Desc)
    requires Sane(s, env.base, |ram|) && Mapped(env.base, |ram|, target) && target.len >= HDR_SIZE
    ensures RequestOk(s, [], env.base, |ram|)
    ensures var h := Handle(env, ram, s, [], target.len);
            h.dev == s && h.resp == [] && Splice(ram, At(env.base, |ram|, target), h.resp) == ram
  {
    SpliceNothing(ram, At(env.base, |ram|, target));
  }

  lemma WalkOn(walk: seq<Desc>, done: seq<Desc>, d: Desc, rest: seq<Desc>)
    requires walk == done + ([d] + rest)
    ensures walk == done + [d] + rest
  {}

  method NewResource(format: uint32, w: uint32, h: uint32) returns (r: Resource)
    ensures fresh(r.hostBuf) && ViewOf(r) == NewRes(format, w, h)
  {
    var buf := new byte[BufferSize(w, h)](_ => 0);
    assert buf[..] == Zeros(BufferSize(w, h));
    r := Resource(format, w, h, [], buf);
  }

  /** The entries are appended one by one until the request runs out. */
  method AppendEntries(backing0: seq<MemEntry>, req: seq<byte>, n: uint32) returns (backing: seq<MemEntry>)
    ensures backing == backing0 + Entries(req, 0, n)
  {
    backing := backing0;
    var i := 0;
    while i < n
      invariant 0 <= i <= n
      invariant backing + Entries(req, i, n) == backing0 + Entries(req, 0, n)
    {
      var off := 32 + i * 16;
      if off + 16 > |req| {
        break;
      }
      var entry := MemEntry(ReadLe64(req, off), ReadLe32(req, off + 8));
      assert Entries(req, i, n) == [entry] + Entries(req, i + 1, n);
      backing := backing + [entry];
      i := i + 1;
    }
  }

  function ViewOf(r: Resource): Res
    reads r.hostBuf
  {
    Res(r.format, r.width, r.height, r.backing, r.hostBuf[..])
  }
}
