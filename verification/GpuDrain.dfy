/** The virtio-gpu control queue over whole drains and whole runs of register writes: what is
    served, which frames are staged, and what the frame callback is given. */
module GpuDrain {
  import opened Bytes
  import opened GuestMemory
  import opened SplitRing
  import opened Virtqueue
  import opened GpuCommands

  const QUEUE_SIZE: ringsize := 256
  const MAX_CHAIN := 64

  // ----- one request -----

  /** The buffers a walk from `c` visits: it ends at the chain's end, at the first buffer
      outside RAM, or after `fuel` of them. */
  function Reach(desc: seq<Desc>, base: uint64, size: nat, c: uint16, fuel: nat): (r: seq<Desc>)
    requires c < |desc| && forall i :: 0 <= i < |desc| ==> desc[i].next < |desc|
    ensures forall s :: s in r ==> s in desc && Translate(base, size, s.addr).Some?
    decreases fuel
  {
    if fuel == 0 || Translate(base, size, desc[c].addr).None? then []
    else [desc[c]] + if desc[c].HasNext() then Reach(desc, base, size, desc[c].next, fuel - 1) else []
  }

  predicate Mapped(base: uint64, size: nat, s: Desc) {
    Whole(base, size, s.addr, s.len) && Translate(base, size, s.addr).Some?
  }

  function At(base: uint64, size: nat, s: Desc): (at: nat)
    requires Mapped(base, size, s)
    ensures at + s.len <= size
  {
    Translate(base, size, s.addr).value
  }

  /** What the device reads: the readable buffers' bytes, in order. */
  function Readable(ram: seq<byte>, base: uint64, segs: seq<Desc>): seq<byte>
    requires forall s :: s in segs ==> Mapped(base, |ram|, s)
  {
    if segs == [] then []
    else
      var n := |segs| - 1;
      assert segs[n] in segs && forall s :: s in segs[..n] ==> s in segs;
      var at := At(base, |ram|, segs[n]);
      Readable(ram, base, segs[..n]) + if segs[n].Writable() then [] else ram[at..at + segs[n].len]
  }

  /** Where the response goes: the last writable buffer. */
  function Target(segs: seq<Desc>): (d: Option<Desc>)
    ensures d.Some? ==> d.value in segs && d.value.Writable()
  {
    if segs == [] then None
    else if segs[|segs| - 1].Writable() then Some(segs[|segs| - 1])
    else Target(segs[..|segs| - 1])
  }

  datatype World = World(dev: State, ram: seq<byte>, ring: Ring)

  /** What the code takes on trust of the guest's memory. */
  ghost predicate Trusted(env: Env, w: World, desc: seq<Desc>) {
    InRange(desc, w.ring.avail, QUEUE_SIZE) && Sized(w.ring, QUEUE_SIZE)
    && WholeTable(env.base, |w.ram|, desc) && Sane(w.dev, env.base, |w.ram|)
  }

  function Visited(env: Env, w: World, desc: seq<Desc>): (segs: seq<Desc>)
    requires Sized(w.ring, QUEUE_SIZE) && InRange(desc, w.ring.avail, QUEUE_SIZE)
    requires WholeTable(env.base, |w.ram|, desc)
    ensures forall s :: s in segs ==> Mapped(env.base, |w.ram|, s)
  {
    Reach(desc, env.base, |w.ram|, Head(w.ring, QUEUE_SIZE), MAX_CHAIN)
  }

  /** The request: its length is kept in 32 bits. */
  function Request(env: Env, w: World, desc: seq<Desc>): seq<byte>
    requires Sized(w.ring, QUEUE_SIZE) && InRange(desc, w.ring.avail, QUEUE_SIZE)
    requires WholeTable(env.base, |w.ram|, desc)
  {
    var all := Readable(w.ram, env.base, Visited(env, w, desc));
    all[..U32(|all|)]
  }

  function Capacity(target: Option<Desc>): nat {
    if target.Some? then target.value.len else 0
  }

  ghost predicate StepOk(env: Env, w: World, desc: seq<Desc>) {
    Trusted(env, w, desc) && RequestOk(w.dev, Request(env, w, desc), env.base, |w.ram|)
  }

  /** The device and RAM after one request, and the length of its response. */
  ghost function Answer(env: Env, w: World, desc: seq<Desc>): (r: (State, seq<byte>, uint32))
    requires StepOk(env, w, desc)
    ensures Sane(r.0, env.base, |w.ram|) && |r.1| == |w.ram|
    ensures r.2 <= Capacity(Target(Visited(env, w, desc)))
  {
    var target := Target(Visited(env, w, desc));
    if Capacity(target) < HDR_SIZE then (w.dev, w.ram, 0)
    else
      var h := Handle(env, w.ram, w.dev, Request(env, w, desc), target.value.len);
      (h.dev, Splice(w.ram, At(env.base, |w.ram|, target.value), h.resp), |h.resp|)
  }

  /** One pass of the drain loop. */
  ghost function ServeNext(env: Env, w: World, desc: seq<Desc>): (w': World)
    requires StepOk(env, w, desc) && HasWork(w.ring)
    ensures Trusted(env, w', desc) && Backlog(w'.ring) == Backlog(w.ring) - 1
  {
    var a := Answer(env, w, desc);
    BacklogDecreases(w.ring, QUEUE_SIZE, a.2);
    World(a.0, a.1, Complete(w.ring, QUEUE_SIZE, a.2))
  }

  // ----- a whole drain -----

  /** Every command met during the drain is one the code can take on trust. */
  ghost predicate DrainOk(env: Env, w: World, desc: seq<Desc>)
    decreases Backlog(w.ring)
  {
    Trusted(env, w, desc)
    && (HasWork(w.ring) ==> StepOk(env, w, desc) && DrainOk(env, ServeNext(env, w, desc), desc))
  }

  ghost function Drain(env: Env, w: World, desc: seq<Desc>): (w': World)
    requires DrainOk(env, w, desc)
    ensures Trusted(env, w', desc) && !HasWork(w'.ring) && |w'.ram| == |w.ram|
    decreases Backlog(w.ring)
  {
    if !HasWork(w.ring) then w else Drain(env, ServeNext(env, w, desc), desc)
  }

  /** The frame, if any, the next request shows: it must be answered, be a flush, and name the
      scanout resource of that moment. */
  ghost function FrameOf(env: Env, w: World, desc: seq<Desc>): (f: seq<Frame>)
    requires StepOk(env, w, desc)
    ensures |f| <= 1
  {
    var req := Request(env, w, desc);
    if Capacity(Target(Visited(env, w, desc))) >= HDR_SIZE && |req| >= HDR_SIZE && Decode(req).Flush? then
      Shown(env, w.dev, Decode(req).id)
    else []
  }

  /** The frames a drain shows, each with the pixels its resource had when it was flushed. */
  ghost function FramesOf(env: Env, w: World, desc: seq<Desc>): seq<Frame>
    requires DrainOk(env, w, desc)
    decreases Backlog(w.ring)
  {
    if !HasWork(w.ring) then []
    else FrameOf(env, w, desc) + FramesOf(env, ServeNext(env, w, desc), desc)
  }

  lemma StepStages(env: Env, w: World, desc: seq<Desc>)
    requires StepOk(env, w, desc) && HasWork(w.ring)
    ensures ServeNext(env, w, desc).dev.pending == w.dev.pending + FrameOf(env, w, desc)
  {
    hide Trusted, Decode, Request, Visited, Splice, Sane, Response, Received, NewRes, Complete, CommandOk, WholeTable;
  }

  lemma AssocFrames(a: seq<Frame>, b: seq<Frame>, c: seq<Frame>)
    ensures (a + b) + c == a + (b + c)
  {}

  /** A drain stages exactly its flushes of the scanout resource, in order, and no later command
      of the same drain changes a frame once staged. */
  lemma {:induction false} DrainStages(env: Env, w: World, desc: seq<Desc>)
    requires DrainOk(env, w, desc)
    ensures Drain(env, w, desc).dev.pending == w.dev.pending + FramesOf(env, w, desc)
    decreases Backlog(w.ring)
  {
    hide Trusted, StepOk, FrameOf, ServeNext, HasWork, Backlog;
    if HasWork(w.ring) {
      var next := ServeNext(env, w, desc);
      DrainStages(env, next, desc);
      StepStages(env, w, desc);
      AssocFrames(w.dev.pending, FrameOf(env, w, desc), FramesOf(env, next, desc));
    }
  }

  // ----- what the driver finds -----

  predicate AllMapped(base: uint64, size: nat, segs: seq<Desc>) {
    forall i :: 0 <= i < |segs| ==> Mapped(base, size, segs[i])
  }

  lemma ReadableLast(ram: seq<byte>, base: uint64, segs: seq<Desc>, d: Desc)
    requires AllMapped(base, |ram|, segs) && Mapped(base, |ram|, d)
    ensures Readable(ram, base, segs + [d]) == Readable(ram, base, segs) + Readable(ram, base, [d])
  {
    hide Mapped;
    assert (segs + [d])[..|segs|] == segs && [d][..0] == [];
    assert Readable(ram, base, []) == [];
  }

  /** The request is what the readable buffers hold, one after another. */
  lemma {:induction false} ReadableConcat(ram: seq<byte>, base: uint64, a: seq<Desc>, b: seq<Desc>)
    requires AllMapped(base, |ram|, a) && AllMapped(base, |ram|, b)
    ensures Readable(ram, base, a + b) == Readable(ram, base, a) + Readable(ram, base, b)
    decreases |b|
  {
    hide Mapped, Readable;
    if b == [] {
      assert a + b == a;
      ReadableNothing(ram, base);
    } else {
      var n := |b| - 1;
      assert a + b == (a + b[..n]) + [b[n]] && b == b[..n] + [b[n]];
      ReadableConcat(ram, base, a, b[..n]);
      ReadableLast(ram, base, a + b[..n], b[n]);
      ReadableLast(ram, base, b[..n], b[n]);
      Assoc(Readable(ram, base, a), Readable(ram, base, b[..n]), Readable(ram, base, [b[n]]));
    }
  }

  lemma ReadableNothing(ram: seq<byte>, base: uint64)
    ensures Readable(ram, base, []) == []
  {}

  lemma OneReadable(ram: seq<byte>, base: uint64, d: Desc)
    requires Mapped(base, |ram|, d)
    ensures d.addr - base + d.len <= |ram|
    ensures Readable(ram, base, [d])
            == if d.flags / 2 % 2 == 1 then [] else ram[d.addr - base..d.addr - base + d.len]
  {
    assert [d][..0] == [];
  }

  /** The response goes to the last buffer the device may write. */
  lemma {:induction false} TargetIsLast(segs: seq<Desc>) returns (i: int)
    ensures -1 <= i < |segs| && (Target(segs) == if i < 0 then None else Some(segs[i]))
    ensures i >= 0 ==> segs[i].flags / 2 % 2 == 1
    ensures forall j :: i < j < |segs| ==> segs[j].flags / 2 % 2 == 0
    decreases |segs|
  {
    i := |segs| - 1;
    if i >= 0 && !segs[i].Writable() {
      i := TargetIsLast(segs[..i]);
    }
  }

  /** A well-formed request whose chain has room for a response: the driver finds in the last
      writable buffer the type that tells its fate, and its fence; the used length is the
      response's, and no other byte of memory changes. */
  lemma ResponseInBuffer(env: Env, w: World, desc: seq<Desc>, c: Command, flags: uint32, fence: uint64, d: Desc)
    requires StepOk(env, w, desc) && HasWork(w.ring) && !c.Malformed? && (c.Attach? ==> |c.entries| < TWO_32)
    requires Request(env, w, desc) == Encode(c, flags, fence)
    requires Target(Visited(env, w, desc)) == Some(d) && d.len >= 24
    ensures var w' := ServeNext(env, w, desc);
            var at, n := d.addr - env.base, if c.DisplayInfo? then Min(d.len, 408) else 24;
            var missing := (c.Flush? || c.TransferToHost2d? || c.Attach?) && c.id !in w.dev.resources;
            && |w'.ram| == |w.ram| && 0 <= at && at + n <= |w.ram|
            && w'.ring.used[w.ring.usedIdx % 256] == Used(w.ring.avail[w.ring.lastAvail % 256], n)
            && ReadLe32(w'.ram, at) == (if missing then 0x1203 else if c.DisplayInfo? then 0x1101 else 0x1100)
            && (ReadLe32(w'.ram, at + 4) % 2 == 1 <==> flags % 2 == 1 && !missing)
            && (ReadLe32(w'.ram, at + 4) % 2 == 1 ==> ReadLe64(w'.ram, at + 8) == fence)
            && forall p :: 0 <= p < |w.ram| && !(at <= p < at + n) ==> w'.ram[p] == w.ram[p]
  {
    hide Exec, Decode, Encode, Request, Visited, Target, Response, ReadLe32, ReadLe64, Complete, CommandOk, Sane;
    PartsOfStep(env, w, desc, d);
    DecodeInvertsEncode(c, flags, fence);
    ResponseMeans(env, w.ram, w.dev, c, flags, fence, d.len);
    var h := Handle(env, w.ram, w.dev, Encode(c, flags, fence), d.len);
    var at := d.addr - env.base;
    ResponseStored(w.ram, at, h.resp);
    CompletedAt(w.ring, |h.resp|);
  }

  lemma PartsOfStep(env: Env, w: World, desc: seq<Desc>, d: Desc)
    requires StepOk(env, w, desc) && Target(Visited(env, w, desc)) == Some(d)
    ensures Sane(w.dev, env.base, |w.ram|) && RequestOk(w.dev, Request(env, w, desc), env.base, |w.ram|)
    ensures Sized(w.ring, QUEUE_SIZE) && Mapped(env.base, |w.ram|, d) && At(env.base, |w.ram|, d) == d.addr - env.base
  {}

  lemma CompletedAt(r: Ring, len: uint32)
    requires Sized(r, QUEUE_SIZE)
    ensures Complete(r, QUEUE_SIZE, len).used[r.usedIdx % 256] == Used(r.avail[r.lastAvail % 256], len)
  {}

  /** The first words of what is stored are read back. */
  lemma ResponseStored(ram: seq<byte>, at: nat, resp: seq<byte>)
    requires at + |resp| <= |ram| && |resp| >= 24
    ensures var ram' := Splice(ram, at, resp);
            && ReadLe32(ram', at) == Word(resp, 0) && ReadLe32(ram', at + 4) == Word(resp, 1)
            && ReadLe64(ram', at + 8) == Word64(resp, 2)
  {
    assert forall k :: 0 <= k < 24 ==> Splice(ram, at, resp)[at + k] == resp[k];
  }
}
