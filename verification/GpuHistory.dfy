/** What a driver's commands have made of the virtio-gpu device, told from the list of commands
    alone: the scanout, the resources, and the frames each flush shows. */
module GpuHistory {
  import opened Bytes
  import opened GpuBacking
  import opened GpuTransfer
  import opened GpuCommands
  import SplitRing
  import opened Virtqueue
  import opened GpuDrain
  import opened GpuRuns

  datatype Act = Did(c: Command) | Reset

  // ----- what a list of acts says -----

  predicate PointsAt(a: Act, id: uint32) {
    a.Did? && a.c.SetScanout? && a.c.scanout == 0 && a.c.id == id
  }

  predicate Points(a: Act) {
    a.Did? && PointsAt(a, if a.c.SetScanout? then a.c.id else 0)
  }

  predicate Removes(a: Act, id: uint32) {
    a == Reset || (a.Did? && a.c.Unref? && a.c.id == id)
  }

  predicate Creates(a: Act, id: uint32) {
    a.Did? && a.c.Create? && a.c.id == id
  }

  /** The `i`th act pointed scanout 0 at `id`, and neither another such act, nor the removal of
      `id`, nor a reset came after it. */
  predicate LastPoint(acts: seq<Act>, i: nat, id: uint32) {
    && i < |acts| && PointsAt(acts[i], id)
    && forall j :: i < j < |acts| ==> !Points(acts[j]) && !Removes(acts[j], id)
  }

  /** The resource that scanout 0 shows; 0 for none. */
  ghost predicate IsScanout(acts: seq<Act>, id: uint32) {
    (exists i: nat :: LastPoint(acts, i, id)) || (id == 0 && forall i: nat, x: uint32 :: !LastPoint(acts, i, x))
  }

  /** The `i`th act created the resource that `id` names now. */
  predicate Made(acts: seq<Act>, i: nat, id: uint32) {
    && i < |acts| && Creates(acts[i], id)
    && forall j :: i < j < |acts| ==> !Creates(acts[j], id) && !Removes(acts[j], id)
  }

  /** The memory entries attached to `id` and not detached since. */
  function Entries(acts: seq<Act>, id: uint32): seq<MemEntry> {
    if acts == [] then []
    else
      var a, before := acts[|acts| - 1], Entries(acts[..|acts| - 1], id);
      if Removes(a, id) || Creates(a, id) || (a.Did? && a.c.Detach? && a.c.id == id) then []
      else if a.Did? && a.c.Attach? && a.c.id == id then before + a.c.entries
      else before
  }

  /** The device's state is what the acts say. */
  ghost predicate Lawful(acts: seq<Act>, s: State) {
    && IsScanout(acts, s.scanout)
    && (forall id :: id in s.resources <==> exists i: nat :: Made(acts, i, id))
    && (forall i: nat, id :: id in s.resources ==> MadeAs(acts, i, id, s.resources[id]))
    && (forall id :: id in s.resources ==> s.resources[id].backing == Entries(acts, id))
  }

  /** If the `i`th act made what `id` names, it gave it this format and these sizes. */
  predicate MadeAs(acts: seq<Act>, i: nat, id: uint32, r: Res) {
    Made(acts, i, id) ==> Describes(acts[i].c, r)
  }

  predicate Describes(c: Command, r: Res) {
    c.Create? && r.format == c.format && r.width == c.width && r.height == c.height
  }

  // ----- one act more -----

  lemma LastPointAfter(acts: seq<Act>, a: Act, i: nat, id: uint32)
    ensures LastPoint(acts + [a], i, id)
            <==> if i == |acts| then PointsAt(a, id) else LastPoint(acts, i, id) && !Points(a) && !Removes(a, id)
  {
    var all := acts + [a];
    if i < |acts| && LastPoint(all, i, id) {
      assert all[|acts|] == a && all[i] == acts[i];
      assert forall j :: i < j < |acts| ==> all[j] == acts[j];
    }
  }

  lemma LastPointInRange(acts: seq<Act>, i: nat, id: uint32)
    requires LastPoint(acts, i, id)
    ensures i < |acts|
  {}

  lemma MadeAfter(acts: seq<Act>, a: Act, i: nat, id: uint32)
    ensures Made(acts + [a], i, id)
            <==> if i == |acts| then Creates(a, id) else Made(acts, i, id) && !Creates(a, id) && !Removes(a, id)
  {
    var all := acts + [a];
    if i < |acts| && Made(all, i, id) {
      assert all[|acts|] == a && all[i] == acts[i];
      assert forall j :: i < j < |acts| ==> all[j] == acts[j];
    }
  }

  lemma LastPointUnique(acts: seq<Act>, i: nat, id: uint32, j: nat, x: uint32)
    requires LastPoint(acts, i, id) && LastPoint(acts, j, x)
    ensures i == j && id == x
  {
    if i < j {
      assert Points(acts[j]);
    } else if j < i {
      assert Points(acts[i]);
    }
  }

  lemma MadeUnique(acts: seq<Act>, i: nat, j: nat, id: uint32)
    requires Made(acts, i, id) && Made(acts, j, id)
    ensures i == j
  {}

  /** The acts determine the scanout. */
  lemma ScanoutUnique(acts: seq<Act>, id: uint32, x: uint32)
    requires IsScanout(acts, id) && IsScanout(acts, x)
    ensures id == x
  {
    hide LastPoint;
    if i: nat, j: nat :| LastPoint(acts, i, id) && LastPoint(acts, j, x) {
      LastPointUnique(acts, i, id, j, x);
    }
  }

  lemma ScanoutAfter(acts: seq<Act>, a: Act, id: uint32)
    requires IsScanout(acts, id)
    ensures Points(a) ==> IsScanout(acts + [a], a.c.id)
    ensures !Points(a) && Removes(a, id) ==> IsScanout(acts + [a], 0)
    ensures !Points(a) && !Removes(a, id) ==> IsScanout(acts + [a], id)
  {
    hide LastPoint;
    forall i: nat, x: uint32
      ensures LastPoint(acts + [a], i, x)
              <==> if i == |acts| then PointsAt(a, x) else LastPoint(acts, i, x) && !Points(a) && !Removes(a, x)
    {
      LastPointAfter(acts, a, i, x);
    }
    if Points(a) {
      assert LastPoint(acts + [a], |acts|, a.c.id);
    } else if i: nat :| LastPoint(acts, i, id) {
      if Removes(a, id) {
        forall j: nat, x: uint32
          ensures !LastPoint(acts + [a], j, x)
        {
          if LastPoint(acts + [a], j, x) {
            LastPointUnique(acts, i, id, j, x);
          }
        }
      } else {
        LastPointInRange(acts, i, id);
        assert LastPoint(acts + [a], i, id);
      }
    }
  }

  lemma EntriesAfter(acts: seq<Act>, a: Act, id: uint32)
    ensures Entries(acts + [a], id)
            == if Removes(a, id) || Creates(a, id) || (a.Did? && a.c.Detach? && a.c.id == id) then []
               else if a.Did? && a.c.Attach? && a.c.id == id then Entries(acts, id) + a.c.entries
               else Entries(acts, id)
  {
    assert (acts + [a])[..|acts|] == acts;
  }

  // ----- the device follows -----

  /** The resource a command leaves under `id`. */
  lemma ResourceAfter(env: Env, ram: seq<byte>, s: State, c: Command, id: uint32)
    requires Sane(s, env.base, |ram|) && CommandOk(s, c, env.base, |ram|)
    ensures var s' := Exec(env, ram, s, c).dev;
            && (id in s'.resources <==> Creates(Did(c), id) || (id in s.resources && !Removes(Did(c), id)))
            && (Creates(Did(c), id) ==> Describes(c, s'.resources[id]) && s'.resources[id].backing == [])
            && (id in s.resources && id in s'.resources && !Creates(Did(c), id) ==>
                  var r, r' := s.resources[id], s'.resources[id];
                  && r'.format == r.format && r'.width == r.width && r'.height == r.height
                  && r'.backing == if c.Detach? && c.id == id then []
                                   else if c.Attach? && c.id == id then r.backing + c.entries else r.backing)
  {
    hide Sane, ResOk, InBounds, TransferTo, WholeEntries, Shown, Flat, BufferSize;
  }

  lemma ScanoutSet(env: Env, ram: seq<byte>, s: State, c: Command)
    requires Sane(s, env.base, |ram|) && CommandOk(s, c, env.base, |ram|)
    ensures var s' := Exec(env, ram, s, c).dev;
            s'.scanout == if Points(Did(c)) then c.id else if Removes(Did(c), s.scanout) then 0 else s.scanout
  {
    hide Sane, ResOk, InBounds, TransferTo, WholeEntries, Shown, Flat, BufferSize, Received, Attached, NewRes;
  }

  /** One command keeps the device lawful. */
  lemma ExecIsLawful(env: Env, ram: seq<byte>, acts: seq<Act>, s: State, c: Command)
    requires Sane(s, env.base, |ram|) && CommandOk(s, c, env.base, |ram|) && Lawful(acts, s)
    ensures Lawful(acts + [Did(c)], Exec(env, ram, s, c).dev)
  {
    hide Sane, CommandOk, Exec, Made, MadeAs, IsScanout, Entries, Creates, Removes, Points;
    var a, s' := Did(c), Exec(env, ram, s, c).dev;
    ScanoutAfter(acts, a, s.scanout);
    ScanoutSet(env, ram, s, c);
    forall id: uint32
      ensures id in s'.resources <==> exists i: nat :: Made(acts + [a], i, id)
      ensures forall i: nat :: id in s'.resources ==> MadeAs(acts + [a], i, id, s'.resources[id])
      ensures id in s'.resources ==> s'.resources[id].backing == Entries(acts + [a], id)
    {
      ResourceIsLawful(env, ram, acts, s, c, id);
    }
  }

  lemma ResourceIsLawful(env: Env, ram: seq<byte>, acts: seq<Act>, s: State, c: Command, id: uint32)
    requires Sane(s, env.base, |ram|) && CommandOk(s, c, env.base, |ram|) && Lawful(acts, s)
    ensures var all, s' := acts + [Did(c)], Exec(env, ram, s, c).dev;
            && (id in s'.resources <==> exists i: nat :: Made(all, i, id))
            && (forall i: nat :: id in s'.resources ==> MadeAs(all, i, id, s'.resources[id]))
            && (id in s'.resources ==> s'.resources[id].backing == Entries(all, id))
  {
    hide Sane, CommandOk, Exec, Made, IsScanout, Entries;
    var all := acts + [Did(c)];
    ResourceAfter(env, ram, s, c, id);
    EntriesAfter(acts, Did(c), id);
    forall i: nat
      ensures Made(all, i, id) <==> if i == |acts| then Creates(Did(c), id)
                                    else Made(acts, i, id) && !Creates(Did(c), id) && !Removes(Did(c), id)
      ensures Made(acts, i, id) ==> i < |acts|
    {
      MadeAfter(acts, Did(c), i, id);
      MadeInRange(acts, i, id);
    }
    if Creates(Did(c), id) {
      assert Made(all, |acts|, id);
    } else if id in s.resources && !Removes(Did(c), id) {
      var i: nat :| Made(acts, i, id);
      assert Made(all, i, id);
      forall j: nat
        ensures MadeAs(all, j, id, Exec(env, ram, s, c).dev.resources[id])
      {
        assert MadeAs(acts, j, id, s.resources[id]);
      }
    }
  }

  lemma MadeInRange(acts: seq<Act>, i: nat, id: uint32)
    ensures Made(acts, i, id) ==> i < |acts|
  {}

  /** A reset device is one to which nothing has been done since. */
  lemma ResetIsLawful(acts: seq<Act>, pending: seq<Frame>)
    ensures Lawful(acts + [Reset], State(map[], 0, pending)) && Lawful([], State(map[], 0, pending))
  {
    forall i: nat, id: uint32
      ensures !LastPoint(acts + [Reset], i, id) && !Made(acts + [Reset], i, id)
    {
      LastPointAfter(acts, Reset, i, id);
      MadeAfter(acts, Reset, i, id);
    }
  }

  // ----- frames and replies -----

  /** A flush of the resource on scanout 0, if it exists and has pixels, shows one frame: its
      pixels, its width and height, and rows of four bytes a pixel. Every other command shows
      none. */
  ghost function Shows(env: Env, acts: seq<Act>, s: State, c: Command): seq<Frame> {
    if env.hasCallback && c.Flush? && IsScanout(acts, c.id) && c.id in s.resources && s.resources[c.id].pixels != []
    then
      var r := s.resources[c.id];
      [Frame(r.pixels, r.width, r.height, r.width * 4 % 0x1_0000_0000)]
    else []
  }

  lemma FlushShowsScanout(env: Env, ram: seq<byte>, acts: seq<Act>, s: State, c: Command)
    requires Sane(s, env.base, |ram|) && CommandOk(s, c, env.base, |ram|) && Lawful(acts, s)
    ensures Exec(env, ram, s, c).dev.pending == s.pending + Shows(env, acts, s, c)
  {
    hide Sane, CommandOk, Made, Entries, Received, Attached, NewRes;
    StaysPending(env, ram, s, c);
    if c.Flush? && IsScanout(acts, c.id) {
      ScanoutUnique(acts, c.id, s.scanout);
    }
    hide Exec, Shown, IsScanout;
    ShownIs(env, acts, s, c);
  }

  lemma StaysPending(env: Env, ram: seq<byte>, s: State, c: Command)
    requires Sane(s, env.base, |ram|) && CommandOk(s, c, env.base, |ram|)
    ensures Exec(env, ram, s, c).dev.pending
            == s.pending + if c.Flush? && c.id in s.resources then Shown(env, s, c.id) else []
  {
    hide Sane, CommandOk, Received, Attached, NewRes, Shown;
    assert s.pending + [] == s.pending;
  }

  lemma ShownIs(env: Env, acts: seq<Act>, s: State, c: Command)
    requires c.Flush? && IsScanout(acts, c.id) ==> c.id == s.scanout
    requires IsScanout(acts, s.scanout)
    ensures (if c.Flush? && c.id in s.resources then Shown(env, s, c.id) else []) == Shows(env, acts, s, c)
  {
    hide IsScanout;
  }

  /** A command that needs a resource fails, with the number of "invalid resource", if and only if
      no creation of it stands; else all but display info and malformed requests succeed. */
  lemma RepliesFollowHistory(env: Env, ram: seq<byte>, acts: seq<Act>, s: State, c: Command)
    requires Sane(s, env.base, |ram|) && CommandOk(s, c, env.base, |ram|) && Lawful(acts, s)
    ensures Exec(env, ram, s, c).reply
            == if c.Malformed? then Err(0x1200) else if c.DisplayInfo? then Display
               else if (c.Flush? || c.TransferToHost2d? || c.Attach?) && !exists i: nat :: Made(acts, i, c.id)
               then Err(0x1203) else Ok
  {
    hide Sane, CommandOk, Made, Entries, IsScanout, Received, Attached, NewRes, Shown;
  }

  // ----- drains -----

  /** The command the next request carries out, if it is answered. */
  ghost function ActOf(env: Env, w: World, desc: seq<Desc>): (acts: seq<Act>)
    requires StepOk(env, w, desc)
  {
    var req := Request(env, w, desc);
    if Capacity(Target(Visited(env, w, desc))) >= 24 && |req| >= 24 then [Did(Decode(req))] else []
  }

  ghost function ActsOfDrain(env: Env, w: World, desc: seq<Desc>): seq<Act>
    requires DrainOk(env, w, desc)
    decreases SplitRing.Backlog(w.ring)
  {
    if !SplitRing.HasWork(w.ring) then []
    else ActOf(env, w, desc) + ActsOfDrain(env, ServeNext(env, w, desc), desc)
  }

  /** The frames a drain shows, told by the acts up to each of its flushes. */
  ghost function FramesTold(env: Env, acts: seq<Act>, w: World, desc: seq<Desc>): seq<Frame>
    requires DrainOk(env, w, desc)
    decreases SplitRing.Backlog(w.ring)
  {
    if !SplitRing.HasWork(w.ring) then []
    else
      var now := ActOf(env, w, desc);
      (if now == [] then [] else Shows(env, acts, w.dev, now[0].c))
      + FramesTold(env, acts + now, ServeNext(env, w, desc), desc)
  }

  lemma StepIsLawful(env: Env, acts: seq<Act>, w: World, desc: seq<Desc>)
    requires StepOk(env, w, desc) && SplitRing.HasWork(w.ring) && Lawful(acts, w.dev)
    ensures Lawful(acts + ActOf(env, w, desc), ServeNext(env, w, desc).dev)
    ensures FrameOf(env, w, desc)
            == if ActOf(env, w, desc) == [] then [] else Shows(env, acts, w.dev, ActOf(env, w, desc)[0].c)
  {
    hide Trusted, Decode, Request, Visited, Splice, Response, Exec, SplitRing.Complete, CommandOk, Lawful, Shown,
         Shows, IsScanout, Sane, Target;
    var now := ActOf(env, w, desc);
    assert acts + [] == acts;
    Parts(env, w, desc);
    if now != [] {
      ExecIsLawful(env, w.ram, acts, w.dev, now[0].c);
      ShowsShown(env, acts, w.dev, now[0].c);
    }
  }

  lemma Parts(env: Env, w: World, desc: seq<Desc>)
    requires StepOk(env, w, desc)
    ensures Sane(w.dev, env.base, |w.ram|) && RequestOk(w.dev, Request(env, w, desc), env.base, |w.ram|)
  {}

  lemma ShowsShown(env: Env, acts: seq<Act>, s: State, c: Command)
    requires Lawful(acts, s)
    ensures Shows(env, acts, s, c) == if c.Flush? then Shown(env, s, c.id) else []
  {
    hide Made, Entries, LastPoint;
    if c.Flush? && IsScanout(acts, c.id) {
      ScanoutUnique(acts, c.id, s.scanout);
    }
  }

  /** Over a whole drain: the device ends as its acts say, and the frames are those the acts tell. */
  lemma {:induction false} DrainIsLawful(env: Env, acts: seq<Act>, w: World, desc: seq<Desc>)
    requires DrainOk(env, w, desc) && Lawful(acts, w.dev)
    ensures Lawful(acts + ActsOfDrain(env, w, desc), Drain(env, w, desc).dev)
    ensures FramesOf(env, w, desc) == FramesTold(env, acts, w, desc)
    decreases SplitRing.Backlog(w.ring)
  {
    hide Trusted, StepOk, FrameOf, ServeNext, SplitRing.HasWork, SplitRing.Backlog, ActOf, Lawful, Shows;
    if SplitRing.HasWork(w.ring) {
      var now, next := ActOf(env, w, desc), ServeNext(env, w, desc);
      StepIsLawful(env, acts, w, desc);
      DrainIsLawful(env, acts + now, next, desc);
      assert acts + now + ActsOfDrain(env, next, desc) == acts + (now + ActsOfDrain(env, next, desc));
    } else {
      assert acts + [] == acts;
    }
  }

  // ----- runs -----

  /** What an event does to the device, as acts. */
  ghost function ActsAt(env: Env, m: Machine, e: Event): seq<Act>
    requires Enabled(env, m, e)
  {
    if e.Notify? && e.queue == 0 && m.live then ActsOfDrain(env, m.w, m.desc)
    else if e.WriteStatus? && e.value == 0 then [Reset] else []
  }

  ghost function ActsOf(env: Env, m: Machine, events: seq<Event>): seq<Act>
    requires Possible(env, m, events)
    decreases |events|
  {
    if events == [] then []
    else ActsAt(env, m, events[0]) + ActsOf(env, Next(env, m, events[0]), events[1..])
  }

  /** The frames of a run, told by the acts up to each flush. */
  ghost function TraceTold(env: Env, acts: seq<Act>, m: Machine, events: seq<Event>): seq<Frame>
    requires Possible(env, m, events)
    decreases |events|
  {
    if events == [] then []
    else
      var e := events[0];
      ToldAt(env, acts, m, e) + TraceTold(env, acts + ActsAt(env, m, e), Next(env, m, e), events[1..])
  }

  ghost function ToldAt(env: Env, acts: seq<Act>, m: Machine, e: Event): seq<Frame>
    requires Enabled(env, m, e)
  {
    if e.Notify? && e.queue == 0 && m.live then FramesTold(env, acts, m.w, m.desc) else []
  }

  lemma PendingAside(acts: seq<Act>, s: State, pending: seq<Frame>)
    ensures Lawful(acts, s.(pending := pending)) == Lawful(acts, s)
  {
    hide IsScanout, Made, Entries, Describes;
  }

  lemma EventIsLawful(env: Env, acts: seq<Act>, m: Machine, e: Event)
    requires Enabled(env, m, e) && Lawful(acts, m.w.dev)
    ensures Lawful(acts + ActsAt(env, m, e), Next(env, m, e).w.dev)
    ensures FlushesAt(env, m, e) == ToldAt(env, acts, m, e)
  {
    hide Lawful, Drain, DrainOk, ActsOfDrain, FramesOf, FramesTold, StatusAfter;
    assert acts + [] == acts;
    PendingAside(acts, m.w.dev, []);
    ResetIsLawful(acts, []);
    if e.Notify? && e.queue == 0 && m.live {
      DrainIsLawful(env, acts, m.w, m.desc);
      PendingAside(acts + ActsOfDrain(env, m.w, m.desc), Drain(env, m.w, m.desc).dev, []);
    }
  }

  /** Over every run of register writes, and whatever the guest does to its memory: the device is
      what its driver's commands and resets say, and the callback has been given exactly the
      frames they tell. */
  lemma {:induction false} RunFollowsHistory(env: Env, acts: seq<Act>, m: Machine, events: seq<Event>)
    requires AtRest(env, m) && Possible(env, m, events) && Lawful(acts, m.w.dev)
    ensures Lawful(acts + ActsOf(env, m, events), Final(env, m, events).w.dev)
    ensures Final(env, m, events).trace == m.trace + TraceTold(env, acts, m, events)
    decreases |events|
  {
    hide AtRest, Next, Enabled, Lawful, ToldAt, ActsAt, FlushesAt;
    if events == [] {
      assert acts + [] == acts && m.trace + [] == m.trace;
    } else {
      var e, now := events[0], ActsAt(env, m, events[0]);
      var m' := Next(env, m, e);
      EventIsLawful(env, acts, m, e);
      NextStep(env, m, e);
      RunFollowsHistory(env, acts + now, m', events[1..]);
      assert acts + now + ActsOf(env, m', events[1..]) == acts + (now + ActsOf(env, m', events[1..]));
      AssocFrames(m.trace, ToldAt(env, acts, m, e), TraceTold(env, acts + now, m', events[1..]));
    }
  }
}
