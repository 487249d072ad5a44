/** What a FIN does to the guest's stream: it shuts the host socket's write side at once, so
    data that comes with it is acknowledged and never written; and taken out of order it
    acknowledges more than was taken in. */
module TcpClosing {
  import opened Bytes
  import opened FrameCodec
  import opened TcpRelay
  import opened TcpRelayProofs
  import opened TcpStreams

  /** A FIN-bearing segment and the connection as it was when it took the segment in. */
  datatype Taken = Taken(c: Conn, seg: TcpSegment)

  /** Whether a segment goes past the handler's SYN and RST branches. */
  predicate Ordinary(seg: TcpSegment) {
    !Has(seg.flags, RST) && (Has(seg.flags, SYN) ==> Has(seg.flags, ACK))
  }

  /** The FIN that connection `id` takes in at an event, if any. */
  function FinAt(s: Relay, e: Event, id: nat): (ts: seq<Taken>)
    requires Enabled(s, e)
    ensures |ts| <= 1
  {
    if !e.Frame? then []
    else
      var r := Reap(s);
      if e.key in r.conns && r.conns[e.key] == id && r.arena[id].state == Established
         && Ordinary(e.seg) && Has(e.seg.flags, FIN)
      then [Taken(r.arena[id], e.seg)] else []
  }

  /** Those of a whole run. */
  function FinsTaken(s0: Relay, events: seq<Event>, s: Relay, id: nat): seq<Taken>
    requires Run(s0, events, s)
    decreases |events|
  {
    if events == [] then []
    else FinAt(s0, events[0], id) + FinsTaken(Next(s0, events[0]), events[1..], s, id)
  }

  // ----- a connection takes at most one FIN, and nothing after it -----

  /** A connection whose first FIN came in as `t` has stayed as that left it. */
  predicate ClosedBy(c: Conn, t: Taken) {
    && t.c.state == Established && t.c.fins == 0 && GuestSide(t.c)
    && c.state == Established && c.base == t.c.base && c.fins == 1
    && c.accepted == AcceptData(t.c, t.seg).accepted
  }

  predicate Closing(c: Conn, ts: seq<Taken>) {
    if ts == [] then c.fins == 0 else |ts| == 1 && ClosedBy(c, ts[0])
  }

  ghost predicate ClosingInv(s: Relay, id: nat, ts: seq<Taken>) {
    && Inv(s) && LiveUnfinished(s)
    && if id < |s.arena| then Closing(s.arena[id], ts) else ts == []
  }

  lemma DeliverKeepsClosing(c: Conn, seg: TcpSegment)
    requires c.state == Established && c.fins == 0 && GuestSide(c)
    ensures Closing(AcceptData(c, seg), [])
    ensures Closing(AcceptFin(AcceptData(c, seg)), [Taken(c, seg)])
  {}

  /** A connection in the map, with what the invariants say of it. */
  lemma LiveConn(s: Relay, key: ConnKey)
    requires Inv(s) && LiveUnfinished(s) && key in Reap(s).conns
    ensures var id := Reap(s).conns[key];
            && id < |s.arena| && s.arena[id].key == key && s.arena[id].fins == 0 && !s.arena[id].shut
            && Lifecycle(s.arena[id]) && GuestSide(s.arena[id])
  {
    hide HostSide, GuestSide;
    var id := s.conns[key];
    assert ConnInv(s.arena[id], Rest(s.handler, id));
  }

  lemma DeliverClosing(r: Relay, key: ConnKey, seg: TcpSegment, id: nat, ts: seq<Taken>)
    requires Inv(r) && LiveUnfinished(r) && r.done == [] && key in r.conns && r.arena[r.conns[key]].state == Established
    requires if id < |r.arena| then Closing(r.arena[id], ts) else ts == []
    ensures var i := r.conns[key];
            var t := Deliver(r, i, seg);
            var now := if i == id && Has(seg.flags, FIN) then [Taken(r.arena[i], seg)] else [];
            LiveUnfinished(t) && |t.arena| == |r.arena|
            && if id < |t.arena| then Closing(t.arena[id], ts + now) else ts + now == []
  {
    hide GuestSide, Lifecycle, ConnInv, Has, U32, AcceptData, AcceptFin, Closing;
    ReapTwice(r);
    LiveConn(r, key);
    var c := r.arena[r.conns[key]];
    FirstFin(ts, c, r.conns[key] == id);
    DeliveryFins(c, seg);
    DeliverKeepsClosing(c, seg);
    assert ts + [] == ts && [] + [Taken(c, seg)] == [Taken(c, seg)];
  }

  lemma ReapKeepsClosing(s: Relay, id: nat, ts: seq<Taken>)
    requires ClosingInv(s, id, ts)
    ensures ClosingInv(Reap(s), id, ts) && Reap(s).handler == s.handler && Reap(s).arena == s.arena
    ensures Reap(s).done == []
  {
    hide Inv, Closing;
    ReapKeepsInv(s);
  }

  lemma FrameKeepsClosing(s: Relay, key: ConnKey, seg: TcpSegment, id: nat, ts: seq<Taken>)
    requires ClosingInv(s, id, ts) && s.handler.Idle?
    ensures var t := HandleFrame(s, key, seg);
            LiveUnfinished(t)
            && if id < |t.arena| then Closing(t.arena[id], ts + FinAt(s, Frame(key, seg), id))
               else ts + FinAt(s, Frame(key, seg), id) == []
  {
    hide GuestSide, Lifecycle, ConnInv, Has, U32, Establish, EstablishSynAck, OutboundConn, Closing, Deliver, Reap;
    NewUnfinished(key, seg.seqno);
    NoFin(OutboundConn(key, seg.seqno));
    ReapKeepsClosing(s, id, ts);
    assert ts + [] == ts;
    if key in Reap(s).conns {
      LiveConn(s, key);
      var c := s.arena[Reap(s).conns[key]];
      if c.state == Established {
        DeliverClosing(Reap(s), key, seg, id, ts);
      }
      FirstFin(ts, c, Reap(s).conns[key] == id);
      EstablishUnfinished(c, seg.seqno);
      NoFin(Establish(c));
      NoFin(EstablishSynAck(c, seg.seqno));
      NoFin(c.(stop := true));
    }
  }

  lemma NoFin(c: Conn)
    ensures c.fins == 0 ==> Closing(c, [])
  {}

  lemma FirstFin(ts: seq<Taken>, c: Conn, same: bool)
    requires same ==> Closing(c, ts)
    ensures same && c.fins == 0 ==> ts == []
  {}

  lemma ThreadKeepsClosing(s: Relay, i: nat, t: ThreadStep, id: nat, ts: seq<Taken>)
    requires ClosingInv(s, id, ts) && Enabled(s, Thread(i, t))
    ensures var s' := Next(s, Thread(i, t));
            LiveUnfinished(s') && if id < |s'.arena| then Closing(s'.arena[id], ts) else ts == []
  {
    hide Inv, Lifecycle, Closing, Step, CanStep;
    LifecycleHolds(s, i);
    StepKeepsFins(s.arena[i], t);
    if i == id {
      StepKeepsClosing(s.arena[i], t, ts);
    }
  }

  lemma StepKeepsClosing(c: Conn, t: ThreadStep, ts: seq<Taken>)
    requires CanStep(c, t) && Lifecycle(c) && Closing(c, ts)
    ensures Closing(Step(c, t), ts)
  {
    hide GuestSide, AcceptData;
  }

  lemma HostKeepsClosing(s: Relay, e: Event, id: nat, ts: seq<Taken>)
    requires ClosingInv(s, id, ts) && Enabled(s, e) && !e.Frame? && !e.Thread?
    ensures var s' := Next(s, e);
            LiveUnfinished(s') && if id < |s'.arena| then Closing(s'.arena[id], ts) else ts == []
  {
    hide Inv, GuestSide, AcceptData, U32;
  }

  lemma NextKeepsClosing(s: Relay, e: Event, id: nat, ts: seq<Taken>)
    requires ClosingInv(s, id, ts) && Enabled(s, e)
    ensures ClosingInv(Next(s, e), id, ts + FinAt(s, e, id))
  {
    NextKeepsInv(s, e);
    match e {
      case Frame(key, seg) => FrameKeepsClosing(s, key, seg, id, ts);
      case Thread(i, t) => ThreadKeepsClosing(s, i, t, id, ts);
      case _ => HostKeepsClosing(s, e, id, ts);
    }
    hide Inv, Closing, LiveUnfinished;
    assert ts + [] == ts;
  }

  lemma {:induction false} RunKeepsClosing(s0: Relay, events: seq<Event>, s: Relay, id: nat, ts: seq<Taken>)
    requires ClosingInv(s0, id, ts) && Run(s0, events, s)
    ensures ClosingInv(s, id, ts + FinsTaken(s0, events, s, id))
    decreases |events|
  {
    hide ClosingInv, FinAt, Enabled, Next;
    if events == [] {
      assert ts + [] == ts;
    } else {
      var e, now := events[0], FinAt(s0, events[0], id);
      NextKeepsClosing(s0, e, id, ts);
      RunKeepsClosing(Next(s0, e), events[1..], s, id, ts + now);
      assert ts + now + FinsTaken(Next(s0, e), events[1..], s, id) == ts + FinsTaken(s0, events, s, id);
    }
  }

  lemma InitClosing(id: nat)
    ensures ClosingInv(INIT, id, [])
  {}

  /** Over every run a connection takes at most one FIN, and takes nothing in after it. */
  lemma FinCloses(events: seq<Event>, s: Relay, id: nat)
    requires Run(INIT, events, s) && id < |s.arena|
    ensures Closing(s.arena[id], FinsTaken(INIT, events, s, id))
    ensures |FinsTaken(INIT, events, s, id)| == s.arena[id].fins
  {
    hide Run, FinsTaken;
    InitClosing(id);
    RunKeepsClosing(INIT, events, s, id, []);
    assert [] + FinsTaken(INIT, events, s, id) == FinsTaken(INIT, events, s, id);
  }

  // ----- what reaches the host when it takes all it is offered -----

  /** The host socket refuses bytes only once its write side is shut. */
  ghost predicate WillingRun(s0: Relay, events: seq<Event>, s: Relay)
    decreases |events|
  {
    if events == [] then s == s0
    else
      Enabled(s0, events[0])
      && (events[0].HostRefuses? ==> s0.arena[s0.handler.conn].shut)
      && WillingRun(Next(s0, events[0]), events[1..], s)
  }

  lemma {:induction false} WillingIsRun(s0: Relay, events: seq<Event>, s: Relay)
    requires WillingRun(s0, events, s)
    ensures Run(s0, events, s)
    decreases |events|
  {
    if events != [] {
      hide Enabled, Next;
      WillingIsRun(Next(s0, events[0]), events[1..], s);
    }
  }

  /** The in-order data of a FIN-bearing segment. */
  function OnFin(t: Taken): seq<byte> {
    if InOrder(t.c, t.seg) then t.seg.data else []
  }

  /** The bytes taken in that can still be written: none once the write side is shut. */
  function StillToWrite(s: Relay, id: nat): seq<byte>
    requires id < |s.arena|
  {
    if s.arena[id].shut then [] else Rest(s.handler, id)
  }

  /** What was taken in has been written or still can be, but for the data on the FIN. */
  predicate Delivered(c: Conn, still: seq<byte>, ts: seq<Taken>) {
    if ts == [] then c.written + still == c.accepted && !c.lost
    else c.written + OnFin(ts[0]) == c.accepted
  }

  ghost predicate DeliveryInv(s: Relay, id: nat, ts: seq<Taken>) {
    ClosingInv(s, id, ts) && (id < |s.arena| ==> Delivered(s.arena[id], StillToWrite(s, id), ts))
  }

  lemma DeliverKeepsDelivered(c: Conn, seg: TcpSegment)
    requires c.state == Established && c.fins == 0 && !c.shut && c.fd && Delivered(c, [], [])
    ensures var c1 := AcceptData(c, seg);
            !c1.shut && Delivered(c1, if InOrder(c, seg) && c.fd then seg.data else [], [])
            && AcceptFin(c1).shut && Delivered(AcceptFin(c1), [], [Taken(c, seg)])
  {
    assert c.written + [] == c.written;
  }

  lemma SocketSet(c: Conn)
    requires Lifecycle(c) && c.state == Established
    ensures c.fd
  {}

  lemma OpeningsKeepDelivered(c: Conn, n: uint32)
    requires Lifecycle(c) && c.state == SynAckSent && Delivered(c, [], [])
    ensures Delivered(Establish(c), [], []) && Delivered(EstablishSynAck(c, n), [], [])
    ensures !c.shut && !Establish(c).shut && !EstablishSynAck(c, n).shut
  {}

  lemma NewDelivered(key: ConnKey, n: uint32)
    ensures Delivered(OutboundConn(key, n), [], []) && Delivered(InboundConn(key, n), [], [])
    ensures !OutboundConn(key, n).shut && !InboundConn(key, n).shut
  {}

  lemma DeliverKeepsDelivery(r: Relay, key: ConnKey, seg: TcpSegment, id: nat, ts: seq<Taken>)
    requires DeliveryInv(r, id, ts) && r.handler.Idle? && key in r.conns && r.arena[r.conns[key]].state == Established
    requires r.done == []
    ensures var i := r.conns[key];
            var t := Deliver(r, i, seg);
            var now := if i == id && Has(seg.flags, FIN) then [Taken(r.arena[i], seg)] else [];
            id < |t.arena| ==> Delivered(t.arena[id], StillToWrite(t, id), ts + now)
  {
    hide Lifecycle, GuestSide, Has, U32, AcceptData, AcceptFin, Inv, InOrder, Delivered, ClosedBy;
    assert ts + [] == ts && [] + [Taken(r.arena[r.conns[key]], seg)] == [Taken(r.arena[r.conns[key]], seg)];
    if r.conns[key] == id {
      ReapTwice(r);
      LiveConn(r, key);
      FirstFin(ts, r.arena[id], true);
      SocketSet(r.arena[id]);
      DeliverKeepsDelivered(r.arena[id], seg);
    }
  }

  lemma FrameKeepsDelivered(s: Relay, key: ConnKey, seg: TcpSegment, id: nat, ts: seq<Taken>)
    requires DeliveryInv(s, id, ts) && s.handler.Idle?
    ensures var t := HandleFrame(s, key, seg);
            id < |t.arena| ==> Delivered(t.arena[id], StillToWrite(t, id), ts + FinAt(s, Frame(key, seg), id))
  {
    hide Lifecycle, GuestSide, Has, U32, Establish, EstablishSynAck, OutboundConn, Deliver, Reap, Inv, Delivered,
         Closing;
    ReapKeepsClosing(s, id, ts);
    NewDelivered(key, seg.seqno);
    assert ts + [] == ts;
    if key in Reap(s).conns {
      LiveConn(s, key);
      var i := Reap(s).conns[key];
      if s.arena[i].state == Established {
        DeliverKeepsDelivery(Reap(s), key, seg, id, ts);
      }
      if i == id {
        FirstFin(ts, s.arena[id], true);
        StopKeepsDelivered(s.arena[id], ts);
        if s.arena[id].state == SynAckSent {
          OpeningsKeepDelivered(s.arena[id], seg.seqno);
        }
      }
    }
  }

  lemma StopKeepsDelivered(c: Conn, ts: seq<Taken>)
    ensures Delivered(c.(stop := true), [], ts) == Delivered(c, [], ts)
  {}

  lemma ShutAfterFin(s: Relay, id: nat)
    requires Inv(s) && id < |s.arena|
    ensures s.arena[id].shut <==> s.arena[id].fins > 0
  {
    LifecycleHolds(s, id);
  }

  lemma HostKeepsDelivered(s: Relay, e: Event, id: nat, ts: seq<Taken>)
    requires DeliveryInv(s, id, ts) && Enabled(s, e) && (e.HostAccepts? || e.HostRefuses? || e.FrameDone?)
    requires e.HostRefuses? ==> s.arena[s.handler.conn].shut
    ensures id < |s.arena| ==> Delivered(Next(s, e).arena[id], StillToWrite(Next(s, e), id), ts)
  {
    hide Inv, GuestSide, AcceptData, OnFin;
    if s.handler.conn == id {
      ShutAfterFin(s, id);
      match e
      case HostAccepts(n) =>
        var rem := s.handler.rem;
        assert rem == rem[..n] + rem[n..];
        Assoc(s.arena[id].written, rem[..n], rem[n..]);
      case _ =>
    }
  }

  lemma ThreadKeepsDelivered(s: Relay, i: nat, t: ThreadStep, id: nat, ts: seq<Taken>)
    requires DeliveryInv(s, id, ts) && Enabled(s, Thread(i, t))
    ensures var s' := Next(s, Thread(i, t)); id < |s.arena| ==> Delivered(s'.arena[id], StillToWrite(s', id), ts)
  {
    hide Inv, Closing, LiveUnfinished, OnFin;
    StepWritesNothing(s.arena[i], t);
    hide Step, CanStep;
  }

  lemma StepWritesNothing(c: Conn, t: ThreadStep)
    requires CanStep(c, t)
    ensures var d := Step(c, t);
            d.written == c.written && d.accepted == c.accepted && d.lost == c.lost && d.shut == c.shut
  {
    hide U32, Conn.Accepted;
    match t
    case ClaimSyn =>
    case ClaimData =>
    case ClaimFin =>
    case LoadAck =>
    case SendData =>
    case SendFin =>
    case _ =>
  }

  lemma NextKeepsDelivery(s: Relay, e: Event, id: nat, ts: seq<Taken>)
    requires DeliveryInv(s, id, ts) && Enabled(s, e) && (e.HostRefuses? ==> s.arena[s.handler.conn].shut)
    ensures DeliveryInv(Next(s, e), id, ts + FinAt(s, e, id))
  {
    hide ClosingInv, Delivered;
    NextKeepsClosing(s, e, id, ts);
    assert ts + [] == ts;
    match e
    case Frame(key, seg) => FrameKeepsDelivered(s, key, seg, id, ts);
    case Thread(i, t) => ThreadKeepsDelivered(s, i, t, id, ts);
    case OpenInbound(key, isn) =>
      NewDelivered(key, isn);
      NotYetOpen(s, id, ts);
    case _ => HostKeepsDelivered(s, e, id, ts);
  }

  lemma NotYetOpen(s: Relay, id: nat, ts: seq<Taken>)
    requires ClosingInv(s, id, ts)
    ensures id >= |s.arena| ==> ts == [] && Rest(s.handler, id) == []
  {
    hide ConnInv;
  }

  lemma {:induction false} RunKeepsDelivery(s0: Relay, events: seq<Event>, s: Relay, id: nat, ts: seq<Taken>)
    requires DeliveryInv(s0, id, ts) && WillingRun(s0, events, s)
    ensures Run(s0, events, s) && DeliveryInv(s, id, ts + FinsTaken(s0, events, s, id))
    decreases |events|
  {
    hide DeliveryInv, FinAt, Enabled, Next;
    WillingIsRun(s0, events, s);
    if events == [] {
      assert ts + [] == ts;
    } else {
      var e, now := events[0], FinAt(s0, events[0], id);
      NextKeepsDelivery(s0, e, id, ts);
      RunKeepsDelivery(Next(s0, e), events[1..], s, id, ts + now);
      assert ts + now + FinsTaken(Next(s0, e), events[1..], s, id) == ts + FinsTaken(s0, events, s, id);
    }
  }

  /** With a host that refuses nothing it could take: what was taken in is exactly what was
      written and what still can be, if and only if no FIN-bearing segment was taken in with
      in-order data; and otherwise exactly that segment's data is missing. */
  lemma DeliveredUnlessOnFin(events: seq<Event>, s: Relay, id: nat)
    requires WillingRun(INIT, events, s) && id < |s.arena|
    ensures Run(INIT, events, s)
    ensures var c, fins := s.arena[id], FinsTaken(INIT, events, s, id);
            && (c.written + StillToWrite(s, id) == c.accepted <==> forall t :: t in fins ==> !InOrder(t.c, t.seg))
            && (fins != [] ==> c.written + OnFin(fins[0]) == c.accepted)
  {
    WillingIsRun(INIT, events, s);
    hide Run, WillingRun, FinsTaken, ClosingInv;
    InitClosing(id);
    RunKeepsDelivery(INIT, events, s, id, []);
    var fins := FinsTaken(INIT, events, s, id);
    assert [] + fins == fins;
    FinCloses(events, s, id);
    hide Closing;
    MissingIsOnFin(s, id, fins);
  }

  lemma MissingIsOnFin(s: Relay, id: nat, fins: seq<Taken>)
    requires DeliveryInv(s, id, fins) && id < |s.arena|
    ensures var c := s.arena[id];
            && (c.written + StillToWrite(s, id) == c.accepted <==> forall t :: t in fins ==> !InOrder(t.c, t.seg))
            && (fins != [] ==> c.written + OnFin(fins[0]) == c.accepted)
  {
    ShutAfterFin(s, id);
    hide Inv, GuestSide, AcceptData;
    if fins != [] {
      assert fins[0] in fins && forall t :: t in fins ==> t == fins[0];
      assert s.arena[id].written + [] == s.arena[id].written;
    }
  }

  // ----- what acknowledgements cover -----

  /** The segment ends the guest's stream, at a place its 32-bit number can tell. */
  predicate EndsStream(t: Taken, g: Guest) {
    var k := |g.stream| - |t.seg.data|;
    && k >= 0 && Cut(g, t.seg, k)
    && |g.stream| - |t.c.accepted| < TWO_32 && |t.c.accepted| - k < TWO_32
  }

  /** Next in order, or a repeat of the last bytes taken in. */
  predicate FinInOrder(t: Taken) {
    t.seg.seqno == t.c.gNxt || U32(t.seg.seqno + |t.seg.data|) == t.c.gNxt
  }

  ghost predicate TakenFaithfully(ts: seq<Taken>, g: Guest) {
    forall t :: t in ts ==> Faithful(t.c, g)
  }

  lemma FinAtIsFaithful(s: Relay, e: Event, guests: nat -> Guest, id: nat)
    requires StreamInv(s, guests) && Enabled(s, e)
    ensures TakenFaithfully(FinAt(s, e, id), guests(id))
  {
    hide ConnInv, Faithful;
  }

  lemma {:induction false} FinsTakenFaithfully(s0: Relay, events: seq<Event>, s: Relay, guests: nat -> Guest, id: nat)
    requires StreamInv(s0, guests) && HonestRun(s0, events, s, guests)
    ensures Run(s0, events, s) && TakenFaithfully(FinsTaken(s0, events, s, id), guests(id))
    decreases |events|
  {
    hide StreamInv, Enabled, HonestEvent, FinAt, Next, Faithful;
    if events != [] {
      FinAtIsFaithful(s0, events[0], guests, id);
      NextKeepsStreamInv(s0, events[0], guests);
      FinsTakenFaithfully(Next(s0, events[0]), events[1..], s, guests, id);
    }
  }

  lemma FinCompletes(t: Taken, g: Guest)
    requires t.c.state == Established && t.c.fins == 0 && GuestSide(t.c) && Faithful(t.c, g) && EndsStream(t, g)
    ensures AcceptData(t.c, t.seg).accepted == g.stream <==> FinInOrder(t)
  {
    hide U32, Has, Covers;
    var n, k := |t.c.accepted|, |g.stream| - |t.seg.data|;
    assert t.c.accepted == g.stream[..n];
    U32Step(g.isn + 1, n);
    U32Step(g.isn + 1 + k, |t.seg.data|);
    SamePosition(g.isn, k, n);
    SamePosition(g.isn, |g.stream|, n);
    if InOrder(t.c, t.seg) {
      assert g.stream == g.stream[..k] + g.stream[k..];
    }
  }

  /** A guest's FIN, numbered after the last byte of its stream, comes in order if and only if
      the whole stream has been taken in once it is. */
  lemma FinCompletesStream(events: seq<Event>, s: Relay, guests: nat -> Guest, id: nat, t: Taken)
    requires HonestRun(INIT, events, s, guests) && id < |s.arena| && EndsStream(t, guests(id))
    requires Run(INIT, events, s) && t in FinsTaken(INIT, events, s, id)
    ensures s.arena[id].accepted == guests(id).stream <==> FinInOrder(t)
  {
    hide HonestRun, Run, EndsStream, FinsTaken, Faithful, GuestSide;
    InitInv(guests);
    FinsTakenFaithfully(INIT, events, s, guests, id);
    FinCloses(events, s, id);
    FinCompletes(t, guests(id));
  }

  /** A position an acknowledgement may name: all up to it has been taken in, the FIN included
      when it lies past the stream's end. */
  predicate CoversTaken(c: Conn, g: Guest, position: nat) {
    position <= |c.accepted| || (position == |g.stream| + 1 && c.accepted == g.stream && c.fins > 0)
  }

  /** When FINs come numbered after the stream's last byte: the number next expected from the
      guest covers only what was taken in if and only if every FIN came in order; and as long as
      that is so, no acknowledgement ever sent covers more. */
  lemma AcksCoverTaken(events: seq<Event>, s: Relay, guests: nat -> Guest, id: nat)
    requires HonestRun(INIT, events, s, guests) && id < |s.arena| && Run(INIT, events, s)
    requires forall t :: t in FinsTaken(INIT, events, s, id) ==> EndsStream(t, guests(id))
    ensures var c, g := s.arena[id], guests(id);
            var expected := |c.accepted| + c.fins;
            && (!Opening(c) ==> c.gNxt == U32(g.isn + 1 + expected))
            && (CoversTaken(c, g, expected) <==> forall t :: t in FinsTaken(INIT, events, s, id) ==> FinInOrder(t))
            && (forall m :: m in c.sent && Has(m.flags, ACK) ==>
                  var position := m.upTo.bytes + m.upTo.fins;
                  m.ackno == U32(g.isn + 1 + position)
                  && (CoversTaken(c, g, expected) ==> CoversTaken(c, g, position)))
  {
    hide HonestRun, Run, EndsStream, FinInOrder, FinsTaken, Has;
    var c, g, fins := s.arena[id], guests(id), FinsTaken(INIT, events, s, id);
    GuestStreamSafety(events, s, guests, id);
    FinCloses(events, s, id);
    FinsAtMostOne(c, fins);
    hide Closing, U32;
    if c.fins > 0 {
      assert fins[0] in fins && forall t :: t in fins ==> t == fins[0];
      FinCompletesStream(events, s, guests, id, fins[0]);
    }
  }

  lemma FinsAtMostOne(c: Conn, ts: seq<Taken>)
    requires Closing(c, ts) && |ts| == c.fins
    ensures c.fins <= 1
  {}
}
