/** Runs from the relay's initial state in which a guest's FIN does what one would not expect. */
module TcpFinRuns {
  import opened Bytes
  import opened FrameCodec
  import opened TcpRelay
  import opened TcpRelayProofs
  import opened TcpStreams
  import opened TcpClosing

  /** A state reached by a correct guest's frames with a willing host. */
  ghost predicate Reached(events: seq<Event>, s: Relay, guests: nat -> Guest) {
    HonestRun(INIT, events, s, guests) && WillingRun(INIT, events, s)
  }

  lemma {:induction false} HonestExtends(s0: Relay, events: seq<Event>, s: Relay, guests: nat -> Guest, e: Event)
    requires HonestRun(s0, events, s, guests) && Enabled(s, e) && HonestEvent(s, e, guests)
    ensures HonestRun(s0, events + [e], Next(s, e), guests)
    decreases |events|
  {
    hide Enabled, HonestEvent, Next;
    assert [e][1..] == [];
    if events != [] {
      assert (events + [e])[1..] == events[1..] + [e];
      HonestExtends(Next(s0, events[0]), events[1..], s, guests, e);
    }
  }

  lemma {:induction false} WillingExtends(s0: Relay, events: seq<Event>, s: Relay, e: Event)
    requires WillingRun(s0, events, s) && Enabled(s, e) && (e.HostRefuses? ==> s.arena[s.handler.conn].shut)
    ensures WillingRun(s0, events + [e], Next(s, e))
    decreases |events|
  {
    hide Enabled, Next;
    assert [e][1..] == [];
    if events != [] {
      assert (events + [e])[1..] == events[1..] + [e];
      WillingExtends(Next(s0, events[0]), events[1..], s, e);
    }
  }

  lemma Extend(events: seq<Event>, s: Relay, guests: nat -> Guest, e: Event) returns (events': seq<Event>, s': Relay)
    requires Reached(events, s, guests) && Enabled(s, e) && HonestEvent(s, e, guests)
    requires e.HostRefuses? ==> s.arena[s.handler.conn].shut
    ensures Reached(events', s', guests) && s' == Next(s, e)
  {
    HonestExtends(INIT, events, s, guests, e);
    WillingExtends(INIT, events, s, e);
    events', s' := events + [e], Next(s, e);
  }

  /** One connection, in the map, and no frame being handled. */
  predicate Single(s: Relay, key: ConnKey, c: Conn) {
    s.arena == [c] && s.conns == map[key := 0] && s.done == [] && s.handler == Idle && c.key == key
  }

  function Segment(key: ConnKey, seqno: uint32, flags: byte, data: seq<byte>): TcpSegment {
    TcpSegment(key.sp, key.dp, seqno, 0, flags, data)
  }

  lemma SynOpens(key: ConnKey, isn: uint32)
    ensures var e := Frame(key, Segment(key, isn, SYN, []));
            Enabled(INIT, e) && Single(Next(INIT, e), key, OutboundConn(key, isn))
  {
    ReapTwice(INIT);
  }

  lemma ThreadOn(s: Relay, key: ConnKey, c: Conn, t: ThreadStep)
    requires Single(s, key, c) && CanStep(c, t) && !t.DialFails? && !t.GiveUp? && !t.Retire? && Step(c, t).key == key
    ensures Enabled(s, Thread(0, t)) && Single(Next(s, Thread(0, t)), key, Step(c, t))
  {
    hide Step, CanStep;
  }

  lemma AckEstablishes(s: Relay, key: ConnKey, c: Conn, seqno: uint32)
    requires Single(s, key, c) && c.state == SynAckSent
    ensures var e := Frame(key, Segment(key, seqno, ACK, []));
            Enabled(s, e) && Single(Next(s, e), key, Establish(c))
  {
    ReapTwice(s);
  }

  /** What a finished handshake leaves. */
  predicate Open(c: Conn, isn: uint32) {
    c.state == Established && c.fd && !c.shut && c.fins == 0 && !c.inbound
    && c.gNxt == U32(isn + 1) && c.accepted == [] && c.written == []
    && c.io == AtTop && !c.stop && c.hNxt == 0x4000_0001 && c.claims == [Claim(SynByte, 0x4000_0000, [])]
    && c.hostRead == [] && SentData(c.sent) == []
  }

  lemma Handshake(key: ConnKey, guests: nat -> Guest) returns (events: seq<Event>, s: Relay, c: Conn)
    ensures Reached(events, s, guests) && Single(s, key, c) && Open(c, guests(0).isn)
  {
    hide Enabled, Next, Reached, Single, HonestFrame, U32;
    var g: Guest := guests(0);
    var isn: uint32 := g.isn;
    var next: uint32 := U32(isn + 1);
    events, s, c := [], INIT, OutboundConn(key, isn);
    assert Reached(events, s, guests) by {
      StartsReached(guests);
    }
    SynOpens(key, isn);
    SynIsHonest(key, guests);
    events, s := Extend(events, s, guests, Frame(key, Segment(key, isn, SYN, [])));
    events, s, c := Advance(events, s, guests, key, c, SetSocket);
    events, s, c := Advance(events, s, guests, key, c, Announce);
    events, s, c := Advance(events, s, guests, key, c, ClaimSyn);
    events, s, c := Advance(events, s, guests, key, c, LoadSynAck);
    events, s, c := Advance(events, s, guests, key, c, SendSynAck);
    AckEstablishes(s, key, c, next);
    AckIsHonest(s, key, c, next, guests);
    events, s := Extend(events, s, guests, Frame(key, Segment(key, next, ACK, [])));
    c := Establish(c);
    Opens(key, isn);
  }

  lemma Opens(key: ConnKey, isn: uint32)
    ensures var c1 := Step(Step(OutboundConn(key, isn), SetSocket), Announce);
            Open(Establish(Step(Step(Step(c1, ClaimSyn), LoadSynAck), SendSynAck)), isn)
  {
    assert SentData([]) == [];
    SentAppended([], Sent(SYN + ACK, 0x4000_0000, U32(isn + 1), [], Coverage(0, 0)));
  }

  lemma StartsReached(guests: nat -> Guest)
    ensures Reached([], INIT, guests)
  {}

  lemma Advance(events: seq<Event>, s: Relay, guests: nat -> Guest, key: ConnKey, c: Conn, t: ThreadStep)
    returns (events': seq<Event>, s': Relay, c': Conn)
    requires Reached(events, s, guests) && Single(s, key, c) && CanStep(c, t)
    requires !t.DialFails? && !t.GiveUp? && !t.Retire? && Step(c, t).key == key
    ensures Reached(events', s', guests) && Single(s', key, c') && c' == Step(c, t)
  {
    hide Step, CanStep, Reached, Single, Enabled, Next;
    ThreadOn(s, key, c, t);
    events', s' := Extend(events, s, guests, Thread(0, t));
    c' := Step(c, t);
  }

  lemma SynIsHonest(key: ConnKey, guests: nat -> Guest)
    ensures HonestEvent(INIT, Frame(key, Segment(key, guests(0).isn, SYN, [])), guests)
  {
    ReapTwice(INIT);
  }

  lemma AckIsHonest(s: Relay, key: ConnKey, c: Conn, seqno: uint32, guests: nat -> Guest)
    requires Single(s, key, c) && c.state == SynAckSent && !c.inbound
    ensures HonestEvent(s, Frame(key, Segment(key, seqno, ACK, [])), guests)
  {
    ReapTwice(s);
  }

  lemma FinIsHonest(s: Relay, key: ConnKey, c: Conn, seg: TcpSegment, guests: nat -> Guest, k: nat)
    requires Single(s, key, c) && c.state == Established && Ordinary(seg)
    requires seg.data != [] ==> Cut(guests(0), seg, k) && -TWO_32 < k - |c.accepted| < TWO_32
    ensures HonestEvent(s, Frame(key, seg), guests)
  {
    ReapTwice(s);
  }

  /** A FIN on the one connection: its answer waits until the data has been offered to the host. */
  lemma FinArrives(s: Relay, key: ConnKey, c: Conn, seg: TcpSegment)
    requires Single(s, key, c) && c.state == Established && c.fd && Ordinary(seg) && Has(seg.flags, FIN)
    ensures Enabled(s, Frame(key, seg))
    ensures var t, d := Next(s, Frame(key, seg)), AcceptFin(AcceptData(c, seg));
            && t.arena == [d]
            && t.handler == Finishing(0, if InOrder(c, seg) then seg.data else [],
                                      Some(Sent(FIN + ACK, AcceptData(c, seg).hNxt, d.gNxt, [], d.Accepted())))
  {
    ReapTwice(s);
    hide U32;
  }

  /** The write side is shut, so what was to be written is given up and the answer goes out. */
  lemma AnswerGoesOut(events: seq<Event>, s: Relay, guests: nat -> Guest, c: Conn)
    returns (events': seq<Event>, s': Relay)
    requires Reached(events, s, guests) && s.arena == [c] && c.shut
    requires s.handler.Finishing? && s.handler.conn == 0 && s.handler.reply.Some?
    ensures Reached(events', s', guests) && |s'.arena| == 1
    ensures var d := s'.arena[0];
            d == c.(lost := d.lost, sent := c.sent + [s.handler.reply.value])
  {
    hide Reached;
    events', s' := events, s;
    if s.handler.rem != [] {
      events', s' := Extend(events', s', guests, HostRefuses);
    }
    events', s' := Extend(events', s', guests, FrameDone);
  }

  /** The whole handling of a FIN: taken in, nothing written, answered. */
  lemma FinIsAnswered(events: seq<Event>, s: Relay, guests: nat -> Guest, key: ConnKey, c: Conn, seg: TcpSegment)
    returns (events': seq<Event>, s': Relay)
    requires Reached(events, s, guests) && Single(s, key, c) && HonestEvent(s, Frame(key, seg), guests)
    requires c.state == Established && c.fd && Ordinary(seg) && Has(seg.flags, FIN)
    ensures Reached(events', s', guests) && |s'.arena| == 1
    ensures var c', d := s'.arena[0], AcceptFin(AcceptData(c, seg));
            && c'.accepted == d.accepted && c'.written == d.written
            && exists m :: m in c'.sent && Has(m.flags, ACK) && m.ackno == d.gNxt
  {
    FinArrives(s, key, c, seg);
    var d := AcceptFin(AcceptData(c, seg));
    assert d.shut;
    hide Reached, Enabled, Next, HonestEvent, AcceptData, AcceptFin, InOrder, Single;
    events', s' := Extend(events, s, guests, Frame(key, seg));
    var reply := s'.handler.reply.value;
    assert Has(reply.flags, ACK);
    hide Has;
    events', s' := AnswerGoesOut(events', s', guests, d);
    assert reply in s'.arena[0].sent;
  }

  lemma TakesDataAndFin(c: Conn, isn: uint32, seg: TcpSegment)
    requires Open(c, isn) && seg.seqno == U32(isn + 1) && seg.data != []
    ensures var d := AcceptFin(AcceptData(c, seg));
            d.accepted == seg.data && d.written == [] && d.shut && d.gNxt == U32(isn + 1 + |seg.data| + 1)
  {
    hide U32;
    U32Step(isn + 1, |seg.data|);
    U32Step(isn + 1 + |seg.data|, 1);
    assert [] + seg.data == seg.data;
  }

  lemma TakesFinAlone(c: Conn, isn: uint32, seg: TcpSegment)
    requires Open(c, isn) && seg.data == []
    ensures var d := AcceptFin(AcceptData(c, seg)); d.accepted == [] && d.gNxt == U32(isn + 1 + 1)
  {
    hide U32;
    U32Step(isn + 1, 1);
  }

  lemma WholeIsCut(g: Guest, seg: TcpSegment)
    requires seg.data == g.stream && seg.seqno == U32(g.isn + 1)
    ensures Cut(g, seg, 0)
  {
    assert g.stream[0..|g.stream|] == g.stream;
  }

  /** Data that comes with the FIN is acknowledged and never written, for any guest that sends
      all it has in one such segment and any host willing to take it. */
  lemma DataOnFinIsNeverWritten(key: ConnKey, isn: uint32, data: seq<byte>) returns (events: seq<Event>, s: Relay)
    requires data != []
    ensures WillingRun(INIT, events, s) && HonestRun(INIT, events, s, _ => Guest(isn, data)) && |s.arena| == 1
    ensures var c := s.arena[0];
            && c.accepted == data && c.written == []
            && exists m :: m in c.sent && Has(m.flags, ACK) && m.ackno == U32(isn + 1 + |data| + 1)
  {
    hide Reached, HonestEvent, Single, Enabled, Next, U32, AcceptData, AcceptFin, Cut, HonestRun, WillingRun;
    var guests := _ => Guest(isn, data);
    var c: Conn;
    events, s, c := Handshake(key, guests);
    var seg := Segment(key, U32(isn + 1), FIN + ACK, data);
    WholeIsCut(Guest(isn, data), seg);
    FinIsHonest(s, key, c, seg, guests, 0);
    TakesDataAndFin(c, isn, seg);
    events, s := FinIsAnswered(events, s, guests, key, c, seg);
    ReachedIs(events, s, guests);
  }

  lemma ReachedIs(events: seq<Event>, s: Relay, guests: nat -> Guest)
    requires Reached(events, s, guests)
    ensures WillingRun(INIT, events, s) && HonestRun(INIT, events, s, guests)
  {}

  /** When all of a guest's data is lost and its FIN arrives, the FIN's acknowledgement covers
      the first byte of the stream, of which nothing was taken in. */
  lemma FinAfterLostData(key: ConnKey, isn: uint32, stream: seq<byte>) returns (events: seq<Event>, s: Relay)
    requires 0 < |stream| < TWO_32
    ensures WillingRun(INIT, events, s) && HonestRun(INIT, events, s, _ => Guest(isn, stream)) && |s.arena| == 1
    ensures s.arena[0].accepted == []
    ensures exists m :: m in s.arena[0].sent && Has(m.flags, ACK) && m.ackno == U32(isn + 1 + 1)
  {
    hide Reached, HonestEvent, Single, Enabled, Next, U32, AcceptData, AcceptFin, Cut, HonestRun, WillingRun;
    var guests := _ => Guest(isn, stream);
    var c: Conn;
    events, s, c := Handshake(key, guests);
    var seg := Segment(key, U32(isn + 1 + |stream|), FIN + ACK, []);
    FinIsHonest(s, key, c, seg, guests, 0);
    TakesFinAlone(c, isn, seg);
    events, s := FinIsAnswered(events, s, guests, key, c, seg);
    ReachedIs(events, s, guests);
  }

  // ----- the host's stream -----

  lemma ThreadOnAlone(events: seq<Event>, s: Relay, guests: nat -> Guest, c: Conn, t: ThreadStep)
    returns (events': seq<Event>, s': Relay, c': Conn)
    requires Reached(events, s, guests) && s.arena == [c] && CanStep(c, t)
    ensures Reached(events', s', guests) && s'.arena == [c'] && c' == Step(c, t)
  {
    hide Step, CanStep, Reached;
    c' := Step(c, t);
    events', s' := Extend(events, s, guests, Thread(0, t));
  }

  lemma HeldAtFin(c: Conn, isn: uint32, data: seq<byte>)
    requires Open(c, isn) && 0 < |data| <= 1024
    ensures var d := c.(hostRead := data, io := HaveBytes(data));
            CanStep(c, CheckStop) && CanStep(Step(c, CheckStop), ReadBytes(data))
            && Step(c, CheckStop).key == c.key && Step(Step(c, CheckStop), ReadBytes(data)) == d
  {
    assert [] + data == data;
  }

  /** A connection that still holds what it read when a FIN came in. */
  predicate Holding(d: Conn, data: seq<byte>) {
    d.io == HaveBytes(data) && d.hostRead == data && d.hNxt == 0x4000_0002 && SentData(d.sent) == []
    && d.claims == [Claim(SynByte, 0x4000_0000, []), Claim(FinByte, 0x4000_0001, [])]
  }

  lemma FinOnHeld(c: Conn, isn: uint32, data: seq<byte>, seg: TcpSegment)
    requires Open(c, isn) && seg.data == []
    ensures var d := AcceptFin(AcceptData(c.(hostRead := data, io := HaveBytes(data)), seg)); d.shut && Holding(d, data)
  {
    hide SentData;
  }

  lemma AnswerKeepsHolding(c: Conn, d: Conn, data: seq<byte>, answer: Sent)
    requires Holding(c, data) && answer.data == [] && d == c.(lost := d.lost, sent := c.sent + [answer])
    ensures Holding(d, data)
  {
    hide SentData;
    SentAppended(c.sent, answer);
  }

  lemma ClaimsLate(c: Conn, data: seq<byte>)
    requires Holding(c, data) && data != []
    ensures CanStep(c, ClaimData) && CanStep(Step(c, ClaimData), LoadAck)
    ensures CanStep(Step(Step(c, ClaimData), LoadAck), SendData)
    ensures var f := Step(Step(Step(c, ClaimData), LoadAck), SendData);
            f.hostRead == data && f.claims == c.claims + [Claim(Data, 0x4000_0002, data)]
            && SentData(f.sent) == [Claim(Data, 0x4000_0002, data)]
  {
    hide SentData, U32;
    var f := Step(Step(c, ClaimData), LoadAck);
    SentAppended(c.sent, Sent(PSH + ACK, f.io.seqno, f.io.ackno, f.io.data, f.io.upTo));
  }

  /** What had been read when the guest's FIN arrived, but not yet claimed, is numbered after the
      FIN that answers it, where the guest does not take it. */
  lemma DataAfterFin(key: ConnKey, guests: nat -> Guest, data: seq<byte>) returns (events: seq<Event>, s: Relay)
    requires 0 < |data| <= 1024
    ensures WillingRun(INIT, events, s) && HonestRun(INIT, events, s, guests) && |s.arena| == 1
    ensures var c := s.arena[0];
            && c.hostRead == data && SentData(c.sent) == [Claim(Data, 0x4000_0002, data)]
            && c.claims == [Claim(SynByte, 0x4000_0000, []), Claim(FinByte, 0x4000_0001, []),
                            Claim(Data, 0x4000_0002, data)]
  {
    hide Reached, HonestEvent, Enabled, Next, U32, HonestRun, WillingRun, Step, CanStep, AcceptData, AcceptFin;
    var c: Conn;
    events, s, c := Handshake(key, guests);
    var g: Guest := guests(0);
    var c0, isn: uint32 := c, g.isn;
    HeldAtFin(c, isn, data);
    events, s, c := Advance(events, s, guests, key, c, CheckStop);
    events, s, c := Advance(events, s, guests, key, c, ReadBytes(data));
    var seg := Segment(key, U32(isn + 1), FIN + ACK, []);
    FinOnHeld(c0, isn, data, seg);
    FinIsHonest(s, key, c, seg, guests, 0);
    FinArrives(s, key, c, seg);
    var d := AcceptFin(AcceptData(c, seg));
    events, s := Extend(events, s, guests, Frame(key, seg));
    var answer := s.handler.reply.value;
    events, s := AnswerGoesOut(events, s, guests, d);
    c := s.arena[0];
    AnswerKeepsHolding(d, c, data, answer);
    ClaimsLate(c, data);
    events, s, c := ThreadOnAlone(events, s, guests, c, ClaimData);
    events, s, c := ThreadOnAlone(events, s, guests, c, LoadAck);
    events, s, c := ThreadOnAlone(events, s, guests, c, SendData);
    ReachedIs(events, s, guests);
  }
}
