/** Every segment the relay sends on a connection carries the sequence number of a range it
    claimed: SYN, data and FIN segments their own range, bare ACKs a range boundary. */
module TcpNumbering {
  import opened Bytes
  import opened FrameCodec
  import opened TcpRelay
  import opened TcpRelayProofs

  ghost predicate Boundary(c: Conn, seqno: uint32) {
    exists i :: 0 <= i <= |c.claims| && seqno == U32(c.isn + Span(c.claims[..i]))
  }

  ghost predicate Numbered(c: Conn, m: Sent) {
    if Has(m.flags, SYN) then Claim(SynByte, m.seqno, []) in c.claims && m.data == []
    else if Has(m.flags, FIN) then Claim(FinByte, m.seqno, []) in c.claims && m.data == []
    else if m.data != [] then Claim(Data, m.seqno, m.data) in c.claims
    else Boundary(c, m.seqno)
  }

  ghost predicate AllNumbered(c: Conn) {
    && (forall m :: m in c.sent ==> Numbered(c, m))
    && (c.connector.SynClaimed? || c.connector.SynLoaded? ==> Claim(SynByte, c.connector.seqno, []) in c.claims)
    && (c.io.DataClaimed? || c.io.DataLoaded? ==> Claim(Data, c.io.seqno, c.io.data) in c.claims)
    && (c.io.FinClaimed? || c.io.FinLoaded? ==> Claim(FinByte, c.io.seqno, []) in c.claims)
    && (c.inbound ==> Claim(SynByte, c.isn, []) in c.claims)
  }

  ghost predicate NumberingInv(s: Relay) {
    && Inv(s)
    && (forall id :: 0 <= id < |s.arena| ==> AllNumbered(s.arena[id]))
    && (s.handler.Finishing? && s.handler.reply.Some? ==> Numbered(s.arena[s.handler.conn], s.handler.reply.value))
  }

  lemma HasTable()
    ensures Has(SYN, SYN) && !Has(ACK, SYN) && !Has(ACK, FIN) && Has(SYN + ACK, SYN)
    ensures !Has(FIN + ACK, SYN) && Has(FIN + ACK, FIN) && !Has(PSH + ACK, SYN) && !Has(PSH + ACK, FIN)
  {}

  lemma NumberedGrows(c: Conn, d: Conn, more: seq<Claim>)
    requires d.isn == c.isn && d.claims == c.claims + more
    ensures forall m :: Numbered(c, m) ==> Numbered(d, m)
  {
    hide U32, Has, Span;
    forall m | Numbered(c, m)
      ensures Numbered(d, m)
    {
      if Boundary(c, m.seqno) {
        var i :| 0 <= i <= |c.claims| && m.seqno == U32(c.isn + Span(c.claims[..i]));
        assert d.claims[..i] == c.claims[..i];
      }
    }
  }

  lemma NextIsBoundary(c: Conn)
    requires c.hNxt == U32(c.isn + Span(c.claims))
    ensures Boundary(c, c.hNxt)
  {
    assert c.claims[..|c.claims|] == c.claims;
  }

  lemma StepKeepsNumbered(c: Conn, t: ThreadStep)
    requires AllNumbered(c) && CanStep(c, t) && HostSide(c)
    ensures AllNumbered(Step(c, t))
    ensures forall m :: Numbered(c, m) ==> Numbered(Step(c, t), m)
  {
    hide U32, Span, Has, Boundary, HostSide;
    HasTable();
    match t
    case ClaimSyn => NumberedGrows(c, Step(c, t), [Claim(SynByte, c.hNxt, [])]);
    case ClaimData => NumberedGrows(c, Step(c, t), [Claim(Data, c.hNxt, c.io.data)]);
    case ClaimFin => NumberedGrows(c, Step(c, t), [Claim(FinByte, c.hNxt, [])]);
    case SendData =>
      DataInFlight(c);
      NumberedGrows(c, Step(c, t), []);
    case _ => NumberedGrows(c, Step(c, t), []);
  }

  lemma DataInFlight(c: Conn)
    requires HostSide(c) && c.io.DataLoaded?
    ensures c.io.data != []
  {}

  lemma EstablishKeepsNumbered(c: Conn, n: uint32)
    requires AllNumbered(c) && HostSide(c) && c.io.NotLaunched?
    ensures AllNumbered(Establish(c)) && AllNumbered(EstablishSynAck(c, n))
  {
    hide U32, Span, Has, Boundary;
    HasTable();
    NextIsBoundary(c);
    NumberedGrows(c, Establish(c), []);
    NumberedGrows(c, EstablishSynAck(c, n), []);
  }

  lemma DataKeepsNumbered(c: Conn, seg: TcpSegment)
    requires AllNumbered(c) && HostSide(c)
    ensures var c1 := AcceptData(c, seg);
            HostSide(c1) && AllNumbered(c1) && Numbered(c1, Sent(ACK, c1.hNxt, c1.gNxt, [], c1.Accepted()))
  {
    hide U32, Span, Has, Boundary, InOrder, Tiles, DataClaims, SentData, Payloads;
    HasTable();
    var c1 := AcceptData(c, seg);
    NextIsBoundary(c1);
    NumberedGrows(c, c1, []);
  }

  lemma FinKeepsNumbered(c1: Conn)
    requires AllNumbered(c1) && HostSide(c1)
    ensures var c2 := AcceptFin(c1);
            AllNumbered(c2) && Numbered(c2, Sent(FIN + ACK, c1.hNxt, c2.gNxt, [], c2.Accepted()))
  {
    hide U32, Span, Has, Boundary, HostSide;
    HasTable();
    NumberedGrows(c1, AcceptFin(c1), [Claim(FinByte, c1.hNxt, [])]);
  }

  lemma DeliverKeepsNumbered(c: Conn, seg: TcpSegment)
    requires AllNumbered(c) && HostSide(c)
    ensures var c1 := AcceptData(c, seg); var c2 := AcceptFin(c1);
            AllNumbered(c1) && AllNumbered(c2)
            && Numbered(c1, Sent(ACK, c1.hNxt, c1.gNxt, [], c1.Accepted()))
            && Numbered(c2, Sent(FIN + ACK, c1.hNxt, c2.gNxt, [], c2.Accepted()))
  {
    hide AcceptData, AcceptFin, HostSide, AllNumbered, Numbered;
    DataKeepsNumbered(c, seg);
    FinKeepsNumbered(AcceptData(c, seg));
  }

  lemma NewNumbered(key: ConnKey, n: uint32)
    ensures AllNumbered(OutboundConn(key, n)) && AllNumbered(InboundConn(key, n))
  {}

  lemma StopKeepsNumbered(c: Conn)
    requires AllNumbered(c)
    ensures AllNumbered(c.(stop := true))
  {
    hide Has, U32, Boundary;
    NumberedGrows(c, c.(stop := true), []);
  }

  lemma HostSideAt(s: Relay, id: nat)
    requires Inv(s) && id < |s.arena|
    ensures HostSide(s.arena[id]) && Lifecycle(s.arena[id])
  {
    hide HostSide, GuestSide;
    assert ConnInv(s.arena[id], Rest(s.handler, id));
  }

  lemma FrameKeepsNumbering(s: Relay, key: ConnKey, seg: TcpSegment)
    requires NumberingInv(s) && s.handler.Idle?
    ensures NumberingInv(HandleFrame(s, key, seg))
  {
    hide Numbered, AllNumbered, ConnInv, Establish, EstablishSynAck, AcceptData, AcceptFin, OutboundConn, Has, InOrder;
    FrameKeepsInv(s, key, seg);
    NewNumbered(key, seg.seqno);
    var r := Reap(s);
    if key in r.conns {
      var c := r.arena[r.conns[key]];
      HostSideAt(s, r.conns[key]);
      StopKeepsNumbered(c);
      DeliverKeepsNumbered(c, seg);
      if c.state == SynAckSent {
        EstablishKeepsNumbered(c, seg.seqno);
      }
    }
    hide Inv;
  }

  lemma ThreadKeepsNumbering(s: Relay, id: nat, t: ThreadStep)
    requires NumberingInv(s) && Enabled(s, Thread(id, t))
    ensures NumberingInv(Next(s, Thread(id, t)))
  {
    hide Numbered, AllNumbered, ConnInv, Step;
    HostSideAt(s, id);
    NextKeepsInv(s, Thread(id, t));
    StepKeepsNumbered(s.arena[id], t);
  }

  lemma HostKeepsNumbering(s: Relay, e: Event)
    requires NumberingInv(s) && Enabled(s, e) && (e.HostAccepts? || e.HostRefuses? || e.FrameDone?)
    ensures NumberingInv(Next(s, e))
  {
    hide ConnInv, Has, U32, Boundary;
    NextKeepsInv(s, e);
    var h := s.handler;
    var c := s.arena[h.conn];
    match e
    case HostAccepts(n) => NumberedGrows(c, c.(written := c.written + h.rem[..n]), []);
    case HostRefuses => NumberedGrows(c, c.(lost := true), []);
    case FrameDone =>
      if h.reply.Some? {
        NumberedGrows(c, c.(sent := c.sent + [h.reply.value]), []);
      }
  }

  lemma {:induction false} RunKeepsNumbering(s0: Relay, events: seq<Event>, s: Relay)
    requires NumberingInv(s0) && Run(s0, events, s)
    ensures NumberingInv(s)
    decreases |events|
  {
    if events != [] {
      hide AllNumbered, Numbered, ConnInv;
      var e := events[0];
      match e {
        case Frame(key, seg) => FrameKeepsNumbering(s0, key, seg);
        case OpenInbound(key, isn) =>
          NextKeepsInv(s0, e);
          NewNumbered(key, isn);
        case Thread(id, t) => ThreadKeepsNumbering(s0, id, t);
        case _ => HostKeepsNumbering(s0, e);
      }
      RunKeepsNumbering(Next(s0, e), events[1..], s);
    }
  }

  /** Over every run, each segment sent on a connection is numbered by a range claimed for it. */
  lemma SegmentsCarryTheirClaims(events: seq<Event>, s: Relay, id: nat, m: Sent)
    requires Run(INIT, events, s) && id < |s.arena| && m in s.arena[id].sent
    ensures Numbered(s.arena[id], m)
  {
    RunKeepsNumbering(INIT, events, s);
    assert AllNumbered(s.arena[id]);
  }
}
