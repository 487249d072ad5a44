/** Invariants of the relay over every run, and what they mean for the two byte streams. */
module TcpRelayProofs {
  import opened Bytes
  import opened FrameCodec
  import opened TcpRelay

  // ----- sequence-number ranges -----

  function Span(claims: seq<Claim>): nat {
    if claims == [] then 0 else Span(claims[..|claims| - 1]) + claims[|claims| - 1].Length()
  }

  /** Each range starts where the one before it ends, modulo 2^32. */
  predicate Tiles(isn: uint32, claims: seq<Claim>) {
    forall i :: 0 <= i < |claims| ==> claims[i].seqno == U32(isn + Span(claims[..i]))
  }

  function DataClaims(claims: seq<Claim>): seq<Claim> {
    if claims == [] then []
    else
      var last := claims[|claims| - 1];
      DataClaims(claims[..|claims| - 1]) + if last.kind.Data? then [last] else []
  }

  function Payloads(claims: seq<Claim>): seq<byte> {
    if claims == [] then [] else Payloads(claims[..|claims| - 1]) + claims[|claims| - 1].data
  }

  /** The data segments among those sent, in order of sending, as the ranges they occupy. */
  function SentData(sent: seq<Sent>): seq<Claim> {
    if sent == [] then []
    else
      var last := sent[|sent| - 1];
      SentData(sent[..|sent| - 1]) + if last.data != [] then [Claim(Data, last.seqno, last.data)] else []
  }

  function InFlight(io: Io): seq<Claim> {
    match io
    case DataClaimed(seqno, data) => [Claim(Data, seqno, data)]
    case DataLoaded(seqno, data, _, _) => [Claim(Data, seqno, data)]
    case _ => []
  }

  function Unclaimed(io: Io): seq<byte> {
    if io.HaveBytes? then io.data else []
  }

  // ----- the invariant of one connection -----

  ghost predicate HostSide(c: Conn) {
    && Tiles(c.isn, c.claims)
    && c.hNxt == U32(c.isn + Span(c.claims))
    && Payloads(DataClaims(c.claims)) + Unclaimed(c.io) == c.hostRead
    && SentData(c.sent) + InFlight(c.io) == DataClaims(c.claims)
    && (forall k :: k in c.claims && k.kind.Data? ==> k.data != [])
    && (c.io.HaveBytes? ==> c.io.data != [])
    && (c.io.DataClaimed? || c.io.DataLoaded? ==> c.io.data != [])
  }

  predicate GuestSide(c: Conn) {
    c.gNxt == U32(c.base + |c.accepted| + c.fins)
  }

  predicate Lifecycle(c: Conn) {
    && c.launches == (if c.state == Established then 1 else 0)
    && (c.io == NotLaunched <==> c.state != Established)
    && (c.state == Connecting <==> c.connector.Dialing? || c.connector.SocketSet? || c.connector.ConnectorFailed?)
    && (c.fd <==> !c.connector.Dialing? && !c.connector.ConnectorFailed?)
    && (c.state != Established ==> c.accepted == [] && c.fins == 0 && c.written == [])
    && (c.inbound <==> c.connector.NoConnector?)
    && (c.shut <==> c.fins > 0)
  }

  /** Guest bytes accepted but not yet written to the host socket. */
  function Rest(h: Handler, id: nat): seq<byte> {
    if h.Finishing? && h.conn == id then h.rem else []
  }

  predicate Writes(c: Conn, rest: seq<byte>) {
    !c.lost ==> c.written + rest == c.accepted
  }

  ghost predicate ConnInv(c: Conn, rest: seq<byte>) {
    HostSide(c) && GuestSide(c) && Lifecycle(c) && Writes(c, rest)
  }

  ghost predicate Inv(s: Relay) {
    && (forall k :: k in s.conns ==> s.conns[k] < |s.arena| && s.arena[s.conns[k]].key == k)
    && (s.handler.Finishing? ==> s.handler.conn < |s.arena| && s.arena[s.handler.conn].state == Established)
    && (s.handler.Finishing? && s.handler.reply.Some? ==> s.handler.reply.value.data == [])
    && (forall id :: 0 <= id < |s.arena| ==> ConnInv(s.arena[id], Rest(s.handler, id)))
  }

  // ----- appending to histories -----

  lemma ClaimAppended(isn: uint32, claims: seq<Claim>, k: Claim)
    requires Tiles(isn, claims) && k.seqno == U32(isn + Span(claims))
    ensures Tiles(isn, claims + [k])
    ensures Span(claims + [k]) == Span(claims) + k.Length()
    ensures DataClaims(claims + [k]) == DataClaims(claims) + if k.kind.Data? then [k] else []
  {
    TilesAppended(isn, claims, k);
    hide U32, Tiles;
    assert (claims + [k])[..|claims|] == claims;
  }

  lemma TilesAppended(isn: uint32, claims: seq<Claim>, k: Claim)
    requires Tiles(isn, claims) && k.seqno == U32(isn + Span(claims))
    ensures Tiles(isn, claims + [k])
  {
    hide U32, Span;
    SpanOfPrefixes(claims, k);
    assert claims[..|claims|] == claims;
  }

  lemma SpanOfPrefixes(claims: seq<Claim>, k: Claim)
    ensures forall i :: 0 <= i <= |claims| ==> (claims + [k])[..i] == claims[..i]
  {}

  lemma PayloadAppended(claims: seq<Claim>, k: Claim)
    ensures Payloads(claims + [k]) == Payloads(claims) + k.data
  {
    assert (claims + [k])[..|claims|] == claims;
  }

  lemma SentAppended(sent: seq<Sent>, m: Sent)
    ensures SentData(sent + [m])
            == SentData(sent) + if m.data != [] then [Claim(Data, m.seqno, m.data)] else []
  {
    assert (sent + [m])[..|sent|] == sent;
  }

  // ----- every step keeps the invariant -----

  lemma ClaimKeepsHostSide(c: Conn, k: Claim, io: Io)
    requires HostSide(c) && k.seqno == c.hNxt
    requires if k.kind.Data? then c.io == HaveBytes(k.data) && io == DataClaimed(c.hNxt, k.data)
             else k.data == [] && Unclaimed(io) == Unclaimed(c.io) && InFlight(io) == InFlight(c.io)
                  && (io.HaveBytes? || io.DataClaimed? || io.DataLoaded? ==> io == c.io)
    ensures HostSide(c.(hNxt := U32(c.hNxt + k.Length()), claims := c.claims + [k], io := io))
  {
    hide U32, Tiles, Span, DataClaims, Payloads, SentData;
    ClaimAppended(c.isn, c.claims, k);
    U32Step(c.isn + Span(c.claims), k.Length());
    var d := c.(hNxt := U32(c.hNxt + k.Length()), claims := c.claims + [k], io := io);
    assert SentData(d.sent) + InFlight(d.io) == DataClaims(d.claims);
    if k.kind.Data? {
      PayloadAppended(DataClaims(c.claims), k);
      assert Payloads(DataClaims(d.claims)) + [] == c.hostRead;
    }
  }

  lemma SendKeepsHostSide(c: Conn, m: Sent, io: Io)
    requires HostSide(c) && Unclaimed(io) == Unclaimed(c.io)
    requires if m.data != [] then InFlight(c.io) == [Claim(Data, m.seqno, m.data)] && io == AtTop
             else InFlight(io) == InFlight(c.io) && (io.HaveBytes? || io.DataClaimed? || io.DataLoaded? ==> io == c.io)
    ensures HostSide(c.(sent := c.sent + [m], io := io))
  {
    hide U32, Tiles, Span, DataClaims, Payloads, SentData;
    SentAppended(c.sent, m);
  }

  lemma StepKeepsHostSide(c: Conn, t: ThreadStep)
    requires HostSide(c) && CanStep(c, t)
    ensures HostSide(Step(c, t))
  {
    hide U32, Tiles, Span, DataClaims, Payloads, SentData, Conn.Accepted;
    match t
    case ClaimSyn => ClaimKeepsHostSide(c, Claim(SynByte, c.hNxt, []), c.io);
    case ClaimFin => ClaimKeepsHostSide(c, Claim(FinByte, c.hNxt, []), FinClaimed(c.hNxt));
    case ClaimData => ClaimKeepsHostSide(c, Claim(Data, c.hNxt, c.io.data), DataClaimed(c.hNxt, c.io.data));
    case SendSyn => SendKeepsHostSide(c, Sent(SYN, c.isn, 0, [], Coverage(0, 0)), c.io);
    case SendSynAck =>
      SendKeepsHostSide(c, Sent(SYN + ACK, c.connector.seqno, c.connector.ackno, [], c.connector.upTo), c.io);
    case SendData => SendKeepsHostSide(c, Sent(PSH + ACK, c.io.seqno, c.io.ackno, c.io.data, c.io.upTo), AtTop);
    case SendFin => SendKeepsHostSide(c, Sent(FIN + ACK, c.io.seqno, c.io.ackno, [], c.io.upTo), Retiring);
    case _ =>
  }

  lemma StepKeepsConnInv(c: Conn, t: ThreadStep, rest: seq<byte>)
    requires ConnInv(c, rest) && CanStep(c, t)
    ensures ConnInv(Step(c, t), rest)
  {
    hide U32, HostSide;
    StepKeepsHostSide(c, t);
  }

  lemma EstablishKeepsConnInv(c: Conn, guestSeq: uint32, rest: seq<byte>)
    requires ConnInv(c, rest) && c.state == SynAckSent
    ensures ConnInv(Establish(c), rest) && ConnInv(EstablishSynAck(c, guestSeq), rest)
  {
    hide U32, Tiles, Span, DataClaims, Payloads, SentData;
    SentAppended(c.sent, Sent(ACK, c.hNxt, U32(guestSeq + 1), [], Coverage(0, 0)));
    assert U32(U32(guestSeq + 1)) == U32(guestSeq + 1) by {
      U32Step(guestSeq + 1, 0);
    }
  }

  lemma DeliverKeepsConnInv(c: Conn, seg: TcpSegment)
    requires ConnInv(c, []) && c.state == Established
    ensures var c1 := AcceptData(c, seg); var rem := if InOrder(c, seg) && c.fd then seg.data else [];
            ConnInv(c1, rem) && ConnInv(AcceptFin(c1), rem)
  {
    hide U32, Tiles, Span, DataClaims, Payloads, SentData;
    var c1 := AcceptData(c, seg);
    U32Step(c.base + |c.accepted| + c.fins, |seg.data|);
    U32Step(c1.base + |c1.accepted| + c1.fins, 1);
    ClaimKeepsHostSide(c1, Claim(FinByte, c1.hNxt, []), c1.io);
  }

  lemma NewConnInv(key: ConnKey, n: uint32)
    ensures ConnInv(OutboundConn(key, n), []) && ConnInv(InboundConn(key, n), [])
  {
    var k := Claim(SynByte, n, []);
    ClaimAppended(n, [], k);
    assert [] + [k] == [k];
    U32Step(n + 1, 0);
  }

  lemma ReapKeepsInv(s: Relay)
    requires Inv(s)
    ensures Inv(Reap(s)) && Reap(s).handler == s.handler && Reap(s).arena == s.arena
  {
    hide ConnInv;
  }

  lemma DeliverKeepsInv(r: Relay, id: nat, seg: TcpSegment)
    requires Inv(r) && r.handler.Idle? && id < |r.arena| && r.arena[id].state == Established
    ensures Inv(Deliver(r, id, seg))
  {
    hide ConnInv, AcceptData, AcceptFin, Has, InOrder, U32;
    DeliverKeepsConnInv(r.arena[id], seg);
    KeysKept(r.arena[id], seg);
  }

  lemma FrameKeepsInv(s: Relay, key: ConnKey, seg: TcpSegment)
    requires Inv(s) && s.handler.Idle?
    ensures Inv(HandleFrame(s, key, seg))
  {
    hide ConnInv, Establish, EstablishSynAck, Deliver, Reap, OutboundConn, Has, U32;
    ReapKeepsInv(s);
    NewConnInv(key, seg.seqno);
    OutboundKey(key, seg.seqno);
    var r := Reap(s);
    if key in r.conns {
      var c := r.arena[r.conns[key]];
      StopKeepsConnInv(c, []);
      if c.state == SynAckSent {
        EstablishKeepsConnInv(c, seg.seqno, []);
        KeysKept(c, seg);
      } else if c.state == Established {
        DeliverKeepsInv(r, r.conns[key], seg);
      }
    }
  }

  lemma OutboundKey(key: ConnKey, n: uint32)
    ensures OutboundConn(key, n).key == key
  {}

  lemma StopKeepsConnInv(c: Conn, rest: seq<byte>)
    requires ConnInv(c, rest)
    ensures ConnInv(c.(stop := true), rest)
  {
    hide U32, Tiles, Span, DataClaims, Payloads, SentData;
  }

  lemma KeysKept(c: Conn, seg: TcpSegment)
    ensures Establish(c).key == c.key && EstablishSynAck(c, seg.seqno).key == c.key
    ensures AcceptData(c, seg).key == c.key && AcceptFin(AcceptData(c, seg)).key == c.key
    ensures AcceptData(c, seg).state == c.state && AcceptFin(AcceptData(c, seg)).state == c.state
  {}

  lemma NextKeepsInv(s: Relay, e: Event)
    requires Inv(s) && Enabled(s, e)
    ensures Inv(Next(s, e))
  {
    hide ConnInv;
    match e
    case Frame(key, seg) => FrameKeepsInv(s, key, seg);
    case HostAccepts(n) => HostKeepsInv(s, e);
    case HostRefuses => HostKeepsInv(s, e);
    case FrameDone => HostKeepsInv(s, e);
    case OpenInbound(key, isn) =>
      NewConnInv(key, isn);
    case Thread(id, t) => ThreadKeepsInv(s, id, t);
  }

  lemma ThreadKeepsInv(s: Relay, id: nat, t: ThreadStep)
    requires Inv(s) && Enabled(s, Thread(id, t))
    ensures Inv(Next(s, Thread(id, t)))
  {
    hide ConnInv, Step;
    StepKeepsConnInv(s.arena[id], t, Rest(s.handler, id));
    StepKeepsIdentity(s.arena[id], t, Rest(s.handler, id));
  }

  lemma StepKeepsIdentity(c: Conn, t: ThreadStep, rest: seq<byte>)
    requires ConnInv(c, rest) && CanStep(c, t)
    ensures Step(c, t).key == c.key
    ensures c.state == Established ==> Step(c, t).state == Established
  {
    hide HostSide, GuestSide, Writes, U32, Conn.Accepted;
    match t
    case Announce =>
    case ClaimSyn =>
    case ClaimData =>
    case ClaimFin =>
    case LoadAck =>
    case SendData =>
    case SendFin =>
    case _ =>
  }

  lemma HostKeepsInv(s: Relay, e: Event)
    requires Inv(s) && Enabled(s, e) && (e.HostAccepts? || e.HostRefuses? || e.FrameDone?)
    ensures Inv(Next(s, e))
  {
    hide HostSide, GuestSide, Lifecycle;
    var h := s.handler;
    var c := s.arena[h.conn];
    assert ConnInv(c, Rest(h, h.conn));
    match e
    case HostAccepts(n) =>
      assert h.rem == h.rem[..n] + h.rem[n..];
      SameSides(c, c.(written := c.written + h.rem[..n]));
    case HostRefuses =>
      SameSides(c, c.(lost := true));
    case FrameDone =>
      if h.reply.Some? {
        ReplySent(c, h.reply.value);
      }
  }

  /** What the host socket takes shows only in `written` and `lost`. */
  lemma SameSides(c: Conn, d: Conn)
    requires d == c.(written := d.written, lost := d.lost) && c.state == Established
    ensures HostSide(c) == HostSide(d) && GuestSide(c) == GuestSide(d) && Lifecycle(c) == Lifecycle(d)
  {}

  lemma ReplySent(c: Conn, m: Sent)
    requires HostSide(c) && GuestSide(c) && Lifecycle(c) && m.data == []
    ensures var d := c.(sent := c.sent + [m]); HostSide(d) && GuestSide(d) && Lifecycle(d)
  {
    SendKeepsHostSide(c, m, c.io);
  }

  lemma {:induction false} RunKeepsInv(s0: Relay, events: seq<Event>, s: Relay)
    requires Inv(s0) && Run(s0, events, s)
    ensures Inv(s)
    decreases |events|
  {
    if events != [] {
      NextKeepsInv(s0, events[0]);
      RunKeepsInv(Next(s0, events[0]), events[1..], s);
    }
  }
}
