/** The TCP relay of src/network/network.cpp as a transition system. Every atomic operation
    and every section under the stack's mutex is one step of one thread: the frame handler,
    the connect thread of an outbound connection, the I/O thread of an established one, and
    the forwarding thread of an inbound one. */
module TcpRelay {
  import opened Bytes
  import opened FrameCodec

  const FIN: byte := 0x01
  const SYN: byte := 0x02
  const RST: byte := 0x04
  const PSH: byte := 0x08
  const ACK: byte := 0x10

  predicate Has(flags: byte, bit: byte)
    requires bit != 0
  {
    flags / bit % 2 == 1
  }

  datatype ConnKey = ConnKey(sip: uint32, dip: uint32, sp: uint16, dp: uint16)

  datatype State = Connecting | SynAckSent | Established

  // ----- per-connection history -----

  datatype Kind = SynByte | Data | FinByte

  /** A range of host-side sequence numbers taken by one fetch-add on `h_nxt`. */
  datatype Claim = Claim(kind: Kind, seqno: uint32, data: seq<byte>) {
    function Length(): nat {
      if kind.Data? then |data| else 1
    }
  }

  /** How much of the guest's stream had been accepted when an ack number was read. */
  datatype Coverage = Coverage(bytes: nat, fins: nat)

  datatype Sent = Sent(flags: byte, seqno: uint32, ackno: uint32, data: seq<byte>, upTo: Coverage)

  // ----- threads -----

  datatype Connector =
    | NoConnector
    | Dialing
    | SocketSet
    | Announced
    | SynClaimed(seqno: uint32)
    | SynLoaded(seqno: uint32, ackno: uint32, upTo: Coverage)
    | ConnectorDone
    | ConnectorFailed

  datatype Io =
    | NotLaunched
    | AtTop
    | Polling
    | HaveBytes(data: seq<byte>)
    | DataClaimed(seqno: uint32, data: seq<byte>)
    | DataLoaded(seqno: uint32, data: seq<byte>, ackno: uint32, upTo: Coverage)
    | LeftLoop
    | FinDue
    | FinClaimed(seqno: uint32)
    | FinLoaded(seqno: uint32, ackno: uint32, upTo: Coverage)
    | Retiring
    | Retired

  /** A `TcpConn`: its fields, whether its socket's write side has been shut, the positions of
      its two threads, and its history: the initial sequence numbers, the guest bytes accepted
      and written to the host socket, the ranges claimed, the host bytes read, and the segments
      sent. */
  datatype Conn = Conn(
    key: ConnKey, gNxt: uint32, hNxt: uint32, fd: bool, state: State, stop: bool, shut: bool,
    connector: Connector, io: Io,
    inbound: bool, base: uint32, isn: uint32, accepted: seq<byte>, fins: nat, written: seq<byte>, lost: bool,
    claims: seq<Claim>, hostRead: seq<byte>, sent: seq<Sent>, launches: nat)
  {
    function Accepted(): Coverage {
      Coverage(|accepted|, fins)
    }
  }

  /** What `handle_tcp` still has to do once it has released the mutex. */
  datatype Handler = Idle | Finishing(conn: nat, rem: seq<byte>, reply: Option<Sent>)

  /** `conns` maps keys to connection objects, named by their position in `arena` so that an
      object erased from the map is still reachable by the threads that share it. */
  datatype Relay = Relay(
    conns: map<ConnKey, nat>, arena: seq<Conn>, done: seq<ConnKey>, handler: Handler, resets: seq<Sent>)

  const INIT := Relay(map[], [], [], Idle, [])

  // ----- the frame handler: the section under the mutex -----

  function Reap(s: Relay): Relay {
    s.(conns := s.conns - (set k | k in s.done), done := [])
  }

  function OutboundConn(key: ConnKey, guestSeq: uint32): Conn {
    Conn(key, U32(guestSeq + 1), 0x4000_0000, false, Connecting, false, false, Dialing, NotLaunched,
         false, U32(guestSeq + 1), 0x4000_0000, [], 0, [], false, [], [], [], 0)
  }

  function InboundConn(key: ConnKey, isn: uint32): Conn {
    Conn(key, 0, U32(isn + 1), true, SynAckSent, false, false, NoConnector, NotLaunched,
         true, 0, isn, [], 0, [], false, [Claim(SynByte, isn, [])], [], [], 0)
  }

  function Establish(c: Conn): Conn {
    c.(state := Established, io := AtTop, launches := c.launches + 1)
  }

  /** A SYN+ACK from the guest: its sequence number starts the stream, and is acknowledged. */
  function EstablishSynAck(c: Conn, guestSeq: uint32): Conn {
    var next := U32(guestSeq + 1);
    Establish(c.(gNxt := next, base := next, accepted := [], fins := 0,
                 sent := c.sent + [Sent(ACK, c.hNxt, next, [], Coverage(0, 0))]))
  }

  /** The segment carries the next bytes of the guest's stream. */
  predicate InOrder(c: Conn, seg: TcpSegment) {
    seg.data != [] && seg.seqno == c.gNxt
  }

  function AcceptData(c: Conn, seg: TcpSegment): Conn {
    if InOrder(c, seg) then
      c.(gNxt := U32(c.gNxt + |seg.data|), accepted := c.accepted + seg.data,
         lost := c.lost || !c.fd)
    else c
  }

  /** A FIN: `shutdown(fd, SHUT_WR)` comes before anything that is still to be written. */
  function AcceptFin(c: Conn): Conn {
    c.(gNxt := U32(c.gNxt + 1), fins := c.fins + 1, stop := true, shut := c.shut || c.fd,
       hNxt := U32(c.hNxt + 1), claims := c.claims + [Claim(FinByte, c.hNxt, [])])
  }

  /** The tail of `handle_tcp` for an established connection. */
  function Deliver(s: Relay, id: nat, seg: TcpSegment): Relay
    requires id < |s.arena|
  {
    var c := s.arena[id];
    var c1 := AcceptData(c, seg);
    var rem := if InOrder(c, seg) && c.fd then seg.data else [];
    if Has(seg.flags, FIN) then
      var c2 := AcceptFin(c1);
      s.(arena := s.arena[id := c2], conns := s.conns - {c.key},
         handler := Finishing(id, rem, Some(Sent(FIN + ACK, c1.hNxt, c2.gNxt, [], c2.Accepted()))))
    else
      s.(arena := s.arena[id := c1],
         handler := Finishing(id, rem, if seg.data == [] then None
                                       else Some(Sent(ACK, c1.hNxt, c1.gNxt, [], c1.Accepted()))))
  }

  function HandleFrame(s: Relay, key: ConnKey, seg: TcpSegment): Relay
    requires forall k :: k in s.conns ==> s.conns[k] < |s.arena|
  {
    var r := Reap(s);
    if Has(seg.flags, SYN) && !Has(seg.flags, ACK) then
      if key in r.conns then r
      else r.(arena := r.arena + [OutboundConn(key, seg.seqno)], conns := r.conns[key := |r.arena|])
    else if key !in r.conns then
      if Has(seg.flags, RST) then r
      else r.(resets := r.resets + [Sent(RST, seg.ackno, 0, [], Coverage(0, 0))])
    else
      var id := r.conns[key];
      var c := r.arena[id];
      if Has(seg.flags, RST) then
        r.(arena := r.arena[id := c.(stop := true)], conns := r.conns - {key})
      else if c.state == SynAckSent && Has(seg.flags, SYN) then
        r.(arena := r.arena[id := EstablishSynAck(c, seg.seqno)])
      else if c.state == SynAckSent && Has(seg.flags, ACK) then
        r.(arena := r.arena[id := Establish(c)])
      else if c.state != Established then r
      else Deliver(r, id, seg)
  }

  // ----- the steps of a connection's own threads -----

  datatype ThreadStep =
    // connect thread
    | DialFails | SetSocket | Announce | ClaimSyn | LoadSynAck | SendSynAck
    // forwarding thread
    | SendSyn | GiveUp
    // I/O thread
    | CheckStop | PollTimesOut | ReadBytes(data: seq<byte>) | HangUp | ClaimData | LoadAck | SendData
    | RecheckStop | ClaimFin | LoadFinAck | SendFin | Retire

  predicate CanStep(c: Conn, t: ThreadStep) {
    match t
    case DialFails => c.connector.Dialing?
    case SetSocket => c.connector.Dialing?
    case Announce => c.connector.SocketSet?
    case ClaimSyn => c.connector.Announced?
    case LoadSynAck => c.connector.SynClaimed?
    case SendSynAck => c.connector.SynLoaded?
    case SendSyn => c.inbound
    case GiveUp => c.inbound
    case CheckStop => c.io.AtTop?
    case PollTimesOut => c.io.Polling?
    case ReadBytes(data) => c.io.Polling? && 0 < |data| <= 1024
    case HangUp => c.io.Polling?
    case ClaimData => c.io.HaveBytes?
    case LoadAck => c.io.DataClaimed?
    case SendData => c.io.DataLoaded?
    case RecheckStop => c.io.LeftLoop?
    case ClaimFin => c.io.FinDue?
    case LoadFinAck => c.io.FinClaimed?
    case SendFin => c.io.FinLoaded?
    case Retire => c.io.Retiring?
  }

  function Step(c: Conn, t: ThreadStep): Conn
    requires CanStep(c, t)
  {
    match t
    case DialFails => c.(connector := ConnectorFailed)
    case SetSocket => c.(fd := true, connector := SocketSet)
    case Announce => c.(state := SynAckSent, connector := Announced)
    case ClaimSyn =>
      c.(hNxt := U32(c.hNxt + 1), claims := c.claims + [Claim(SynByte, c.hNxt, [])], connector := SynClaimed(c.hNxt))
    case LoadSynAck => c.(connector := SynLoaded(c.connector.seqno, c.gNxt, c.Accepted()))
    case SendSynAck =>
      c.(sent := c.sent + [Sent(SYN + ACK, c.connector.seqno, c.connector.ackno, [], c.connector.upTo)],
         connector := ConnectorDone)
    case SendSyn => c.(sent := c.sent + [Sent(SYN, c.isn, 0, [], Coverage(0, 0))])
    case GiveUp => c
    case CheckStop => c.(io := if c.stop then LeftLoop else Polling)
    case PollTimesOut => c.(io := AtTop)
    case ReadBytes(data) => c.(hostRead := c.hostRead + data, io := HaveBytes(data))
    case HangUp => c.(io := LeftLoop)
    case ClaimData =>
      c.(hNxt := U32(c.hNxt + |c.io.data|), claims := c.claims + [Claim(Data, c.hNxt, c.io.data)],
         io := DataClaimed(c.hNxt, c.io.data))
    case LoadAck => c.(io := DataLoaded(c.io.seqno, c.io.data, c.gNxt, c.Accepted()))
    case SendData =>
      c.(sent := c.sent + [Sent(PSH + ACK, c.io.seqno, c.io.ackno, c.io.data, c.io.upTo)], io := AtTop)
    case RecheckStop => c.(io := if c.stop then Retiring else FinDue)
    case ClaimFin =>
      c.(hNxt := U32(c.hNxt + 1), claims := c.claims + [Claim(FinByte, c.hNxt, [])], io := FinClaimed(c.hNxt))
    case LoadFinAck => c.(io := FinLoaded(c.io.seqno, c.gNxt, c.Accepted()))
    case SendFin =>
      c.(sent := c.sent + [Sent(FIN + ACK, c.io.seqno, c.io.ackno, [], c.io.upTo)], io := Retiring)
    case Retire => c.(io := Retired)
  }

  // ----- runs -----

  datatype Event =
    | Frame(key: ConnKey, seg: TcpSegment)
    | HostAccepts(n: nat)
    | HostRefuses
    | FrameDone
    | OpenInbound(key: ConnKey, isn: uint32)
    | Thread(conn: nat, step: ThreadStep)

  /** Frames are handled one at a time: the network device calls the handler under its own lock.
      A socket whose write side is shut takes no more bytes. */
  predicate Enabled(s: Relay, e: Event) {
    match e
    case Frame(_, _) => s.handler.Idle? && forall k :: k in s.conns ==> s.conns[k] < |s.arena|
    case HostAccepts(n) =>
      s.handler.Finishing? && s.handler.conn < |s.arena| && 0 < n <= |s.handler.rem| && !s.arena[s.handler.conn].shut
    case HostRefuses => s.handler.Finishing? && s.handler.conn < |s.arena| && s.handler.rem != []
    case FrameDone => s.handler.Finishing? && s.handler.conn < |s.arena| && s.handler.rem == []
    case OpenInbound(_, _) => true
    case Thread(id, t) => id < |s.arena| && CanStep(s.arena[id], t)
  }

  function Next(s: Relay, e: Event): Relay
    requires Enabled(s, e)
  {
    match e
    case Frame(key, seg) => HandleFrame(s, key, seg)
    case HostAccepts(n) =>
      var h := s.handler;
      var c := s.arena[h.conn];
      s.(arena := s.arena[h.conn := c.(written := c.written + h.rem[..n])], handler := h.(rem := h.rem[n..]))
    case HostRefuses =>
      var h := s.handler;
      s.(arena := s.arena[h.conn := s.arena[h.conn].(lost := true)], handler := h.(rem := []))
    case FrameDone =>
      var h := s.handler;
      var c := s.arena[h.conn];
      s.(arena := if h.reply.Some? then s.arena[h.conn := c.(sent := c.sent + [h.reply.value])] else s.arena,
         handler := Idle)
    case OpenInbound(key, isn) =>
      s.(arena := s.arena + [InboundConn(key, isn)],
         conns := if key in s.conns then s.conns else s.conns[key := |s.arena|])
    case Thread(id, t) =>
      var c := s.arena[id];
      s.(arena := s.arena[id := Step(c, t)],
         conns := if t.DialFails? || t.GiveUp? then s.conns - {c.key} else s.conns,
         done := if t.Retire? then s.done + [c.key] else s.done)
  }

  /** Every step of `events` is enabled in turn; `s` is reached from `s0`. */
  predicate Run(s0: Relay, events: seq<Event>, s: Relay)
    decreases |events|
  {
    if events == [] then s == s0
    else Enabled(s0, events[0]) && Run(Next(s0, events[0]), events[1..], s)
  }

  lemma ReapTwice(s: Relay)
    ensures Reap(Reap(s)) == Reap(s)
    ensures s.done == [] ==> Reap(s) == s
  {
    var nobody: seq<ConnKey> := [];
    assert (set k | k in nobody) == {};
    assert Reap(s).conns - {} == Reap(s).conns && s.conns - {} == s.conns;
  }

  lemma RunOne(s: Relay, e: Event)
    requires Enabled(s, e)
    ensures Run(s, [e], Next(s, e))
  {
    assert [e][1..] == [];
  }

  lemma {:induction false} RunAppend(s0: Relay, events: seq<Event>, s: Relay, e: Event)
    requires Run(s0, events, s) && Enabled(s, e)
    ensures Run(s0, events + [e], Next(s, e))
    decreases |events|
  {
    hide Enabled, Next;
    if events == [] {
      RunOne(s0, e);
    } else {
      assert (events + [e])[1..] == events[1..] + [e];
      RunAppend(Next(s0, events[0]), events[1..], s, e);
    }
  }
}
