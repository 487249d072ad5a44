/** `handle_frame` and `handle_tcp` of src/network/network.cpp over shared connection objects,
    proved to perform the frame handler's steps of `TcpRelay`. */
module TcpStack {
  import opened Bytes
  import opened FrameCodec
  import opened TcpRelay

  /** `TcpConn`. The ghost fields are its identity, the positions of its threads, and its history. */
  class TcpConn {
    const key: ConnKey
    const guestMac: mac
    var gNxt: uint32
    var hNxt: uint32
    var fd: bool
    var state: State
    var stop: bool
    /** Whether the socket's write side has been shut. */
    var shut: bool

    ghost const id: nat
    ghost var rest: Conn

    constructor (key: ConnKey, guestMac: mac, ghost id: nat, guestSeq: uint32)
      ensures this.key == key && this.guestMac == guestMac && this.id == id
      ensures View() == OutboundConn(key, guestSeq)
    {
      this.key, this.guestMac, this.id := key, guestMac, id;
      gNxt, hNxt, fd, state, stop, shut := U32(guestSeq + 1), 0x4000_0000, false, Connecting, false, false;
      rest := OutboundConn(key, guestSeq);
    }

    ghost function View(): Conn
      reads this
    {
      rest.(key := key, gNxt := gNxt, hNxt := hNxt, fd := fd, state := state, stop := stop, shut := shut)
    }

    method Stop()
      modifies this
      ensures View() == old(View()).(stop := true)
    {
      stop := true;
    }

    method AcceptSynAck(guestSeq: uint32) returns (a: Answer)
      modifies this
      ensures View() == EstablishSynAck(old(View()), guestSeq)
      ensures a == Answer(ACK, old(hNxt), U32(guestSeq + 1))
    {
      ghost var v := View();
      gNxt := U32(guestSeq + 1);
      a := Answer(ACK, hNxt, gNxt);
      state := Established;
      rest := EstablishSynAck(v, guestSeq);
    }

    method AcceptAck()
      modifies this
      ensures View() == Establish(old(View()))
    {
      ghost var v := View();
      state := Established;
      rest := Establish(v);
    }

    /** The data and FIN of a segment on an established connection: what to write to the
        host socket, and the answer that is due afterwards. */
    method Receive(seg: TcpSegment) returns (toWrite: seq<byte>, reply: Option<Answer>)
      modifies this
      ensures var c := old(View()); var c1 := AcceptData(c, seg); var c2 := AcceptFin(c1);
              View() == (if Has(seg.flags, FIN) then c2 else c1)
              && toWrite == (if InOrder(c, seg) && c.fd then seg.data else [])
              && AsSeq(reply) == Due(c, seg)
    {
      hide U32, Has, Due;
      ghost var v := View();
      DueIs(v, seg);
      toWrite, reply := [], None;
      var shouldAck := false;
      if |seg.data| > 0 {
        if seg.seqno == gNxt {
          toWrite := if fd then seg.data else [];
          gNxt := U32(gNxt + |seg.data|);
        }
        shouldAck := true;
      }
      ghost var v1 := AcceptData(v, seg);
      rest := v1;
      assert View() == v1;
      hide AcceptData;
      var shouldFin := Has(seg.flags, FIN);
      if shouldFin {
        gNxt := U32(gNxt + 1);
        stop := true;
        if fd {
          shut := true;
        }
      }
      var ackSeq, hSeq := gNxt, hNxt;
      if shouldFin {
        hNxt := U32(hNxt + 1);
        rest := AcceptFin(v1);
        reply := Some(Answer(FIN + ACK, hSeq, ackSeq));
      } else if shouldAck {
        reply := Some(Answer(ACK, hSeq, ackSeq));
      }
    }
  }

  /** The segment that answers a guest's, as the relay sends it: without data. */
  datatype Answer = Answer(flags: byte, seqno: uint32, ackno: uint32)

  function SegmentFor(key: ConnKey, a: Answer): TcpSegment {
    TcpSegment(key.dp, key.sp, a.seqno, a.ackno, a.flags, [])
  }

  function Recorded(a: Option<Answer>, upTo: Coverage): Option<Sent> {
    if a.None? then None else Some(Sent(a.value.flags, a.value.seqno, a.value.ackno, [], upTo))
  }

  /** The frame that carries an answer to the guest. */
  function FrameFor(gwMac: mac, guestMac: mac, key: ConnKey, a: Answer): seq<byte> {
    TcpFrame(guestMac, gwMac, key.dip, key.sip, SegmentFor(key, a))
  }

  /** The answers a guest segment provokes, in any state. */
  function AnswersTo(s: Relay, key: ConnKey, seg: TcpSegment): (r: seq<Answer>)
    requires ViewWellFormed(s)
    ensures |r| <= 1
  {
    var r := Reap(s);
    if Has(seg.flags, SYN) && !Has(seg.flags, ACK) then []
    else if key !in r.conns then if Has(seg.flags, RST) then [] else [Answer(RST, seg.ackno, 0)]
    else
      var c := r.arena[r.conns[key]];
      if Has(seg.flags, RST) then []
      else if c.state == SynAckSent && Has(seg.flags, SYN) then [Answer(ACK, c.hNxt, U32(seg.seqno + 1))]
      else if c.state == SynAckSent && Has(seg.flags, ACK) then []
      else if c.state != Established then []
      else Due(c, seg)
  }

  ghost predicate ViewWellFormed(s: Relay) {
    forall k :: k in s.conns ==> s.conns[k] < |s.arena|
  }

  /** What an established connection answers: its ack number covers the data just accepted and,
      with a FIN, the FIN as well. */
  function Due(c: Conn, seg: TcpSegment): (r: seq<Answer>)
    ensures |r| <= 1
  {
    var c1 := AcceptData(c, seg);
    if Has(seg.flags, FIN) then [Answer(FIN + ACK, c1.hNxt, AcceptFin(c1).gNxt)]
    else if seg.data == [] then []
    else [Answer(ACK, c1.hNxt, c1.gNxt)]
  }

  lemma DueIs(c: Conn, seg: TcpSegment)
    ensures var c1 := AcceptData(c, seg);
            Due(c, seg) == if Has(seg.flags, FIN) then [Answer(FIN + ACK, c1.hNxt, AcceptFin(c1).gNxt)]
                           else if |seg.data| > 0 then [Answer(ACK, c1.hNxt, c1.gNxt)] else []
  {}

  /** The frames that carry these answers to `dst`. */
  function FramesFor(gwMac: mac, dst: mac, key: ConnKey, answers: seq<Answer>): seq<seq<byte>> {
    if answers == [] then [] else [FrameFor(gwMac, dst, key, answers[0])] + FramesFor(gwMac, dst, key, answers[1..])
  }

  lemma NoFrames(gwMac: mac, dst: mac, key: ConnKey)
    ensures FramesFor(gwMac, dst, key, []) == []
  {}

  lemma OneFrame(gwMac: mac, dst: mac, key: ConnKey, a: Answer)
    ensures FramesFor(gwMac, dst, key, [a]) == [FrameFor(gwMac, dst, key, a)]
  {
    hide FrameFor;
    assert [a][1..] == [];
  }

  function AsSeq(a: Option<Answer>): seq<Answer> {
    if a.None? then [] else [a.value]
  }

  lemma KeptKeys(c: Conn, seg: TcpSegment)
    ensures AcceptData(c, seg).key == c.key
  {}

  /** The part of the frame handler for a live connection, by its state. */
  lemma OnLive(s: Relay, key: ConnKey, seg: TcpSegment)
    requires ViewWellFormed(s) && s.done == [] && key in s.conns
    requires !Has(seg.flags, RST) && (Has(seg.flags, SYN) ==> Has(seg.flags, ACK))
    ensures var id := s.conns[key]; var c := s.arena[id];
            var t, answers := HandleFrame(s, key, seg), AnswersTo(s, key, seg);
            match c.state
            case Connecting => t == s && answers == []
            case SynAckSent =>
              if Has(seg.flags, SYN) then
                t == s.(arena := s.arena[id := EstablishSynAck(c, seg.seqno)])
                && answers == [Answer(ACK, c.hNxt, U32(seg.seqno + 1))]
              else
                t == (if Has(seg.flags, ACK) then s.(arena := s.arena[id := Establish(c)]) else s) && answers == []
            case Established => t == Deliver(s, id, seg) && answers == Due(c, seg)
  {
    hide Has, U32, Establish, EstablishSynAck, Deliver, Due;
    ReapTwice(s);
  }

  // ----- what the host socket takes -----

  /** How many of `n` bytes the loop gets written, when successive calls of `write` would take
      `accepts`: a call takes at most what is left, and the loop ends at a failing one. */
  function HostTakes(accepts: seq<int>, n: nat): (k: nat)
    ensures k <= n
  {
    if n == 0 || accepts == [] || accepts[0] <= 0 then 0
    else Min(accepts[0], n) + HostTakes(accepts[1..], n - Min(accepts[0], n))
  }

  /** The state once `k` of the pending bytes have been written. */
  function Progress(s: Relay, k: nat): Relay
    requires s.handler.Finishing? && s.handler.conn < |s.arena| && k <= |s.handler.rem|
  {
    var h := s.handler;
    var c := s.arena[h.conn];
    s.(arena := s.arena[h.conn := c.(written := c.written + h.rem[..k])], handler := h.(rem := h.rem[k..]))
  }

  /** The state once the write loop is over: the rest, if any, is given up. */
  function Offered(s: Relay, accepts: seq<int>): (t: Relay)
    requires s.handler.Finishing? && s.handler.conn < |s.arena|
    ensures t.handler == s.handler.(rem := []) && |t.arena| == |s.arena|
  {
    var h := s.handler;
    var c := s.arena[h.conn];
    var k := if c.shut then 0 else HostTakes(accepts, |h.rem|);
    s.(arena := s.arena[h.conn := c.(written := c.written + h.rem[..k], lost := c.lost || k < |h.rem|)],
       handler := h.(rem := []))
  }

  /** The relay after the whole handling of a segment. */
  function Handled(s: Relay, key: ConnKey, seg: TcpSegment, accepts: seq<int>): Relay
    requires ViewWellFormed(s) && s.handler.Idle?
  {
    var t := HandleFrame(s, key, seg);
    if t.handler.Idle? then t else Next(Offered(t, accepts), FrameDone)
  }

  lemma NothingTaken(accepts: seq<int>)
    ensures HostTakes(accepts, 0) == 0
  {}

  lemma ProgressStep(s: Relay, k: nat, w: nat)
    requires s.handler.Finishing? && s.handler.conn < |s.arena| && k + w <= |s.handler.rem| && 0 < w
    requires !s.arena[s.handler.conn].shut
    ensures Enabled(Progress(s, k), HostAccepts(w)) && Next(Progress(s, k), HostAccepts(w)) == Progress(s, k + w)
  {
    var c, rem := s.arena[s.handler.conn], s.handler.rem;
    assert rem[..k + w] == rem[..k] + rem[k..][..w] && rem[k..][w..] == rem[k + w..];
    Assoc(c.written, rem[..k], rem[k..][..w]);
    var t := Progress(s, k);
    assert Next(t, HostAccepts(w)).arena == Progress(s, k + w).arena;
  }

  lemma ProgressNone(s: Relay)
    requires s.handler.Finishing? && s.handler.conn < |s.arena|
    ensures Progress(s, 0) == s
  {
    var c, rem := s.arena[s.handler.conn], s.handler.rem;
    assert rem[..0] == [] && rem[0..] == rem && c.written + [] == c.written;
    assert Progress(s, 0).arena == s.arena;
  }

  /** The loop's last write is its last step, or the socket refuses the rest. */
  lemma ProgressEnds(s: Relay, k: nat, accepts: seq<int>)
    requires s.handler.Finishing? && s.handler.conn < |s.arena|
    requires k == if s.arena[s.handler.conn].shut then 0 else HostTakes(accepts, |s.handler.rem|)
    ensures if k == |s.handler.rem| then Progress(s, k) == Offered(s, accepts)
            else Enabled(Progress(s, k), HostRefuses) && Next(Progress(s, k), HostRefuses) == Offered(s, accepts)
  {
    var t := Progress(s, k);
    if k == |s.handler.rem| {
      assert t.arena == Offered(s, accepts).arena;
    } else {
      assert Next(t, HostRefuses).arena == Offered(s, accepts).arena;
    }
  }

  lemma FrameIsNext(s: Relay, key: ConnKey, seg: TcpSegment)
    requires ViewWellFormed(s) && s.handler.Idle?
    ensures Enabled(s, Frame(key, seg)) && Next(s, Frame(key, seg)) == HandleFrame(s, key, seg)
  {}

  /** `handle_frame`'s reading of a frame as an event of the relay. */
  function FrameEvent(frame: seq<byte>): Option<Event> {
    match DecodeFrame(frame)
    case Ip4(_, proto, src, dst, payload) =>
      if proto != IP_TCP then None else
      (match DecodeTcp(payload)
       case Some(seg) => Some(Frame(ConnKey(src, dst, seg.sport, seg.dport), seg))
       case None => None)
    case _ => None
  }

  /** A frame the guest's own stack would build for a segment is read back as that segment. */
  lemma GuestFrameEvent(dst: mac, src: mac, key: ConnKey, seg: TcpSegment)
    requires FitsTcp(seg) && seg.sport == key.sp && seg.dport == key.dp
    ensures FrameEvent(TcpFrame(dst, src, key.sip, key.dip, seg)) == Some(Frame(key, seg))
  {
    hide TcpFrame, DecodeFrame, DecodeTcp;
    TcpRoundTrip(dst, src, key.sip, key.dip, seg);
  }

  class Stack {
    const gwMac: mac
    var conns: map<ConnKey, TcpConn>
    var doneQueue: seq<ConnKey>
    /** Frames handed to the guest. */
    var tx: seq<seq<byte>>

    ghost var all: seq<TcpConn>
    ghost var handler: Handler
    ghost var resets: seq<Sent>

    ghost predicate Valid()
      reads this, all
    {
      && (forall i :: 0 <= i < |all| ==> all[i].id == i)
      && (forall k :: k in conns ==> conns[k] in all && conns[k].key == k)
    }

    ghost function View(): Relay
      reads this, all
    {
      Relay(map k | k in conns :: conns[k].id, seq(|all|, i requires 0 <= i < |all| reads this, all => all[i].View()),
            doneQueue, handler, resets)
    }

    constructor (gwMac: mac)
      ensures Valid() && View() == INIT && tx == []
    {
      this.gwMac := gwMac;
      conns, doneQueue, tx, all, handler, resets := map[], [], [], [], Idle, [];
    }

    /** Whom answers for a key go to: the guest that opened its live connection, or the frame's
        sender. */
    function Recipient(ethSrc: mac, key: ConnKey): mac
      reads this
    {
      if key in conns && key !in doneQueue then conns[key].guestMac else ethSrc
    }

    /** The frames that answer a segment. */
    ghost function Replies(ethSrc: mac, key: ConnKey, seg: TcpSegment): seq<seq<byte>>
      reads this, all
      requires Valid()
    {
      ViewAt(key);
      FramesFor(gwMac, Recipient(ethSrc, key), key, AnswersTo(View(), key, seg))
    }

    method Emit(guestMac: mac, key: ConnKey, a: Answer)
      modifies this`tx
      ensures tx == old(tx) + FramesFor(gwMac, guestMac, key, [a])
    {
      var frame := SendTcp(guestMac, gwMac, key.dip, key.sip, SegmentFor(key, a));
      tx := tx + [frame];
      OneFrame(gwMac, guestMac, key, a);
    }

    method ReapDone()
      requires Valid()
      modifies this`conns, this`doneQueue
      ensures Valid() && View() == Reap(old(View()))
      ensures conns == old(conns) - (set k | k in old(doneQueue))
    {
      ghost var before := View();
      var i := 0;
      while i < |doneQueue|
        invariant 0 <= i <= |doneQueue| && doneQueue == old(doneQueue)
        invariant conns == old(conns) - (set k | k in doneQueue[..i])
      {
        conns := conns - {doneQueue[i]};
        i := i + 1;
      }
      assert doneQueue[..|doneQueue|] == doneQueue;
      doneQueue := [];
      assert View().arena == before.arena;
      assert View().conns == before.conns - (set k | k in before.done);
    }

    /** The state with one connection object changed. */
    twostate lemma OneChanged(c: TcpConn)
      requires old(Valid()) && all == old(all) && c in all
      requires conns == old(conns) && doneQueue == old(doneQueue)
      requires handler == old(handler) && resets == old(resets)
      requires forall o :: o in all && o != c ==> o.View() == old(o.View())
      ensures Valid() && c.id < |all| == |old(View()).arena|
      ensures View() == old(View()).(arena := old(View()).arena[c.id := c.View()])
    {
      var i :| 0 <= i < |all| && all[i] == c;
      assert View().arena == old(View()).arena[c.id := c.View()];
    }

    /** The view's map and objects are the real ones. */
    lemma ViewAt(key: ConnKey)
      requires Valid()
      ensures key in View().conns <==> key in conns
      ensures key in conns ==> conns[key] in all && conns[key].key == key
      ensures key in conns ==> View().conns[key] == conns[key].id && conns[key].id < |View().arena|
      ensures key in conns ==> View().arena[conns[key].id] == conns[key].View()
      ensures ViewWellFormed(View()) && View().handler == handler && View().done == doneQueue
    {}

    method DropKey(key: ConnKey)
      requires Valid()
      modifies this`conns
      ensures Valid() && View() == old(View()).(conns := old(View()).conns - {key})
      ensures conns == old(conns) - {key}
    {
      ghost var before := View();
      conns := conns - {key};
      assert View().arena == before.arena;
    }

    method Open(ethSrc: mac, key: ConnKey, guestSeq: uint32)
      requires Valid() && key !in conns
      modifies this`conns, this`all
      ensures Valid() && View() == (var s := old(View());
                s.(arena := s.arena + [OutboundConn(key, guestSeq)], conns := s.conns[key := |s.arena|]))
      ensures key in conns && conns[key].guestMac == ethSrc
    {
      hide OutboundConn;
      ghost var s := View();
      var created := new TcpConn(key, ethSrc, |all|, guestSeq);
      conns := conns[key := created];
      all := all + [created];
      assert View().arena == s.arena + [OutboundConn(key, guestSeq)];
      assert View().conns == s.conns[key := |s.arena|];
    }

    method SendReset(ethSrc: mac, key: ConnKey, ackno: uint32)
      requires Valid()
      modifies this`tx, this`resets
      ensures Valid() && View() == (var s := old(View());
                s.(resets := s.resets + [Sent(RST, ackno, 0, [], Coverage(0, 0))]))
      ensures tx == old(tx) + FramesFor(gwMac, ethSrc, key, [Answer(RST, ackno, 0)])
    {
      ghost var s := View();
      Emit(ethSrc, key, Answer(RST, ackno, 0));
      resets := resets + [Sent(RST, ackno, 0, [], Coverage(0, 0))];
      assert View().arena == s.arena;
    }

    /** `handle_tcp` up to the point where it releases the mutex. */
    method Locked(ethSrc: mac, key: ConnKey, seg: TcpSegment)
      returns (conn: TcpConn?, toWrite: seq<byte>, reply: Option<Answer>)
      requires Valid() && handler.Idle?
      modifies this, all
      ensures Valid() && View() == HandleFrame(old(View()), key, seg)
      ensures Pends(conn, key, toWrite, reply) && (conn != null ==> conn in old(all))
      ensures ViewWellFormed(old(View()))
      ensures if conn == null then tx == old(tx + Replies(ethSrc, key, seg))
              else tx == old(tx) && AsSeq(reply) == AnswersTo(old(View()), key, seg)
                   && conn.guestMac == old(Recipient(ethSrc, key))
    {
      hide Has, U32, Establish, EstablishSynAck, AcceptData, AcceptFin, OutboundConn, InOrder, Deliver, FramesFor, Due;
      hide Stack.View, Stack.Valid;
      conn, toWrite, reply := null, [], None;
      ViewAt(key);
      NoFrames(gwMac, Recipient(ethSrc, key), key);
      ReapDone();
      ViewAt(key);
      if Has(seg.flags, SYN) && !Has(seg.flags, ACK) {
        if key !in conns {
          Open(ethSrc, key, seg.seqno);
        }
        return;
      }
      if key !in conns {
        if !Has(seg.flags, RST) {
          SendReset(ethSrc, key, seg.ackno);
        }
        return;
      }
      if Has(seg.flags, RST) {
        Reset(key);
        return;
      }
      ReapTwice(old(View()));
      conn, toWrite, reply := OnConnection(key, seg);
    }

    method Reset(key: ConnKey)
      requires Valid() && key in conns
      modifies this`conns, all
      ensures Valid() && View() == (var s := old(View()); var id := s.conns[key];
                s.(arena := s.arena[id := s.arena[id].(stop := true)], conns := s.conns - {key}))
    {
      var c := conns[key];
      c.Stop();
      OneChanged(c);
      DropKey(key);
    }

    /** What is left to do for `conn` once the mutex is released. */
    ghost predicate Pends(conn: TcpConn?, key: ConnKey, toWrite: seq<byte>, reply: Option<Answer>)
      reads this, all, conn
    {
      if conn == null then handler.Idle?
      else
        conn in all && conn.key == key
        && handler == Finishing(conn.id, toWrite, Recorded(reply, conn.View().Accepted()))
    }

    ghost method SetHandler(h: Handler)
      requires Valid()
      modifies this`handler
      ensures Valid() && handler == h && View() == old(View()).(handler := h)
    {
      ghost var s := View();
      handler := h;
      assert View().arena == s.arena;
    }

    method OnConnection(key: ConnKey, seg: TcpSegment)
      returns (conn: TcpConn?, toWrite: seq<byte>, reply: Option<Answer>)
      requires Valid() && handler.Idle? && key in conns && View().done == []
      requires !Has(seg.flags, RST) && (Has(seg.flags, SYN) ==> Has(seg.flags, ACK))
      modifies this, all
      ensures Valid() && View() == HandleFrame(old(View()), key, seg)
      ensures Pends(conn, key, toWrite, reply) && (conn != null ==> conn in old(all))
      ensures ViewWellFormed(old(View()))
      ensures if conn == null then
                tx == old(tx) + FramesFor(gwMac, old(conns[key].guestMac), key, AnswersTo(old(View()), key, seg))
              else tx == old(tx) && AsSeq(reply) == AnswersTo(old(View()), key, seg) && conn == old(conns[key])
    {
      hide Has, U32, Establish, EstablishSynAck, AcceptData, AcceptFin, InOrder, HandleFrame, AnswersTo, Due;
      hide FramesFor;
      hide Stack.View, Stack.Valid;
      conn, toWrite, reply := null, [], None;
      ViewAt(key);
      NoFrames(gwMac, conns[key].guestMac, key);
      OnLive(View(), key, seg);
      var c := conns[key];
      if c.state == SynAckSent {
        if Has(seg.flags, SYN) && Has(seg.flags, ACK) {
          var a := c.AcceptSynAck(seg.seqno);
          Emit(c.guestMac, key, a);
          OneChanged(c);
          return;
        } else if Has(seg.flags, ACK) {
          c.AcceptAck();
          OneChanged(c);
          return;
        }
      }
      if c.state != Established {
        return;
      }
      conn := c;
      toWrite, reply := OnEstablished(c, seg);
    }

    /** The data and FIN of a segment on an established connection. */
    method OnEstablished(c: TcpConn, seg: TcpSegment) returns (toWrite: seq<byte>, reply: Option<Answer>)
      requires Valid() && c in all && handler.Idle?
      modifies this`conns, this`handler, c
      ensures Valid() && c.id < |old(View()).arena| && View() == Deliver(old(View()), c.id, seg)
      ensures handler == Finishing(c.id, toWrite, Recorded(reply, c.View().Accepted()))
      ensures AsSeq(reply) == Due(old(c.View()), seg)
    {
      hide Has, U32, AcceptData, AcceptFin, InOrder, Due, Stack.View, Stack.Valid;
      InArena(c);
      KeptKeys(c.View(), seg);
      DueIs(c.View(), seg);
      toWrite, reply := c.Receive(seg);
      OneChanged(c);
      SetHandler(Finishing(c.id, toWrite, Recorded(reply, c.View().Accepted())));
      if Has(seg.flags, FIN) {
        DropKey(c.key);
      }
    }

    /** The partial-write loop. `accepts` is what successive calls of `write` return while the
        write side is open; when it runs out the host socket refuses. Once the write side is
        shut the first call fails, so nothing more is written. */
    method WriteAll(conn: TcpConn, toWrite: seq<byte>, accepts: seq<int>, ghost s0: Relay, ghost events: seq<Event>)
      returns (ghost events': seq<Event>)
      requires Valid() && conn in all && handler.Finishing? && handler.conn == conn.id && handler.rem == toWrite
      requires Run(s0, events, View())
      modifies this`handler, conn`rest
      ensures Valid() && conn.id < |old(View()).arena| && View() == Offered(old(View()), accepts)
      ensures Run(s0, events', View()) && HostOnly(events, events')
      ensures handler == old(handler).(rem := [])
    {
      hide Run, Next, Enabled, Stack.View, Stack.Valid, Progress, Offered;
      events' := events;
      ghost var s := View();
      InArena(conn);
      ProgressNone(s);
      var p, i := 0, 0;
      ghost var left := if conn.shut then [] else accepts;
      assert accepts[i..] == accepts;
      while p < |toWrite|
        invariant 0 <= p <= |toWrite| && 0 <= i <= |accepts| && (conn.shut ==> p == 0)
        invariant Valid() && View() == Progress(s, p) && handler == old(handler).(rem := toWrite[p..])
        invariant HostTakes(accepts, |toWrite|) == p + HostTakes(accepts[i..], |toWrite| - p)
        invariant Run(s0, events', View()) && HostOnly(events, events')
        decreases |toWrite| - p
      {
        var rem := |toWrite| - p;
        var w := if conn.shut || i == |accepts| then -1 else if accepts[i] > rem then rem else accepts[i];
        if w <= 0 {
          ProgressEnds(s, p, accepts);
          Refuse(conn);
          RunAppend(s0, events', Progress(s, p), HostRefuses);
          events' := events' + [HostRefuses];
          return;
        }
        assert accepts[i..][1..] == accepts[i + 1..];
        ProgressStep(s, p, w);
        Accept(conn, w);
        RunAppend(s0, events', Progress(s, p), HostAccepts(w));
        events' := events' + [HostAccepts(w)];
        assert toWrite[p..][w..] == toWrite[p + w..];
        p, i := p + w, i + 1;
      }
      NothingTaken(accepts[i..]);
      ProgressEnds(s, p, accepts);
    }

    lemma InArena(conn: TcpConn)
      requires Valid() && conn in all
      ensures conn.id < |View().arena| && View().arena[conn.id] == conn.View() && View().handler == handler
    {
      var i :| 0 <= i < |all| && all[i] == conn;
    }

    /** The socket takes `n` bytes. */
    ghost method Accept(conn: TcpConn, n: nat)
      requires Valid() && conn in all && handler.Finishing? && handler.conn == conn.id && 0 < n <= |handler.rem|
      requires !conn.shut
      modifies this`handler, conn`rest
      ensures Valid() && handler == old(handler).(rem := old(handler).rem[n..])
      ensures Enabled(old(View()), HostAccepts(n)) && View() == Next(old(View()), HostAccepts(n))
    {
      ghost var s := View();
      conn.rest := conn.rest.(written := conn.rest.written + handler.rem[..n]);
      handler := handler.(rem := handler.rem[n..]);
      assert View().arena == Next(s, HostAccepts(n)).arena;
    }

    /** The socket takes none of the remaining bytes. */
    ghost method Refuse(conn: TcpConn)
      requires Valid() && conn in all && handler.Finishing? && handler.conn == conn.id && handler.rem != []
      modifies this`handler, conn`rest
      ensures Valid() && handler == old(handler).(rem := [])
      ensures Enabled(old(View()), HostRefuses) && View() == Next(old(View()), HostRefuses)
    {
      ghost var s := View();
      conn.rest := conn.rest.(lost := true);
      handler := handler.(rem := []);
      assert View().arena == Next(s, HostRefuses).arena;
    }

    /** The answer, if one is due, goes out and the frame is done. */
    method Finish(conn: TcpConn, key: ConnKey, reply: Option<Answer>)
      requires Valid() && conn in all && handler.Finishing? && handler.conn == conn.id && handler.rem == []
      requires exists upTo :: handler.reply == Recorded(reply, upTo)
      modifies this`handler, this`tx, conn`rest
      ensures Valid() && handler.Idle?
      ensures Enabled(old(View()), FrameDone) && View() == Next(old(View()), FrameDone)
      ensures tx == old(tx) + FramesFor(gwMac, conn.guestMac, key, AsSeq(reply))
    {
      ghost var s := View();
      if reply.Some? {
        Emit(conn.guestMac, key, reply.value);
        conn.rest := conn.rest.(sent := conn.rest.sent + [handler.reply.value]);
      }
      handler := Idle;
      assert View().arena == Next(s, FrameDone).arena;
    }

    /** `handle_tcp`: one frame event, then the host's responses, then the answer. */
    method HandleTcp(ethSrc: mac, key: ConnKey, seg: TcpSegment, accepts: seq<int>)
      returns (ghost events: seq<Event>)
      requires Valid() && handler.Idle?
      modifies this, all
      ensures Valid() && handler.Idle?
      ensures Run(old(View()), events, View()) && HostOnly([Frame(key, seg)], events)
      ensures ViewWellFormed(old(View())) && View() == Handled(old(View()), key, seg, accepts)
      ensures tx == old(tx + Replies(ethSrc, key, seg))
    {
      hide HandleFrame, Run, AnswersTo, FrameFor, Offered, Next, Stack.View, Stack.Valid;
      ViewAt(key);
      ghost var s0 := View();
      var conn, toWrite, reply := Locked(ethSrc, key, seg);
      ViewAt(key);
      FrameIsNext(s0, key, seg);
      RunOne(s0, Frame(key, seg));
      events := [Frame(key, seg)];
      if conn == null {
        return;
      }
      events := WriteAll(conn, toWrite, accepts, s0, events);
      ghost var s := View();
      Finish(conn, key, reply);
      RunAppend(s0, events, s, FrameDone);
      events := events + [FrameDone];
    }

    /** `handle_frame`, for frames that carry TCP. */
    method GuestTx(frame: seq<byte>, accepts: seq<int>) returns (ghost events: seq<Event>)
      requires Valid() && handler.Idle?
      modifies this, all
      ensures Valid() && handler.Idle?
      ensures Run(old(View()), events, View())
      ensures ViewWellFormed(old(View()))
      ensures match FrameEvent(frame) case None => events == [] && View() == old(View()) && tx == old(tx)
              case Some(e) =>
                && HostOnly([e], events) && View() == Handled(old(View()), e.key, e.seg, accepts)
                && tx == old(tx) + old(Replies(DecodeFrame(frame).from, e.key, e.seg))
    {
      events := [];
      ViewAt(ConnKey(0, 0, 0, 0));
      match DecodeFrame(frame)
      case Ip4(ethSrc, proto, src, dst, payload) =>
        if proto == IP_TCP {
          match DecodeTcp(payload)
          case Some(seg) => events := HandleTcp(ethSrc, ConnKey(src, dst, seg.sport, seg.dport), seg, accepts);
          case None =>
        }
      case _ =>
    }
  }

  /** `after` extends `before` by responses of the host socket and the end of the frame only. */
  ghost predicate HostOnly(before: seq<Event>, after: seq<Event>) {
    before <= after
    && forall i :: |before| <= i < |after| ==> after[i].HostAccepts? || after[i].HostRefuses? || after[i].FrameDone?
  }
}
