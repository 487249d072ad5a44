/** What a guest's segment brings about: the frames that answer it, byte by byte, and the bytes
    the host socket gets. */
module TcpAnswers {
  import opened Bytes
  import opened FrameCodec
  import opened TcpRelay
  import opened TcpRelayProofs
  import opened TcpClosing
  import opened TcpStack

  // ----- the flags, as RFC 9293 numbers them -----

  predicate FinBit(seg: TcpSegment) {
    seg.flags % 2 == 1
  }

  predicate SynBit(seg: TcpSegment) {
    seg.flags / 2 % 2 == 1
  }

  predicate RstBit(seg: TcpSegment) {
    seg.flags / 4 % 2 == 1
  }

  predicate AckBit(seg: TcpSegment) {
    seg.flags / 16 % 2 == 1
  }

  lemma FlagBits(seg: TcpSegment)
    ensures Has(seg.flags, FIN) <==> FinBit(seg)
    ensures Has(seg.flags, SYN) <==> SynBit(seg)
    ensures Has(seg.flags, RST) <==> RstBit(seg)
    ensures Has(seg.flags, ACK) <==> AckBit(seg)
  {}

  predicate Opens(seg: TcpSegment) {
    SynBit(seg) && !AckBit(seg)
  }

  /** A connection that a segment for `key` finds. */
  predicate Live(s: Relay, key: ConnKey, id: nat) {
    key in s.conns && key !in s.done && s.conns[key] == id && id < |s.arena|
  }

  // ----- the frames that answer -----

  /** A frame of 54 bytes from the relay's address to the guest's: a bare segment. */
  ghost predicate IsAnswer(f: seq<byte>, gwMac: mac, dst: mac, key: ConnKey, flags: byte, seqno: uint32,
                           ackno: uint32)
  {
    && |f| == 54 && IpLaid(f, dst, gwMac, key.dip, key.sip, 6)
    && Holds(f, 34, Be16(key.dp)) && Holds(f, 36, Be16(key.sp))
    && Holds(f, 38, Be32(seqno)) && Holds(f, 42, Be32(ackno)) && Holds(f, 46, [0x50, flags])
  }

  /** The frames are one answer with these flags and numbers. */
  ghost predicate OneAnswer(fs: seq<seq<byte>>, gwMac: mac, dst: mac, key: ConnKey, flags: byte, seqno: uint32,
                            ackno: uint32)
  {
    |fs| == 1 && IsAnswer(fs[0], gwMac, dst, key, flags, seqno, ackno)
  }

  lemma AnswerLaid(gwMac: mac, dst: mac, key: ConnKey, a: Answer)
    ensures OneAnswer(FramesFor(gwMac, dst, key, [a]), gwMac, dst, key, a.flags, a.seqno, a.ackno)
  {
    hide TcpFrame, IpLaid, Be16, Be32;
    OneFrame(gwMac, dst, key, a);
    TcpLayout(dst, gwMac, key.dip, key.sip, SegmentFor(key, a));
  }

  lemma LiveAfterReap(s: Relay, key: ConnKey)
    requires ViewWellFormed(s)
    ensures key in Reap(s).conns <==> key in s.conns && key !in s.done
    ensures key in Reap(s).conns ==> Reap(s).conns[key] == s.conns[key]
    ensures ViewWellFormed(Reap(s)) && Reap(s).arena == s.arena && Reap(s).done == []
  {}

  /** Data is acknowledged: with the number after it when it was next in order, and otherwise
      with the number still expected. */
  lemma DataIsAcknowledged(gwMac: mac, dst: mac, s: Relay, key: ConnKey, seg: TcpSegment, id: nat)
    requires ViewWellFormed(s) && Live(s, key, id) && s.arena[id].state == Established
    requires seg.data != [] && !FinBit(seg) && !RstBit(seg) && !Opens(seg)
    ensures var c := s.arena[id];
            OneAnswer(FramesFor(gwMac, dst, key, AnswersTo(s, key, seg)), gwMac, dst, key, 0x10, c.hNxt,
                      if seg.seqno == c.gNxt then U32(c.gNxt + |seg.data|) else c.gNxt)
  {
    hide U32, Reap, FramesFor, OneAnswer;
    FlagBits(seg);
    LiveAfterReap(s, key);
    hide Has;
    AnswerLaid(gwMac, dst, key, AnswersTo(s, key, seg)[0]);
  }

  /** A FIN is answered by one, numbered `h_nxt`, that acknowledges one number more than the data. */
  lemma FinIsAcknowledged(gwMac: mac, dst: mac, s: Relay, key: ConnKey, seg: TcpSegment, id: nat)
    requires ViewWellFormed(s) && Live(s, key, id) && s.arena[id].state == Established
    requires FinBit(seg) && !RstBit(seg) && !Opens(seg)
    ensures var c := s.arena[id];
            OneAnswer(FramesFor(gwMac, dst, key, AnswersTo(s, key, seg)), gwMac, dst, key, 0x11, c.hNxt,
                      U32((if seg.data != [] && seg.seqno == c.gNxt then U32(c.gNxt + |seg.data|) else c.gNxt) + 1))
  {
    hide U32, Reap, FramesFor, OneAnswer;
    FlagBits(seg);
    LiveAfterReap(s, key);
    hide Has;
    AnswerLaid(gwMac, dst, key, AnswersTo(s, key, seg)[0]);
  }

  /** A SYN+ACK to the relay's SYN is acknowledged with the number after it. */
  lemma SynAckIsAcknowledged(gwMac: mac, dst: mac, s: Relay, key: ConnKey, seg: TcpSegment, id: nat)
    requires ViewWellFormed(s) && Live(s, key, id) && s.arena[id].state == SynAckSent
    requires SynBit(seg) && AckBit(seg) && !RstBit(seg)
    ensures OneAnswer(FramesFor(gwMac, dst, key, AnswersTo(s, key, seg)), gwMac, dst, key, 0x10, s.arena[id].hNxt,
                      U32(seg.seqno + 1))
  {
    hide U32, Reap, FramesFor, OneAnswer;
    FlagBits(seg);
    LiveAfterReap(s, key);
    hide Has;
    AnswerLaid(gwMac, dst, key, AnswersTo(s, key, seg)[0]);
  }

  /** A segment for no live connection is answered by a reset numbered as the segment's ack number. */
  lemma UnknownIsReset(gwMac: mac, dst: mac, s: Relay, key: ConnKey, seg: TcpSegment)
    requires ViewWellFormed(s) && (key !in s.conns || key in s.done) && !RstBit(seg) && !Opens(seg)
    ensures OneAnswer(FramesFor(gwMac, dst, key, AnswersTo(s, key, seg)), gwMac, dst, key, 0x04, seg.ackno, 0)
  {
    hide U32, Reap, FramesFor, OneAnswer;
    FlagBits(seg);
    LiveAfterReap(s, key);
    hide Has;
    AnswerLaid(gwMac, dst, key, AnswersTo(s, key, seg)[0]);
  }

  /** Nothing else is answered at once: a SYN (its SYN+ACK comes from the connect thread), a
      reset, the ACK that ends a handshake, anything before the handshake, and a bare ACK. */
  lemma OthersAreNotAnswered(gwMac: mac, dst: mac, s: Relay, key: ConnKey, seg: TcpSegment)
    requires ViewWellFormed(s)
    requires var live := key in s.conns && key !in s.done;
             || Opens(seg) || RstBit(seg)
             || (live && s.arena[s.conns[key]].state == Connecting)
             || (live && s.arena[s.conns[key]].state == SynAckSent && !SynBit(seg))
             || (live && s.arena[s.conns[key]].state == Established && seg.data == [] && !FinBit(seg))
    ensures FramesFor(gwMac, dst, key, AnswersTo(s, key, seg)) == []
  {
    hide U32, Reap, FrameFor;
    FlagBits(seg);
    LiveAfterReap(s, key);
    hide Has;
  }

  /** A reset takes the connection out of the map and stops its thread, and touches no other. */
  lemma ResetRemoves(s: Relay, key: ConnKey, seg: TcpSegment, id: nat)
    requires ViewWellFormed(s) && Live(s, key, id) && RstBit(seg) && !Opens(seg)
    ensures var t := HandleFrame(s, key, seg);
            && key !in t.conns && t.arena == s.arena[id := s.arena[id].(stop := true)]
            && t.handler == s.handler && t.resets == s.resets
            && forall k :: k != key ==> (k in t.conns <==> k in s.conns && k !in s.done)
                                        && (k in t.conns ==> t.conns[k] == s.conns[k])
  {
    FlagBits(seg);
    hide Has;
  }

  /** A SYN for a new key opens a connection that expects the number after it and will number its
      own side from 0x40000000. */
  lemma SynOpensConnection(s: Relay, key: ConnKey, seg: TcpSegment)
    requires ViewWellFormed(s) && (key !in s.conns || key in s.done) && Opens(seg)
    ensures var t := HandleFrame(s, key, seg);
            && |t.arena| == |s.arena| + 1 && t.arena[..|s.arena|] == s.arena
            && key in t.conns && t.conns[key] == |s.arena|
            && var c := t.arena[|s.arena|];
               c.key == key && c.state == Connecting && c.gNxt == U32(seg.seqno + 1) && c.hNxt == 0x4000_0000
  {
    FlagBits(seg);
    hide Has, U32;
  }

  /** The ACK that ends a handshake, with or without a SYN, launches the I/O thread; nothing else
      does. */
  lemma AckEndsHandshake(s: Relay, key: ConnKey, seg: TcpSegment, id: nat)
    requires ViewWellFormed(s) && Live(s, key, id) && s.arena[id].state == SynAckSent && !RstBit(seg) && !Opens(seg)
    ensures var c, d := s.arena[id], HandleFrame(s, key, seg).arena[id];
            if AckBit(seg) then
              d.state == Established && d.io == AtTop && d.gNxt == if SynBit(seg) then U32(seg.seqno + 1) else c.gNxt
            else d == c
  {
    FlagBits(seg);
    hide Has, U32;
  }

  // ----- what the host socket gets -----

  /** The bytes that calls of `write` take before the first that fails. */
  function Capacity(accepts: seq<int>): nat {
    if accepts == [] || accepts[0] <= 0 then 0 else accepts[0] + Capacity(accepts[1..])
  }

  /** The loop writes as much as the calls before the first failing one would take. */
  lemma {:induction false} LoopWritesCapacity(accepts: seq<int>, n: nat)
    ensures HostTakes(accepts, n) == Min(n, Capacity(accepts))
    decreases |accepts|
  {
    if n > 0 && accepts != [] && accepts[0] > 0 {
      LoopWritesCapacity(accepts[1..], n - Min(accepts[0], n));
    }
  }

  /** The relay's states that some run leads to. */
  ghost predicate Reachable(events: seq<Event>, s: Relay) {
    Run(INIT, events, s)
  }

  lemma ReachableLive(events: seq<Event>, s: Relay, key: ConnKey, id: nat)
    requires Reachable(events, s) && Live(s, key, id) && s.arena[id].state == Established
    ensures Inv(s) && ViewWellFormed(s) && s.arena[id].fd && !s.arena[id].shut && s.arena[id].key == key
  {
    hide Run, ConnInv;
    InitClosing(id);
    RunKeepsClosing(INIT, events, s, id, []);
    LiveConn(s, key);
    TcpClosing.SocketSet(s.arena[id]);
  }

  /** Between frames the handler is idle; a segment for an established connection is then taken
      in, offered to the host socket, and answered. */
  lemma HandledEstablished(events: seq<Event>, s: Relay, key: ConnKey, seg: TcpSegment, accepts: seq<int>, id: nat)
    requires Reachable(events, s) && s.handler.Idle? && Live(s, key, id) && s.arena[id].state == Established
    requires !RstBit(seg) && !Opens(seg)
    ensures ViewWellFormed(s)
    ensures var t := Handled(s, key, seg, accepts);
            var d := if FinBit(seg) then AcceptFin(AcceptData(s.arena[id], seg)) else AcceptData(s.arena[id], seg);
            var rem := if InOrder(s.arena[id], seg) then seg.data else [];
            var k := if d.shut then 0 else HostTakes(accepts, |rem|);
            && t.handler.Idle? && |t.arena| == |s.arena|
            && t.arena[id] == d.(written := d.written + rem[..k], lost := d.lost || k < |rem|, sent := t.arena[id].sent)
            && forall j :: 0 <= j < |s.arena| && j != id ==> t.arena[j] == s.arena[j]
  {
    ReachableLive(events, s, key, id);
    FlagBits(seg);
    LiveAfterReap(s, key);
    DeliveredTo(Reap(s), key, seg, id);
    hide Has, U32, HostTakes, AcceptData, AcceptFin, InOrder, Reap, Deliver, Inv, HandleFrame, Run;
    OnReaped(s, key, seg);
    hide Next, Offered;
    Settled(Deliver(Reap(s), id, seg), accepts);
  }

  lemma Settled(u: Relay, accepts: seq<int>)
    requires u.handler.Finishing? && u.handler.conn < |u.arena|
    ensures Enabled(Offered(u, accepts), FrameDone)
    ensures var t, id, rem := Next(Offered(u, accepts), FrameDone), u.handler.conn, u.handler.rem;
            var d := u.arena[id];
            var k := if d.shut then 0 else HostTakes(accepts, |rem|);
            && t.handler.Idle? && |t.arena| == |u.arena|
            && t.arena[id] == d.(written := d.written + rem[..k], lost := d.lost || k < |rem|, sent := t.arena[id].sent)
            && forall j :: 0 <= j < |u.arena| && j != id ==> t.arena[j] == u.arena[j]
  {
    hide HostTakes;
  }

  lemma OnReaped(s: Relay, key: ConnKey, seg: TcpSegment)
    requires ViewWellFormed(s) && key in Reap(s).conns && ViewWellFormed(Reap(s))
    requires !Has(seg.flags, RST) && (Has(seg.flags, SYN) ==> Has(seg.flags, ACK))
    requires s.arena[Reap(s).conns[key]].state == Established
    ensures HandleFrame(s, key, seg) == Deliver(Reap(s), Reap(s).conns[key], seg)
  {
    hide Has, Deliver;
  }

  lemma DeliveredTo(r: Relay, key: ConnKey, seg: TcpSegment, id: nat)
    requires id < |r.arena| && r.arena[id].fd && r.arena[id].key == key
    ensures var t := Deliver(r, id, seg);
            var c1 := AcceptData(r.arena[id], seg);
            var d := if Has(seg.flags, FIN) then AcceptFin(c1) else c1;
            && t.handler.Finishing? && t.handler.conn == id && t.arena == r.arena[id := d]
            && t.handler.rem == if InOrder(r.arena[id], seg) then seg.data else []
  {
    hide U32, Has;
  }

  /** In every reachable state, in-order data without a FIN is written to the host socket up to
      the first failing `write`, and exactly that much; the rest, if any, is lost. No other
      connection's bytes are touched. */
  lemma DataIsWritten(events: seq<Event>, s: Relay, key: ConnKey, seg: TcpSegment, accepts: seq<int>, id: nat)
    requires Reachable(events, s) && s.handler.Idle? && Live(s, key, id) && s.arena[id].state == Established
    requires seg.data != [] && seg.seqno == s.arena[id].gNxt && !FinBit(seg) && !RstBit(seg) && !Opens(seg)
    ensures ViewWellFormed(s)
    ensures var c, t := s.arena[id], Handled(s, key, seg, accepts);
            var k := Min(|seg.data|, Capacity(accepts));
            && |t.arena| == |s.arena| && t.arena[id].accepted == c.accepted + seg.data
            && t.arena[id].written == c.written + seg.data[..k]
            && t.arena[id].lost == (c.lost || k < |seg.data|)
            && (Capacity(accepts) >= |seg.data| ==> t.arena[id].written == c.written + seg.data
                                                    && t.arena[id].lost == c.lost)
            && forall j :: 0 <= j < |s.arena| && j != id ==> t.arena[j] == s.arena[j]
  {
    hide Reachable, HandleFrame, Handled, HostTakes, U32;
    ReachableLive(events, s, key, id);
    hide Inv;
    HandledEstablished(events, s, key, seg, accepts, id);
    LoopWritesCapacity(accepts, |seg.data|);
    assert seg.data[..|seg.data|] == seg.data;
  }

  /** Out-of-order data and the data of a FIN are not written. */
  lemma NothingElseIsWritten(events: seq<Event>, s: Relay, key: ConnKey, seg: TcpSegment, accepts: seq<int>, id: nat)
    requires Reachable(events, s) && s.handler.Idle? && Live(s, key, id) && s.arena[id].state == Established
    requires seg.data == [] || seg.seqno != s.arena[id].gNxt || FinBit(seg)
    requires !RstBit(seg) && !Opens(seg)
    ensures ViewWellFormed(s) && |Handled(s, key, seg, accepts).arena| == |s.arena|
    ensures Handled(s, key, seg, accepts).arena[id].written == s.arena[id].written
  {
    hide Reachable, HandleFrame, Handled, HostTakes, U32;
    ReachableLive(events, s, key, id);
    hide Inv;
    HandledEstablished(events, s, key, seg, accepts, id);
    var none: seq<byte> := [];
    assert s.arena[id].written + none == s.arena[id].written;
  }
}
