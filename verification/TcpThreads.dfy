/** What a connection's own threads send, step after step, and with which flags. */
module TcpThreads {
  import opened Bytes
  import opened FrameCodec
  import opened TcpRelay
  import opened TcpRelayProofs

  // ----- each thread's way, as long as nothing interferes -----

  /** Bytes read from the host go out in one segment, PSH and ACK, numbered where the relay's side
      stood and acknowledging what is expected from the guest; then the thread reads on. */
  lemma ReadIsSent(c: Conn, data: seq<byte>)
    requires c.io == AtTop && !c.stop && 0 < |data| <= 1024
    ensures CanStep(c, CheckStop) && CanStep(Step(c, CheckStop), ReadBytes(data))
    ensures var c2 := Step(Step(c, CheckStop), ReadBytes(data));
            && CanStep(c2, ClaimData) && CanStep(Step(c2, ClaimData), LoadAck)
            && CanStep(Step(Step(c2, ClaimData), LoadAck), SendData)
            && var d := Step(Step(Step(c2, ClaimData), LoadAck), SendData);
               && d.io == AtTop && d.hNxt == U32(c.hNxt + |data|) && d.hostRead == c.hostRead + data
               && d.sent == c.sent + [Sent(0x18, c.hNxt, c.gNxt, data, c.Accepted())]
  {
    hide U32;
  }

  /** When the host hangs up on a connection that was not stopped, the thread owes a FIN. */
  lemma HangUpOwesFin(c: Conn)
    requires c.io == Polling && !c.stop
    ensures CanStep(c, HangUp) && CanStep(Step(c, HangUp), RecheckStop)
    ensures Step(Step(c, HangUp), RecheckStop) == c.(io := FinDue)
  {}

  /** One that is owed goes out, FIN and ACK, and is the thread's last segment. */
  lemma OwedFinGoesOut(c: Conn)
    requires c.io == FinDue
    ensures CanStep(c, ClaimFin) && CanStep(Step(c, ClaimFin), LoadFinAck)
    ensures var c2 := Step(Step(c, ClaimFin), LoadFinAck);
            && CanStep(c2, SendFin) && CanStep(Step(c2, SendFin), Retire)
            && var d := Step(Step(c2, SendFin), Retire);
               && d.hNxt == U32(c.hNxt + 1) && d.sent == c.sent + [Sent(0x11, c.hNxt, c.gNxt, [], c.Accepted())]
               && d.io == Retired
  {
    hide U32;
  }

  /** A stopped connection's thread reads nothing more once it looks, and sends no FIN. */
  lemma StopEndsThread(c: Conn)
    requires c.io == AtTop && c.stop
    ensures CanStep(c, CheckStop) && CanStep(Step(c, CheckStop), RecheckStop)
    ensures var d := Step(Step(c, CheckStop), RecheckStop);
            CanStep(d, Retire) && Step(d, Retire) == c.(io := Retired)
  {}

  /** A connect thread that succeeds sends SYN and ACK, with the number the relay's side starts at. */
  lemma ConnectSendsSynAck(key: ConnKey, guestSeq: uint32)
    ensures var c := OutboundConn(key, guestSeq);
            && CanStep(c, SetSocket) && CanStep(Step(c, SetSocket), Announce)
            && CanStep(Step(Step(c, SetSocket), Announce), ClaimSyn)
            && var c3 := Step(Step(Step(c, SetSocket), Announce), ClaimSyn);
               && CanStep(c3, LoadSynAck) && CanStep(Step(c3, LoadSynAck), SendSynAck)
               && var d := Step(Step(c3, LoadSynAck), SendSynAck);
                  && d.state == SynAckSent && d.fd && d.hNxt == 0x4000_0001
                  && d.sent == [Sent(0x12, 0x4000_0000, U32(guestSeq + 1), [], Coverage(0, 0))]
  {}

  // ----- the I/O thread's next step -----

  /** The steps of an I/O thread that is not waiting for the host: where it stands and whether the
      connection is stopped decide which one is possible. */
  lemma OneStepPossible(c: Conn, t: ThreadStep)
    requires CanStep(c, t) && !c.io.Polling?
    requires t == CheckStop || t.ReadBytes? || t == PollTimesOut || t == HangUp || t == ClaimData || t == LoadAck
             || t == SendData || t == RecheckStop || t == ClaimFin || t == LoadFinAck || t == SendFin || t == Retire
    ensures forall u :: CanStep(c, u) && u != t ==> u == DialFails || u == SetSocket || u == Announce || u == ClaimSyn
                                                    || u == LoadSynAck || u == SendSynAck || u == SendSyn || u == GiveUp
  {}

  // ----- flags, over every run -----

  /** Data carries PSH and ACK; the segments without data are SYN, ACK, SYN+ACK and FIN+ACK. */
  predicate Flagged(m: Sent) {
    if m.data != [] then m.flags == 0x18
    else m.flags == 0x02 || m.flags == 0x10 || m.flags == 0x11 || m.flags == 0x12
  }

  ghost predicate AllFlagged(s: Relay) {
    && (forall id, m :: 0 <= id < |s.arena| && m in s.arena[id].sent ==> Flagged(m))
    && (s.handler.Finishing? && s.handler.reply.Some? ==> Flagged(s.handler.reply.value))
    && (forall m :: m in s.resets ==> m.flags == 0x04 && m.data == [])
  }

  lemma StepFlagged(c: Conn, t: ThreadStep)
    requires CanStep(c, t) && HostSide(c) && forall m :: m in c.sent ==> Flagged(m)
    ensures forall m :: m in Step(c, t).sent ==> Flagged(m)
  {
    hide U32, Conn.Accepted, Tiles, Span, Payloads, DataClaims, SentData, InFlight;
    match t
    case SendSynAck =>
    case SendSyn =>
    case SendData =>
    case SendFin =>
    case ClaimSyn =>
    case ClaimData =>
    case ClaimFin =>
    case LoadAck =>
    case _ =>
  }

  lemma FrameChangesFlagged(c: Conn, seg: TcpSegment)
    requires forall m :: m in c.sent ==> Flagged(m)
    ensures forall m :: m in Establish(c).sent || m in EstablishSynAck(c, seg.seqno).sent ==> Flagged(m)
    ensures forall m :: m in AcceptData(c, seg).sent || m in AcceptFin(AcceptData(c, seg)).sent ==> Flagged(m)
  {
    hide U32;
  }

  lemma FrameKeepsFlags(s: Relay, key: ConnKey, seg: TcpSegment)
    requires Inv(s) && s.handler.Idle? && AllFlagged(s)
    ensures AllFlagged(HandleFrame(s, key, seg))
  {
    hide ConnInv, Establish, EstablishSynAck, AcceptData, AcceptFin, Has, U32, Reap, Flagged;
    ReapKeepsInv(s);
    assert Reap(s).resets == s.resets by {
      ReapKeepsResets(s);
    }
    RepliesFlagged();
    if key in Reap(s).conns {
      FrameChangesFlagged(s.arena[Reap(s).conns[key]], seg);
    }
  }

  lemma ReapKeepsResets(s: Relay)
    ensures Reap(s).resets == s.resets
  {}

  lemma RepliesFlagged()
    ensures forall m: Sent :: m.data == [] && (m.flags == FIN + ACK || m.flags == ACK) ==> Flagged(m)
  {}

  lemma NextKeepsFlags(s: Relay, e: Event)
    requires Inv(s) && Enabled(s, e) && AllFlagged(s)
    ensures AllFlagged(Next(s, e))
  {
    hide ConnInv, HandleFrame, Step, CanStep, Flagged;
    match e
    case Frame(key, seg) => FrameKeepsFlags(s, key, seg);
    case Thread(id, t) =>
      assert ConnInv(s.arena[id], Rest(s.handler, id));
      SideOf(s.arena[id], Rest(s.handler, id));
      StepFlagged(s.arena[id], t);
    case _ =>
  }

  lemma SideOf(c: Conn, rest: seq<byte>)
    requires ConnInv(c, rest)
    ensures HostSide(c)
  {}

  lemma {:induction false} RunKeepsFlags(s0: Relay, events: seq<Event>, s: Relay)
    requires Inv(s0) && AllFlagged(s0) && Run(s0, events, s)
    ensures AllFlagged(s)
    decreases |events|
  {
    if events != [] {
      hide Inv, AllFlagged, Enabled, Next;
      NextKeepsInv(s0, events[0]);
      NextKeepsFlags(s0, events[0]);
      RunKeepsFlags(Next(s0, events[0]), events[1..], s);
    }
  }

  /** Over every run, each segment the relay sends carries exactly the flags of its kind. */
  lemma SegmentsCarryTheirFlags(events: seq<Event>, s: Relay)
    requires Run(INIT, events, s)
    ensures forall id, m :: 0 <= id < |s.arena| && m in s.arena[id].sent ==> Flagged(m)
    ensures forall m :: m in s.resets ==> m.flags == 0x04 && m.data == []
  {
    hide Run, Flagged;
    RunKeepsFlags(INIT, events, s);
  }

  // ----- the end of reading -----

  /** The I/O thread has left its reading loop. */
  predicate Through(io: Io) {
    io.LeftLoop? || io.FinDue? || io.FinClaimed? || io.FinLoaded? || io.Retiring? || io.Retired?
  }

  /** Since `c` nothing has been read from the host, and nothing will be. */
  predicate ReadNoMore(c: Conn, d: Conn) {
    Through(d.io) && d.hostRead == c.hostRead && Unclaimed(d.io) == [] && InFlight(d.io) == []
  }

  lemma StepReadsNoMore(c: Conn, d: Conn, t: ThreadStep)
    requires CanStep(d, t) && ReadNoMore(c, d)
    ensures ReadNoMore(c, Step(d, t))
  {
    hide U32, Conn.Accepted;
    match t
    case ClaimSyn =>
    case ClaimFin =>
    case SendFin =>
    case _ =>
  }

  lemma FrameReadsNoMore(c: Conn, d: Conn, seg: TcpSegment)
    requires ReadNoMore(c, d)
    ensures ReadNoMore(c, d.(stop := true))
    ensures ReadNoMore(c, AcceptData(d, seg)) && ReadNoMore(c, AcceptFin(AcceptData(d, seg)))
  {
    hide U32;
  }

  lemma FrameKeepsReadNoMore(s: Relay, key: ConnKey, seg: TcpSegment, id: nat, c: Conn)
    requires Inv(s) && s.handler.Idle? && id < |s.arena| && ReadNoMore(c, s.arena[id])
    requires s.arena[id].state == Established
    ensures id < |HandleFrame(s, key, seg).arena| && ReadNoMore(c, HandleFrame(s, key, seg).arena[id])
  {
    hide ConnInv, AcceptData, AcceptFin, Establish, EstablishSynAck, OutboundConn, Has, ReadNoMore, Reap;
    ReapKeepsInv(s);
    FrameReadsNoMore(c, s.arena[id], seg);
  }

  lemma NextReadsNoMore(s: Relay, e: Event, id: nat, c: Conn)
    requires Inv(s) && Enabled(s, e) && id < |s.arena| && ReadNoMore(c, s.arena[id])
    ensures id < |Next(s, e).arena| && ReadNoMore(c, Next(s, e).arena[id])
  {
    assert ConnInv(s.arena[id], Rest(s.handler, id));
    EstablishedOnceThrough(s.arena[id], Rest(s.handler, id));
    hide Inv, ConnInv, HandleFrame, Step, CanStep, ReadNoMore;
    match e
    case Frame(key, seg) => FrameKeepsReadNoMore(s, key, seg, id, c);
    case Thread(i, t) =>
      if i == id {
        StepReadsNoMore(c, s.arena[id], t);
      }
    case _ => HostReadsNoMore(c, s.arena[id]);
  }

  lemma EstablishedOnceThrough(c: Conn, rest: seq<byte>)
    requires ConnInv(c, rest)
    ensures Through(c.io) ==> c.state == Established
  {}

  lemma HostReadsNoMore(c: Conn, d: Conn)
    requires ReadNoMore(c, d)
    ensures forall w, l, m ::
              ReadNoMore(c, d.(written := w)) && ReadNoMore(c, d.(lost := l)) && ReadNoMore(c, d.(sent := m))
  {}

  /** Once the I/O thread has left its loop, as it has when it takes a number for its own FIN,
      nothing more is read from the host: that FIN comes behind everything read. */
  lemma ReadingEnds(s0: Relay, events: seq<Event>, s: Relay, id: nat)
    requires Inv(s0) && Run(s0, events, s) && id < |s0.arena| && Through(s0.arena[id].io)
    ensures id < |s.arena| && ReadNoMore(s0.arena[id], s.arena[id])
  {
    hide Inv, Run;
    RunReadsNoMore(s0, events, s, id, s0.arena[id]);
  }

  lemma {:induction false} RunReadsNoMore(s0: Relay, events: seq<Event>, s: Relay, id: nat, c: Conn)
    requires Inv(s0) && Run(s0, events, s) && id < |s0.arena| && ReadNoMore(c, s0.arena[id])
    ensures id < |s.arena| && ReadNoMore(c, s.arena[id])
    decreases |events|
  {
    if events != [] {
      hide Inv, ReadNoMore, Enabled, Next;
      NextKeepsInv(s0, events[0]);
      NextReadsNoMore(s0, events[0], id, c);
      RunReadsNoMore(Next(s0, events[0]), events[1..], s, id, c);
    }
  }

  // ----- how connections leave the map -----

  /** A dial that fails, and a port forward that gives up, take their connection out of the map. */
  lemma FailureRemoves(s: Relay, id: nat, t: ThreadStep)
    requires Enabled(s, Thread(id, t)) && (t == DialFails || t == GiveUp)
    ensures s.arena[id].key !in Next(s, Thread(id, t)).conns
    ensures forall k :: k != s.arena[id].key ==> (k in Next(s, Thread(id, t)).conns <==> k in s.conns)
  {
    hide Step, CanStep;
  }

  /** An I/O thread that retires queues its connection's key, and the next frame handled takes it
      out of the map, unless that frame opens a connection of the same key. */
  lemma RetiredIsReaped(s: Relay, id: nat, key: ConnKey, seg: TcpSegment)
    requires Enabled(s, Thread(id, Retire)) && Enabled(Next(s, Thread(id, Retire)), Frame(key, seg))
    ensures var t := Next(Next(s, Thread(id, Retire)), Frame(key, seg));
            && t.done == []
            && (s.arena[id].key in t.conns ==> s.arena[id].key == key && t.conns[key] == |s.arena|)
  {
    hide Has, U32, AcceptFin, AcceptData, Establish, EstablishSynAck, OutboundConn, Step, CanStep;
    KeyStays(s.arena[id]);
  }

  lemma KeyStays(c: Conn)
    requires CanStep(c, Retire)
    ensures Step(c, Retire).key == c.key
  {}
}
