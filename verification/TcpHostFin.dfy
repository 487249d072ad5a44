/** What a FIN towards the guest cuts off from the host's stream: a receiver takes nothing that
    is numbered after the first FIN, and the frame handler claims a FIN's number whatever the
    I/O thread still holds. */
module TcpHostFin {
  import opened Bytes
  import opened FrameCodec
  import opened TcpRelay
  import opened TcpRelayProofs
  import opened TcpStreams

  predicate NoFin(claims: seq<Claim>) {
    forall k :: k in claims ==> !k.kind.FinByte?
  }

  /** Connection `id` as it was when an event claimed its first FIN, if the event does. */
  function CutAt(s: Relay, e: Event, id: nat): (cuts: seq<Conn>)
    requires Enabled(s, e)
    ensures |cuts| <= 1
  {
    var t := Next(s, e);
    if id < |s.arena| && id < |t.arena| && NoFin(s.arena[id].claims) && !NoFin(t.arena[id].claims)
    then [s.arena[id]] else []
  }

  /** Over a whole run. */
  function CutsOf(s0: Relay, events: seq<Event>, s: Relay, id: nat): seq<Conn>
    requires Run(s0, events, s)
    decreases |events|
  {
    if events == [] then []
    else CutAt(s0, events[0], id) + CutsOf(Next(s0, events[0]), events[1..], s, id)
  }

  // ----- histories only grow, one range at a time -----

  predicate Grows(c: Conn, d: Conn) {
    && d.isn == c.isn && c.hostRead <= d.hostRead && c.claims <= d.claims && |d.claims| <= |c.claims| + 1
    && (|d.claims| > |c.claims| ==>
          var k := d.claims[|c.claims|];
          k.seqno == c.hNxt && (k.kind.FinByte? ==> k == Claim(FinByte, c.hNxt, [])))
  }

  lemma FrameChangesGrow(c: Conn, seg: TcpSegment)
    ensures Grows(c, c) && Grows(c, c.(stop := true))
    ensures Grows(c, Establish(c)) && Grows(c, EstablishSynAck(c, seg.seqno))
    ensures Grows(c, AcceptData(c, seg)) && Grows(c, AcceptFin(AcceptData(c, seg)))
  {}

  lemma StepGrows(c: Conn, t: ThreadStep)
    requires CanStep(c, t)
    ensures Grows(c, Step(c, t))
  {
    hide U32, Conn.Accepted;
    match t
    case ReadBytes(data) =>
    case ClaimSyn =>
    case ClaimData =>
    case ClaimFin =>
    case LoadAck =>
    case SendData =>
    case SendFin =>
    case _ =>
  }

  lemma FrameGrows(s: Relay, key: ConnKey, seg: TcpSegment, id: nat)
    requires Inv(s) && s.handler.Idle? && id < |s.arena|
    ensures id < |HandleFrame(s, key, seg).arena| && Grows(s.arena[id], HandleFrame(s, key, seg).arena[id])
  {
    hide Grows, ConnInv, Establish, EstablishSynAck, AcceptData, AcceptFin, OutboundConn, Has, Reap;
    ReapKeepsInv(s);
    FrameChangesGrow(s.arena[id], seg);
  }

  lemma NextGrows(s: Relay, e: Event, id: nat)
    requires Inv(s) && Enabled(s, e) && id < |s.arena|
    ensures id < |Next(s, e).arena| && Grows(s.arena[id], Next(s, e).arena[id])
  {
    hide Inv, ConnInv, HandleFrame, Step;
    match e
    case Frame(key, seg) => FrameGrows(s, key, seg, id);
    case Thread(i, t) => StepGrows(s.arena[i], t);
    case _ =>
  }

  lemma NewHasNoFin(key: ConnKey, n: uint32)
    ensures NoFin(OutboundConn(key, n).claims) && NoFin(InboundConn(key, n).claims)
  {}

  lemma FreshHasNoFin(s: Relay, e: Event)
    requires Inv(s) && Enabled(s, e)
    ensures |Next(s, e).arena| <= |s.arena| + 1
    ensures |Next(s, e).arena| > |s.arena| ==> NoFin(Next(s, e).arena[|s.arena|].claims)
  {
    hide Inv, ConnInv, Step, OutboundConn, InboundConn, Has, Deliver, NoFin;
    match e
    case Frame(key, seg) =>
      NewHasNoFin(key, seg.seqno);
      DeliverAddsNone(s, seg);
    case OpenInbound(key, isn) => NewHasNoFin(key, isn);
    case _ =>
  }

  lemma DeliverAddsNone(s: Relay, seg: TcpSegment)
    ensures forall r: Relay, id: nat | id < |r.arena| :: |Deliver(r, id, seg).arena| == |r.arena|
  {}

  // ----- the first FIN divides the ranges -----

  /** The ranges before the first FIN are those claimed when it was. */
  ghost predicate CutBy(c: Conn, at: Conn) {
    && HostSide(at) && NoFin(at.claims) && c.isn == at.isn && at.hostRead <= c.hostRead
    && at.claims < c.claims && c.claims[|at.claims|] == Claim(FinByte, at.hNxt, [])
  }

  ghost predicate Cut(c: Conn, cuts: seq<Conn>) {
    if cuts == [] then NoFin(c.claims) else |cuts| == 1 && CutBy(c, cuts[0])
  }

  ghost predicate CutInv(s: Relay, id: nat, cuts: seq<Conn>) {
    Inv(s) && if id < |s.arena| then Cut(s.arena[id], cuts) else cuts == []
  }

  lemma GrowthKeepsCut(c: Conn, d: Conn, cuts: seq<Conn>)
    requires HostSide(c) && Grows(c, d) && Cut(c, cuts)
    ensures Cut(d, cuts + if NoFin(c.claims) && !NoFin(d.claims) then [c] else [])
  {
    hide HostSide;
    if cuts == [] {
      if !NoFin(d.claims) {
        var k :| k in d.claims && k.kind.FinByte?;
        assert d.claims == c.claims + d.claims[|c.claims|..];
      }
    } else {
      assert c.claims[|cuts[0].claims|] in c.claims;
      assert d.claims[|cuts[0].claims|] == c.claims[|cuts[0].claims|];
    }
  }

  lemma OldKeepsCut(s: Relay, e: Event, id: nat, cuts: seq<Conn>)
    requires Inv(s) && Enabled(s, e) && id < |s.arena| && Cut(s.arena[id], cuts)
    ensures id < |Next(s, e).arena| && Cut(Next(s, e).arena[id], cuts + CutAt(s, e, id))
  {
    hide Next, Enabled, Grows, NoFin, Cut, HostSide, Lifecycle, GuestSide, Writes;
    assert ConnInv(s.arena[id], Rest(s.handler, id));
    hide Inv;
    NextGrows(s, e, id);
    GrowthKeepsCut(s.arena[id], Next(s, e).arena[id], cuts);
  }

  lemma NextKeepsCut(s: Relay, e: Event, id: nat, cuts: seq<Conn>)
    requires CutInv(s, id, cuts) && Enabled(s, e)
    ensures CutInv(Next(s, e), id, cuts + CutAt(s, e, id))
  {
    hide Inv, Next, Enabled, NoFin, CutBy;
    NextKeepsInv(s, e);
    if id < |s.arena| {
      OldKeepsCut(s, e, id, cuts);
    } else {
      FreshHasNoFin(s, e);
      assert cuts + CutAt(s, e, id) == [];
    }
  }

  lemma {:induction false} RunKeepsCut(s0: Relay, events: seq<Event>, s: Relay, id: nat, cuts: seq<Conn>)
    requires CutInv(s0, id, cuts) && Run(s0, events, s)
    ensures CutInv(s, id, cuts + CutsOf(s0, events, s, id))
    decreases |events|
  {
    hide CutInv, CutAt, Enabled, Next;
    if events == [] {
      assert cuts + [] == cuts;
    } else {
      var e, now := events[0], CutAt(s0, events[0], id);
      NextKeepsCut(s0, e, id, cuts);
      RunKeepsCut(Next(s0, e), events[1..], s, id, cuts + now);
      assert cuts + now + CutsOf(Next(s0, e), events[1..], s, id) == cuts + CutsOf(s0, events, s, id);
    }
  }

  lemma InitCut(id: nat)
    ensures CutInv(INIT, id, [])
  {}

  // ----- what a receiver gets -----

  /** The segments numbered below a FIN, which are all a receiver takes. */
  ghost function Below(isn: uint32, segs: set<Claim>, fin: uint32): set<Claim> {
    set k | k in segs && Rel(isn, k.seqno) < Rel(isn, fin)
  }

  lemma {:induction false} DataClaimsConcat(a: seq<Claim>, b: seq<Claim>)
    ensures DataClaims(a + b) == DataClaims(a) + DataClaims(b)
    decreases |b|
  {
    if b == [] {
      assert a + b == a;
    } else {
      var n := |b| - 1;
      assert (a + b)[..|a + b| - 1] == a + b[..n];
      DataClaimsConcat(a, b[..n]);
    }
  }

  lemma {:induction false} DataClaimsAmong(claims: seq<Claim>)
    ensures forall k :: k in DataClaims(claims) ==> k in claims
    decreases |claims|
  {
    if claims != [] {
      DataClaimsAmong(claims[..|claims| - 1]);
    }
  }

  /** Data claimed from position `n` on is numbered from the `n`th range's number on. */
  lemma DataFromHereOn(isn: uint32, claims: seq<Claim>, n: nat)
    requires Tiles(isn, claims) && Span(claims) < TWO_32 && n <= |claims|
    ensures forall k :: k in DataClaims(claims[n..]) ==> Rel(isn, k.seqno) >= Span(claims[..n])
  {
    hide Rel, U32, Span, Tiles, DataClaims;
    DataClaimsAmong(claims[n..]);
    forall k | k in DataClaims(claims[n..])
      ensures Rel(isn, k.seqno) >= Span(claims[..n])
    {
      var j :| n <= j < |claims| && claims[j] == k;
      NumberOf(isn, claims, j);
      SpanMonotone(claims, n, j);
      SpanMonotone(claims, j, |claims|);
      assert claims[..|claims|] == claims;
      RelOfOffset(isn, Span(claims[..j]));
    }
  }

  lemma DataBelowCut(c: Conn, at: Conn)
    requires HostSide(c) && CutBy(c, at) && Span(c.claims) < TWO_32
    ensures Below(c.isn, Elements(DataClaims(c.claims)), at.hNxt) == Elements(DataClaims(at.claims))
    ensures Ascending(c.isn, DataClaims(at.claims))
  {
    hide Rel, U32, Span, Tiles, DataClaims, Ascending, Payloads, SentData;
    var n := |at.claims|;
    assert c.claims[..n] == at.claims && c.claims == at.claims + c.claims[n..] && c.claims[..|c.claims|] == c.claims;
    DataClaimsConcat(at.claims, c.claims[n..]);
    SpanMonotone(c.claims, n, |c.claims|);
    RelOfOffset(c.isn, Span(at.claims));
    DataClaimsAscend(c.isn, at.claims);
    DataFromHereOn(c.isn, c.claims, n);
    forall k | k in DataClaims(at.claims)
      ensures Rel(c.isn, k.seqno) < Rel(c.isn, at.hNxt)
    {
      assert k.Length() > 0;
    }
  }

  lemma ReceivedBeforeFin(c: Conn, at: Conn)
    requires HostSide(c) && CutBy(c, at) && Span(c.claims) < TWO_32
    ensures Reassemble(c.isn, Below(c.isn, Elements(SentData(c.sent) + InFlight(c.io)), at.hNxt)) + Unclaimed(at.io)
            == at.hostRead
  {
    hide Tiles, Span, DataClaims, Payloads, SentData, Reassemble, Elements, U32, InFlight, Unclaimed, Below, Ascending;
    DataBelowCut(c, at);
    ReassembleAscending(c.isn, DataClaims(at.claims));
  }

  lemma WholeOrCut(got: seq<byte>, held: seq<byte>, before: seq<byte>, now: seq<byte>)
    requires got + held == before && before <= now
    ensures got == now <==> held == [] && now == before
  {
    if held == [] {
      assert got + held == got;
    }
  }

  /** The host's stream against the first FIN claimed towards the guest, over every run below
      2^32 numbers. At most one event claims the first; it has the number `h_nxt` had. A receiver
      takes the data numbered below it, among all segments sent or in flight, and that is what
      had been read but for the bytes the I/O thread held. So the receiver gets everything read if
      and only if no bytes were held at that FIN and none have been read since. */
  lemma FinCutsHostStream(events: seq<Event>, s: Relay, id: nat)
    requires Run(INIT, events, s) && id < |s.arena| && Span(s.arena[id].claims) < TWO_32
    ensures var c, cuts := s.arena[id], CutsOf(INIT, events, s, id);
            if cuts == [] then NoFin(c.claims)
            else
              var at := cuts[0];
              var got := Reassemble(c.isn, Below(c.isn, Elements(SentData(c.sent) + InFlight(c.io)), at.hNxt));
              && |cuts| == 1 && Claim(FinByte, at.hNxt, []) in c.claims
              && got + Unclaimed(at.io) == at.hostRead <= c.hostRead
              && (got == c.hostRead <==> Unclaimed(at.io) == [] && c.hostRead == at.hostRead)
  {
    hide Run, CutsOf, Reassemble, Below, Elements, SentData, InFlight, Unclaimed, Span, HostSide;
    InitCut(id);
    RunKeepsCut(INIT, events, s, id, []);
    var c, cuts := s.arena[id], CutsOf(INIT, events, s, id);
    assert [] + cuts == cuts;
    assert ConnInv(c, Rest(s.handler, id));
    hide Inv, ConnInv;
    if cuts != [] {
      var at := cuts[0];
      ReceivedBeforeFin(c, at);
      var got := Reassemble(c.isn, Below(c.isn, Elements(SentData(c.sent) + InFlight(c.io)), at.hNxt));
      WholeOrCut(got, Unclaimed(at.io), at.hostRead, c.hostRead);
    }
  }
}
