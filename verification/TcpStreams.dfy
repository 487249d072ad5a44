/** What the relay's invariants mean for the two byte streams of a connection. */
module TcpStreams {
  import opened Bytes
  import opened FrameCodec
  import opened TcpRelay
  import opened TcpRelayProofs

  // ----- connection lifecycle -----

  function Rank(s: State): nat {
    match s case Connecting => 0 case SynAckSent => 1 case Established => 2
  }

  /** At every step a connection's state stays or moves one stage on; its I/O thread is
      launched exactly at the move into `Established`, and the host socket is set by then. */
  lemma LifecycleStep(s: Relay, e: Event, id: nat)
    requires Inv(s) && Enabled(s, e) && id < |s.arena|
    ensures id < |Next(s, e).arena|
    ensures var c, d := s.arena[id], Next(s, e).arena[id];
            Rank(c.state) <= Rank(d.state) <= Rank(c.state) + 1
            && (d.launches == c.launches + if c.state != Established && d.state == Established then 1 else 0)
            && (d.io != NotLaunched <==> d.state == Established)
            && (d.state == Established ==> d.fd && d.launches == 1)
  {
    hide Inv, AcceptData, AcceptFin, Has;
    NextKeepsInv(s, e);
    var c := s.arena[id];
    LifecycleHolds(s, id);
    ArenaGrows(s, e);
    LifecycleHolds(Next(s, e), id);
    match e
    case Frame(key, seg) => StatesOfDelivery(c, seg);
    case _ =>
  }

  lemma LifecycleHolds(s: Relay, id: nat)
    requires Inv(s) && id < |s.arena|
    ensures Lifecycle(s.arena[id])
  {
    assert ConnInv(s.arena[id], Rest(s.handler, id));
  }

  lemma ArenaGrows(s: Relay, e: Event)
    requires Enabled(s, e)
    ensures |s.arena| <= |Next(s, e).arena|
  {}

  lemma StatesOfDelivery(c: Conn, seg: TcpSegment)
    ensures AcceptData(c, seg).state == c.state && AcceptFin(AcceptData(c, seg)).state == c.state
    ensures AcceptData(c, seg).launches == c.launches && AcceptFin(AcceptData(c, seg)).launches == c.launches
  {}

  /** A SYN for a key with a live connection changes nothing but the reaping every frame does. */
  lemma DuplicateSynIgnored(s: Relay, key: ConnKey, seg: TcpSegment)
    requires Inv(s) && s.handler.Idle? && key in s.conns && key !in s.done
    requires Has(seg.flags, SYN) && !Has(seg.flags, ACK)
    ensures var t := Next(s, Frame(key, seg));
            t.arena == s.arena && t.handler == s.handler && t.resets == s.resets
            && key in t.conns && t.conns[key] == s.conns[key]
  {}

  // ----- host to guest: ranges tile the sequence space -----

  lemma {:induction false} SpanMonotone(claims: seq<Claim>, i: nat, j: nat)
    requires i <= j <= |claims|
    ensures Span(claims[..i]) <= Span(claims[..j])
    ensures i < j ==> Span(claims[..i]) + claims[i].Length() <= Span(claims[..j])
    decreases j - i
  {
    if i < j {
      assert claims[..j][..j - 1] == claims[..j - 1];
      SpanMonotone(claims, i, j - 1);
    }
  }

  /** The offset of a sequence number from the initial one, on the 32-bit circle. */
  function Rel(isn: uint32, seqno: uint32): uint32 {
    U32(seqno - isn + TWO_32)
  }

  lemma RelOfOffset(isn: uint32, offset: nat)
    requires offset < TWO_32
    ensures Rel(isn, U32(isn + offset)) == offset
  {}

  /** Below 2^32 claimed numbers the ranges are pairwise disjoint as sequence numbers. */
  lemma ClaimsDisjoint(isn: uint32, claims: seq<Claim>, i: nat, j: nat, a: nat, b: nat)
    requires Tiles(isn, claims) && Span(claims) <= TWO_32 && i < j < |claims|
    requires a < claims[i].Length() && b < claims[j].Length()
    ensures U32(claims[i].seqno + a) != U32(claims[j].seqno + b)
  {
    hide U32, Rel, Span, Tiles, Claim.Length;
    NumberOf(isn, claims, i);
    NumberOf(isn, claims, j);
    SpanMonotone(claims, i, j);
    SpanMonotone(claims, j, |claims|);
    assert claims[..|claims|] == claims;
    var p, q := Span(claims[..i]) + a, Span(claims[..j]) + b;
    U32Step(isn + Span(claims[..i]), a);
    U32Step(isn + Span(claims[..j]), b);
    RelOfOffset(isn, p);
    RelOfOffset(isn, q);
  }

  /** Every number from the initial one up to `h_nxt` lies in some range. */
  lemma {:induction false} ClaimsCover(isn: uint32, claims: seq<Claim>, p: nat) returns (i: nat, a: nat)
    requires Tiles(isn, claims) && p < Span(claims)
    ensures i < |claims| && a < claims[i].Length() && U32(claims[i].seqno + a) == U32(isn + p)
    decreases |claims|
  {
    hide U32, Tiles;
    var last := |claims| - 1;
    var front := claims[..last];
    TilesPrefix(isn, claims, last);
    NumberOf(isn, claims, last);
    if p < Span(front) {
      i, a := ClaimsCover(isn, front, p);
    } else {
      i, a := last, p - Span(front);
      U32Step(isn + Span(front), a);
    }
  }

  // ----- host to guest: reassembly by sequence number -----

  ghost function Least(isn: uint32, segs: set<Claim>): (m: Claim)
    requires segs != {}
    ensures m in segs && forall x :: x in segs ==> Rel(isn, m.seqno) <= Rel(isn, x.seqno)
    decreases |segs|
  {
    var x :| x in segs;
    if segs == {x} then x else
      var m := Least(isn, segs - {x});
      assert segs == {x} + (segs - {x});
      if Rel(isn, x.seqno) <= Rel(isn, m.seqno) then x else m
  }

  /** What a receiver gets by putting data segments, however they arrived, in the order of
      their sequence numbers. */
  ghost function Reassemble(isn: uint32, segs: set<Claim>): seq<byte>
    decreases |segs|
  {
    if segs == {} then [] else
      var m := Least(isn, segs);
      m.data + Reassemble(isn, segs - {m})
  }

  /** Segments listed by strictly increasing offset from the initial sequence number. */
  ghost predicate Ascending(isn: uint32, segs: seq<Claim>) {
    forall i, j :: 0 <= i < j < |segs| ==> Rel(isn, segs[i].seqno) < Rel(isn, segs[j].seqno)
  }

  ghost function Elements(segs: seq<Claim>): set<Claim> {
    set k | k in segs
  }

  lemma {:induction false} ReassembleAscending(isn: uint32, segs: seq<Claim>)
    requires Ascending(isn, segs)
    ensures Reassemble(isn, Elements(segs)) == Payloads(segs)
    decreases |segs|
  {
    if segs != [] {
      hide Rel;
      var all := Elements(segs);
      assert segs[0] in all;
      var m := Least(isn, all);
      assert m == segs[0] by {
        var i :| 0 <= i < |segs| && segs[i] == m;
        if i > 0 {
          assert Rel(isn, segs[0].seqno) < Rel(isn, segs[i].seqno);
        }
      }
      assert all - {m} == Elements(segs[1..]) by {
        forall x | x in segs[1..]
          ensures x != m
        {
          var i :| 1 <= i < |segs| && segs[i] == x;
          assert Rel(isn, segs[0].seqno) < Rel(isn, segs[i].seqno);
        }
        assert segs == [segs[0]] + segs[1..];
      }
      ReassembleAscending(isn, segs[1..]);
      PayloadsFromFront(segs);
    }
  }

  lemma {:induction false} PayloadsFromFront(segs: seq<Claim>)
    requires segs != []
    ensures Payloads(segs) == segs[0].data + Payloads(segs[1..])
    decreases |segs|
  {
    var n := |segs| - 1;
    if n == 0 {
      assert segs[..0] == [] && segs[1..] == [];
      assert Payloads(segs[..0]) == [];
    } else {
      assert segs[1..][..n - 1] == segs[..n][1..];
      PayloadsFromFront(segs[..n]);
      Assoc(segs[0].data, Payloads(segs[..n][1..]), segs[n].data);
    }
  }

  lemma TilesPrefix(isn: uint32, claims: seq<Claim>, n: nat)
    requires Tiles(isn, claims) && n <= |claims|
    ensures Tiles(isn, claims[..n])
  {
    hide U32, Span;
    forall k | 0 <= k < n
      ensures claims[..n][k].seqno == U32(isn + Span(claims[..n][..k]))
    {
      assert claims[..n][..k] == claims[..k];
    }
  }

  lemma NumberOf(isn: uint32, claims: seq<Claim>, i: nat)
    requires Tiles(isn, claims) && i < |claims|
    ensures claims[i].seqno == U32(isn + Span(claims[..i]))
  {}

  lemma AscendingAppend(isn: uint32, segs: seq<Claim>, k: Claim, bound: nat)
    requires Ascending(isn, segs) && Rel(isn, k.seqno) == bound
    requires forall x :: x in segs ==> Rel(isn, x.seqno) + x.Length() <= bound && x.kind.Data? && x.data != []
    ensures Ascending(isn, segs + [k])
  {
    hide Rel;
    var all := segs + [k];
    forall i, j | 0 <= i < j < |all|
      ensures Rel(isn, all[i].seqno) < Rel(isn, all[j].seqno)
    {
      if j == |segs| {
        assert segs[i] in segs;
      }
    }
  }

  /** The data ranges of a tiling appear by increasing offset, below its span. */
  lemma {:induction false} DataClaimsAscend(isn: uint32, claims: seq<Claim>)
    requires Tiles(isn, claims) && Span(claims) < TWO_32
    requires forall k :: k in claims && k.kind.Data? ==> k.data != []
    ensures Ascending(isn, DataClaims(claims))
    ensures forall k :: k in DataClaims(claims) ==>
                k in claims && k.kind.Data? && Rel(isn, k.seqno) + k.Length() <= Span(claims)
    decreases |claims|
  {
    if claims != [] {
      hide Rel, U32, Tiles;
      var last := |claims| - 1;
      var front := claims[..last];
      TilesPrefix(isn, claims, last);
      DataClaimsAscend(isn, front);
      RelOfOffset(isn, Span(front));
      NumberOf(isn, claims, last);
      AscendingAppend(isn, DataClaims(front), claims[last], Span(front));
    }
  }

  lemma AscendingPrefix(isn: uint32, a: seq<Claim>, b: seq<Claim>)
    requires Ascending(isn, a + b)
    ensures Ascending(isn, a)
  {
    hide Rel;
    forall i, j | 0 <= i < j < |a|
      ensures Rel(isn, a[i].seqno) < Rel(isn, a[j].seqno)
    {
      assert (a + b)[i] == a[i] && (a + b)[j] == a[j];
    }
  }

  lemma {:induction false} PayloadsConcat(a: seq<Claim>, b: seq<Claim>)
    ensures Payloads(a + b) == Payloads(a) + Payloads(b)
    decreases |b|
  {
    if b == [] {
      assert a + b == a;
    } else {
      var n := |b| - 1;
      assert (a + b)[..|a + b| - 1] == a + b[..n];
      PayloadsConcat(a, b[..n]);
    }
  }

  /** In every reachable state, ordering the data segments sent so far by sequence number and
      adding the bytes the I/O thread still holds gives exactly what was read from the host
      socket; the ranges claimed tile [ISN, h_nxt). For totals below 2^32. */
  lemma HostStreamReassembles(events: seq<Event>, s: Relay, id: nat)
    requires Run(INIT, events, s) && id < |s.arena| && Span(s.arena[id].claims) < TWO_32
    ensures var c := s.arena[id];
            Tiles(c.isn, c.claims) && c.hNxt == U32(c.isn + Span(c.claims))
            && Reassemble(c.isn, Elements(SentData(c.sent))) + Payloads(InFlight(c.io)) + Unclaimed(c.io) == c.hostRead
  {
    RunKeepsInv(INIT, events, s);
    assert ConnInv(s.arena[id], Rest(s.handler, id));
    HostSideReassembles(s.arena[id]);
  }

  lemma HostSideReassembles(c: Conn)
    requires HostSide(c) && Span(c.claims) < TWO_32
    ensures Reassemble(c.isn, Elements(SentData(c.sent))) + Payloads(InFlight(c.io)) + Unclaimed(c.io) == c.hostRead
  {
    hide Tiles, Span, DataClaims, Payloads, SentData, Reassemble, Elements, U32, InFlight, Unclaimed;
    DataClaimsAscend(c.isn, c.claims);
    AscendingPrefix(c.isn, SentData(c.sent), InFlight(c.io));
    ReassembleAscending(c.isn, SentData(c.sent));
    PayloadsConcat(SentData(c.sent), InFlight(c.io));
  }

  // ----- guest to host -----

  /** The peer of a connection: its initial sequence number and the bytes it sends. */
  datatype Guest = Guest(isn: uint32, stream: seq<byte>)

  /** The segment's data is the stream's at offset `k`, numbered accordingly. */
  predicate Cut(g: Guest, seg: TcpSegment, k: nat) {
    k + |seg.data| <= |g.stream| && seg.data == g.stream[k..k + |seg.data|] && seg.seqno == U32(g.isn + 1 + k)
  }

  /** A frame a correct guest could send, lost, repeated or reordered as the network pleases:
      SYNs carry the guest's initial sequence number, an active open is answered by SYN+ACK,
      and data is cut from the stream less than 2^32 away from what was accepted. */
  ghost predicate HonestFrame(s: Relay, key: ConnKey, seg: TcpSegment, guests: nat -> Guest)
  {
    var r := Reap(s);
    if Has(seg.flags, SYN) && !Has(seg.flags, ACK) then
      key in r.conns || seg.seqno == guests(|r.arena|).isn
    else if key !in r.conns || r.conns[key] >= |r.arena| || Has(seg.flags, RST) then true
    else
      var c := r.arena[r.conns[key]];
      var g := guests(r.conns[key]);
      match c.state
      case Connecting => true
      case SynAckSent =>
        (Has(seg.flags, SYN) ==> seg.seqno == g.isn) && (c.inbound && Has(seg.flags, ACK) ==> Has(seg.flags, SYN))
      case Established =>
        seg.data != [] ==> exists k: nat :: Cut(g, seg, k) && -TWO_32 < k - |c.accepted| < TWO_32
  }

  ghost predicate HonestEvent(s: Relay, e: Event, guests: nat -> Guest) {
    e.Frame? ==> HonestFrame(s, e.key, e.seg, guests)
  }

  ghost predicate HonestRun(s0: Relay, events: seq<Event>, s: Relay, guests: nat -> Guest)
    decreases |events|
  {
    if events == [] then s == s0
    else
      Enabled(s0, events[0]) && HonestEvent(s0, events[0], guests)
      && HonestRun(Next(s0, events[0]), events[1..], s, guests)
  }

  /** The ack number stands for exactly the bytes and FIN it was read for, all of them accepted. */
  predicate Covers(c: Conn, ackno: uint32, upTo: Coverage) {
    upTo.bytes <= |c.accepted| && upTo.fins <= c.fins && ackno == U32(c.base + upTo.bytes + upTo.fins)
  }

  predicate Opening(c: Conn) {
    c.inbound && c.state != Established
  }

  ghost predicate Faithful(c: Conn, g: Guest) {
    && (Opening(c) || c.base == U32(g.isn + 1))
    && c.accepted <= g.stream
    && (forall m :: m in c.sent && Has(m.flags, ACK) ==> !Opening(c) && Covers(c, m.ackno, m.upTo))
    && (c.connector.SynLoaded? ==> Covers(c, c.connector.ackno, c.connector.upTo))
    && (c.io.DataLoaded? || c.io.FinLoaded? ==> Covers(c, c.io.ackno, c.io.upTo))
  }

  ghost predicate AllFaithful(s: Relay, guests: nat -> Guest) {
    && (forall id :: 0 <= id < |s.arena| ==> Faithful(s.arena[id], guests(id)))
    && (s.handler.Finishing? && s.handler.reply.Some? ==>
          s.handler.conn < |s.arena|
          && Covers(s.arena[s.handler.conn], s.handler.reply.value.ackno, s.handler.reply.value.upTo))
  }

  lemma StepKeepsFaithful(c: Conn, t: ThreadStep, g: Guest, rest: seq<byte>)
    requires ConnInv(c, rest) && Faithful(c, g) && CanStep(c, t)
    ensures Faithful(Step(c, t), g)
  {
    hide U32, HostSide, Covers, Has;
    StepKeepsCovers(c, t);
    CoversNow(c);
    assert !Has(SYN, ACK) by {
      SynIsNotAck();
    }
  }

  lemma SynIsNotAck()
    ensures !Has(SYN, ACK)
  {}

  lemma StepKeepsCovers(c: Conn, t: ThreadStep)
    requires CanStep(c, t)
    ensures forall a, u :: Covers(c, a, u) ==> Covers(Step(c, t), a, u)
  {}

  lemma CoversNow(c: Conn)
    requires GuestSide(c)
    ensures Covers(c, c.gNxt, c.Accepted())
  {}

  lemma AcceptKeepsFaithful(c: Conn, seg: TcpSegment, g: Guest, k: nat)
    requires GuestSide(c) && Faithful(c, g) && c.state == Established && c.fins == 0
    requires seg.data != [] ==> Cut(g, seg, k) && -TWO_32 < k - |c.accepted| < TWO_32
    ensures var c1 := AcceptData(c, seg);
            Faithful(c1, g) && GuestSide(c1)
  {
    if InOrder(c, seg) {
      hide U32, Has;
      U32Step(c.base + |c.accepted| + c.fins, |seg.data|);
      SamePosition(g.isn, k, |c.accepted|);
      var c1 := AcceptData(c, seg);
      assert c1.accepted == g.stream[..k] + g.stream[k..k + |seg.data|];
      CoversGrow(c, c1);
      hide Covers;
    }
  }

  lemma FinKeepsFaithful(c: Conn, g: Guest)
    requires GuestSide(c) && Faithful(c, g)
    ensures Faithful(AcceptFin(c), g) && GuestSide(AcceptFin(c))
  {
    hide U32, Has, Covers;
    U32Step(c.base + |c.accepted| + c.fins, 1);
    CoversGrow(c, AcceptFin(c));
  }

  lemma CoversGrow(c: Conn, d: Conn)
    requires |c.accepted| <= |d.accepted| && c.fins <= d.fins && c.base == d.base
    ensures forall a, u :: Covers(c, a, u) ==> Covers(d, a, u)
  {}

  /** Two stream offsets less than 2^32 apart with equal sequence numbers are equal. */
  lemma SamePosition(isn: uint32, k: nat, n: nat)
    requires -TWO_32 < k - n < TWO_32
    ensures U32(isn + 1 + k) == U32(U32(isn + 1) + n) <==> k == n
  {
    U32Step(isn + 1, n);
    var a, b := isn + 1 + k, isn + 1 + n;
    assert a == U32(a) + TWO_32 * (a / TWO_32) && b == U32(b) + TWO_32 * (b / TWO_32);
  }

  lemma DeliverKeepsFaithful(c: Conn, seg: TcpSegment, g: Guest)
    requires GuestSide(c) && Faithful(c, g) && c.state == Established && c.fins == 0
    requires seg.data != [] ==> exists k: nat :: Cut(g, seg, k) && -TWO_32 < k - |c.accepted| < TWO_32
    ensures var c1 := AcceptData(c, seg); var c2 := AcceptFin(c1);
            Faithful(c1, g) && Faithful(c2, g)
            && Covers(c1, c1.gNxt, c1.Accepted()) && Covers(c2, c2.gNxt, c2.Accepted())
  {
    hide Faithful, Cut, AcceptData, AcceptFin;
    var k: nat := 0;
    if seg.data != [] {
      k :| Cut(g, seg, k) && -TWO_32 < k - |c.accepted| < TWO_32;
    }
    AcceptKeepsFaithful(c, seg, g, k);
    FinKeepsFaithful(AcceptData(c, seg), g);
    CoversNow(AcceptData(c, seg));
    CoversNow(AcceptFin(AcceptData(c, seg)));
  }

  lemma EstablishKeepsFaithful(c: Conn, guestSeq: uint32, g: Guest)
    requires Lifecycle(c) && GuestSide(c) && Faithful(c, g) && c.state == SynAckSent
    ensures !c.inbound ==> Faithful(Establish(c), g)
    ensures guestSeq == g.isn ==> Faithful(EstablishSynAck(c, guestSeq), g)
  {
    hide Has, U32;
    U32Step(guestSeq + 1, 0);
  }

  lemma NewFaithful(key: ConnKey, n: uint32, g: Guest)
    ensures n == g.isn ==> Faithful(OutboundConn(key, n), g)
    ensures Faithful(InboundConn(key, n), g)
  {}

  /** No FIN has been taken on a connection that is still in the map. */
  ghost predicate LiveUnfinished(s: Relay) {
    forall k :: k in s.conns ==> s.conns[k] < |s.arena| && s.arena[s.conns[k]].fins == 0
  }

  ghost predicate StreamInv(s: Relay, guests: nat -> Guest) {
    Inv(s) && AllFaithful(s, guests) && LiveUnfinished(s)
  }

  lemma ReapKeepsStreamInv(s: Relay, guests: nat -> Guest)
    requires StreamInv(s, guests)
    ensures StreamInv(Reap(s), guests) && Reap(s).handler == s.handler && Reap(s).arena == s.arena
  {
    hide Inv, Faithful, Covers;
    ReapKeepsInv(s);
  }

  lemma DeliverKeepsStreamInv(r: Relay, id: nat, seg: TcpSegment, guests: nat -> Guest)
    requires StreamInv(r, guests) && r.handler.Idle? && id < |r.arena|
    requires r.arena[id].key in r.conns && r.conns[r.arena[id].key] == id && r.arena[id].state == Established
    requires var c := r.arena[id];
             seg.data != [] ==> exists k: nat :: Cut(guests(id), seg, k) && -TWO_32 < k - |c.accepted| < TWO_32
    ensures AllFaithful(Deliver(r, id, seg), guests) && LiveUnfinished(Deliver(r, id, seg))
  {
    hide Faithful, Covers, ConnInv, AcceptData, AcceptFin, Has, Cut, InOrder, U32;
    var c := r.arena[id];
    PartsOf(c, Rest(r.handler, id));
    DeliverKeepsFaithful(c, seg, guests(id));
    DeliveryFins(c, seg);
  }

  lemma FrameKeepsStreamInv(s: Relay, key: ConnKey, seg: TcpSegment, guests: nat -> Guest)
    requires StreamInv(s, guests) && s.handler.Idle? && HonestFrame(s, key, seg, guests)
    ensures AllFaithful(HandleFrame(s, key, seg), guests) && LiveUnfinished(HandleFrame(s, key, seg))
  {
    hide Faithful, Covers, ConnInv, Establish, EstablishSynAck, OutboundConn, Has, Cut, Reap, Deliver;
    ReapKeepsStreamInv(s, guests);
    var r := Reap(s);
    NewFaithful(key, seg.seqno, guests(|r.arena|));
    NewUnfinished(key, seg.seqno);
    if key in r.conns {
      var id := r.conns[key];
      var c := r.arena[id];
      StopKeepsFaithful(c, guests(id));
      if c.state == SynAckSent {
        PartsOf(c, Rest(s.handler, id));
        EstablishKeepsFaithful(c, seg.seqno, guests(id));
        EstablishUnfinished(c, seg.seqno);
      } else if c.state == Established && !Has(seg.flags, RST) && (Has(seg.flags, SYN) ==> Has(seg.flags, ACK)) {
        DeliverKeepsStreamInv(r, id, seg, guests);
      }
    }
  }

  lemma PartsOf(c: Conn, rest: seq<byte>)
    requires ConnInv(c, rest)
    ensures Lifecycle(c) && GuestSide(c)
  {}

  lemma StopKeepsFaithful(c: Conn, g: Guest)
    requires Faithful(c, g)
    ensures Faithful(c.(stop := true), g)
  {
    hide Has, U32;
  }

  lemma NewUnfinished(key: ConnKey, n: uint32)
    ensures OutboundConn(key, n).fins == 0
  {}

  lemma EstablishUnfinished(c: Conn, n: uint32)
    ensures Establish(c).fins == c.fins && EstablishSynAck(c, n).fins == 0
  {}

  lemma DeliveryFins(c: Conn, seg: TcpSegment)
    ensures AcceptData(c, seg).fins == c.fins && AcceptData(c, seg).key == c.key
  {}

  lemma NextKeepsStreamInv(s: Relay, e: Event, guests: nat -> Guest)
    requires StreamInv(s, guests) && Enabled(s, e) && HonestEvent(s, e, guests)
    ensures StreamInv(Next(s, e), guests)
  {
    hide Inv, Faithful, Covers;
    NextKeepsInv(s, e);
    match e
    case Frame(key, seg) => FrameKeepsStreamInv(s, key, seg, guests);
    case OpenInbound(key, isn) => NewFaithful(key, isn, guests(|s.arena|));
    case Thread(id, t) => ThreadKeepsStreamInv(s, id, t, guests);
    case _ => HostKeepsStreamInv(s, e, guests);
  }

  lemma ThreadKeepsStreamInv(s: Relay, id: nat, t: ThreadStep, guests: nat -> Guest)
    requires StreamInv(s, guests) && Enabled(s, Thread(id, t))
    ensures AllFaithful(Next(s, Thread(id, t)), guests) && LiveUnfinished(Next(s, Thread(id, t)))
  {
    hide Faithful, Covers, ConnInv, Step;
    StepKeepsFaithful(s.arena[id], t, guests(id), Rest(s.handler, id));
    StepKeepsCovers(s.arena[id], t);
    StepKeepsFins(s.arena[id], t);
  }

  lemma StepKeepsFins(c: Conn, t: ThreadStep)
    requires CanStep(c, t)
    ensures Step(c, t).fins == c.fins
  {
    hide U32, Conn.Accepted;
    match t
    case ClaimSyn =>
    case ClaimData =>
    case ClaimFin =>
    case LoadAck =>
    case SendData =>
    case SendFin =>
    case _ =>
  }

  lemma HostKeepsStreamInv(s: Relay, e: Event, guests: nat -> Guest)
    requires StreamInv(s, guests) && Enabled(s, e) && (e.HostAccepts? || e.HostRefuses? || e.FrameDone?)
    ensures AllFaithful(Next(s, e), guests) && LiveUnfinished(Next(s, e))
  {
    hide ConnInv, Has, U32;
    var h := s.handler;
    var c := s.arena[h.conn];
    assert ConnInv(c, Rest(h, h.conn));
    PartsOf(c, Rest(h, h.conn));
    assert Faithful(c, guests(h.conn));
    match e
    case HostAccepts(n) => CoversGrow(c, c.(written := c.written + h.rem[..n]));
    case HostRefuses => CoversGrow(c, c.(lost := true));
    case FrameDone =>
      if h.reply.Some? {
        CoversGrow(c, c.(sent := c.sent + [h.reply.value]));
      }
  }

  lemma {:induction false} HonestRunKeepsStreamInv(s0: Relay, events: seq<Event>, s: Relay, guests: nat -> Guest)
    requires StreamInv(s0, guests) && HonestRun(s0, events, s, guests)
    ensures StreamInv(s, guests)
    decreases |events|
  {
    if events != [] {
      hide AllFaithful, Enabled, LiveUnfinished, HonestEvent, Inv;
      NextKeepsStreamInv(s0, events[0], guests);
      HonestRunKeepsStreamInv(Next(s0, events[0]), events[1..], s, guests);
    }
  }

  lemma InitInv(guests: nat -> Guest)
    ensures StreamInv(INIT, guests)
  {}

  /** Guest-to-host stream safety. In every state reachable by honest frames, however the
      threads interleave: the bytes accepted are a prefix of the guest's stream; unless the
      host socket refused some, the bytes written to it are a prefix of those; `g_nxt` is the
      guest's ISN + 1 + the accepted count (+ 1 for its FIN); and every ACK ever sent stands for
      bytes accepted by then. */
  lemma GuestStreamSafety(events: seq<Event>, s: Relay, guests: nat -> Guest, id: nat)
    requires HonestRun(INIT, events, s, guests) && id < |s.arena|
    ensures var c, g := s.arena[id], guests(id);
            c.accepted <= g.stream
            && (!c.lost ==> c.written <= c.accepted)
            && (!Opening(c) ==> c.gNxt == U32(g.isn + 1 + |c.accepted| + c.fins))
            && (forall m :: m in c.sent && Has(m.flags, ACK) ==>
                  m.upTo.bytes <= |c.accepted| && m.upTo.fins <= c.fins
                  && m.ackno == U32(g.isn + 1 + m.upTo.bytes + m.upTo.fins))
  {
    hide *;
    InitInv(guests);
    HonestRunKeepsStreamInv(INIT, events, s, guests);
    StreamInvAt(s, guests, id);
    ConnStreamSafety(s.arena[id], guests(id), Rest(s.handler, id));
  }

  lemma StreamInvAt(s: Relay, guests: nat -> Guest, id: nat)
    requires StreamInv(s, guests) && id < |s.arena|
    ensures var c := s.arena[id];
            Faithful(c, guests(id)) && c.accepted <= guests(id).stream && GuestSide(c) && Writes(c, Rest(s.handler, id))
  {
    hide HostSide, GuestSide, Writes, Covers, Has;
    assert ConnInv(s.arena[id], Rest(s.handler, id));
    assert Faithful(s.arena[id], guests(id));
  }

  lemma ConnStreamSafety(c: Conn, g: Guest, rest: seq<byte>)
    requires Faithful(c, g) && GuestSide(c) && Writes(c, rest)
    ensures !c.lost ==> c.written <= c.accepted
    ensures !Opening(c) ==> c.gNxt == U32(g.isn + 1 + |c.accepted| + c.fins)
    ensures forall m :: m in c.sent && Has(m.flags, ACK) ==>
              m.upTo.bytes <= |c.accepted| && m.upTo.fins <= c.fins
              && m.ackno == U32(g.isn + 1 + m.upTo.bytes + m.upTo.fins)
  {
    hide U32, Has;
    U32Step(g.isn + 1, |c.accepted| + c.fins);
    forall m | m in c.sent && Has(m.flags, ACK)
      ensures m.ackno == U32(g.isn + 1 + m.upTo.bytes + m.upTo.fins)
    {
      U32Step(g.isn + 1, m.upTo.bytes + m.upTo.fins);
    }
  }

  /** Bytes are lost only when the host socket refuses them. */
  lemma {:induction false} NothingLost(s0: Relay, events: seq<Event>, s: Relay)
    requires Inv(s0) && Run(s0, events, s) && HostRefuses !in events
    requires forall id :: 0 <= id < |s0.arena| ==> !s0.arena[id].lost
    ensures forall id :: 0 <= id < |s.arena| ==> !s.arena[id].lost
    decreases |events|
  {
    if events != [] {
      var e := events[0];
      assert e in events;
      NextKeepsInv(s0, e);
      NextLosesNothing(s0, e);
      NothingLost(Next(s0, e), events[1..], s);
    }
  }

  lemma NextLosesNothing(s: Relay, e: Event)
    requires Inv(s) && Enabled(s, e) && !e.HostRefuses?
    requires forall id :: 0 <= id < |s.arena| ==> !s.arena[id].lost
    ensures forall id :: 0 <= id < |Next(s, e).arena| ==> !Next(s, e).arena[id].lost
  {
    hide HostSide, GuestSide, Writes, Has, U32, HandleFrame, Step;
    match e
    case Frame(key, seg) => FrameLosesNothing(s, key, seg);
    case Thread(i, t) => StepLosesNothing(s.arena[i], t);
    case _ =>
  }

  lemma StepLosesNothing(c: Conn, t: ThreadStep)
    requires CanStep(c, t)
    ensures Step(c, t).lost == c.lost
  {
    hide U32, Conn.Accepted;
    match t
    case ClaimSyn =>
    case ClaimData =>
    case ClaimFin =>
    case LoadAck =>
    case SendData =>
    case SendFin =>
    case _ =>
  }

  lemma FrameLosesNothing(s: Relay, key: ConnKey, seg: TcpSegment)
    requires Inv(s) && s.handler.Idle?
    requires forall id :: 0 <= id < |s.arena| ==> !s.arena[id].lost
    ensures var t := HandleFrame(s, key, seg); forall id :: 0 <= id < |t.arena| ==> !t.arena[id].lost
  {
    hide HostSide, GuestSide, Writes, Has, U32, Reap;
    forall id | 0 <= id < |s.arena|
      ensures Lifecycle(s.arena[id])
    {
      LifecycleHolds(s, id);
    }
    ReapKeepsInv(s);
    hide Inv;
  }

  // ----- the acknowledgement of a FIN -----

  /** The reply to a FIN acknowledges the guest's FIN, and no more, exactly when the segment
      was next in order or repeated the last bytes accepted. */
  lemma FinAcknowledged(c: Conn, seg: TcpSegment)
    requires c.state == Established
    ensures AcceptFin(AcceptData(c, seg)).gNxt == U32(seg.seqno + |seg.data| + 1)
            <==> seg.seqno == c.gNxt || U32(seg.seqno + |seg.data|) == c.gNxt
  {
    hide U32;
    U32Step(seg.seqno + |seg.data|, 1);
    U32Step(c.gNxt + |seg.data|, 1);
    NextInjective(U32(seg.seqno + |seg.data|), AcceptData(c, seg).gNxt);
    SameNumber(seg.seqno, |seg.data|, c.gNxt);
  }

  lemma NextInjective(a: uint32, b: uint32)
    ensures U32(a + 1) == U32(b + 1) <==> a == b
  {}

  lemma SameNumber(a: uint32, n: nat, b: uint32)
    ensures U32(b) == b
    ensures n == 0 ==> U32(a + n) == a
  {}

  /** An established connection that expects number 1000 and gets a FIN numbered 2000
      acknowledges number 1000, a byte it never received. */
  lemma OutOfOrderFinOverAcknowledges(c: Conn, seg: TcpSegment)
    requires c.state == Established && c.gNxt == 1000 && seg.seqno == 2000 && seg.data == []
    ensures AcceptFin(AcceptData(c, seg)).gNxt == 1001
    ensures AcceptFin(AcceptData(c, seg)).accepted == c.accepted
  {}
}
