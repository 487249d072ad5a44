/** The transmit drain of src/virtio/net.cpp on values. */
module NetTransmit {
  import opened Bytes
  import opened GuestMemory
  import opened SplitRing
  import opened Virtqueue
  import opened NetChains

  const TX_SIZE: ringsize := 256

  datatype Sent = Sent(ring: Ring, frames: seq<seq<byte>>)

  function FrameAt(ram: seq<byte>, base: uint64, desc: seq<Desc>, r: Ring): (f: Option<seq<byte>>)
    requires InRange(desc, r.avail, TX_SIZE) && Sized(r, TX_SIZE) && WholeTable(base, |ram|, desc)
  {
    FrameOf(Concat(ram, base, desc, Chain(desc, Head(r, TX_SIZE), |desc|)))
  }

  /** A transmit drain: every published chain's frame to the stack in order, every buffer back. */
  function Transmit(ram: seq<byte>, base: uint64, desc: seq<Desc>, s: Sent): (s': Sent)
    requires InRange(desc, s.ring.avail, TX_SIZE) && Sized(s.ring, TX_SIZE) && WholeTable(base, |ram|, desc)
    ensures !HasWork(s'.ring) && Sized(s'.ring, TX_SIZE)
    decreases Backlog(s.ring)
  {
    if !HasWork(s.ring) then s
    else
      BacklogDecreases(s.ring, TX_SIZE, 0);
      Transmit(ram, base, desc, AfterOne(ram, base, desc, s))
  }

  function AfterOne(ram: seq<byte>, base: uint64, desc: seq<Desc>, s: Sent): (s': Sent)
    requires InRange(desc, s.ring.avail, TX_SIZE) && Sized(s.ring, TX_SIZE) && WholeTable(base, |ram|, desc)
    ensures s'.ring == Complete(s.ring, TX_SIZE, 0)
  {
    match FrameAt(ram, base, desc, s.ring)
    case Some(f) => Sent(Complete(s.ring, TX_SIZE, 0), s.frames + [f])
    case None => Sent(Complete(s.ring, TX_SIZE, 0), s.frames)
  }

  // ----- what a drain sends, by position -----

  /** The heads published and not yet taken, oldest first. */
  function Heads(r: Ring): (hs: seq<uint16>)
    requires Sized(r, TX_SIZE)
    ensures |hs| == Backlog(r)
  {
    seq(Backlog(r), i requires 0 <= i < Backlog(r) => r.avail[U16(r.lastAvail + i) % TX_SIZE])
  }

  /** The chains a transmit drain meets all end. */
  ghost predicate ChainsEnd(r: Ring, desc: seq<Desc>)
    requires Sized(r, TX_SIZE)
  {
    forall h :: h in Heads(r) ==> h < |desc| && Linked(desc) && !Cyclic(desc, h)
  }

  /** The frames of a list of chains, each chain's bytes but for its 12-byte header. */
  function Frames(ram: seq<byte>, base: uint64, desc: seq<Desc>, heads: seq<uint16>): seq<seq<byte>>
    requires Linked(desc) && WholeTable(base, |ram|, desc) && forall i :: 0 <= i < |heads| ==> heads[i] < |desc|
  {
    if heads == [] then []
    else
      (match FrameOf(Concat(ram, base, desc, Chain(desc, heads[0], |desc|)))
       case Some(f) => [f]
       case None => [])
      + Frames(ram, base, desc, heads[1..])
  }

  lemma HeadAt(r: Ring, i: nat)
    requires Sized(r, TX_SIZE) && i < Backlog(r)
    ensures Heads(r)[i] == r.avail[U16(r.lastAvail + i) % TX_SIZE]
  {}

  lemma HeadsStep(r: Ring)
    requires Sized(r, TX_SIZE) && HasWork(r)
    ensures Sized(Complete(r, TX_SIZE, 0), TX_SIZE)
    ensures Heads(r) == [Head(r, TX_SIZE)] + Heads(Complete(r, TX_SIZE, 0))
  {
    hide U16, Backlog, Heads, Complete;
    BacklogDecreases(r, TX_SIZE, 0);
    Completed(r);
    var next := Complete(r, TX_SIZE, 0);
    U16Same(r.lastAvail);
    HeadAt(r, 0);
    var hs, rest := Heads(r), Heads(next);
    forall i | 0 <= i < |rest|
      ensures hs[i + 1] == rest[i]
    {
      HeadAt(r, i + 1);
      HeadAt(next, i);
      U16Shift(r.lastAvail, i);
    }
    assert hs == [hs[0]] + rest;
  }

  lemma Completed(r: Ring)
    requires Sized(r, TX_SIZE)
    ensures var next := Complete(r, TX_SIZE, 0);
            Sized(next, TX_SIZE) && next.avail == r.avail && next.lastAvail == U16(r.lastAvail + 1)
  {}

  lemma FirstChainEnds(r: Ring, desc: seq<Desc>)
    requires Sized(r, TX_SIZE) && HasWork(r) && ChainsEnd(r, desc)
    ensures var head := Head(r, TX_SIZE); head < |desc| && Linked(desc) && !Cyclic(desc, head)
    ensures ChainsEnd(Complete(r, TX_SIZE, 0), desc)
  {
    hide Heads, Cyclic, Linked, Complete;
    HeadsStep(r);
    assert Heads(r)[0] == Head(r, TX_SIZE) && Heads(r)[0] in Heads(r);
    forall h | h in Heads(Complete(r, TX_SIZE, 0))
      ensures h in Heads(r)
    {
      assert Heads(r) == [Head(r, TX_SIZE)] + Heads(Complete(r, TX_SIZE, 0));
    }
  }

  lemma U16Same(x: uint16)
    ensures U16(x + 0) == x
  {}

  lemma U16Shift(x: nat, i: nat)
    ensures U16(U16(x + 1) + i) == U16(x + (i + 1))
  {}

  ghost predicate HeadsInTable(r: Ring, desc: seq<Desc>)
    requires Sized(r, TX_SIZE)
  {
    forall i :: 0 <= i < |Heads(r)| ==> Heads(r)[i] < |desc|
  }

  lemma HeadsAreInTable(r: Ring, desc: seq<Desc>)
    requires InRange(desc, r.avail, TX_SIZE) && Sized(r, TX_SIZE)
    ensures HeadsInTable(r, desc)
  {}

  lemma TransmitStep(ram: seq<byte>, base: uint64, desc: seq<Desc>, s: Sent)
    requires InRange(desc, s.ring.avail, TX_SIZE) && Sized(s.ring, TX_SIZE) && WholeTable(base, |ram|, desc)
    requires HasWork(s.ring)
    ensures var next := AfterOne(ram, base, desc, s);
            && HeadsInTable(s.ring, desc) && HeadsInTable(next.ring, desc)
            && Transmit(ram, base, desc, s) == Transmit(ram, base, desc, next)
            && s.frames + Frames(ram, base, desc, Heads(s.ring))
            == next.frames + Frames(ram, base, desc, Heads(next.ring))
  {
    var next := AfterOne(ram, base, desc, s);
    HeadsAreInTable(s.ring, desc);
    HeadsAreInTable(next.ring, desc);
    HeadsStep(s.ring);
    hide Heads, Backlog, U16, WholeTable, FrameOf, Concat, Chain, Head, Complete;
    var rest := Heads(next.ring);
    assert Heads(s.ring)[1..] == rest;
    JoinFrames(s.frames, next.frames, Frames(ram, base, desc, rest), FrameAt(ram, base, desc, s.ring));
  }

  /** A drain gives the stack the frame of every published chain, once and in order, and
      returns that many buffers. */
  lemma {:induction false} TransmitSends(ram: seq<byte>, base: uint64, desc: seq<Desc>, s: Sent)
    requires InRange(desc, s.ring.avail, TX_SIZE) && Sized(s.ring, TX_SIZE) && WholeTable(base, |ram|, desc)
    ensures HeadsInTable(s.ring, desc)
    ensures var s' := Transmit(ram, base, desc, s);
            && s'.frames == s.frames + Frames(ram, base, desc, Heads(s.ring))
            && s'.ring.usedIdx == U16(s.ring.usedIdx + Backlog(s.ring))
            && s'.ring.lastAvail == s.ring.availIdx
    decreases Backlog(s.ring)
  {
    hide Heads, U16, WholeTable, Frames, HeadsInTable, Backlog, Transmit, AfterOne, InRange;
    HeadsAreInTable(s.ring, desc);
    if HasWork(s.ring) {
      var next := AfterOne(ram, base, desc, s);
      BacklogDecreases(s.ring, TX_SIZE, 0);
      TransmitStep(ram, base, desc, s);
      TransmitSends(ram, base, desc, next);
      IndexStep(s.ring, next.ring, Transmit(ram, base, desc, next).ring.usedIdx);
    } else {
      TransmitDone(ram, base, desc, s);
    }
  }

  lemma CountUp(u: uint16, v: uint16, w: uint16, b: nat, b': nat)
    requires v == U16(u + 1) && w == U16(v + b) && b' == b + 1
    ensures w == U16(u + b')
  {
    hide U16;
    U16Shift(u, b);
  }

  lemma IndexStep(r: Ring, next: Ring, usedIdx: uint16)
    requires Sized(r, TX_SIZE) && HasWork(r) && next == Complete(r, TX_SIZE, 0)
    requires usedIdx == U16(next.usedIdx + Backlog(next))
    ensures usedIdx == U16(r.usedIdx + Backlog(r))
  {
    hide U16, Backlog, Sized;
    BacklogDecreases(r, TX_SIZE, 0);
    CountUp(r.usedIdx, next.usedIdx, usedIdx, Backlog(next), Backlog(r));
  }

  lemma TransmitDone(ram: seq<byte>, base: uint64, desc: seq<Desc>, s: Sent)
    requires InRange(desc, s.ring.avail, TX_SIZE) && Sized(s.ring, TX_SIZE) && WholeTable(base, |ram|, desc)
    requires !HasWork(s.ring)
    ensures HeadsInTable(s.ring, desc) && Transmit(ram, base, desc, s) == s
    ensures s.frames + Frames(ram, base, desc, Heads(s.ring)) == s.frames
    ensures U16(s.ring.usedIdx + Backlog(s.ring)) == s.ring.usedIdx
  {
    hide WholeTable, InRange, Concat, Chain;
  }

  lemma JoinFrames(sent: seq<seq<byte>>, sent': seq<seq<byte>>, rest: seq<seq<byte>>, f: Option<seq<byte>>)
    requires sent' == match f case Some(x) => sent + [x] case None => sent
    ensures sent' + rest == sent + ((match f case Some(x) => [x] case None => []) + rest)
  {}

  // ----- a driver's packets -----

  /** The pieces one after another. */
  function Joined(pieces: seq<seq<byte>>): seq<byte> {
    if pieces == [] then [] else pieces[0] + Joined(pieces[1..])
  }

  /** The chain's buffers are in RAM and hold these pieces. */
  predicate Hold(ram: seq<byte>, base: uint64, desc: seq<Desc>, chain: seq<uint16>, pieces: seq<seq<byte>>) {
    && |pieces| == |chain|
    && forall i :: 0 <= i < |chain| ==>
         && chain[i] < |desc| && base <= desc[chain[i]].addr < base + |ram|
         && desc[chain[i]].addr - base + desc[chain[i]].len <= |ram|
         && pieces[i] == ram[desc[chain[i]].addr - base..desc[chain[i]].addr - base + desc[chain[i]].len]
  }

  lemma {:induction false} PiecesGathered(ram: seq<byte>, base: uint64, desc: seq<Desc>, chain: seq<uint16>,
                                          pieces: seq<seq<byte>>)
    requires WholeTable(base, |ram|, desc) && Hold(ram, base, desc, chain, pieces)
    ensures Concat(ram, base, desc, chain) == Joined(pieces)
    decreases |chain|
  {
    if chain != [] {
      hide WholeTable, Whole, Part, Translate, Hold;
      FirstPiece(ram, base, desc, chain, pieces);
      PiecesGathered(ram, base, desc, chain[1..], pieces[1..]);
    }
  }

  lemma FirstPiece(ram: seq<byte>, base: uint64, desc: seq<Desc>, chain: seq<uint16>, pieces: seq<seq<byte>>)
    requires WholeTable(base, |ram|, desc) && Hold(ram, base, desc, chain, pieces) && chain != []
    ensures |pieces| == |chain| && Hold(ram, base, desc, chain[1..], pieces[1..])
    ensures forall i :: 0 <= i < |chain| ==> chain[i] < |desc|
    ensures var d := desc[chain[0]]; Whole(base, |ram|, d.addr, d.len) && pieces[0] == Part(ram, base, d)
  {
    assert desc[chain[0]] in desc;
    hide WholeTable;
    forall i | 0 <= i < |chain| - 1
      ensures chain[1..][i] == chain[i + 1] && pieces[1..][i] == pieces[i + 1]
    {}
  }

  /** A packet laid out in a chain: a header of 12 bytes and the frame, cut into buffers anyhow. */
  ghost predicate Packet(ram: seq<byte>, base: uint64, desc: seq<Desc>, head: uint16, f: seq<byte>)
    requires Linked(desc) && head < |desc|
  {
    f != []
    && exists header: seq<byte>, pieces ::
         |header| == 12 && Hold(ram, base, desc, Chain(desc, head, |desc|), pieces) && Joined(pieces) == header + f
  }

  lemma PacketIsFrame(ram: seq<byte>, base: uint64, desc: seq<Desc>, head: uint16, f: seq<byte>)
    requires Linked(desc) && WholeTable(base, |ram|, desc) && head < |desc| && Packet(ram, base, desc, head, f)
    ensures FrameOf(Concat(ram, base, desc, Chain(desc, head, |desc|))) == Some(f)
  {
    hide Chain, WholeTable, Concat, Joined, Hold;
    var header: seq<byte>, pieces :|
      |header| == 12 && Hold(ram, base, desc, Chain(desc, head, |desc|), pieces) && Joined(pieces) == header + f;
    PiecesGathered(ram, base, desc, Chain(desc, head, |desc|), pieces);
    assert (header + f)[12..] == f;
  }

  lemma {:induction false} PacketsAreFrames(ram: seq<byte>, base: uint64, desc: seq<Desc>, heads: seq<uint16>,
                                            packets: seq<seq<byte>>)
    requires Linked(desc) && WholeTable(base, |ram|, desc) && |packets| == |heads|
    requires forall i :: 0 <= i < |heads| ==> heads[i] < |desc| && Packet(ram, base, desc, heads[i], packets[i])
    ensures Frames(ram, base, desc, heads) == packets
    decreases |heads|
  {
    if heads != [] {
      hide WholeTable, Packet, FrameOf, Concat, Chain;
      PacketIsFrame(ram, base, desc, heads[0], packets[0]);
      PacketsAreFrames(ram, base, desc, heads[1..], packets[1..]);
      assert packets == [packets[0]] + packets[1..];
    }
  }

  /** What the driver publishes is what the stack gets: each packet once, in order, without its
      header. */
  lemma PacketsAreSent(ram: seq<byte>, base: uint64, desc: seq<Desc>, s: Sent, packets: seq<seq<byte>>)
    requires InRange(desc, s.ring.avail, TX_SIZE) && Sized(s.ring, TX_SIZE) && WholeTable(base, |ram|, desc)
    requires |packets| == Backlog(s.ring)
    requires forall i :: 0 <= i < |packets| ==>
               Packet(ram, base, desc, s.ring.avail[(s.ring.lastAvail + i) % TWO_16 % 256], packets[i])
    ensures Transmit(ram, base, desc, s).frames == s.frames + packets
  {
    hide WholeTable, Packet, Frames, Transmit, HeadsInTable;
    TransmitSends(ram, base, desc, s);
    var heads := Heads(s.ring);
    forall i | 0 <= i < |heads|
      ensures heads[i] == s.ring.avail[(s.ring.lastAvail + i) % TWO_16 % 256]
    {
      HeadAt(s.ring, i);
    }
    PacketsAreFrames(ram, base, desc, heads, packets);
  }

  /** Every buffer of a drain comes back with length 0. */
  lemma {:induction false} BuffersComeBack(ram: seq<byte>, base: uint64, desc: seq<Desc>, s: Sent)
    requires InRange(desc, s.ring.avail, TX_SIZE) && Sized(s.ring, TX_SIZE) && WholeTable(base, |ram|, desc)
    ensures Transmit(ram, base, desc, s).ring == ReturnNext(s.ring, TX_SIZE, Backlog(s.ring))
    decreases Backlog(s.ring)
  {
    hide Complete, Backlog, WholeTable, InRange, FrameAt;
    if HasWork(s.ring) {
      BacklogDecreases(s.ring, TX_SIZE, 0);
      Completed(s.ring);
      BuffersComeBack(ram, base, desc, AfterOne(ram, base, desc, s));
      ReturnNextFromFront(s.ring, TX_SIZE, Backlog(s.ring));
    } else {
      NoBacklog(s.ring);
    }
  }

  lemma NoBacklog(r: Ring)
    requires !HasWork(r)
    ensures Backlog(r) == 0
  {}
}
