/** The receive path of src/virtio/net.cpp on values: frames from the stack wait in a queue, a
    flush thread takes them in batches, and each is written to the driver's next buffer. */
module NetReceive {
  import opened Bytes
  import opened GuestMemory
  import opened SplitRing
  import opened Virtqueue
  import opened NetChains

  const QUEUE_SIZE: ringsize := 256
  const MAX_FRAME := 0xFFFF_FFFF - HDR_SIZE

  type frame = f: seq<byte> | |f| <= MAX_FRAME witness []

  /** The zeroed virtio-net header with `num_buffers` = 1 (section 5.1.6 of Virtio 1.0). */
  function Header(): (h: seq<byte>)
    ensures |h| == HDR_SIZE
  {
    Zeros(10) + Le16(1)
  }

  datatype World = World(ram: seq<byte>, ring: Ring)

  predicate Trusted(w: World, base: uint64, desc: seq<Desc>) {
    InRange(desc, w.ring.avail, QUEUE_SIZE) && Sized(w.ring, QUEUE_SIZE) && WholeTable(base, |w.ram|, desc)
  }

  function NextBuffer(w: World, base: uint64, desc: seq<Desc>): Desc
    requires Trusted(w, base, desc)
  {
    desc[Head(w.ring, QUEUE_SIZE)]
  }

  /** Whether the driver's next buffer can take the frame. */
  predicate Fits(w: World, base: uint64, desc: seq<Desc>, f: frame)
    requires Trusted(w, base, desc)
  {
    var d := NextBuffer(w, base, desc);
    HasWork(w.ring) && Translate(base, |w.ram|, d.addr).Some? && d.len >= |f| + HDR_SIZE
  }

  function Place(w: World, base: uint64, desc: seq<Desc>, f: frame): (at: nat)
    requires Trusted(w, base, desc) && Fits(w, base, desc, f)
    ensures at + HDR_SIZE + |f| <= |w.ram|
  {
    var d := NextBuffer(w, base, desc);
    assert d in desc;
    Translate(base, |w.ram|, d.addr).value
  }

  /** One frame: delivered in a single buffer, or dropped with the rings untouched. */
  function Feed(w: World, base: uint64, desc: seq<Desc>, f: frame): (w': World)
    requires Trusted(w, base, desc)
    ensures Trusted(w', base, desc) && |w'.ram| == |w.ram|
  {
    if Fits(w, base, desc, f) then
      World(Splice(w.ram, Place(w, base, desc, f), Header() + f), Complete(w.ring, QUEUE_SIZE, |f| + HDR_SIZE))
    else w
  }

  function FeedAll(w: World, base: uint64, desc: seq<Desc>, fs: seq<frame>): (w': World)
    requires Trusted(w, base, desc)
    ensures Trusted(w', base, desc) && |w'.ram| == |w.ram|
    decreases |fs|
  {
    if fs == [] then w else FeedAll(Feed(w, base, desc, fs[0]), base, desc, fs[1..])
  }

  /** Whether any of the frames is delivered. */
  predicate AnyFits(w: World, base: uint64, desc: seq<Desc>, fs: seq<frame>)
    requires Trusted(w, base, desc)
    decreases |fs|
  {
    fs != [] && (Fits(w, base, desc, fs[0]) || AnyFits(Feed(w, base, desc, fs[0]), base, desc, fs[1..]))
  }

  // ----- every interleaving of the stack, the flush thread and the guest -----

  /** A buffer the device returned: what the driver finds in it, and which enqueued frame it is. */
  datatype Delivery = Delivery(serial: nat, contents: seq<byte>)

  datatype Net = Net(w: World, desc: seq<Desc>, live: bool, rxQueue: seq<frame>, batch: seq<frame>,
                     enqueued: seq<frame>, delivered: seq<Delivery>)

  datatype Event =
    | Enqueue(f: frame)
    | TakeBatch
    | FeedNext
    | GuestActs(w: World, desc: seq<Desc>, live: bool)

  predicate Enabled(n: Net, base: uint64, e: Event) {
    match e
    case Enqueue(_) => true
    case TakeBatch => n.batch == [] && n.rxQueue != []
    case FeedNext => n.batch != [] && (n.live ==> Trusted(n.w, base, n.desc))
    case GuestActs(w, _, _) => |w.ram| == |n.w.ram|
  }

  /** The driver's view of the newest used element: the bytes of its buffer, as long as it says. */
  function ReadBack(w: World, at: nat): seq<byte>
    requires |w.ring.used| == QUEUE_SIZE
  {
    var u := w.ring.used[U16(w.ring.usedIdx + 0xFFFF) % QUEUE_SIZE];
    if at + u.len <= |w.ram| then w.ram[at..at + u.len] else []
  }

  function Next(n: Net, base: uint64, e: Event): Net
    requires Enabled(n, base, e) && |n.rxQueue| + |n.batch| <= |n.enqueued|
  {
    match e
    case Enqueue(f) => n.(rxQueue := n.rxQueue + [f], enqueued := n.enqueued + [f])
    case TakeBatch => n.(rxQueue := [], batch := n.rxQueue)
    case FeedNext =>
      var f := n.batch[0];
      if n.live && Fits(n.w, base, n.desc, f) then
        var w' := Feed(n.w, base, n.desc, f);
        var got := ReadBack(w', Place(n.w, base, n.desc, f));
        n.(w := w', batch := n.batch[1..],
           delivered := n.delivered + [Delivery(|n.enqueued| - |n.rxQueue| - |n.batch|, got)])
      else n.(batch := n.batch[1..])
    case GuestActs(w, desc, live) => n.(w := w, desc := desc, live := live)
  }

  /** What waits is the newest part of what was enqueued; what was delivered is an in-order,
      duplicate-free selection of what came before, each under its own header. */
  ghost predicate Inv(n: Net) {
    var first := |n.enqueued| - |n.rxQueue| - |n.batch|;
    && first >= 0
    && n.batch + n.rxQueue == n.enqueued[first..]
    && (forall i :: 0 <= i < |n.delivered| ==>
          n.delivered[i].serial < first && n.delivered[i].contents == Header() + n.enqueued[n.delivered[i].serial])
    && (forall i, j :: 0 <= i < j < |n.delivered| ==> n.delivered[i].serial < n.delivered[j].serial)
  }

  lemma SpliceRead(s: seq<byte>, at: nat, d: seq<byte>)
    requires at + |d| <= |s|
    ensures Splice(s, at, d)[at..at + |d|] == d
  {}

  /** The driver finds in its buffer the header and then exactly the frame. */
  lemma FeedReadsBack(w: World, base: uint64, desc: seq<Desc>, f: frame)
    requires Trusted(w, base, desc) && Fits(w, base, desc, f)
    ensures ReadBack(Feed(w, base, desc, f), Place(w, base, desc, f)) == Header() + f
  {
    SpliceRead(w.ram, Place(w, base, desc, f), Header() + f);
    assert U16(U16(w.ring.usedIdx + 1) + 0xFFFF) == w.ring.usedIdx;
  }

  lemma FeedKeepsInv(n: Net, base: uint64)
    requires Inv(n) && Enabled(n, base, FeedNext)
    ensures Inv(Next(n, base, FeedNext))
  {
    hide Trusted, Header, ReadBack, Feed, Place, Fits;
    var f := n.batch[0];
    var first := |n.enqueued| - |n.rxQueue| - |n.batch|;
    assert f == (n.batch + n.rxQueue)[0] == n.enqueued[first];
    assert n.batch[1..] + n.rxQueue == n.enqueued[first + 1..];
    if n.live && Fits(n.w, base, n.desc, f) {
      FeedReadsBack(n.w, base, n.desc, f);
    }
  }

  lemma NextKeepsInv(n: Net, base: uint64, e: Event)
    requires Inv(n) && Enabled(n, base, e)
    ensures Inv(Next(n, base, e))
  {
    hide Trusted, Header;
    match e
    case Enqueue(f) =>
      assert n.batch + (n.rxQueue + [f]) == n.enqueued[|n.enqueued| - |n.rxQueue| - |n.batch|..] + [f];
    case TakeBatch => assert n.rxQueue + [] == n.batch + n.rxQueue;
    case FeedNext => FeedKeepsInv(n, base);
    case GuestActs(_, _, _) =>
  }

  ghost predicate Run(n0: Net, base: uint64, events: seq<Event>, n: Net)
    decreases |events|
  {
    if events == [] then n == n0
    else
      |n0.rxQueue| + |n0.batch| <= |n0.enqueued| && Enabled(n0, base, events[0])
      && Run(Next(n0, base, events[0]), base, events[1..], n)
  }

  lemma {:induction false} RunKeepsInv(n0: Net, base: uint64, events: seq<Event>, n: Net)
    requires Inv(n0) && Run(n0, base, events, n)
    ensures Inv(n)
    decreases |events|
  {
    if events != [] {
      NextKeepsInv(n0, base, events[0]);
      hide Inv, Next;
      RunKeepsInv(Next(n0, base, events[0]), base, events[1..], n);
    }
  }

  /** Over every interleaving, from nothing enqueued: the buffers the driver was given hold an
      in-order, duplicate-free subsequence of the frames enqueued, each behind the header. */
  lemma FrameHandOff(w0: World, desc0: seq<Desc>, live0: bool, base: uint64, events: seq<Event>, n: Net)
    requires Run(Net(w0, desc0, live0, [], [], [], []), base, events, n)
    ensures Inv(n)
  {
    hide Run;
    RunKeepsInv(Net(w0, desc0, live0, [], [], [], []), base, events, n);
  }

  // ----- when a frame is delivered -----

  /** The buffer's descriptor is in RAM and holds the frame behind its 12 bytes of header. */
  predicate Takes(d: Desc, base: uint64, size: nat, f: frame) {
    base <= d.addr < base + size && d.len >= |f| + 12
  }

  /** The buffer a frame `i` places down the queue would go to. */
  function BufferAt(w: World, desc: seq<Desc>, i: nat): Desc
    requires InRange(desc, w.ring.avail, QUEUE_SIZE)
  {
    desc[w.ring.avail[(w.ring.lastAvail + i) % TWO_16 % 256]]
  }

  /** A frame is delivered whenever a buffer is posted and the next one takes it: ten zero bytes,
      `num_buffers` 1, and the frame, in a used buffer of that length. Otherwise it is dropped and
      nothing changes. */
  lemma FrameInBuffer(w: World, base: uint64, desc: seq<Desc>, f: frame)
    requires Trusted(w, base, desc)
    ensures var d, w' := BufferAt(w, desc, 0), Feed(w, base, desc, f);
            if w.ring.lastAvail != w.ring.availIdx && Takes(d, base, |w.ram|, f) then
              var at := d.addr - base;
              && at + 12 + |f| <= |w.ram|
              && w'.ram == Splice(w.ram, at, [0, 0, 0, 0, 0, 0, 0, 0, 0, 0, 1, 0] + f)
              && w'.ring.used == w.ring.used[w.ring.usedIdx % 256 :=
                                             Used(w.ring.avail[w.ring.lastAvail % 256], |f| + 12)]
              && w'.ring.usedIdx == (w.ring.usedIdx + 1) % TWO_16
              && w'.ring.lastAvail == (w.ring.lastAvail + 1) % TWO_16
            else w' == w
  {
    hide Splice, Header, Complete, WholeTable;
    HeaderBytes();
    CompletedAt(w.ring, |f| + HDR_SIZE);
    NextIsFirst(w, base, desc);
  }

  lemma NextIsFirst(w: World, base: uint64, desc: seq<Desc>)
    requires Trusted(w, base, desc)
    ensures var d := BufferAt(w, desc, 0);
            && NextBuffer(w, base, desc) == d && Whole(base, |w.ram|, d.addr, d.len)
            && Head(w.ring, QUEUE_SIZE) == w.ring.avail[w.ring.lastAvail % 256]
  {
    assert BufferAt(w, desc, 0) in desc;
  }

  lemma CompletedAt(r: Ring, len: uint32)
    requires Sized(r, QUEUE_SIZE)
    ensures var r' := Complete(r, QUEUE_SIZE, len);
            && r'.used == r.used[r.usedIdx % 256 := Used(Head(r, QUEUE_SIZE), len)]
            && r'.usedIdx == (r.usedIdx + 1) % TWO_16 && r'.lastAvail == (r.lastAvail + 1) % TWO_16
            && r'.avail == r.avail && r'.availIdx == r.availIdx
  {}

  lemma HeaderBytes()
    ensures Header() == [0, 0, 0, 0, 0, 0, 0, 0, 0, 0, 1, 0]
  {}

  lemma NextButOne(last: uint16, i: nat)
    ensures ((last + 1) % TWO_16 + i) % TWO_16 == (last + (i + 1)) % TWO_16
  {}

  lemma FedOne(w: World, base: uint64, desc: seq<Desc>, f: frame)
    requires Trusted(w, base, desc) && Backlog(w.ring) > 0 && Takes(BufferAt(w, desc, 0), base, |w.ram|, f)
    ensures var w' := Feed(w, base, desc, f);
            && w'.ring.avail == w.ring.avail && Backlog(w'.ring) == Backlog(w.ring) - 1
            && w'.ring.usedIdx == (w.ring.usedIdx + 1) % TWO_16
            && w'.ring.lastAvail == (w.ring.lastAvail + 1) % TWO_16
  {
    FrameInBuffer(w, base, desc, f);
    BacklogDecreases(w.ring, QUEUE_SIZE, |f| + HDR_SIZE);
  }

  /** A whole batch is delivered, one buffer for each frame, when that many are posted and each
      takes its frame. */
  lemma {:induction false} NoFrameDropped(w: World, base: uint64, desc: seq<Desc>, fs: seq<frame>)
    requires Trusted(w, base, desc) && |fs| <= Backlog(w.ring)
    requires forall i :: 0 <= i < |fs| ==> Takes(BufferAt(w, desc, i), base, |w.ram|, fs[i])
    ensures var w' := FeedAll(w, base, desc, fs);
            && w'.ring.usedIdx == (w.ring.usedIdx + |fs|) % TWO_16 && Backlog(w'.ring) == Backlog(w.ring) - |fs|
    decreases |fs|
  {
    if fs != [] {
      hide Feed, Trusted, Backlog, Takes;
      var w' := Feed(w, base, desc, fs[0]);
      FedOne(w, base, desc, fs[0]);
      forall i | 0 <= i < |fs| - 1
        ensures Takes(BufferAt(w', desc, i), base, |w'.ram|, fs[1..][i])
      {
        NextButOne(w.ring.lastAvail, i);
        assert BufferAt(w', desc, i) == BufferAt(w, desc, i + 1);
      }
      NoFrameDropped(w', base, desc, fs[1..]);
      NextButOne(w.ring.usedIdx, |fs| - 1);
    }
  }
}
