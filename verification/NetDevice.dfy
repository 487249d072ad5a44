/** The virtio-net device of src/virtio/net.cpp: frames handed between the driver's rings and
    the network stack, updated in place. */
module NetDevice {
  import opened Bytes
  import opened GuestMemory
  import opened SplitRing
  import opened Virtqueue
  import opened NetChains
  import opened NetReceive
  import opened NetTransmit

  class Net {
    const rxq: Queue
    const txq: Queue
    const ram: array<byte>
    const base: uint64
    var rxLive: bool
    var txLive: bool
    var rxQueue: seq<frame>
    var irqStatus: uint32
    /** The frames given to the network stack. */
    var sent: seq<seq<byte>>

    constructor (rxq: Queue, txq: Queue, ram: array<byte>, base: uint64)
      ensures this.rxq == rxq && this.txq == txq && this.ram == ram && this.base == base
      ensures rxQueue == [] && sent == [] && irqStatus == 0
    {
      this.rxq, this.txq, this.ram, this.base := rxq, txq, ram, base;
      rxLive, txLive, rxQueue, irqStatus, sent := false, false, [], 0, [];
    }

    ghost predicate Valid()
      reads this, rxq, rxq.desc, rxq.avail, txq, txq.desc, txq.avail, ram
    {
      rxq.Valid() && rxq.n == QUEUE_SIZE && txq.Valid() && txq.n == QUEUE_SIZE
      && rxq != txq && rxq.used != txq.used
      && WholeTable(base, ram.Length, rxq.desc[..]) && WholeTable(base, ram.Length, txq.desc[..])
    }

    ghost function RxView(): World
      reads this, rxq, rxq.avail, rxq.used, ram
    {
      World(ram[..], rxq.View())
    }

    method EnqueueRx(f: frame)
      modifies this`rxQueue
      ensures rxQueue == old(rxQueue) + [f]
    {
      rxQueue := rxQueue + [f];
    }

    method DoFeedRx(f: frame)
      requires Valid()
      modifies this`irqStatus, ram, rxq`usedIdx, rxq`lastAvail, rxq.used
      ensures Valid() && Trusted(old(RxView()), base, rxq.desc[..])
      ensures RxView() == if rxLive then Feed(old(RxView()), base, rxq.desc[..], f) else old(RxView())
      ensures irqStatus == if rxLive && Fits(old(RxView()), base, rxq.desc[..], f) then RaiseIrq(old(irqStatus))
                           else old(irqStatus)
    {
      if !rxLive || rxq.lastAvail == rxq.availIdx {
        return;
      }
      var head := rxq.Peek();
      var buf, cap := Translate(base, ram.Length, rxq.desc[head].addr), rxq.desc[head].len;
      if buf.None? || cap < |f| + HDR_SIZE {
        return;
      }
      ghost var at := Place(RxView(), base, rxq.desc[..], f);
      ghost var before := ram[..];
      CopyInto(ram, buf.value, Zeros(HDR_SIZE));
      CopyInto(ram, buf.value + 10, Le16(1));
      CopyInto(ram, buf.value + HDR_SIZE, f);
      ThreeCopies(before, at, f);
      rxq.Return(head, |f| + HDR_SIZE);
      irqStatus := RaiseIrq(irqStatus);
    }

    /** The section of the flush thread under the queue's mutex. */
    method TakeBatch() returns (batch: seq<frame>)
      requires Valid()
      modifies this`rxQueue
      ensures Valid() && rxQueue == [] && batch == old(rxQueue)
      ensures RxView() == old(RxView()) && Trusted(RxView(), base, rxq.desc[..])
    {
      batch := [];
      while rxQueue != []
        invariant batch + rxQueue == old(rxQueue)
      {
        batch, rxQueue := batch + [rxQueue[0]], rxQueue[1..];
      }
    }

    /** One round of the flush thread: the whole queue is taken, then fed in order. */
    method FlushRound()
      requires Valid()
      modifies this`rxQueue, this`irqStatus, ram, rxq`usedIdx, rxq`lastAvail, rxq.used
      ensures Valid() && rxQueue == [] && Trusted(old(RxView()), base, rxq.desc[..])
      ensures RxView() == if rxLive then FeedAll(old(RxView()), base, rxq.desc[..], old(rxQueue)) else old(RxView())
      ensures irqStatus == if rxLive && AnyFits(old(RxView()), base, rxq.desc[..], old(rxQueue))
                           then RaiseIrq(old(irqStatus)) else old(irqStatus)
    {
      hide Feed, Fits, FeedAll, AnyFits, RaiseIrq, Queue.View, Queue.Valid, Trusted, Net.Valid;
      var batch := TakeBatch();
      ghost var w0, desc := RxView(), rxq.desc[..];
      ghost var delivered := false;
      var i := 0;
      assert batch[0..] == batch;
      while i < |batch|
        invariant 0 <= i <= |batch| && Valid() && rxQueue == [] && rxq.desc[..] == desc
        invariant Trusted(RxView(), base, desc)
        invariant rxLive ==> FeedAll(RxView(), base, desc, batch[i..]) == FeedAll(w0, base, desc, batch)
        invariant !rxLive ==> RxView() == w0
        invariant rxLive ==>
                    (AnyFits(w0, base, desc, batch) <==> delivered || AnyFits(RxView(), base, desc, batch[i..]))
        invariant irqStatus == if rxLive && delivered then RaiseIrq(old(irqStatus)) else old(irqStatus)
      {
        FeedOne(RxView(), base, desc, batch, i);
        RaiseIrqTwice(old(irqStatus));
        delivered := delivered || Fits(RxView(), base, desc, batch[i]);
        DoFeedRx(batch[i]);
        i := i + 1;
      }
      assert batch[i..] == [];
      NothingToFeed(RxView(), base, desc);
    }

    method ProcessTx()
      requires Valid() && Sized(txq.View(), QUEUE_SIZE) && ChainsEnd(txq.View(), txq.desc[..])
      modifies this`irqStatus, this`sent, txq`usedIdx, txq`lastAvail, txq.used
      ensures Valid() && Sized(old(txq.View()), QUEUE_SIZE)
      ensures Sent(txq.View(), sent) ==
              if txLive then Transmit(ram[..], base, txq.desc[..], old(Sent(txq.View(), sent)))
              else old(Sent(txq.View(), sent))
      ensures irqStatus == if txLive then RaiseIrq(old(irqStatus)) else old(irqStatus)
    {
      if !txLive {
        return;
      }
      ghost var s0, desc := Sent(txq.View(), sent), txq.desc[..];
      while txq.lastAvail != txq.availIdx
        invariant Valid() && txLive && irqStatus == old(irqStatus) && txq.desc[..] == desc
        invariant Sized(txq.View(), QUEUE_SIZE) && ChainsEnd(txq.View(), desc)
        invariant Transmit(ram[..], base, desc, Sent(txq.View(), sent)) == Transmit(ram[..], base, desc, s0)
        decreases Backlog(txq.View())
      {
        hide WholeTable, Chain, Cyclic, Concat, ChainsEnd, Heads;
        BacklogDecreases(txq.View(), QUEUE_SIZE, 0);
        FirstChainEnds(txq.View(), desc);
        var head := txq.Peek();
        var frame := GatherFrame(ram[..], base, txq.desc[..], head);
        if |frame| > HDR_SIZE {
          sent := sent + [frame[HDR_SIZE..]];
        }
        txq.Return(head, 0);
      }
      irqStatus := RaiseIrq(irqStatus);
    }
  }

  lemma RaiseIrqTwice(status: uint32)
    ensures RaiseIrq(RaiseIrq(status)) == RaiseIrq(status)
  {}

  /** A batch taken one frame on. */
  lemma FeedOne(w: World, base: uint64, desc: seq<Desc>, batch: seq<frame>, i: nat)
    requires Trusted(w, base, desc) && i < |batch|
    ensures var w' := Feed(w, base, desc, batch[i]);
            && FeedAll(w, base, desc, batch[i..]) == FeedAll(w', base, desc, batch[i + 1..])
            && (AnyFits(w, base, desc, batch[i..])
                <==> Fits(w, base, desc, batch[i]) || AnyFits(w', base, desc, batch[i + 1..]))
  {
    hide Trusted, Feed, Fits;
    assert batch[i..][0] == batch[i] && batch[i..][1..] == batch[i + 1..];
  }

  lemma NothingToFeed(w: World, base: uint64, desc: seq<Desc>)
    requires Trusted(w, base, desc)
    ensures FeedAll(w, base, desc, []) == w && !AnyFits(w, base, desc, [])
  {}

  lemma ThreeCopies(s: seq<byte>, at: nat, f: frame)
    requires at + HDR_SIZE + |f| <= |s|
    ensures Splice(Splice(Splice(s, at, Zeros(HDR_SIZE)), at + 10, Le16(1)), at + HDR_SIZE, f)
            == Splice(s, at, Header() + f)
  {
    assert Header()[10..] == Le16(1);
  }
}
