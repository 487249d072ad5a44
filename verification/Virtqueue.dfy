/** A device's queue over guest memory: descriptor table, rings, and `last_avail`
    (the `Queue`, `VDesc`, `VAvail` and `VUsed` of include/virtualization/virtio). */
module Virtqueue {
  import opened Bytes
  import opened GuestMemory
  import opened SplitRing

  datatype Desc = Desc(addr: uint64, len: uint32, flags: uint16, next: uint16) {
    /** VRING_DESC_F_NEXT, bit 0. */
    predicate HasNext() {
      flags % 2 == 1
    }

    /** VRING_DESC_F_WRITE, bit 1. */
    predicate Writable() {
      flags / 2 % 2 == 1
    }
  }

  /** Ring contents the code trusts: indices below the queue size. */
  predicate InRange(desc: seq<Desc>, avail: seq<uint16>, n: ringsize) {
    |desc| == n && |avail| == n
    && (forall i :: 0 <= i < n ==> avail[i] < n)
    && (forall i :: 0 <= i < n ==> desc[i].next < n)
  }

  /** Buffers that each lie wholly inside or wholly outside RAM. */
  predicate WholeTable(base: uint64, size: nat, desc: seq<Desc>) {
    forall s :: s in desc ==> Whole(base, size, s.addr, s.len)
  }

  class Queue {
    const n: ringsize
    const desc: array<Desc>
    const avail: array<uint16>
    const used: array<Used>
    var availIdx: uint16
    var usedIdx: uint16
    var lastAvail: uint16

    predicate Valid()
      reads this, desc, avail
    {
      desc.Length == n && avail.Length == n && used.Length == n && InRange(desc[..], avail[..], n)
    }

    ghost function View(): Ring
      reads this, avail, used
    {
      Ring(avail[..], availIdx, used[..], usedIdx, lastAvail)
    }

    /** The available ring and descriptors stay fixed while the device drains. */
    constructor (n: ringsize, desc: array<Desc>, avail: array<uint16>, used: array<Used>)
      requires desc.Length == n && avail.Length == n && used.Length == n && InRange(desc[..], avail[..], n)
      ensures Valid() && View() == Ring(avail[..], 0, used[..], 0, 0)
      ensures this.n == n && this.desc == desc && this.avail == avail && this.used == used
    {
      this.n, this.desc, this.avail, this.used := n, desc, avail, used;
      availIdx, usedIdx, lastAvail := 0, 0, 0;
    }

    method Peek() returns (head: uint16)
      requires Valid()
      ensures Sized(View(), n) && head == Head(View(), n) && head < n
    {
      head := avail[lastAvail % n];
    }

    /** The commit every device ends a buffer with. */
    method Return(head: uint16, len: uint32)
      requires Valid() && Sized(View(), n) && head == Head(View(), n)
      modifies this`usedIdx, this`lastAvail, used
      ensures Valid() && Sized(View(), n) && View() == Complete(old(View()), n, len)
    {
      var ui := usedIdx % n;
      used[ui] := Used(head, len);
      usedIdx := U16(usedIdx + 1);
      lastAvail := U16(lastAvail + 1);
    }

    method SkipOne()
      requires Valid()
      modifies this`lastAvail
      ensures Valid() && View() == Skip(old(View()))
    {
      lastAvail := U16(lastAvail + 1);
    }
  }

  /** `irq_status_ |= 1`; no other bit is ever set. */
  function RaiseIrq(status: uint32): (r: uint32)
    ensures r % 2 == 1 && r / 2 == status / 2
  {
    if status % 2 == 1 then status else status + 1
  }

  // ----- descriptor chains -----

  /** The chain from `c` on, cut off after `fuel` descriptors. */
  function Chain(desc: seq<Desc>, c: uint16, fuel: nat): (r: seq<uint16>)
    requires c < |desc| && forall i :: 0 <= i < |desc| ==> desc[i].next < |desc|
    ensures |r| <= fuel && (fuel > 0 ==> |r| > 0) && forall i :: 0 <= i < |r| ==> r[i] < |desc|
    decreases fuel
  {
    if fuel == 0 then []
    else [c] + if desc[c].HasNext() then Chain(desc, desc[c].next, fuel - 1) else []
  }

  lemma ChainStep(desc: seq<Desc>, c: uint16, fuel: nat)
    requires c < |desc| && (forall i :: 0 <= i < |desc| ==> desc[i].next < |desc|) && fuel > 0
    ensures Chain(desc, c, fuel) == [c] + if desc[c].HasNext() then Chain(desc, desc[c].next, fuel - 1) else []
  {}

  lemma ChainStops(desc: seq<Desc>, c: uint16)
    requires c < |desc| && (forall i :: 0 <= i < |desc| ==> desc[i].next < |desc|)
    ensures Chain(desc, c, 0) == []
  {}
}
