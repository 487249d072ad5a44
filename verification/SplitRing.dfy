/** The split virtqueue every device drains (sections 2.4.6 and 2.4.8 of Virtio 1.0): an
    available and a used ring indexed by free-running 16-bit counters. */
module SplitRing {
  import opened Bytes

  /** The queue sizes of the devices; all divide 2^16. */
  type ringsize = n: nat | n == 64 || n == 128 || n == 256 witness 128

  datatype Used = Used(id: uint32, len: uint32)

  /** The rings as they lie in guest memory, and the device's `last_avail`. */
  datatype Ring = Ring(avail: seq<uint16>, availIdx: uint16, used: seq<Used>, usedIdx: uint16, lastAvail: uint16)

  predicate Sized(r: Ring, n: ringsize) {
    |r.avail| == n && |r.used| == n
  }

  function U16(x: nat): uint16 {
    x % TWO_16
  }

  // ----- the device's view -----

  predicate HasWork(r: Ring) {
    r.lastAvail != r.availIdx
  }

  function Head(r: Ring, n: ringsize): uint16
    requires Sized(r, n)
  {
    r.avail[r.lastAvail % n]
  }

  /** Returns the next buffer: a used element, then the counter, then `last_avail`. */
  function Complete(r: Ring, n: ringsize, len: uint32): Ring
    requires Sized(r, n)
  {
    r.(used := r.used[r.usedIdx % n := Used(Head(r, n), len)], usedIdx := U16(r.usedIdx + 1),
       lastAvail := U16(r.lastAvail + 1))
  }

  /** Consumes the next buffer without returning it. */
  function Skip(r: Ring): Ring {
    r.(lastAvail := U16(r.lastAvail + 1))
  }

  /** What a drain loop still has to do; it decreases at every pass. */
  function Backlog(r: Ring): nat {
    U16(r.availIdx - r.lastAvail + TWO_16)
  }

  lemma BacklogDecreases(r: Ring, n: ringsize, len: uint32)
    requires Sized(r, n) && HasWork(r)
    ensures Backlog(Complete(r, n, len)) == Backlog(r) - 1 && Backlog(Skip(r)) == Backlog(r) - 1
  {
    OneCloser(r.availIdx, r.lastAvail);
    hide U16;
  }

  lemma OneCloser(a: uint16, l: uint16)
    requires a != l
    ensures U16(a - U16(l + 1) + TWO_16) == U16(a - l + TWO_16) - 1
  {}

  // ----- the driver's view -----

  function Publish(r: Ring, n: ringsize, head: uint16): Ring
    requires Sized(r, n)
  {
    r.(avail := r.avail[r.availIdx % n := head], availIdx := U16(r.availIdx + 1))
  }

  // ----- whole runs -----

  /** Everything that has happened: heads published, how many the device has taken, the elements
      it has returned, and those the driver has read back. */
  datatype Log = Log(published: seq<uint16>, taken: nat, returned: seq<Used>, reaped: seq<Used>)

  datatype System = System(ring: Ring, log: Log)

  datatype Event = DriverPublishes(head: uint16) | DeviceReturns(len: uint32) | DeviceSkips | DriverReaps

  /** A driver has at most `n` buffers outstanding; a device takes only what is published. */
  predicate Enabled(s: System, n: ringsize, e: Event) {
    match e
    case DriverPublishes(_) => |s.log.published| < |s.log.reaped| + n
    case DeviceReturns(_) => HasWork(s.ring)
    case DeviceSkips => HasWork(s.ring)
    case DriverReaps => U16(|s.log.reaped|) != s.ring.usedIdx
  }

  function Next(s: System, n: ringsize, e: Event): System
    requires Sized(s.ring, n)
  {
    var r, l := s.ring, s.log;
    match e
    case DriverPublishes(head) => System(Publish(r, n, head), l.(published := l.published + [head]))
    case DeviceReturns(len) =>
      System(Complete(r, n, len), l.(taken := l.taken + 1, returned := l.returned + [Used(Head(r, n), len)]))
    case DeviceSkips => System(Skip(r), l.(taken := l.taken + 1))
    case DriverReaps => s.(log := l.(reaped := l.reaped + [r.used[U16(|l.reaped|) % n]]))
  }

  predicate Run(s0: System, n: ringsize, events: seq<Event>, s: System)
    requires Sized(s0.ring, n)
    decreases |events|
  {
    if events == [] then s == s0
    else Enabled(s0, n, events[0]) && Run(Next(s0, n, events[0]), n, events[1..], s)
  }

  /** Rings and counters start at zero. */
  function Fresh(n: ringsize): (s: System)
    ensures Sized(s.ring, n)
  {
    System(Ring(seq(n, _ => 0), 0, seq(n, _ => Used(0, 0)), 0, 0), Log([], 0, [], []))
  }

  // ----- the invariant -----

  ghost predicate Inv(s: System, n: ringsize) {
    var r, l := s.ring, s.log;
    && Sized(r, n)
    && r.availIdx == U16(|l.published|) && r.lastAvail == U16(l.taken) && r.usedIdx == U16(|l.returned|)
    && |l.returned| <= l.taken <= |l.published| <= |l.reaped| + n
    && l.reaped <= l.returned
    && (forall i :: l.taken <= i < |l.published| ==> r.avail[i % n] == l.published[i])
    && (forall i :: |l.reaped| <= i < |l.returned| ==> r.used[i % n] == l.returned[i])
  }

  lemma WrapSlot(i: nat, n: ringsize)
    ensures U16(i) % n == i % n
  {
    var q, r := i / 0x1_0000, i % 0x1_0000;
    if n == 64 {
      SameMod(i, r, 64, 1024 * q);
    } else if n == 128 {
      SameMod(i, r, 128, 512 * q);
    } else {
      SameMod(i, r, 256, 256 * q);
    }
  }

  /** Numbers that differ by a multiple of `n` have the same slot. */
  lemma SameMod(i: nat, r: nat, n: ringsize, k: nat)
    requires i == n * k + r
    ensures i % n == r % n
  {
    if n == 64 {
      Mod64(r, k);
    } else if n == 128 {
      Mod128(r, k);
    } else {
      Mod256(r, k);
    }
  }

  lemma Mod64(r: nat, k: nat)
    ensures (64 * k + r) % 64 == r % 64
  {}

  lemma Mod128(r: nat, k: nat)
    ensures (128 * k + r) % 128 == r % 128
  {}

  lemma Mod256(r: nat, k: nat)
    ensures (256 * k + r) % 256 == r % 256
  {}

  /** Fewer than `n` consecutive positions have distinct slots. */
  lemma DistinctSlots(i: nat, j: nat, n: ringsize)
    requires i < j < i + n
    ensures i % n != j % n
  {
    if n == 64 {
      Distinct64(i, j);
    } else if n == 128 {
      Distinct128(i, j);
    } else {
      Distinct256(i, j);
    }
  }

  lemma Distinct64(i: nat, j: nat)
    requires i < j < i + 64
    ensures i % 64 != j % 64
  {}

  lemma Distinct128(i: nat, j: nat)
    requires i < j < i + 128
    ensures i % 128 != j % 128
  {}

  lemma Distinct256(i: nat, j: nat)
    requires i < j < i + 256
    ensures i % 256 != j % 256
  {}

  lemma NextU16(i: nat)
    ensures U16(U16(i) + 1) == U16(i + 1)
  {}

  lemma CountersDiffer(i: nat, j: nat)
    requires i <= j < i + TWO_16
    ensures U16(i) == U16(j) <==> i == j
    ensures U16(U16(j) - U16(i) + TWO_16) == j - i
  {}

  lemma PublishKeepsInv(s: System, n: ringsize, head: uint16)
    requires Inv(s, n) && Enabled(s, n, DriverPublishes(head))
    ensures Inv(Next(s, n, DriverPublishes(head)), n)
  {
    hide U16;
    var l := s.log;
    WrapSlot(|l.published|, n);
    NextU16(|l.published|);
    forall i | l.taken <= i < |l.published|
      ensures i % n != |l.published| % n
    {
      DistinctSlots(i, |l.published|, n);
    }
  }

  lemma TakeFacts(s: System, n: ringsize)
    requires Inv(s, n)
    ensures HasWork(s.ring) <==> s.log.taken < |s.log.published|
    ensures HasWork(s.ring) ==> Head(s.ring, n) == s.log.published[s.log.taken]
    ensures Backlog(s.ring) == |s.log.published| - s.log.taken
  {
    CountersDiffer(s.log.taken, |s.log.published|);
    WrapSlot(s.log.taken, n);
  }

  lemma ReturnKeepsInv(s: System, n: ringsize, len: uint32)
    requires Inv(s, n) && HasWork(s.ring)
    ensures Inv(Next(s, n, DeviceReturns(len)), n)
  {
    TakeFacts(s, n);
    hide U16, HasWork;
    var l := s.log;
    WrapSlot(|l.returned|, n);
    NextU16(|l.returned|);
    NextU16(l.taken);
    forall i | |l.reaped| <= i < |l.returned|
      ensures i % n != |l.returned| % n
    {
      DistinctSlots(i, |l.returned|, n);
    }
  }

  lemma NextKeepsInv(s: System, n: ringsize, e: Event)
    requires Inv(s, n) && Enabled(s, n, e)
    ensures Inv(Next(s, n, e), n)
  {
    match e
    case DriverPublishes(head) => PublishKeepsInv(s, n, head);
    case DeviceReturns(len) => ReturnKeepsInv(s, n, len);
    case DeviceSkips =>
      TakeFacts(s, n);
      NextU16(s.log.taken);
    case DriverReaps =>
      CountersDiffer(|s.log.reaped|, |s.log.returned|);
      WrapSlot(|s.log.reaped|, n);
  }

  lemma FreshInv(n: ringsize)
    ensures Inv(Fresh(n), n)
  {}

  lemma {:induction false} RunKeepsInv(s0: System, n: ringsize, events: seq<Event>, s: System)
    requires Inv(s0, n) && Run(s0, n, events, s)
    ensures Inv(s, n)
    decreases |events|
  {
    if events != [] {
      NextKeepsInv(s0, n, events[0]);
      RunKeepsInv(Next(s0, n, events[0]), n, events[1..], s);
    }
  }

  /** Over every run, across any number of counter wraps: a drain's work is exactly what is
      published and not yet taken, oldest first; and the driver reads back exactly what the
      device returned, so no element is overwritten before it is read. */
  lemma RingSafety(n: ringsize, events: seq<Event>, s: System)
    requires Run(Fresh(n), n, events, s)
    ensures Backlog(s.ring) == |s.log.published| - s.log.taken
    ensures HasWork(s.ring) ==>
              s.log.taken < |s.log.published| && Sized(s.ring, n) && Head(s.ring, n) == s.log.published[s.log.taken]
    ensures s.log.reaped <= s.log.returned
  {
    FreshInv(n);
    RunKeepsInv(Fresh(n), n, events, s);
    TakeFacts(s, n);
  }

  // ----- devices that return every buffer -----

  /** The elements returned name the heads taken, one for one and in order. */
  ghost predicate InOrder(l: Log) {
    |l.returned| == l.taken <= |l.published|
    && forall i :: 0 <= i < l.taken ==> l.returned[i].id == l.published[i]
  }

  lemma {:induction false} ReturnedInOrder(s0: System, n: ringsize, events: seq<Event>, s: System)
    requires Inv(s0, n) && InOrder(s0.log) && Run(s0, n, events, s) && DeviceSkips !in events
    ensures Inv(s, n) && InOrder(s.log)
    decreases |events|
  {
    if events != [] {
      var e := events[0];
      assert e in events;
      TakeFacts(s0, n);
      NextKeepsInv(s0, n, e);
      hide Inv;
      ReturnedInOrder(Next(s0, n, e), n, events[1..], s);
    }
  }

  /** With a device that skips nothing, every published head comes back exactly once and in
      order, and once the backlog is drained `used.idx` equals `avail.idx`. */
  lemma ExactlyOnce(n: ringsize, events: seq<Event>, s: System)
    requires Run(Fresh(n), n, events, s) && DeviceSkips !in events
    ensures InOrder(s.log) && s.ring.usedIdx == s.ring.lastAvail
    ensures !HasWork(s.ring) ==> |s.log.returned| == |s.log.published|
    ensures forall i :: 0 <= i < |s.log.reaped| ==> i < |s.log.published| && s.log.reaped[i].id == s.log.published[i]
  {
    FreshInv(n);
    ReturnedInOrder(Fresh(n), n, events, s);
    TakeFacts(s, n);
  }

  // ----- a drain that returns everything empty -----

  /** The next `k` buffers returned with length 0. */
  function ReturnNext(r: Ring, n: ringsize, k: nat): (r': Ring)
    requires Sized(r, n)
    ensures Sized(r', n) && r'.avail == r.avail && r'.availIdx == r.availIdx
  {
    if k == 0 then r else Complete(ReturnNext(r, n, k - 1), n, 0)
  }

  lemma {:induction false} ReturnNextFromFront(r: Ring, n: ringsize, k: nat)
    requires Sized(r, n) && k > 0
    ensures ReturnNext(r, n, k) == ReturnNext(Complete(r, n, 0), n, k - 1)
    decreases k
  {
    if k > 1 {
      hide Complete;
      ReturnNextFromFront(r, n, k - 1);
    } else {
      assert ReturnNext(r, n, 0) == r && ReturnNext(Complete(r, n, 0), n, 0) == Complete(r, n, 0);
    }
  }

  lemma {:induction false} ReturnNextCounts(r: Ring, n: ringsize, k: nat)
    requires Sized(r, n)
    ensures ReturnNext(r, n, k).usedIdx == U16(r.usedIdx + k) && ReturnNext(r, n, k).lastAvail == U16(r.lastAvail + k)
    decreases k
  {
    hide U16;
    if k > 0 {
      ReturnNextCounts(r, n, k - 1);
      NextU16(r.usedIdx + (k - 1));
      NextU16(r.lastAvail + (k - 1));
    } else {
      SmallU16(r.usedIdx);
      SmallU16(r.lastAvail);
    }
  }

  lemma SmallU16(x: uint16)
    ensures U16(x + 0) == x
  {}

  /** Each of at most `n` buffers so returned is in the used ring, in order, with its head and
      length 0. */
  lemma {:induction false} ReturnedEmpty(r: Ring, n: ringsize, k: nat, i: nat)
    requires Sized(r, n) && i < k <= n
    ensures ReturnNext(r, n, k).used[(r.usedIdx + i) % n] == Used(r.avail[U16(r.lastAvail + i) % n], 0)
    decreases k
  {
    hide U16;
    ReturnNextCounts(r, n, k - 1);
    WrapSlot(r.usedIdx + (k - 1), n);
    if i < k - 1 {
      ReturnedEmpty(r, n, k - 1, i);
      DistinctSlots(r.usedIdx + i, r.usedIdx + (k - 1), n);
    }
  }
}
