/** What the guest reads back of a block request: its status byte, with the numbers of section
    5.2.6 of Virtio 1.0, and the device's identifier. */
module BlockStatus {
  import opened Bytes
  import opened GuestMemory
  import opened SplitRing
  import opened Virtqueue
  import opened BlockDevice
  import opened BlockProofs

  // ----- when a data request succeeds -----

  /** The sectors passed over by the first `i` segments. */
  function Passed(segs: seq<Desc>, i: nat): nat
    requires i <= |segs|
  {
    if i == 0 then 0 else Passed(segs, i - 1) + segs[i - 1].len / 512
  }

  function Reached(sector: uint64, segs: seq<Desc>, i: nat): uint64
    requires i <= |segs|
  {
    (sector + Passed(segs, i)) % TWO_64
  }

  predicate Mapped(base: uint64, size: nat, s: Desc) {
    base <= s.addr < base + size
  }

  /** A segment that `pread` fills at its offset, which must be a file position. */
  predicate Filled(base: uint64, size: nat, disk: nat, s: Desc, sector: uint64) {
    var off := sector * 512 % TWO_64;
    Mapped(base, size, s) && off < 0x8000_0000_0000_0000 && (s.len == 0 || off + s.len <= disk)
  }

  /** A segment that `pwrite` stores. */
  predicate Stored(base: uint64, size: nat, s: Desc, sector: uint64) {
    var off := sector * 512 % TWO_64;
    Mapped(base, size, s) && off + s.len <= 0x8000_0000_0000_0000 && off < 0x8000_0000_0000_0000
  }

  predicate AllFilled(base: uint64, size: nat, disk: nat, segs: seq<Desc>, sector: uint64) {
    forall i :: 0 <= i < |segs| ==> Filled(base, size, disk, segs[i], Reached(sector, segs, i))
  }

  predicate AllStored(base: uint64, size: nat, segs: seq<Desc>, sector: uint64) {
    forall i :: 0 <= i < |segs| ==> Stored(base, size, segs[i], Reached(sector, segs, i))
  }

  lemma {:induction false} PassedFromFront(segs: seq<Desc>, i: nat)
    requires 0 < i <= |segs|
    ensures Passed(segs, i) == segs[0].len / 512 + Passed(segs[1..], i - 1)
    decreases i
  {
    if i > 1 {
      PassedFromFront(segs, i - 1);
    }
  }

  lemma SumMod(a: nat, b: nat, c: nat)
    ensures ((a + b) % TWO_64 + c) % TWO_64 == (a + (b + c)) % TWO_64
  {}

  lemma ReachedFromFront(sector: uint64, segs: seq<Desc>, i: nat)
    requires 0 < i <= |segs|
    ensures Reached(sector, segs, i) == Reached((sector + segs[0].len / 512) % TWO_64, segs[1..], i - 1)
  {
    PassedFromFront(segs, i);
    SumMod(sector, segs[0].len / 512, Passed(segs[1..], i - 1));
  }

  lemma ReachedFirst(sector: uint64, segs: seq<Desc>)
    ensures Reached(sector, segs, 0) == sector
  {}

  lemma FilledFromFront(base: uint64, size: nat, disk: nat, segs: seq<Desc>, sector: uint64)
    requires segs != []
    ensures AllFilled(base, size, disk, segs, sector)
            <==> Filled(base, size, disk, segs[0], sector)
                 && AllFilled(base, size, disk, segs[1..], (sector + segs[0].len / 512) % TWO_64)
  {
    hide Filled, Reached, Passed;
    var rest, next := segs[1..], (sector + segs[0].len / 512) % TWO_64;
    ReachedFirst(sector, segs);
    forall i | 0 < i < |segs|
      ensures Reached(sector, segs, i) == Reached(next, rest, i - 1) && segs[i] == rest[i - 1]
    {
      ReachedFromFront(sector, segs, i);
    }
    if AllFilled(base, size, disk, segs, sector) {
      forall i | 0 <= i < |rest|
        ensures Filled(base, size, disk, rest[i], Reached(next, rest, i))
      {
        assert Filled(base, size, disk, segs[i + 1], Reached(sector, segs, i + 1));
      }
    }
  }

  lemma StoredFromFront(base: uint64, size: nat, segs: seq<Desc>, sector: uint64)
    requires segs != []
    ensures AllStored(base, size, segs, sector)
            <==> Stored(base, size, segs[0], sector)
                 && AllStored(base, size, segs[1..], (sector + segs[0].len / 512) % TWO_64)
  {
    hide Stored, Reached, Passed;
    var rest, next := segs[1..], (sector + segs[0].len / 512) % TWO_64;
    ReachedFirst(sector, segs);
    forall i | 0 < i < |segs|
      ensures Reached(sector, segs, i) == Reached(next, rest, i - 1) && segs[i] == rest[i - 1]
    {
      ReachedFromFront(sector, segs, i);
    }
    if AllStored(base, size, segs, sector) {
      forall i | 0 <= i < |rest|
        ensures Stored(base, size, rest[i], Reached(next, rest, i))
      {
        assert Stored(base, size, segs[i + 1], Reached(sector, segs, i + 1));
      }
    }
  }

  lemma OffsetIs(sector: uint64)
    ensures var off := sector * 512 % TWO_64;
            if off < 0x8000_0000_0000_0000 then FileOffset(sector) == off else FileOffset(sector) < 0
  {}

  lemma PreadFills(disk: seq<byte>, len: nat, off: nat)
    ensures |Pread(disk, len, off)| == len <==> len == 0 || off + len <= |disk|
  {}

  lemma ReadOne(h: Host, base: uint64, segs: seq<Desc>, sector: uint64, total: uint32)
    returns (h2: Host, total2: uint32)
    requires WholeTable(base, |h.ram|, segs) && segs != []
    ensures |h2.ram| == |h.ram| && h2.disk == h.disk && WholeTable(base, |h.ram|, segs[1..])
    ensures var o, s := ReadSegments(h, base, segs, sector, total), segs[0];
            if Filled(base, |h.ram|, |h.disk|, s, sector) then
              o == ReadSegments(h2, base, segs[1..], (sector + s.len / 512) % TWO_64, total2)
            else o.status == 1
  {
    hide Splice, WholeTable, U32, FileOffset, Pread;
    RestIsWhole(base, |h.ram|, segs);
    OffsetIs(sector);
    var s := segs[0];
    h2, total2 := h, U32(total as int + s.len as int);
    if Translate(base, |h.ram|, s.addr).Some? && FileOffset(sector) >= 0 {
      var data := Pread(h.disk, s.len, FileOffset(sector));
      PreadFills(h.disk, s.len, FileOffset(sector));
      h2 := h.(ram := Splice(h.ram, s.addr - base, data));
    }
  }

  lemma RestIsWhole(base: uint64, size: nat, segs: seq<Desc>)
    requires WholeTable(base, size, segs) && segs != []
    ensures WholeTable(base, size, segs[1..])
    ensures Mapped(base, size, segs[0]) ==> segs[0].addr + segs[0].len <= base + size
  {
    assert segs[0] in segs;
  }

  /** An IN's status: 0 if and only if every segment is in RAM and filled from the disk, else 1. */
  lemma {:induction false} ReadStatus(h: Host, base: uint64, segs: seq<Desc>, sector: uint64, total: uint32)
    requires WholeTable(base, |h.ram|, segs)
    ensures ReadSegments(h, base, segs, sector, total).status
            == if AllFilled(base, |h.ram|, |h.disk|, segs, sector) then 0 else 1
    decreases |segs|
  {
    if segs != [] {
      hide ReadSegments, WholeTable, AllFilled, Filled;
      var h2, total2 := ReadOne(h, base, segs, sector, total);
      FilledFromFront(base, |h.ram|, |h.disk|, segs, sector);
      if Filled(base, |h.ram|, |h.disk|, segs[0], sector) {
        var next: uint64 := (sector + segs[0].len / 512) % TWO_64;
        ReadStatus(h2, base, segs[1..], next, total2);
      }
    }
  }

  lemma WriteOne(h: Host, base: uint64, segs: seq<Desc>, sector: uint64, total: uint32)
    returns (disk2: seq<byte>, total2: uint32)
    requires WholeTable(base, |h.ram|, segs) && segs != []
    ensures WholeTable(base, |h.ram|, segs[1..])
    ensures var o, s := WriteSegments(h, base, true, segs, sector, total), segs[0];
            if Stored(base, |h.ram|, s, sector) then
              o == WriteSegments(h.(disk := disk2), base, true, segs[1..], (sector + s.len / 512) % TWO_64, total2)
            else o.status == 1
  {
    hide Pwrite, WholeTable, U32, FileOffset;
    RestIsWhole(base, |h.ram|, segs);
    OffsetIs(sector);
    var s := segs[0];
    disk2, total2 := h.disk, U32(total as int + s.len as int);
    if Stored(base, |h.ram|, s, sector) {
      var at := s.addr - base;
      disk2 := Pwrite(h.disk, h.ram[at..at + s.len], FileOffset(sector));
    }
  }

  /** An OUT's status: 0 if and only if the image is writable and every segment is in RAM and
      stored at a file position, else 1. */
  lemma {:induction false} WriteStatus(h: Host, base: uint64, writable: bool, segs: seq<Desc>, sector: uint64,
                                       total: uint32)
    requires WholeTable(base, |h.ram|, segs) && (segs == [] ==> writable)
    ensures WriteSegments(h, base, writable, segs, sector, total).status
            == if writable && AllStored(base, |h.ram|, segs, sector) then 0 else 1
    decreases |segs|
  {
    if segs != [] && writable {
      hide WriteSegments, WholeTable, AllStored, Stored;
      var disk2, total2 := WriteOne(h, base, segs, sector, total);
      StoredFromFront(base, |h.ram|, segs, sector);
      if Stored(base, |h.ram|, segs[0], sector) {
        var next: uint64 := (sector + segs[0].len / 512) % TWO_64;
        WriteStatus(h.(disk := disk2), base, writable, segs[1..], next, total2);
      }
    }
  }

  // ----- the status byte in guest memory -----

  /** Header type and sector, little-endian, as the request's first buffer holds them. */
  predicate Asks(h: Host, base: uint64, segs: seq<Desc>, kind: uint32, sector: uint64) {
    |segs| >= 2 && Mapped(base, |h.ram|, segs[0]) && segs[0].len >= 16
    && HeaderIs(h.ram, segs[0].addr - base, kind, sector)
  }

  /** The status a request deserves. */
  predicate Deserves(h: Host, base: uint64, writable: bool, segs: seq<Desc>, status: byte) {
    if |segs| < 2 || !Mapped(base, |h.ram|, segs[0]) || segs[0].len < 16 then status == 1
    else
      forall kind, sector :: Asks(h, base, segs, kind, sector) ==>
        status ==
          if kind == 0 then
            if |segs| >= 3 && AllFilled(base, |h.ram|, |h.disk|, segs[1..|segs| - 1], sector) then 0 else 1
          else if kind == 1 then
            if |segs| >= 3 && writable && AllStored(base, |h.ram|, segs[1..|segs| - 1], sector) then 0 else 1
          else if kind == 4 || kind == 8 then 0
          else 2
  }

  lemma MiddleIsWhole(base: uint64, size: nat, segs: seq<Desc>)
    requires WholeTable(base, size, segs) && |segs| >= 2
    ensures WholeTable(base, size, segs[1..|segs| - 1]) && Whole(base, size, segs[1].addr, segs[1].len)
    ensures Mapped(base, size, segs[0]) ==> segs[0].addr + segs[0].len <= base + size
  {
    assert segs[0] in segs && segs[1] in segs;
  }

  lemma PerformDeserves(h: Host, base: uint64, writable: bool, segs: seq<Desc>)
    requires segs != [] && WholeTable(base, |h.ram|, segs)
    ensures Deserves(h, base, writable, segs, Perform(h, base, writable, segs).status)
  {
    hide ReadSegments, WriteSegments, WholeTable, AllFilled, AllStored, ReadLe32, ReadLe64, GetId;
    if |segs| >= 2 && Mapped(base, |h.ram|, segs[0]) && segs[0].len >= 16 {
      MiddleIsWhole(base, |h.ram|, segs);
      var at := segs[0].addr - base;
      var sector := ReadLe64(h.ram, at + 8);
      GetIdStatus(h, base, segs[1]);
      if |segs| >= 3 {
        ReadStatus(h, base, segs[1..|segs| - 1], sector, 0);
        WriteStatus(h, base, writable, segs[1..|segs| - 1], sector, 0);
      }
    }
  }

  lemma GetIdStatus(h: Host, base: uint64, s: Desc)
    requires Whole(base, |h.ram|, s.addr, s.len)
    ensures GetId(h, base, s).status == 0
  {}

  /** For every request whose status buffer is in RAM, one pass of the drain leaves in that buffer
      the status the request deserves. */
  lemma StatusIsDeserved(w: World, base: uint64, writable: bool, desc: seq<Desc>)
    requires Trusted(w, base, desc) && HasWork(w.ring)
    requires var segs := NextRequest(w, base, desc); Mapped(base, |w.host.ram|, segs[|segs| - 1])
    ensures var segs, w' := NextRequest(w, base, desc), ServeNext(w, base, writable, desc);
            |w'.host.ram| == |w.host.ram|
            && Deserves(w.host, base, writable, segs, w'.host.ram[segs[|segs| - 1].addr - base])
  {
    hide Perform, Deserves, Chain;
    var head := Head(w.ring, QUEUE_SIZE);
    RequestWhole(base, |w.host.ram|, desc, head);
    PerformDeserves(w.host, base, writable, NextRequest(w, base, desc));
  }

  /** Only an OUT changes the disk; only an IN and a GET_ID change guest memory beyond the status
      byte. */
  lemma OthersOnlyAnswer(w: World, base: uint64, writable: bool, desc: seq<Desc>, kind: uint32, sector: uint64)
    requires Trusted(w, base, desc) && HasWork(w.ring) && Asks(w.host, base, NextRequest(w, base, desc), kind, sector)
    ensures var segs, w' := NextRequest(w, base, desc), ServeNext(w, base, writable, desc);
            && (kind != 1 ==> w'.host.disk == w.host.disk) && |w'.host.ram| == |w.host.ram|
            && (kind != 0 && kind != 8 ==>
                  forall p :: 0 <= p < |w.host.ram| && p != segs[|segs| - 1].addr - base ==>
                    w'.host.ram[p] == w.host.ram[p])
  {
    hide ServeNext, NextRequest, WholeTable, Whole, Commit, Complete, Head;
    var segs := NextRequest(w, base, desc);
    Served(w, base, writable, desc);
    MiddleIsWhole(base, |w.host.ram|, segs);
    PerformTouches(w.host, base, writable, segs, kind, sector);
    CommitBytes(Perform(w.host, base, writable, segs), base, segs[|segs| - 1]);
  }

  lemma PerformTouches(h: Host, base: uint64, writable: bool, segs: seq<Desc>, kind: uint32, sector: uint64)
    requires segs != [] && WholeTable(base, |h.ram|, segs) && Asks(h, base, segs, kind, sector)
    ensures var o := Perform(h, base, writable, segs);
            && (kind != 1 ==> o.host.disk == h.disk) && (kind != 0 && kind != 8 ==> o.host.ram == h.ram)
  {
    hide ReadSegments, WriteSegments, ReadLe32, ReadLe64, WholeTable, Whole;
    MiddleIsWhole(base, |h.ram|, segs);
    assert Translate(base, |h.ram|, segs[0].addr) == Some(segs[0].addr - base);
  }

  // ----- the request's chain -----

  lemma {:induction false} ChainFollowsLinks(desc: seq<Desc>, c: uint16, fuel: nat, i: nat)
    requires c < |desc| && (forall j :: 0 <= j < |desc| ==> desc[j].next < |desc|) && fuel > 0
    requires i < |Chain(desc, c, fuel)|
    ensures var r := Chain(desc, c, fuel);
            && r[0] == c
            && (if i + 1 < |r| then desc[r[i]].flags % 2 == 1 && r[i + 1] == desc[r[i]].next
                else desc[r[i]].flags % 2 == 0 || |r| == fuel)
    decreases fuel
  {
    ChainStep(desc, c, fuel);
    if desc[c].HasNext() && fuel > 1 {
      ChainStep(desc, desc[c].next, fuel - 1);
      if i > 0 {
        ChainFollowsLinks(desc, desc[c].next, fuel - 1, i - 1);
      }
    } else if desc[c].HasNext() {
      ChainStops(desc, desc[c].next);
    }
  }

  /** The request at a head: that descriptor, and from each descriptor with bit 0 of its flags set
      the one it links to, up to 64. */
  lemma RequestFollowsLinks(desc: seq<Desc>, head: uint16, i: nat)
    requires head < |desc| && forall j :: 0 <= j < |desc| ==> desc[j].next < |desc|
    requires i < |RequestAt(desc, head)|
    ensures var segs := RequestAt(desc, head);
            && |segs| <= 64 && segs[0] == desc[head]
            && (if i + 1 < |segs| then segs[i].flags % 2 == 1 && segs[i + 1] == desc[segs[i].next]
                else segs[i].flags % 2 == 0 || |segs| == 64)
  {
    hide Chain;
    ChainFollowsLinks(desc, head, MAX_CHAIN, i);
  }

  // ----- GET_ID -----

  /** The identifier's text. */
  const NAME := "virtualization-blk-0"

  lemma IdIsName()
    ensures |ID| == 21 && ID[20] == 0 && forall i :: 0 <= i < 20 ==> ID[i] == NAME[i] as int
  {}

  /** After a GET_ID the buffer holds the text "virtualization-blk-0", cut off at its end or
      filled up with zeros; the used length is its length and the status byte. */
  lemma IdentifierIsRead(w: World, base: uint64, writable: bool, desc: seq<Desc>, sector: uint64, i: nat)
    requires Trusted(w, base, desc) && HasWork(w.ring)
    requires var segs := NextRequest(w, base, desc);
             && Asks(w.host, base, segs, 8, sector) && |segs| >= 3 && Mapped(base, |w.host.ram|, segs[1])
             && i < segs[1].len && segs[1].addr + i != segs[|segs| - 1].addr
    ensures var segs, w' := NextRequest(w, base, desc), ServeNext(w, base, writable, desc);
            && segs[1].addr - base + i < |w'.host.ram|
            && w'.host.ram[segs[1].addr - base + i] == (if i < 20 then NAME[i] as int else 0)
            && w'.ring.used[w.ring.usedIdx % 128] == Used(Head(w.ring, QUEUE_SIZE), U32(segs[1].len + 1))
  {
    hide Perform, GetId, ServeNext, NextRequest, Commit, WholeTable, Whole, U32, Complete, HeaderIs, Head;
    var segs := NextRequest(w, base, desc);
    Served(w, base, writable, desc);
    MiddleIsWhole(base, |w.host.ram|, segs);
    GetIdPerformed(w.host, base, writable, segs, sector);
    GetIdByte(w.host, base, segs[1], i);
    var o := GetId(w.host, base, segs[1]);
    UsedAt(w.ring, U32(o.total as int + 1));
    CommitBytes(o, base, segs[|segs| - 1]);
  }

  lemma UsedAt(r: Ring, len: uint32)
    requires Sized(r, QUEUE_SIZE)
    ensures Sized(Complete(r, QUEUE_SIZE, len), QUEUE_SIZE)
    ensures Complete(r, QUEUE_SIZE, len).used[r.usedIdx % 128] == Used(Head(r, QUEUE_SIZE), len)
  {}

  lemma GetIdPerformed(h: Host, base: uint64, writable: bool, segs: seq<Desc>, sector: uint64)
    requires Asks(h, base, segs, 8, sector) && |segs| >= 3 && segs[1].len > 0 && WholeTable(base, |h.ram|, segs)
    ensures Whole(base, |h.ram|, segs[1].addr, segs[1].len)
    ensures Perform(h, base, writable, segs) == GetId(h, base, segs[1])
  {
    hide GetId, ReadSegments, WriteSegments, ReadLe32, ReadLe64, WholeTable, Whole;
    MiddleIsWhole(base, |h.ram|, segs);
    assert Translate(base, |h.ram|, segs[0].addr) == Some(segs[0].addr - base);
  }

  lemma GetIdByte(h: Host, base: uint64, s: Desc, i: nat)
    requires Whole(base, |h.ram|, s.addr, s.len) && Mapped(base, |h.ram|, s) && i < s.len
    ensures s.addr - base + i < |h.ram|
    ensures var o := GetId(h, base, s);
            && o.total == s.len && |o.host.ram| == |h.ram|
            && o.host.ram[s.addr - base + i] == if i < 20 then NAME[i] as int else 0
  {
    IdIsName();

  }
}
