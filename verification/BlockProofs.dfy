/** What block requests do to the disk and to guest memory. */
module BlockProofs {
  import opened Bytes
  import opened GuestMemory
  import opened SplitRing
  import opened Virtqueue
  import opened BlockDevice

  function Total(segs: seq<Desc>): nat {
    if segs == [] then 0 else segs[0].len + Total(segs[1..])
  }

  predicate InRam(base: uint64, size: nat, segs: seq<Desc>) {
    forall s :: s in segs ==> base <= s.addr && s.addr + s.len <= base + size && s.addr < base + size
  }

  /** The bytes of a segment list, in order. */
  function Gathered(ram: seq<byte>, base: uint64, segs: seq<Desc>): (r: seq<byte>)
    requires InRam(base, |ram|, segs)
    ensures |r| == Total(segs)
  {
    if segs == [] then []
    else
      assert segs[0] in segs;
      ram[segs[0].addr - base..segs[0].addr - base + segs[0].len] + Gathered(ram, base, segs[1..])
  }

  /** Every segment that bytes come after is a number of whole sectors. */
  predicate SectorSized(segs: seq<Desc>)
    decreases |segs|
  {
    segs == [] || ((segs[0].len % SECTOR == 0 || Total(segs[1..]) == 0) && SectorSized(segs[1..]))
  }

  /** No two segments share a byte. */
  predicate Disjoint(segs: seq<Desc>) {
    forall i, j :: 0 <= i < j < |segs| ==>
      segs[i].addr + segs[i].len <= segs[j].addr || segs[j].addr + segs[j].len <= segs[i].addr
  }

  /** The request's range lies inside the disk, whose offsets fit a file position. */
  predicate InDisk(disk: seq<byte>, sector: uint64, segs: seq<Desc>) {
    sector * SECTOR + Total(segs) <= |disk| < MAX_OFFSET && Total(segs) < TWO_32
    && (segs != [] ==> sector * SECTOR < MAX_OFFSET)
  }

  lemma InRamParts(base: uint64, size: nat, segs: seq<Desc>)
    requires InRam(base, size, segs) && segs != []
    ensures InRam(base, size, segs[1..]) && WholeTable(base, size, segs)
    ensures Translate(base, size, segs[0].addr) == Some(segs[0].addr - base)
  {
    assert segs[0] in segs;
  }

  lemma SpliceAgain(s: seq<byte>, at: nat, a: seq<byte>, b: seq<byte>)
    requires at + |a| + |b| <= |s|
    ensures Splice(Splice(s, at, a), at + |a|, b) == Splice(s, at, a + b)
  {}

  /** The sector after a segment, when nothing overflows. */
  function After(sector: uint64, s: Desc): nat {
    sector + s.len / SECTOR
  }

  lemma AfterFits(disk: seq<byte>, sector: uint64, segs: seq<Desc>, total: uint32)
    requires InDisk(disk, sector, segs) && segs != [] && total + Total(segs) < TWO_32
    ensures After(sector, segs[0]) < TWO_64 && After(sector, segs[0]) % TWO_64 == After(sector, segs[0])
    ensures U32(total as int + segs[0].len as int) == total + segs[0].len
    ensures sector * SECTOR + segs[0].len <= |disk| < MAX_OFFSET
  {}

  lemma OffsetInDisk(disk: seq<byte>, sector: uint64, segs: seq<Desc>)
    requires InDisk(disk, sector, segs) && segs != []
    ensures FileOffset(sector) == sector * SECTOR
  {
    FileOffsetExact(sector);
  }

  lemma WriteStep(h: Host, base: uint64, segs: seq<Desc>, sector: uint64, total: uint32)
    requires InRam(base, |h.ram|, segs) && segs != [] && InDisk(h.disk, sector, segs)
    requires total + Total(segs) < TWO_32
    ensures WholeTable(base, |h.ram|, segs) && InRam(base, |h.ram|, segs[1..]) && After(sector, segs[0]) < TWO_64
    ensures var at := segs[0].addr - base;
            var h' := h.(disk := Splice(h.disk, sector * SECTOR, h.ram[at..at + segs[0].len]));
            WholeTable(base, |h.ram|, segs[1..]) && total + segs[0].len < TWO_32
            && WriteSegments(h, base, true, segs, sector, total)
               == WriteSegments(h', base, true, segs[1..], After(sector, segs[0]), total + segs[0].len)
  {
    hide Splice, Pwrite, InDisk, InRam, Total, U32, After, FileOffset;
    InRamParts(base, |h.ram|, segs);
    OffsetInDisk(h.disk, sector, segs);
    AfterFits(h.disk, sector, segs, total);
    var at := segs[0].addr - base;
    PwriteInside(h.disk, h.ram[at..at + segs[0].len], sector * SECTOR);
    AfterIs(sector, segs[0]);
  }

  lemma AfterIs(sector: uint64, s: Desc)
    ensures After(sector, s) == sector + s.len / SECTOR
  {}

  /** An OUT request inside the disk succeeds and changes exactly its byte range, to the
      bytes of its segments in order. */
  lemma {:induction false} OutEffect(h: Host, base: uint64, segs: seq<Desc>, sector: uint64, total: uint32)
    requires InRam(base, |h.ram|, segs) && SectorSized(segs) && InDisk(h.disk, sector, segs)
    requires total + Total(segs) < TWO_32
    ensures WholeTable(base, |h.ram|, segs)
    ensures WriteSegments(h, base, true, segs, sector, total)
            == Outcome(h.(disk := Splice(h.disk, sector * SECTOR, Gathered(h.ram, base, segs))), S_OK,
                       total + Total(segs))
    decreases |segs|
  {
    hide WriteSegments, Splice, InRam, Gathered, Total, InDisk, After, SectorSized, WholeTable, Translate;
    if segs == [] {
      GatheredNothing(h.ram, base);
      WholeNothing(base, |h.ram|);
      NothingToWrite(h, base, sector, total);
      SpliceNothing(h.disk, sector * SECTOR);
      InDiskNothing(h.disk, sector);
    } else {
      var s := segs[0];
      var at := s.addr - base;
      GatheredCons(h.ram, base, segs);
      var data := h.ram[at..at + s.len];
      WriteStep(h, base, segs, sector, total);
      NextSector(segs, sector);
      AfterFits(h.disk, sector, segs, total);
      InDiskNext(h.disk, Splice(h.disk, sector * SECTOR, data), sector, segs);
      var h', rest := h.(disk := Splice(h.disk, sector * SECTOR, data)), Gathered(h.ram, base, segs[1..]);
      OutEffect(h', base, segs[1..], After(sector, s), total + s.len);
      if rest == [] {
        SpliceNothing(h'.disk, After(sector, s) * SECTOR);
        assert data + rest == data;
      } else {
        SpliceAgain(h.disk, sector * SECTOR, data, rest);
      }
    }
  }

  lemma GatheredCons(ram: seq<byte>, base: uint64, segs: seq<Desc>)
    requires InRam(base, |ram|, segs) && segs != []
    ensures InRam(base, |ram|, segs[1..]) && base <= segs[0].addr && segs[0].addr - base + segs[0].len <= |ram|
    ensures Gathered(ram, base, segs)
            == ram[segs[0].addr - base..segs[0].addr - base + segs[0].len] + Gathered(ram, base, segs[1..])
    ensures Total(segs) == segs[0].len + Total(segs[1..])
  {
    assert segs[0] in segs;
  }

  lemma GatheredNothing(ram: seq<byte>, base: uint64)
    ensures InRam(base, |ram|, []) && Gathered(ram, base, []) == [] && Total([]) == 0
  {}

  lemma InDiskNext(disk: seq<byte>, disk': seq<byte>, sector: uint64, segs: seq<Desc>)
    requires InDisk(disk, sector, segs) && |disk'| == |disk| && segs != [] && After(sector, segs[0]) < TWO_64
    ensures InDisk(disk', After(sector, segs[0]), segs[1..])
    ensures sector * SECTOR + Total(segs) <= |disk|
  {}

  lemma WholeNothing(base: uint64, size: nat)
    ensures WholeTable(base, size, [])
  {}

  lemma InDiskNothing(disk: seq<byte>, sector: uint64)
    ensures InDisk(disk, sector, []) ==> sector * SECTOR <= |disk|
  {}

  lemma NothingToWrite(h: Host, base: uint64, sector: uint64, total: uint32)
    ensures WriteSegments(h, base, true, [], sector, total) == Outcome(h, S_OK, total)
  {}

  lemma PwriteInside(disk: seq<byte>, data: seq<byte>, off: nat)
    requires off + |data| <= |disk|
    ensures Pwrite(disk, data, off) == Splice(disk, off, data)
  {}

  lemma NextSector(segs: seq<Desc>, sector: uint64)
    requires segs != [] && SectorSized(segs)
    ensures SectorSized(segs[1..])
    ensures Total(segs[1..]) == 0 || After(sector, segs[0]) * SECTOR == sector * SECTOR + segs[0].len
  {}

  lemma {:induction false} NothingIsSized(segs: seq<Desc>)
    requires Total(segs) == 0
    ensures SectorSized(segs)
    decreases |segs|
  {
    if segs != [] {
      NothingIsSized(segs[1..]);
    }
  }

  /** The range's end, or the byte before it where a segment is not whole sectors. */
  function WrittenEnd(sector: uint64, segs: seq<Desc>): int {
    sector * SECTOR + Total(segs) - if SectorSized(segs) then 0 else 1
  }

  lemma EndsFurther(sector: uint64, segs: seq<Desc>)
    requires segs != [] && After(sector, segs[0]) < TWO_64
    ensures sector * SECTOR + segs[0].len <= WrittenEnd(sector, segs)
    ensures WrittenEnd(After(sector, segs[0]), segs[1..]) <= WrittenEnd(sector, segs)
  {
    AfterRounds(sector, segs[0]);
    hide After;
    if Total(segs[1..]) == 0 {
      NothingIsSized(segs[1..]);
    }
  }

  /** An OUT request writes nothing from that end on. */
  lemma {:induction false} UntouchedByOut(h: Host, base: uint64, segs: seq<Desc>, sector: uint64, total: uint32, p: nat)
    requires InRam(base, |h.ram|, segs) && InDisk(h.disk, sector, segs) && total + Total(segs) < TWO_32
    requires WrittenEnd(sector, segs) <= p < |h.disk|
    ensures WholeTable(base, |h.ram|, segs)
    ensures var disk := WriteSegments(h, base, true, segs, sector, total).host.disk;
            |disk| == |h.disk| && disk[p] == h.disk[p]
    decreases |segs|
  {
    hide WriteSegments, InRam, InDisk, After, WholeTable, Translate, U32, Total, WrittenEnd, Splice;
    if segs == [] {
      WholeNothing(base, |h.ram|);
      NothingToWrite(h, base, sector, total);
    } else {
      var s := segs[0];
      var at := s.addr - base;
      GatheredCons(h.ram, base, segs);
      WriteStep(h, base, segs, sector, total);
      AfterFits(h.disk, sector, segs, total);
      EndsFurther(sector, segs);
      var h' := h.(disk := Splice(h.disk, sector * SECTOR, h.ram[at..at + s.len]));
      InDiskNext(h.disk, h'.disk, sector, segs);
      UntouchedByOut(h', base, segs[1..], After(sector, s), total + s.len, p);
    }
  }

  lemma AfterRounds(sector: uint64, s: Desc)
    ensures After(sector, s) * SECTOR <= sector * SECTOR + s.len
    ensures After(sector, s) * SECTOR == sector * SECTOR + s.len <==> s.len % SECTOR == 0
  {}

  /** On a disk whose last byte of the range differs from the data's, an OUT request puts its
      data where it belongs if and only if every segment with bytes after it is whole sectors. */
  lemma OutEffectIff(h: Host, base: uint64, segs: seq<Desc>, sector: uint64)
    requires InRam(base, |h.ram|, segs) && InDisk(h.disk, sector, segs) && Total(segs) > 0
    requires h.disk[sector * SECTOR + Total(segs) - 1] != Gathered(h.ram, base, segs)[Total(segs) - 1]
    ensures WholeTable(base, |h.ram|, segs)
    ensures WriteSegments(h, base, true, segs, sector, 0).host.disk
            == Splice(h.disk, sector * SECTOR, Gathered(h.ram, base, segs))
            <==> SectorSized(segs)
  {
    hide WriteSegments, WholeTable, InRam, Gathered, Total, SectorSized;
    if SectorSized(segs) {
      OutEffect(h, base, segs, sector, 0);
    } else {
      UntouchedByOut(h, base, segs, sector, 0, WrittenEnd(sector, segs));
    }
  }

  /** Of two segments, the first less than a sector and the second no shorter, the second goes
      over the first: with 100 and 412 bytes at sector 1, the disk gets the last 412 bytes of
      the 512 at offset 512, and the request succeeds. */
  lemma UnevenSplitOverlaps(h: Host, base: uint64, a: Desc, b: Desc, sector: uint64)
    requires InRam(base, |h.ram|, [a, b]) && InDisk(h.disk, sector, [a, b]) && a.len < SECTOR && a.len <= b.len
    ensures WholeTable(base, |h.ram|, [a, b]) && InRam(base, |h.ram|, [b]) && sector * SECTOR + b.len <= |h.disk|
    ensures WriteSegments(h, base, true, [a, b], sector, 0)
            == Outcome(h.(disk := Splice(h.disk, sector * SECTOR, Gathered(h.ram, base, [b]))), S_OK, a.len + b.len)
  {
    hide Splice, WriteSegments, WholeTable, InRam, After, Gathered, Total;
    assert [a, b][1..] == [b];
    TotalOfTwo(a, b);
    WriteStep(h, base, [a, b], sector, 0);
    AfterShort(sector, a);
    GatheredCons(h.ram, base, [a, b]);
    AfterFits(h.disk, sector, [a, b], 0);
    var off, first := sector * SECTOR, h.ram[a.addr - base..a.addr - base + a.len];
    var h' := h.(disk := Splice(h.disk, off, first));
    InDiskNext(h.disk, h'.disk, sector, [a, b]);
    OneSized(b);
    OutEffect(h', base, [b], sector, a.len);
    SpliceOver(h.disk, off, first, Gathered(h.ram, base, [b]));
  }

  lemma TotalOfTwo(a: Desc, b: Desc)
    ensures Total([a, b]) == a.len + b.len && Total([b]) == b.len
  {
    assert [a, b][1..] == [b];
    assert Total([b][1..]) == 0;
  }

  lemma AfterShort(sector: uint64, a: Desc)
    requires a.len < SECTOR
    ensures After(sector, a) == sector
  {}

  lemma OneSized(b: Desc)
    ensures SectorSized([b])
  {
    assert [b][1..] == [];
  }

  lemma SpliceOver(s: seq<byte>, at: nat, a: seq<byte>, b: seq<byte>)
    requires |a| <= |b| && at + |b| <= |s|
    ensures Splice(Splice(s, at, a), at, b) == Splice(s, at, b)
  {}

  // ----- reading -----

  /** Byte `p` of RAM belongs to no segment. */
  predicate Outside(base: uint64, segs: seq<Desc>, p: nat) {
    forall s :: s in segs ==> p < s.addr - base || s.addr - base + s.len <= p
  }

  ghost predicate SameOutside(ram: seq<byte>, ram': seq<byte>, base: uint64, segs: seq<Desc>) {
    |ram'| == |ram| && forall p :: 0 <= p < |ram| && Outside(base, segs, p) ==> ram'[p] == ram[p]
  }

  lemma PreadInside(disk: seq<byte>, len: nat, off: nat)
    requires off + len <= |disk|
    ensures Pread(disk, len, off) == disk[off..off + len]
  {}

  lemma ReadStep(h: Host, base: uint64, segs: seq<Desc>, sector: uint64, total: uint32)
    requires InRam(base, |h.ram|, segs) && segs != [] && InDisk(h.disk, sector, segs)
    requires total + Total(segs) < TWO_32
    ensures WholeTable(base, |h.ram|, segs) && InRam(base, |h.ram|, segs[1..]) && After(sector, segs[0]) < TWO_64
    ensures sector * SECTOR + segs[0].len <= |h.disk|
    ensures var off := sector * SECTOR;
            var h' := h.(ram := Splice(h.ram, segs[0].addr - base, h.disk[off..off + segs[0].len]));
            WholeTable(base, |h.ram|, segs[1..]) && total + segs[0].len < TWO_32
            && ReadSegments(h, base, segs, sector, total)
               == ReadSegments(h', base, segs[1..], After(sector, segs[0]), total + segs[0].len)
  {
    hide Splice, Pread, InDisk, InRam, Total, U32, After, FileOffset;
    InRamParts(base, |h.ram|, segs);
    OffsetInDisk(h.disk, sector, segs);
    AfterFits(h.disk, sector, segs, total);
    PreadInside(h.disk, segs[0].len, sector * SECTOR);
    AfterIs(sector, segs[0]);
  }

  lemma NothingToRead(h: Host, base: uint64, sector: uint64, total: uint32)
    ensures ReadSegments(h, base, [], sector, total) == Outcome(h, S_OK, total)
  {}

  lemma DisjointParts(base: uint64, size: nat, segs: seq<Desc>)
    requires segs != [] && Disjoint(segs) && InRam(base, size, segs)
    ensures Disjoint(segs[1..])
    ensures forall p :: segs[0].addr - base <= p < segs[0].addr - base + segs[0].len ==> Outside(base, segs[1..], p)
    ensures forall p: nat :: Outside(base, segs, p) ==>
              Outside(base, segs[1..], p) && (p < segs[0].addr - base || segs[0].addr - base + segs[0].len <= p)
  {
    assert segs == [segs[0]] + segs[1..];
    assert segs[0] in segs;
    forall p: nat | segs[0].addr - base <= p < segs[0].addr - base + segs[0].len
      ensures Outside(base, segs[1..], p)
    {
      forall s | s in segs[1..]
        ensures p < s.addr - base || s.addr - base + s.len <= p
      {
        var j :| 1 <= j < |segs| && segs[j] == s;
      }
    }
  }

  /** What the read loop leaves in RAM, one segment further on. */
  lemma ScatterStep(ram: seq<byte>, ram': seq<byte>, base: uint64, segs: seq<Desc>, data: seq<byte>)
    requires InRam(base, |ram|, segs) && segs != [] && Disjoint(segs) && |data| == Total(segs) && |ram'| == |ram|
    requires InRam(base, |ram|, segs[1..]) && segs[0].len <= |data|
    requires base <= segs[0].addr && segs[0].addr - base + segs[0].len <= |ram|
    requires SameOutside(Splice(ram, segs[0].addr - base, data[..segs[0].len]), ram', base, segs[1..])
    requires Gathered(ram', base, segs[1..]) == data[segs[0].len..]
    ensures SameOutside(ram, ram', base, segs) && Gathered(ram', base, segs) == data
  {
    hide InRam, Disjoint, Total, Gathered, SameOutside, Splice;
    var at, n := segs[0].addr - base, segs[0].len;
    GatheredCons(ram', base, segs);
    FirstSegmentKept(ram, ram', base, segs, data[..n]);
    RestUntouched(ram, ram', base, segs, data[..n]);
    assert data == data[..n] + data[n..];
  }

  lemma FirstSegmentKept(ram: seq<byte>, ram': seq<byte>, base: uint64, segs: seq<Desc>, d: seq<byte>)
    requires InRam(base, |ram|, segs) && segs != [] && Disjoint(segs) && |d| == segs[0].len
    requires base <= segs[0].addr && segs[0].addr - base + segs[0].len <= |ram|
    requires SameOutside(Splice(ram, segs[0].addr - base, d), ram', base, segs[1..])
    ensures ram'[segs[0].addr - base..segs[0].addr - base + segs[0].len] == d
  {
    hide Outside, InRam, Disjoint;
    var at := segs[0].addr - base;
    DisjointParts(base, |ram|, segs);
    forall i | 0 <= i < |d|
      ensures ram'[at..at + |d|][i] == d[i]
    {
      assert Outside(base, segs[1..], at + i);
    }
  }

  lemma RestUntouched(ram: seq<byte>, ram': seq<byte>, base: uint64, segs: seq<Desc>, d: seq<byte>)
    requires InRam(base, |ram|, segs) && segs != [] && Disjoint(segs) && |d| == segs[0].len
    requires base <= segs[0].addr && segs[0].addr - base + segs[0].len <= |ram|
    requires SameOutside(Splice(ram, segs[0].addr - base, d), ram', base, segs[1..])
    ensures SameOutside(ram, ram', base, segs)
  {
    hide Outside, InRam, Disjoint;
    DisjointParts(base, |ram|, segs);
  }

  /** An IN request inside the disk succeeds; its segments in order hold the disk's byte
      range, and RAM is unchanged outside them. */
  lemma {:induction false} InEffect(h: Host, base: uint64, segs: seq<Desc>, sector: uint64, total: uint32)
    requires InRam(base, |h.ram|, segs) && SectorSized(segs) && InDisk(h.disk, sector, segs) && Disjoint(segs)
    requires total + Total(segs) < TWO_32
    ensures WholeTable(base, |h.ram|, segs) && sector * SECTOR + Total(segs) <= |h.disk|
    ensures var o := ReadSegments(h, base, segs, sector, total);
            o.status == S_OK && o.total == total + Total(segs) && SameOutside(h.ram, o.host.ram, base, segs)
            && Gathered(o.host.ram, base, segs) == h.disk[sector * SECTOR..sector * SECTOR + Total(segs)]
    decreases |segs|
  {
    hide ReadSegments, Splice, InRam, Gathered, Total, InDisk, After, SectorSized, WholeTable, Translate, Disjoint,
         SameOutside;
    if segs == [] {
      GatheredNothing(h.ram, base);
      SameNothing(h.ram, base);
      WholeNothing(base, |h.ram|);
      NothingToRead(h, base, sector, total);
      InDiskNothing(h.disk, sector);
    } else {
      var s, off := segs[0], sector * SECTOR;
      GatheredCons(h.ram, base, segs);
      ReadStep(h, base, segs, sector, total);
      NextSector(segs, sector);
      InDiskNext(h.disk, h.disk, sector, segs);
      DisjointParts(base, |h.ram|, segs);
      var data := h.disk[off..off + Total(segs)];
      var h' := h.(ram := Splice(h.ram, s.addr - base, h.disk[off..off + s.len]));
      SliceOfSlice(h.disk, off, off + Total(segs), 0, s.len);
      assert data[..s.len] == data[0..s.len];
      var o := ReadSegments(h', base, segs[1..], After(sector, s), total + s.len);
      InEffect(h', base, segs[1..], After(sector, s), total + s.len);
      RestOfRange(h.disk, off, s.len, After(sector, s) * SECTOR, Total(segs[1..]));
      ScatterStep(h.ram, o.host.ram, base, segs, data);
    }
  }

  lemma SameNothing(ram: seq<byte>, base: uint64)
    ensures SameOutside(ram, ram, base, [])
  {}

  lemma RestOfRange(disk: seq<byte>, off: nat, n: nat, after: nat, rest: nat)
    requires off + n + rest <= |disk| && after + rest <= |disk| && (rest == 0 || after == off + n)
    ensures disk[off..off + (n + rest)][n..] == disk[after..after + rest]
  {
    SliceOfSlice(disk, off, off + n + rest, n, n + rest);
  }

  // ----- requests -----

  /** A well-formed data request: header in RAM, data segments, a status buffer in RAM. */
  predicate DataRequest(ram: seq<byte>, base: uint64, segs: seq<Desc>, kind: uint32, sector: uint64) {
    |segs| >= 3 && InRam(base, |ram|, segs) && segs[0].len >= 16
    && HeaderIs(ram, segs[0].addr - base, kind, sector)
  }

  predicate HeaderIs(ram: seq<byte>, at: int, kind: uint32, sector: uint64) {
    0 <= at && at + 16 <= |ram| && ReadLe32(ram, at) == kind && ReadLe64(ram, at + 8) == sector
  }

  function DataPart(segs: seq<Desc>): seq<Desc>
    requires |segs| >= 2
  {
    segs[1..|segs| - 1]
  }

  lemma PartsInRam(ram: seq<byte>, base: uint64, segs: seq<Desc>, kind: uint32, sector: uint64)
    requires DataRequest(ram, base, segs, kind, sector)
    ensures WholeTable(base, |ram|, segs)
    ensures InRam(base, |ram|, DataPart(segs)) && WholeTable(base, |ram|, DataPart(segs))
    ensures Translate(base, |ram|, segs[0].addr) == Some(segs[0].addr - base)
    ensures Translate(base, |ram|, segs[|segs| - 1].addr) == Some(segs[|segs| - 1].addr - base)
  {
    assert segs[0] in segs && segs[|segs| - 1] in segs;
  }

  lemma PerformsOut(h: Host, base: uint64, segs: seq<Desc>, sector: uint64)
    requires DataRequest(h.ram, base, segs, T_OUT, sector)
    ensures WholeTable(base, |h.ram|, segs) && WholeTable(base, |h.ram|, DataPart(segs))
    ensures Perform(h, base, true, segs) == WriteSegments(h, base, true, DataPart(segs), sector, 0)
  {
    hide WriteSegments, ReadSegments, ReadLe32, ReadLe64, GetId;
    PartsInRam(h.ram, base, segs, T_OUT, sector);
  }

  lemma PerformsIn(h: Host, base: uint64, writable: bool, segs: seq<Desc>, sector: uint64)
    requires DataRequest(h.ram, base, segs, T_IN, sector)
    ensures WholeTable(base, |h.ram|, segs) && WholeTable(base, |h.ram|, DataPart(segs))
    ensures Perform(h, base, writable, segs) == ReadSegments(h, base, DataPart(segs), sector, 0)
  {
    hide WriteSegments, ReadSegments, ReadLe32, ReadLe64, GetId;
    PartsInRam(h.ram, base, segs, T_IN, sector);
  }

  /** Storing the status byte outside the data segments leaves what they hold. */
  lemma CommitKeepsData(o: Outcome, base: uint64, last: Desc, segs: seq<Desc>)
    requires InRam(base, |o.host.ram|, segs) && base <= last.addr && Outside(base, segs, last.addr - base)
    ensures Gathered(Commit(o, base, last).ram, base, segs) == Gathered(o.host.ram, base, segs)
  {
    var ram, ram' := o.host.ram, Commit(o, base, last).ram;
    hide Commit;
    assert forall p :: 0 <= p < |ram| && p != last.addr - base ==> ram'[p] == ram[p] by {
      CommitBytes(o, base, last);
    }
    GatheredSame(ram, ram', base, segs, last.addr - base);
  }

  lemma CommitBytes(o: Outcome, base: uint64, last: Desc)
    ensures forall p :: 0 <= p < |o.host.ram| && p != last.addr - base ==> Commit(o, base, last).ram[p] == o.host.ram[p]
  {}

  lemma {:induction false} GatheredSame(ram: seq<byte>, ram': seq<byte>, base: uint64, segs: seq<Desc>, q: nat)
    requires |ram'| == |ram| && InRam(base, |ram|, segs) && Outside(base, segs, q)
    requires forall p :: 0 <= p < |ram| && p != q ==> ram'[p] == ram[p]
    ensures Gathered(ram', base, segs) == Gathered(ram, base, segs)
    decreases |segs|
  {
    if segs != [] {
      var s := segs[0];
      assert s in segs;
      GatheredCons(ram, base, segs);
      GatheredCons(ram', base, segs);
      assert ram[s.addr - base..s.addr - base + s.len] == ram'[s.addr - base..s.addr - base + s.len];
      GatheredSame(ram, ram', base, segs[1..], q);
    }
  }

  /** An OUT request and then, with guest memory rearranged at will, an IN request at the same
      sector with any other split of the same total: the bytes come back, both requests succeed,
      and the disk changed nowhere outside the written range. */
  lemma OutThenIn(h: Host, base: uint64, outSegs: seq<Desc>, inSegs: seq<Desc>, sector: uint64, ram2: seq<byte>)
    requires DataRequest(h.ram, base, outSegs, T_OUT, sector) && SectorSized(DataPart(outSegs))
    requires |ram2| == |h.ram| && DataRequest(ram2, base, inSegs, T_IN, sector)
    requires SectorSized(DataPart(inSegs)) && Disjoint(DataPart(inSegs))
    requires Total(DataPart(inSegs)) == Total(DataPart(outSegs))
    requires InDisk(h.disk, sector, DataPart(outSegs)) && sector * SECTOR < MAX_OFFSET
    requires base <= inSegs[|inSegs| - 1].addr && Outside(base, DataPart(inSegs), inSegs[|inSegs| - 1].addr - base)
    ensures WholeTable(base, |h.ram|, outSegs) && WholeTable(base, |h.ram|, inSegs)
    ensures var o1 := Perform(h, base, true, outSegs);
            var h2 := Host(ram2, Commit(o1, base, outSegs[|outSegs| - 1]).disk);
            var o2 := Perform(h2, base, true, inSegs);
            var h3 := Commit(o2, base, inSegs[|inSegs| - 1]);
            o1.status == S_OK && o2.status == S_OK
            && o1.total == o2.total == Total(DataPart(outSegs))
            && InRam(base, |h3.ram|, DataPart(inSegs)) && InRam(base, |h.ram|, DataPart(outSegs))
            && Gathered(h3.ram, base, DataPart(inSegs)) == Gathered(h.ram, base, DataPart(outSegs))
            && |h3.disk| == |h.disk|
            && forall p :: 0 <= p < |h.disk| && !(sector * SECTOR <= p < sector * SECTOR + Total(DataPart(outSegs)))
                 ==> h3.disk[p] == h.disk[p]
  {
    hide Perform, ReadSegments, WriteSegments, InRam, Gathered, Total, SectorSized, Disjoint, WholeTable, Outside,
         HeaderIs, DataPart;
    var dOut, dIn := DataPart(outSegs), DataPart(inSegs);
    PartsInRam(h.ram, base, outSegs, T_OUT, sector);
    PartsInRam(ram2, base, inSegs, T_IN, sector);
    PerformsOut(h, base, outSegs, sector);
    OutEffect(h, base, dOut, sector, 0);
    var o1 := Perform(h, base, true, outSegs);
    var h2 := Host(ram2, Commit(o1, base, outSegs[|outSegs| - 1]).disk);
    PerformsIn(h2, base, true, inSegs, sector);
    InEffect(h2, base, dIn, sector, 0);
    var o2 := Perform(h2, base, true, inSegs);
    CommitKeepsData(o2, base, inSegs[|inSegs| - 1], dIn);
    var off, n := sector * SECTOR, Total(dOut);
    assert h2.disk[off..off + n] == Gathered(h.ram, base, dOut);
  }

  /** The segments of the request a drain serves next. */
  ghost function NextRequest(w: World, base: uint64, desc: seq<Desc>): (segs: seq<Desc>)
    requires Trusted(w, base, desc)
    ensures segs != []
  {
    RequestAt(desc, Head(w.ring, QUEUE_SIZE))
  }

  /** The same through two passes of the drain loop, each for the request at its ring's next
      head: both status bytes read 0, the data comes back, and the IN's used element says
      total + 1, in 32 bits. */
  lemma ServedOutThenIn(w: World, base: uint64, desc: seq<Desc>, sector: uint64, w2: World, desc2: seq<Desc>)
    requires Trusted(w, base, desc) && HasWork(w.ring) && Trusted(w2, base, desc2) && HasWork(w2.ring)
    requires w2.host.disk == ServeNext(w, base, true, desc).host.disk && |w2.host.ram| == |w.host.ram|
    requires var outSegs, inSegs := NextRequest(w, base, desc), NextRequest(w2, base, desc2);
      && DataRequest(w.host.ram, base, outSegs, T_OUT, sector) && SectorSized(DataPart(outSegs))
      && DataRequest(w2.host.ram, base, inSegs, T_IN, sector)
      && SectorSized(DataPart(inSegs)) && Disjoint(DataPart(inSegs))
      && Total(DataPart(inSegs)) == Total(DataPart(outSegs))
      && InDisk(w.host.disk, sector, DataPart(outSegs)) && sector * SECTOR < MAX_OFFSET
      && base <= inSegs[|inSegs| - 1].addr && Outside(base, DataPart(inSegs), inSegs[|inSegs| - 1].addr - base)
    ensures var outSegs, inSegs := NextRequest(w, base, desc), NextRequest(w2, base, desc2);
            var w1, w3 := ServeNext(w, base, true, desc), ServeNext(w2, base, true, desc2);
            var outStatus, inStatus := outSegs[|outSegs| - 1].addr - base, inSegs[|inSegs| - 1].addr - base;
            var len := U32(Total(DataPart(inSegs)) + 1);
            && InRam(base, |w3.host.ram|, DataPart(inSegs)) && InRam(base, |w.host.ram|, DataPart(outSegs))
            && Gathered(w3.host.ram, base, DataPart(inSegs)) == Gathered(w.host.ram, base, DataPart(outSegs))
            && 0 <= outStatus < |w1.host.ram| && w1.host.ram[outStatus] == 0
            && 0 <= inStatus < |w3.host.ram| && w3.host.ram[inStatus] == 0
            && w3.ring == Complete(w2.ring, QUEUE_SIZE, len)
            && w3.ring.used[w2.ring.usedIdx % QUEUE_SIZE] == Used(Head(w2.ring, QUEUE_SIZE), len)
            && (Total(DataPart(inSegs)) + 1 < TWO_32 ==> len == Total(DataPart(inSegs)) + 1)
  {
    hide Perform, Commit, InRam, Gathered, Total, SectorSized, Disjoint, WholeTable, Outside, HeaderIs, DataPart,
         RequestAt, DataRequest, InDisk;
    var outSegs, inSegs := NextRequest(w, base, desc), NextRequest(w2, base, desc2);
    OutThenIn(w.host, base, outSegs, inSegs, sector, w2.host.ram);
    Served(w, base, true, desc);
    Served(w2, base, true, desc2);
    StatusInRam(w.host, base, outSegs, T_OUT, sector, Perform(w.host, base, true, outSegs));
    StatusInRam(w2.host, base, inSegs, T_IN, sector, Perform(w2.host, base, true, inSegs));
  }

  /** The status byte lands in the request's last buffer. */
  lemma StatusInRam(h: Host, base: uint64, segs: seq<Desc>, kind: uint32, sector: uint64, o: Outcome)
    requires DataRequest(h.ram, base, segs, kind, sector) && |o.host.ram| == |h.ram|
    ensures var at := segs[|segs| - 1].addr - base;
            && 0 <= at < |h.ram| && |Commit(o, base, segs[|segs| - 1]).ram| == |h.ram|
            && Commit(o, base, segs[|segs| - 1]).ram[at] == o.status
  {
    hide HeaderIs;
    assert segs[|segs| - 1] in segs;
  }

  /** What one pass of the drain loop does, for a request whose segments are named. */
  lemma Served(w: World, base: uint64, writable: bool, desc: seq<Desc>)
    requires Trusted(w, base, desc) && HasWork(w.ring)
    ensures var segs := NextRequest(w, base, desc);
            WholeTable(base, |w.host.ram|, segs)
            && (var o := Perform(w.host, base, writable, segs);
                ServeNext(w, base, writable, desc)
                == World(Commit(o, base, segs[|segs| - 1]), Complete(w.ring, QUEUE_SIZE, U32(o.total as int + 1))))
  {
    hide Perform, Commit, Complete, RequestAt;
    RequestWhole(base, |w.host.ram|, desc, Head(w.ring, QUEUE_SIZE));
  }

  // ----- the drain as a run of the ring protocol -----

  /** A drain returns every published buffer: the ring moves by exactly `Backlog` returns. */
  lemma {:induction false} DrainReturnsAll(w: World, base: uint64, writable: bool, desc: seq<Desc>, s: System)
    returns (events: seq<Event>, s': System)
    requires Trusted(w, base, desc) && s.ring == w.ring
    ensures Run(s, QUEUE_SIZE, events, s') && s'.ring == Drain(w, base, writable, desc).ring
    ensures |events| == Backlog(w.ring) && forall e :: e in events ==> e.DeviceReturns?
    ensures !HasWork(s'.ring)
    decreases Backlog(w.ring)
  {
    if !HasWork(w.ring) {
      return [], s;
    }
    var w' := ServeNext(w, base, writable, desc);
    var e := DeviceReturns(w'.ring.used[w.ring.usedIdx % QUEUE_SIZE].len);
    hide Drain, Perform, Commit, Trusted;
    var t := Next(s, QUEUE_SIZE, e);
    var more;
    more, s' := DrainReturnsAll(w', base, writable, desc, t);
    events := [e] + more;
    assert events[1..] == more;
  }
}
