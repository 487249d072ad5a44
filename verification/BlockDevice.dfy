/** virtio-blk of src/virtio/block.cpp: requests split over guest segments on a
    sector-addressed disk image. */
module BlockDevice {
  import opened Bytes
  import opened GuestMemory
  import opened SplitRing
  import opened Virtqueue

  const T_IN: uint32 := 0
  const T_OUT: uint32 := 1
  const T_FLUSH: uint32 := 4
  const T_GET_ID: uint32 := 8
  const S_OK: byte := 0
  const S_IOERR: byte := 1
  const S_UNSUPP: byte := 2
  const SECTOR := 512
  const MAX_CHAIN := 64
  const MAX_OFFSET := 0x8000_0000_0000_0000
  const QUEUE_SIZE: ringsize := 128

  /** "virtualization-blk-0" and its terminator. */
  const ID: seq<byte> :=
    [118, 105, 114, 116, 117, 97, 108, 105, 122, 97, 116, 105, 111, 110, 45, 98, 108, 107, 45, 48, 0]

  // ----- the disk image -----

  /** What `pread` transfers: less than `len` at the end of the image. */
  function Pread(disk: seq<byte>, len: nat, off: nat): (d: seq<byte>)
    ensures |d| <= len
  {
    if off >= |disk| then [] else if off + len <= |disk| then disk[off..off + len] else disk[off..]
  }

  /** What `pwrite` leaves: the image grows, with zeros in any gap, when written past its end. */
  function Pwrite(disk: seq<byte>, data: seq<byte>, off: nat): seq<byte> {
    if data == [] then disk
    else if off + |data| <= |disk| then Splice(disk, off, data)
    else (if off <= |disk| then disk[..off] else disk + Zeros(off - |disk|)) + data
  }

  /** `static_cast<off_t>(sector) * 512`, where the signed product is taken to wrap around.
      The calls fail for a negative offset. */
  function FileOffset(sector: uint64): int {
    var product := sector * SECTOR % TWO_64;
    if product < MAX_OFFSET then product else product - TWO_64
  }

  /** The offset is the sector's own if and only if the product fits. */
  lemma FileOffsetExact(sector: uint64)
    ensures FileOffset(sector) == sector * SECTOR <==> sector * SECTOR < MAX_OFFSET
  {
    var p := sector * SECTOR;
    assert p % TWO_64 <= p;
  }

  /** Sector 2^55 reads and writes the image's first bytes. */
  lemma FarSectorIsFirst()
    ensures FileOffset(0x80_0000_0000_0000) == 0
  {}

  // ----- one request -----

  datatype Host = Host(ram: seq<byte>, disk: seq<byte>)

  datatype Outcome = Outcome(host: Host, status: byte, total: uint32)

  function ReadSegments(h: Host, base: uint64, segs: seq<Desc>, sector: uint64, total: uint32): (o: Outcome)
    requires WholeTable(base, |h.ram|, segs)
    ensures |o.host.ram| == |h.ram| && o.host.disk == h.disk
    decreases |segs|
  {
    if segs == [] then Outcome(h, S_OK, total)
    else
      var s := segs[0];
      match Translate(base, |h.ram|, s.addr)
      case None => Outcome(h, S_IOERR, total)
      case Some(at) =>
        if FileOffset(sector) < 0 then Outcome(h, S_IOERR, total) else
        var data := Pread(h.disk, s.len, FileOffset(sector));
        var h' := h.(ram := Splice(h.ram, at, data));
        if |data| != s.len then Outcome(h', S_IOERR, total)
        else ReadSegments(h', base, segs[1..], (sector + s.len / SECTOR) % TWO_64, U32(total as int + s.len as int))
  }

  function WriteSegments(h: Host, base: uint64, writable: bool, segs: seq<Desc>, sector: uint64,
                         total: uint32): (o: Outcome)
    requires WholeTable(base, |h.ram|, segs)
    ensures o.host.ram == h.ram
    decreases |segs|
  {
    if segs == [] then Outcome(h, S_OK, total)
    else
      var s := segs[0];
      match Translate(base, |h.ram|, s.addr)
      case None => Outcome(h, S_IOERR, total)
      case Some(at) =>
        if !writable || FileOffset(sector) < 0 || FileOffset(sector) + s.len > MAX_OFFSET
        then Outcome(h, S_IOERR, total)
        else
          var h' := h.(disk := Pwrite(h.disk, h.ram[at..at + s.len], FileOffset(sector)));
          var next := (sector + s.len / SECTOR) % TWO_64;
          WriteSegments(h', base, writable, segs[1..], next, U32(total as int + s.len as int))
  }

  function GetId(h: Host, base: uint64, s: Desc): (o: Outcome)
    requires Whole(base, |h.ram|, s.addr, s.len)
    ensures |o.host.ram| == |h.ram|
  {
    match Translate(base, |h.ram|, s.addr)
    case None => Outcome(h, S_OK, 0)
    case Some(at) =>
      var text := if s.len <= |ID| then ID[..s.len] else ID + Zeros(s.len - |ID|);
      Outcome(h.(ram := Splice(h.ram, at, text)), S_OK, s.len)
  }

  /** A request's outcome before its status byte is stored. `segs` is the whole chain. */
  function Perform(h: Host, base: uint64, writable: bool, segs: seq<Desc>): (o: Outcome)
    requires segs != [] && WholeTable(base, |h.ram|, segs)
    ensures |o.host.ram| == |h.ram|
  {
    var n := |segs|;
    if n < 2 then Outcome(h, S_IOERR, 0) else
    assert segs[0] in segs && segs[1] in segs;
    match Translate(base, |h.ram|, segs[0].addr)
    case None => Outcome(h, S_IOERR, 0)
    case Some(at) =>
      if segs[0].len < 16 then Outcome(h, S_IOERR, 0) else
      var kind := ReadLe32(h.ram, at);
      var sector := ReadLe64(h.ram, at + 8);
      if kind == T_IN then
        if n < 3 then Outcome(h, S_IOERR, 0) else ReadSegments(h, base, segs[1..n - 1], sector, 0)
      else if kind == T_OUT then
        if n < 3 then Outcome(h, S_IOERR, 0) else WriteSegments(h, base, writable, segs[1..n - 1], sector, 0)
      else if kind == T_FLUSH then Outcome(h, S_OK, 0)
      else if kind == T_GET_ID then
        if n >= 3 && segs[1].len > 0 then GetId(h, base, segs[1]) else Outcome(h, S_OK, 0)
      else Outcome(h, S_UNSUPP, 0)
  }

  /** Stores the status byte in the chain's last buffer, if that is in RAM. */
  function Commit(o: Outcome, base: uint64, last: Desc): (h: Host)
    ensures |h.ram| == |o.host.ram| && h.disk == o.host.disk
  {
    match Translate(base, |o.host.ram|, last.addr)
    case None => o.host
    case Some(at) => o.host.(ram := Splice(o.host.ram, at, [o.status]))
  }

  function Segments(desc: seq<Desc>, chain: seq<uint16>): (segs: seq<Desc>)
    requires forall i :: 0 <= i < |chain| ==> chain[i] < |desc|
    ensures |segs| == |chain| && forall i :: 0 <= i < |chain| ==> segs[i] == desc[chain[i]]
  {
    seq(|chain|, i requires 0 <= i < |chain| => desc[chain[i]])
  }

  /** The segments of the request at `head`: its chain, up to 64 descriptors. */
  function RequestAt(desc: seq<Desc>, head: uint16): (segs: seq<Desc>)
    requires head < |desc| && forall i :: 0 <= i < |desc| ==> desc[i].next < |desc|
    ensures segs != []
  {
    Segments(desc, Chain(desc, head, MAX_CHAIN))
  }

  // ----- a whole drain -----

  datatype World = World(host: Host, ring: Ring)

  ghost predicate Trusted(w: World, base: uint64, desc: seq<Desc>) {
    InRange(desc, w.ring.avail, QUEUE_SIZE) && Sized(w.ring, QUEUE_SIZE)
    && WholeTable(base, |w.host.ram|, desc)
  }

  lemma RequestWhole(base: uint64, size: nat, desc: seq<Desc>, head: uint16)
    requires head < |desc| && (forall i :: 0 <= i < |desc| ==> desc[i].next < |desc|) && WholeTable(base, size, desc)
    ensures WholeTable(base, size, RequestAt(desc, head))
  {
    var chain := Chain(desc, head, MAX_CHAIN);
    forall s | s in RequestAt(desc, head)
      ensures Whole(base, size, s.addr, s.len)
    {
      var i :| 0 <= i < |chain| && RequestAt(desc, head)[i] == s;
      assert desc[chain[i]] in desc;
    }
  }

  /** One pass of the drain loop. */
  ghost function ServeNext(w: World, base: uint64, writable: bool, desc: seq<Desc>): (w': World)
    requires Trusted(w, base, desc) && HasWork(w.ring)
    ensures Trusted(w', base, desc) && Backlog(w'.ring) == Backlog(w.ring) - 1
  {
    var head := Head(w.ring, QUEUE_SIZE);
    RequestWhole(base, |w.host.ram|, desc, head);
    var segs := RequestAt(desc, head);
    var o := Perform(w.host, base, writable, segs);
    BacklogDecreases(w.ring, QUEUE_SIZE, U32(o.total as int + 1));
    World(Commit(o, base, segs[|segs| - 1]), Complete(w.ring, QUEUE_SIZE, U32(o.total as int + 1)))
  }

  ghost function Drain(w: World, base: uint64, writable: bool, desc: seq<Desc>): World
    requires Trusted(w, base, desc)
    decreases Backlog(w.ring)
  {
    if !HasWork(w.ring) then w else Drain(ServeNext(w, base, writable, desc), base, writable, desc)
  }

  // ----- the device -----

  class Block {
    const q: Queue
    const ram: array<byte>
    const base: uint64
    const writable: bool
    /** Whether the image is open, the queue ready and its rings mapped. */
    var live: bool
    var disk: seq<byte>
    var irqStatus: uint32

    constructor (q: Queue, ram: array<byte>, base: uint64, writable: bool, disk: seq<byte>)
      ensures this.q == q && this.ram == ram && this.base == base && this.writable == writable && this.disk == disk
    {
      this.q, this.ram, this.base, this.writable, this.disk := q, ram, base, writable, disk;
      live, irqStatus := false, 0;
    }

    ghost predicate Valid()
      reads this, q, q.desc, q.avail, ram
    {
      q.Valid() && q.n == QUEUE_SIZE && WholeTable(base, ram.Length, q.desc[..])
    }

    ghost function HostView(): Host
      reads this, ram
    {
      Host(ram[..], disk)
    }

    method Gather(chain: seq<uint16>) returns (segs: seq<Desc>)
      requires Valid() && forall i :: 0 <= i < |chain| ==> chain[i] < q.n
      ensures segs == Segments(q.desc[..], chain)
    {
      segs := [];
      for i := 0 to |chain|
        invariant segs == Segments(q.desc[..], chain[..i])
      {
        segs := segs + [q.desc[chain[i]]];
      }
      assert chain[..|chain|] == chain;
    }

    /** Follows `next` links from `head`, at most 64 of them. */
    method CollectChain(head: uint16) returns (chain: seq<uint16>)
      requires Valid() && head < q.n
      ensures chain == Chain(q.desc[..], head, MAX_CHAIN)
    {
      hide Chain, WholeTable, Desc.HasNext;
      chain := [];
      var c: uint16 := head;
      while |chain| < MAX_CHAIN
        invariant |chain| <= MAX_CHAIN && c < q.n
        invariant Chain(q.desc[..], head, MAX_CHAIN) == chain + Chain(q.desc[..], c, MAX_CHAIN - |chain|)
      {
        ChainStep(q.desc[..], c, MAX_CHAIN - |chain|);
        chain := chain + [c];
        if !q.desc[c].HasNext() {
          return;
        }
        c := q.desc[c].next;
      }
      ChainStops(q.desc[..], c);
    }

    method DoRead(segs: seq<Desc>, sector0: uint64) returns (status: byte, total: uint32)
      requires WholeTable(base, ram.Length, segs)
      modifies ram
      ensures Outcome(HostView(), status, total) == ReadSegments(old(HostView()), base, segs, sector0, 0)
    {
      hide Splice, Pread, FileOffset;
      var sector: uint64 := sector0;
      status, total := S_OK, 0;
      var i := 0;
      assert segs[0..] == segs;
      while i < |segs|
        invariant 0 <= i <= |segs| && status == S_OK && WholeTable(base, ram.Length, segs[i..])
        invariant ReadSegments(HostView(), base, segs[i..], sector, total)
               == ReadSegments(old(HostView()), base, segs, sector0, 0)
      {
        var s := segs[i];
        ghost var rest := segs[i..];
        assert rest[0] == s && rest[1..] == segs[i + 1..];
        assert s in segs;
        match Translate(base, ram.Length, s.addr) {
          case None =>
            status := S_IOERR;
            return;
          case Some(at) =>
            if FileOffset(sector) < 0 {
              status := S_IOERR;
              return;
            }
            var data := Pread(disk, s.len, FileOffset(sector));
            CopyInto(ram, at, data);
            if |data| != s.len {
              status := S_IOERR;
              return;
            }
        }
        sector, total := (sector + s.len / SECTOR) % TWO_64, U32(total as int + s.len as int);
        i := i + 1;
      }
    }

    method DoWrite(segs: seq<Desc>, sector0: uint64) returns (status: byte, total: uint32)
      requires WholeTable(base, ram.Length, segs)
      modifies this`disk
      ensures Outcome(HostView(), status, total) == WriteSegments(old(HostView()), base, writable, segs, sector0, 0)
    {
      hide Pwrite, FileOffset, U32;
      var sector: uint64 := sector0;
      status, total := S_OK, 0;
      var i := 0;
      assert segs[0..] == segs;
      while i < |segs|
        invariant 0 <= i <= |segs| && status == S_OK && WholeTable(base, ram.Length, segs[i..])
        invariant WriteSegments(HostView(), base, writable, segs[i..], sector, total)
               == WriteSegments(old(HostView()), base, writable, segs, sector0, 0)
      {
        var s := segs[i];
        ghost var rest := segs[i..];
        assert rest[0] == s && rest[1..] == segs[i + 1..];
        assert s in segs;
        match Translate(base, ram.Length, s.addr) {
          case None =>
            status := S_IOERR;
            return;
          case Some(at) =>
            if !writable || FileOffset(sector) < 0 || FileOffset(sector) + s.len > MAX_OFFSET {
              status := S_IOERR;
              return;
            }
            assert ram[..][at..at + s.len] == ram[at..at + s.len];
            disk := Pwrite(disk, ram[at..at + s.len], FileOffset(sector));
        }
        sector, total := (sector + s.len / SECTOR) % TWO_64, U32(total as int + s.len as int);
        i := i + 1;
      }
    }

    method DoGetId(s: Desc) returns (total: uint32)
      requires Whole(base, ram.Length, s.addr, s.len)
      modifies ram
      ensures Outcome(HostView(), S_OK, total) == GetId(old(HostView()), base, s)
    {
      hide Splice;
      total := 0;
      match Translate(base, ram.Length, s.addr)
      case None =>
      case Some(at) =>
        TwoCopies(ram[..], at, s.len, if s.len <= |ID| then ID[..s.len] else ID);
        CopyInto(ram, at, Zeros(s.len));
        CopyInto(ram, at, if s.len <= |ID| then ID[..s.len] else ID);
        total := s.len;
    }

    method DoRequest(segs: seq<Desc>) returns (status: byte, total: uint32)
      requires segs != [] && WholeTable(base, ram.Length, segs)
      modifies ram, this`disk
      ensures Outcome(HostView(), status, total) == Perform(old(HostView()), base, writable, segs)
    {
      hide ReadSegments, WriteSegments, GetId;
      var n := |segs|;
      status, total := S_OK, 0;
      if n < 2 {
        return S_IOERR, 0;
      }
      assert segs[0] in segs && segs[1] in segs;
      match Translate(base, ram.Length, segs[0].addr)
      case None => status := S_IOERR;
      case Some(at) =>
        if segs[0].len < 16 {
          return S_IOERR, 0;
        }
        var kind := ReadLe32(ram[..], at);
        var sector := ReadLe64(ram[..], at + 8);
        if kind == T_IN {
          if n < 3 {
            return S_IOERR, 0;
          }
          status, total := DoRead(segs[1..n - 1], sector);
        } else if kind == T_OUT {
          if n < 3 {
            return S_IOERR, 0;
          }
          status, total := DoWrite(segs[1..n - 1], sector);
        } else if kind == T_FLUSH {
        } else if kind == T_GET_ID {
          if n >= 3 && segs[1].len > 0 {
            total := DoGetId(segs[1]);
          }
        } else {
          status := S_UNSUPP;
        }
    }

    /** Serves every published request; the rings and the host end as `Drain` says. */
    method ProcessRq()
      requires Valid()
      modifies this`disk, this`irqStatus, ram, q`usedIdx, q`lastAvail, q.used
      ensures Valid()
      ensures Trusted(World(old(HostView()), old(q.View())), base, q.desc[..])
      ensures live ==> !HasWork(q.View()) && irqStatus == RaiseIrq(old(irqStatus))
      ensures live ==>
          World(HostView(), q.View()) == Drain(World(old(HostView()), old(q.View())), base, writable, q.desc[..])
      ensures !live ==> HostView() == old(HostView()) && q.View() == old(q.View()) && irqStatus == old(irqStatus)
    {
      if !live {
        return;
      }
      ghost var desc, w0 := q.desc[..], World(HostView(), q.View());
      while q.lastAvail != q.availIdx
        invariant Valid() && q.desc[..] == desc && irqStatus == old(irqStatus) && live
        invariant Trusted(World(HostView(), q.View()), base, desc)
        invariant Drain(World(HostView(), q.View()), base, writable, desc) == Drain(w0, base, writable, desc)
        decreases Backlog(q.View())
      {
        ServeOne();
      }
      irqStatus := RaiseIrq(irqStatus);
    }

    method ServeOne()
      requires Valid() && HasWork(q.View())
      requires Trusted(World(HostView(), q.View()), base, q.desc[..])
      modifies this`disk, ram, q`usedIdx, q`lastAvail, q.used
      ensures Valid()
      ensures World(HostView(), q.View())
              == ServeNext(World(old(HostView()), old(q.View())), base, writable, q.desc[..])
    {
      hide Perform, Splice;
      ghost var w := World(HostView(), q.View());
      var head := q.Peek();
      var chain := CollectChain(head);
      var segs := Gather(chain);
      RequestWhole(base, ram.Length, q.desc[..], head);
      var status, total := DoRequest(segs);
      match Translate(base, ram.Length, segs[|segs| - 1].addr) {
        case None =>
        case Some(at) => CopyInto(ram, at, [status]);
      }
      q.Return(head, U32(total as int + 1));
    }
  }

  lemma TwoCopies(ram: seq<byte>, at: nat, len: nat, text: seq<byte>)
    requires at + len <= |ram| && |text| <= len
    ensures Splice(Splice(ram, at, Zeros(len)), at, text) == Splice(ram, at, text + Zeros(len - |text|))
  {}
}
