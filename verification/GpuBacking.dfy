/** `read_backing` of src/virtio/gpu.cpp: reading a range of a resource's backing store,
    which is scattered over guest memory. */
module GpuBacking {
  import opened Bytes
  import opened GuestMemory

  datatype MemEntry = MemEntry(gpa: uint64, len: uint32)

  /** Each entry lies wholly inside or wholly outside RAM, without wrapping around. */
  predicate WholeEntries(base: uint64, size: nat, entries: seq<MemEntry>) {
    forall e :: e in entries ==> Whole(base, size, e.gpa, e.len) && e.gpa + e.len <= TWO_64
  }

  /** An entry's bytes; an unmapped entry reads as zeros. */
  function Content(ram: seq<byte>, base: uint64, e: MemEntry): (c: seq<byte>)
    requires Whole(base, |ram|, e.gpa, e.len)
    ensures |c| == e.len
  {
    match Translate(base, |ram|, e.gpa)
    case Some(at) => ram[at..at + e.len]
    case None => Zeros(e.len)
  }

  /** The backing store as one linear buffer. */
  function Flat(ram: seq<byte>, base: uint64, entries: seq<MemEntry>): seq<byte>
    requires WholeEntries(base, |ram|, entries)
  {
    if entries == [] then []
    else
      var last := entries[|entries| - 1];
      Flat(ram, base, entries[..|entries| - 1]) + Content(ram, base, last)
  }

  /** The part of `f[start..start + len]` that exists. */
  function Slice(f: seq<byte>, start: nat, len: nat): (r: seq<byte>)
    ensures |r| <= len
  {
    f[Min(start, |f|)..Min(start + len, |f|)]
  }

  /** What a read transfers: nothing when the range's end overflows `size_t`. */
  function ReadResult(f: seq<byte>, start: uint64, len: uint64): (r: seq<byte>)
    ensures |r| <= len
  {
    if start + len < TWO_64 then Slice(f, start, len) else []
  }

  /** `start_off + len` in `size_t`. */
  function EndOff(start: uint64, len: uint64): uint64 {
    (start + len) % TWO_64
  }

  lemma SliceStep(f: seq<byte>, c: seq<byte>, start: nat, len: nat)
    requires |f| < start + len
    ensures var from, end := Max(|f|, start), Min(|f| + |c|, start + len);
            if from < end then
              Slice(f + c, start, len) == Slice(f, start, len) + c[from - |f|..end - |f|]
              && |Slice(f, start, len)| == from - start
            else Slice(f + c, start, len) == Slice(f, start, len)
  {
    hide Slice;
    if start >= |f| + |c| {
      SlicePast(f, start, len);
      SlicePast(f + c, start, len);
    } else if |f| <= start {
      SliceFromNew(f, c, start, len);
    } else {
      SliceFromOld(f, c, start, len);
    }
  }

  lemma SliceFromNew(f: seq<byte>, c: seq<byte>, start: nat, len: nat)
    requires |f| <= start < |f| + |c|
    ensures var end := Min(|f| + |c|, start + len);
            Slice(f, start, len) == [] && Slice(f + c, start, len) == [] + c[start - |f|..end - |f|]
  {
    SlicePast(f, start, len);
    SliceAfter(f, c, start, Min(|f| + |c|, start + len));
    Prepended(c[start - |f|..Min(|f| + |c|, start + len) - |f|]);
  }

  lemma SliceFromOld(f: seq<byte>, c: seq<byte>, start: nat, len: nat)
    requires start < |f| < start + len
    ensures var end := Min(|f| + |c|, start + len);
            Slice(f + c, start, len) == Slice(f, start, len) + c[|f| - |f|..end - |f|]
            && |Slice(f, start, len)| == |f| - start
  {
    SliceAcross(f, c, start, Min(|f| + |c|, start + len));
  }

  lemma SlicePast(f: seq<byte>, start: nat, len: nat)
    requires start >= |f|
    ensures Slice(f, start, len) == []
  {}

  lemma Prepended(c: seq<byte>)
    ensures [] + c == c
  {}

  lemma SliceAfter(f: seq<byte>, c: seq<byte>, a: nat, b: nat)
    requires |f| <= a <= b <= |f| + |c|
    ensures (f + c)[a..b] == c[a - |f|..b - |f|]
  {}

  lemma SliceAcross(f: seq<byte>, c: seq<byte>, a: nat, b: nat)
    requires a <= |f| <= b <= |f| + |c|
    ensures (f + c)[a..b] == f[a..|f|] + c[|f| - |f|..b - |f|]
  {}

  /** An end that overflows lies before the start. */
  lemma EndOffIs(start: uint64, len: uint64)
    ensures EndOff(start, len) == if start + len < TWO_64 then start + len else start + len - TWO_64
  {}

  /** How one more entry's content `c` extends what was read from the entries before it. */
  lemma ReadStep(f: seq<byte>, c: seq<byte>, start: uint64, len: uint64)
    requires |f| < EndOff(start, len)
    ensures var from, end := Max(|f|, start), Min(|f| + |c|, EndOff(start, len));
            if from < end then
              ReadResult(f + c, start, len) == ReadResult(f, start, len) + c[from - |f|..end - |f|]
              && |ReadResult(f, start, len)| == from - start
            else ReadResult(f + c, start, len) == ReadResult(f, start, len)
  {
    hide Slice, EndOff;
    EndOffIs(start, len);
    if start + len < TWO_64 {
      SliceStep(f, c, start, len);
    }
  }

  /** Entries past the range's end add nothing. */
  lemma ReadDone(f: seq<byte>, c: seq<byte>, start: uint64, len: uint64)
    requires |f| >= EndOff(start, len)
    ensures ReadResult(f + c, start, len) == ReadResult(f, start, len)
  {
    hide EndOff;
    EndOffIs(start, len);
  }

  lemma FlatStep(ram: seq<byte>, base: uint64, entries: seq<MemEntry>, i: nat)
    requires WholeEntries(base, |ram|, entries) && i < |entries|
    ensures WholeEntries(base, |ram|, entries[..i]) && WholeEntries(base, |ram|, entries[..i + 1])
    ensures Whole(base, |ram|, entries[i].gpa, entries[i].len) && entries[i].gpa + entries[i].len <= TWO_64
    ensures Flat(ram, base, entries[..i + 1]) == Flat(ram, base, entries[..i]) + Content(ram, base, entries[i])
  {
    assert entries[..i + 1][..i] == entries[..i];
    assert entries[i] in entries;
  }

  lemma {:induction false} ReadOfPrefix(ram: seq<byte>, base: uint64, entries: seq<MemEntry>, i: nat,
                                        start: uint64, len: uint64)
    requires WholeEntries(base, |ram|, entries) && i <= |entries|
    ensures WholeEntries(base, |ram|, entries[..i])
    ensures |Flat(ram, base, entries[..i])| >= EndOff(start, len) ==>
              ReadResult(Flat(ram, base, entries), start, len) == ReadResult(Flat(ram, base, entries[..i]), start, len)
    decreases |entries| - i
  {
    hide Flat, Content, ReadResult, EndOff;
    if i == |entries| {
      assert entries[..i] == entries;
    } else {
      FlatStep(ram, base, entries, i);
      ReadOfPrefix(ram, base, entries, i + 1, start, len);
      var f := Flat(ram, base, entries[..i]);
      if |f| >= EndOff(start, len) {
        ReadDone(f, Content(ram, base, entries[i]), start, len);
      }
    }
  }

  lemma PieceContent(ram: seq<byte>, base: uint64, e: MemEntry, inEntry: nat, n: nat)
    requires Whole(base, |ram|, e.gpa, e.len)
    requires inEntry + n <= e.len && n > 0
    ensures match Translate(base, |ram|, e.gpa + inEntry)
            case Some(hva) => hva + n <= |ram| && Content(ram, base, e)[inEntry..inEntry + n] == ram[hva..hva + n]
            case None => Content(ram, base, e)[inEntry..inEntry + n] == Zeros(n)
  {
    WholePart(base, |ram|, e.gpa, e.len, inEntry);
    match Translate(base, |ram|, e.gpa)
    case Some(at) => SliceOfSlice(ram, at, at + e.len, inEntry, inEntry + n);
    case None => assert Zeros(e.len)[inEntry..inEntry + n] == Zeros(n);
  }

  lemma SliceOfSlice(s: seq<byte>, a: nat, b: nat, i: nat, j: nat)
    requires a <= b <= |s| && i <= j <= b - a
    ensures s[a..b][i..j] == s[a + i..a + j]
  {
    var t := s[a..b];
    assert forall k :: i <= k < j ==> t[k] == s[a + k];
    assert forall k :: 0 <= k < j - i ==> t[i..j][k] == t[i + k];
  }

  /** A range of an entry's content, copied into place the way the loop does it. */
  method CopyPiece(ram: seq<byte>, base: uint64, e: MemEntry, inEntry: nat, n: nat, dst: array<byte>, at: nat)
    requires Whole(base, |ram|, e.gpa, e.len)
    requires inEntry + n <= e.len && n > 0 && at + n <= dst.Length
    modifies dst
    ensures dst[..] == Splice(old(dst[..]), at, Content(ram, base, e)[inEntry..inEntry + n])
  {
    PieceContent(ram, base, e, inEntry, n);
    hide Content, Translate, Whole, Splice;
    match Translate(base, |ram|, e.gpa + inEntry)
    case Some(hva) => CopyInto(dst, at, ram[hva..hva + n]);
    case None => CopyInto(dst, at, Zeros(n));
  }

  /** Copies into `dst` from `dstAt` on exactly the part of the linear backing that overlaps
      [start, start + len), leaves every other byte alone, and returns the overlap's size. */
  method ReadBacking(ram: seq<byte>, base: uint64, backing: seq<MemEntry>, start: uint64, dst: array<byte>,
                     dstAt: nat, len: uint64) returns (copied: nat)
    requires WholeEntries(base, |ram|, backing) && dstAt + len <= dst.Length
    modifies dst
    ensures dst[..] == Splice(old(dst[..]), dstAt, ReadResult(Flat(ram, base, backing), start, len))
    ensures copied == |ReadResult(Flat(ram, base, backing), start, len)|
  {
    hide Content, Whole, ReadResult, Splice, EndOff;
    var endOff := EndOff(start, len);
    ghost var dst0 := dst[..];
    copied := 0;
    var linBase, i := 0, 0;
    ReadNothing(dst0, dstAt, start, len);
    while i < |backing|
      invariant 0 <= i <= |backing| && WholeEntries(base, |ram|, backing[..i])
      invariant linBase == |Flat(ram, base, backing[..i])|
      invariant dst[..] == Splice(dst0, dstAt, ReadResult(Flat(ram, base, backing[..i]), start, len))
      invariant copied == |ReadResult(Flat(ram, base, backing[..i]), start, len)|
    {
      if linBase >= endOff {
        break;
      }
      var e := backing[i];
      FlatStep(ram, base, backing, i);
      ghost var f, c := Flat(ram, base, backing[..i]), Content(ram, base, backing[i]);
      ReadStep(f, c, start, len);
      var linEnd := linBase + e.len;
      var ovStart := Max(linBase, start);
      var ovEnd := Min(linEnd, endOff);
      if ovStart < ovEnd {
        var inEntry, n, dstOff := ovStart - linBase, ovEnd - ovStart, ovStart - start;
        CopyPiece(ram, base, e, inEntry, n, dst, dstAt + dstOff);
        SpliceMore(dst0, dstAt, ReadResult(f, start, len), c[inEntry..inEntry + n]);
        copied := copied + n;
      }
      linBase := linEnd;
      i := i + 1;
    }
    ReadOfPrefix(ram, base, backing, i, start, len);
    assert i == |backing| ==> backing[..i] == backing;
  }

  lemma ReadNothing(dst: seq<byte>, at: nat, start: uint64, len: uint64)
    requires at <= |dst|
    ensures ReadResult([], start, len) == [] && Splice(dst, at, []) == dst
  {}

  lemma SpliceMore(s: seq<byte>, at: nat, a: seq<byte>, b: seq<byte>)
    requires at + |a| + |b| <= |s|
    ensures Splice(Splice(s, at, a), at + |a|, b) == Splice(s, at, a + b)
  {}

  // ----- independence of fragmentation -----

  lemma {:induction false} FlatConcat(ram: seq<byte>, base: uint64, a: seq<MemEntry>, b: seq<MemEntry>)
    requires WholeEntries(base, |ram|, a) && WholeEntries(base, |ram|, b)
    ensures WholeEntries(base, |ram|, a + b)
    ensures Flat(ram, base, a + b) == Flat(ram, base, a) + Flat(ram, base, b)
    decreases |b|
  {
    hide Content;
    if b == [] {
      assert a + b == a;
    } else {
      var n := |b| - 1;
      assert (a + b)[..|a + b| - 1] == a + b[..n];
      FlatConcat(ram, base, a, b[..n]);
      Assoc(Flat(ram, base, a), Flat(ram, base, b[..n]), Content(ram, base, b[n]));
    }
  }

  lemma FlatOne(ram: seq<byte>, base: uint64, e: MemEntry)
    requires WholeEntries(base, |ram|, [e])
    ensures Whole(base, |ram|, e.gpa, e.len) && Flat(ram, base, [e]) == Content(ram, base, e)
  {
    hide Content, Whole;
    assert e in [e];
    FlatStep(ram, base, [e], 0);
    assert [e][..0] == [] && [e][..1] == [e];
  }

  lemma ContentSplits(ram: seq<byte>, base: uint64, e: MemEntry, k: nat)
    requires Whole(base, |ram|, e.gpa, e.len) && k < e.len && e.gpa + k < TWO_64
    ensures Whole(base, |ram|, e.gpa, k) && Whole(base, |ram|, e.gpa + k, e.len - k)
    ensures Content(ram, base, e)
         == Content(ram, base, MemEntry(e.gpa, k)) + Content(ram, base, MemEntry(e.gpa + k, e.len - k))
  {
    WholePart(base, |ram|, e.gpa, e.len, k);
  }

  lemma FlatPair(ram: seq<byte>, base: uint64, e: MemEntry, k: nat)
    requires WholeEntries(base, |ram|, [e]) && 0 < k < e.len
    ensures e.gpa + k < TWO_64
    ensures var pair := [MemEntry(e.gpa, k), MemEntry(e.gpa + k, e.len - k)];
            WholeEntries(base, |ram|, pair) && Flat(ram, base, pair) == Flat(ram, base, [e])
  {
    assert e in [e];
    WholePart(base, |ram|, e.gpa, e.len, k);
    var e1, e2 := MemEntry(e.gpa, k), MemEntry(e.gpa + k, e.len - k);
    assert WholeEntries(base, |ram|, [e1]) && WholeEntries(base, |ram|, [e2]);
    ContentSplits(ram, base, e, k);
    hide Content, Whole, Flat;
    FlatConcat(ram, base, [e1], [e2]);
    assert [e1, e2] == [e1] + [e2];
    FlatOne(ram, base, e);
    FlatOne(ram, base, e1);
    FlatOne(ram, base, e2);
  }

  lemma WholeParts(base: uint64, size: nat, a: seq<MemEntry>, b: seq<MemEntry>)
    ensures WholeEntries(base, size, a + b) <==> WholeEntries(base, size, a) && WholeEntries(base, size, b)
  {
    hide Whole;
    assert forall e :: e in a + b <==> e in a || e in b;
  }

  /** Splitting an entry in two leaves the linear backing, and so every read, as it was. */
  lemma SplitEntry(ram: seq<byte>, base: uint64, a: seq<MemEntry>, e: MemEntry, b: seq<MemEntry>, k: nat)
    requires WholeEntries(base, |ram|, a + [e] + b) && 0 < k < e.len
    ensures e.gpa + k < TWO_64
    ensures var split := a + [MemEntry(e.gpa, k), MemEntry(e.gpa + k, e.len - k)] + b;
            WholeEntries(base, |ram|, split) && Flat(ram, base, split) == Flat(ram, base, a + [e] + b)
  {
    WholeParts(base, |ram|, a + [e], b);
    WholeParts(base, |ram|, a, [e]);
    FlatPair(ram, base, e, k);
    hide WholeEntries, Flat;
    var pair := [MemEntry(e.gpa, k), MemEntry(e.gpa + k, e.len - k)];
    FlatConcat(ram, base, a, [e]);
    FlatConcat(ram, base, a + [e], b);
    FlatConcat(ram, base, a, pair);
    FlatConcat(ram, base, a + pair, b);
  }

  // ----- where a byte of the backing lies -----

  /** The bytes of the entries before the `i`th. */
  function Before(entries: seq<MemEntry>, i: nat): nat
    requires i <= |entries|
  {
    if i == 0 then 0 else Before(entries, i - 1) + entries[i - 1].len
  }

  lemma {:induction false} BeforePrefix(entries: seq<MemEntry>, n: nat, i: nat)
    requires i <= n <= |entries|
    ensures Before(entries[..n], i) == Before(entries, i)
    decreases i
  {
    if i > 0 {
      BeforePrefix(entries, n, i - 1);
    }
  }

  lemma {:induction false} FlatLength(ram: seq<byte>, base: uint64, entries: seq<MemEntry>)
    requires WholeEntries(base, |ram|, entries)
    ensures |Flat(ram, base, entries)| == Before(entries, |entries|)
    decreases |entries|
  {
    if entries != [] {
      hide Content;
      var n := |entries| - 1;
      FlatLength(ram, base, entries[..n]);
      BeforePrefix(entries, n, n);
    }
  }

  /** Byte `k` of entry `i` is the guest's byte at the entry's address plus `k`, or zero where the
      entry is not in RAM; entries follow one another. */
  lemma {:induction false} FlatByte(ram: seq<byte>, base: uint64, entries: seq<MemEntry>, i: nat, k: nat)
    requires WholeEntries(base, |ram|, entries) && i < |entries| && k < entries[i].len
    ensures Before(entries, i) + k < |Flat(ram, base, entries)|
    ensures base <= entries[i].gpa < base + |ram| ==> entries[i].gpa - base + k < |ram|
    ensures Flat(ram, base, entries)[Before(entries, i) + k]
            == if base <= entries[i].gpa < base + |ram| then ram[entries[i].gpa - base + k] else 0
    decreases |entries|
  {
    var n := |entries| - 1;
    hide Content, Flat, Before, Whole;
    FlatLast(ram, base, entries);
    ContentByte(ram, base, entries[i], k);
    FlatLength(ram, base, entries[..n]);
    BeforePrefix(entries, n, n);
    if i < n {
      FlatByte(ram, base, entries[..n], i, k);
      BeforePrefix(entries, n, i);
    }
  }

  lemma FlatLast(ram: seq<byte>, base: uint64, entries: seq<MemEntry>)
    requires WholeEntries(base, |ram|, entries) && entries != []
    ensures var n := |entries| - 1;
            && WholeEntries(base, |ram|, entries[..n])
            && (forall i :: 0 <= i <= n ==> Whole(base, |ram|, entries[i].gpa, entries[i].len))
            && Flat(ram, base, entries) == Flat(ram, base, entries[..n]) + Content(ram, base, entries[n])
  {
    hide Content;
    assert forall i :: 0 <= i < |entries| ==> entries[i] in entries;
  }

  lemma ContentByte(ram: seq<byte>, base: uint64, e: MemEntry, k: nat)
    requires Whole(base, |ram|, e.gpa, e.len) && k < e.len
    ensures base <= e.gpa < base + |ram| ==> e.gpa - base + k < |ram|
    ensures Content(ram, base, e)[k] == if base <= e.gpa < base + |ram| then ram[e.gpa - base + k] else 0
  {}
}
