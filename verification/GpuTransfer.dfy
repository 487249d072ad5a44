/** TRANSFER_TO_HOST_2D of src/virtio/gpu.cpp: copying a rectangle of the linear backing into
    a resource's host buffer, against the pixel-wise rule of section 5.7.6 of Virtio 1.2. */
module GpuTransfer {
  import opened Bytes
  import opened GpuBacking

  datatype Rect = Rect(x: uint32, y: uint32, width: uint32, height: uint32)

  /** A transfer command: the rectangle and where its first row starts in the backing. */
  datatype Transfer = Transfer(r: Rect, offset: uint64)

  /** The rectangle's far edge in 32-bit arithmetic, clipped to the resource. */
  function Edge(start: uint32, extent: uint32, limit: uint32): uint32 {
    Min(U32(start + extent), limit)
  }

  /** The bytes of a host buffer, which the code computes in `size_t`. */
  function BufferSize(w: uint32, h: uint32): nat {
    w * h * 4 % TWO_64
  }

  function RowAt(stride: nat, row: nat, x: nat): nat {
    row * stride + x * 4
  }

  function SourceAt(t: Transfer, stride: uint32, row: nat): uint64
    requires t.r.y <= row
  {
    (t.offset + (row - t.r.y) * stride) % TWO_64
  }

  predicate RowsFit(size: nat, t: Transfer, stride: nat, rowBytes: nat, end: nat) {
    forall row :: 0 <= row < end ==> RowAt(stride, row, t.r.x) + rowBytes <= size
  }

  /** The host buffer after the rows from the rectangle's first up to `end`. */
  function Rows(buf: seq<byte>, flat: seq<byte>, t: Transfer, stride: uint32, rowBytes: uint32,
                end: nat): (r: seq<byte>)
    requires RowsFit(|buf|, t, stride, rowBytes, end)
    ensures |r| == |buf|
  {
    if end <= t.r.y then buf
    else
      var row := end - 1;
      Splice(Rows(buf, flat, t, stride, rowBytes, row), RowAt(stride, row, t.r.x),
             ReadResult(flat, SourceAt(t, stride, row), rowBytes))
  }

  /** Row `k` of a block of `n` rows of `s` bytes ends within the block. */
  lemma RowWithin(k: nat, n: nat, s: nat)
    requires k < n
    ensures k * s + s <= n * s
  {
    assert k * s + s == (k + 1) * s;
  }

  lemma NarrowerRows(k: nat, s: nat, s': nat)
    requires s <= s'
    ensures k * s <= k * s'
  {}

  lemma BufferRows(w: nat, h: nat)
    ensures h * (w * 4) == w * h * 4
  {}

  lemma RowInBounds(row: nat, x: nat, w: nat, h: nat, stride: nat, rowBytes: nat)
    requires row < h && stride <= w * 4 && x * 4 + rowBytes <= w * 4
    ensures RowAt(stride, row, x) + rowBytes <= w * h * 4
  {
    RowWithin(row, h, w * 4);
    NarrowerRows(row, stride, w * 4);
    BufferRows(w, h);
  }

  /** Every destination row of the transfer lies in the host buffer. */
  predicate InBounds(t: Transfer, w: uint32, h: uint32) {
    var rx2, ry2 := Edge(t.r.x, t.r.width, w), Edge(t.r.y, t.r.height, h);
    t.r.x < rx2 && t.r.y < ry2 ==> RowsFit(BufferSize(w, h), t, U32(w * 4), U32((rx2 - t.r.x) * 4), ry2)
  }

  lemma SizeExact(w: uint32, h: uint32)
    ensures BufferSize(w, h) == w * h * 4 <==> w * h * 4 < TWO_64
  {
    Residue(w * h * 4);
  }

  lemma Residue(n: nat)
    ensures n % TWO_64 == n <==> n < TWO_64
  {}

  /** For a resource whose size fits in `size_t`, every destination row lies in the host buffer,
      even when the rectangle's 32-bit sums wrap. */
  lemma RowsInBounds(t: Transfer, w: uint32, h: uint32)
    requires w * h * 4 < TWO_64
    ensures InBounds(t, w, h)
  {
    SizeExact(w, h);
    hide BufferSize, RowsFit;
    var rx2, ry2 := Edge(t.r.x, t.r.width, w), Edge(t.r.y, t.r.height, h);
    if t.r.x < rx2 && t.r.y < ry2 {
      RowsFitExactSize(t, w, h, rx2, ry2);
    }
  }

  lemma RowsFitExactSize(t: Transfer, w: uint32, h: uint32, rx2: uint32, end: nat)
    requires t.r.x < rx2 <= w && end <= h
    ensures RowsFit(w * h * 4, t, U32(w * 4), U32((rx2 - t.r.x) * 4), end)
  {
    hide RowAt, U32;
    CastShrinks(w * 4);
    CastShrinks((rx2 - t.r.x) * 4);
    forall row | 0 <= row < end
      ensures RowAt(U32(w * 4), row, t.r.x) + U32((rx2 - t.r.x) * 4) <= w * h * 4
    {
      RowInBounds(row, t.r.x, w, h, U32(w * 4), U32((rx2 - t.r.x) * 4));
    }
  }

  lemma CastShrinks(x: nat)
    ensures U32(x) <= x
  {}

  /** The end of the resource's last pixel, as the row loop computes it. */
  function LastEnd(w: uint32, h: uint32): nat
    requires h > 0
  {
    RowAt(U32(w * 4), h - 1, w)
  }

  lemma RowEndsBeforeLast(t: Transfer, w: uint32, h: uint32, row: nat, rx2: uint32)
    requires t.r.x < rx2 <= w && row < h
    ensures RowAt(U32(w * 4), row, t.r.x) + U32((rx2 - t.r.x) * 4) <= LastEnd(w, h)
  {
    hide U32;
    CastShrinks((rx2 - t.r.x) * 4);
    MoreRows(row, h - 1, U32(w * 4));
  }

  lemma MoreRows(k: nat, n: nat, s: nat)
    requires k <= n
    ensures k * s <= n * s
  {}

  /** The transfer of the last pixel alone. */
  function LastPixel(w: uint32, h: uint32): Transfer
    requires w > 0 && h > 0
  {
    Transfer(Rect(w - 1, h - 1, 1, 1), 0)
  }

  lemma LastPixelFits(w: uint32, h: uint32)
    requires w > 0 && h > 0 && InBounds(LastPixel(w, h), w, h)
    ensures LastEnd(w, h) <= BufferSize(w, h)
  {
    hide BufferSize, RowAt;
    var t := LastPixel(w, h);
    assert Edge(w - 1, 1, w) == w && Edge(h - 1, 1, h) == h && U32(4) == 4;
    LastEndIs(U32(w * 4), h - 1, w);
    assert RowAt(U32(w * 4), h - 1, t.r.x) + 4 <= BufferSize(w, h);
  }

  lemma LastEndIs(stride: nat, row: nat, w: nat)
    requires w > 0
    ensures RowAt(stride, row, w) == RowAt(stride, row, w - 1) + 4
  {}

  /** All transfers into a resource stay in its buffer if and only if the last pixel does. */
  lemma InBoundsIff(w: uint32, h: uint32)
    ensures (forall t :: InBounds(t, w, h)) <==> w == 0 || h == 0 || LastEnd(w, h) <= BufferSize(w, h)
  {
    hide BufferSize, RowAt, U32, LastEnd;
    if w > 0 && h > 0 {
      if LastEnd(w, h) <= BufferSize(w, h) {
        forall t: Transfer
          ensures InBounds(t, w, h)
        {
          var rx2, ry2 := Edge(t.r.x, t.r.width, w), Edge(t.r.y, t.r.height, h);
          if t.r.x < rx2 && t.r.y < ry2 {
            forall row | 0 <= row < ry2
              ensures RowAt(U32(w * 4), row, t.r.x) + U32((rx2 - t.r.x) * 4) <= BufferSize(w, h)
            {
              RowEndsBeforeLast(t, w, h, row, rx2);
            }
          }
        }
      } else if InBounds(LastPixel(w, h), w, h) {
        LastPixelFits(w, h);
      }
    }
  }

  /** A 2^31 by 2^31 resource has an empty buffer, so the transfer of its first pixel, which the
      code does not refuse, lies outside it. */
  lemma HugeResourceOutOfBounds()
    ensures BufferSize(0x8000_0000, 0x8000_0000) == 0
    ensures !InBounds(Transfer(Rect(0, 0, 1, 1), 0), 0x8000_0000, 0x8000_0000)
  {
    var n: uint32 := 0x8000_0000;
    var t := Transfer(Rect(0, 0, 1, 1), 0);
    assert n * n * 4 == TWO_64 && BufferSize(n, n) == 0;
    assert Edge(0, 1, n) == 1 && U32(4) == 4 && U32(n * 4) == 0;
    assert RowAt(0, 0, 0) + 4 > 0;
  }

  function TransferTo(buf: seq<byte>, flat: seq<byte>, w: uint32, h: uint32, t: Transfer): (r: seq<byte>)
    requires |buf| == BufferSize(w, h) && InBounds(t, w, h)
    ensures |r| == |buf|
  {
    var rx2, ry2 := Edge(t.r.x, t.r.width, w), Edge(t.r.y, t.r.height, h);
    if t.r.x < rx2 && t.r.y < ry2 then Rows(buf, flat, t, U32(w * 4), U32((rx2 - t.r.x) * 4), ry2) else buf
  }

  /** The command's row loop, in place. */
  method TransferToHost(ram: seq<byte>, base: uint64, backing: seq<MemEntry>, buf: array<byte>, w: uint32, h: uint32,
                        t: Transfer)
    requires WholeEntries(base, |ram|, backing) && buf.Length == BufferSize(w, h) && InBounds(t, w, h)
    modifies buf
    ensures buf[..] == TransferTo(old(buf[..]), Flat(ram, base, backing), w, h, t)
  {
    hide ReadResult, Splice, Flat, RowAt, WholeEntries, U32, BufferSize;
    var rx2, ry2 := Edge(t.r.x, t.r.width, w), Edge(t.r.y, t.r.height, h);
    if t.r.x < rx2 && t.r.y < ry2 {
      var stride, rowBytes: uint32 := U32(w * 4), U32((rx2 - t.r.x) * 4);
      ghost var buf0, flat := buf[..], Flat(ram, base, backing);
      var row: uint32 := t.r.y;
      while row < ry2
        invariant t.r.y <= row <= ry2
        invariant buf[..] == Rows(buf0, flat, t, stride, rowBytes, row)
      {
        var copied :=
          ReadBacking(ram, base, backing, SourceAt(t, stride, row), buf, RowAt(stride, row, t.r.x), rowBytes);
        row := row + 1;
      }
    }
  }

  // ----- the pixel-wise rule -----

  /** Position of byte `b` of the pixel at (`col`, `row`) in a buffer of width `w`. */
  function PixelAt(w: nat, row: nat, col: nat, b: nat): nat {
    (row * w + col) * 4 + b
  }

  predicate Inside(r: Rect, row: nat, col: nat) {
    r.x <= col < r.x + r.width && r.y <= row < r.y + r.height
  }

  /** The transfer neither wraps its rectangle nor its backing offsets. */
  predicate NoWrap(t: Transfer, w: nat) {
    && w < 0x4000_0000
    && t.r.x + t.r.width < TWO_32 && t.r.y + t.r.height < TWO_32
    && t.offset + t.r.height * (w * 4) < TWO_64
  }

  /** The backing byte a byte of the rectangle comes from. */
  function PixelSource(t: Transfer, w: nat, row: nat, col: nat, b: nat): nat
    requires Inside(t.r, row, col)
  {
    t.offset + (row - t.r.y) * (w * 4) + (col - t.r.x) * 4 + b
  }

  /** What section 5.7.6 asks of one byte: inside the rectangle the backing's byte at
      offset + (row - y) * stride + (col - x) * 4 + b, where the backing has one. */
  function PixelByte(buf: seq<byte>, flat: seq<byte>, w: nat, t: Transfer, row: nat, col: nat, b: nat): byte
    requires PixelAt(w, row, col, b) < |buf|
  {
    if Inside(t.r, row, col) then
      var src := PixelSource(t, w, row, col, b);
      if src < |flat| then flat[src] else buf[PixelAt(w, row, col, b)]
    else buf[PixelAt(w, row, col, b)]
  }

  lemma PixelInBuffer(w: nat, h: nat, row: nat, col: nat, b: nat)
    requires row < h && col < w && b < 4
    ensures PixelAt(w, row, col, b) < w * h * 4
  {
    RowWithin(row, h, w);
  }

  /** Two positions in different rows are a stride apart. */
  lemma RowApart(w: nat, row: nat, row': nat, x: nat)
    requires row < row'
    ensures RowAt(w * 4, row, x) + w * 4 <= RowAt(w * 4, row', x)
  {
    RowWithin(row, row', w * 4);
  }

  lemma PixelOffset(w: nat, row: nat, col: nat, b: nat)
    ensures PixelAt(w, row, col, b) == RowAt(w * 4, row, 0) + col * 4 + b
  {
    assert (row * w) * 4 == row * (w * 4);
  }

  lemma SourceExact(t: Transfer, w: uint32, row: nat)
    requires NoWrap(t, w) && t.r.y <= row < t.r.y + t.r.height
    ensures SourceAt(t, w * 4, row) == t.offset + (row - t.r.y) * (w * 4)
    ensures SourceAt(t, w * 4, row) + w * 4 < TWO_64
  {
    RowWithin(row - t.r.y, t.r.height, w * 4);
    Unwrapped(t.offset + (row - t.r.y) * (w * 4));
  }

  lemma Unwrapped(x: uint64)
    ensures x % TWO_64 == x
  {}

  /** One pixel byte after one row. */
  lemma RowPixel(before: seq<byte>, flat: seq<byte>, src: uint64, rowBytes: uint32, at: nat, p: nat)
    requires at + rowBytes <= |before| && p < |before| && src + rowBytes < TWO_64
    ensures |ReadResult(flat, src, rowBytes)| <= rowBytes
    ensures Splice(before, at, ReadResult(flat, src, rowBytes))[p]
         == if at <= p < at + rowBytes && src + (p - at) < |flat| then flat[src + (p - at)] else before[p]
  {}

  /** A byte lies in the part of row `last` a transfer writes just when its pixel does. */
  lemma InRow(w: nat, row: nat, last: nat, col: nat, b: nat, x: nat, rx2: nat)
    requires x < rx2 <= w && col < w && b < 4
    ensures RowAt(w * 4, last, x) <= PixelAt(w, row, col, b) < RowAt(w * 4, last, x) + (rx2 - x) * 4
            <==> row == last && x <= col < rx2
    ensures row == last ==> PixelAt(w, row, col, b) - RowAt(w * 4, last, x) == (col - x) * 4 + b
  {
    PixelOffset(w, row, col, b);
    if row < last {
      RowApart(w, row, last, 0);
    } else if row > last {
      RowApart(w, last, row, 0);
    }
  }

  lemma {:induction false} RowsPixel(buf: seq<byte>, flat: seq<byte>, w: uint32, h: uint32, t: Transfer,
                                     rx2: uint32, end: nat, row: nat, col: nat, b: nat)
    requires |buf| == w * h * 4 && NoWrap(t, w) && t.r.x < rx2 <= w && rx2 <= t.r.x + t.r.width
    requires end <= h && end <= t.r.y + t.r.height && row < h && col < w && b < 4
    ensures PixelAt(w, row, col, b) < |buf| && RowsFit(|buf|, t, w * 4, (rx2 - t.r.x) * 4, end)
    ensures Rows(buf, flat, t, w * 4, (rx2 - t.r.x) * 4, end)[PixelAt(w, row, col, b)]
         == if col < rx2 && row < end then PixelByte(buf, flat, w, t, row, col, b) else buf[PixelAt(w, row, col, b)]
    decreases end
  {
    hide PixelAt, RowAt, U32, SourceAt, ReadResult, Splice, PixelSource;
    PixelInBuffer(w, h, row, col, b);
    Sizes(w, t.r.x, rx2);
    RowsFitExactSize(t, w, h, rx2, end);
    if end > t.r.y {
      var last := end - 1;
      RowsPixel(buf, flat, w, h, t, rx2, last, row, col, b);
      SourceExact(t, w, last);
      InRow(w, row, last, col, b, t.r.x, rx2);
      var src, n, at := SourceAt(t, w * 4, last), (rx2 - t.r.x) * 4, RowAt(w * 4, last, t.r.x);
      RowPixel(Rows(buf, flat, t, w * 4, n, last), flat, src, n, at, PixelAt(w, row, col, b));
      if row == last && t.r.x <= col < rx2 {
        RowSource(t, w, row, col, b);
      }
    }
  }

  lemma RowSource(t: Transfer, w: uint32, row: nat, col: nat, b: nat)
    requires NoWrap(t, w) && Inside(t.r, row, col)
    ensures PixelSource(t, w, row, col, b) == SourceAt(t, w * 4, row) + ((col - t.r.x) * 4 + b)
  {
    hide SourceAt;
    SourceExact(t, w, row);
  }

  lemma ClippedEdge(start: uint32, extent: uint32, limit: uint32)
    requires start + extent < TWO_32
    ensures Edge(start, extent, limit) == Min(start + extent, limit)
  {}

  lemma Sizes(w: uint32, x: uint32, rx2: uint32)
    requires w < 0x4000_0000 && x < rx2 <= w
    ensures U32(w * 4) == w * 4 && U32((rx2 - x) * 4) == (rx2 - x) * 4
  {}

  /** Below 2^30 pixels a row, sizes are exact. */
  lemma NarrowSize(w: uint32, h: uint32)
    requires w < 0x4000_0000
    ensures w * h * 4 < TWO_64 && BufferSize(w, h) == w * h * 4
  {
    BufferRows(w, h);
    NarrowRows(h, w * 4);
    SizeExact(w, h);
  }

  lemma NarrowRows(h: uint32, s: uint32)
    ensures h * s < TWO_64
  {
    NarrowerRows(s, h, TWO_32 - 1);
    assert s * h == h * s;
  }

  /** Refinement: a transfer that does not wrap changes every byte as section 5.7.6 says. */
  lemma TransferIsPixelwise(buf: seq<byte>, flat: seq<byte>, w: uint32, h: uint32, t: Transfer, row: nat, col: nat,
                            b: nat)
    requires |buf| == BufferSize(w, h) && NoWrap(t, w) && row < h && col < w && b < 4
    ensures InBounds(t, w, h) && PixelAt(w, row, col, b) < |buf|
    ensures TransferTo(buf, flat, w, h, t)[PixelAt(w, row, col, b)] == PixelByte(buf, flat, w, t, row, col, b)
  {
    hide PixelAt, Rows, RowAt, U32, BufferSize;
    NarrowSize(w, h);
    RowsInBounds(t, w, h);
    PixelInBuffer(w, h, row, col, b);
    ClippedEdge(t.r.x, t.r.width, w);
    ClippedEdge(t.r.y, t.r.height, h);
    var rx2, ry2 := Edge(t.r.x, t.r.width, w), Edge(t.r.y, t.r.height, h);
    if t.r.x < rx2 && t.r.y < ry2 {
      Sizes(w, t.r.x, rx2);
      RowsPixel(buf, flat, w, h, t, rx2, ry2, row, col, b);
    }
  }

  // ----- transfers that together cover the resource -----

  /** The offset a driver gives for a linear framebuffer. */
  predicate Linear(t: Transfer, w: nat) {
    NoWrap(t, w) && t.offset == t.r.y * (w * 4) + t.r.x * 4
  }

  function Replay(buf: seq<byte>, flat: seq<byte>, w: uint32, h: uint32, ts: seq<Transfer>): (r: seq<byte>)
    requires |buf| == BufferSize(w, h) && forall t :: t in ts ==> InBounds(t, w, h)
    ensures |r| == |buf|
  {
    if ts == [] then buf
    else TransferTo(Replay(buf, flat, w, h, ts[..|ts| - 1]), flat, w, h, ts[|ts| - 1])
  }

  predicate Covers(ts: seq<Transfer>, row: nat, col: nat) {
    exists i :: 0 <= i < |ts| && Inside(ts[i].r, row, col)
  }

  lemma LinearPixel(buf: seq<byte>, flat: seq<byte>, w: uint32, h: uint32, t: Transfer, row: nat, col: nat, b: nat)
    requires |buf| == BufferSize(w, h) <= |flat| && Linear(t, w) && row < h && col < w && b < 4
    ensures InBounds(t, w, h) && PixelAt(w, row, col, b) < |buf|
    ensures TransferTo(buf, flat, w, h, t)[PixelAt(w, row, col, b)]
         == if Inside(t.r, row, col) then flat[PixelAt(w, row, col, b)] else buf[PixelAt(w, row, col, b)]
  {
    hide TransferTo, PixelAt, PixelSource, BufferSize;
    TransferIsPixelwise(buf, flat, w, h, t, row, col, b);
    if Inside(t.r, row, col) {
      LinearSource(t, w, row, col, b);
    }
  }

  lemma LinearSource(t: Transfer, w: nat, row: nat, col: nat, b: nat)
    requires Linear(t, w) && Inside(t.r, row, col)
    ensures PixelSource(t, w, row, col, b) == PixelAt(w, row, col, b)
  {
    SumRows(t.r.y, row - t.r.y, w * 4);
    PixelOffset(w, row, col, b);
  }

  lemma SumRows(a: nat, b: nat, s: nat)
    ensures a * s + b * s == (a + b) * s
  {}

  lemma {:induction false} ReplayPixel(buf: seq<byte>, flat: seq<byte>, w: uint32, h: uint32, ts: seq<Transfer>,
                                       row: nat, col: nat, b: nat)
    requires |buf| == BufferSize(w, h) == w * h * 4 <= |flat| && row < h && col < w && b < 4
    requires forall t :: t in ts ==> Linear(t, w) && InBounds(t, w, h)
    ensures PixelAt(w, row, col, b) < |buf|
    ensures Replay(buf, flat, w, h, ts)[PixelAt(w, row, col, b)]
         == if Covers(ts, row, col) then flat[PixelAt(w, row, col, b)] else buf[PixelAt(w, row, col, b)]
    decreases |ts|
  {
    hide TransferTo, PixelAt, Linear, InBounds, BufferSize;
    PixelInBuffer(w, h, row, col, b);
    if ts != [] {
      var n := |ts| - 1;
      var earlier := ts[..n];
      ReplayPixel(buf, flat, w, h, earlier, row, col, b);
      assert ts[n] in ts;
      LinearPixel(Replay(buf, flat, w, h, earlier), flat, w, h, ts[n], row, col, b);
      assert Covers(ts, row, col) <==> Covers(earlier, row, col) || Inside(ts[n].r, row, col) by {
        assert forall i :: 0 <= i < n ==> earlier[i] == ts[i];
      }
    }
  }

  lemma PixelOf(w: nat, h: nat, p: nat) returns (row: nat, col: nat, b: nat)
    requires p < w * h * 4
    ensures row < h && col < w && b < 4 && p == PixelAt(w, row, col, b)
  {
    var q, area := p / 4, w * h;
    assert q < area;
    DivRow(q, w, h);
    row, col, b := q / w, q % w, p % 4;
  }

  lemma DivRow(q: nat, w: nat, h: nat)
    requires q < w * h
    ensures w > 0 && q / w < h && q % w < w && q == q / w * w + q % w
  {
    EmptyRows(h);
    if w > 0 && q / w >= h {
      NarrowerRows(w, h, q / w);
    }
  }

  lemma EmptyRows(h: nat)
    ensures 0 * h == 0
  {}

  lemma LinearInBounds(w: uint32, h: uint32, ts: seq<Transfer>)
    requires forall t :: t in ts ==> Linear(t, w)
    ensures forall t :: t in ts ==> InBounds(t, w, h)
    ensures ts != [] || w == 0 || h == 0 ==> BufferSize(w, h) == w * h * 4
  {
    hide InBounds, BufferSize;
    if ts != [] {
      assert Linear(ts[0], w);
      NarrowSize(w, h);
    } else if w == 0 || h == 0 {
      BufferRows(w, h);
      SizeExact(w, h);
    }
    forall t | t in ts
      ensures InBounds(t, w, h)
    {
      RowsInBounds(t, w, h);
    }
  }

  /** Transfers that together cover the resource leave in the host buffer exactly the linear
      backing, whatever was there before and in whatever order they came. */
  lemma CoveringTransfersCopyAll(buf: seq<byte>, flat: seq<byte>, w: uint32, h: uint32, ts: seq<Transfer>)
    requires |buf| == BufferSize(w, h) <= |flat|
    requires forall t :: t in ts ==> Linear(t, w)
    requires forall row: nat, col: nat :: row < h && col < w ==> Covers(ts, row, col)
    ensures forall t :: t in ts ==> InBounds(t, w, h)
    ensures Replay(buf, flat, w, h, ts) == flat[..|buf|]
  {
    hide InBounds, BufferSize, Linear, Replay, Covers;
    LinearInBounds(w, h, ts);
    var r := Replay(buf, flat, w, h, ts);
    forall p: nat | p < |buf|
      ensures r[p] == flat[p]
    {
      CoveredByte(buf, flat, w, h, ts, p);
    }
  }

  lemma CoveredByte(buf: seq<byte>, flat: seq<byte>, w: uint32, h: uint32, ts: seq<Transfer>, p: nat)
    requires |buf| == BufferSize(w, h) <= |flat| && p < |buf|
    requires forall t :: t in ts ==> Linear(t, w) && InBounds(t, w, h)
    requires forall row: nat, col: nat :: row < h && col < w ==> Covers(ts, row, col)
    requires ts != [] || w == 0 || h == 0 ==> BufferSize(w, h) == w * h * 4
    ensures Replay(buf, flat, w, h, ts)[p] == flat[p]
  {
    hide InBounds, BufferSize, Linear, Replay;
    assert w == 0 || h == 0 || Covers(ts, 0, 0);
    hide Covers, PixelAt;
    var row, col, b := PixelOf(w, h, p);
    ReplayPixel(buf, flat, w, h, ts, row, col, b);
  }
}
