/** The virtio-gpu command set of src/virtio/gpu.cpp on values: the wire format, what each
    command does to the resource table, and the response it gets. */
module GpuCommands {
  import opened Bytes
  import opened GpuBacking
  import opened GpuTransfer

  const GET_DISPLAY_INFO: uint32 := 0x0100
  const RESOURCE_CREATE_2D: uint32 := 0x0101
  const RESOURCE_UNREF: uint32 := 0x0102
  const SET_SCANOUT: uint32 := 0x0103
  const RESOURCE_FLUSH: uint32 := 0x0104
  const TRANSFER_TO_HOST_2D: uint32 := 0x0105
  const RESOURCE_ATTACH_BACKING: uint32 := 0x0106
  const RESOURCE_DETACH_BACKING: uint32 := 0x0107

  const OK_NODATA: uint32 := 0x1100
  const OK_DISPLAY_INFO: uint32 := 0x1101
  const ERR_UNSPEC: uint32 := 0x1200
  const ERR_INVALID_RESOURCE_ID: uint32 := 0x1203

  const HDR_SIZE := 24
  const DISPLAY_INFO_SIZE := 408

  /** `Malformed` stands for a command cut short and for an unknown type. */
  datatype Command =
    | DisplayInfo
    | Create(id: uint32, format: uint32, width: uint32, height: uint32)
    | Unref(id: uint32)
    | SetScanout(r: Rect, scanout: uint32, id: uint32)
    | Flush(r: Rect, id: uint32)
    | TransferToHost2d(id: uint32, t: Transfer)
    | Attach(id: uint32, entries: seq<MemEntry>)
    | Detach(id: uint32)
    | Malformed

  // ----- wire format: little-endian 32-bit words -----

  function Word(req: seq<byte>, i: nat): uint32
    requires i * 4 + 4 <= |req|
  {
    ReadLe32(req, i * 4)
  }

  function Word64(req: seq<byte>, i: nat): uint64
    requires i * 4 + 8 <= |req|
  {
    ReadLe64(req, i * 4)
  }

  function RectAt(req: seq<byte>, i: nat): Rect
    requires i * 4 + 16 <= |req|
  {
    Rect(Word(req, i), Word(req, i + 1), Word(req, i + 2), Word(req, i + 3))
  }

  /** The memory entries from the `i`-th up to the `n`-th that the request holds in full. */
  function Entries(req: seq<byte>, i: nat, n: nat): seq<MemEntry>
    decreases n - i
  {
    if i >= n || 48 + i * 16 > |req| then []
    else [MemEntry(Word64(req, 8 + i * 4), Word(req, 10 + i * 4))] + Entries(req, i + 1, n)
  }

  function Decode(req: seq<byte>): Command
    requires |req| >= HDR_SIZE
  {
    var kind := Word(req, 0);
    if kind == GET_DISPLAY_INFO then DisplayInfo
    else if kind == RESOURCE_CREATE_2D then
      if |req| < 40 then Malformed else Create(Word(req, 6), Word(req, 7), Word(req, 8), Word(req, 9))
    else if kind == RESOURCE_UNREF then
      if |req| < 32 then Malformed else Unref(Word(req, 6))
    else if kind == SET_SCANOUT then
      if |req| < 48 then Malformed else SetScanout(RectAt(req, 6), Word(req, 10), Word(req, 11))
    else if kind == RESOURCE_FLUSH then
      if |req| < 48 then Malformed else Flush(RectAt(req, 6), Word(req, 10))
    else if kind == TRANSFER_TO_HOST_2D then
      if |req| < 56 then Malformed
      else TransferToHost2d(Word(req, 12), Transfer(RectAt(req, 6), Word64(req, 10)))
    else if kind == RESOURCE_ATTACH_BACKING then
      if |req| < 32 then Malformed else Attach(Word(req, 6), Entries(req, 0, Word(req, 7)))
    else if kind == RESOURCE_DETACH_BACKING then
      if |req| < 32 then Malformed else Detach(Word(req, 6))
    else Malformed
  }

  // ----- the driver's encoding -----

  function Words(ws: seq<uint32>): (r: seq<byte>)
    ensures |r| == 4 * |ws|
  {
    if ws == [] then [] else Words(ws[..|ws| - 1]) + Le32(ws[|ws| - 1])
  }

  function Halves(x: uint64): (ws: seq<uint32>)
    ensures |ws| == 2
  {
    [x % TWO_32, x / TWO_32]
  }

  function Header(kind: uint32, flags: uint32, fence: uint64): (ws: seq<uint32>)
    ensures |ws| == 6
  {
    [kind, flags] + Halves(fence) + [0, 0]
  }

  function EntryWords(es: seq<MemEntry>): (ws: seq<uint32>)
    ensures |ws| == 4 * |es|
  {
    if es == [] then []
    else EntryWords(es[..|es| - 1]) + Halves(es[|es| - 1].gpa) + [es[|es| - 1].len, 0]
  }

  function RectWords(r: Rect): (ws: seq<uint32>)
    ensures |ws| == 4
  {
    [r.x, r.y, r.width, r.height]
  }

  function Kind(c: Command): uint32
    requires !c.Malformed?
  {
    match c
    case DisplayInfo => GET_DISPLAY_INFO
    case Create(_, _, _, _) => RESOURCE_CREATE_2D
    case Unref(_) => RESOURCE_UNREF
    case SetScanout(_, _, _) => SET_SCANOUT
    case Flush(_, _) => RESOURCE_FLUSH
    case TransferToHost2d(_, _) => TRANSFER_TO_HOST_2D
    case Attach(_, _) => RESOURCE_ATTACH_BACKING
    case Detach(_) => RESOURCE_DETACH_BACKING
  }

  function Body(c: Command): seq<uint32>
    requires c.Attach? ==> |c.entries| < TWO_32
  {
    match c
    case DisplayInfo => []
    case Create(id, format, w, h) => [id, format, w, h]
    case Unref(id) => [id, 0]
    case SetScanout(r, scanout, id) => RectWords(r) + [scanout, id]
    case Flush(r, id) => RectWords(r) + [id, 0]
    case TransferToHost2d(id, t) => RectWords(t.r) + Halves(t.offset) + [id, 0]
    case Attach(id, entries) => [id, |entries|] + EntryWords(entries)
    case Detach(id) => [id, 0]
    case Malformed => []
  }

  /** A command as the driver lays it out (section 5.7.6 of Virtio 1.2). */
  function Encode(c: Command, flags: uint32, fence: uint64): seq<byte>
    requires !c.Malformed? && (c.Attach? ==> |c.entries| < TWO_32)
  {
    Words(Header(Kind(c), flags, fence) + Body(c))
  }

  lemma Le32Inverse(x: uint32)
    ensures ReadLe32(Le32(x), 0) == x
  {}

  lemma {:induction false} WordOfWords(ws: seq<uint32>, i: nat)
    requires i < |ws|
    ensures Word(Words(ws), i) == ws[i]
    decreases |ws|
  {
    var n := |ws| - 1;
    var front, last := Words(ws[..n]), Le32(ws[n]);
    if i == n {
      assert forall k :: i * 4 <= k < i * 4 + 4 ==> (front + last)[k] == last[k - i * 4];
      Le32Inverse(ws[n]);
    } else {
      WordOfWords(ws[..n], i);
      assert forall k :: i * 4 <= k < i * 4 + 4 ==> (front + last)[k] == front[k];
    }
  }

  lemma Word64OfWords(ws: seq<uint32>, i: nat, x: uint64)
    requires i + 2 <= |ws| && ws[i..i + 2] == Halves(x)
    ensures Word64(Words(ws), i) == x
  {
    WordOfWords(ws, i);
    WordOfWords(ws, i + 1);
    assert ws[i] == ws[i..i + 2][0] && ws[i + 1] == ws[i..i + 2][1];
    assert Words(ws)[(i + 1) * 4..] == Words(ws)[i * 4 + 4..];
  }

  lemma {:induction false} EntryWordsAt(es: seq<MemEntry>, i: nat)
    requires i < |es|
    ensures EntryWords(es)[i * 4..i * 4 + 2] == Halves(es[i].gpa) && EntryWords(es)[i * 4 + 2] == es[i].len
    decreases |es|
  {
    var n := |es| - 1;
    if i < n {
      EntryWordsAt(es[..n], i);
      assert EntryWords(es)[i * 4..i * 4 + 2] == EntryWords(es[..n])[i * 4..i * 4 + 2];
    }
  }

  lemma WordsAfter(ws: seq<uint32>, es: seq<uint32>, i: nat)
    requires i + 2 <= |es|
    ensures (ws + es)[|ws| + i..|ws| + i + 2] == es[i..i + 2]
  {}

  lemma {:induction false} EntriesOfWords(ws: seq<uint32>, es: seq<MemEntry>, i: nat)
    requires |ws| == 8 && i <= |es|
    ensures Entries(Words(ws + EntryWords(es)), i, |es|) == es[i..]
    decreases |es| - i
  {
    hide Words, EntryWords, Halves, Word, Word64;
    var all := ws + EntryWords(es);
    if i < |es| {
      EntryWordsAt(es, i);
      WordsAfter(ws, EntryWords(es), i * 4);
      Word64OfWords(all, 8 + i * 4, es[i].gpa);
      WordOfWords(all, 10 + i * 4);
      EntriesOfWords(ws, es, i + 1);
    }
  }

  /** Every command a driver can send is read back as it was sent. */
  lemma DecodeInvertsEncode(c: Command, flags: uint32, fence: uint64)
    requires !c.Malformed? && (c.Attach? ==> |c.entries| < TWO_32)
    ensures |Encode(c, flags, fence)| >= HDR_SIZE && Decode(Encode(c, flags, fence)) == c
  {
    hide Words, Word, Word64, Entries, EntryWords, Halves;
    var ws := Header(Kind(c), flags, fence) + Body(c);
    forall i: nat | i < |ws| && i < 14
      ensures Word(Words(ws), i) == ws[i]
    {
      WordOfWords(ws, i);
    }
    if c.TransferToHost2d? {
      assert ws[10..12] == Halves(c.t.offset);
      Word64OfWords(ws, 10, c.t.offset);
    } else if c.Attach? {
      var front := Header(Kind(c), flags, fence) + [c.id, |c.entries|];
      assert ws == front + EntryWords(c.entries);
      EntriesOfWords(front, c.entries, 0);
    }
  }

  /** The layouts of section 5.7.6 of Virtio 1.2, word by word after the header: which command
      each type number is, and where its fields lie. */
  lemma CommandsOnTheWire(flags: uint32, fence: uint64, id: uint32, a: uint32, b: uint32, c: uint32, r: Rect,
                          offset: uint64)
    ensures var f, o := Halves(fence), Halves(offset);
            var rest := [flags] + f + [0, 0];
            var rect := [r.x, r.y, r.width, r.height];
            && Decode(Words([0x100] + rest)) == DisplayInfo
            && Decode(Words([0x101] + rest + [id, a, b, c])) == Create(id, a, b, c)
            && Decode(Words([0x102] + rest + [id, 0])) == Unref(id)
            && Decode(Words([0x103] + rest + rect + [a, id])) == SetScanout(r, a, id)
            && Decode(Words([0x104] + rest + rect + [id, 0])) == Flush(r, id)
            && Decode(Words([0x105] + rest + rect + o + [id, 0])) == TransferToHost2d(id, Transfer(r, offset))
            && Decode(Words([0x106] + rest + [id, 1] + o + [a, 0])) == Attach(id, [MemEntry(offset, a)])
            && Decode(Words([0x107] + rest + [id, 0])) == Detach(id)
  {
    hide Words, Decode, Halves;
    DecodesTo(DisplayInfo, flags, fence);
    DecodesTo(Create(id, a, b, c), flags, fence);
    DecodesTo(Unref(id), flags, fence);
    DecodesTo(SetScanout(r, a, id), flags, fence);
    DecodesTo(Flush(r, id), flags, fence);
    DecodesTo(TransferToHost2d(id, Transfer(r, offset)), flags, fence);
    DecodesTo(Attach(id, [MemEntry(offset, a)]), flags, fence);
    DecodesTo(Detach(id), flags, fence);
    OneEntryWords(MemEntry(offset, a));
    var rest := [flags] + Halves(fence) + [0, 0];
    assert forall kind: uint32 :: [kind] + rest == [kind, flags] + Halves(fence) + [0, 0];
    assert [0x100] + rest + [] == [0x100] + rest;
    assert [0x106] + rest + [id, 1] + Halves(offset) + [a, 0] == [0x106] + rest + ([id, 1] + (Halves(offset) + [a, 0]));
    assert [0x105] + rest + [r.x, r.y, r.width, r.height] + Halves(offset) + [id, 0]
           == [0x105] + rest + ([r.x, r.y, r.width, r.height] + Halves(offset) + [id, 0]);
    assert [0x104] + rest + [r.x, r.y, r.width, r.height] + [id, 0]
           == [0x104] + rest + ([r.x, r.y, r.width, r.height] + [id, 0]);
    assert [0x103] + rest + [r.x, r.y, r.width, r.height] + [a, id]
           == [0x103] + rest + ([r.x, r.y, r.width, r.height] + [a, id]);
  }

  lemma OneEntryWords(e: MemEntry)
    ensures EntryWords([e]) == Halves(e.gpa) + [e.len, 0]
  {
    hide Halves;
    assert [e][..0] == [] && EntryWords([]) == [];
  }

  lemma DecodesTo(c: Command, flags: uint32, fence: uint64)
    requires !c.Malformed? && (c.Attach? ==> |c.entries| < TWO_32)
    ensures |Words([Kind(c), flags] + Halves(fence) + [0, 0] + Body(c))| >= HDR_SIZE
    ensures Decode(Words([Kind(c), flags] + Halves(fence) + [0, 0] + Body(c))) == c
  {
    DecodeInvertsEncode(c, flags, fence);
  }

  // ----- the device's state and what commands do to it -----

  datatype Res = Res(format: uint32, width: uint32, height: uint32, backing: seq<MemEntry>, pixels: seq<byte>)

  datatype Frame = Frame(pixels: seq<byte>, width: uint32, height: uint32, stride: uint32)

  datatype State = State(resources: map<uint32, Res>, scanout: uint32, pending: seq<Frame>)

  /** What is fixed when the device is made. */
  datatype Env = Env(base: uint64, width: uint32, height: uint32, hasCallback: bool)

  datatype Reply = Ok | Display | Err(kind: uint32)

  datatype Outcome = Outcome(dev: State, reply: Reply)

  /** A new resource has a byte for each of its pixels' bytes exactly when their number fits
      in `size_t`. */
  lemma CreateSizes(format: uint32, w: uint32, h: uint32)
    ensures |NewRes(format, w, h).pixels| == w * h * 4 <==> w * h * 4 < TWO_64
  {
    SizeExact(w, h);
  }

  /** The smallest square one for which it does not fit has an empty buffer. */
  lemma HugeResourceIsEmpty(format: uint32)
    ensures NewRes(format, 0x8000_0000, 0x8000_0000).pixels == []
  {
    HugeResourceOutOfBounds();
  }

  predicate ResOk(r: Res, base: uint64, size: nat) {
    |r.pixels| == BufferSize(r.width, r.height) && WholeEntries(base, size, r.backing)
  }

  /** Every resource has one pixel buffer of the size it was created with: width * height * 4
      bytes in `size_t`. */
  ghost predicate Sane(s: State, base: uint64, size: nat) {
    forall id :: id in s.resources ==> ResOk(s.resources[id], base, size)
  }

  /** What the code takes on trust of a command: that a transfer's rows lie in the buffer, and
      that backing entries are whole buffers. */
  predicate CommandOk(s: State, c: Command, base: uint64, size: nat) {
    match c
    case TransferToHost2d(id, t) =>
      id in s.resources ==> InBounds(t, s.resources[id].width, s.resources[id].height)
    case Attach(_, entries) => WholeEntries(base, size, entries)
    case _ => true
  }

  /** The frame a flush of `id` shows: the pixels of the current scanout resource. */
  function Shown(env: Env, s: State, id: uint32): seq<Frame> {
    if env.hasCallback && id == s.scanout && id in s.resources && s.resources[id].pixels != [] then
      var r := s.resources[id];
      [Frame(r.pixels, r.width, r.height, U32(r.width * 4))]
    else []
  }

  function NewRes(format: uint32, w: uint32, h: uint32): (r: Res)
    ensures forall base, size :: ResOk(r, base, size)
  {
    Res(format, w, h, [], Zeros(BufferSize(w, h)))
  }

  function Received(ram: seq<byte>, base: uint64, r: Res, t: Transfer): (r': Res)
    requires ResOk(r, base, |ram|) && InBounds(t, r.width, r.height)
    ensures ResOk(r', base, |ram|)
  {
    r.(pixels := TransferTo(r.pixels, Flat(ram, base, r.backing), r.width, r.height, t))
  }

  function Attached(base: uint64, size: nat, r: Res, entries: seq<MemEntry>): (r': Res)
    requires ResOk(r, base, size) && WholeEntries(base, size, entries)
    ensures ResOk(r', base, size)
  {
    WholeParts(base, size, r.backing, entries);
    r.(backing := r.backing + entries)
  }

  function Detached(r: Res): (r': Res)
    ensures forall base, size | ResOk(r, base, size) :: ResOk(r', base, size)
  {
    r.(backing := [])
  }

  ghost function Exec(env: Env, ram: seq<byte>, s: State, c: Command): (o: Outcome)
    requires Sane(s, env.base, |ram|) && CommandOk(s, c, env.base, |ram|)
    ensures Sane(o.dev, env.base, |ram|)
  {
    match c
    case DisplayInfo => Outcome(s, Display)
    case Create(id, format, w, h) => Outcome(s.(resources := s.resources[id := NewRes(format, w, h)]), Ok)
    case Unref(id) =>
      Outcome(s.(resources := s.resources - {id}, scanout := if s.scanout == id then 0 else s.scanout), Ok)
    case SetScanout(_, scanout, id) => Outcome(if scanout == 0 then s.(scanout := id) else s, Ok)
    case Flush(_, id) =>
      if id !in s.resources then Outcome(s, Err(ERR_INVALID_RESOURCE_ID))
      else Outcome(s.(pending := s.pending + Shown(env, s, id)), Ok)
    case TransferToHost2d(id, t) =>
      if id !in s.resources then Outcome(s, Err(ERR_INVALID_RESOURCE_ID))
      else Outcome(s.(resources := s.resources[id := Received(ram, env.base, s.resources[id], t)]), Ok)
    case Attach(id, entries) =>
      if id !in s.resources then Outcome(s, Err(ERR_INVALID_RESOURCE_ID))
      else Outcome(s.(resources := s.resources[id := Attached(env.base, |ram|, s.resources[id], entries)]), Ok)
    case Detach(id) =>
      if id !in s.resources then Outcome(s, Ok)
      else Outcome(s.(resources := s.resources[id := Detached(s.resources[id])]), Ok)
    case Malformed => Outcome(s, Err(ERR_UNSPEC))
  }

  const FIRST_PIXEL := Transfer(Rect(0, 0, 1, 1), 0)

  /** The code accepts all three: create a resource whose size wraps to nothing, such as 2^31 by
      2^31; attach a buffer of at least a pixel; transfer the first pixel. The transfer copies
      four bytes to position 0 of a host buffer that has none. */
  lemma WrappedResourceOverrun(env: Env, ram: seq<byte>, s: State, id: uint32, format: uint32, w: uint32, h: uint32,
                               e: MemEntry)
    requires Sane(s, env.base, |ram|) && WholeEntries(env.base, |ram|, [e]) && e.len >= 4
    requires w > 0 && h > 0 && BufferSize(w, h) == 0
    ensures var created := Exec(env, ram, s, Create(id, format, w, h));
            var attached := Exec(env, ram, created.dev, Attach(id, [e]));
            && created.reply == attached.reply == Ok
            && attached.dev.resources == s.resources[id := Res(format, w, h, [e], [])]
            && !CommandOk(attached.dev, TransferToHost2d(id, FIRST_PIXEL), env.base, |ram|)
    ensures forall stride: uint32 ::
              && RowAt(stride, 0, 0) == 0
              && |ReadResult(Flat(ram, env.base, [e]), SourceAt(FIRST_PIXEL, stride, 0), U32(1 * 4))| == 4
  {
    hide BufferSize, InBounds, Flat, RowAt, ReadResult, SourceAt, U32, Zeros, Shown;
    FirstPixelOutside(w, h);
    var r := NewRes(format, w, h);
    assert r.pixels == [] && r.backing + [e] == [e];
    forall stride: uint32
      ensures RowAt(stride, 0, 0) == 0
      ensures |ReadResult(Flat(ram, env.base, [e]), SourceAt(FIRST_PIXEL, stride, 0), U32(1 * 4))| == 4
    {
      FirstPixelRead(ram, env.base, e, stride);
    }
  }

  lemma FirstPixelRead(ram: seq<byte>, base: uint64, e: MemEntry, stride: uint32)
    requires WholeEntries(base, |ram|, [e]) && e.len >= 4
    ensures RowAt(stride, 0, 0) == 0
    ensures |ReadResult(Flat(ram, base, [e]), SourceAt(FIRST_PIXEL, stride, 0), U32(1 * 4))| == 4
  {
    hide Flat;
    FlatOfOne(ram, base, e);
    assert SourceAt(FIRST_PIXEL, stride, 0) == 0 && U32(4) == 4;
  }

  lemma FirstPixelOutside(w: uint32, h: uint32)
    requires w > 0 && h > 0 && BufferSize(w, h) == 0
    ensures !InBounds(FIRST_PIXEL, w, h)
  {
    hide BufferSize;
    assert Edge(0, 1, w) == 1 && Edge(0, 1, h) == 1;
    assert RowAt(U32(w * 4), 0, 0) + 4 > 0;
  }

  lemma FlatOfOne(ram: seq<byte>, base: uint64, e: MemEntry)
    requires WholeEntries(base, |ram|, [e])
    ensures |Flat(ram, base, [e])| == e.len
  {
    assert [e][..0] == [];
  }

  // ----- responses -----

  function Fenced(req: seq<byte>): bool
    requires |req| >= HDR_SIZE
  {
    Word(req, 1) % 2 == 1
  }

  /** The first mode is the display; the other fifteen are disabled. */
  function Modes(env: Env): (ws: seq<uint32>)
    ensures |ws| == 96
  {
    [0, 0, env.width, env.height, 1, 0] + seq(90, _ => 0)
  }

  function DisplayInfoWords(env: Env, fenced: bool, fence: uint64): (ws: seq<uint32>)
    ensures |ws| == 102
  {
    Header(OK_DISPLAY_INFO, if fenced then 1 else 0, if fenced then fence else 0) + Modes(env)
  }

  function Response(env: Env, reply: Reply, fenced: bool, fence: uint64, cap: nat): (r: seq<byte>)
    requires cap >= HDR_SIZE
    ensures HDR_SIZE <= |r| <= cap
  {
    match reply
    case Ok => Words(Header(OK_NODATA, if fenced then 1 else 0, if fenced then fence else 0))
    case Err(kind) => Words(Header(kind, 0, 0))
    case Display =>
      var all := Words(DisplayInfoWords(env, fenced, fence));
      if cap < DISPLAY_INFO_SIZE then all[..cap] else all
  }

  datatype Handled = Handled(dev: State, resp: seq<byte>)

  predicate RequestOk(s: State, req: seq<byte>, base: uint64, size: nat) {
    |req| >= HDR_SIZE ==> CommandOk(s, Decode(req), base, size)
  }

  /** `handle_command` as a whole: a request too short for a header gets no response. */
  ghost function Handle(env: Env, ram: seq<byte>, s: State, req: seq<byte>, cap: nat): (h: Handled)
    requires Sane(s, env.base, |ram|) && RequestOk(s, req, env.base, |ram|) && cap >= HDR_SIZE
    ensures Sane(h.dev, env.base, |ram|) && |h.resp| <= cap
  {
    if |req| < HDR_SIZE then Handled(s, [])
    else
      var o := Exec(env, ram, s, Decode(req));
      Handled(o.dev, Response(env, o.reply, Fenced(req), Word64(req, 2), cap))
  }

  /** A driver sees its command's fate: the response type tells success from each failure, and
      exactly a fenced success carries the fence back. */
  lemma ResponseMeans(env: Env, ram: seq<byte>, s: State, c: Command, flags: uint32, fence: uint64, cap: nat)
    requires Sane(s, env.base, |ram|) && CommandOk(s, c, env.base, |ram|) && cap >= HDR_SIZE
    requires !c.Malformed? && (c.Attach? ==> |c.entries| < TWO_32)
    ensures RequestOk(s, Encode(c, flags, fence), env.base, |ram|)
    ensures var resp := Handle(env, ram, s, Encode(c, flags, fence), cap).resp;
            var missing := (c.Flush? || c.TransferToHost2d? || c.Attach?) && c.id !in s.resources;
            && |resp| == (if c.DisplayInfo? then Min(cap, 408) else 24)
            && Word(resp, 0) == (if missing then 0x1203 else if c.DisplayInfo? then 0x1101 else 0x1100)
            && (Fenced(resp) <==> flags % 2 == 1 && !missing)
            && (Fenced(resp) ==> Word64(resp, 2) == fence)
  {
    hide Words, Word64, Halves, Flat, TransferTo, WholeEntries, Body;
    DecodeInvertsEncode(c, flags, fence);
    var ws := Header(Kind(c), flags, fence) + Body(c);
    WordOfWords(ws, 1);
    HeaderFence(Kind(c), flags, fence, Body(c));
    Word64OfWords(ws, 2, fence);
    var req := Encode(c, flags, fence);
    var o := Exec(env, ram, s, c);
    ResponseWords(env, o.reply, flags % 2 == 1, fence, cap);
  }

  lemma HeaderFence(kind: uint32, flags: uint32, fence: uint64, body: seq<uint32>)
    ensures (Header(kind, flags, fence) + body)[2..4] == Halves(fence)
  {}

  lemma ResponseWords(env: Env, reply: Reply, fenced: bool, fence: uint64, cap: nat)
    requires cap >= HDR_SIZE
    ensures var resp := Response(env, reply, fenced, fence, cap);
            && Word(resp, 0) == (match reply case Ok => OK_NODATA case Display => OK_DISPLAY_INFO
                                 case Err(kind) => kind)
            && (Fenced(resp) <==> fenced && !reply.Err?)
            && (Fenced(resp) ==> Word64(resp, 2) == fence)
  {
    hide Words, Halves, Modes;
    var flags, id := if fenced && !reply.Err? then 1 else 0, if fenced && !reply.Err? then fence else 0;
    var kind := match reply case Ok => OK_NODATA case Display => OK_DISPLAY_INFO case Err(kind) => kind;
    var tail := if reply.Display? then Modes(env) else [];
    var ws: seq<uint32> := Header(kind, flags, id) + tail;
    var all := Words(ws);
    WordOfWords(ws, 0);
    WordOfWords(ws, 1);
    HeaderFence(kind, flags, id, tail);
    Word64OfWords(ws, 2, id);
    var resp := Response(env, reply, fenced, fence, cap);
    assert ws == if reply.Display? then DisplayInfoWords(env, fenced, fence) else Header(kind, flags, id);
    assert resp[..HDR_SIZE] == all[..HDR_SIZE];
    assert forall k :: 0 <= k < HDR_SIZE ==> resp[k] == resp[..HDR_SIZE][k] && all[k] == all[..HDR_SIZE][k];
  }

  /** The answer to GET_DISPLAY_INFO, word by word: the first of sixteen modes is enabled at the
      display's width and height, the others are zero. */
  lemma DisplayInfoMeans(env: Env, ram: seq<byte>, s: State, flags: uint32, fence: uint64, cap: nat, i: nat)
    requires Sane(s, env.base, |ram|) && cap >= 408 && 6 <= i < 102
    ensures RequestOk(s, Encode(DisplayInfo, flags, fence), env.base, |ram|)
    ensures var resp := Handle(env, ram, s, Encode(DisplayInfo, flags, fence), cap).resp;
            && |resp| == 408 && Word(resp, 0) == 0x1101
            && Word(resp, i) == if i == 8 then env.width else if i == 9 then env.height else if i == 10 then 1 else 0
  {
    hide Words, Word, Word64, Halves, Body;
    DecodeInvertsEncode(DisplayInfo, flags, fence);
    var req := Encode(DisplayInfo, flags, fence);
    var ws := DisplayInfoWords(env, Fenced(req), Word64(req, 2));
    WordOfWords(ws, 0);
    WordOfWords(ws, i);
  }
}
