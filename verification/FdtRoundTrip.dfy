/** The parser of `FdtFormat` undoes the encoding, block by block. */
module FdtRoundTrip {
  import opened Bytes
  import opened FdtFormat
  import opened StringTable

  // ----- one token at a time -----

  lemma WordAt(b: seq<byte>, pos: nat, x: uint32, rest: seq<byte>)
    requires pos <= |b| && b[pos..] == Be32(x) + rest
    ensures pos + 4 <= |b| && ReadBe32(b, pos) == x && b[pos + 4..] == rest
  {
    assert b[pos..pos + 4] == b[pos..][..4] == Be32(x);
    ReadBe32Inverse(b, pos, x);
    assert b[pos + 4..] == b[pos..][4..];
  }

  lemma DoubleWordAt(b: seq<byte>, pos: nat, x: uint64, rest: seq<byte>)
    requires pos <= |b| && b[pos..] == Be64(x) + rest
    ensures pos + 8 <= |b| && ReadBe64(b, pos) == x && b[pos + 8..] == rest
  {
    assert b[pos..pos + 8] == b[pos..][..8] == Be64(x);
    ReadBe64Inverse(b, pos, x);
    assert b[pos + 8..] == b[pos..][8..];
  }

  lemma AlignShift(pos: nat, n: nat)
    requires pos % 4 == 0
    ensures Align4(pos + n) == pos + Align4(n)
  {}

  /** `n` bytes of content at an aligned position, then padding, then `rest`. */
  lemma PaddedAt(b: seq<byte>, pos: nat, content: seq<byte>, rest: seq<byte>)
    requires pos % 4 == 0 && pos <= |b| && b[pos..] == content + Padding(|content|) + rest
    ensures ZeroPadded(b, pos + |content|)
    ensures b[pos..pos + |content|] == content
    ensures Align4(pos + |content|) == pos + |content + Padding(|content|)|
    ensures b[Align4(pos + |content|)..] == rest
  {
    var n := |content|;
    AlignShift(pos, n);
    forall i | pos + n <= i < Align4(pos + n)
      ensures b[i] == 0
    {
      assert b[i] == b[pos..][i - pos] == Padding(n)[i - pos - n];
    }
    assert b[pos..pos + n] == b[pos..][..n];
    assert b[Align4(pos + n)..] == b[pos..][|content + Padding(n)|..];
  }

  // ----- the structure block -----

  /** Every property name's offset denotes it in the strings block. */
  predicate NamesDenoted(items: Items, index: map<cstring, uint32>, strings: seq<byte>) {
    match items
    case Nil => true
    case Property(name, _, rest) =>
      CString(strings, Offset(index, name)) == Some(name) && NamesDenoted(rest, index, strings)
    case Node(_, body, rest) => NamesDenoted(body, index, strings) && NamesDenoted(rest, index, strings)
  }

  lemma {:induction false} TableDenotesNames(items: Items, t: Table)
    requires Denotes(t) && PropertyNames(items) <= t.index.Keys
    ensures NamesDenoted(items, t.index, t.bytes)
  {
    match items
    case Nil =>
    case Property(name, _, rest) =>
      assert name in PropertyNames(items);
      TableDenotesNames(rest, t);
    case Node(_, body, rest) =>
      TableDenotesNames(body, t);
      TableDenotesNames(rest, t);
  }

  predicate AtTerminator(tail: seq<byte>) {
    |tail| >= 4 && (ReadBe32(tail, 0) == END_NODE || ReadBe32(tail, 0) == END)
  }

  /** `items` and the unmatched terminator after them are parsed off an aligned position. */
  ghost predicate ParsesTo(st: seq<byte>, pos: nat, strings: seq<byte>, items: Items, end: nat, tail: seq<byte>) {
    end % 4 == 0 && end <= |st| && st[end..] == tail && ParseItems(st, pos, strings) == Some((items, end))
  }

  lemma {:induction false} ParseItemsInverse(items: Items, index: map<cstring, uint32>, strings: seq<byte>,
                                             st: seq<byte>, pos: nat, tail: seq<byte>)
    requires pos % 4 == 0 && pos <= |st| && st[pos..] == EncodeItems(items, index) + tail
    requires AtTerminator(tail) && NamesDenoted(items, index, strings)
    ensures ParsesTo(st, pos, strings, items, pos + |EncodeItems(items, index)|, tail)
    decreases items, 1
  {
    match items
    case Nil => ParsesTerminator(st, pos, strings, tail);
    case Property(_, _, _) => PropertyInverse(items, index, strings, st, pos, tail);
    case Node(_, _, _) => NodeInverse(items, index, strings, st, pos, tail);
  }

  lemma ParsesTerminator(st: seq<byte>, pos: nat, strings: seq<byte>, tail: seq<byte>)
    requires pos % 4 == 0 && pos <= |st| && st[pos..] == tail && AtTerminator(tail)
    ensures ParsesTo(st, pos, strings, Nil, pos, tail)
  {
    assert tail[0] == st[pos] && tail[1] == st[pos + 1] && tail[2] == st[pos + 2] && tail[3] == st[pos + 3];
  }

  lemma {:induction false} PropertyInverse(items: Items, index: map<cstring, uint32>, strings: seq<byte>,
                                           st: seq<byte>, pos: nat, tail: seq<byte>)
    requires items.Property?
    requires pos % 4 == 0 && pos <= |st| && st[pos..] == EncodeItems(items, index) + tail
    requires AtTerminator(tail) && NamesDenoted(items, index, strings)
    ensures ParsesTo(st, pos, strings, items, pos + |EncodeItems(items, index)|, tail)
    decreases items, 0
  {
    hide Be32, ReadBe32, ParseItems, CString;
    var next := pos + |EncodeProperty(Offset(index, items.name), items.data)|;
    PropertyAt(items, index, st, pos, tail);
    ParseItemsInverse(items.rest, index, strings, st, next, tail);
    PropertyStep(items, index, strings, st, pos, tail, next + |EncodeItems(items.rest, index)|);
  }

  lemma PropertyStep(items: Items, index: map<cstring, uint32>, strings: seq<byte>,
                     st: seq<byte>, pos: nat, tail: seq<byte>, end: nat)
    requires items.Property?
    requires pos % 4 == 0 && pos <= |st| && st[pos..] == EncodeItems(items, index) + tail
    requires CString(strings, Offset(index, items.name)) == Some(items.name)
    requires ParseItems(st, pos + |EncodeProperty(Offset(index, items.name), items.data)|, strings)
             == Some((items.rest, end))
    ensures ParseItems(st, pos, strings) == Some((items, end))
  {
    hide Be32, ReadBe32;
    PropertyAt(items, index, st, pos, tail);
    ParsesProperty(st, pos, strings, items.name, items.data, items.rest, end);
  }

  lemma {:induction false} NodeInverse(items: Items, index: map<cstring, uint32>, strings: seq<byte>,
                                       st: seq<byte>, pos: nat, tail: seq<byte>)
    requires items.Node?
    requires pos % 4 == 0 && pos <= |st| && st[pos..] == EncodeItems(items, index) + tail
    requires AtTerminator(tail) && NamesDenoted(items, index, strings)
    ensures ParsesTo(st, pos, strings, items, pos + |EncodeItems(items, index)|, tail)
    decreases items, 0
  {
    hide Be32, ReadBe32, ParseItems, EncodeItems, EncodeBegin, CString, Align4, ZeroPadded;
    var body, rest := items.body, items.rest;
    var next := pos + |EncodeBegin(items.name)|;
    var at := next + |EncodeItems(body, index)|;
    var bodyTail := Be32(END_NODE) + (EncodeItems(rest, index) + tail);
    NodeAt(items, index, st, pos, tail);
    BeginAt(items.name, st, pos, EncodeItems(body, index) + bodyTail);
    WordAt(bodyTail, 0, END_NODE, EncodeItems(rest, index) + tail);
    ParseItemsInverse(body, index, strings, st, next, bodyTail);
    WordAt(st, at, END_NODE, EncodeItems(rest, index) + tail);
    ParseItemsInverse(rest, index, strings, st, at + 4, tail);
    NodeStep(items, st, pos, strings, EncodeItems(body, index) + bodyTail, at, at + 4 + |EncodeItems(rest, index)|);
  }

  lemma NodeStep(items: Items, st: seq<byte>, pos: nat, strings: seq<byte>, after: seq<byte>, at: nat, end: nat)
    requires items.Node?
    requires pos % 4 == 0 && pos <= |st| && st[pos..] == EncodeBegin(items.name) + after
    requires ParseItems(st, pos + |EncodeBegin(items.name)|, strings) == Some((items.body, at))
    requires at + 4 <= |st| && ReadBe32(st, at) == END_NODE
    requires ParseItems(st, at + 4, strings) == Some((items.rest, end))
    ensures ParseItems(st, pos, strings) == Some((items, end))
  {
    hide Be32, ReadBe32;
    BeginAt(items.name, st, pos, after);
    ParsesNode(st, pos, strings, items.name, items.body, at, items.rest, end);
  }

  lemma NodeAt(items: Items, index: map<cstring, uint32>, st: seq<byte>, pos: nat, tail: seq<byte>)
    requires items.Node? && pos <= |st| && st[pos..] == EncodeItems(items, index) + tail
    ensures st[pos..] == EncodeBegin(items.name)
                         + (EncodeItems(items.body, index) + (Be32(END_NODE) + (EncodeItems(items.rest, index) + tail)))
    ensures |EncodeItems(items, index)|
            == |EncodeBegin(items.name)| + |EncodeItems(items.body, index)| + 4 + |EncodeItems(items.rest, index)|
  {
    var closing := Be32(END_NODE) + EncodeItems(items.rest, index);
    Assoc(EncodeBegin(items.name), EncodeItems(items.body, index) + closing, tail);
    Assoc(EncodeItems(items.body, index), closing, tail);
    Assoc(Be32(END_NODE), EncodeItems(items.rest, index), tail);
  }

  lemma ParsesProperty(st: seq<byte>, pos: nat, strings: seq<byte>, name: cstring, data: value, rest: Items, end: nat)
    requires var dataEnd := pos + 12 + |data|;
             dataEnd <= |st| && ReadBe32(st, pos) == PROP && ReadBe32(st, pos + 4) == |data|
             && CString(strings, ReadBe32(st, pos + 8)) == Some(name)
             && st[pos + 12..dataEnd] == data && ZeroPadded(st, dataEnd)
             && ParseItems(st, Align4(dataEnd), strings) == Some((rest, end))
    ensures ParseItems(st, pos, strings) == Some((Property(name, data, rest), end))
  {
    hide ReadBe32, CString, ZeroPadded, Align4;
  }

  lemma ParsesNode(st: seq<byte>, pos: nat, strings: seq<byte>, name: cstring, body: Items, at: nat, rest: Items,
                   end: nat)
    requires pos + 4 <= |st| && ReadBe32(st, pos) == BEGIN_NODE && CString(st, pos + 4) == Some(name)
    requires ZeroPadded(st, pos + 4 + |name| + 1)
    requires ParseItems(st, Align4(pos + 4 + |name| + 1), strings) == Some((body, at))
    requires at + 4 <= |st| && ReadBe32(st, at) == END_NODE
    requires ParseItems(st, at + 4, strings) == Some((rest, end))
    ensures ParseItems(st, pos, strings) == Some((Node(name, body, rest), end))
  {
    hide ReadBe32, CString, ZeroPadded, Align4;
  }

  lemma BeginAt(name: cstring, st: seq<byte>, pos: nat, rest: seq<byte>)
    requires pos % 4 == 0 && pos <= |st| && st[pos..] == EncodeBegin(name) + rest
    ensures pos + 4 <= |st| && ReadBe32(st, pos) == BEGIN_NODE
    ensures CString(st, pos + 4) == Some(name)
    ensures ZeroPadded(st, pos + 4 + |name| + 1)
    ensures Align4(pos + 4 + |name| + 1) == pos + |EncodeBegin(name)|
    ensures pos + |EncodeBegin(name)| <= |st| && st[pos + |EncodeBegin(name)|..] == rest
  {
    var content := name + [0];
    Assoc(Be32(BEGIN_NODE), content + Padding(|name| + 1), rest);
    WordAt(st, pos, BEGIN_NODE, content + Padding(|content|) + rest);
    PaddedAt(st, pos + 4, content, rest);
    Assoc(content, Padding(|content|), rest);
    CStringReads(st, pos + 4, name, Padding(|content|) + rest);
  }

  lemma PropertyAt(items: Items, index: map<cstring, uint32>, st: seq<byte>, pos: nat, tail: seq<byte>)
    requires items.Property?
    requires pos % 4 == 0 && pos <= |st| && st[pos..] == EncodeItems(items, index) + tail
    ensures var data := items.data; var dataEnd := pos + 12 + |data|;
            pos + 12 <= |st| && ReadBe32(st, pos) == PROP && ReadBe32(st, pos + 4) == |data|
            && ReadBe32(st, pos + 8) == Offset(index, items.name)
            && dataEnd <= |st| && st[pos + 12..dataEnd] == data && ZeroPadded(st, dataEnd)
            && Align4(dataEnd) == pos + |EncodeProperty(Offset(index, items.name), data)|
            && st[Align4(dataEnd)..] == EncodeItems(items.rest, index) + tail
            && |EncodeItems(items, index)| == Align4(dataEnd) - pos + |EncodeItems(items.rest, index)|
  {
    var data, off := items.data, Offset(index, items.name);
    var rest := EncodeItems(items.rest, index) + tail;
    var padded := data + Padding(|data|);
    Assoc(EncodeProperty(off, data), EncodeItems(items.rest, index), tail);
    Assoc(Be32(PROP), Be32(|data|) + (Be32(off) + padded), rest);
    WordAt(st, pos, PROP, Be32(|data|) + (Be32(off) + padded) + rest);
    Assoc(Be32(|data|), Be32(off) + padded, rest);
    WordAt(st, pos + 4, |data|, Be32(off) + padded + rest);
    Assoc(Be32(off), padded, rest);
    WordAt(st, pos + 8, off, padded + rest);
    PaddedAt(st, pos + 12, data, rest);
  }

  // ----- the reservation block -----

  const TERMINATOR := Reservation(0, 0)

  /** The entries before the first one that reads as the block's terminator. */
  function BeforeTerminator(rs: seq<Reservation>): (r: seq<Reservation>)
    ensures r == rs <==> TERMINATOR !in rs
  {
    if rs == [] || rs[0] == TERMINATOR then []
    else
      assert rs == [rs[0]] + rs[1..];
      [rs[0]] + BeforeTerminator(rs[1..])
  }

  lemma {:induction false} ParseReservationsInverse(rs: seq<Reservation>, b: seq<byte>, at: nat, rest: seq<byte>)
    requires at <= |b| && b[at..] == EncodeReservations(rs) + (Be64(0) + (Be64(0) + rest))
    ensures ParseReservations(b, at) == Some(BeforeTerminator(rs))
    decreases |rs|
  {
    var tail := Be64(0) + (Be64(0) + rest);
    if rs == [] {
      assert b[at..] == tail;
      DoubleWordAt(b, at, 0, Be64(0) + rest);
      DoubleWordAt(b, at + 8, 0, rest);
    } else {
      var more := EncodeReservations(rs[1..]);
      Assoc(Be64(rs[0].address), Be64(rs[0].size) + more, tail);
      DoubleWordAt(b, at, rs[0].address, Be64(rs[0].size) + more + tail);
      Assoc(Be64(rs[0].size), more, tail);
      DoubleWordAt(b, at + 8, rs[0].size, more + tail);
      if rs[0] != TERMINATOR {
        ParseReservationsInverse(rs[1..], b, at + 16, rest);
      }
    }
  }

  // ----- the whole blob -----

  function Header(total: nat, offStruct: nat, offStrings: nat, sizeStrings: nat, sizeStruct: nat): (b: seq<byte>)
    ensures |b| == HEADER_SIZE
  {
    Be32(MAGIC) + Be32(U32(total)) + Be32(U32(offStruct)) + Be32(U32(offStrings))
    + Be32(HEADER_SIZE) + Be32(VERSION) + Be32(COMPATIBLE_VERSION) + Be32(0)
    + Be32(U32(sizeStrings)) + Be32(U32(sizeStruct))
  }

  /** The blob `build` lays out from its three buffers, with header fields kept in 32 bits. */
  function Blob(rsv: seq<byte>, st: seq<byte>, strings: seq<byte>): seq<byte> {
    var offStruct := HEADER_SIZE + |rsv|;
    var offStrings := offStruct + |st|;
    Header(offStrings + |strings|, offStruct, offStrings, |strings|, |st|) + rsv + st + strings
  }

  lemma HeaderFields(b: seq<byte>, total: nat, offStruct: nat, offStrings: nat, sizeStrings: nat, sizeStruct: nat)
    requires |b| >= 40 && b[..40] == Header(total, offStruct, offStrings, sizeStrings, sizeStruct)
    ensures ReadBe32(b, 0) == MAGIC && ReadBe32(b, 4) == U32(total)
    ensures ReadBe32(b, 8) == U32(offStruct) && ReadBe32(b, 12) == U32(offStrings)
    ensures ReadBe32(b, 16) == HEADER_SIZE && ReadBe32(b, 20) == VERSION
    ensures ReadBe32(b, 24) == COMPATIBLE_VERSION && ReadBe32(b, 28) == 0
    ensures ReadBe32(b, 32) == U32(sizeStrings) && ReadBe32(b, 36) == U32(sizeStruct)
  {
    var h := b[..40];
    HeaderWord(b, h, 0, MAGIC);
    HeaderWord(b, h, 4, U32(total));
    HeaderWord(b, h, 8, U32(offStruct));
    HeaderWord(b, h, 12, U32(offStrings));
    HeaderWord(b, h, 16, HEADER_SIZE);
    HeaderWord(b, h, 20, VERSION);
    HeaderWord(b, h, 24, COMPATIBLE_VERSION);
    HeaderWord(b, h, 28, 0);
    HeaderWord(b, h, 32, U32(sizeStrings));
    HeaderWord(b, h, 36, U32(sizeStruct));
  }

  lemma HeaderWord(b: seq<byte>, h: seq<byte>, at: nat, x: uint32)
    requires |h| == 40 && |b| >= 40 && h == b[..40] && at + 4 <= 40 && h[at..at + 4] == Be32(x)
    ensures ReadBe32(b, at) == x
  {
    assert b[at..at + 4] == h[at..at + 4];
    ReadBe32Inverse(b, at, x);
  }

  lemma {:induction false} EncodedSizes(rs: seq<Reservation>)
    ensures |EncodeReservations(rs)| == 16 * |rs|
    decreases |rs|
  {
    if rs != [] {
      EncodedSizes(rs[1..]);
    }
  }

  /** Parsing what `build` lays out: it succeeds exactly when the blob's size fits the
      32-bit header fields, and then yields the tree and the reservations up to the first
      pair of zeros. */
  lemma BlobRoundTrip(rs: seq<Reservation>, items: Items, t: Table, rsv: seq<byte>, st: seq<byte>)
    requires Sound(t) && PropertyNames(items) <= t.index.Keys
    requires rsv == EncodeReservations(rs) + (Be64(0) + Be64(0))
    requires st == EncodeItems(items, t.index) + Be32(END)
    ensures var blob := Blob(rsv, st, t.bytes);
            ParseDtb(blob) == if |blob| < TWO_32 then Some(Dtb(0, BeforeTerminator(rs), items)) else None
  {
    var blob := Blob(rsv, st, t.bytes);
    BlobHeader(rsv, st, t.bytes);
    BlobParts(rsv, st, t.bytes);
    if |blob| < TWO_32 {
      SmallBlobParses(rs, items, t, rsv, st, blob);
    } else {
      SizeMismatch(blob);
    }
  }

  lemma SmallBlobParses(rs: seq<Reservation>, items: Items, t: Table, rsv: seq<byte>, st: seq<byte>, blob: seq<byte>)
    requires Denotes(t) && PropertyNames(items) <= t.index.Keys
    requires rsv == EncodeReservations(rs) + (Be64(0) + Be64(0))
    requires st == EncodeItems(items, t.index) + Be32(END)
    requires blob == Blob(rsv, st, t.bytes) && |blob| < TWO_32
    ensures ParseDtb(blob) == Some(Dtb(0, BeforeTerminator(rs), items))
  {
    hide *;
    var offStruct := HEADER_SIZE + |rsv|;
    var offStrings := offStruct + |st|;
    BlobHeader(rsv, st, t.bytes);
    BlobParts(rsv, st, t.bytes);
    EncodedSizes(rs);
    ReservationsIn(rs, blob, rsv, st + t.bytes);
    StructureIn(items, t, st);
    Fits(offStruct, |blob|);
    Fits(offStrings, |blob|);
    Fits(|st|, |blob|);
    Fits(|t.bytes|, |blob|);
    Fits(|blob|, |blob|);
    ParseDtbByParts(blob, offStruct, offStrings, |st|, |t.bytes|, BeforeTerminator(rs), items);
  }

  lemma SizeMismatch(blob: seq<byte>)
    requires |blob| >= TWO_32 && ReadBe32(blob, 4) == U32(|blob|)
    ensures ParseDtb(blob) == None
  {
    hide ReadBe32, ParseReservations, ParseStructure;
  }

  lemma ParseDtbByParts(blob: seq<byte>, offStruct: nat, offStrings: nat, n: nat, m: nat,
                        rs: seq<Reservation>, items: Items)
    requires |blob| >= 40 && offStruct % 4 == 0 && offStruct + n <= |blob| && offStrings + m <= |blob|
    requires ReadBe32(blob, 0) == MAGIC && ReadBe32(blob, 4) == |blob|
    requires ReadBe32(blob, 8) == offStruct && ReadBe32(blob, 12) == offStrings
    requires ReadBe32(blob, 16) == 40 && ReadBe32(blob, 20) == VERSION && ReadBe32(blob, 24) == COMPATIBLE_VERSION
    requires ReadBe32(blob, 28) == 0 && ReadBe32(blob, 32) == m && ReadBe32(blob, 36) == n
    requires ParseReservations(blob, 40) == Some(rs)
    requires ParseStructure(blob[offStruct..offStruct + n], blob[offStrings..offStrings + m]) == Some(items)
    ensures ParseDtb(blob) == Some(Dtb(0, rs, items))
  {
    hide ReadBe32, ParseReservations, ParseStructure;
  }

  lemma Fits(x: nat, total: nat)
    requires x <= total < TWO_32
    ensures U32(x) == x
  {}

  lemma BlobParts(rsv: seq<byte>, st: seq<byte>, strings: seq<byte>)
    ensures var blob := Blob(rsv, st, strings);
            var offStruct := HEADER_SIZE + |rsv|;
            var offStrings := offStruct + |st|;
            |blob| == offStrings + |strings|
            && blob[..40] == Header(|blob|, offStruct, offStrings, |strings|, |st|)
            && blob[40..] == rsv + (st + strings)
            && blob[offStruct..offStruct + |st|] == st && blob[offStrings..offStrings + |strings|] == strings
  {
    var h := Header(HEADER_SIZE + |rsv| + |st| + |strings|, HEADER_SIZE + |rsv|, HEADER_SIZE + |rsv| + |st|,
                    |strings|, |st|);
    FourParts(h, rsv, st, strings);
  }

  lemma BlobHeader(rsv: seq<byte>, st: seq<byte>, strings: seq<byte>)
    ensures var b := Blob(rsv, st, strings);
            |b| >= 40 && ReadBe32(b, 0) == MAGIC && ReadBe32(b, 4) == U32(|b|)
            && ReadBe32(b, 8) == U32(HEADER_SIZE + |rsv|) && ReadBe32(b, 12) == U32(HEADER_SIZE + |rsv| + |st|)
            && ReadBe32(b, 16) == HEADER_SIZE && ReadBe32(b, 20) == VERSION && ReadBe32(b, 24) == COMPATIBLE_VERSION
            && ReadBe32(b, 28) == 0 && ReadBe32(b, 32) == U32(|strings|) && ReadBe32(b, 36) == U32(|st|)
  {
    hide Be32, ReadBe32, Header, Blob, U32;
    BlobParts(rsv, st, strings);
    var b := Blob(rsv, st, strings);
    HeaderFields(b, |b|, HEADER_SIZE + |rsv|, HEADER_SIZE + |rsv| + |st|, |strings|, |st|);
  }

  lemma FourParts(h: seq<byte>, a: seq<byte>, b: seq<byte>, c: seq<byte>)
    ensures var all := h + a + b + c;
            all[..|h|] == h && all[|h|..] == a + (b + c)
            && all[|h| + |a|..|h| + |a| + |b|] == b && all[|h| + |a| + |b|..|h| + |a| + |b| + |c|] == c
  {}

  lemma ReservationsIn(rs: seq<Reservation>, blob: seq<byte>, rsv: seq<byte>, after: seq<byte>)
    requires |blob| >= 40 && rsv == EncodeReservations(rs) + (Be64(0) + Be64(0)) && blob[40..] == rsv + after
    ensures ParseReservations(blob, 40) == Some(BeforeTerminator(rs))
  {
    Assoc(EncodeReservations(rs), Be64(0) + Be64(0), after);
    Assoc(Be64(0), Be64(0), after);
    ParseReservationsInverse(rs, blob, 40, after);
  }

  lemma StructureIn(items: Items, t: Table, st: seq<byte>)
    requires Denotes(t) && PropertyNames(items) <= t.index.Keys
    requires st == EncodeItems(items, t.index) + Be32(END)
    ensures ParseStructure(st, t.bytes) == Some(items)
  {
    WordAt(Be32(END), 0, END, []);
    TableDenotesNames(items, t);
    ParseItemsInverse(items, t.index, t.bytes, st, 0, Be32(END));
    WordAt(st, |EncodeItems(items, t.index)|, END, []);
  }

  // ----- instances of what a parser does not get back -----

  /** A root node without anything in it. */
  const BARE_ROOT := Node([], Nil, Nil)

  /** A reservation of (0, 0) hides every later one from a parser. */
  lemma ZeroReservationHidesLater(later: Reservation)
    ensures var rsv := EncodeReservations([TERMINATOR, later]) + (Be64(0) + Be64(0));
            var st := EncodeItems(BARE_ROOT, map[]) + Be32(END);
            ParseDtb(Blob(rsv, st, [])) == Some(Dtb(0, [], BARE_ROOT))
  {
    hide ParseDtb, Be64, Be32, Header;
    var rs := [TERMINATOR, later];
    var t := Table([], map[]);
    EncodedSizes(rs);
    BlobRoundTrip(rs, BARE_ROOT, t, EncodeReservations(rs) + (Be64(0) + Be64(0)),
                  EncodeItems(BARE_ROOT, map[]) + Be32(END));
  }

  /** A root node with one property of 2^32 - 1 bytes. */
  function HugeTree(): Items {
    Node([], Property([120], Zeros(TWO_32 - 1), Nil), Nil)
  }

  /** Its blob is too large for the 32-bit header fields, and does not parse. */
  lemma HugeBlobDoesNotParse()
    ensures var t := Intern(Table([], map[]), [120]);
            var st := EncodeItems(HugeTree(), t.index) + Be32(END);
            ParseDtb(Blob(Be64(0) + Be64(0), st, t.bytes)) == None
  {
    hide ParseDtb, Be64, Be32, Header, EncodeBegin;
    var t := Intern(Table([], map[]), [120]);
    InternIsSound(Table([], map[]), [120]);
    var rsv := Be64(0) + Be64(0);
    var st := EncodeItems(HugeTree(), t.index) + Be32(END);
    assert EncodeReservations([]) + rsv == rsv;
    BlobRoundTrip([], HugeTree(), t, rsv, st);
    HugeTreeIsLong(t.index);
  }

  lemma HugeTreeIsLong(index: map<cstring, uint32>)
    ensures |EncodeItems(HugeTree(), index)| >= TWO_32
  {
    hide Be32, EncodeBegin;
    var body := Property([120], Zeros(TWO_32 - 1), Nil);
    assert HugeTree().body == body;
    assert |EncodeItems(body, index)| >= TWO_32;
  }
}
