/** The flattened devicetree format, version 17 (Devicetree Specification v0.4,
    chapter 5): trees, their structure-block encoding, and a parser for whole blobs. */
module FdtFormat {
  import opened Bytes

  const MAGIC: uint32 := 0xd00d_feed
  const VERSION: uint32 := 17
  const COMPATIBLE_VERSION: uint32 := 16
  const HEADER_SIZE := 40
  const BEGIN_NODE: uint32 := 1
  const END_NODE: uint32 := 2
  const PROP: uint32 := 3
  const NOP: uint32 := 4
  const END: uint32 := 9

  type cstring = s: seq<byte> | 0 !in s
  type value = v: seq<byte> | |v| < TWO_32

  /** The properties and subnodes of a node, in the order of the structure block. */
  datatype Items =
    | Nil
    | Property(name: cstring, data: value, rest: Items)
    | Node(name: cstring, body: Items, rest: Items)

  datatype Reservation = Reservation(address: uint64, size: uint64)

  datatype Dtb = Dtb(bootCpu: uint32, reservations: seq<Reservation>, items: Items)

  // ----- parsing: sections 5.2 to 5.6 -----

  /** The NUL-terminated string at `at` in a strings block. */
  function CString(b: seq<byte>, at: nat): Option<cstring>
    decreases |b| - at
  {
    if at >= |b| then None
    else if b[at] == 0 then Some([])
    else
      match CString(b, at + 1)
      case None => None
      case Some(s) => Some([b[at]] + s)
  }

  function Align4(n: nat): (r: nat)
    ensures n <= r < n + 4 && r % 4 == 0
  {
    if n % 4 == 0 then n else n + 4 - n % 4
  }

  predicate ZeroPadded(b: seq<byte>, from: nat) {
    Align4(from) <= |b| && forall i :: from <= i < Align4(from) ==> b[i] == 0
  }

  /** Parses properties and subnodes from `pos` up to an unmatched FDT_END_NODE or
      FDT_END token; returns them with the position of that token. */
  function ParseItems(st: seq<byte>, pos: nat, strings: seq<byte>): (r: Option<(Items, nat)>)
    ensures r.Some? ==> pos <= r.value.1 && r.value.1 + 4 <= |st|
    decreases |st| - pos
  {
    if pos + 4 > |st| then None else
    var token := ReadBe32(st, pos);
    if token == NOP then ParseItems(st, pos + 4, strings)
    else if token == BEGIN_NODE then
      match CString(st, pos + 4)
      case None => None
      case Some(name) =>
        var nameEnd := pos + 4 + |name| + 1;
        if !ZeroPadded(st, nameEnd) then None else
        match ParseItems(st, Align4(nameEnd), strings)
        case None => None
        case Some((body, at)) =>
          if ReadBe32(st, at) != END_NODE then None else
          match ParseItems(st, at + 4, strings)
          case None => None
          case Some((rest, end)) => Some((Node(name, body, rest), end))
    else if token == PROP then
      if pos + 12 > |st| then None else
      var len := ReadBe32(st, pos + 4);
      var dataEnd := pos + 12 + len;
      if dataEnd > |st| || !ZeroPadded(st, dataEnd) then None else
      match CString(strings, ReadBe32(st, pos + 8))
      case None => None
      case Some(name) =>
        match ParseItems(st, Align4(dataEnd), strings)
        case None => None
        case Some((rest, end)) => Some((Property(name, st[pos + 12..dataEnd], rest), end))
    else if token == END_NODE || token == END then Some((Nil, pos))
    else None
  }

  function ParseStructure(st: seq<byte>, strings: seq<byte>): Option<Items> {
    match ParseItems(st, 0, strings)
    case Some((items, at)) => if ReadBe32(st, at) == END && at + 4 == |st| then Some(items) else None
    case None => None
  }

  /** The memory reservation block: 64-bit pairs up to a pair of zeros. */
  function ParseReservations(b: seq<byte>, at: nat): Option<seq<Reservation>>
    decreases |b| - at
  {
    if at + 16 > |b| then None else
    var r := Reservation(ReadBe64(b, at), ReadBe64(b, at + 8));
    if r == Reservation(0, 0) then Some([]) else
    match ParseReservations(b, at + 16)
    case None => None
    case Some(rs) => Some([r] + rs)
  }

  /** Checks the header and parses the three blocks it locates. */
  function ParseDtb(blob: seq<byte>): Option<Dtb> {
    if |blob| < HEADER_SIZE then None else
    var offStruct, offStrings := ReadBe32(blob, 8), ReadBe32(blob, 12);
    var offReserve, sizeStrings := ReadBe32(blob, 16), ReadBe32(blob, 32);
    var sizeStruct := ReadBe32(blob, 36);
    if ReadBe32(blob, 0) != MAGIC || ReadBe32(blob, 4) != |blob|
       || ReadBe32(blob, 20) < VERSION || ReadBe32(blob, 24) > VERSION
       || offReserve % 8 != 0 || offReserve < HEADER_SIZE || offStruct % 4 != 0
       || offStruct + sizeStruct > |blob| || offStrings + sizeStrings > |blob|
    then None
    else
      match ParseReservations(blob, offReserve)
      case None => None
      case Some(rs) =>
        match ParseStructure(blob[offStruct..offStruct + sizeStruct], blob[offStrings..offStrings + sizeStrings])
        case None => None
        case Some(items) => Some(Dtb(ReadBe32(blob, 28), rs, items))
  }

  // ----- the order the specification prescribes -----

  /** Properties precede subnodes at every level (section 5.4.2). */
  predicate PropertiesFirst(items: Items, nodeSeen: bool) {
    match items
    case Nil => true
    case Property(_, _, rest) => !nodeSeen && PropertiesFirst(rest, false)
    case Node(_, body, rest) => PropertiesFirst(body, false) && PropertiesFirst(rest, true)
  }

  /** A devicetree has one root node, whose name is empty. */
  predicate IsDeviceTree(items: Items) {
    items.Node? && items.name == [] && items.rest == Nil && PropertiesFirst(items, false)
  }

  // ----- encoding -----

  function Padding(n: nat): seq<byte> {
    Zeros(Align4(n) - n)
  }

  function EncodeBegin(name: cstring): seq<byte> {
    Be32(BEGIN_NODE) + (name + [0] + Padding(|name| + 1))
  }

  function EncodeProperty(nameOffset: uint32, data: value): seq<byte> {
    Be32(PROP) + (Be32(|data|) + (Be32(nameOffset) + (data + Padding(|data|))))
  }

  function EncodeReservations(rs: seq<Reservation>): seq<byte> {
    if rs == [] then [] else Be64(rs[0].address) + (Be64(rs[0].size) + EncodeReservations(rs[1..]))
  }

  function Offset(index: map<cstring, uint32>, name: cstring): uint32 {
    if name in index then index[name] else 0
  }

  function EncodeItems(items: Items, index: map<cstring, uint32>): seq<byte> {
    match items
    case Nil => []
    case Property(name, data, rest) => EncodeProperty(Offset(index, name), data) + EncodeItems(rest, index)
    case Node(name, body, rest) =>
      EncodeBegin(name) + (EncodeItems(body, index) + (Be32(END_NODE) + EncodeItems(rest, index)))
  }

  function PropertyNames(items: Items): set<cstring> {
    match items
    case Nil => {}
    case Property(name, _, rest) => {name} + PropertyNames(rest)
    case Node(_, body, rest) => PropertyNames(body) + PropertyNames(rest)
  }
}
