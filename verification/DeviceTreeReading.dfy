/** Reading a devicetree as a kernel does: properties and subnodes by name, cells in the widths a
    parent prescribes, unit addresses, and references to phandles. */
module DeviceTreeReading {
  import opened Bytes
  import opened FdtFormat
  import opened DeviceTree

  // ----- one level of a tree -----

  /** The first property of that name. */
  function Value(items: Items, name: cstring): Option<value> {
    match items
    case Nil => None
    case Property(n, data, rest) => if n == name then Some(data) else Value(rest, name)
    case Node(_, _, rest) => Value(rest, name)
  }

  function Get(items: Items, name: string): Option<value> {
    Value(items, Text(name))
  }

  /** The subnodes, in order. */
  function Children(items: Items): seq<Subnode> {
    match items
    case Nil => []
    case Property(_, _, rest) => Children(rest)
    case Node(name, body, rest) => [Subnode(name, body)] + Children(rest)
  }

  /** The bodies of all nodes, a node before its subnodes. */
  function AllNodes(items: Items): seq<Items> {
    match items
    case Nil => []
    case Property(_, _, rest) => AllNodes(rest)
    case Node(_, body, rest) => [body] + AllNodes(body) + AllNodes(rest)
  }

  // ----- cells -----

  /** A value as 32-bit cells, big-endian (section 2.2.4 of the Devicetree Specification v0.4). */
  function CellsOf(v: seq<byte>): seq<uint32>
    decreases |v|
  {
    if |v| < 4 then [] else [ReadBe32(v, 0)] + CellsOf(v[4..])
  }

  /** A number of several cells, the most significant first. */
  function NumberOf(cells: seq<uint32>): nat {
    if cells == [] then 0 else NumberOf(cells[..|cells| - 1]) * TWO_32 + cells[|cells| - 1]
  }

  /** The (address, length) pairs of a `reg` value, for a parent's `#address-cells` and `#size-cells`. */
  function Regs(cells: seq<uint32>, ac: nat, sc: nat): seq<(nat, nat)>
    decreases |cells|
  {
    if ac + sc == 0 || |cells| < ac + sc then []
    else [(NumberOf(cells[..ac]), NumberOf(cells[ac..ac + sc]))] + Regs(cells[ac + sc..], ac, sc)
  }

  /** A property that is one cell. */
  function Cell(items: Items, name: string): Option<uint32> {
    match Get(items, name)
    case Some(v) => if |v| == 4 then Some(ReadBe32(v, 0)) else None
    case None => None
  }

  /** The `reg` of a node under `parent`. */
  function RegsUnder(parent: Items, body: Items): Option<seq<(nat, nat)>> {
    match Get(body, "reg")
    case None => None
    case Some(v) =>
      match (Cell(parent, "#address-cells"), Cell(parent, "#size-cells"))
      case (Some(ac), Some(sc)) => Some(Regs(CellsOf(v), ac, sc))
      case _ => None
  }

  // ----- unit addresses -----

  /** What follows the first '@' of a node name. */
  function UnitAddress(name: seq<byte>): Option<seq<byte>> {
    if name == [] then None else if name[0] == 64 then Some(name[1..]) else UnitAddress(name[1..])
  }

  function HexDigit(b: byte): Option<nat> {
    if 48 <= b <= 57 then Some(b - 48) else if 97 <= b <= 102 then Some(b - 87) else None
  }

  /** A number in hexadecimal. */
  function HexValue(t: seq<byte>): Option<nat> {
    if t == [] then Some(0)
    else
      match (HexValue(t[..|t| - 1]), HexDigit(t[|t| - 1]))
      case (Some(high), Some(d)) => Some(16 * high + d)
      case _ => None
  }

  /** A node's unit address, if it has one, is the first address of its `reg`. */
  predicate AddressAgrees(parent: Items, n: Subnode) {
    match UnitAddress(n.name)
    case None => true
    case Some(t) =>
      var regs := RegsUnder(parent, n.body);
      regs.Some? && regs.value != [] && HexValue(t) == Some(regs.value[0].0)
  }

  // ----- reading what was built -----

  predicate Differs(a: string, b: string) {
    |a| != |b| || (|a| > 0 && Octet(a[0]) != Octet(b[0]))
  }

  lemma TextDiffers(a: string, b: string)
    requires Differs(a, b)
    ensures Text(a) != Text(b)
  {
    if |a| == |b| {
      assert Text(a)[0] == Octet(a[0]) && Text(b)[0] == Octet(b[0]);
    }
  }

  /** A property whose name differs from those before it is found. */
  lemma {:induction false} Found(ps: seq<Prop>, rest: Items, name: string, k: nat)
    requires k < |ps| && ps[k].0 == name && forall j :: 0 <= j < k ==> Differs(ps[j].0, name)
    ensures Get(Then(Props(ps), rest), name) == Some(ps[k].1)
    decreases k
  {
    hide Text, Differs;
    if k > 0 {
      assert Differs(ps[0].0, name);
      TextDiffers(ps[0].0, name);
      Found(ps[1..], rest, name, k - 1);
    }
  }

  lemma {:induction false} NotFound(ps: seq<Prop>, rest: Items, name: string)
    requires forall j :: 0 <= j < |ps| ==> Differs(ps[j].0, name)
    ensures Get(Then(Props(ps), rest), name) == Get(rest, name)
    decreases |ps|
  {
    hide Text, Differs;
    if ps != [] {
      assert Differs(ps[0].0, name);
      TextDiffers(ps[0].0, name);
      NotFound(ps[1..], rest, name);
    }
  }

  lemma {:induction false} NoValues(ns: seq<Subnode>, name: string)
    ensures Get(Subnodes(ns), name) == None
    decreases |ns|
  {
    hide Text;
    if ns != [] {
      NoValues(ns[1..], name);
    }
  }

  lemma {:induction false} ThenNil(a: Items)
    ensures Then(a, Nil) == a
    decreases a
  {
    match a
    case Nil =>
    case Property(_, _, rest) => ThenNil(rest);
    case Node(_, _, rest) => ThenNil(rest);
  }

  lemma {:induction false} ChildrenOf(ps: seq<Prop>, ns: seq<Subnode>)
    ensures Children(Then(Props(ps), Subnodes(ns))) == ns
    decreases |ps|, |ns|
  {
    if ps != [] {
      ChildrenOf(ps[1..], ns);
    } else if ns != [] {
      ChildrenOf([], ns[1..]);
      assert Then(Props([]), Subnodes(ns)) == Subnodes(ns) && Then(Props([]), Subnodes(ns[1..])) == Subnodes(ns[1..]);
    }
  }

  lemma CellsStep(x: uint32, rest: seq<byte>)
    ensures CellsOf(Be32(x) + rest) == [x] + CellsOf(rest)
  {
    hide Be32, ReadBe32;
    ReadBe32Inverse(Be32(x) + rest, 0, x);
    assert (Be32(x) + rest)[4..] == rest;
  }

  lemma {:induction false} CellsOfBigEndian(cs: seq<uint32>)
    ensures CellsOf(BigEndian(cs)) == cs && |BigEndian(cs)| == 4 * |cs|
    decreases |cs|
  {
    hide Be32;
    if cs != [] {
      CellsOfBigEndian(cs[1..]);
      CellsStep(cs[0], BigEndian(cs[1..]));
    }
  }

  /** A list of cells is read back. */
  lemma CellsRead(cs: seq<uint32>)
    requires |cs| < 0x1000
    ensures CellsOf(Cells(cs)) == cs && |Cells(cs)| == 4 * |cs|
  {
    var b := BigEndian(cs);
    CellsOfBigEndian(cs);
    assert U32(|b|) == |b| && b[..|b|] == b;
  }

  lemma OneCellRead(x: uint32)
    ensures |Be32(x)| == 4 && ReadBe32(Be32(x), 0) == x && CellsOf(Be32(x)) == [x]
  {
    hide Be32, ReadBe32;
    ReadBe32Inverse(Be32(x), 0, x);
    CellsStep(x, []);
    assert Be32(x) + [] == Be32(x);
  }

  lemma TwoCellsRead(x: uint64)
    ensures CellsOf(Be64(x)) == [x / TWO_32, x % TWO_32]
  {
    hide Be32, ReadBe32;
    CellsStep(x / TWO_32, Be32(x % TWO_32));
    OneCellRead(x % TWO_32);
  }

  lemma FourCellsRead(x: uint64, y: uint64)
    ensures CellsOf(Be64(x) + Be64(y)) == [x / TWO_32, x % TWO_32, y / TWO_32, y % TWO_32]
  {
    hide Be32, ReadBe32;
    assert Be64(x) + Be64(y) == Be32(x / TWO_32) + (Be32(x % TWO_32) + Be64(y));
    CellsStep(x / TWO_32, Be32(x % TWO_32) + Be64(y));
    CellsStep(x % TWO_32, Be64(y));
    TwoCellsRead(y);
  }

  lemma TwoCellNumber(x: uint64)
    ensures NumberOf([x / TWO_32, x % TWO_32]) == x
  {
    var cs := [x / TWO_32, x % TWO_32];
    assert cs[..1] == [x / TWO_32] && [x / TWO_32][..0] == [];
    assert NumberOf([x / TWO_32]) == x / TWO_32;
  }

  lemma OneCellNumber(x: uint32)
    ensures NumberOf([x]) == x
  {
    assert [x][..0] == [];
  }

  /** One pair of 64-bit numbers. */
  lemma PairRead(a: uint64, s: uint64)
    ensures Regs([a / TWO_32, a % TWO_32, s / TWO_32, s % TWO_32], 2, 2) == [(a, s)]
  {
    var cs := [a / TWO_32, a % TWO_32, s / TWO_32, s % TWO_32];
    assert cs[..2] == [a / TWO_32, a % TWO_32] && cs[2..4] == [s / TWO_32, s % TWO_32] && cs[4..] == [];
    TwoCellNumber(a);
    TwoCellNumber(s);
  }

  // ----- names -----

  lemma TextConcat(a: string, b: string)
    ensures Text(a + b) == Text(a) + Text(b)
  {}

  lemma {:induction false} UnitOf(prefix: seq<byte>, t: seq<byte>)
    requires 64 !in prefix
    ensures UnitAddress(prefix + [64] + t) == Some(t)
    decreases |prefix|
  {
    var all := prefix + [64] + t;
    if prefix == [] {
      assert all[1..] == t;
    } else {
      assert all[1..] == prefix[1..] + [64] + t;
      UnitOf(prefix[1..], t);
    }
  }

  lemma {:induction false} NoUnit(name: seq<byte>)
    requires 64 !in name
    ensures UnitAddress(name) == None
    decreases |name|
  {
    if name != [] {
      NoUnit(name[1..]);
    }
  }

  lemma HexStep(t: seq<byte>, b: byte, high: nat, d: nat)
    requires HexValue(t) == Some(high) && HexDigit(b) == Some(d)
    ensures HexValue(t + [b]) == Some(16 * high + d)
  {
    assert (t + [b])[..|t|] == t;
  }

  lemma DigitRead(d: nat)
    requires d < 16
    ensures HexDigit(Digit(d)) == Some(d)
  {}

  /** What is printed in hexadecimal is read back. */
  lemma {:induction false} HexRead(n: nat)
    ensures HexValue(Number(n, 16)) == Some(n)
    decreases n
  {
    DigitRead(n % 16);
    if n < 16 {
      assert Number(n, 16) == [] + [Digit(n)];
      HexStep([], Digit(n), 0, n);
    } else {
      HexRead(n / 16);
      HexStep(Number(n / 16, 16), Digit(n % 16), n / 16, n % 16);
    }
  }

  /** A decimal number read as hexadecimal is right below ten, and too large from ten on. */
  lemma {:induction false} DecimalAsHex(n: nat)
    ensures var h := HexValue(Number(n, 10)); h.Some? && h.value >= n && (h.value == n <==> n < 10)
    decreases n
  {
    DigitRead(n % 10);
    if n < 10 {
      assert Number(n, 10) == [] + [Digit(n)];
      HexStep([], Digit(n), 0, n);
    } else {
      DecimalAsHex(n / 10);
      HexStep(Number(n / 10, 10), Digit(n % 10), HexValue(Number(n / 10, 10)).value, n % 10);
    }
  }

  function Seven(d: seq<nat>): nat
    requires |d| == 7
  {
    (((((d[0] * 16 + d[1]) * 16 + d[2]) * 16 + d[3]) * 16 + d[4]) * 16 + d[5]) * 16 + d[6]
  }

  /** Seven hexadecimal digits. */
  lemma Hex7(t: seq<byte>, d: seq<nat>)
    requires |t| == |d| == 7 && forall i :: 0 <= i < 7 ==> HexDigit(t[i]) == Some(d[i])
    ensures HexValue(t) == Some(Seven(d))
  {
    hide HexDigit;
    HexPrefix(t, 0, 0, d[0]);
    HexPrefix(t, 1, d[0], d[1]);
    HexPrefix(t, 2, d[0] * 16 + d[1], d[2]);
    HexPrefix(t, 3, (d[0] * 16 + d[1]) * 16 + d[2], d[3]);
    HexPrefix(t, 4, ((d[0] * 16 + d[1]) * 16 + d[2]) * 16 + d[3], d[4]);
    HexPrefix(t, 5, (((d[0] * 16 + d[1]) * 16 + d[2]) * 16 + d[3]) * 16 + d[4], d[5]);
    HexPrefix(t, 6, ((((d[0] * 16 + d[1]) * 16 + d[2]) * 16 + d[3]) * 16 + d[4]) * 16 + d[5], d[6]);
    assert t[..7] == t;
  }

  lemma HexPrefix(t: seq<byte>, k: nat, high: nat, d: nat)
    requires k < |t| && HexValue(t[..k]) == Some(high) && HexDigit(t[k]) == Some(d)
    ensures HexValue(t[..k + 1]) == Some(16 * high + d)
  {
    HexStep(t[..k], t[k], high, d);
    assert t[..k] + [t[k]] == t[..k + 1];
  }

  /** The first subnode of that name. */
  function Sub(items: Items, name: string): Option<Items> {
    FirstNamed(Children(items), Text(name))
  }

  function FirstNamed(ns: seq<Subnode>, name: cstring): Option<Items> {
    if ns == [] then None else if ns[0].name == name then Some(ns[0].body) else FirstNamed(ns[1..], name)
  }

  lemma {:induction false} NamedAt(ns: seq<Subnode>, name: cstring, k: nat)
    requires k < |ns| && ns[k].name == name && forall j :: 0 <= j < k ==> ns[j].name != name
    ensures FirstNamed(ns, name) == Some(ns[k].body)
    decreases k
  {
    if k > 0 {
      NamedAt(ns[1..], name, k - 1);
    }
  }
}
