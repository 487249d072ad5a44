/** `FdtBuilder` of src/firmware/arm64/dtb.cpp: a printer driven by calls, proved to emit
    the encoding of the tree those calls describe. */
module FdtBuilder {
  import opened Bytes
  import opened FdtFormat
  import opened StringTable
  import opened FdtRoundTrip

  // ----- call sequences and the trees they describe -----

  datatype Call = BeginNode(name: cstring) | EndNode | SetProperty(name: cstring, data: value)

  function CallsOf(items: Items): seq<Call> {
    match items
    case Nil => []
    case Property(name, data, rest) => [SetProperty(name, data)] + CallsOf(rest)
    case Node(name, body, rest) => [BeginNode(name)] + CallsOf(body) + [EndNode] + CallsOf(rest)
  }

  /** Every end_node closes an open begin_node, and none of `depth` plus the new ones stays open. */
  predicate Balanced(calls: seq<Call>, depth: nat) {
    if calls == [] then depth == 0
    else match calls[0]
      case BeginNode(_) => Balanced(calls[1..], depth + 1)
      case EndNode => depth > 0 && Balanced(calls[1..], depth - 1)
      case SetProperty(_, _) => Balanced(calls[1..], depth)
  }

  /** The items described up to the first unmatched end_node, and the calls from it on. */
  function Describe(calls: seq<Call>): (r: (Items, seq<Call>))
    ensures |r.1| <= |calls|
    decreases |calls|
  {
    if calls == [] then (Nil, [])
    else match calls[0]
      case EndNode => (Nil, calls)
      case SetProperty(name, data) =>
        var (rest, after) := Describe(calls[1..]);
        (Property(name, data, rest), after)
      case BeginNode(name) =>
        var (body, closing) := Describe(calls[1..]);
        if closing == [] then (Node(name, body, Nil), []) else
        var (rest, after) := Describe(closing[1..]);
        (Node(name, body, rest), after)
  }

  /** The tree of a balanced call sequence. */
  function TreeOf(calls: seq<Call>): Items {
    Describe(calls).0
  }

  lemma {:induction false} DescribeBalanced(calls: seq<Call>, depth: nat)
    requires Balanced(calls, depth)
    ensures var (items, after) := Describe(calls);
            calls == CallsOf(items) + after
            && (depth == 0 <==> after == [])
            && (depth > 0 ==> after[0] == EndNode && Balanced(after[1..], depth - 1))
    decreases |calls|
  {
    hide CallsOf;
    NoCalls(calls);
    if calls != [] {
      match calls[0]
      case EndNode =>
      case SetProperty(name, data) =>
        DescribeBalanced(calls[1..], depth);
        var (rest, after) := Describe(calls[1..]);
        PropertyCalls(calls, name, data, rest, after);
      case BeginNode(name) =>
        DescribeBalanced(calls[1..], depth + 1);
        var (body, closing) := Describe(calls[1..]);
        DescribeBalanced(closing[1..], depth);
        var (rest, after) := Describe(closing[1..]);
        NodeCalls(calls, name, body, closing, rest, after);
    }
  }

  lemma NoCalls(calls: seq<Call>)
    ensures CallsOf(Nil) == [] && calls == [] + calls
  {}

  lemma PropertyCalls(calls: seq<Call>, name: cstring, data: value, rest: Items, after: seq<Call>)
    requires calls != [] && calls[0] == SetProperty(name, data) && calls[1..] == CallsOf(rest) + after
    ensures calls == CallsOf(Property(name, data, rest)) + after
  {
    assert calls == [calls[0]] + calls[1..];
  }

  lemma NodeCalls(calls: seq<Call>, name: cstring, body: Items, closing: seq<Call>, rest: Items, after: seq<Call>)
    requires calls != [] && calls[0] == BeginNode(name) && calls[1..] == CallsOf(body) + closing
    requires closing != [] && closing[0] == EndNode && closing[1..] == CallsOf(rest) + after
    ensures calls == CallsOf(Node(name, body, rest)) + after
  {
    assert closing == [EndNode] + closing[1..];
    Regroup([calls[0]], CallsOf(body), [EndNode], CallsOf(rest), after);
    assert calls == [calls[0]] + calls[1..];
  }

  lemma Regroup<T>(a: seq<T>, b: seq<T>, c: seq<T>, d: seq<T>, e: seq<T>)
    ensures a + b + c + d + e == a + (b + (c + (d + e)))
  {}

  lemma {:induction false} CallsBalanced(items: Items, after: seq<Call>, depth: nat)
    ensures Balanced(CallsOf(items) + after, depth) == Balanced(after, depth)
    decreases items
  {
    match items
    case Nil => assert CallsOf(items) + after == after;
    case Property(name, data, rest) =>
      assert (CallsOf(items) + after)[1..] == CallsOf(rest) + after;
      CallsBalanced(rest, after, depth);
    case Node(name, body, rest) =>
      var closing := [EndNode] + (CallsOf(rest) + after);
      assert (CallsOf(items) + after)[1..] == CallsOf(body) + closing;
      CallsBalanced(body, closing, depth + 1);
      assert closing[1..] == CallsOf(rest) + after;
      CallsBalanced(rest, after, depth);
  }

  /** Balanced call sequences are exactly the traversals of trees. */
  lemma BalancedIffTree(calls: seq<Call>)
    ensures Balanced(calls, 0) <==> CallsOf(TreeOf(calls)) == calls
  {
    if Balanced(calls, 0) {
      DescribeBalanced(calls, 0);
    }
    if CallsOf(TreeOf(calls)) == calls {
      CallsBalanced(TreeOf(calls), [], 0);
      assert calls + [] == calls;
    }
  }

  // ----- what a call sequence prints -----

  function EncodeCall(c: Call, index: map<cstring, uint32>): seq<byte> {
    match c
    case BeginNode(name) => EncodeBegin(name)
    case EndNode => Be32(END_NODE)
    case SetProperty(name, data) => EncodeProperty(Offset(index, name), data)
  }

  function EncodeCalls(calls: seq<Call>, index: map<cstring, uint32>): seq<byte> {
    if calls == [] then [] else EncodeCall(calls[0], index) + EncodeCalls(calls[1..], index)
  }

  predicate Indexed(calls: seq<Call>, index: map<cstring, uint32>) {
    forall c :: c in calls && c.SetProperty? ==> c.name in index
  }

  lemma {:induction false} EncodeCallsAppend(a: seq<Call>, b: seq<Call>, index: map<cstring, uint32>)
    ensures EncodeCalls(a + b, index) == EncodeCalls(a, index) + EncodeCalls(b, index)
    decreases |a|
  {
    if a == [] {
      assert a + b == b;
    } else {
      hide EncodeCall;
      assert (a + b)[0] == a[0] && (a + b)[1..] == a[1..] + b;
      EncodeCallsAppend(a[1..], b, index);
    }
  }

  /** Interning more names leaves what was printed before as it is. */
  lemma {:induction false} EncodeCallsStable(calls: seq<Call>, t: Table, name: cstring)
    requires Indexed(calls, t.index)
    ensures EncodeCalls(calls, Intern(t, name).index) == EncodeCalls(calls, t.index)
    ensures Indexed(calls, Intern(t, name).index)
    decreases |calls|
  {
    if calls != [] {
      hide EncodeBegin, EncodeProperty;
      assert calls[0] in calls;
      EncodeCallsStable(calls[1..], t, name);
    }
  }

  lemma EncodeOneCall(c: Call, index: map<cstring, uint32>)
    ensures EncodeCalls([c], index) == EncodeCall(c, index)
  {
    hide EncodeCall;
    assert EncodeCalls([c][1..], index) == [];
  }

  lemma {:induction false} EncodeTree(items: Items, index: map<cstring, uint32>)
    ensures EncodeCalls(CallsOf(items), index) == EncodeItems(items, index)
    decreases items
  {
    hide EncodeBegin, EncodeProperty, Be32;
    match items
    case Nil =>
    case Property(name, data, rest) =>
      EncodeTree(rest, index);
      EncodeOneCall(SetProperty(name, data), index);
      EncodeCallsAppend([SetProperty(name, data)], CallsOf(rest), index);
    case Node(name, body, rest) =>
      EncodeTree(body, index);
      EncodeTree(rest, index);
      EncodeOneCall(BeginNode(name), index);
      EncodeOneCall(EndNode, index);
      EncodeCallsAppend([BeginNode(name)] + CallsOf(body) + [EndNode], CallsOf(rest), index);
      EncodeCallsAppend([BeginNode(name)] + CallsOf(body), [EndNode], index);
      EncodeCallsAppend([BeginNode(name)], CallsOf(body), index);
  }

  lemma {:induction false} TreeNamesIndexed(items: Items, index: map<cstring, uint32>)
    requires Indexed(CallsOf(items), index)
    ensures PropertyNames(items) <= index.Keys
    decreases items
  {
    match items
    case Nil =>
    case Property(name, data, rest) =>
      assert CallsOf(items)[0] in CallsOf(items);
      assert forall c :: c in CallsOf(rest) ==> c in CallsOf(items);
      TreeNamesIndexed(rest, index);
    case Node(name, body, rest) =>
      assert forall c :: c in CallsOf(body) || c in CallsOf(rest) ==> c in CallsOf(items);
      TreeNamesIndexed(body, index);
      TreeNamesIndexed(rest, index);
  }

  lemma {:induction false} EncodeReservationsAppend(rs: seq<Reservation>, r: Reservation)
    ensures EncodeReservations(rs + [r]) == EncodeReservations(rs) + (Be64(r.address) + Be64(r.size))
    decreases |rs|
  {
    hide Be64;
    if rs == [] {
      assert [r][1..] == [];
    } else {
      assert (rs + [r])[1..] == rs[1..] + [r];
      EncodeReservationsAppend(rs[1..], r);
    }
  }

  /** The strings block after a sequence of calls. */
  function TableOf(calls: seq<Call>): Table {
    if calls == [] then Table([], map[])
    else
      var last, t := calls[|calls| - 1], TableOf(calls[..|calls| - 1]);
      if last.SetProperty? then Intern(t, last.name) else t
  }

  lemma TableOfAppend(calls: seq<Call>, c: Call)
    ensures TableOf(calls + [c]) == if c.SetProperty? then Intern(TableOf(calls), c.name) else TableOf(calls)
  {
    hide Intern;
    assert (calls + [c])[..|calls|] == calls;
  }

  /** The size of the blob that a sequence of calls and reservations gives. */
  function BlobSize(calls: seq<Call>, reserved: seq<Reservation>): nat {
    var t := TableOf(calls);
    HEADER_SIZE + |EncodeReservations(reserved)| + 16 + |EncodeCalls(calls, t.index)| + 4 + |t.bytes|
  }

  // ----- the builder -----

  method PushBe32(v: seq<byte>, x: uint32) returns (r: seq<byte>)
    ensures r == v + Be32(x)
  {
    r := v + [x / 0x100_0000];
    r := r + [x / 0x1_0000 % 0x100];
    r := r + [x / 0x100 % 0x100];
    r := r + [x % 0x100];
    ShiftedBytes(x);
  }

  lemma ShiftedBytes(x: uint32)
    ensures Be32(x) == [x / 0x100_0000, x / 0x1_0000 % 0x100, x / 0x100 % 0x100, x % 0x100]
  {
    var high, low := x / TWO_16, x % TWO_16;
    assert x == high * 0x1_0000 + (low / 0x100) * 0x100 + low % 0x100;
    assert x / 0x100 == high * 0x100 + low / 0x100;
    assert x / 0x100_0000 == high / 0x100;
  }

  method PushBe64(v: seq<byte>, x: uint64) returns (r: seq<byte>)
    ensures r == v + Be64(x)
  {
    r := PushBe32(v, x / TWO_32);
    r := PushBe32(r, x % TWO_32);
  }

  method PushAll(v: seq<byte>, data: seq<byte>) returns (r: seq<byte>)
    ensures r == v + data
  {
    r := v;
    var i := 0;
    while i < |data|
      invariant 0 <= i <= |data|
      invariant r == v + data[..i]
    {
      assert data[..i + 1] == data[..i] + [data[i]];
      r := r + [data[i]];
      i := i + 1;
    }
    assert data[..|data|] == data;
  }

  method Pad4(v: seq<byte>) returns (r: seq<byte>)
    ensures r == v + Zeros(Align4(|v|) - |v|)
  {
    r := v;
    while |r| % 4 != 0
      invariant |v| <= |r| <= Align4(|v|)
      invariant r == v + Zeros(|r| - |v|)
      decreases Align4(|v|) - |r|
    {
      assert Zeros(|r| - |v|) + [0] == Zeros(|r| - |v| + 1);
      r := r + [0];
    }
  }

  /** `pad4` after content pushed at an aligned position appends that content's padding. */
  lemma PaddingOfSuffix(v: seq<byte>, content: seq<byte>)
    requires |v| % 4 == 0
    ensures Zeros(Align4(|v + content|) - |v + content|) == Padding(|content|)
  {
    AlignShift(|v|, |content|);
  }

  lemma PropertyPrinted(st: seq<byte>, off: uint32, data: value)
    requires |st| % 4 == 0
    ensures var all := st + Be32(PROP) + Be32(|data|) + Be32(off) + data;
            && all + Zeros(Align4(|all|) - |all|) == st + EncodeProperty(off, data)
            && |st + EncodeProperty(off, data)| % 4 == 0
  {
    hide Be32, Align4, Zeros;
    var head := st + Be32(PROP) + Be32(|data|) + Be32(off);
    assert head == st + (Be32(PROP) + Be32(|data|) + Be32(off));
    PaddingOfSuffix(head, data);
  }

  /** The ten header words, in the order of section 5.2. */
  method PushHeader(total: uint32, offSt: uint32, offStr: uint32, sizeStr: uint32, sizeSt: uint32)
    returns (blob: seq<byte>)
    ensures blob == Be32(MAGIC) + Be32(total) + Be32(offSt) + Be32(offStr) + Be32(HEADER_SIZE) + Be32(VERSION)
                    + Be32(COMPATIBLE_VERSION) + Be32(0) + Be32(sizeStr) + Be32(sizeSt)
  {
    hide Be32;
    blob := [];
    blob := PushBe32(blob, MAGIC);
    assert blob == Be32(MAGIC);
    blob := PushBe32(blob, total);
    blob := PushBe32(blob, offSt);
    blob := PushBe32(blob, offStr);
    blob := PushBe32(blob, HEADER_SIZE);
    blob := PushBe32(blob, VERSION);
    blob := PushBe32(blob, COMPATIBLE_VERSION);
    blob := PushBe32(blob, 0);
    blob := PushBe32(blob, sizeStr);
    blob := PushBe32(blob, sizeSt);
  }

  class Builder {
    var st: seq<byte>
    var str: seq<byte>
    var rsv: seq<byte>
    var strMap: map<cstring, uint32>
    /** The structure calls and reservations made so far. */
    ghost var calls: seq<Call>
    ghost var reserved: seq<Reservation>

    ghost function Strings(): Table
      reads this
    {
      Table(str, strMap)
    }

    ghost predicate Valid()
      reads this
    {
      |st| % 4 == 0 && Sound(Strings()) && Indexed(calls, strMap) && Strings() == TableOf(calls)
      && st == EncodeCalls(calls, strMap)
      && rsv == EncodeReservations(reserved)
    }

    constructor ()
      ensures Valid() && calls == [] && reserved == []
    {
      st, str, rsv, strMap, calls, reserved := [], [], [], map[], [], [];
    }

    method StrOff(name: cstring) returns (off: uint32)
      modifies `str, `strMap
      ensures Strings() == Intern(old(Strings()), name)
      ensures off == strMap[name]
    {
      if name in strMap {
        return strMap[name];
      }
      off := U32(|str|);
      str := PushAll(str, name);
      str := str + [0];
      strMap := strMap[name := off];
    }

    method BeginNode(name: cstring)
      requires Valid()
      modifies this
      ensures Valid() && reserved == old(reserved)
      ensures calls == old(calls) + [Call.BeginNode(name)]
    {
      hide Be32, EncodeCalls, Align4, Zeros, Sound, TableOf;
      ghost var c := Call.BeginNode(name);
      TableOfAppend(calls, c);
      EncodeCallsAppend(calls, [c], strMap);
      EncodeOneCall(c, strMap);
      PaddingOfSuffix(st + Be32(BEGIN_NODE), name + [0]);
      ghost var st0 := st;
      st := PushBe32(st, BEGIN_NODE);
      st := PushAll(st, name);
      st := st + [0];
      assert st == (st0 + Be32(BEGIN_NODE)) + (name + [0]);
      st := Pad4(st);
      calls := calls + [c];
    }

    method EndNode()
      requires Valid()
      modifies this
      ensures Valid() && reserved == old(reserved)
      ensures calls == old(calls) + [Call.EndNode]
    {
      hide TableOf;
      ghost var c := Call.EndNode;
      TableOfAppend(calls, c);
      EncodeCallsAppend(calls, [c], strMap);
      EncodeOneCall(c, strMap);
      st := PushBe32(st, END_NODE);
      calls := calls + [c];
    }

    method Prop(name: cstring, data: value)
      requires Valid()
      modifies this
      ensures Valid() && reserved == old(reserved)
      ensures calls == old(calls) + [SetProperty(name, data)]
    {
      hide Be32, EncodeCalls, EncodeBegin, EncodeProperty, Align4, Zeros, Sound, Intern, TableOf;
      ghost var c := SetProperty(name, data);
      TableOfAppend(calls, c);
      ghost var st0 := st;
      InternIsSound(Strings(), name);
      EncodeCallsStable(calls, Strings(), name);
      st := PushBe32(st, PROP);
      st := PushBe32(st, |data|);
      var off := StrOff(name);
      st := PushBe32(st, off);
      st := PushAll(st, data);
      st := Pad4(st);
      PropertyPrinted(st0, off, data);
      EncodeCallsAppend(calls, [c], strMap);
      EncodeOneCall(c, strMap);
      calls := calls + [c];
    }

    method Reserve(address: uint64, size: uint64)
      requires Valid()
      modifies this
      ensures Valid() && calls == old(calls)
      ensures reserved == old(reserved) + [Reservation(address, size)]
    {
      EncodeReservationsAppend(reserved, Reservation(address, size));
      ghost var rsv0 := rsv;
      rsv := PushBe64(rsv, address);
      rsv := PushBe64(rsv, size);
      reserved := reserved + [Reservation(address, size)];
      assert rsv == rsv0 + (Be64(address) + Be64(size));
    }

    /** Closes both blocks and lays out the blob. Called once, as it appends to them. */
    method Build() returns (blob: seq<byte>)
      requires Valid()
      modifies this
      ensures Balanced(old(calls), 0) ==>
                ParseDtb(blob) == if |blob| < TWO_32
                                  then Some(Dtb(0, BeforeTerminator(old(reserved)), TreeOf(old(calls)))) else None
      ensures |blob| == BlobSize(old(calls), old(reserved))
    {
      hide TableOf, Be32, Be64, U32, Sound, Indexed, EncodeCalls, EncodeItems, EncodeReservations, ParseDtb, Balanced;
      st := PushBe32(st, END);
      ghost var rsv0 := rsv;
      rsv := PushBe64(rsv, 0);
      rsv := PushBe64(rsv, 0);
      assert rsv == rsv0 + (Be64(0) + Be64(0));
      var offSt := U32(HEADER_SIZE + U32(|rsv|));
      var offStr := U32(offSt + U32(|st|));
      var total := U32(offStr + U32(|str|));
      OffsetsWrap(|rsv|, |st|, |str|);
      blob := PushHeader(total, offSt, offStr, U32(|str|), U32(|st|));
      blob := blob + rsv;
      blob := blob + st;
      blob := blob + str;
      if Balanced(old(calls), 0) {
        BalancedIffTree(old(calls));
        EncodeTree(TreeOf(old(calls)), strMap);
        TreeNamesIndexed(TreeOf(old(calls)), strMap);
        BlobRoundTrip(old(reserved), TreeOf(old(calls)), Strings(), rsv, st);
      }
    }
  }

  lemma OffsetsWrap(a: nat, b: nat, c: nat)
    ensures U32(HEADER_SIZE + U32(a)) == U32(HEADER_SIZE + a)
    ensures U32(U32(HEADER_SIZE + a) + U32(b)) == U32(HEADER_SIZE + a + b)
    ensures U32(U32(HEADER_SIZE + a + b) + U32(c)) == U32(HEADER_SIZE + a + b + c)
  {
    hide U32;
    U32Step(a, HEADER_SIZE);
    U32Step(b, HEADER_SIZE + a);
    U32Step(c, HEADER_SIZE + a + b);
    U32Step(b, U32(HEADER_SIZE + a));
    U32Step(c, U32(HEADER_SIZE + a + b));
    U32Step(HEADER_SIZE + a, b);
    U32Step(HEADER_SIZE + a + b, c);
  }
}
