/** `DTB::generate` of src/firmware/arm64/dtb.cpp: the blob in guest RAM parses to the
    devicetree of the machine, for every configuration. */
module DeviceTree {
  import opened Bytes
  import opened FdtFormat
  import opened FdtBuilder
  import GuestMemory

  const DTB_LOAD: uint64 := 0x4000_0000
  const KERNEL_LOAD: uint64 := 0x4040_0000
  const ROOM := KERNEL_LOAD - DTB_LOAD
  const PH_GIC: uint32 := 1
  const PH_CLOCK: uint32 := 2
  const GIC_DIST: uint32 := 0x0800_0000
  const GIC_DIST_SIZE: uint32 := 0x0001_0000
  const GIC_REDIST: uint32 := 0x080A_0000
  const GIC_REDIST_STRIDE: uint32 := 0x0002_0000
  const PAGE: uint32 := 0x1000
  const GICR_SIZE: uint32 := 8 * GIC_REDIST_STRIDE
  const VIRTIO_STRIDE: uint32 := 0x200

  datatype Context = Context(
    cmdline: cstring, initrdGpa: uint64, initrdSize: uint64, ramGpa: uint64, ramSize: uint64,
    vcpus: uint32, gpu: bool, keyboard: bool, tablet: bool)

  // ----- property values -----

  /** The bytes of an ASCII literal. */
  function Text(s: string): cstring {
    seq(|s|, i requires 0 <= i < |s| => Octet(s[i]))
  }

  function Octet(c: char): (b: byte)
    ensures b != 0
  {
    if 0 < c as int < 128 then c as int else 63
  }

  /** A buffer as a property value: the code casts its size to 32 bits. */
  function Sized(b: seq<byte>): value {
    b[..U32(|b|)]
  }

  function Str(s: cstring): value {
    Sized(s + [0])
  }

  function Terminated(ss: seq<string>): seq<byte> {
    if ss == [] then [] else Text(ss[0]) + [0] + Terminated(ss[1..])
  }

  function StrList(ss: seq<string>): value {
    Sized(Terminated(ss))
  }

  function BigEndian(cs: seq<uint32>): seq<byte> {
    if cs == [] then [] else Be32(cs[0]) + BigEndian(cs[1..])
  }

  function Cells(cs: seq<uint32>): value {
    Sized(BigEndian(cs))
  }

  function Digit(d: nat): (b: byte)
    requires d < 16
    ensures b != 0
  {
    if d < 10 then 48 + d else 87 + d
  }

  /** What `%u` and `%llx` print. */
  function Number(n: nat, radix: nat): (t: seq<byte>)
    requires 2 <= radix <= 16
    ensures 0 !in t
    decreases n
  {
    if n < radix then [Digit(n)] else Number(n / radix, radix) + [Digit(n % radix)]
  }

  // ----- the intended tree -----

  /** `a` followed by `b` at the same level. */
  function Then(a: Items, b: Items): Items {
    match a
    case Nil => b
    case Property(name, data, rest) => Property(name, data, Then(rest, b))
    case Node(name, body, rest) => Node(name, body, Then(rest, b))
  }

  type Prop = (string, value)

  function Props(ps: seq<Prop>): Items {
    if ps == [] then Nil else Property(Text(ps[0].0), ps[0].1, Props(ps[1..]))
  }

  datatype Subnode = Subnode(name: cstring, body: Items)

  function Subnodes(ns: seq<Subnode>): Items {
    if ns == [] then Nil else Node(ns[0].name, ns[0].body, Subnodes(ns[1..]))
  }

  function Leaf(name: string, ps: seq<Prop>): Subnode {
    Subnode(Text(name), Props(ps))
  }

  function RootProps(): seq<Prop> {
    [("#address-cells", Be32(2)), ("#size-cells", Be32(2)), ("interrupt-parent", Be32(PH_GIC)),
     ("compatible", StrList(["linux,dummy-virt"])), ("model", Str(Text("virtualization-vm")))]
  }

  function Initrd(ctx: Context): seq<Prop> {
    if ctx.initrdSize > 0 then
      [("linux,initrd-start", Be64(ctx.initrdGpa)),
       ("linux,initrd-end", Be64((ctx.initrdGpa + ctx.initrdSize) % TWO_64))]
    else []
  }

  function ChosenProps(ctx: Context): seq<Prop> {
    [("bootargs", Str(ctx.cmdline)), ("stdout-path", Str(Text("/pl011@9000000")))] + Initrd(ctx)
  }

  function Chosen(ctx: Context): Subnode {
    Leaf("chosen", ChosenProps(ctx))
  }

  function MemoryProps(ctx: Context): seq<Prop> {
    [("device_type", Str(Text("memory"))), ("reg", Be64(ctx.ramGpa) + Be64(ctx.ramSize))]
  }

  function Memory(ctx: Context): Subnode {
    Subnode(Text("memory@") + Number(ctx.ramGpa, 16),
            Props(MemoryProps(ctx)))
  }

  function PsciProps(): seq<Prop> {
    [("compatible", StrList(["arm,psci-1.0", "arm,psci-0.2", "arm,psci"])),
      ("method", Str(Text("hvc")))]
  }

  function Psci(): Subnode {
    Leaf("psci", PsciProps())
  }

  function CpuProps(i: uint32): seq<Prop> {
    [("compatible", StrList(["arm,cortex-a72", "arm,armv8"])), ("device_type", Str(Text("cpu"))),
      ("enable-method", Str(Text("psci"))), ("reg", Be32(i))]
  }

  function Cpu(i: uint32): Subnode {
    Subnode(Text("cpu@") + Number(i, 10),
            Props(CpuProps(i)))
  }

  function CpuNodes(n: uint32): (ns: seq<Subnode>)
    ensures |ns| == n && forall i :: 0 <= i < n ==> ns[i] == Cpu(i)
  {
    seq(n, i requires 0 <= i < n => Cpu(i))
  }

  function Cpus(n: uint32): Subnode {
    Subnode(Text("cpus"), Then(Props([("#address-cells", Be32(1)), ("#size-cells", Be32(0))]), Subnodes(CpuNodes(n))))
  }

  /** A private peripheral interrupt, as three cells. */
  function Ppi(n: uint32): seq<uint32> {
    [1, n, 0xf04]
  }

  function TimerProps(): seq<Prop> {
    [("compatible", StrList(["arm,armv8-timer"])),
      ("interrupts", Cells(Ppi(13) + Ppi(14) + Ppi(11) + Ppi(10))),
      ("always-on", [])]
  }

  function Timer(): Subnode {
    Leaf("timer", TimerProps())
  }

  function IntcProps(): seq<Prop> {
    [("compatible", StrList(["arm,gic-v3"])), ("#interrupt-cells", Be32(3)),
      ("interrupt-controller", []),
      ("reg", Cells([0, GIC_DIST, 0, GIC_DIST_SIZE, 0, GIC_REDIST, 0, GICR_SIZE])),
      ("interrupts", Cells(Ppi(9))), ("phandle", Be32(PH_GIC)),
      ("linux,phandle", Be32(PH_GIC))]
  }

  function Intc(): Subnode {
    Leaf("intc@8000000", IntcProps())
  }

  function ApbClkProps(): seq<Prop> {
    [("compatible", StrList(["fixed-clock"])), ("#clock-cells", Be32(0)),
      ("clock-frequency", Be32(24000000)), ("clock-output-names", Str(Text("clk24mhz"))),
      ("phandle", Be32(PH_CLOCK)), ("linux,phandle", Be32(PH_CLOCK))]
  }

  function ApbClk(): Subnode {
    Leaf("apb-clk", ApbClkProps())
  }

  /** A memory-mapped ARM peripheral with its shared interrupt and clocks. */
  function PeripheralProps(compatible: seq<string>, gpa: uint32, spi: uint32, clocks: seq<uint32>,
                           clockNames: seq<string>): seq<Prop> {
    [("compatible", StrList(compatible)), ("reg", Cells([0, gpa, 0, PAGE])),
      ("interrupts", Cells([0, spi, 4])), ("clocks", Cells(clocks)), ("clock-names", StrList(clockNames))]
  }

  function Peripheral(name: string, compatible: seq<string>, gpa: uint32, spi: uint32, clocks: seq<uint32>,
                      clockNames: seq<string>): Subnode {
    Leaf(name, PeripheralProps(compatible, gpa, spi, clocks, clockNames))
  }

  function VirtioProps(gpa: uint32, spi: uint32): seq<Prop> {
    [("compatible", StrList(["virtio,mmio"])), ("reg", Cells([0, gpa, 0, VIRTIO_STRIDE])),
      ("interrupts", Cells([0, spi, 1])), ("dma-coherent", [])]
  }

  function Virtio(name: string, gpa: uint32, spi: uint32): Subnode {
    Leaf(name, VirtioProps(gpa, spi))
  }

  function Pl011(): Subnode {
    Peripheral("pl011@9000000", ["arm,pl011", "arm,primecell"], 0x0900_0000, 1, [PH_CLOCK, PH_CLOCK],
               ["uartclk", "apb_pclk"])
  }

  function Pl031(): Subnode {
    Peripheral("pl031@9010000", ["arm,pl031", "arm,primecell"], 0x0901_0000, 2, [PH_CLOCK], ["apb_pclk"])
  }

  const CONSOLE := Virtio("virtio_mmio@a000000", 0x0A00_0000, 16)
  const BLOCK := Virtio("virtio_mmio@a000200", 0x0A00_0200, 17)
  const NET := Virtio("virtio_mmio@a000400", 0x0A00_0400, 19)
  const GPU := Virtio("virtio_mmio@a000600", 0x0A00_0600, 20)
  const KEYBOARD := Virtio("virtio_mmio@a000800", 0x0A00_0800, 21)
  const TABLET := Virtio("virtio_mmio@a000a00", 0x0A00_0A00, 22)

  function If(present: bool, n: Subnode): seq<Subnode> {
    if present then [n] else []
  }

  function Platform(ctx: Context): seq<Subnode> {
    [Chosen(ctx), Memory(ctx), Psci(), Cpus(ctx.vcpus), Timer(), Intc(), ApbClk(), Pl011(), Pl031()]
  }

  function Attached(ctx: Context): seq<Subnode> {
    [CONSOLE, BLOCK, NET] + If(ctx.gpu, GPU) + If(ctx.keyboard, KEYBOARD) + If(ctx.tablet, TABLET)
  }

  function IntendedTree(ctx: Context): Items {
    Node([], Then(Props(RootProps()), Subnodes(Platform(ctx) + Attached(ctx))), Nil)
  }

  // ----- the intended tree is a devicetree -----

  ghost predicate WellOrdered(ns: seq<Subnode>) {
    forall n :: n in ns ==> PropertiesFirst(n.body, false)
  }

  lemma {:induction false} SubnodesOrdered(ns: seq<Subnode>, seen: bool)
    requires WellOrdered(ns)
    ensures PropertiesFirst(Subnodes(ns), seen)
    decreases |ns|
  {
    if ns != [] {
      assert ns[0] in ns;
      SubnodesOrdered(ns[1..], true);
    }
  }

  lemma {:induction false} PropsThenSubnodes(ps: seq<Prop>, ns: seq<Subnode>)
    requires WellOrdered(ns)
    ensures PropertiesFirst(Then(Props(ps), Subnodes(ns)), false)
    decreases |ps|
  {
    if ps == [] {
      SubnodesOrdered(ns, false);
    } else {
      PropsThenSubnodes(ps[1..], ns);
    }
  }

  lemma {:induction false} PropsOrdered(ps: seq<Prop>)
    ensures PropertiesFirst(Props(ps), false)
    decreases |ps|
  {
    if ps != [] {
      PropsOrdered(ps[1..]);
    }
  }

  lemma FirmwareOrdered(ctx: Context)
    ensures WellOrdered([Chosen(ctx), Memory(ctx), Psci()]) && WellOrdered([Cpus(ctx.vcpus)])
  {
    hide Text, StrList, Cells, Str, Number, Be32, Be64, Props, Subnodes, CpuNodes, Then, PropertiesFirst, Ppi;
    forall ps: seq<Prop> {
      PropsOrdered(ps);
    }
    PropsThenSubnodes([("#address-cells", Be32(1)), ("#size-cells", Be32(0))], CpuNodes(ctx.vcpus));
  }

  lemma PeripheralsOrdered()
    ensures WellOrdered([Timer(), Intc(), ApbClk(), Pl011(), Pl031()])
  {
    hide Text, StrList, Cells, Str, Number, Be32, Be64, Props, Subnodes, CpuNodes, Then, PropertiesFirst, Ppi;
    forall ps: seq<Prop> {
      PropsOrdered(ps);
    }
  }

  lemma PlatformOrdered(ctx: Context)
    ensures WellOrdered(Platform(ctx))
  {
    hide Chosen, Memory, Psci, Cpus, Timer, Intc, ApbClk, Pl011, Pl031, PropertiesFirst;
    FirmwareOrdered(ctx);
    PeripheralsOrdered();
    assert Platform(ctx) == [Chosen(ctx), Memory(ctx), Psci()] + [Cpus(ctx.vcpus)]
                            + [Timer(), Intc(), ApbClk(), Pl011(), Pl031()];
  }

  lemma AttachedOrdered(ctx: Context)
    ensures WellOrdered(Attached(ctx))
  {
    hide Text, StrList, Cells, Props, PropertiesFirst;
    forall ps: seq<Prop> {
      PropsOrdered(ps);
    }
  }

  /** The intended tree has one nameless root, and properties precede subnodes at every
      level, as section 5.4.2 of the Devicetree Specification v0.4 asks. */
  lemma IntendedIsDeviceTree(ctx: Context)
    ensures IsDeviceTree(IntendedTree(ctx))
  {
    hide Platform, Attached, PropertiesFirst, RootProps, Then, Props;
    PlatformOrdered(ctx);
    AttachedOrdered(ctx);
    PropsThenSubnodes(RootProps(), Platform(ctx) + Attached(ctx));
    RootFirst(IntendedTree(ctx));
  }

  lemma RootFirst(root: Items)
    requires root.Node? && root.name == [] && root.rest == Nil && PropertiesFirst(root.body, false)
    ensures IsDeviceTree(root)
  {}

  // ----- the calls of a tree -----

  lemma {:induction false} CallsThen(a: Items, b: Items)
    ensures CallsOf(Then(a, b)) == CallsOf(a) + CallsOf(b)
    decreases a
  {
    match a
    case Nil =>
    case Property(_, _, rest) => CallsThen(rest, b);
    case Node(_, _, rest) => CallsThen(rest, b);
  }

  lemma {:induction false} PropsAppend(ps: seq<Prop>, p: Prop)
    ensures CallsOf(Props(ps + [p])) == CallsOf(Props(ps)) + [SetProperty(Text(p.0), p.1)]
    decreases |ps|
  {
    if ps == [] {
      assert [p][1..] == [] && CallsOf(Props([])) == [];
    } else {
      assert (ps + [p])[1..] == ps[1..] + [p];
      PropsAppend(ps[1..], p);
    }
  }

  lemma {:induction false} SubnodesAppend(ns: seq<Subnode>, n: Subnode)
    ensures CallsOf(Subnodes(ns + [n]))
            == CallsOf(Subnodes(ns)) + [Call.BeginNode(n.name)] + CallsOf(n.body) + [EndNode]
    decreases |ns|
  {
    if ns == [] {
      assert [n][1..] == [] && CallsOf(Subnodes([])) == [];
    } else {
      assert (ns + [n])[1..] == ns[1..] + [n];
      SubnodesAppend(ns[1..], n);
    }
  }

  lemma TreeOfCalls(items: Items)
    ensures Balanced(CallsOf(items), 0) && TreeOf(CallsOf(items)) == items
  {
    CallsBalanced(items, [], 0);
    assert CallsOf(items) + [] == CallsOf(items);
    DescribeCalls(items, []);
  }

  lemma {:induction false} DescribeCalls(items: Items, after: seq<Call>)
    requires after == [] || after[0] == EndNode
    ensures Describe(CallsOf(items) + after) == (items, after)
    decreases items
  {
    match items
    case Nil => assert CallsOf(items) + after == after;
    case Property(name, data, rest) =>
      assert (CallsOf(items) + after)[1..] == CallsOf(rest) + after;
      DescribeCalls(rest, after);
    case Node(name, body, rest) =>
      var closing := [EndNode] + (CallsOf(rest) + after);
      assert (CallsOf(items) + after)[1..] == CallsOf(body) + closing;
      DescribeCalls(body, closing);
      assert closing[1..] == CallsOf(rest) + after;
      DescribeCalls(rest, after);
  }

  // ----- emission -----

  method JoinStrings(ss: seq<string>) returns (buf: seq<byte>)
    ensures buf == Terminated(ss)
  {
    hide Text;
    buf := [];
    for i := 0 to |ss|
      invariant Terminated(ss) == buf + Terminated(ss[i..])
    {
      ghost var rest := ss[i..];
      assert rest[1..] == ss[i + 1..];
      assert Terminated(rest) == Text(ss[i]) + [0] + Terminated(rest[1..]);
      ghost var buf0 := buf;
      buf := PushAll(buf, Text(ss[i]));
      buf := buf + [0];
      assert buf == buf0 + (Text(ss[i]) + [0]);
    }
  }

  method JoinCells(cs: seq<uint32>) returns (buf: seq<byte>)
    ensures buf == BigEndian(cs)
  {
    hide Be32;
    buf := [];
    for i := 0 to |cs|
      invariant BigEndian(cs) == buf + BigEndian(cs[i..])
    {
      ghost var rest := cs[i..];
      assert rest[1..] == cs[i + 1..];
      assert BigEndian(rest) == Be32(cs[i]) + BigEndian(rest[1..]);
      buf := PushBe32(buf, cs[i]);
    }
  }

  /** The builder has printed `before`, then the properties `ps`. */
  ghost predicate AfterProps(b: Builder, before: seq<Call>, ps: seq<Prop>)
    reads b
  {
    b.Valid() && b.calls == before + CallsOf(Props(ps))
  }

  method PropBytes(b: Builder, name: string, data: seq<byte>, ghost before: seq<Call>, ghost ps: seq<Prop>)
    returns (ghost ps': seq<Prop>)
    requires AfterProps(b, before, ps)
    modifies b
    ensures AfterProps(b, before, ps') && ps' == ps + [(name, Sized(data))] && b.reserved == old(b.reserved)
  {
    hide Builder.Valid, Sized;
    ps' := ps + [(name, Sized(data))];
    PropsAppend(ps, (name, Sized(data)));
    b.Prop(Text(name), Sized(data));
  }

  method PropU32(b: Builder, name: string, v: uint32, ghost before: seq<Call>, ghost ps: seq<Prop>)
    returns (ghost ps': seq<Prop>)
    requires AfterProps(b, before, ps)
    modifies b
    ensures AfterProps(b, before, ps') && ps' == ps + [(name, Be32(v))] && b.reserved == old(b.reserved)
  {
    hide Be32, AfterProps;
    ShiftedBytes(v);
    var data := [v / 0x100_0000, v / 0x1_0000 % 0x100, v / 0x100 % 0x100, v % 0x100];
    assert U32(4) == 4;
    assert Sized(data) == data;
    ps' := PropBytes(b, name, data, before, ps);
  }

  method PropStr(b: Builder, name: string, s: cstring, ghost before: seq<Call>, ghost ps: seq<Prop>)
    returns (ghost ps': seq<Prop>)
    requires AfterProps(b, before, ps)
    modifies b
    ensures AfterProps(b, before, ps') && ps' == ps + [(name, Str(s))] && b.reserved == old(b.reserved)
  {
    ps' := PropBytes(b, name, s + [0], before, ps);
  }

  method PropStrList(b: Builder, name: string, ss: seq<string>, ghost before: seq<Call>, ghost ps: seq<Prop>)
    returns (ghost ps': seq<Prop>)
    requires AfterProps(b, before, ps)
    modifies b
    ensures AfterProps(b, before, ps') && ps' == ps + [(name, StrList(ss))] && b.reserved == old(b.reserved)
  {
    var buf := JoinStrings(ss);
    ps' := PropBytes(b, name, buf, before, ps);
  }

  method PropCells(b: Builder, name: string, cs: seq<uint32>, ghost before: seq<Call>, ghost ps: seq<Prop>)
    returns (ghost ps': seq<Prop>)
    requires AfterProps(b, before, ps)
    modifies b
    ensures AfterProps(b, before, ps') && ps' == ps + [(name, Cells(cs))] && b.reserved == old(b.reserved)
  {
    var buf := JoinCells(cs);
    ps' := PropBytes(b, name, buf, before, ps);
  }

  method PropEmpty(b: Builder, name: string, ghost before: seq<Call>, ghost ps: seq<Prop>)
    returns (ghost ps': seq<Prop>)
    requires AfterProps(b, before, ps)
    modifies b
    ensures AfterProps(b, before, ps') && ps' == ps + [(name, [])] && b.reserved == old(b.reserved)
  {
    ps' := PropBytes(b, name, [], before, ps);
  }

  /** The builder has printed `before`, then the subnodes `ns`. */
  ghost predicate AfterNodes(b: Builder, before: seq<Call>, ns: seq<Subnode>)
    reads b
  {
    b.Valid() && b.calls == before + CallsOf(Subnodes(ns))
  }

  method OpenNode(b: Builder, name: cstring, ghost before: seq<Call>, ghost ns: seq<Subnode>)
    returns (ghost inside: seq<Call>, ghost ps: seq<Prop>)
    requires AfterNodes(b, before, ns)
    modifies b
    ensures ps == [] && AfterProps(b, inside, ps) && b.reserved == old(b.reserved)
    ensures inside == before + CallsOf(Subnodes(ns)) + [Call.BeginNode(name)]
  {
    hide Builder.Valid, Subnodes;
    b.BeginNode(name);
    inside, ps := b.calls, [];
    assert CallsOf(Props([])) == [];
  }

  method CloseNode(b: Builder, name: cstring, ghost body: Items, ghost before: seq<Call>, ghost ns: seq<Subnode>)
    returns (ghost ns': seq<Subnode>)
    requires b.Valid()
    requires b.calls == before + CallsOf(Subnodes(ns)) + [Call.BeginNode(name)] + CallsOf(body)
    modifies b
    ensures AfterNodes(b, before, ns') && ns' == ns + [Subnode(name, body)] && b.reserved == old(b.reserved)
  {
    hide Builder.Valid, Subnodes, CallsOf;
    SubnodesAppend(ns, Subnode(name, body));
    b.EndNode();
    ns' := ns + [Subnode(name, body)];
  }

  method CloseLeaf(b: Builder, name: cstring, ghost ps: seq<Prop>, ghost inside: seq<Call>,
                   ghost before: seq<Call>, ghost ns: seq<Subnode>)
    returns (ghost ns': seq<Subnode>)
    requires AfterProps(b, inside, ps)
    requires inside == before + CallsOf(Subnodes(ns)) + [Call.BeginNode(name)]
    modifies b
    ensures AfterNodes(b, before, ns') && ns' == ns + [Subnode(name, Props(ps))] && b.reserved == old(b.reserved)
  {
    hide Builder.Valid, Subnodes, CallsOf, Props;
    ns' := CloseNode(b, name, Props(ps), before, ns);
  }

  method EmitChosen(b: Builder, ctx: Context, ghost before: seq<Call>, ghost ns: seq<Subnode>)
    returns (ghost ns': seq<Subnode>)
    requires AfterNodes(b, before, ns)
    modifies b
    ensures AfterNodes(b, before, ns') && ns' == ns + [Chosen(ctx)] && b.reserved == old(b.reserved)
  {
    hide AfterNodes, AfterProps, Props, Subnodes, CallsOf, Text, Str, StrList, Cells, Be32, Be64, Number;
    ghost var i, ps := OpenNode(b, Text("chosen"), before, ns);
    ps := PropStr(b, "bootargs", ctx.cmdline, i, ps);
    ps := PropStr(b, "stdout-path", Text("/pl011@9000000"), i, ps);
    if ctx.initrdSize > 0 {
      var start := ctx.initrdGpa;
      var end := (start + ctx.initrdSize) % TWO_64;
      DoubleCell(start);
      DoubleCell(end);
      ps := PropCells(b, "linux,initrd-start", [start / TWO_32, start % TWO_32], i, ps);
      ps := PropCells(b, "linux,initrd-end", [end / TWO_32, end % TWO_32], i, ps);
    }
    assert ps == ChosenProps(ctx);
    ns' := CloseLeaf(b, Text("chosen"), ps, i, before, ns);
  }

  method EmitMemory(b: Builder, ctx: Context, ghost before: seq<Call>, ghost ns: seq<Subnode>)
    returns (ghost ns': seq<Subnode>)
    requires AfterNodes(b, before, ns)
    modifies b
    ensures AfterNodes(b, before, ns') && ns' == ns + [Memory(ctx)] && b.reserved == old(b.reserved)
  {
    hide AfterNodes, AfterProps, Props, Subnodes, CallsOf, Text, Str, StrList, Cells, Be32, Be64, Number;
    var name := Text("memory@") + Number(ctx.ramGpa, 16);
    ghost var i, ps := OpenNode(b, name, before, ns);
    ps := PropStr(b, "device_type", Text("memory"), i, ps);
    FourCells(ctx.ramGpa, ctx.ramSize);
    ps := PropCells(b, "reg", [ctx.ramGpa / TWO_32, ctx.ramGpa % TWO_32, ctx.ramSize / TWO_32, ctx.ramSize % TWO_32],
                    i, ps);
    assert ps == MemoryProps(ctx);
    ns' := CloseLeaf(b, name, ps, i, before, ns);
  }

  method EmitPsci(b: Builder, ghost before: seq<Call>, ghost ns: seq<Subnode>)
    returns (ghost ns': seq<Subnode>)
    requires AfterNodes(b, before, ns)
    modifies b
    ensures AfterNodes(b, before, ns') && ns' == ns + [Psci()] && b.reserved == old(b.reserved)
  {
    hide AfterNodes, AfterProps, Props, Subnodes, CallsOf, Text, Str, StrList, Cells, Be32, Be64, Number;
    ghost var i, ps := OpenNode(b, Text("psci"), before, ns);
    ps := PropStrList(b, "compatible", ["arm,psci-1.0", "arm,psci-0.2", "arm,psci"], i, ps);
    ps := PropStr(b, "method", Text("hvc"), i, ps);
    assert ps == PsciProps();
    ns' := CloseLeaf(b, Text("psci"), ps, i, before, ns);
  }

  method EmitCpu(b: Builder, n: uint32, ghost before: seq<Call>, ghost ns: seq<Subnode>)
    returns (ghost ns': seq<Subnode>)
    requires AfterNodes(b, before, ns)
    modifies b
    ensures AfterNodes(b, before, ns') && ns' == ns + [Cpu(n)] && b.reserved == old(b.reserved)
  {
    hide AfterNodes, AfterProps, Props, Subnodes, CallsOf, Text, Str, StrList, Cells, Be32, Be64, Number;
    ghost var i, ps := OpenNode(b, Text("cpu@") + Number(n, 10), before, ns);
    ps := PropStrList(b, "compatible", ["arm,cortex-a72", "arm,armv8"], i, ps);
    ps := PropStr(b, "device_type", Text("cpu"), i, ps);
    ps := PropStr(b, "enable-method", Text("psci"), i, ps);
    ps := PropU32(b, "reg", n, i, ps);
    assert ps == CpuProps(n);
    ns' := CloseLeaf(b, Text("cpu@") + Number(n, 10), ps, i, before, ns);
  }

  method EmitCpus(b: Builder, ctx: Context, ghost before: seq<Call>, ghost ns: seq<Subnode>)
    returns (ghost ns': seq<Subnode>)
    requires AfterNodes(b, before, ns)
    modifies b
    ensures AfterNodes(b, before, ns') && ns' == ns + [Cpus(ctx.vcpus)] && b.reserved == old(b.reserved)
  {
    hide Builder.Valid, Props, Subnodes, CallsOf, Text, Be32, Cpu;
    ghost var i, ps := OpenNode(b, Text("cpus"), before, ns);
    ps := PropU32(b, "#address-cells", 1, i, ps);
    ps := PropU32(b, "#size-cells", 0, i, ps);
    ghost var head := b.calls;
    ghost var cpus: seq<Subnode> := [];
    NoSubnodes();
    for k := 0 to ctx.vcpus
      invariant AfterNodes(b, head, cpus) && b.reserved == old(b.reserved)
      invariant cpus == CpuNodes(k)
    {
      cpus := EmitCpu(b, k, head, cpus);
      assert cpus == CpuNodes(k + 1);
    }
    CallsThen(Props(ps), Subnodes(cpus));
    assert ps == [("#address-cells", Be32(1)), ("#size-cells", Be32(0))];
    ns' := CloseNode(b, Text("cpus"), Then(Props(ps), Subnodes(cpus)), before, ns);
  }

  lemma NoSubnodes()
    ensures CallsOf(Subnodes([])) == []
  {}

  method EmitTimer(b: Builder, ghost before: seq<Call>, ghost ns: seq<Subnode>)
    returns (ghost ns': seq<Subnode>)
    requires AfterNodes(b, before, ns)
    modifies b
    ensures AfterNodes(b, before, ns') && ns' == ns + [Timer()] && b.reserved == old(b.reserved)
  {
    hide AfterNodes, AfterProps, Props, Subnodes, CallsOf, Text, Str, StrList, Cells, Be32, Be64, Number;
    ghost var i, ps := OpenNode(b, Text("timer"), before, ns);
    ps := PropStrList(b, "compatible", ["arm,armv8-timer"], i, ps);
    ps := PropCells(b, "interrupts", Ppi(13) + Ppi(14) + Ppi(11) + Ppi(10), i, ps);
    ps := PropEmpty(b, "always-on", i, ps);
    assert ps == TimerProps();
    ns' := CloseLeaf(b, Text("timer"), ps, i, before, ns);
  }

  method EmitIntc(b: Builder, ghost before: seq<Call>, ghost ns: seq<Subnode>)
    returns (ghost ns': seq<Subnode>)
    requires AfterNodes(b, before, ns)
    modifies b
    ensures AfterNodes(b, before, ns') && ns' == ns + [Intc()] && b.reserved == old(b.reserved)
  {
    hide AfterNodes, AfterProps, Props, Subnodes, CallsOf, Text, Str, StrList, Cells, Be32, Be64, Number;
    ghost var i, ps := OpenNode(b, Text("intc@8000000"), before, ns);
    ps := PropStrList(b, "compatible", ["arm,gic-v3"], i, ps);
    ps := PropU32(b, "#interrupt-cells", 3, i, ps);
    ps := PropEmpty(b, "interrupt-controller", i, ps);
    ps := PropCells(b, "reg", [0, GIC_DIST, 0, GIC_DIST_SIZE, 0, GIC_REDIST, 0, GICR_SIZE], i, ps);
    ps := PropCells(b, "interrupts", Ppi(9), i, ps);
    ps := PropU32(b, "phandle", PH_GIC, i, ps);
    ps := PropU32(b, "linux,phandle", PH_GIC, i, ps);
    assert ps == IntcProps();
    ns' := CloseLeaf(b, Text("intc@8000000"), ps, i, before, ns);
  }

  method EmitApbClk(b: Builder, ghost before: seq<Call>, ghost ns: seq<Subnode>)
    returns (ghost ns': seq<Subnode>)
    requires AfterNodes(b, before, ns)
    modifies b
    ensures AfterNodes(b, before, ns') && ns' == ns + [ApbClk()] && b.reserved == old(b.reserved)
  {
    hide AfterNodes, AfterProps, Props, Subnodes, CallsOf, Text, Str, StrList, Cells, Be32, Be64, Number;
    ghost var i, ps := OpenNode(b, Text("apb-clk"), before, ns);
    ps := PropStrList(b, "compatible", ["fixed-clock"], i, ps);
    ps := PropU32(b, "#clock-cells", 0, i, ps);
    ps := PropU32(b, "clock-frequency", 24000000, i, ps);
    ps := PropStr(b, "clock-output-names", Text("clk24mhz"), i, ps);
    ps := PropU32(b, "phandle", PH_CLOCK, i, ps);
    ps := PropU32(b, "linux,phandle", PH_CLOCK, i, ps);
    assert ps == ApbClkProps();
    ns' := CloseLeaf(b, Text("apb-clk"), ps, i, before, ns);
  }

  method EmitPeripheral(b: Builder, name: string, compatible: seq<string>, gpa: uint32, spi: uint32,
                        clocks: seq<uint32>, clockNames: seq<string>, ghost before: seq<Call>, ghost ns: seq<Subnode>)
    returns (ghost ns': seq<Subnode>)
    requires AfterNodes(b, before, ns)
    modifies b
    ensures AfterNodes(b, before, ns') && b.reserved == old(b.reserved)
    ensures ns' == ns + [Peripheral(name, compatible, gpa, spi, clocks, clockNames)]
  {
    hide AfterNodes, AfterProps, Props, Subnodes, CallsOf, Text, Str, StrList, Cells, Be32, Be64, Number;
    ghost var i, ps := OpenNode(b, Text(name), before, ns);
    ps := PropStrList(b, "compatible", compatible, i, ps);
    ps := PropCells(b, "reg", [0, gpa, 0, PAGE], i, ps);
    ps := PropCells(b, "interrupts", [0, spi, 4], i, ps);
    ps := PropCells(b, "clocks", clocks, i, ps);
    ps := PropStrList(b, "clock-names", clockNames, i, ps);
    assert ps == PeripheralProps(compatible, gpa, spi, clocks, clockNames);
    ns' := CloseLeaf(b, Text(name), ps, i, before, ns);
  }

  method EmitVirtio(b: Builder, name: string, gpa: uint32, spi: uint32, ghost before: seq<Call>, ghost ns: seq<Subnode>)
    returns (ghost ns': seq<Subnode>)
    requires AfterNodes(b, before, ns)
    modifies b
    ensures AfterNodes(b, before, ns') && ns' == ns + [Virtio(name, gpa, spi)] && b.reserved == old(b.reserved)
  {
    hide AfterNodes, AfterProps, Props, Subnodes, CallsOf, Text, Str, StrList, Cells, Be32, Be64, Number;
    ghost var i, ps := OpenNode(b, Text(name), before, ns);
    ps := PropStrList(b, "compatible", ["virtio,mmio"], i, ps);
    ps := PropCells(b, "reg", [0, gpa, 0, VIRTIO_STRIDE], i, ps);
    ps := PropCells(b, "interrupts", [0, spi, 1], i, ps);
    ps := PropEmpty(b, "dma-coherent", i, ps);
    assert ps == VirtioProps(gpa, spi);
    ns' := CloseLeaf(b, Text(name), ps, i, before, ns);
  }

  method EmitPlatform(b: Builder, ctx: Context, ghost before: seq<Call>) returns (ghost ns: seq<Subnode>)
    requires AfterNodes(b, before, [])
    modifies b
    ensures AfterNodes(b, before, ns) && ns == Platform(ctx) && b.reserved == old(b.reserved)
  {
    hide AfterNodes, Chosen, Memory, Psci, Cpus, Timer, Intc, ApbClk, Peripheral;
    ns := EmitChosen(b, ctx, before, []);
    ns := EmitMemory(b, ctx, before, ns);
    ns := EmitPsci(b, before, ns);
    ns := EmitCpus(b, ctx, before, ns);
    ns := EmitTimer(b, before, ns);
    ns := EmitIntc(b, before, ns);
    ns := EmitApbClk(b, before, ns);
    ns := EmitPeripheral(b, "pl011@9000000", ["arm,pl011", "arm,primecell"], 0x0900_0000, 1, [PH_CLOCK, PH_CLOCK],
                         ["uartclk", "apb_pclk"], before, ns);
    ns := EmitPeripheral(b, "pl031@9010000", ["arm,pl031", "arm,primecell"], 0x0901_0000, 2, [PH_CLOCK],
                         ["apb_pclk"], before, ns);
  }

  method EmitAttached(b: Builder, ctx: Context, ghost before: seq<Call>, ghost ns: seq<Subnode>)
    returns (ghost ns': seq<Subnode>)
    requires AfterNodes(b, before, ns)
    modifies b
    ensures AfterNodes(b, before, ns') && ns' == ns + Attached(ctx) && b.reserved == old(b.reserved)
  {
    hide AfterNodes, Virtio;
    ns' := EmitVirtio(b, "virtio_mmio@a000000", 0x0A00_0000, 16, before, ns);
    ns' := EmitVirtio(b, "virtio_mmio@a000200", 0x0A00_0200, 17, before, ns');
    ns' := EmitVirtio(b, "virtio_mmio@a000400", 0x0A00_0400, 19, before, ns');
    if ctx.gpu {
      ns' := EmitVirtio(b, "virtio_mmio@a000600", 0x0A00_0600, 20, before, ns');
    }
    if ctx.keyboard {
      ns' := EmitVirtio(b, "virtio_mmio@a000800", 0x0A00_0800, 21, before, ns');
    }
    if ctx.tablet {
      ns' := EmitVirtio(b, "virtio_mmio@a000a00", 0x0A00_0A00, 22, before, ns');
    }
  }

  lemma DoubleCell(x: uint64)
    ensures Cells([x / TWO_32, x % TWO_32]) == Be64(x)
  {
    hide Be32;
    var cs := [x / TWO_32, x % TWO_32];
    assert cs[1..] == [x % TWO_32] && cs[1..][1..] == [];
    assert BigEndian(cs[1..]) == Be32(x % TWO_32) + BigEndian(cs[1..][1..]);
    assert BigEndian(cs) == Be64(x);
    assert U32(8) == 8;
  }

  lemma FourCells(x: uint64, y: uint64)
    ensures Cells([x / TWO_32, x % TWO_32, y / TWO_32, y % TWO_32]) == Be64(x) + Be64(y)
  {
    hide Be32;
    var cs := [x / TWO_32, x % TWO_32, y / TWO_32, y % TWO_32];
    assert cs[1..][1..][1..] == [y % TWO_32] && cs[1..][1..][1..][1..] == [];
    assert BigEndian([y % TWO_32]) == Be32(y % TWO_32) + BigEndian([y % TWO_32][1..]);
    assert BigEndian(cs[1..][1..]) == Be64(y);
    assert BigEndian(cs[1..]) == Be32(x % TWO_32) + BigEndian(cs[1..][1..]);
    assert BigEndian(cs) == Be64(x) + Be64(y);
    assert U32(16) == 16;
  }

  /** How much of the load area the machine's blob takes. */
  function DtbSize(ctx: Context): nat {
    BlobSize(CallsOf(IntendedTree(ctx)), [Reservation(DTB_LOAD, ROOM)])
  }

  /** A devicetree parser reads the machine's tree and one reservation, the load area, from a
      blob below 4 GiB. */
  ghost predicate Describes(blob: seq<byte>, ctx: Context) {
    |blob| < TWO_32 ==> ParseDtb(blob) == Some(Dtb(0, [Reservation(DTB_LOAD, ROOM)], IntendedTree(ctx)))
  }

  method GenerateBlob(b: Builder, ctx: Context) returns (blob: seq<byte>)
    requires b.Valid() && b.calls == [] && b.reserved == [Reservation(DTB_LOAD, ROOM)]
    modifies b
    ensures |blob| == DtbSize(ctx) && Describes(blob, ctx)
  {
    hide BlobSize, Builder.Valid, Platform, Attached, Then, ParseDtb, Props, Subnodes, RootProps, CallsOf, TreeOf,
         Balanced;
    b.BeginNode([]);
    ghost var root := b.calls;
    ghost var ps := EmitRootProps(b);
    ghost var head := b.calls;
    NoSubnodes();
    ghost var ns := EmitPlatform(b, ctx, head);
    ns := EmitAttached(b, ctx, head, ns);
    b.EndNode();
    CallsThen(Props(ps), Subnodes(ns));
    RootCalls(Then(Props(ps), Subnodes(ns)));
    assert b.calls == CallsOf(IntendedTree(ctx));
    TreeOfCalls(IntendedTree(ctx));
    blob := b.Build();
  }

  method EmitRootProps(b: Builder) returns (ghost ps: seq<Prop>)
    requires b.Valid()
    modifies b
    ensures AfterProps(b, old(b.calls), ps) && ps == RootProps() && b.reserved == old(b.reserved)
  {
    hide Props, Text, Str, StrList, Be32, Builder.Valid;
    NoProps();
    ghost var root := b.calls;
    ps := [];
    assert b.calls == root + CallsOf(Props(ps));
    ps := PropU32(b, "#address-cells", 2, root, ps);
    ps := PropU32(b, "#size-cells", 2, root, ps);
    ps := PropU32(b, "interrupt-parent", PH_GIC, root, ps);
    ps := PropStrList(b, "compatible", ["linux,dummy-virt"], root, ps);
    ps := PropStr(b, "model", Text("virtualization-vm"), root, ps);
    assert ps == RootProps();
  }

  lemma NoProps()
    ensures CallsOf(Props([])) == []
  {}

  lemma RootCalls(body: Items)
    ensures CallsOf(Node([], body, Nil)) == [Call.BeginNode([])] + CallsOf(body) + [EndNode]
  {}

  /** The blob has been copied to `at`, if to anywhere, and nothing else has changed. */
  predicate Placed(before: seq<byte>, after: seq<byte>, at: Option<nat>, blob: seq<byte>) {
    match at
    case None => after == before
    case Some(p) => p + |blob| <= |before| && after == Splice(before, p, blob)
  }

  /** Prints the machine's tree and copies the blob to the start of the load area. Succeeds
      exactly when that address is RAM and the blob leaves the kernel's area alone; then a
      devicetree parser reading the blob back from RAM gets the intended tree, and its address
      is recorded for the boot CPU; otherwise none is. A blob to be copied must lie wholly inside
      or outside RAM, as only its first address is translated. */
  method Generate(ctx: Context, ram: array<byte>) returns (ok: bool, blob: seq<byte>, dtbGpa: Option<uint64>)
    requires DtbSize(ctx) <= ROOM ==> GuestMemory.Whole(ctx.ramGpa, ram.Length, DTB_LOAD, DtbSize(ctx))
    modifies ram
    ensures |blob| == DtbSize(ctx) && Describes(blob, ctx)
    ensures var at := GuestMemory.Translate(ctx.ramGpa, ram.Length, DTB_LOAD);
            ok == (at.Some? && |blob| <= ROOM) && dtbGpa == (if ok then Some(DTB_LOAD) else None)
            && Placed(old(ram[..]), ram[..], if ok then at else None, blob)
  {
    hide DtbSize, Describes, Builder.Valid;
    var b := new Builder();
    b.Reserve(DTB_LOAD, KERNEL_LOAD - DTB_LOAD);
    blob := GenerateBlob(b, ctx);
    var dst := GuestMemory.Translate(ctx.ramGpa, ram.Length, DTB_LOAD);
    ok, dtbGpa := dst.Some? && |blob| <= ROOM, None;
    if ok {
      CopyInto(ram, dst.value, blob);
      dtbGpa := Some(DTB_LOAD);
    }
  }
}
