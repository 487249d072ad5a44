/** What the machine's devicetree tells a kernel, read from the tree that its blob parses to. */
module DeviceTreeFacts {
  import opened Bytes
  import opened FdtFormat
  import opened DeviceTree
  import opened DeviceTreeReading

  // ----- nodes that are only properties -----

  lemma FoundLeaf(ps: seq<Prop>, name: string, k: nat)
    requires k < |ps| && ps[k].0 == name && forall j :: 0 <= j < k ==> Differs(ps[j].0, name)
    ensures Get(Props(ps), name) == Some(ps[k].1)
  {
    hide Differs;
    ThenNil(Props(ps));
    Found(ps, Nil, name, k);
  }

  lemma MissingLeaf(ps: seq<Prop>, name: string)
    requires forall j :: 0 <= j < |ps| ==> Differs(ps[j].0, name)
    ensures Get(Props(ps), name) == None
  {
    hide Differs;
    ThenNil(Props(ps));
    NotFound(ps, Nil, name);
  }

  lemma LeafHasNoChildren(ps: seq<Prop>)
    ensures Children(Props(ps)) == [] && AllNodes(Props(ps)) == []
  {
    ThenNil(Props(ps));
    ChildrenOf(ps, []);
    NoNodes(ps);
  }

  lemma {:induction false} NoNodes(ps: seq<Prop>)
    ensures AllNodes(Props(ps)) == []
    decreases |ps|
  {
    if ps != [] {
      NoNodes(ps[1..]);
    }
  }

  // ----- what the facts ask of a node -----

  /** The cells that refer to other nodes by phandle. */
  function References(body: Items): seq<uint32> {
    (match Get(body, "interrupt-parent") case Some(v) => CellsOf(v) case None => [])
    + (match Get(body, "clocks") case Some(v) => CellsOf(v) case None => [])
  }

  /** A leaf that has neither phandle nor references. */
  predicate Plain(body: Items) {
    Get(body, "phandle") == None && Get(body, "clocks") == None && Get(body, "interrupt-parent") == None
  }

  lemma ChosenCard(ctx: Context)
    ensures var b := Chosen(ctx).body;
            Plain(b) && Get(b, "device_type") == None && Get(b, "reg") == None
            && Get(b, "bootargs") == Some(Str(ctx.cmdline))
            && Get(b, "linux,initrd-start") == (if ctx.initrdSize > 0 then Some(Be64(ctx.initrdGpa)) else None)
            && Get(b, "linux,initrd-end")
               == if ctx.initrdSize > 0 then Some(Be64((ctx.initrdGpa + ctx.initrdSize) % TWO_64)) else None
  {
    hide Text, Str, Be64, Props, Get;
    var ps := ChosenProps(ctx);
    MissingLeaf(ps, "phandle");
    MissingLeaf(ps, "clocks");
    MissingLeaf(ps, "interrupt-parent");
    MissingLeaf(ps, "device_type");
    MissingLeaf(ps, "reg");
    FoundLeaf(ps, "bootargs", 0);
    if ctx.initrdSize > 0 {
      FoundLeaf(ps, "linux,initrd-start", 2);
      FoundLeaf(ps, "linux,initrd-end", 3);
    } else {
      MissingLeaf(ps, "linux,initrd-start");
      MissingLeaf(ps, "linux,initrd-end");
    }
  }

  lemma MemoryCard(ctx: Context)
    ensures var b := Memory(ctx).body;
            Plain(b) && Get(b, "device_type") == Some(Str(Text("memory")))
            && Get(b, "reg") == Some(Be64(ctx.ramGpa) + Be64(ctx.ramSize))
  {
    hide Text, Str, Be64, Props, Get, Number;
    var ps := MemoryProps(ctx);
    MissingLeaf(ps, "phandle");
    MissingLeaf(ps, "clocks");
    MissingLeaf(ps, "interrupt-parent");
    FoundLeaf(ps, "device_type", 0);
    FoundLeaf(ps, "reg", 1);
  }

  lemma VirtioCard(gpa: uint32, spi: uint32)
    ensures var b := Props(VirtioProps(gpa, spi));
            Plain(b) && Get(b, "device_type") == None
            && Get(b, "compatible") == Some(StrList(["virtio,mmio"]))
            && Get(b, "reg") == Some(Cells([0, gpa, 0, VIRTIO_STRIDE]))
            && Get(b, "interrupts") == Some(Cells([0, spi, 1]))
  {
    hide Text, StrList, Cells, Props, Get;
    var ps := VirtioProps(gpa, spi);
    MissingLeaf(ps, "phandle");
    MissingLeaf(ps, "clocks");
    MissingLeaf(ps, "interrupt-parent");
    MissingLeaf(ps, "device_type");
    FoundLeaf(ps, "compatible", 0);
    FoundLeaf(ps, "reg", 1);
    FoundLeaf(ps, "interrupts", 2);
  }

  lemma PsciCard()
    ensures var b := Psci().body;
            Plain(b) && Get(b, "device_type") == None && Get(b, "reg") == None
            && Get(b, "method") == Some(Str(Text("hvc")))
  {
    hide Text, Str, StrList, Props, Get;
    var ps := PsciProps();
    MissingLeaf(ps, "phandle");
    MissingLeaf(ps, "clocks");
    MissingLeaf(ps, "interrupt-parent");
    MissingLeaf(ps, "device_type");
    MissingLeaf(ps, "reg");
    FoundLeaf(ps, "method", 1);
  }

  lemma CpuCard(i: uint32)
    ensures var b := Cpu(i).body;
            Plain(b) && Get(b, "device_type") == Some(Str(Text("cpu"))) && Get(b, "reg") == Some(Be32(i))
            && Get(b, "enable-method") == Some(Str(Text("psci")))
  {
    hide Text, Str, StrList, Be32, Props, Get, Number;
    var ps := CpuProps(i);
    MissingLeaf(ps, "phandle");
    MissingLeaf(ps, "clocks");
    MissingLeaf(ps, "interrupt-parent");
    FoundLeaf(ps, "device_type", 1);
    FoundLeaf(ps, "enable-method", 2);
    FoundLeaf(ps, "reg", 3);
  }

  function CpusProps(): seq<Prop> {
    [("#address-cells", Be32(1)), ("#size-cells", Be32(0))]
  }

  lemma CpusCard(n: uint32)
    ensures var b := Cpus(n).body;
            Plain(b) && Get(b, "device_type") == None && Get(b, "reg") == None
            && Get(b, "#address-cells") == Some(Be32(1)) && Get(b, "#size-cells") == Some(Be32(0))
            && Children(b) == CpuNodes(n)
  {
    hide Text, Be32, Props, Get, Subnodes, CpuNodes;
    var ps, rest := CpusProps(), Subnodes(CpuNodes(n));
    assert Cpus(n).body == Then(Props(ps), rest);
    hide Cpus, Then;
    NoValues(CpuNodes(n), "phandle");
    NoValues(CpuNodes(n), "clocks");
    NoValues(CpuNodes(n), "interrupt-parent");
    NoValues(CpuNodes(n), "device_type");
    NoValues(CpuNodes(n), "reg");
    NotFound(ps, rest, "phandle");
    NotFound(ps, rest, "clocks");
    NotFound(ps, rest, "interrupt-parent");
    NotFound(ps, rest, "device_type");
    NotFound(ps, rest, "reg");
    Found(ps, rest, "#address-cells", 0);
    Found(ps, rest, "#size-cells", 1);
    ChildrenOf(ps, CpuNodes(n));
  }

  lemma TimerCard()
    ensures var b := Timer().body;
            Plain(b) && Get(b, "device_type") == None && Get(b, "reg") == None
            && Get(b, "interrupts") == Some(Cells([1, 13, 0xf04, 1, 14, 0xf04, 1, 11, 0xf04, 1, 10, 0xf04]))
  {
    assert Ppi(13) + Ppi(14) + Ppi(11) + Ppi(10) == [1, 13, 0xf04, 1, 14, 0xf04, 1, 11, 0xf04, 1, 10, 0xf04];
    hide Text, StrList, Cells, Props, Get, Ppi;
    var ps := TimerProps();
    MissingLeaf(ps, "phandle");
    MissingLeaf(ps, "clocks");
    MissingLeaf(ps, "interrupt-parent");
    MissingLeaf(ps, "device_type");
    MissingLeaf(ps, "reg");
    FoundLeaf(ps, "interrupts", 1);
  }

  lemma IntcCard()
    ensures var b := Intc().body;
            Get(b, "phandle") == Some(Be32(1)) && Get(b, "clocks") == None && Get(b, "interrupt-parent") == None
            && Get(b, "device_type") == None && Get(b, "#interrupt-cells") == Some(Be32(3))
            && Get(b, "interrupt-controller") == Some([])
            && Get(b, "reg") == Some(Cells([0, 0x0800_0000, 0, 0x1_0000, 0, 0x080A_0000, 0, 0x10_0000]))
            && Get(b, "interrupts") == Some(Cells([1, 9, 0xf04]))
  {
    hide Text, StrList, Cells, Be32, Props, Get;
    var ps := IntcProps();
    MissingLeaf(ps, "clocks");
    MissingLeaf(ps, "interrupt-parent");
    MissingLeaf(ps, "device_type");
    FoundLeaf(ps, "#interrupt-cells", 1);
    FoundLeaf(ps, "interrupt-controller", 2);
    FoundLeaf(ps, "reg", 3);
    FoundLeaf(ps, "interrupts", 4);
    FoundLeaf(ps, "phandle", 5);
  }

  lemma ApbClkCard()
    ensures var b := ApbClk().body;
            Get(b, "phandle") == Some(Be32(2)) && Get(b, "clocks") == None && Get(b, "interrupt-parent") == None
            && Get(b, "device_type") == None && Get(b, "reg") == None && Get(b, "#clock-cells") == Some(Be32(0))
  {
    hide Text, Str, StrList, Be32, Props, Get;
    var ps := ApbClkProps();
    MissingLeaf(ps, "clocks");
    MissingLeaf(ps, "interrupt-parent");
    MissingLeaf(ps, "device_type");
    MissingLeaf(ps, "reg");
    FoundLeaf(ps, "#clock-cells", 1);
    FoundLeaf(ps, "phandle", 4);
  }

  lemma PeripheralCard(compatible: seq<string>, gpa: uint32, spi: uint32, clocks: seq<uint32>, clockNames: seq<string>)
    ensures var b := Props(PeripheralProps(compatible, gpa, spi, clocks, clockNames));
            Get(b, "phandle") == None && Get(b, "clocks") == Some(Cells(clocks)) && Get(b, "interrupt-parent") == None
            && Get(b, "device_type") == None && Get(b, "reg") == Some(Cells([0, gpa, 0, 0x1000]))
            && Get(b, "interrupts") == Some(Cells([0, spi, 4])) && Get(b, "compatible") == Some(StrList(compatible))
            && Get(b, "clock-names") == Some(StrList(clockNames))
  {
    hide Text, StrList, Cells, Props, Get;
    var ps := PeripheralProps(compatible, gpa, spi, clocks, clockNames);
    MissingLeaf(ps, "phandle");
    MissingLeaf(ps, "interrupt-parent");
    MissingLeaf(ps, "device_type");
    FoundLeaf(ps, "compatible", 0);
    FoundLeaf(ps, "reg", 1);
    FoundLeaf(ps, "interrupts", 2);
    FoundLeaf(ps, "clocks", 3);
    FoundLeaf(ps, "clock-names", 4);
  }

  function Nodes(ctx: Context): seq<Subnode> {
    Platform(ctx) + Attached(ctx)
  }

  /** The root of the tree that the blob parses to. */
  function Root(ctx: Context): Items {
    var t := IntendedTree(ctx);
    if t.Node? then t.body else Nil
  }

  lemma RootCard(ctx: Context)
    ensures var r := Root(ctx);
            Get(r, "phandle") == None && Get(r, "clocks") == None && Get(r, "interrupt-parent") == Some(Be32(1))
            && Get(r, "#address-cells") == Some(Be32(2)) && Get(r, "#size-cells") == Some(Be32(2))
            && Children(r) == Nodes(ctx)
  {
    hide Text, Str, StrList, Be32, Props, Get, Subnodes, Nodes, Platform, Attached;
    var ps, ns := RootProps(), Platform(ctx) + Attached(ctx);
    var rest := Subnodes(ns);
    assert Root(ctx) == Then(Props(ps), rest);
    assert ns == Nodes(ctx) by {
      NodesAre(ctx);
    }
    hide Root, IntendedTree, Then;
    NoValues(ns, "phandle");
    NoValues(ns, "clocks");
    NotFound(ps, rest, "phandle");
    NotFound(ps, rest, "clocks");
    Found(ps, rest, "#address-cells", 0);
    Found(ps, rest, "#size-cells", 1);
    Found(ps, rest, "interrupt-parent", 2);
    ChildrenOf(ps, ns);
  }

  lemma NodesAre(ctx: Context)
    ensures Nodes(ctx) == Platform(ctx) + Attached(ctx)
  {}

  // ----- nodes by name -----

  lemma MemoryName(ctx: Context, name: string)
    requires |name| > 0 && name[0] != 'm' && forall c :: c in name ==> 0 < c as int < 128
    ensures Memory(ctx).name != Text(name)
  {
    assert Memory(ctx).name[0] == Octet('m');
    assert name[0] in name;
    assert Text(name)[0] == Octet(name[0]);
  }

  /** Where the first nine nodes lie. */
  lemma PlatformAt(ctx: Context)
    ensures var ns := Nodes(ctx);
            && |ns| >= 9 && ns[0] == Chosen(ctx) && ns[1] == Memory(ctx) && ns[2] == Psci() && ns[3] == Cpus(ctx.vcpus)
            && ns[4] == Timer() && ns[5] == Intc() && ns[6] == ApbClk() && ns[7] == Pl011() && ns[8] == Pl031()
            && ns[9..] == Attached(ctx)
  {
    hide Chosen, Memory, Psci, Cpus, Timer, Intc, ApbClk, Pl011, Pl031, Attached;
  }

  lemma LeafName(name: string, ps: seq<Prop>)
    ensures Leaf(name, ps).name == Text(name)
  {}

  lemma PlatformNames(ctx: Context)
    ensures Chosen(ctx).name == Text("chosen") && Psci().name == Text("psci") && Cpus(ctx.vcpus).name == Text("cpus")
    ensures Timer().name == Text("timer") && Intc().name == Text("intc@8000000") && ApbClk().name == Text("apb-clk")
    ensures Pl011().name == Text("pl011@9000000") && Pl031().name == Text("pl031@9010000")
  {
    hide Text, Str, StrList, Cells, Be32, Be64, Props, Then, Subnodes, CpuNodes;
  }

  /** The platform's nodes are found by their names. */
  lemma PlatformFound(ctx: Context)
    ensures var r := Root(ctx);
            && Sub(r, "chosen") == Some(Chosen(ctx).body) && Sub(r, "psci") == Some(Psci().body)
            && Sub(r, "cpus") == Some(Cpus(ctx.vcpus).body) && Sub(r, "timer") == Some(Timer().body)
            && Sub(r, "intc@8000000") == Some(Intc().body) && Sub(r, "pl011@9000000") == Some(Pl011().body)
            && Sub(r, "pl031@9010000") == Some(Pl031().body)
  {
    hide Root, Nodes, Chosen, Memory, Psci, Cpus, Timer, Intc, ApbClk, Pl011, Pl031, Attached, Text, Children;
    RootCard(ctx);
    PlatformAt(ctx);
    PlatformNames(ctx);
    MemoryName(ctx, "psci");
    MemoryName(ctx, "cpus");
    MemoryName(ctx, "timer");
    MemoryName(ctx, "intc@8000000");
    MemoryName(ctx, "pl011@9000000");
    MemoryName(ctx, "pl031@9010000");
    NamesDiffer();
    FirstFive(Nodes(ctx), Memory(ctx).name);
    NextFour(Nodes(ctx), Memory(ctx).name);
  }

  lemma NamesDiffer()
    ensures Text("chosen") != Text("psci") && Text("chosen") != Text("cpus") && Text("psci") != Text("cpus")
    ensures Text("chosen") != Text("timer") && Text("psci") != Text("timer") && Text("cpus") != Text("timer")
    ensures Text("intc@8000000") != Text("apb-clk")
    ensures Text("pl011@9000000") != Text("intc@8000000") && Text("pl011@9000000") != Text("apb-clk")
    ensures Text("pl031@9010000") != Text("intc@8000000") && Text("pl031@9010000") != Text("apb-clk")
    ensures Text("pl031@9010000") != Text("pl011@9000000")
    ensures |Text("chosen")| == 6 && |Text("psci")| == 4 && |Text("cpus")| == 4 && |Text("timer")| == 5
    ensures |Text("intc@8000000")| == 12 && |Text("pl011@9000000")| == 13 && |Text("pl031@9010000")| == 13
  {
    TextDiffers("psci", "cpus");
    TextAt("psci", 0);
    TextAt("cpus", 0);
    assert "psci"[1] == 's' && "cpus"[1] == 'p';
    TextAt("psci", 1);
    TextAt("cpus", 1);
    assert "pl011@9000000"[3] == '1' && "pl031@9010000"[3] == '3';
    TextAt("pl011@9000000", 3);
    TextAt("pl031@9010000", 3);
  }

  /** Found by name in a list of nodes that starts like the platform's. */
  lemma FirstFive(ns: seq<Subnode>, memory: cstring)
    requires |ns| >= 5 && ns[0].name == Text("chosen") && ns[1].name == memory && ns[2].name == Text("psci")
    requires ns[3].name == Text("cpus") && ns[4].name == Text("timer")
    requires memory != Text("psci") && memory != Text("cpus") && memory != Text("timer")
    ensures FirstNamed(ns, Text("chosen")) == Some(ns[0].body) && FirstNamed(ns, Text("psci")) == Some(ns[2].body)
    ensures FirstNamed(ns, Text("cpus")) == Some(ns[3].body) && FirstNamed(ns, Text("timer")) == Some(ns[4].body)
  {
    NamesDiffer();
    hide Text, FirstNamed;
    NamedAt(ns, Text("chosen"), 0);
    NamedAt(ns, Text("psci"), 2);
    NamedAt(ns, Text("cpus"), 3);
    NamedAt(ns, Text("timer"), 4);
  }

  /** A longer name is not one of the first five. */
  lemma PastFive(ns: seq<Subnode>, name: cstring)
    requires |ns| >= 9 && ns[0].name == Text("chosen") && ns[2].name == Text("psci") && ns[3].name == Text("cpus")
    requires ns[4].name == Text("timer") && ns[1].name != name && |name| > 6
    ensures forall j :: 0 <= j < 5 ==> ns[j].name != name
  {
    NamesDiffer();
  }

  lemma NextFour(ns: seq<Subnode>, memory: cstring)
    requires |ns| >= 9 && ns[0].name == Text("chosen") && ns[1].name == memory && ns[2].name == Text("psci")
    requires ns[3].name == Text("cpus") && ns[4].name == Text("timer") && ns[5].name == Text("intc@8000000")
    requires ns[6].name == Text("apb-clk") && ns[7].name == Text("pl011@9000000") && ns[8].name == Text("pl031@9010000")
    requires memory != Text("intc@8000000") && memory != Text("pl011@9000000") && memory != Text("pl031@9010000")
    ensures FirstNamed(ns, Text("intc@8000000")) == Some(ns[5].body)
    ensures FirstNamed(ns, Text("pl011@9000000")) == Some(ns[7].body)
    ensures FirstNamed(ns, Text("pl031@9010000")) == Some(ns[8].body)
  {
    NamesDiffer();
    hide Text, FirstNamed;
    PastFive(ns, Text("intc@8000000"));
    PastFive(ns, Text("pl011@9000000"));
    PastFive(ns, Text("pl031@9010000"));
    NamedAt(ns, Text("intc@8000000"), 5);
    NamedAt(ns, Text("pl011@9000000"), 7);
    NamedAt(ns, Text("pl031@9010000"), 8);
  }

  lemma TextAt(s: string, i: nat)
    requires i < |s|
    ensures |Text(s)| == |s| && Text(s)[i] == Octet(s[i])
  {}

  // ----- memory -----

  /** The nodes whose `device_type` is that text. */
  function Typed(ns: seq<Subnode>, t: string): seq<Subnode> {
    if ns == [] then []
    else (if Get(ns[0].body, "device_type") == Some(Text(t) + [0]) then [ns[0]] else []) + Typed(ns[1..], t)
  }

  lemma {:induction false} NoneTyped(ns: seq<Subnode>, t: string)
    requires forall n :: n in ns ==> Get(n.body, "device_type") == None
    ensures Typed(ns, t) == []
    decreases |ns|
  {
    hide Text, Get;
    if ns != [] {
      NoneTyped(ns[1..], t);
    }
  }

  lemma StrIs(s: cstring)
    requires |s| < 0x1000_0000
    ensures Str(s) == s + [0]
  {
    assert U32(|s + [0]|) == |s + [0]|;
  }

  /** A device on the virtio bus is one of a common form. */
  lemma AttachedForm(ctx: Context, n: Subnode) returns (gpa: uint32, spi: uint32)
    requires n in Attached(ctx)
    ensures n.body == Props(VirtioProps(gpa, spi))
  {
    hide Props, VirtioProps, Text;
    var all := [CONSOLE, BLOCK, NET, GPU, KEYBOARD, TABLET];
    if n == CONSOLE { return 0x0A00_0000, 16; }
    if n == BLOCK { return 0x0A00_0200, 17; }
    if n == NET { return 0x0A00_0400, 19; }
    if n == GPU { return 0x0A00_0600, 20; }
    if n == KEYBOARD { return 0x0A00_0800, 21; }
    return 0x0A00_0A00, 22;
  }

  lemma Pl011Card()
    ensures var b := Pl011().body;
            Get(b, "phandle") == None && Get(b, "clocks") == Some(Cells([2, 2])) && Get(b, "interrupt-parent") == None
            && Get(b, "device_type") == None && Get(b, "reg") == Some(Cells([0, 0x0900_0000, 0, 0x1000]))
            && Get(b, "interrupts") == Some(Cells([0, 1, 4]))
  {
    hide Text, StrList, Cells, Props, Get, PeripheralProps;
    PeripheralCard(["arm,pl011", "arm,primecell"], 0x0900_0000, 1, [PH_CLOCK, PH_CLOCK], ["uartclk", "apb_pclk"]);
  }

  lemma Pl031Card()
    ensures var b := Pl031().body;
            Get(b, "phandle") == None && Get(b, "clocks") == Some(Cells([2])) && Get(b, "interrupt-parent") == None
            && Get(b, "device_type") == None && Get(b, "reg") == Some(Cells([0, 0x0901_0000, 0, 0x1000]))
            && Get(b, "interrupts") == Some(Cells([0, 2, 4]))
  {
    hide Text, StrList, Cells, Props, Get, PeripheralProps;
    PeripheralCard(["arm,pl031", "arm,primecell"], 0x0901_0000, 2, [PH_CLOCK], ["apb_pclk"]);
  }

  lemma AttachedUntyped(ctx: Context, n: Subnode)
    requires n in Attached(ctx)
    ensures Get(n.body, "device_type") == None
  {
    hide Get, Props, VirtioProps, Attached;
    var gpa, spi := AttachedForm(ctx, n);
    VirtioCard(gpa, spi);
  }

  lemma OthersUntyped(ctx: Context, n: Subnode)
    requires n in Nodes(ctx)[2..]
    ensures Get(n.body, "device_type") == None
  {
    hide Get, Nodes, Attached, Psci, Cpus, Timer, Intc, ApbClk, Pl011, Pl031, Chosen, Memory;
    PlatformAt(ctx);
    var ns := Nodes(ctx);
    var i :| 2 <= i < |ns| && ns[i] == n;
    if i == 2 { PsciCard(); }
    else if i == 3 { CpusCard(ctx.vcpus); }
    else if i == 4 { TimerCard(); }
    else if i == 5 { IntcCard(); }
    else if i == 6 { ApbClkCard(); }
    else if i == 7 { Pl011Card(); }
    else if i == 8 { Pl031Card(); }
    else {
      assert n == ns[9..][i - 9];
      AttachedUntyped(ctx, n);
    }
  }

  lemma SecondTyped(ns: seq<Subnode>, t: string)
    requires |ns| >= 2 && Get(ns[0].body, "device_type") == None
    requires Get(ns[1].body, "device_type") == Some(Text(t) + [0])
    requires forall n :: n in ns[2..] ==> Get(n.body, "device_type") == None
    ensures Typed(ns, t) == [ns[1]]
  {
    hide Get, Text;
    NoneTyped(ns[2..], t);
    assert ns[1..][1..] == ns[2..];
    assert Typed(ns[1..], t) == [ns[1]] + Typed(ns[2..], t);
  }

  /** A `reg` of one pair of 64-bit numbers, under a parent with two cells for each. */
  lemma RegOfPair(parent: Items, body: Items, a: uint64, s: uint64)
    requires Get(parent, "#address-cells") == Some(Be32(2)) && Get(parent, "#size-cells") == Some(Be32(2))
    requires Get(body, "reg") == Some(Be64(a) + Be64(s))
    ensures RegsUnder(parent, body) == Some([(a, s)])
  {
    hide Get, Be32, Be64, ReadBe32, CellsOf, Regs;
    OneCellRead(2);
    FourCellsRead(a, s);
    PairRead(a, s);
  }

  /** The tree has one memory node, and read in the root's widths its `reg` is the machine's RAM. */
  lemma MemoryIsRam(ctx: Context)
    ensures var r := Root(ctx);
            var ms := Typed(Children(r), "memory");
            |ms| == 1 && RegsUnder(r, ms[0].body) == Some([(ctx.ramGpa, ctx.ramSize)])
  {
    hide Root, Nodes, Chosen, Memory, Psci, Cpus, Timer, Intc, ApbClk, Pl011, Pl031, Attached, Get, Text, Str, Be32,
         Be64, Children, RegsUnder;
    RootCard(ctx);
    PlatformAt(ctx);
    ChosenCard(ctx);
    MemoryCard(ctx);
    TextAt("memory", 0);
    StrIs(Text("memory"));
    var ns := Nodes(ctx);
    forall n | n in ns[2..]
      ensures Get(n.body, "device_type") == None
    {
      OthersUntyped(ctx, n);
    }
    SecondTyped(ns, "memory");
    RegOfPair(Root(ctx), ns[1].body, ctx.ramGpa, ctx.ramSize);
  }

  // ----- the initial ramdisk and the command line -----

  /** A property that is one 64-bit number. */
  function Wide(items: Items, name: string): Option<nat> {
    match Get(items, name)
    case Some(v) => Some(NumberOf(CellsOf(v)))
    case None => None
  }

  lemma WideIs(items: Items, name: string, x: uint64)
    requires Get(items, name) == Some(Be64(x))
    ensures Wide(items, name) == Some(x)
  {
    hide Get, Be64, CellsOf, NumberOf;
    TwoCellsRead(x);
    TwoCellNumber(x);
  }

  /** `/chosen` has the command line, and for a ramdisk its first address and the one after its
      last; without one it has neither. */
  predicate ChosenRight(b: Items, ctx: Context) {
    var start, end := Wide(b, "linux,initrd-start"), Wide(b, "linux,initrd-end");
    && (|ctx.cmdline| < 0x1000_0000 ==> Get(b, "bootargs") == Some(ctx.cmdline + [0]))
    && if ctx.initrdSize == 0 then start == None && end == None
       else start == Some(ctx.initrdGpa) && end.Some? && (end.value - start.value) % TWO_64 == ctx.initrdSize
  }

  lemma ChosenIsRight(ctx: Context)
    ensures Sub(Root(ctx), "chosen").Some? && ChosenRight(Sub(Root(ctx), "chosen").value, ctx)
  {
    hide Root, Chosen, Get, Str, Be64, Wide, Sub, Props, Then, Subnodes, Platform, Attached, RootProps;
    PlatformFound(ctx);
    ChosenCard(ctx);
    if |ctx.cmdline| < 0x1000_0000 {
      StrIs(ctx.cmdline);
    }
    InitrdRead(Chosen(ctx).body, ctx.initrdGpa, ctx.initrdSize);
  }

  lemma InitrdRead(b: Items, gpa: uint64, size: uint64)
    requires Get(b, "linux,initrd-start") == if size > 0 then Some(Be64(gpa)) else None
    requires Get(b, "linux,initrd-end") == if size > 0 then Some(Be64((gpa + size) % TWO_64)) else None
    ensures var start, end := Wide(b, "linux,initrd-start"), Wide(b, "linux,initrd-end");
            if size == 0 then start == None && end == None
            else start == Some(gpa) && end.Some? && (end.value - start.value) % TWO_64 == size
  {
    hide Get, Be64, Wide;
    if size > 0 {
      WideIs(b, "linux,initrd-start", gpa);
      WideIs(b, "linux,initrd-end", (gpa + size) % TWO_64);
      BackToSize(gpa, size);
    } else {
      NoWide(b, "linux,initrd-start");
      NoWide(b, "linux,initrd-end");
    }
  }

  lemma NoWide(items: Items, name: string)
    requires Get(items, name) == None
    ensures Wide(items, name) == None
  {}

  lemma BackToSize(start: uint64, size: uint64)
    ensures ((start + size) % TWO_64 - start) % TWO_64 == size
  {}

  // ----- processors -----

  lemma CpuReg(parent: Items, body: Items, i: uint32)
    requires Get(parent, "#address-cells") == Some(Be32(1)) && Get(parent, "#size-cells") == Some(Be32(0))
    requires Get(body, "reg") == Some(Be32(i))
    ensures RegsUnder(parent, body) == Some([(i as nat, 0)])
  {
    hide Get, Be32, ReadBe32, CellsOf;
    OneCellRead(1);
    OneCellRead(0);
    OneCellRead(i);
    OneCellNumber(i);
    assert [i][..1] == [i] && [i][1..1] == [] && [i][1..] == [];
    assert NumberOf([]) == 0 && Regs([], 1, 0) == [];
    assert Regs([i], 1, 0) == [(i as nat, 0)] + Regs([], 1, 0);
    assert Regs([i], 1, 0) == [(i as nat, 0)];
  }

  /** `/cpus` has one node for each virtual processor, numbered from 0 in the width it prescribes,
      and each is started through PSCI, whose node names the `hvc` call. */
  lemma CpusAreNumbered(ctx: Context, i: nat)
    requires i < ctx.vcpus
    ensures Sub(Root(ctx), "cpus").Some? && Sub(Root(ctx), "psci").Some?
    ensures var b := Sub(Root(ctx), "cpus").value;
            && |Children(b)| == ctx.vcpus
            && RegsUnder(b, Children(b)[i].body) == Some([(i, 0)])
            && Get(Children(b)[i].body, "device_type") == Some(Text("cpu") + [0])
            && Get(Children(b)[i].body, "enable-method") == Some(Text("psci") + [0])
    ensures Get(Sub(Root(ctx), "psci").value, "method") == Some(Text("hvc") + [0])
  {
    hide Root, Cpus, Cpu, Psci, Get, Text, Str, Be32, Children, RegsUnder, Sub;
    PlatformFound(ctx);
    CpusCard(ctx.vcpus);
    PsciCard();
    CpuCard(i);
    TextAt("cpu", 0);
    TextAt("psci", 0);
    TextAt("hvc", 0);
    StrIs(Text("cpu"));
    StrIs(Text("psci"));
    StrIs(Text("hvc"));
    CpuReg(Cpus(ctx.vcpus).body, Cpu(i).body, i);
  }

  // ----- devices -----

  /** A `reg` of cells whose addresses have no high part. */
  lemma RegOfCells(parent: Items, body: Items, a: uint32, s: uint32)
    requires Get(parent, "#address-cells") == Some(Be32(2)) && Get(parent, "#size-cells") == Some(Be32(2))
    requires Get(body, "reg") == Some(Cells([0, a, 0, s]))
    ensures RegsUnder(parent, body) == Some([(a as nat, s as nat)])
  {
    hide Get, Be32, ReadBe32, CellsOf, Regs, Cells;
    OneCellRead(2);
    CellsRead([0, a, 0, s]);
    PairRead(a, s);
    assert [a as uint64 / TWO_32, a as uint64 % TWO_32] == [0, a as uint64];
  }

  /** What a kernel needs to use a device: its registers, under the root's widths, and its
      interrupt, as the three cells of the interrupt controller. */
  predicate Wired(root: Items, body: Items, gpa: nat, size: nat, interrupts: seq<uint32>) {
    RegsUnder(root, body) == Some([(gpa, size)])
    && match Get(body, "interrupts") case Some(v) => CellsOf(v) == interrupts case None => false
  }

  lemma WiredIs(root: Items, body: Items, a: uint32, s: uint32, interrupts: seq<uint32>)
    requires Get(root, "#address-cells") == Some(Be32(2)) && Get(root, "#size-cells") == Some(Be32(2))
    requires Get(body, "reg") == Some(Cells([0, a, 0, s])) && Get(body, "interrupts") == Some(Cells(interrupts))
    requires |interrupts| < 100
    ensures Wired(root, body, a, s, interrupts)
  {
    hide Get, Be32, ReadBe32, CellsOf, Cells, RegsUnder;
    RegOfCells(root, body, a, s);
    CellsRead(interrupts);
  }

  /** The serial port, the clock and the interrupt controller, with their addresses. */
  lemma PlatformIsWired(ctx: Context)
    ensures var r := Root(ctx);
            && Sub(r, "pl011@9000000").Some? && Sub(r, "pl031@9010000").Some? && Sub(r, "intc@8000000").Some?
            && Sub(r, "timer").Some?
            && Wired(r, Sub(r, "pl011@9000000").value, 0x0900_0000, 0x1000, [0, 1, 4])
            && Wired(r, Sub(r, "pl031@9010000").value, 0x0901_0000, 0x1000, [0, 2, 4])
            && RegsUnder(r, Sub(r, "intc@8000000").value) == Some([(0x0800_0000, 0x1_0000), (0x080A_0000, 0x10_0000)])
  {
    hide Root, Intc, Timer, Pl011, Pl031, Get, Be32, Cells, CellsOf, RegsUnder, Wired, Sub;
    RootCard(ctx);
    PlatformFound(ctx);
    Pl011Card();
    Pl031Card();
    IntcCard();
    WiredIs(Root(ctx), Pl011().body, 0x0900_0000, 0x1000, [0, 1, 4]);
    WiredIs(Root(ctx), Pl031().body, 0x0901_0000, 0x1000, [0, 2, 4]);
    TwoRegs(Root(ctx), Intc().body, 0x0800_0000, 0x1_0000, 0x080A_0000, 0x10_0000);
  }

  lemma TwoRegs(parent: Items, body: Items, a: uint32, s: uint32, b: uint32, t: uint32)
    requires Get(parent, "#address-cells") == Some(Be32(2)) && Get(parent, "#size-cells") == Some(Be32(2))
    requires Get(body, "reg") == Some(Cells([0, a, 0, s, 0, b, 0, t]))
    ensures RegsUnder(parent, body) == Some([(a as nat, s as nat), (b as nat, t as nat)])
  {
    hide Get, Be32, ReadBe32, CellsOf, Cells;
    var cs: seq<uint32> := [0, a, 0, s, 0, b, 0, t];
    OneCellRead(2);
    CellsRead(cs);
    assert cs[..2] == [0, a] && cs[2..4] == [0, s] && cs[4..] == [0, b, 0, t];
    LowNumber(a);
    LowNumber(s);
    PairRead(b, t);
    assert [b as uint64 / TWO_32, b as uint64 % TWO_32, t as uint64 / TWO_32, t as uint64 % TWO_32] == [0, b, 0, t];
    assert Regs(cs, 2, 2) == [(NumberOf([0, a]), NumberOf([0, s]))] + Regs([0, b, 0, t], 2, 2);
    assert Regs(cs, 2, 2) == [(a as nat, s as nat), (b as nat, t as nat)];
  }

  lemma LowNumber(a: uint32)
    ensures NumberOf([0, a]) == a
  {
    TwoCellNumber(a);
  }

  // ----- virtio devices -----

  /** Each virtio device's register address and interrupt number. */
  function Slots(ctx: Context): seq<(uint32, uint32)> {
    [(0x0A00_0000, 16), (0x0A00_0200, 17), (0x0A00_0400, 19)]
    + (if ctx.gpu then [(0x0A00_0600, 20)] else []) + (if ctx.keyboard then [(0x0A00_0800, 21)] else [])
    + (if ctx.tablet then [(0x0A00_0A00, 22)] else [])
  }

  lemma SlotForms(ctx: Context)
    ensures |Attached(ctx)| == |Slots(ctx)|
    ensures forall i :: 0 <= i < |Slots(ctx)| ==>
              Attached(ctx)[i].body == Props(VirtioProps(Slots(ctx)[i].0, Slots(ctx)[i].1))
  {
    hide Props, VirtioProps, Text;
  }

  /** Behind the platform's nine nodes, one for each slot: 512 bytes of registers and one interrupt,
      edge-triggered. */
  predicate AllWired(r: Items, slots: seq<(uint32, uint32)>) {
    && |Children(r)| == 9 + |slots|
    && forall i :: 0 <= i < |slots| ==>
         && Wired(r, Children(r)[9 + i].body, slots[i].0, 0x200, [0, slots[i].1, 1])
         && Get(Children(r)[9 + i].body, "compatible") == Some(Text("virtio,mmio") + [0])
  }

  /** The tree has a node for each virtio device of the machine, and no other. */
  lemma VirtioIsWired(ctx: Context)
    ensures AllWired(Root(ctx), Slots(ctx))
  {
    hide Root, Nodes, Chosen, Memory, Psci, Cpus, Timer, Intc, ApbClk, Pl011, Pl031, Attached, Get, Cells, Be32, Wired,
         Props, VirtioProps, Text, StrList, Children, Slots;
    RootCard(ctx);
    PlatformAt(ctx);
    SlotForms(ctx);
    OneText("virtio,mmio");
    var ns, slots := Nodes(ctx), Slots(ctx);
    forall i | 0 <= i < |slots|
      ensures Wired(Root(ctx), ns[9 + i].body, slots[i].0, 0x200, [0, slots[i].1, 1])
      ensures Get(ns[9 + i].body, "compatible") == Some(Text("virtio,mmio") + [0])
    {
      assert ns[9 + i] == ns[9..][i];
      VirtioCard(slots[i].0, slots[i].1);
      WiredIs(Root(ctx), ns[9 + i].body, slots[i].0, 0x200, [0, slots[i].1, 1]);
    }
  }

  /** No two devices share registers or an interrupt, the serial port's (1) and the clock's (2)
      included. */
  lemma SlotsApart(ctx: Context, i: nat, j: nat)
    requires i < j < |Slots(ctx)|
    ensures Slots(ctx)[i].0 + 0x200 <= Slots(ctx)[j].0
    ensures Slots(ctx)[i].1 != Slots(ctx)[j].1 && Slots(ctx)[i].1 > 2 && Slots(ctx)[j].1 > 2
  {}

  lemma OneText(s: string)
    requires |s| < 100
    ensures StrList([s]) == Text(s) + [0]
  {
    assert [s][1..] == [] && Terminated([]) == [];
    assert Terminated([s]) == Text(s) + [0];
    assert U32(|Text(s) + [0]|) == |Text(s) + [0]|;
  }

  // ----- unit addresses -----

  /** A name of ASCII characters other than '@'. */
  predicate Bare(s: string) {
    forall c :: c in s ==> 0 < c as int < 128 && c != '@'
  }

  lemma BareText(s: string)
    requires Bare(s)
    ensures 64 !in Text(s)
  {
    forall i | 0 <= i < |s|
      ensures Text(s)[i] != 64
    {
      assert s[i] in s;
    }
  }

  lemma NoAt(name: string)
    requires Bare(name)
    ensures UnitAddress(Text(name)) == None
  {
    BareText(name);
    NoUnit(Text(name));
  }

  lemma AtText(prefix: string, digits: string)
    requires Bare(prefix)
    ensures UnitAddress(Text(prefix + "@" + digits)) == Some(Text(digits))
  {
    BareText(prefix);
    TextConcat(prefix + "@", digits);
    TextConcat(prefix, "@");
    assert Text("@") == [64];
    UnitOf(Text(prefix), Text(digits));
  }

  /** Seven hexadecimal digits as text. */
  lemma HexText(digits: string, d: seq<nat>)
    requires |digits| == |d| == 7 && forall i :: 0 <= i < 7 ==> HexDigit(Octet(digits[i])) == Some(d[i])
    ensures HexValue(Text(digits)) == Some(Seven(d))
  {
    hide HexDigit, HexValue, Octet;
    Hex7(Text(digits), d);
  }

  lemma Agrees(root: Items, n: Subnode, name: string, prefix: string, digits: string, d: seq<nat>, gpa: nat)
    requires n.name == Text(name) && name == prefix + "@" + digits && Bare(prefix)
    requires |digits| == |d| == 7 && forall i :: 0 <= i < 7 ==> HexDigit(Octet(digits[i])) == Some(d[i])
    requires gpa == Seven(d)
    requires var regs := RegsUnder(root, n.body); regs.Some? && regs.value != [] && regs.value[0].0 == gpa
    ensures AddressAgrees(root, n)
  {
    hide HexDigit, HexValue, Octet, UnitAddress, RegsUnder, Text, Bare;
    AtText(prefix, digits);
    HexText(digits, d);
  }

  lemma VirtioNames(ctx: Context, n: Subnode)
    requires n in Attached(ctx)
    ensures || n == CONSOLE || n == BLOCK || n == NET || n == GPU || n == KEYBOARD || n == TABLET
  {
    hide Virtio;
  }

  lemma VirtioAgrees(root: Items, n: Subnode, name: string, digits: string, d: seq<nat>, gpa: uint32, spi: uint32)
    requires n == Virtio(name, gpa, spi) && name == "virtio_mmio" + "@" + digits
    requires |digits| == |d| == 7 && forall i :: 0 <= i < 7 ==> HexDigit(Octet(digits[i])) == Some(d[i])
    requires gpa == Seven(d)
    requires Get(root, "#address-cells") == Some(Be32(2)) && Get(root, "#size-cells") == Some(Be32(2))
    ensures AddressAgrees(root, n)
  {
    hide HexDigit, Octet, RegsUnder, Text, Get, Cells, Props, VirtioProps, Be32, AddressAgrees;
    VirtioCard(gpa, spi);
    RegOfCells(root, n.body, gpa, VIRTIO_STRIDE);
    Agrees(root, n, name, "virtio_mmio", digits, d, gpa);
  }

  lemma AttachedAgree(root: Items, ctx: Context, n: Subnode)
    requires n in Attached(ctx)
    requires Get(root, "#address-cells") == Some(Be32(2)) && Get(root, "#size-cells") == Some(Be32(2))
    ensures AddressAgrees(root, n)
  {
    hide Text, Get, Be32, AddressAgrees, Virtio, Attached;
    VirtioNames(ctx, n);
    if n == CONSOLE {
      VirtioAgrees(root, n, "virtio_mmio@a000000", "a000000", [10, 0, 0, 0, 0, 0, 0], 0x0A00_0000, 16);
    } else if n == BLOCK {
      VirtioAgrees(root, n, "virtio_mmio@a000200", "a000200", [10, 0, 0, 0, 2, 0, 0], 0x0A00_0200, 17);
    } else if n == NET {
      VirtioAgrees(root, n, "virtio_mmio@a000400", "a000400", [10, 0, 0, 0, 4, 0, 0], 0x0A00_0400, 19);
    } else if n == GPU {
      VirtioAgrees(root, n, "virtio_mmio@a000600", "a000600", [10, 0, 0, 0, 6, 0, 0], 0x0A00_0600, 20);
    } else if n == KEYBOARD {
      VirtioAgrees(root, n, "virtio_mmio@a000800", "a000800", [10, 0, 0, 0, 8, 0, 0], 0x0A00_0800, 21);
    } else {
      VirtioAgrees(root, n, "virtio_mmio@a000a00", "a000a00", [10, 0, 0, 0, 10, 0, 0], 0x0A00_0A00, 22);
    }
  }

  lemma MemoryAgrees(root: Items, ctx: Context)
    requires RegsUnder(root, Memory(ctx).body) == Some([(ctx.ramGpa as nat, ctx.ramSize as nat)])
    ensures AddressAgrees(root, Memory(ctx))
  {
    hide RegsUnder, Props;
    assert Text("memory@") == Text("memory") + [64];
    assert "memory"[0] == 'm';
    BareText("memory");
    UnitOf(Text("memory"), Number(ctx.ramGpa, 16));
    HexRead(ctx.ramGpa);
  }

  lemma IntcAgrees(root: Items, ctx: Context)
    requires Get(root, "#address-cells") == Some(Be32(2)) && Get(root, "#size-cells") == Some(Be32(2))
    ensures AddressAgrees(root, Intc())
  {
    hide HexDigit, Octet, RegsUnder, Text, Get, Cells, Be32, AddressAgrees, Intc, Pl011, Pl031, Chosen, Psci, Cpus,
         Timer, ApbClk;
    PlatformNames(ctx);
    IntcCard();
    TwoRegs(root, Intc().body, 0x0800_0000, 0x1_0000, 0x080A_0000, 0x10_0000);
    DigitsOf();
    Agrees(root, Intc(), "intc@8000000", "intc", "8000000", [8, 0, 0, 0, 0, 0, 0], 0x0800_0000);
  }

  lemma PeripheralsAgree(root: Items, ctx: Context)
    requires Get(root, "#address-cells") == Some(Be32(2)) && Get(root, "#size-cells") == Some(Be32(2))
    ensures AddressAgrees(root, Pl011()) && AddressAgrees(root, Pl031())
  {
    hide HexDigit, Octet, RegsUnder, Text, Get, Cells, Be32, AddressAgrees, Intc, Pl011, Pl031, Chosen, Psci, Cpus,
         Timer, ApbClk;
    PlatformNames(ctx);
    Pl011Card();
    Pl031Card();
    RegOfCells(root, Pl011().body, 0x0900_0000, 0x1000);
    RegOfCells(root, Pl031().body, 0x0901_0000, 0x1000);
    DigitsOf();
    Agrees(root, Pl011(), "pl011@9000000", "pl011", "9000000", [9, 0, 0, 0, 0, 0, 0], 0x0900_0000);
    Agrees(root, Pl031(), "pl031@9010000", "pl031", "9010000", [9, 0, 1, 0, 0, 0, 0], 0x0901_0000);
  }

  lemma DigitsOf()
    ensures HexDigit(Octet('0')) == Some(0) && HexDigit(Octet('1')) == Some(1) && HexDigit(Octet('2')) == Some(2)
    ensures HexDigit(Octet('4')) == Some(4) && HexDigit(Octet('6')) == Some(6) && HexDigit(Octet('8')) == Some(8)
    ensures HexDigit(Octet('9')) == Some(9) && HexDigit(Octet('a')) == Some(10)
  {}

  /** Every node below the root: its unit address, if it has one, is the first address of its
      `reg`. */
  lemma UnitAddressesAgree(ctx: Context, n: Subnode)
    requires n in Children(Root(ctx))
    ensures AddressAgrees(Root(ctx), n)
  {
    hide Root, Nodes, Chosen, Memory, Psci, Cpus, Timer, Intc, ApbClk, Pl011, Pl031, Attached, Get, Be32, Text,
         Children, RegsUnder, AddressAgrees;
    RootCard(ctx);
    PlatformAt(ctx);
    PlatformNames(ctx);
    IntcAgrees(Root(ctx), ctx);
    PeripheralsAgree(Root(ctx), ctx);
    MemoryCard(ctx);
    RegOfPair(Root(ctx), Memory(ctx).body, ctx.ramGpa, ctx.ramSize);
    MemoryAgrees(Root(ctx), ctx);
    var ns := Nodes(ctx);
    var i :| 0 <= i < |ns| && ns[i] == n;
    if i >= 9 {
      assert n == ns[9..][i - 9];
      AttachedAgree(Root(ctx), ctx, n);
    } else if i == 0 {
      NamelessAgrees(Root(ctx), n, "chosen");
    } else if i == 2 {
      NamelessAgrees(Root(ctx), n, "psci");
    } else if i == 3 {
      NamelessAgrees(Root(ctx), n, "cpus");
    } else if i == 4 {
      NamelessAgrees(Root(ctx), n, "timer");
    } else if i == 6 {
      NamelessAgrees(Root(ctx), n, "apb-clk");
    }
  }

  lemma NamelessAgrees(root: Items, n: Subnode, name: string)
    requires n.name == Text(name) && Bare(name)
    ensures AddressAgrees(root, n)
  {
    NoAt(name);
  }

  lemma CpuAgreesIff(parent: Items, i: uint32)
    requires RegsUnder(parent, Cpu(i).body) == Some([(i as nat, 0)])
    ensures AddressAgrees(parent, Cpu(i)) <==> i < 10
  {
    hide RegsUnder, Props;
    assert Text("cpu@") == Text("cpu") + [64];
    assert "cpu"[0] == 'c';
    BareText("cpu");
    UnitOf(Text("cpu"), Number(i, 10));
    DecimalAsHex(i);
  }

  /** A processor's number is printed in decimal, and unit addresses are hexadecimal: those of the
      processors agree if and only if there are at most ten. */
  lemma CpuUnitsAgreeIff(ctx: Context)
    ensures Sub(Root(ctx), "cpus").Some?
    ensures var b := Sub(Root(ctx), "cpus").value;
            (forall n :: n in Children(b) ==> AddressAgrees(b, n)) <==> ctx.vcpus <= 10
  {
    hide Root, Cpus, Cpu, Psci, Get, Text, Be32, Children, RegsUnder, Sub, AddressAgrees;
    PlatformFound(ctx);
    CpusCard(ctx.vcpus);
    var b, ns := Cpus(ctx.vcpus).body, CpuNodes(ctx.vcpus);
    forall i: nat | i < ctx.vcpus
      ensures AddressAgrees(b, ns[i]) <==> i < 10
    {
      CpuCard(i);
      CpuReg(b, Cpu(i).body, i);
      CpuAgreesIff(b, i);
    }
    if ctx.vcpus > 10 {
      assert ns[10] in ns;
    }
  }

  // ----- references -----

  /** The bodies of a list of nodes and of all below them. */
  function Flat(ns: seq<Subnode>): seq<Items> {
    if ns == [] then [] else [ns[0].body] + AllNodes(ns[0].body) + Flat(ns[1..])
  }

  lemma {:induction false} NodesOfThen(ps: seq<Prop>, ns: seq<Subnode>)
    ensures AllNodes(Then(Props(ps), Subnodes(ns))) == Flat(ns)
    decreases |ps|, |ns|
  {
    if ps != [] {
      NodesOfThen(ps[1..], ns);
    } else if ns != [] {
      NodesOfThen([], ns[1..]);
      assert Then(Props([]), Subnodes(ns)) == Subnodes(ns) && Then(Props([]), Subnodes(ns[1..])) == Subnodes(ns[1..]);
    }
  }

  lemma {:induction false} FlatConcat(a: seq<Subnode>, b: seq<Subnode>)
    ensures Flat(a + b) == Flat(a) + Flat(b)
    decreases |a|
  {
    if a == [] {
      assert a + b == b;
    } else {
      assert (a + b)[1..] == a[1..] + b;
      FlatConcat(a[1..], b);
    }
  }

  /** The `j`th node is named by phandle `p`. */
  predicate Holder(nodes: seq<Items>, j: nat, p: uint32) {
    j < |nodes| && Cell(nodes[j], "phandle") == Some(p)
  }

  /** `p` is the phandle of exactly one node. */
  ghost predicate NamesOne(nodes: seq<Items>, p: uint32) {
    exists j: nat :: Holder(nodes, j, p) && forall k: nat :: Holder(nodes, k, p) ==> k == j
  }

  /** A node without a phandle, whose references are to the two phandles of the tree. */
  predicate Fine(b: Items) {
    Get(b, "phandle") == None && forall p :: p in References(b) ==> p == 1 || p == 2
  }

  lemma PlainIsFine(b: Items)
    requires Plain(b)
    ensures Fine(b)
  {
    hide Get;
  }

  lemma ClocksFine(b: Items, cs: seq<uint32>)
    requires Get(b, "phandle") == None && Get(b, "interrupt-parent") == None && Get(b, "clocks") == Some(Cells(cs))
    requires |cs| < 100 && forall c :: c in cs ==> c == 2
    ensures Fine(b)
  {
    hide Get, Cells, CellsOf;
    CellsRead(cs);
  }

  lemma RootFine(r: Items)
    requires Get(r, "phandle") == None && Get(r, "clocks") == None && Get(r, "interrupt-parent") == Some(Be32(1))
    ensures Fine(r) && 1 in References(r)
  {
    hide Get, Be32, CellsOf;
    OneCellRead(1);
  }

  predicate FineLeaf(n: Subnode) {
    Fine(n.body) && AllNodes(n.body) == []
  }

  lemma {:induction false} FlatFine(ns: seq<Subnode>)
    requires forall n :: n in ns ==> FineLeaf(n)
    ensures forall b :: b in Flat(ns) ==> Fine(b)
    decreases |ns|
  {
    hide Fine;
    if ns != [] {
      assert FineLeaf(ns[0]);
      FlatFine(ns[1..]);
    }
  }

  lemma LeafFine(n: Subnode, ps: seq<Prop>)
    requires n.body == Props(ps) && Fine(n.body)
    ensures FineLeaf(n)
  {
    hide Fine;
    LeafHasNoChildren(ps);
  }

  lemma FrontFine(ctx: Context, n: Subnode)
    requires n == Chosen(ctx) || n == Memory(ctx) || n == Psci() || n == Timer()
    ensures FineLeaf(n)
  {
    hide Get, Fine, Props, Chosen, Memory, Psci, Timer, Plain;
    PropertiesOnly(ctx);
    if n == Chosen(ctx) {
      ChosenCard(ctx);
      PlainIsFine(n.body);
      LeafFine(n, ChosenProps(ctx));
    } else if n == Memory(ctx) {
      MemoryCard(ctx);
      PlainIsFine(n.body);
      LeafFine(n, MemoryProps(ctx));
    } else if n == Psci() {
      PsciCard();
      PlainIsFine(n.body);
      LeafFine(n, PsciProps());
    } else {
      TimerCard();
      PlainIsFine(n.body);
      LeafFine(n, TimerProps());
    }
  }

  lemma PropertiesOnly(ctx: Context)
    ensures Chosen(ctx).body == Props(ChosenProps(ctx)) && Memory(ctx).body == Props(MemoryProps(ctx))
    ensures Psci().body == Props(PsciProps()) && Timer().body == Props(TimerProps())
    ensures Intc().body == Props(IntcProps()) && ApbClk().body == Props(ApbClkProps())
  {
    hide Props, ChosenProps, MemoryProps, PsciProps, TimerProps, IntcProps, ApbClkProps, Text, Number;
  }

  lemma PlBodies()
    ensures exists ps :: Pl011().body == Props(ps)
    ensures exists ps :: Pl031().body == Props(ps)
  {
    hide Props, PeripheralProps, Text;
    assert Pl011().body == Props(PeripheralProps(["arm,pl011", "arm,primecell"], 0x0900_0000, 1, [PH_CLOCK, PH_CLOCK],
                                                 ["uartclk", "apb_pclk"]));
    assert Pl031().body == Props(PeripheralProps(["arm,pl031", "arm,primecell"], 0x0901_0000, 2, [PH_CLOCK],
                                                 ["apb_pclk"]));
  }

  lemma CpusFine(ctx: Context)
    ensures Fine(Cpus(ctx.vcpus).body) && forall b :: b in AllNodes(Cpus(ctx.vcpus).body) ==> Fine(b)
  {
    hide Get, Fine, Plain, Flat, AllNodes, Props, CpuProps, Subnodes, Then, CpuNodes, Be32, Text, FineLeaf;
    CpusCard(ctx.vcpus);
    PlainIsFine(Cpus(ctx.vcpus).body);
    NodesOfThen(CpusProps(), CpuNodes(ctx.vcpus));
    var ns := CpuNodes(ctx.vcpus);
    forall n | n in ns
      ensures FineLeaf(n)
    {
      var i: nat :| i < |ns| && ns[i] == n;
      CpuCard(i);
      PlainIsFine(n.body);
      LeafFine(n, CpuProps(i));
    }
    FlatFine(ns);
  }

  lemma BackFine(ctx: Context, n: Subnode)
    requires n == Pl011() || n == Pl031() || n in Attached(ctx)
    ensures FineLeaf(n)
  {
    hide Get, Fine, Props, Pl011, Pl031, Attached, VirtioProps, Cells, Plain, FineLeaf;
    PlBodies();
    if n == Pl011() {
      Pl011Card();
      ClocksFine(n.body, [2, 2]);
      var ps :| n.body == Props(ps);
      LeafFine(n, ps);
    } else if n == Pl031() {
      Pl031Card();
      ClocksFine(n.body, [2]);
      var ps :| n.body == Props(ps);
      LeafFine(n, ps);
    } else {
      var gpa, spi := AttachedForm(ctx, n);
      VirtioCard(gpa, spi);
      PlainIsFine(n.body);
      LeafFine(n, VirtioProps(gpa, spi));
    }
  }

  /** With two phandles, 1 and 2, each of them names one node. */
  lemma TwoPhandles(pre: seq<Items>, a: Items, b: Items, post: seq<Items>)
    requires forall x :: x in pre || x in post ==> Get(x, "phandle") == None
    requires Get(a, "phandle") == Some(Be32(1)) && Get(b, "phandle") == Some(Be32(2))
    ensures NamesOne(pre + [a] + [b] + post, 1) && NamesOne(pre + [a] + [b] + post, 2)
  {
    hide Get, Be32, ReadBe32;
    OneCellRead(1);
    OneCellRead(2);
    var nodes := pre + [a] + [b] + post;
    var n := |pre|;
    forall k: nat | k < |nodes| && k != n && k != n + 1
      ensures Cell(nodes[k], "phandle") == None
    {
      assert nodes[k] in pre || nodes[k] in post;
    }
    assert nodes[n] == a && nodes[n + 1] == b;
    assert Holder(nodes, n, 1) && Holder(nodes, n + 1, 2);
  }

  /** The nodes of the tree: those before the interrupt controller and the clock, these two, and
      those after. */
  lemma NodesOfTree(ctx: Context) returns (pre: seq<Items>, post: seq<Items>)
    ensures AllNodes(IntendedTree(ctx)) == pre + [Intc().body] + [ApbClk().body] + post
    ensures forall b :: b in pre || b in post ==> Fine(b)
  {
    hide Fine, FineLeaf, Flat, AllNodes, Platform, Attached, Chosen, Memory, Psci, Cpus, Timer, Intc, ApbClk, Pl011,
         Pl031, Root, Props, Then, Subnodes, RootProps, Get;
    var front := [Chosen(ctx), Memory(ctx), Psci()];
    var cpus, timer, intc, clk := [Cpus(ctx.vcpus)], [Timer()], [Intc()], [ApbClk()];
    var back := [Pl011(), Pl031()] + Attached(ctx);
    AllOfTree(ctx);
    SplitPlatform(ctx);
    FlatConcat(front + cpus + timer + intc + clk, back);
    FlatConcat(front + cpus + timer + intc, clk);
    FlatConcat(front + cpus + timer, intc);
    FlatConcat(front + cpus, timer);
    FlatConcat(front, cpus);
    forall n | n in front + timer
      ensures FineLeaf(n)
    {
      FrontFine(ctx, n);
    }
    forall n | n in back
      ensures FineLeaf(n)
    {
      BackFine(ctx, n);
    }
    FlatFine(front);
    FlatFine(timer);
    FlatFine(back);
    CpusFine(ctx);
    RootCard(ctx);
    RootFine(Root(ctx));
    FlatOne(cpus[0]);
    FlatOne(intc[0]);
    FlatOne(clk[0]);
    ControllersAreLeaves(ctx);
    pre := [Root(ctx)] + Flat(front) + Flat(cpus) + Flat(timer);
    post := Flat(back);
    assert pre + [Intc().body] + [ApbClk().body] + post
           == [Root(ctx)] + (Flat(front) + Flat(cpus) + Flat(timer) + [Intc().body] + [ApbClk().body] + post);
  }

  lemma FlatOne(n: Subnode)
    ensures Flat([n]) == [n.body] + AllNodes(n.body)
  {
    hide AllNodes;
    assert [n][1..] == [] && Flat([]) == [];
  }

  lemma ControllersAreLeaves(ctx: Context)
    ensures AllNodes(Intc().body) == [] && AllNodes(ApbClk().body) == []
  {
    hide AllNodes, Props, Intc, ApbClk, Chosen, Memory, Psci, Timer;
    PropertiesOnly(ctx);
    LeafHasNoChildren(IntcProps());
    LeafHasNoChildren(ApbClkProps());
  }

  lemma SplitPlatform(ctx: Context)
    ensures Platform(ctx) + Attached(ctx)
            == [Chosen(ctx), Memory(ctx), Psci()] + [Cpus(ctx.vcpus)] + [Timer()] + [Intc()] + [ApbClk()]
               + ([Pl011(), Pl031()] + Attached(ctx))
  {
    hide Chosen, Memory, Psci, Cpus, Timer, Intc, ApbClk, Pl011, Pl031, Attached;
  }

  lemma AllOfTree(ctx: Context)
    ensures AllNodes(IntendedTree(ctx)) == [Root(ctx)] + Flat(Platform(ctx) + Attached(ctx))
  {
    hide Platform, Attached, RootProps, Props, Then, Subnodes, Flat;
    NodesOfThen(RootProps(), Platform(ctx) + Attached(ctx));
    assert AllNodes(Nil) == [];
  }

  /** Every `interrupt-parent` and every `clocks` cell in the tree is the phandle of exactly one
      node; and the root's interrupt parent is there. */
  lemma ReferencesResolve(ctx: Context, b: Items, p: uint32)
    requires b in AllNodes(IntendedTree(ctx)) && p in References(b)
    ensures NamesOne(AllNodes(IntendedTree(ctx)), p)
  {
    hide IntendedTree, AllNodes, References, NamesOne, Get, Intc, ApbClk, Be32;
    var pre, post := NodesOfTree(ctx);
    IntcCard();
    ApbClkCard();
    forall x | x in pre || x in post
      ensures Get(x, "phandle") == None
    {
      assert Fine(x);
    }
    TwoPhandles(pre, Intc().body, ApbClk().body, post);
    if b in pre || b in post {
      assert Fine(b);
    } else {
      NoReferences(b);
    }
  }

  lemma NoReferences(b: Items)
    requires Get(b, "clocks") == None && Get(b, "interrupt-parent") == None
    ensures References(b) == []
  {
    hide Get;
  }

  // ----- the blob -----

  /** What a kernel learns from a root node: in its widths, the machine's RAM; where the ramdisk of
      `/chosen` is; unit addresses that agree with `reg`; and the virtio devices. */
  predicate Tells(r: Items, ctx: Context) {
    var ms, chosen := Typed(Children(r), "memory"), Sub(r, "chosen");
    && |ms| == 1 && RegsUnder(r, ms[0].body) == Some([(ctx.ramGpa, ctx.ramSize)])
    && chosen.Some? && ChosenRight(chosen.value, ctx)
    && (forall n :: n in Children(r) ==> AddressAgrees(r, n))
    && AllWired(r, Slots(ctx))
  }

  /** The blob reserves the area it is loaded to, 4 MiB from 0x40000000, and parses to one nameless
      node, which tells a kernel what the machine is. */
  lemma BlobTellsKernel(blob: seq<byte>, ctx: Context)
    requires Describes(blob, ctx) && |blob| < TWO_32
    ensures match ParseDtb(blob)
            case Some(dtb) =>
              && dtb.reservations == [Reservation(0x4000_0000, 0x40_0000)]
              && dtb.items.Node? && dtb.items.name == [] && dtb.items.rest == Nil && Tells(dtb.items.body, ctx)
            case None => false
  {
    hide ParseDtb, RegsUnder, Typed, Children, ChosenRight, Sub, AddressAgrees, AllWired, Slots, Props, Then,
         Subnodes, Platform, Attached, RootProps;
    MemoryIsRam(ctx);
    ChosenIsRight(ctx);
    VirtioIsWired(ctx);
    forall n | n in Children(Root(ctx))
      ensures AddressAgrees(Root(ctx), n)
    {
      UnitAddressesAgree(ctx, n);
    }
  }
}
