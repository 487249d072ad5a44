/** What the guest makes of the input device's events: the bytes in its buffers, and the keys,
    axes and buttons it sees, with the numbers of the Linux input event codes. */
module InputReports {
  import opened Bytes
  import opened SplitRing
  import opened Virtqueue
  import opened InputEvents
  import opened InputDevice

  // ----- one event in one buffer -----

  /** The buffer's descriptor is in RAM, device-writable (bit 1 of the flags) and holds 8 bytes. */
  predicate TakesEvent(d: Desc, base: uint64, size: nat) {
    base <= d.addr < base + size && d.flags / 2 % 2 == 1 && d.len >= 8
  }

  /** Type, code and value, little-endian. */
  predicate EventAt(ram: seq<byte>, at: nat, e: InputEvent) {
    && at + 8 <= |ram|
    && ram[at] as int + 0x100 * ram[at + 1] as int == e.kind as int
    && ram[at + 2] as int + 0x100 * ram[at + 3] as int == e.code as int
    && ram[at + 4] as int + 0x100 * ram[at + 5] as int + 0x1_0000 * ram[at + 6] as int + 0x100_0000 * ram[at + 7] as int
       == e.value as int
  }

  lemma WireBytes(e: InputEvent)
    ensures EventAt(Wire(e), 0, e)
  {
    var v := e.value;
    assert v == v / TWO_16 * TWO_16 + v % TWO_16;
  }

  /** One pass of the flush loop: the next posted buffer gets the oldest event and is used with
      length 8; a buffer that cannot take it is passed over, and nothing else happens. */
  lemma EventInBuffer(w: World, base: uint64, desc: seq<Desc>)
    requires Trusted(w, base, desc) && Busy(w)
    ensures var head := w.ring.avail[w.ring.lastAvail % 64];
            var d, w' := desc[head], FlushStep(w, base, desc);
            && w'.ring.lastAvail == U16(w.ring.lastAvail + 1) && |w'.ram| == |w.ram|
            && if TakesEvent(d, base, |w.ram|) then
                 var at := d.addr - base;
                 && EventAt(w'.ram, at, w.pending[0]) && w'.pending == w.pending[1..]
                 && (forall p :: 0 <= p < |w.ram| && !(at <= p < at + 8) ==> w'.ram[p] == w.ram[p])
                 && w'.ring.usedIdx == U16(w.ring.usedIdx + 1)
                 && w'.ring.used == w.ring.used[w.ring.usedIdx % 64 := Used(head, 8)]
               else
                 w'.ram == w.ram && w'.pending == w.pending && w'.ring.used == w.ring.used
                 && w'.ring.usedIdx == w.ring.usedIdx
  {
    hide U16, Wire;
    var d := desc[w.ring.avail[w.ring.lastAvail % 64]];
    if TakesEvent(d, base, |w.ram|) {
      assert d in desc;
      WireBytes(w.pending[0]);
      var at := d.addr - base;
      var ram := Splice(w.ram, at, Wire(w.pending[0]));
      assert forall k :: 0 <= k < 8 ==> ram[at + k] == Wire(w.pending[0])[k];
    }
  }

  // ----- what the guest's input layer sees -----

  /** The guest's picture of the device: for each type and code the last value, as of the last
      synchronization, and the values reported since. */
  datatype Picture = Picture(shown: map<(uint16, uint16), uint32>, reported: map<(uint16, uint16), uint32>)

  /** An event of type 0 and code 0 makes the values reported since the last one visible. */
  function See(p: Picture, e: InputEvent): Picture {
    if e.kind == 0 && e.code == 0 then Picture(p.shown + p.reported, map[])
    else p.(reported := p.reported[(e.kind, e.code) := e.value])
  }

  function SeeAll(p: Picture, es: seq<InputEvent>): Picture {
    if es == [] then p else See(SeeAll(p, es[..|es| - 1]), es[|es| - 1])
  }

  lemma SeeOne(p: Picture, es: seq<InputEvent>, e: InputEvent)
    ensures SeeAll(p, es + [e]) == See(SeeAll(p, es), e)
  {
    assert (es + [e])[..|es|] == es;
  }

  /** A key (type 1) is seen pressed or released, at once and by itself. */
  lemma KeyIsSeen(shown: map<(uint16, uint16), uint32>, code: uint16, pressed: bool)
    ensures SeeAll(Picture(shown, map[]), KeyReport(code, pressed))
            == Picture(shown[(1, code) := if pressed then 1 else 0], map[])
  {
    var p := Picture(shown, map[]);
    var es := KeyReport(code, pressed);
    SeeOne(p, [], es[0]);
    SeeOne(p, [es[0]], es[1]);
    assert es == [] + [es[0]] + [es[1]] && [] + [es[0]] == [es[0]];
  }

  /** A pointer report is seen at once: the axes 0 and 1 of type 3 are x and y, and the buttons
      0x110 and 0x111 of type 1 the left and the right one. */
  lemma PointerIsSeen(shown: map<(uint16, uint16), uint32>, x: uint32, y: uint32, left: bool, right: bool)
    ensures SeeAll(Picture(shown, map[]), PointerReport(x, y, left, right))
            == Picture(shown[(3, 0) := x][(3, 1) := y][(1, 0x110) := if left then 1 else 0]
                            [(1, 0x111) := if right then 1 else 0], map[])
  {
    hide See;
    var p := Picture(shown, map[]);
    var es := PointerReport(x, y, left, right);
    var p1, p2 := See(p, es[0]), See(See(p, es[0]), es[1]);
    SeeOne(p, [], es[0]);
    SeeOne(p, [es[0]], es[1]);
    SeeOne(p, [es[0], es[1]], es[2]);
    SeeOne(p, [es[0], es[1], es[2]], es[3]);
    SeeOne(p, [es[0], es[1], es[2], es[3]], es[4]);
    assert [] + [es[0]] == [es[0]] && [es[0]] + [es[1]] == [es[0], es[1]];
    assert [es[0], es[1]] + [es[2]] == [es[0], es[1], es[2]];
    assert [es[0], es[1], es[2]] + [es[3]] == [es[0], es[1], es[2], es[3]];
    assert [es[0], es[1], es[2], es[3]] + [es[4]] == es;
    FiveSeen(shown, x, y, if left then 1 else 0, if right then 1 else 0);
  }

  lemma FiveSeen(shown: map<(uint16, uint16), uint32>, x: uint32, y: uint32, l: uint32, r: uint32)
    ensures See(See(See(See(See(Picture(shown, map[]), InputEvent(3, 0, x)), InputEvent(3, 1, y)),
                            InputEvent(1, 0x110, l)), InputEvent(1, 0x111, r)), InputEvent(0, 0, 0))
            == Picture(shown[(3, 0) := x][(3, 1) := y][(1, 0x110) := l][(1, 0x111) := r], map[])
  {}

  /** With an empty backlog and room for the report, the driver finds the whole report in its
      buffers and nothing is left waiting. */
  lemma ReportReachesDriver(w: World, base: uint64, desc: seq<Desc>, report: seq<InputEvent>)
    requires Trusted(w, base, desc) && w.pending == [] && |report| <= 128
    requires Left(w, base, desc) >= |report|
    ensures var w1 := w.(pending := PushAll([], report));
            && Trusted(w1, base, desc) && Written(w1, base, desc) == report && Flush(w1, base, desc).pending == []
            && Flush(w1, base, desc).ring.usedIdx == U16(w.ring.usedIdx + |report|)
  {
    hide Written, Flush, Left, U16;
    PushAllKeepsNewest([], report);
    assert [] + report == report;
    var w1 := w.(pending := PushAll([], report));
    FlushDelivers(w1, base, desc);
    LeftIgnoresBacklog(w, base, desc, w1.pending);
    assert report[..|report|] == report;
  }

  lemma LeftIgnoresBacklog(w: World, base: uint64, desc: seq<Desc>, pending: seq<InputEvent>)
    requires Trusted(w, base, desc)
    ensures Left(w.(pending := pending), base, desc) == Left(w, base, desc)
  {}

  /** Every posted status buffer comes back, in order and with length 0. */
  lemma {:induction false} StatusReturned(r: Ring)
    requires Sized(r, QUEUE_SIZE)
    ensures ReturnAll(r) == ReturnNext(r, QUEUE_SIZE, Backlog(r))
    decreases Backlog(r)
  {
    hide Backlog;
    if HasWork(r) {
      BacklogDecreases(r, QUEUE_SIZE, 0);
      StatusReturned(Complete(r, QUEUE_SIZE, 0));
      ReturnNextFromFront(r, QUEUE_SIZE, Backlog(r));
    } else {
      NoBacklog(r);
    }
  }

  lemma NoBacklog(r: Ring)
    requires !HasWork(r)
    ensures Backlog(r) == 0
  {}
}
