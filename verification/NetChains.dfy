/** Transmit chains of src/virtio/net.cpp: when the walk over a chain ends, and the frame it
    gathers. */
module NetChains {
  import opened Bytes
  import opened GuestMemory
  import opened Virtqueue

  const HDR_SIZE := 12

  predicate Linked(desc: seq<Desc>) {
    forall i :: 0 <= i < |desc| ==> desc[i].next < |desc|
  }

  /** The descriptor `n` links on from `c`. */
  function Walk(desc: seq<Desc>, c: uint16, n: nat): (d: uint16)
    requires Linked(desc) && c < |desc|
    ensures d < |desc|
  {
    if n == 0 then c else desc[Walk(desc, c, n - 1)].next
  }

  /** The walk meets a descriptor without a next within `n` of them. */
  ghost predicate EndsWithin(desc: seq<Desc>, c: uint16, n: nat)
    requires Linked(desc) && c < |desc|
  {
    exists k :: 0 <= k < n && !desc[Walk(desc, c, k)].HasNext()
  }

  ghost predicate GoesOn(desc: seq<Desc>, c: uint16, n: nat)
    requires Linked(desc) && c < |desc|
  {
    forall k :: 0 <= k < n ==> desc[Walk(desc, c, k)].HasNext()
  }

  /** Following links comes back to a descriptor already visited. */
  ghost predicate Cyclic(desc: seq<Desc>, c: uint16)
    requires Linked(desc) && c < |desc|
  {
    exists i, j :: 0 <= i < j && GoesOn(desc, c, j) && Walk(desc, c, i) == Walk(desc, c, j)
  }

  /** Among more than `n` numbers below `n`, two are equal. */
  lemma {:induction false} Pigeonhole(s: seq<nat>, n: nat) returns (i: nat, j: nat)
    requires |s| > n && forall k :: 0 <= k < |s| ==> s[k] < n
    ensures i < j < |s| && s[i] == s[j]
    decreases n
  {
    var last := |s| - 1;
    if k :| 0 <= k < last && s[k] == s[last] {
      i, j := k, last;
    } else {
      // No other element equals the last: drop it, and rename n - 1 to its value.
      var t := seq(last, k requires 0 <= k < last => if s[k] == n - 1 then s[last] else s[k]);
      i, j := Pigeonhole(t, n - 1);
      assert t[i] == t[j];
    }
  }

  lemma {:induction false} Periodic(desc: seq<Desc>, c: uint16, i: nat, j: nat, k: nat)
    requires Linked(desc) && c < |desc| && i < j && Walk(desc, c, i) == Walk(desc, c, j)
    ensures Walk(desc, c, i + k) == Walk(desc, c, j + k)
    decreases k
  {
    if k > 0 {
      Periodic(desc, c, i, j, k - 1);
    }
  }

  lemma {:induction false} CyclicGoesOn(desc: seq<Desc>, c: uint16, i: nat, j: nat, k: nat)
    requires Linked(desc) && c < |desc| && i < j && GoesOn(desc, c, j) && Walk(desc, c, i) == Walk(desc, c, j)
    ensures desc[Walk(desc, c, k)].HasNext()
    decreases k
  {
    if k >= j {
      Periodic(desc, c, i, j, k - j);
      CyclicGoesOn(desc, c, i, j, i + (k - j));
    }
  }

  lemma LongWalkRevisits(desc: seq<Desc>, c: uint16)
    requires Linked(desc) && c < |desc| && !EndsWithin(desc, c, |desc|)
    ensures Cyclic(desc, c)
  {
    var n := |desc|;
    var visited := seq(n + 1, k requires 0 <= k <= n => Walk(desc, c, k));
    var i, j := Pigeonhole(visited, n);
    assert GoesOn(desc, c, j) && Walk(desc, c, i) == Walk(desc, c, j);
  }

  /** The walk ends exactly when the chain is acyclic, and then within the table's size. */
  lemma EndsIffAcyclic(desc: seq<Desc>, c: uint16)
    requires Linked(desc) && c < |desc|
    ensures EndsWithin(desc, c, |desc|) <==> !Cyclic(desc, c)
    ensures EndsWithin(desc, c, |desc|) <==> exists n :: EndsWithin(desc, c, n)
  {
    if Cyclic(desc, c) {
      var i, j :| 0 <= i < j && GoesOn(desc, c, j) && Walk(desc, c, i) == Walk(desc, c, j);
      forall k: nat
        ensures desc[Walk(desc, c, k)].HasNext()
      {
        CyclicGoesOn(desc, c, i, j, k);
      }
    } else if !EndsWithin(desc, c, |desc|) {
      LongWalkRevisits(desc, c);
      assert false;
    }
  }

  /** A descriptor that links to itself: the walk never ends. */
  lemma SelfLinkNeverEnds()
    ensures var desc := [Desc(0, 0, 1, 0)]; Linked(desc) && Cyclic(desc, 0) && forall n :: !EndsWithin(desc, 0, n)
  {
    var desc := [Desc(0, 0, 1, 0)];
    assert Walk(desc, 0, 0) == 0 && desc[0].HasNext();
    assert Walk(desc, 0, 1) == desc[Walk(desc, 0, 0)].next;
    assert GoesOn(desc, 0, 1) && Walk(desc, 0, 0) == Walk(desc, 0, 1);
    EndsIffAcyclic(desc, 0);
  }

  // ----- the frame -----

  /** One buffer's part of the frame; buffers outside RAM add nothing. */
  function Part(ram: seq<byte>, base: uint64, d: Desc): seq<byte>
    requires Whole(base, |ram|, d.addr, d.len)
  {
    match Translate(base, |ram|, d.addr)
    case Some(at) => ram[at..at + d.len]
    case None => []
  }

  function Concat(ram: seq<byte>, base: uint64, desc: seq<Desc>, chain: seq<uint16>): seq<byte>
    requires WholeTable(base, |ram|, desc) && forall i :: 0 <= i < |chain| ==> chain[i] < |desc|
  {
    if chain == [] then []
    else
      assert desc[chain[0]] in desc;
      Part(ram, base, desc[chain[0]]) + Concat(ram, base, desc, chain[1..])
  }

  /** What the stack is given for a chain: its bytes without the virtio-net header, if any. */
  function FrameOf(all: seq<byte>): Option<seq<byte>> {
    if |all| > HDR_SIZE then Some(all[HDR_SIZE..]) else None
  }

  lemma WalkShift(desc: seq<Desc>, c: uint16, k: nat)
    requires Linked(desc) && c < |desc|
    ensures Walk(desc, desc[c].next, k) == Walk(desc, c, k + 1)
    decreases k
  {
    if k > 0 {
      WalkShift(desc, c, k - 1);
    }
  }

  /** A chain that goes on ends one step sooner from its next descriptor. */
  lemma EndsSooner(desc: seq<Desc>, c: uint16, n: nat)
    requires Linked(desc) && c < |desc| && EndsWithin(desc, c, n) && desc[c].HasNext()
    ensures n > 0 && EndsWithin(desc, desc[c].next, n - 1)
  {
    var k :| 0 <= k < n && !desc[Walk(desc, c, k)].HasNext();
    WalkShift(desc, c, k - 1);
  }

  lemma ConcatStep(ram: seq<byte>, base: uint64, desc: seq<Desc>, c: uint16, rest: seq<uint16>)
    requires WholeTable(base, |ram|, desc) && c < |desc| && forall i :: 0 <= i < |rest| ==> rest[i] < |desc|
    ensures Whole(base, |ram|, desc[c].addr, desc[c].len)
    ensures Concat(ram, base, desc, [c] + rest) == Part(ram, base, desc[c]) + Concat(ram, base, desc, rest)
  {
    assert desc[c] in desc && ([c] + rest)[1..] == rest;
  }

  /** The gather loop, for a chain that ends. */
  method GatherFrame(ram: seq<byte>, base: uint64, desc: seq<Desc>, head: uint16) returns (frame: seq<byte>)
    requires Linked(desc) && head < |desc| && WholeTable(base, |ram|, desc) && !Cyclic(desc, head)
    ensures frame == Concat(ram, base, desc, Chain(desc, head, |desc|))
  {
    hide WholeTable, Whole, Translate, Part, Concat, Chain, EndsWithin, Walk, Cyclic, Desc.HasNext;
    EndsIffAcyclic(desc, head);
    frame := [];
    var cur: uint16 := head;
    ghost var fuel: nat := |desc|;
    ghost var total := Concat(ram, base, desc, Chain(desc, head, |desc|));
    while true
      invariant cur < |desc| && fuel <= |desc| && EndsWithin(desc, cur, fuel)
      invariant total == frame + Concat(ram, base, desc, Chain(desc, cur, fuel))
      decreases fuel
    {
      GatherStep(ram, base, desc, cur, fuel, frame);
      var d := desc[cur];
      PartIs(ram, base, d, frame);
      match Translate(base, |ram|, d.addr) {
        case Some(at) =>
          if d.len != 0 {
            frame := frame + ram[at..at + d.len];
          }
        case None =>
      }
      if !d.HasNext() {
        break;
      }
      cur, fuel := d.next, fuel - 1;
    }
    ConcatNothing(ram, base, desc);
  }

  lemma PartIs(ram: seq<byte>, base: uint64, d: Desc, frame: seq<byte>)
    requires Whole(base, |ram|, d.addr, d.len)
    ensures match Translate(base, |ram|, d.addr)
            case Some(at) =>
              at + d.len <= |ram| && Part(ram, base, d) == ram[at..at + d.len]
              && (d.len == 0 ==> frame + Part(ram, base, d) == frame)
            case None => frame + Part(ram, base, d) == frame
  {}

  lemma GatherStep(ram: seq<byte>, base: uint64, desc: seq<Desc>, c: uint16, n: nat,
                   frame: seq<byte>)
    requires Linked(desc) && c < |desc| && WholeTable(base, |ram|, desc) && EndsWithin(desc, c, n)
    ensures n > 0 && Whole(base, |ram|, desc[c].addr, desc[c].len)
    ensures desc[c].HasNext() ==> desc[c].next < |desc| && EndsWithin(desc, desc[c].next, n - 1)
    ensures var rest := if desc[c].HasNext() then Chain(desc, desc[c].next, n - 1) else [];
            frame + Concat(ram, base, desc, Chain(desc, c, n))
            == frame + Part(ram, base, desc[c]) + Concat(ram, base, desc, rest)
  {
    assert n > 0;
    hide WholeTable, Whole, Concat, Chain, EndsWithin, Walk, Part, Desc.HasNext;
    ChainStep(desc, c, n);
    var rest := if desc[c].HasNext() then Chain(desc, desc[c].next, n - 1) else [];
    ConcatStep(ram, base, desc, c, rest);
    Assoc(frame, Part(ram, base, desc[c]), Concat(ram, base, desc, rest));
    if desc[c].HasNext() {
      EndsSooner(desc, c, n);
    }
  }

  lemma ConcatNothing(ram: seq<byte>, base: uint64, desc: seq<Desc>)
    requires WholeTable(base, |ram|, desc)
    ensures Concat(ram, base, desc, []) == []
  {}
}
