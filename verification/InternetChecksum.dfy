/** The Internet checksum of src/network/network.cpp against RFC 1071:
    a 32-bit running sum folded at the end, versus one's-complement addition
    with an end-around carry at every step. */
module InternetChecksum {
  import opened Bytes

  // ----- the reference: RFC 1071, section 1 -----

  /** One's-complement addition of two 16-bit words. */
  function EndAroundAdd(a: uint16, b: uint16): uint16 {
    if a + b >= TWO_16 then a + b - 0xffff else a + b
  }

  /** The little-endian 16-bit word at the front of `b`; an odd last byte is padded with zero. */
  function FrontWord(b: seq<byte>): uint16
    requires b != []
  {
    if |b| == 1 then b[0] else ReadLe16(b, 0)
  }

  function AfterWord(b: seq<byte>): (r: seq<byte>)
    requires b != []
    ensures |r| < |b|
  {
    if |b| == 1 then [] else b[2..]
  }

  /** One's-complement sum of the 16-bit words of `b`. */
  function OnesSum(b: seq<byte>): uint16
    decreases |b|
  {
    if b == [] then 0 else EndAroundAdd(FrontWord(b), OnesSum(AfterWord(b)))
  }

  /** The RFC 1071 checksum: the complement of the one's-complement sum. */
  function Rfc1071(b: seq<byte>): uint16 {
    0xffff - OnesSum(b)
  }

  // ----- the running sum of the code -----

  /** The plain sum of the words, which the code keeps modulo 2^32. */
  function WordSum(b: seq<byte>): nat
    decreases |b|
  {
    if b == [] then 0 else FrontWord(b) + WordSum(AfterWord(b))
  }

  /** The value folding reaches: the representative of `s` modulo 65535 in
      1..65535, or 0 for 0. */
  function Canon(s: nat): uint16 {
    if s == 0 then 0 else 1 + (s - 1) % 0xffff
  }

  lemma FoldStepKeepsCanon(s: nat)
    requires s >= TWO_16
    ensures Canon(s % TWO_16 + s / TWO_16) == Canon(s)
  {
    var q, r := s / TWO_16, s % TWO_16;
    assert s - 1 == (q + r - 1) + 0xffff * q;
    CanonShift(q + r, q);
  }

  lemma CanonShift(s: nat, k: nat)
    requires s > 0
    ensures Canon(s + 0xffff * k) == Canon(s)
  {
    if k > 0 {
      CanonShift(s, k - 1);
      assert s + 0xffff * k - 1 == (s + 0xffff * (k - 1) - 1) + 0xffff;
    }
  }

  lemma {:induction false} CanonOfWordSum(b: seq<byte>)
    ensures Canon(WordSum(b)) == OnesSum(b)
    decreases |b|
  {
    if b != [] {
      CanonOfWordSum(AfterWord(b));
      CanonAdd(FrontWord(b), WordSum(AfterWord(b)));
    }
  }

  lemma CanonAdd(w: uint16, s: nat)
    ensures Canon(w + s) == EndAroundAdd(w, Canon(s))
  {
    var c := Canon(s);
    if s > 0 {
      assert s == c + 0xffff * ((s - 1) / 0xffff);
      CanonShift(w + c, (s - 1) / 0xffff);
      if w + c >= TWO_16 {
        CanonShift(w + c - 0xffff, 1);
      }
    }
  }

  /** The running sum of at most 65537 words fits the code's 32-bit accumulator. */
  lemma {:induction false} WordSumBound(b: seq<byte>)
    ensures WordSum(b) <= 0xffff * ((|b| + 1) / 2)
    decreases |b|
  {
    if |b| >= 2 {
      WordSumBound(b[2..]);
    }
  }

  /** The largest buffer whose running sum cannot wrap. */
  const NO_WRAP := 131074

  /** Whether keeping the running sum in 32 bits leaves the folded value as it is: the wraps
      must cancel modulo 65535, and not wrap a sum away to zero. */
  predicate WrapsCancel(s: nat) {
    s / TWO_32 % 0xffff == 0 && (s % TWO_32 == 0 ==> s == 0)
  }

  lemma AddingResidue(x: nat, q: nat)
    ensures (x + q) % 0xffff == x % 0xffff <==> q % 0xffff == 0
  {}

  lemma CanonOfWrapped(s: nat)
    ensures Canon(s % TWO_32) == Canon(s) <==> WrapsCancel(s)
  {
    var q, r := s / TWO_32, s % TWO_32;
    if r > 0 {
      assert s == (r + q) + 0xffff * (65537 * q);
      CanonShift(r + q, 65537 * q);
      AddingResidue(r - 1, q);
      CanonIs(r + q);
      CanonIs(r);
    } else if s > 0 {
      CanonIs(s);
    }
  }

  lemma CanonIs(s: nat)
    requires s > 0
    ensures Canon(s) == 1 + (s - 1) % 0xffff && Canon(s) > 0
  {}

  lemma FewWraps(s: nat)
    requires s < 0xffff * TWO_32
    ensures WrapsCancel(s) <==> s < TWO_32
  {
    var q := s / TWO_32;
    assert q < 0xffff;
  }

  /** The code's checksum of a buffer is RFC 1071's if and only if its 32-bit wraps cancel; for
      buffers below 4 GiB that is if and only if the running sum does not wrap at all. */
  lemma ExactIff(b: seq<byte>)
    ensures 0xffff - Canon(WordSum(b) % TWO_32) == Rfc1071(b) <==> WrapsCancel(WordSum(b))
    ensures |b| < TWO_32 ==>
              (0xffff - Canon(WordSum(b) % TWO_32) == Rfc1071(b) <==> WordSum(b) < TWO_32)
  {
    hide Canon, WordSum, OnesSum, WrapsCancel;
    CanonOfWordSum(b);
    CanonOfWrapped(WordSum(b));
    WordSumBound(b);
    if |b| < TWO_32 {
      FewWraps(WordSum(b));
    }
  }

  function AllOnes(words: nat): (b: seq<byte>)
    ensures |b| == 2 * words && forall i :: 0 <= i < |b| ==> b[i] == 0xff
  {
    seq(2 * words, _ => 0xff)
  }

  lemma {:induction false} WordSumOfAllOnes(words: nat)
    ensures WordSum(AllOnes(words)) == 0xffff * words
    decreases words
  {
    if words > 0 {
      assert AllOnes(words)[2..] == AllOnes(words - 1);
      WordSumOfAllOnes(words - 1);
    }
  }

  /** 131076 bytes of ones are enough to wrap the sum and spoil the checksum. */
  lemma LongBufferSpoils()
    ensures var b := AllOnes(65538); 0xffff - Canon(WordSum(b) % TWO_32) != Rfc1071(b)
  {
    hide Canon, WordSum, OnesSum;
    WordSumOfAllOnes(65538);
    ExactIff(AllOnes(65538));
  }

  lemma {:induction false} WordSumAppend(a: seq<byte>, b: seq<byte>)
    requires |a| % 2 == 0
    ensures WordSum(a + b) == WordSum(a) + WordSum(b)
    decreases |a|
  {
    if a == [] {
      assert a + b == b;
    } else {
      assert (a + b)[2..] == a[2..] + b;
      WordSumAppend(a[2..], b);
    }
  }

  // ----- the code -----

  lemma WordSumStep(b: seq<byte>)
    ensures |b| >= 2 ==> WordSum(b) == b[0] as int + 0x100 * b[1] as int + WordSum(b[2..])
    ensures |b| == 1 ==> WordSum(b) == b[0] as int + WordSum([])
    ensures WordSum([]) == 0
  {}

  /** The words of `p[start..start+n]` added to `s0`, modulo 2^32:
      the pointer loop both checksum functions share. */
  method AddWords(s0: uint32, p: array<byte>, start: nat, n: nat) returns (s: uint32)
    requires start + n <= p.Length
    ensures s == U32(s0 + WordSum(p[start..start + n]))
  {
    hide WordSum, U32;
    s := s0;
    var w, rem := start, n;
    while rem >= 2
      invariant start <= w && w + rem == start + n
      invariant U32(s + WordSum(p[w..w + rem])) == U32(s0 + WordSum(p[start..start + n]))
      decreases rem
    {
      ghost var rest := p[w..w + rem];
      assert rest[2..] == p[w + 2..w + rem];
      WordSumStep(rest);
      var word := p[w] as int + 0x100 * p[w + 1] as int;
      U32Step(s + word, WordSum(rest[2..]));
      s := U32(s + word);
      w, rem := w + 2, rem - 2;
    }
    WordSumStep(p[w..w + rem]);
    if rem > 0 {
      U32Step(s + p[w], 0);
      s := U32(s + p[w]);
    } else {
      U32Same(s);
    }
  }

  lemma U32Same(x: uint32)
    ensures U32(x + 0) == x
  {}

  method Fold(s0: uint32) returns (s: uint16)
    ensures s == Canon(s0)
  {
    var t: uint32 := s0;
    while t / TWO_16 != 0
      invariant Canon(t) == Canon(s0)
      decreases t
    {
      FoldStepKeepsCanon(t);
      t := t % TWO_16 + t / TWO_16;
    }
    s := t;
  }

  method IpCksum(p: array<byte>, start: nat, n: nat) returns (r: uint16)
    requires start + n <= p.Length
    ensures r == 0xffff - Canon(WordSum(p[start..start + n]) % TWO_32)
    ensures r == Rfc1071(p[start..start + n]) <==> WrapsCancel(WordSum(p[start..start + n]))
    ensures n <= NO_WRAP ==> r == Rfc1071(p[start..start + n])
  {
    var s := AddWords(0, p, start, n);
    var f := Fold(s);
    r := 0xffff - f;
    WordSumBound(p[start..start + n]);
    ExactIff(p[start..start + n]);
  }

  lemma NoWrap(s: nat, t: nat, words: nat)
    requires words <= 65537 && s + t <= 0xffff * words
    ensures (s % TWO_32 + t) % TWO_32 == s + t
  {
    assert s + t < TWO_32;
  }

  lemma SumInParts(a: seq<byte>, b: seq<byte>)
    requires |a| % 2 == 0 && |a| + |b| <= NO_WRAP
    ensures 0xffff - Canon((WordSum(a) % TWO_32 + WordSum(b)) % TWO_32) == Rfc1071(a + b)
  {
    hide WordSum, OnesSum, Canon;
    WordSumAppend(a, b);
    WordSumBound(a + b);
    NoWrap(WordSum(a), WordSum(b), (|a + b| + 1) / 2);
    CanonOfWordSum(a + b);
  }

  /** The pseudo-header of RFC 793/768: addresses, zero, protocol, segment length. */
  function PseudoHeader(sip: uint32, dip: uint32, proto: byte, segLen: uint16): (b: seq<byte>)
    ensures |b| == 12
  {
    Be32(sip) + Be32(dip) + [0, proto] + Be16(segLen)
  }

  /** Sums the pseudo-header and the segment separately, without laying them out together. */
  method TransportCksum(sip: uint32, dip: uint32, proto: byte, seg: array<byte>, segLen: uint16)
    returns (r: uint16)
    requires segLen <= seg.Length
    ensures r == Rfc1071(PseudoHeader(sip, dip, proto, segLen) + seg[..segLen])
  {
    var ph := new byte[12];
    CopyInto(ph, 0, PseudoHeader(sip, dip, proto, segLen));
    r := CksumOfTwo(ph, 12, seg, segLen);
    assert ph[..12] == PseudoHeader(sip, dip, proto, segLen);
  }

  method CksumOfTwo(p: array<byte>, m: nat, q: array<byte>, n: nat) returns (r: uint16)
    requires m <= p.Length && n <= q.Length && m % 2 == 0 && m + n <= NO_WRAP
    ensures r == Rfc1071(p[..m] + q[..n])
  {
    var s := AddWords(0, p, 0, m);
    s := AddWords(s, q, 0, n);
    r := Fold(s);
    r := 0xffff - r;
    assert p[0..m] == p[..m] && q[0..n] == q[..n];
    SumInParts(p[..m], q[..n]);
  }

  // ----- what the checksum is for -----

  lemma {:induction false} WordSumStore(b: seq<byte>, at: nat, w: uint16)
    requires at % 2 == 0 && at + 2 <= |b| && b[at] == b[at + 1] == 0
    ensures WordSum(Splice(b, at, Le16(w))) == WordSum(b) + w
  {
    var head, field, tail := b[..at], b[at..at + 2], b[at + 2..];
    assert b == head + (field + tail);
    assert Splice(b, at, Le16(w)) == head + (Le16(w) + tail);
    WordSumAppend(head, field + tail);
    WordSumAppend(head, Le16(w) + tail);
    WordSumAppend(field, tail);
    WordSumAppend(Le16(w), tail);
    assert AfterWord(field) == [] && AfterWord(Le16(w)) == [];
  }

  /** A buffer whose zeroed, word-aligned checksum field receives its own
      checksum sums to zero: the receiver's check of RFC 1071 accepts it. */
  lemma StoredChecksumVerifies(b: seq<byte>, at: nat)
    requires at % 2 == 0 && at + 2 <= |b| && b[at] == b[at + 1] == 0
    ensures Rfc1071(Splice(b, at, Le16(Rfc1071(b)))) == 0
  {
    var s, c := WordSum(b), Rfc1071(b);
    CanonOfWordSum(b);
    WordSumStore(b, at, c);
    CanonOfWordSum(Splice(b, at, Le16(c)));
    if s > 0 {
      assert s + c == 0xffff + 0xffff * ((s - 1) / 0xffff);
      CanonShift(0xffff, (s - 1) / 0xffff);
    }
  }

  // ----- byte-order independence: RFC 1071, section 2(B) -----

  function SwapBytes(x: uint16): uint16 {
    x % 0x100 * 0x100 + x / 0x100
  }

  /** The same buffer summed as big-endian words, as a peer of either endianness would. */
  function BigEndianSum(b: seq<byte>): uint16
    decreases |b|
  {
    if b == [] then 0 else EndAroundAdd(SwapBytes(FrontWord(b)), BigEndianSum(AfterWord(b)))
  }

  /** Swapping multiplies by 256 modulo 65535. */
  lemma SwapIsScaling(x: uint16)
    ensures SwapBytes(x) == 0x100 * x as int - 0xffff * (x / 0x100)
    ensures SwapBytes(x) == 0 <==> x == 0
  {}

  lemma SwapDistributes(a: uint16, b: uint16)
    ensures SwapBytes(EndAroundAdd(a, b)) == EndAroundAdd(SwapBytes(a), SwapBytes(b))
  {
    SwapIsScaling(a);
    SwapIsScaling(b);
    SwapIsScaling(EndAroundAdd(a, b));
    CongruentSums(a, b, EndAroundAdd(a, b), SwapBytes(a), SwapBytes(b), SwapBytes(EndAroundAdd(a, b)),
                  a / 0x100, b / 0x100, EndAroundAdd(a, b) / 0x100);
  }

  lemma CongruentSums(a: uint16, b: uint16, e: uint16, a': uint16, b': uint16, e': uint16, p: int, q: int, r: int)
    requires e == EndAroundAdd(a, b)
    requires a' == 0x100 * a as int - 0xffff * p && (a' == 0 <==> a == 0)
    requires b' == 0x100 * b as int - 0xffff * q && (b' == 0 <==> b == 0)
    requires e' == 0x100 * e as int - 0xffff * r && (e' == 0 <==> e == 0)
    ensures e' == EndAroundAdd(a', b')
  {
    var carry := if a + b >= TWO_16 then 1 else 0;
    var carry' := if a' + b' >= TWO_16 then 1 else 0;
    var k := p + q - r - 0x100 * carry + carry';
    assert e' - EndAroundAdd(a', b') == 0xffff * k;
    hide EndAroundAdd;
    EndAroundZero(a, b);
    EndAroundZero(a', b');
  }

  lemma EndAroundZero(a: uint16, b: uint16)
    ensures EndAroundAdd(a, b) == 0 <==> a == 0 && b == 0
  {
  }

  lemma ComplementSwapped(x: uint16)
    ensures Le16(0xffff - x) == Be16(0xffff - SwapBytes(x))
  {
    var h, l := x / 0x100, x % 0x100;
    var y: uint16 := 0xffff - x;
    assert y == (0xff - h) * 0x100 + (0xff - l);
    assert 0xffff - SwapBytes(x) == (0xff - l) * 0x100 + (0xff - h);
  }

  /** Summing in host byte order and storing the host-order result is the same
      as doing both in network byte order. */
  lemma {:induction false} ByteOrderIndependence(b: seq<byte>)
    ensures BigEndianSum(b) == SwapBytes(OnesSum(b))
    ensures Le16(Rfc1071(b)) == Be16(0xffff - BigEndianSum(b))
    decreases |b|
  {
    if b != [] {
      ByteOrderIndependence(AfterWord(b));
      SwapDistributes(FrontWord(b), OnesSum(AfterWord(b)));
    }
    ComplementSwapped(OnesSum(b));
  }
}
