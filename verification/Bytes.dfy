/** Machine integers as subset types, their big- and little-endian byte
    encodings, and in-place splicing of byte sequences. */
module Bytes {
  type byte = x: int | 0 <= x < 0x100
  type uint16 = x: int | 0 <= x < 0x1_0000
  type uint32 = x: int | 0 <= x < 0x1_0000_0000
  type uint64 = x: int | 0 <= x < 0x1_0000_0000_0000_0000

  const TWO_16 := 0x1_0000
  const TWO_32 := 0x1_0000_0000
  const TWO_64 := 0x1_0000_0000_0000_0000

  datatype Option<+T> = None | Some(value: T)

  function Min(a: int, b: int): int {
    if a <= b then a else b
  }

  function Max(a: int, b: int): int {
    if a >= b then a else b
  }

  /** The cast of an unsigned value to 32 bits. */
  function U32(x: nat): uint32 {
    x % TWO_32
  }

  lemma {:induction false} U32Period(x: nat, k: nat)
    ensures U32(x + TWO_32 * k) == U32(x)
  {
    if k > 0 {
      U32Period(x, k - 1);
      assert x + TWO_32 * k == (x + TWO_32 * (k - 1)) + TWO_32;
    }
  }

  lemma U32Step(a: nat, b: nat)
    ensures U32(U32(a) + b) == U32(a + b)
  {
    var q := a / TWO_32;
    assert a + b == U32(a) + b + TWO_32 * q;
    U32Period(U32(a) + b, q);
  }

  // ----- big endian (network byte order, device-tree cells) -----

  function Be16(x: uint16): (b: seq<byte>)
    ensures |b| == 2
  {
    [x / 0x100, x % 0x100]
  }

  function Be32(x: uint32): (b: seq<byte>)
    ensures |b| == 4
  {
    var high, low := x / TWO_16, x % TWO_16;
    [high / 0x100, high % 0x100, low / 0x100, low % 0x100]
  }

  function Be64(x: uint64): (b: seq<byte>)
    ensures |b| == 8
  {
    Be32(x / TWO_32) + Be32(x % TWO_32)
  }

  function ReadBe16(b: seq<byte>, at: nat): uint16
    requires at + 2 <= |b|
  {
    b[at] as int * 0x100 + b[at + 1] as int
  }

  function ReadBe32(b: seq<byte>, at: nat): uint32
    requires at + 4 <= |b|
  {
    ReadBe16(b, at) as int * TWO_16 + ReadBe16(b, at + 2) as int
  }

  function ReadBe64(b: seq<byte>, at: nat): uint64
    requires at + 8 <= |b|
  {
    ReadBe32(b, at) as int * TWO_32 + ReadBe32(b, at + 4) as int
  }

  lemma ReadBe16Inverse(b: seq<byte>, at: nat, x: uint16)
    requires at + 2 <= |b| && b[at..at + 2] == Be16(x)
    ensures ReadBe16(b, at) == x
  {
    assert b[at] == b[at..at + 2][0] && b[at + 1] == b[at..at + 2][1];
  }

  lemma ReadBe32Inverse(b: seq<byte>, at: nat, x: uint32)
    requires at + 4 <= |b| && b[at..at + 4] == Be32(x)
    ensures ReadBe32(b, at) == x
  {
    var w := b[at..at + 4];
    assert b[at] == w[0] && b[at + 1] == w[1] && b[at + 2] == w[2] && b[at + 3] == w[3];
    assert ReadBe16(b, at) == x / TWO_16 && ReadBe16(b, at + 2) == x % TWO_16;
  }

  lemma ReadBe64Inverse(b: seq<byte>, at: nat, x: uint64)
    requires at + 8 <= |b| && b[at..at + 8] == Be64(x)
    ensures ReadBe64(b, at) == x
  {
    var w := b[at..at + 8];
    assert b[at..at + 4] == w[..4] == Be32(x / TWO_32);
    assert b[at + 4..at + 8] == w[4..] == Be32(x % TWO_32);
    ReadBe32Inverse(b, at, x / TWO_32);
    ReadBe32Inverse(b, at + 4, x % TWO_32);
  }

  // ----- little endian (virtio structures, host words) -----

  function Le16(x: uint16): (b: seq<byte>)
    ensures |b| == 2
  {
    [x % 0x100, x / 0x100]
  }

  function Le32(x: uint32): (b: seq<byte>)
    ensures |b| == 4
  {
    var high, low := x / TWO_16, x % TWO_16;
    [low % 0x100, low / 0x100, high % 0x100, high / 0x100]
  }

  function ReadLe16(b: seq<byte>, at: nat): uint16
    requires at + 2 <= |b|
  {
    b[at] as int + b[at + 1] as int * 0x100
  }

  function ReadLe32(b: seq<byte>, at: nat): uint32
    requires at + 4 <= |b|
  {
    ReadLe16(b, at) as int + ReadLe16(b, at + 2) as int * TWO_16
  }

  function ReadLe64(b: seq<byte>, at: nat): uint64
    requires at + 8 <= |b|
  {
    ReadLe32(b, at) as int + ReadLe32(b, at + 4) as int * TWO_32
  }

  function Zeros(n: nat): (b: seq<byte>)
    ensures |b| == n && forall i :: 0 <= i < n ==> b[i] == 0
  {
    seq(n, _ => 0)
  }

  // ----- splicing -----

  /** `s` with the bytes from `at` on overwritten by `d`. */
  function Splice(s: seq<byte>, at: nat, d: seq<byte>): (r: seq<byte>)
    requires at + |d| <= |s|
    ensures |r| == |s|
    ensures forall i :: 0 <= i < |s| ==> r[i] == if at <= i < at + |d| then d[i - at] else s[i]
  {
    s[..at] + d + s[at + |d|..]
  }

  lemma Assoc(a: seq<byte>, b: seq<byte>, c: seq<byte>)
    ensures (a + b) + c == a + (b + c)
  {}

  lemma SpliceNothing(s: seq<byte>, at: nat)
    ensures at <= |s| ==> Splice(s, at, []) == s
  {}

  lemma SplicePrefix(s: seq<byte>, at: nat, d: seq<byte>, n: nat)
    requires at + |d| <= n <= |s|
    ensures Splice(s, at, d)[..n] == Splice(s[..n], at, d)
  {}

  lemma SpliceWithin(s: seq<byte>, lo: nat, hi: nat, at: nat, d: seq<byte>)
    requires lo <= at && at + |d| <= hi <= |s|
    ensures Splice(s, at, d)[lo..hi] == Splice(s[lo..hi], at - lo, d)
  {}

  /** A slice of a slice. */
  lemma SliceOfSlice(f: seq<byte>, lo: nat, hi: nat, a: nat, b: nat)
    requires lo <= hi <= |f| && a <= b <= hi - lo
    ensures f[lo..hi][a..b] == f[lo + a..lo + b]
  {
    var x, y := f[lo..hi][a..b], f[lo + a..lo + b];
    forall i | 0 <= i < |x|
      ensures x[i] == y[i]
    {
      assert f[lo..hi][a + i] == f[lo + (a + i)];
    }
  }

  /** The copy of `data` into an array: what `memcpy` does to a destination buffer. */
  method CopyInto(buf: array<byte>, at: nat, data: seq<byte>)
    requires at + |data| <= buf.Length
    modifies buf
    ensures buf[..] == Splice(old(buf[..]), at, data)
    ensures buf[at..at + |data|] == data
    ensures forall lo, hi | 0 <= lo <= hi <= buf.Length && (hi <= at || at + |data| <= lo) ::
              buf[lo..hi] == old(buf[lo..hi])
  {
    var i := 0;
    while i < |data|
      invariant 0 <= i <= |data|
      invariant forall k :: 0 <= k < buf.Length ==>
                  buf[k] == if at <= k < at + i then data[k - at] else old(buf[k])
    {
      buf[at + i] := data[i];
      i := i + 1;
    }
  }
}
