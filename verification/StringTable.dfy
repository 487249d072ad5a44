/** The interned strings block of `FdtBuilder` (src/firmware/arm64/dtb.cpp). */
module StringTable {
  import opened Bytes
  import opened FdtFormat

  datatype Table = Table(bytes: seq<byte>, index: map<cstring, uint32>)

  /** `str_off`: a known name keeps its offset, a new one is appended with its NUL.
      Offsets are kept in 32 bits. */
  function Intern(t: Table, name: cstring): (r: Table)
    ensures name in r.index && t.index.Keys <= r.index.Keys
    ensures t.bytes <= r.bytes
  {
    if name in t.index then t
    else Table(t.bytes + name + [0], t.index[name := U32(|t.bytes|)])
  }

  /** Every offset handed out denotes its name, as long as offsets fit in 32 bits. */
  ghost predicate Sound(t: Table) {
    |t.bytes| < TWO_32 ==> Denotes(t)
  }

  ghost predicate Denotes(t: Table) {
    forall name :: name in t.index ==> CString(t.bytes, t.index[name]) == Some(name)
  }

  lemma {:induction false} CStringStable(b: seq<byte>, ext: seq<byte>, at: nat)
    requires CString(b, at).Some?
    ensures CString(b + ext, at) == CString(b, at)
    decreases |b| - at
  {
    if b[at] != 0 {
      CStringStable(b, ext, at + 1);
    }
  }

  lemma {:induction false} CStringReads(b: seq<byte>, at: nat, s: cstring, rest: seq<byte>)
    requires at <= |b| && b[at..] == s + [0] + rest
    ensures CString(b, at) == Some(s)
    decreases |s|
  {
    assert b[at] == b[at..][0];
    if s != [] {
      assert s[0] in s;
      assert b[at + 1..] == b[at..][1..] == s[1..] + [0] + rest;
      assert 0 !in s[1..];
      CStringReads(b, at + 1, s[1..], rest);
      assert s == [s[0]] + s[1..];
    }
  }

  lemma InternIsSound(t: Table, name: cstring)
    requires Sound(t)
    ensures Sound(Intern(t, name))
    ensures forall n :: n in t.index ==> Intern(t, name).index[n] == t.index[n]
  {
    hide CString;
    var r := Intern(t, name);
    if name !in t.index && |r.bytes| < TWO_32 {
      forall n | n in r.index
        ensures CString(r.bytes, r.index[n]) == Some(n)
      {
        if n == name {
          assert r.bytes[|t.bytes|..] == name + [0] + [];
          CStringReads(r.bytes, |t.bytes|, name, []);
        } else {
          assert r.bytes == t.bytes + (name + [0]);
          CStringStable(t.bytes, name + [0], t.index[n]);
        }
      }
    }
  }

  function InternAll(t: Table, names: seq<cstring>): Table
    decreases |names|
  {
    if names == [] then t else InternAll(Intern(t, names[0]), names[1..])
  }

  /** Over any run of interning calls on a strings block below 4 GiB: offsets handed out
      earlier never change and still denote their names in the grown block, and two names
      share an offset exactly when they are equal. */
  lemma {:induction false} InterningRun(t: Table, names: seq<cstring>)
    requires Sound(t) && |InternAll(t, names).bytes| < TWO_32
    ensures var r := InternAll(t, names);
            Sound(r) && t.bytes <= r.bytes
            && (forall n :: n in t.index ==> n in r.index && r.index[n] == t.index[n])
            && (forall n :: n in names ==> n in r.index)
            && (forall m, n :: m in r.index && n in r.index ==> (r.index[m] == r.index[n] <==> m == n))
    decreases |names|
  {
    hide Intern, Denotes;
    if names != [] {
      InternIsSound(t, names[0]);
      InterningRun(Intern(t, names[0]), names[1..]);
      assert forall n :: n in names ==> n == names[0] || n in names[1..];
    }
    OffsetsDistinct(InternAll(t, names));
  }

  lemma OffsetsDistinct(t: Table)
    requires Denotes(t)
    ensures forall m, n :: m in t.index && n in t.index && t.index[m] == t.index[n] ==> m == n
  {
    forall m, n | m in t.index && n in t.index && t.index[m] == t.index[n]
      ensures m == n
    {
      assert Some(m) == CString(t.bytes, t.index[m]) == Some(n);
    }
  }
}
