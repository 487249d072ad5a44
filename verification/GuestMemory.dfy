/** Guest RAM as a byte array at a guest-physical base address (src/core/vm.cpp). */
module GuestMemory {
  import opened Bytes

  /** `gpa_to_hva`: the offset into RAM of a guest-physical address, looking at
      that one address only. */
  function Translate(base: uint64, size: nat, gpa: nat): Option<nat> {
    if base <= gpa < base + size then Some(gpa - base) else None
  }

  /** A buffer that lies wholly inside or wholly outside RAM; accesses to a buffer are
      in bounds exactly when its first byte's translation decides for all of it. */
  predicate Whole(base: uint64, size: nat, gpa: nat, len: nat) {
    if base <= gpa < base + size then gpa + len <= base + size
    else gpa + len <= base || base + size <= gpa
  }

  /** The part of a whole buffer from any inner position on translates like the buffer. */
  lemma WholePart(base: uint64, size: nat, gpa: nat, len: nat, k: nat)
    requires Whole(base, size, gpa, len) && k < len
    ensures Whole(base, size, gpa + k, len - k)
    ensures Translate(base, size, gpa + k).Some? <==> Translate(base, size, gpa).Some?
  {}
}
