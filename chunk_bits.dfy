/** Bit-level facts about one 64-bit chunk of a `PackedArray<3>`: reading
    the 3-bit slot at a bit offset, and rewriting it in place.

    An offset `off` is valid when `off <= 61`, that is `off + 3 <= 64`; two
    slots are disjoint when their offsets are at least 3 apart. The numerals
    are `64 - bits` and `bits` at `bits == 3`; keeping them literal keeps the
    bit-vector proofs small. For the same reason the lemmas that
    look at the rewriting expression itself look at nothing else. */
module ChunkBits {

  /** `mask`, `(1 << bits) - 1` at `bits == 3`. */
  const MASK: bv64 := 0x7

  /** The slot at bit offset `off` of a chunk, as the `uint8_t` that
      `get` returns: `(ch >> off) & mask`. */
  function SlotValue(ch: bv64, off: bv8): (v: bv8)
    requires off <= 61
    ensures v as bv64 <= MASK
  {
    ((ch >> off) & MASK) as bv8
  }

  /** Chunks that agree on the bits of a slot read the same value there. */
  lemma SameBitsSameSlot(ch1: bv64, ch2: bv64, off: bv8)
    requires off <= 61
    requires (ch1 ^ ch2) & (MASK << off) == 0
    ensures (ch1 >> off) & MASK == (ch2 >> off) & MASK
  {
  }

  /** The rewrite changes no bit outside the slot's field. */
  lemma WriteStaysInField(ch: bv64, off: bv8, value: bv8, written: bv64)
    requires off <= 61
    requires written == (ch & !(MASK << off)) | (((value as bv64) & MASK) << off)
    ensures (written ^ ch) & !(MASK << off) == 0
  {
  }

  /** After the rewrite the slot reads `value & mask`. */
  lemma WrittenSlotReads(ch: bv64, off: bv8, value: bv8, written: bv64)
    requires off <= 61
    requires written == (ch & !(MASK << off)) | (((value as bv64) & MASK) << off)
    ensures (written >> off) & MASK == (value as bv64) & MASK
  {
  }

  /** The fields of two disjoint slots share no bit. */
  lemma DisjointFields(oi: bv8, oj: bv8)
    requires oi <= 61 && oj <= 61
    requires oi + 3 <= oj || oj + 3 <= oi
    ensures (MASK << oi) & (MASK << oj) == 0
  {
  }

  /** A difference confined to one field misses every field disjoint from it. */
  lemma OutsideField(d: bv64, mi: bv64, mj: bv64)
    requires d & !mi == 0 && mi & mj == 0
    ensures d & mj == 0
  {
  }

  /** A change confined to the field at `oi` leaves the slot at a disjoint
      `oj` as it was. */
  lemma ConfinedChangeKeepsSlot(written: bv64, ch: bv64, oi: bv8, oj: bv8)
    requires oi <= 61 && oj <= 61
    requires oi + 3 <= oj || oj + 3 <= oi
    requires (written ^ ch) & !(MASK << oi) == 0
    ensures (written >> oj) & MASK == (ch >> oj) & MASK
  {
    DisjointFields(oi, oj);
    OutsideField(written ^ ch, MASK << oi, MASK << oj);
    SameBitsSameSlot(written, ch, oj);
  }

  /** `ch &= ~(mask << off); ch |= ((value & mask) << off)` on one chunk:
      the slot at `off` then reads `value & mask`, and no bit outside that
      slot's field changes. */
  method RewriteSlot(ch: bv64, off: bv8, value: bv8) returns (written: bv64)
    requires off <= 61
    ensures (written >> off) & MASK == (value as bv64) & MASK
    ensures (written ^ ch) & !(MASK << off) == 0
  {
    written := ch;
    written := written & !(MASK << off);
    written := written | (((value as bv64) & MASK) << off);
    WrittenSlotReads(ch, off, value, written);
    WriteStaysInField(ch, off, value, written);
  }

  /** An all-zero chunk reads 0 in every slot. */
  lemma ZeroChunk(off: bv8)
    requires off <= 61
    ensures SlotValue(0, off) == 0
  {
  }
}
