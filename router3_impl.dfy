/** The router's packed wire-congestion store: a bit-packed array of 3-bit
    slots (`PackedArray<3>`) and, on top of it, a per-wire congestion status
    that is kept inline in the slot when it is small and moved to a sparse
    map, behind an escape code, when it is not. */
module Router3Impl {
  import opened Wrappers
  import opened ChunkBits

  // ---------------------------------------------------------------------
  // Slot geometry of PackedArray<3>
  // ---------------------------------------------------------------------

  /** Width of one slot: the template argument `bits`, fixed to the one
      instantiation the store uses. */
  const BITS: nat := 3
  /** `vals_per_chunk`, `64 / bits`: how many whole slots fit in one
      64-bit chunk. */
  const VALS_PER_CHUNK: nat := 21
  /** The template's `mask` is `ChunkBits.MASK`. */
  lemma GeometryConstants()
    ensures MASK == (1 << BITS) - 1 && VALS_PER_CHUNK == 64 / BITS
  {
  }

  /** The cast of an integer in `0..255` to an 8-bit unsigned value,
      written out so that its value can be related back to the integer. Bit
      offsets inside a chunk are such values. */
  function ToBv8(n: nat): bv8
    requires n < 256
  {
    if n == 0 then 0 else ToBv8(n - 1) + 1
  }

  lemma {:induction false} ToBv8Value(n: nat)
    requires n < 256
    ensures ToBv8(n) as int == n
  {
    if n > 0 {
      ToBv8Value(n - 1);
    }
  }

  /** `(index % vals_per_chunk) * bits`: where slot `index` starts in its chunk. */
  function SlotOffset(index: nat): bv8
  {
    ToBv8((index % VALS_PER_CHUNK) * BITS)
  }

  lemma SlotOffsetValue(index: nat)
    ensures SlotOffset(index) as int == (index % VALS_PER_CHUNK) * BITS
  {
    ToBv8Value((index % VALS_PER_CHUNK) * BITS);
  }

  /** A slot's field lies inside its chunk. */
  lemma SlotOffsetInChunk(index: nat)
    ensures SlotOffset(index) <= 61
  {
    SlotOffsetValue(index);
  }

  /** Two different indices in the same chunk occupy disjoint bit ranges. */
  lemma DistinctSlotsDisjoint(i: nat, j: nat)
    requires i != j && i / VALS_PER_CHUNK == j / VALS_PER_CHUNK
    ensures SlotOffset(i) + 3 <= SlotOffset(j) || SlotOffset(j) + 3 <= SlotOffset(i)
  {
    SlotOffsetValue(i);
    SlotOffsetValue(j);
    var oi, oj := SlotOffset(i), SlotOffset(j);
    assert i % VALS_PER_CHUNK != j % VALS_PER_CHUNK;
    assert oi as int + 3 <= oj as int || oj as int + 3 <= oi as int;
  }

  /** `chunks.resize(k)`: truncate, or extend with zero chunks. */
  function Resized(chunks: seq<bv64>, k: nat): (r: seq<bv64>)
    ensures |r| == k
    ensures forall c :: 0 <= c < k ==> r[c] == if c < |chunks| then chunks[c] else 0
  {
    if k <= |chunks| then chunks[..k] else chunks + seq(k - |chunks|, _ => 0)
  }

  /** Slot `index` of a chunk vector, as `get` reads it. */
  function ReadSlot(chunks: seq<bv64>, index: nat): (r: Result<bv8>)
    ensures r.Ok? <==> index / VALS_PER_CHUNK < |chunks|
    ensures r.Fail? ==> r.error == IndexOutOfRange
    ensures r.Ok? ==> r.value as bv64 <= MASK
  {
    var ci := index / VALS_PER_CHUNK;
    if ci < |chunks| then
      SlotOffsetInChunk(index);
      Ok(SlotValue(chunks[ci], SlotOffset(index)))
    else
      Fail(IndexOutOfRange)
  }

  /* The lemmas below take the rewritten chunk `ch`, its slot offset `off`
     and the new chunk `written` as parameters, so that the bit facts they
     need are literally the ones `RewriteSlot` ensures. */

  /** After the rewrite, slot `index` reads `value & mask`. */
  lemma RewriteReadsBack(chunks: seq<bv64>, index: nat, off: bv8, value: bv8, written: bv64)
    requires index / VALS_PER_CHUNK < |chunks|
    requires off == SlotOffset(index) && off <= 61
    requires (written >> off) & MASK == (value as bv64) & MASK
    ensures ReadSlot(chunks[index / VALS_PER_CHUNK := written], index) == Ok(((value as bv64) & MASK) as bv8)
  {
    var after := chunks[index / VALS_PER_CHUNK := written];
    assert after[index / VALS_PER_CHUNK] == written;
    assert ReadSlot(after, index) == Ok(SlotValue(written, off));
  }

  /** After the rewrite, every other slot reads as before. */
  lemma RewriteKeepsOthers(chunks: seq<bv64>, index: nat, ch: bv64, off: bv8, written: bv64)
    requires index / VALS_PER_CHUNK < |chunks| && ch == chunks[index / VALS_PER_CHUNK]
    requires off == SlotOffset(index) && off <= 61
    requires (written ^ ch) & !(MASK << off) == 0
    ensures forall j: nat :: j != index ==>
      ReadSlot(chunks[index / VALS_PER_CHUNK := written], j) == ReadSlot(chunks, j)
  {
    var ci := index / VALS_PER_CHUNK;
    var after := chunks[ci := written];
    forall j: nat | j != index
      ensures ReadSlot(after, j) == ReadSlot(chunks, j)
    {
      if j / VALS_PER_CHUNK == ci {
        RewriteKeepsNeighbour(chunks, index, ch, off, written, j);
      } else if j / VALS_PER_CHUNK < |chunks| {
        assert after[j / VALS_PER_CHUNK] == chunks[j / VALS_PER_CHUNK];
      }
    }
  }

  /** A slot sharing the rewritten chunk reads as before. */
  lemma RewriteKeepsNeighbour(chunks: seq<bv64>, index: nat, ch: bv64, off: bv8, written: bv64, j: nat)
    requires index / VALS_PER_CHUNK < |chunks| && ch == chunks[index / VALS_PER_CHUNK]
    requires j != index && j / VALS_PER_CHUNK == index / VALS_PER_CHUNK
    requires off == SlotOffset(index) && off <= 61
    requires (written ^ ch) & !(MASK << off) == 0
    ensures ReadSlot(chunks[index / VALS_PER_CHUNK := written], j) == ReadSlot(chunks, j)
  {
    var ci := index / VALS_PER_CHUNK;
    var after := chunks[ci := written];
    var oj := SlotOffset(j);
    NeighbourSlotKept(ch, off, written, index, j);
    assert after[ci] == written;
    assert ReadSlot(after, j) == Ok(SlotValue(written, oj));
    assert ReadSlot(chunks, j) == Ok(SlotValue(ch, oj));
  }

  lemma NeighbourSlotKept(ch: bv64, off: bv8, written: bv64, index: nat, j: nat)
    requires j != index && j / VALS_PER_CHUNK == index / VALS_PER_CHUNK
    requires off == SlotOffset(index) && off <= 61
    requires (written ^ ch) & !(MASK << off) == 0
    ensures SlotOffset(j) <= 61
    ensures SlotValue(written, SlotOffset(j)) == SlotValue(ch, SlotOffset(j))
  {
    var oj := SlotOffset(j);
    SlotOffsetInChunk(j);
    DistinctSlotsDisjoint(index, j);
    ConfinedChangeKeepsSlot(written, ch, off, oj);
  }

  /** The chunk vector after `set(index, value)`: slot `index` reads
      `value & mask` and every other slot reads as before. */
  method WriteSlot(chunks: seq<bv64>, index: nat, value: bv8) returns (after: seq<bv64>)
    requires index / VALS_PER_CHUNK < |chunks|
    ensures |after| == |chunks|
    ensures ReadSlot(after, index) == Ok(((value as bv64) & MASK) as bv8)
    ensures forall j: nat :: j != index ==> ReadSlot(after, j) == ReadSlot(chunks, j)
  {
    var ci := index / VALS_PER_CHUNK;
    var ch := chunks[ci];
    var off := SlotOffset(index);
    SlotOffsetInChunk(index);
    var written := RewriteSlot(ch, off, value);
    RewriteReadsBack(chunks, index, off, value, written);
    RewriteKeepsOthers(chunks, index, ch, off, written);
    after := chunks[ci := written];
  }

  /** `PackedArray<3>`: 3-bit values packed 21 to a 64-bit chunk. */
  class PackedArray {
    /** The `std::vector<uint64_t>` of chunks. */
    var chunks: seq<bv64>

    /** Number of addressable slots: every slot of every chunk. */
    function Capacity(): nat
      reads this
    {
      |chunks| * VALS_PER_CHUNK
    }

    /** `PackedArray()`: no chunks. */
    constructor ()
      ensures chunks == []
    {
      chunks := [];
    }

    /** `PackedArray(size)`: sized with `resize`. */
    constructor Sized(size: nat)
      ensures |chunks| == (size + VALS_PER_CHUNK - 1) / VALS_PER_CHUNK
      ensures forall j :: 0 <= j < Capacity() ==> Get(j) == Ok(0)
    {
      chunks := [];
      new;
      Resize(size);
    }

    /** `get(index)`: the slot, or `out_of_range` when its chunk does not exist. */
    function Get(index: nat): (r: Result<bv8>)
      reads this
      ensures r.Ok? <==> index < Capacity()
      ensures r.Fail? ==> r.error == IndexOutOfRange
      ensures r.Ok? ==> r.value as bv64 <= MASK
    {
      ReadSlot(chunks, index)
    }

    /** `set(index, value)`: rewrites the one slot inside its chunk, or throws
        `out_of_range` and changes nothing. */
    method Set(index: nat, value: bv8) returns (r: Outcome)
      modifies this
      ensures |chunks| == old(|chunks|)
      ensures r.Pass? <==> index < Capacity()
      ensures r.Abort? ==> r.error == IndexOutOfRange && chunks == old(chunks)
      ensures r.Pass? ==> Get(index) == Ok(((value as bv64) & MASK) as bv8)
      ensures forall j :: j != index ==> Get(j) == old(Get(j))
    {
      var ci := index / VALS_PER_CHUNK;
      if ci >= |chunks| {
        return Abort(IndexOutOfRange);
      }
      chunks := WriteSlot(chunks, index, value);
      r := Pass;
    }

    /** `resize(new_size)`: exactly `ceil(new_size / vals_per_chunk)` chunks;
        retained chunks keep their slots and added chunks read 0. */
    method Resize(newSize: nat)
      modifies this
      ensures |chunks| == (newSize + VALS_PER_CHUNK - 1) / VALS_PER_CHUNK
      ensures chunks == Resized(old(chunks), |chunks|)
      ensures forall j :: 0 <= j < Capacity() ==>
        Get(j) == if j / VALS_PER_CHUNK < old(|chunks|) then old(Get(j)) else Ok(0)
    {
      var k := (newSize + VALS_PER_CHUNK - 1) / VALS_PER_CHUNK;
      chunks := Resized(chunks, k);
      forall j | 0 <= j < Capacity() && j / VALS_PER_CHUNK >= old(|chunks|)
        ensures Get(j) == Ok(0)
      {
        SlotOffsetInChunk(j);
        ZeroChunk(SlotOffset(j));
      }
    }
  }

  /** `ceil(n / vals_per_chunk)` chunks hold at least `n` slots, and no
      whole chunk more than needed. */
  lemma {:induction false} ResizeCapacity(n: nat)
    ensures var k := (n + VALS_PER_CHUNK - 1) / VALS_PER_CHUNK;
            n <= k * VALS_PER_CHUNK < n + VALS_PER_CHUNK
  {
  }

  // ---------------------------------------------------------------------
  // Wire congestion status
  // ---------------------------------------------------------------------

  /** An interned name; index 0 is the empty `IdString()`. */
  datatype IdString = IdString(index: int)
  const EMPTY_ID: IdString := IdString(0)

  /** `WireStatus`: current congestion, historical congestion and an
      optional reservation tag. */
  datatype WireStatus = WireStatus(currCong: int, histCong: int, reserved: IdString)

  /** Index of a wire in the store (`uint32_t`). */
  type WireIndex = i: nat | i < 0x1_0000_0000

  /** The slot value that sends `get` to the sparse map. */
  const ESCAPE: bv8 := 0x7

  /** The condition under which `set` uses the sparse map. */
  predicate NeedsExtended(st: WireStatus)
    ensures !NeedsExtended(st) && st.currCong >= 0 && st.histCong >= 0 ==>
      4 * st.histCong + st.currCong < ESCAPE as int
  {
    st.currCong > 2 || st.histCong > 1 || st.reserved != EMPTY_ID
  }

  /** Conversion of an `int` to `uint8_t`: the low eight bits of its two's
      complement. */
  function Uint8(n: int): (b: bv8)
  {
    ToBv8(n % 256)
  }

  /** The `uint8_t` argument `(hist_cong << 2) | curr_cong` that `set` passes
      for an inline status. Two's complement commutes with the shift and the
      or, so the low eight bits of each operand suffice. */
  function InlineArgument(st: WireStatus): (b: bv8)
    ensures st.currCong >= 0 && st.histCong >= 0 && !NeedsExtended(st) ==>
      b as int == 4 * st.histCong + st.currCong
  {
    InlineArgumentSmall(st.currCong, st.histCong);
    (Uint8(st.histCong) << 2) | Uint8(st.currCong)
  }

  /** For the inline bounds the shifted-or byte is `4 * h + c`. */
  lemma InlineArgumentSmall(c: int, h: int)
    ensures 0 <= c <= 2 && 0 <= h <= 1 ==> ((Uint8(h) << 2) | Uint8(c)) as int == 4 * h + c
  {
    if 0 <= c <= 2 && 0 <= h <= 1 {
      assert ToBv8(0) == 0 && ToBv8(1) == 1 && ToBv8(2) == 2;
      assert c == 0 || c == 1 || c == 2;
      assert h == 0 || h == 1;
    }
  }

  /** The slot value `set` leaves for a status: the escape, or the inline
      argument as `PackedArray::set` masks it. */
  function Encode(st: WireStatus): (f: bv8)
    ensures f <= ESCAPE
    ensures NeedsExtended(st) ==> f == ESCAPE
  {
    if NeedsExtended(st) then ESCAPE
    else ((InlineArgument(st) as bv64) & MASK) as bv8
  }

  /** For non-negative counts the escape is used exactly when the status does
      not fit inline, and an inline code is `4 * hist + curr`. */
  lemma EncodeNonNegative(st: WireStatus)
    requires st.currCong >= 0 && st.histCong >= 0
    ensures Encode(st) == ESCAPE <==> NeedsExtended(st)
    ensures !NeedsExtended(st) ==> Encode(st) as int == 4 * st.histCong + st.currCong
  {
    if !NeedsExtended(st) {
      var c, h := st.currCong, st.histCong;
      assert c == 0 || c == 1 || c == 2;
      assert h == 0 || h == 1;
    }
  }

  /** A negative current congestion within the inline bounds whose low three
      bits are all set is written as the escape code, so `get` then reads the
      sparse map rather than the status. */
  lemma NegativeCongestionEscapes(st: WireStatus)
    requires !NeedsExtended(st) && st.currCong % 8 == 7
    ensures Encode(st) == ESCAPE
  {
    ToBv8Value(st.currCong % 256);
    var c := Uint8(st.currCong);
    assert c as int % 8 == 7;
    LowBitsOfByte(c);
    assert c & 7 == 7;
  }

  /** The low three bits of a byte are its value modulo 8. */
  lemma LowBitsOfByte(b: bv8)
    ensures (b & 7) as int == b as int % 8
  {
  }

  /** What `get` makes of slot `f` of wire `idx`, given the sparse map. */
  function Decode(f: bv8, ext: map<WireIndex, WireStatus>, idx: WireIndex): (r: Result<WireStatus>)
    requires f as bv64 <= MASK
    ensures r.Fail? <==> f == ESCAPE && idx !in ext
    ensures r.Fail? ==> r.error == KeyNotFound
    ensures f == ESCAPE && idx in ext ==> r == Ok(ext[idx])
    ensures f != ESCAPE ==>
      r.Ok? && r.value.reserved == EMPTY_ID && 0 <= r.value.currCong <= 3 && 0 <= r.value.histCong <= 1 &&
      4 * r.value.histCong + r.value.currCong == f as int
  {
    if f == ESCAPE then
      if idx in ext then Ok(ext[idx]) else Fail(KeyNotFound)
    else
      Ok(WireStatus((f & 0x3) as int, (f >> 2) as int, EMPTY_ID))
  }

  /** A status with non-negative counts within the inline bounds decodes
      from its code alone, whatever the sparse map holds (a stale entry
      included). */
  lemma InlineRoundTrip(st: WireStatus, ext: map<WireIndex, WireStatus>, idx: WireIndex)
    requires st.currCong >= 0 && st.histCong >= 0 && !NeedsExtended(st)
    ensures Encode(st) != ESCAPE
    ensures Decode(Encode(st), ext, idx) == Ok(st)
  {
    var c, h := st.currCong, st.histCong;
    assert c == 0 || c == 1 || c == 2;
    assert h == 0 || h == 1;
  }

  /** A status outside the inline bounds decodes from the entry `set` stored. */
  lemma ExtendedRoundTrip(st: WireStatus, ext: map<WireIndex, WireStatus>, idx: WireIndex)
    requires NeedsExtended(st)
    ensures Decode(Encode(st), ext[idx := st], idx) == Ok(st)
  {
  }

  /** An inline status whose escape-looking code is `7` (a negative current
      congestion such as `-1`) reads back whatever the sparse map holds for
      the wire: a stale entry left by an earlier extended status resurfaces. */
  lemma StaleEntryResurfaces(st: WireStatus, ext: map<WireIndex, WireStatus>, idx: WireIndex)
    requires !NeedsExtended(st) && st.currCong % 8 == 7 && idx in ext
    ensures Decode(Encode(st), ext, idx) == Ok(ext[idx])
  {
    NegativeCongestionEscapes(st);
  }

  /** Distinct inline statuses with non-negative counts get distinct codes. */
  lemma {:induction false} InlineCodesInjective(a: WireStatus, b: WireStatus)
    requires a.currCong >= 0 && a.histCong >= 0 && !NeedsExtended(a)
    requires b.currCong >= 0 && b.histCong >= 0 && !NeedsExtended(b)
    requires Encode(a) == Encode(b)
    ensures a == b
  {
    InlineRoundTrip(a, map[], 0);
    InlineRoundTrip(b, map[], 0);
  }

  /** `WireStatusStore`: a `PackedArray<3>` of codes and the sparse map
      `ext_data` of statuses that do not fit inline. */
  class WireStatusStore {
    /** `flat_data`, a member object of the store. */
    const flatData: PackedArray
    /** `ext_data`. */
    var extData: map<WireIndex, WireStatus>

    constructor ()
      ensures fresh(flatData) && flatData.chunks == [] && extData == map[]
    {
      flatData := new PackedArray();
      extData := map[];
    }

    /** `get(wire_idx)`: decodes the slot; fails when the slot does not exist
        or reads the escape with no sparse entry. */
    function Get(wireIdx: WireIndex): (r: Result<WireStatus>)
      reads this, flatData
      ensures wireIdx >= flatData.Capacity() ==> r == Fail(IndexOutOfRange)
      ensures wireIdx < flatData.Capacity() ==>
        r == Decode(flatData.Get(wireIdx).value, extData, wireIdx)
    {
      match flatData.Get(wireIdx)
      case Fail(e) => Fail(e)
      case Ok(f) => Decode(f, extData, wireIdx)
    }

    /** `set(wire_idx, st)`. The sparse entry is written before the slot, so
        when the slot does not exist the entry is kept and `out_of_range` is
        thrown. Moving back to inline leaves an old sparse entry in place. */
    method Set(wireIdx: WireIndex, st: WireStatus) returns (r: Outcome)
      modifies this, flatData
      ensures |flatData.chunks| == old(|flatData.chunks|)
      ensures extData == if NeedsExtended(st) then old(extData)[wireIdx := st] else old(extData)
      ensures r.Pass? <==> wireIdx < flatData.Capacity()
      ensures r.Abort? ==> r.error == IndexOutOfRange && flatData.chunks == old(flatData.chunks)
      ensures r.Pass? ==> flatData.Get(wireIdx) == Ok(Encode(st))
      ensures r.Pass? && (NeedsExtended(st) || (st.currCong >= 0 && st.histCong >= 0)) ==>
        Get(wireIdx) == Ok(st)
      ensures forall j: WireIndex :: j != wireIdx ==> Get(j) == old(Get(j))
    {
      if NeedsExtended(st) {
        extData := extData[wireIdx := st];
        r := flatData.Set(wireIdx, ESCAPE);
        if r.Pass? {
          ExtendedRoundTrip(st, old(extData), wireIdx);
        }
      } else {
        r := flatData.Set(wireIdx, InlineArgument(st));
        if r.Pass? && st.currCong >= 0 && st.histCong >= 0 {
          InlineRoundTrip(st, extData, wireIdx);
        }
      }
    }
  }
}
