# nextpnr router3 state substrate in Dafny

This project models two parts of the state substrate of nextpnr's newer
router (router3). It proves properties of both models.

- **The packed wire-congestion store** (`common/router3_impl.h`).
  - `PackedArray<3>` packs 3-bit values, 21 to a 64-bit chunk.
  - `WireStatusStore` keeps a wire's congestion status inline when it fits
    and writes the escape code 7 when it does not. In that case the status
    itself goes into a sparse map.
  - Both are Dafny classes. The chunk vector and the sparse map are fields
    that the `set` methods reassign.
  - One chunk is a `bv64`, so a slot is bits of a chunk, and shifts and masks
    behave as in the source.
- **The default resource-graph adapters** (`common/router3_defaults.cc`).
  - A wire's approximate location and bounds.
  - The flat wire indexer. It is a class, and its constructor is the
    source's enumeration loop.
  - The net segmenter. It is a method with the source's nested loops,
    proved equal to a recursive specification function.
  - The architecture's `Context` queries are inputs to the model. The
    indexer's constructor is given the sequence `getWires()` returns, and
    the other three queries are given functions.

Files:

- `wrappers.dfy`: `Option`, `Result` and `Outcome`. The error cases stand
  for the `std::out_of_range` thrown by `vector::at` and `dict::at`.
- `chunk_bits.dfy`: bit-vector facts about reading and rewriting one slot of
  one chunk.
- `router3_impl.dfy`:
  - slot geometry;
  - `PackedArray`;
  - `WireStatus` with its inline code;
  - `WireStatusStore`.
- `router3_defaults.dfy`:
  - location;
  - `FlatWireIndexer`;
  - segmentation.

## Model

| member | source | states |
|---|---|---|
| `ChunkBits.SlotValue` | common/router3_impl.h:36 | reading a slot `(ch >> off) & mask` gives a value of at most `mask` |
| `ChunkBits.RewriteSlot` | common/router3_impl.h:42-43 | clearing the slot's field and or-ing in `(value & mask) << off` leaves the slot reading `value & mask` and changes no bit outside the slot's field |
| `ChunkBits.ConfinedChangeKeepsSlot` | common/router3_impl.h:42-43 | a change confined to one slot's field leaves every slot at a disjoint offset reading as before |
| `ChunkBits.ZeroChunk` | common/router3_impl.h:45 | every slot of a zero chunk (one that `resize` adds) reads 0 |
| `Router3Impl.GeometryConstants` | common/router3_impl.h:28-29 | at `bits = 3`, `mask` is `(1 << bits) - 1 = 7` and `vals_per_chunk` is `64 / bits = 21` |
| `Router3Impl.SlotOffsetInChunk` | common/router3_impl.h:36 | the bit offset `(index % vals_per_chunk) * bits` leaves room for a whole slot in the 64-bit chunk |
| `Router3Impl.DistinctSlotsDisjoint` | common/router3_impl.h:41 | two different indices in the same chunk have bit offsets at least `bits` apart |
| `Router3Impl.Resized` | common/router3_impl.h:45 | `vector::resize(k)` has `k` chunks: the first ones kept, then zeros |
| `Router3Impl.ReadSlot` | common/router3_impl.h:33-37 | a read succeeds exactly when chunk `index / vals_per_chunk` exists, and gives a value of at most `mask`; otherwise it is `out_of_range` |
| `Router3Impl.RewriteReadsBack` | common/router3_impl.h:38-44 | after the chunk rewrite, slot `index` reads `value & mask` |
| `Router3Impl.RewriteKeepsOthers` | common/router3_impl.h:38-44 | after the chunk rewrite, every other slot, in the same chunk or in another, reads as before |
| `Router3Impl.WriteSlot` | common/router3_impl.h:38-44 | `set` on the chunk vector keeps its length, makes slot `index` read `value & mask` and leaves every other slot reading as before |
| `Router3Impl.PackedArray.constructor` | common/router3_impl.h:31 | the default array has no chunks |
| `Router3Impl.PackedArray.Sized` | common/router3_impl.h:32 | the sized array has `ceil(size / 21)` chunks and every slot reads 0 |
| `Router3Impl.PackedArray.Get` | common/router3_impl.h:33-37 | `get` succeeds exactly for an index in an existing chunk and returns a value of at most 7; otherwise it throws |
| `Router3Impl.PackedArray.Set` | common/router3_impl.h:38-44 | `set` keeps the chunk count. It passes exactly for an index in an existing chunk. It then makes `get(index)` return `value & mask` and leaves `get(j)` unchanged for every `j != index`. Out of range it throws and changes nothing |
| `Router3Impl.PackedArray.Resize` | common/router3_impl.h:45 | `resize(n)` leaves `ceil(n / 21)` chunks; slots in retained chunks keep their values and slots in new chunks read 0 |
| `Router3Impl.ResizeCapacity` | common/router3_impl.h:45 | `ceil(n / 21)` chunks hold at least `n` slots and fewer than `n + 21` |
| `Router3Impl.NeedsExtended` | common/router3_impl.h:75 | the sparse-map condition `curr > 2`, `hist > 1` or `reserved != IdString()`; a status with non-negative counts that fails it has `4 * hist + curr` below the escape code 7 |
| `Router3Impl.InlineArgument` | common/router3_impl.h:79 | the `uint8_t` argument, `hist << 2` or-ed with `curr`, is `4 * hist + curr` for a status with non-negative counts that fits inline |
| `Router3Impl.Encode` | common/router3_impl.h:75-79 | the slot value `set` writes is at most 7, and it is the escape 7 whenever the status needs the sparse map |
| `Router3Impl.EncodeNonNegative` | common/router3_impl.h:75-79 | for non-negative counts the code is 7 exactly when `curr > 2`, `hist > 1` or `reserved` is set; otherwise it is `4 * hist + curr`, at most 6 |
| `Router3Impl.NegativeCongestionEscapes` | common/router3_impl.h:79 | an inline status whose current congestion is 7 modulo 8 (for example -1) is written as the escape code 7 |
| `Router3Impl.Decode` | common/router3_impl.h:64-71 | a slot reading 7 returns the sparse entry, and fails with a missing-key error when there is none. Any other code `f` decodes to the status with no reservation, `0 <= curr <= 3`, `0 <= hist <= 1` and `4 * hist + curr == f`, which these bounds make unique |
| `Router3Impl.InlineRoundTrip` | common/router3_impl.h:64-81 | a status with `0 <= curr <= 2`, `0 <= hist <= 1` and no reservation decodes from its code alone, whatever the sparse map holds |
| `Router3Impl.ExtendedRoundTrip` | common/router3_impl.h:64-81 | a status that needs the sparse map decodes from the entry `set` stores |
| `Router3Impl.StaleEntryResurfaces` | common/router3_impl.h:64-81 | an inline status whose current congestion is 7 modulo 8 reads back the sparse entry already stored for the wire, not itself |
| `Router3Impl.InlineCodesInjective` | common/router3_impl.h:79 | two inline statuses with non-negative counts and the same code are equal |
| `Router3Impl.WireStatusStore.constructor` | common/router3_impl.h:59-63 | a new store has an empty packed array and an empty sparse map |
| `Router3Impl.WireStatusStore.Get` | common/router3_impl.h:64-71 | `get` throws when the slot's chunk does not exist; otherwise it decodes the slot against the sparse map |
| `Router3Impl.WireStatusStore.Set` | common/router3_impl.h:72-81 | `set` writes the sparse entry exactly when the status needs it and otherwise leaves the map alone, so a stale entry stays. The slot then holds the status's code, and `get` returns the status (for non-negative counts or an escaped status). Every other wire reads as before, and out of range the slot is untouched |
| `Router3Defaults.Half` | common/router3_defaults.cc:28 | C++ `n / 2` rounds toward zero: bounds on `2 * h` against `n` for either sign |
| `Router3Defaults.WireBounds` | common/router3_defaults.cc:31 | `wire_bounds(wire)` is the route bounding box of the arc from the wire to itself, the box `approx_wire_loc` halves |
| `Router3Defaults.ApproxWireLoc` | common/router3_defaults.cc:25-29 | the approximate location is on layer 0 |
| `Router3Defaults.HalfSumBetween` | common/router3_defaults.cc:28 | the truncated midpoint of two ordered coordinates lies between them, for any signs |
| `Router3Defaults.LocationInsideBounds` | common/router3_defaults.cc:25-31 | the approximate location lies inside `wire_bounds(wire)` whenever that box is proper |
| `Router3Defaults.LastIndexMapSpec` | common/router3_defaults.cc:35-38 | the reverse map that the loop builds holds exactly the enumerated wires. Each wire is at a position holding it, and no later position holds it |
| `Router3Defaults.IndexOfDistinct` | common/router3_defaults.cc:35-38 | with distinct wires, the reverse map sends the `i`-th wire to `i` |
| `Router3Defaults.IndexOfDuplicate` | common/router3_defaults.cc:35-38 | a wire enumerated twice is not mapped to its first position |
| `Router3Defaults.FlatWireIndexer.constructor` | common/router3_defaults.cc:33-39 | after the loop the wires are in enumeration order and the reverse map is the last-occurrence map |
| `Router3Defaults.FlatWireIndexer.Size` | common/router3_defaults.cc:41 | `size()` is the number of enumerated wires when that fits in 32 bits |
| `Router3Defaults.FlatWireIndexer.GetIndex` | common/router3_defaults.cc:43 | `get_index` succeeds exactly for an enumerated wire, and gives an index holding that wire; otherwise it throws |
| `Router3Defaults.FlatWireIndexer.GetWire` | common/router3_defaults.cc:45 | `get_wire` succeeds exactly below the number of wires, and gives the `index`-th enumerated wire; otherwise it throws |
| `Router3Defaults.WireOfIndexOfWire` | common/router3_defaults.cc:43-45 | `get_wire(get_index(w)) == w` for every enumerated wire |
| `Router3Defaults.IndexOfWireOfIndex` | common/router3_defaults.cc:35-45 | `get_index(get_wire(i)) == i` for every `i < size()` exactly when no wire is enumerated twice |
| `Router3Defaults.UserSegments` | common/router3_defaults.cc:57-58 | one user's run has one segment per sink wire, in order, each from the source with that user as logical sink |
| `Router3Defaults.SegmentNet` | common/router3_defaults.cc:47-62 | the nested loops return exactly the specification's segment list |
| `Router3Defaults.NetSegments` | common/router3_defaults.cc:47-62 | `segment_net`'s result: empty for a net whose driver has no cell, and otherwise one segment per (user, sink wire) pair |
| `Router3Defaults.UndrivenNetHasNoSegments` | common/router3_defaults.cc:51-52 | a net whose driver has no cell has no segments |
| `Router3Defaults.SegmentsLength` | common/router3_defaults.cc:56-59 | there is one segment per (user, sink wire) pair |
| `Router3Defaults.SegmentAt` | common/router3_defaults.cc:56-59 | the `k`-th sink of user `u` is at position (sinks of earlier users) + `k`, so the result is the users' runs concatenated in user order |
| `Router3Defaults.SegmentsWellFormed` | common/router3_defaults.cc:54-58 | every segment starts at the source wire, names a user index below `users.size()`, and ends at one of that user's sink wires |
| `Router3Defaults.SegmentsOrdered` | common/router3_defaults.cc:56-58 | segments appear in non-decreasing order of logical sink |
| `Router3Defaults.NetSegmentsSpec` | common/router3_defaults.cc:47-62 | for a driven net: the length is the total sink count, the segments are ordered by user, and each is well formed |

## Left out

- `PackedArray` is modelled only at `bits = 3`, the one instantiation the
  store uses. The bit-vector proofs are concrete at that width.
- `size_t` sizes are unbounded naturals. The one wrap this drops is the
  rounding sum `new_size + vals_per_chunk - 1` in `resize`. For
  `new_size > SIZE_MAX - 20` it wraps in the source, which then keeps no
  chunks, while the model keeps `ceil(new_size / 21)`.
- `WireStatus` congestion counts are unbounded integers, and so are the
  coordinates of `approx_wire_loc`. Overflow of `int` (of `x0 + x1`, say) is
  not modelled.
- `hist_cong << 2` on a negative count is undefined before C++20. The model
  takes the two's-complement result that the `uint8_t` conversion keeps.
- The store's round trip needs non-negative counts for an inline status.
  The source admits negative counts, and for them the round trip can fail
  (`NegativeCongestionEscapes`). So `set` takes any counts, and the round
  trip in its contract is stated only for the non-negative ones.
- Stale sparse entries: the model follows the code, so returning a
  wire to inline encoding leaves its old sparse entry in place. For
  non-negative counts `get` ignores that entry (`InlineRoundTrip`). For a
  current congestion of 7 modulo 8, such as -1, the slot reads 7 and `get`
  returns the stale entry (`StaleEntryResurfaces`). A design that removes
  the entry on that transition is not what the code does.
- `IdString` interning is not modelled. An `IdString` is an index; index 0 is
  the empty name, as `IdString()` is.
- `dict` is a Dafny `map`, so hashing and iteration order are not modelled.
- The type of `wire_to_index` is not declared in these files. It is a map
  to naturals, converted to `uint32_t` where `get_index` returns it.
- `size()` and `get_index` truncate to 32 bits above 2^32 wires. The round
  trips are stated for at most 2^32 wires.
- `Context` queries are not modelled internally. They are inputs:
  the indexer's constructor takes the sequence `getWires()` returns in
  place of the context, and `getRouteBoundingBox`,
  `getNetinfoSourceWire` and `getNetinfoSinkWires` are functions.
  `NetInfo` is reduced to whether its driver has a cell and its user list.
- The interfaces of `common/router3_api.h` are pure virtual and have no
  behaviour. Only their types are used, and virtual dispatch is not
  modelled. The "none" default of `WireSegment::logical_sink` is `None`.
- `ecp5/pack.cc` is not part of this model. It is a netlist packing pass
  over the architecture's cell and net maps, not router state.
- The per-net wire binding table (`bind_wire` / `unbind_wire`) and the
  router's main loop are not in these files. They are not part of this model.
