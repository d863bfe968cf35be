# strider slice ring, modelled in Dafny

strider is a Rust crate for sliding-window signal processing. It keeps its
samples in `SliceRingImpl<T>`, a ring buffer tuned for bulk operations:
- append a slice at the back (`push_many_back`);
- drop a number of values from the front (`drop_many_front`);
- copy a prefix into a caller's slice (`read_many_front`).

The three operations form the `SliceRing` trait. The crate also implements
the trait on the standard `VecDeque`, as a simple reference that the same
test scenario runs against.

The ring's backing store has `cap` slots, and `cap` is a power of two. Two
cursors describe the occupied region:
- R (`first_readable`) is the slot of the first value;
- W (`next_writable`) is the slot the next value goes to.

The ring holds the values from R up to W, wrapping at `cap`. One slot always
stays free, so R == W means empty and the length is
`(W - R) & (cap - 1)`. A push that does not fit reserves a larger store. The
`handle_cap_increase` step is then meant to move the shorter of the two
wrapped sections so that the cursors describe the same values in the larger
store. As written, it moves only the cursors (see "## Findings").

The model's `copy_nonoverlapping` performs the documented move. So every
contract that involves growth (`HandleCapIncrease`, `MakeSpace`,
`PushManyBack`, `RunStep`, `RunOptimized`, `RunBoth`) is about the corrected
ring. As written, the two implementations diverge after a wrapped ring grows.

The project is split into these modules:
- `Bits` (bits.dfy): the index arithmetic — `count`, `wrap_index`,
  `next_power_of_two` — with `&` on naturals and `usize` wrap-around made
  explicit.
- `Store` (store.dfy): the store seen as a value. It covers which slot
  holds which logical value (`View`) and how growth relocates the wrapped
  part, both as the crate intends it and as it is written.
- `Contract` (contract.dfy): the `SliceRing` contract on an abstract
  sequence. It also defines what a caller observes over any series of
  calls, and proves that order is preserved.
- `Optimized` (slice_ring_impl.dfy): `SliceRingImpl` as a class over an
  array. Every operation is proved against `Contents()`, the sequence the
  cursors describe.
- `Reference` (reference_deque.dfy): the `VecDeque` implementation, as
  loops of `push_back`, `pop_front` and indexed reads over a sequence.
- `Equivalence` (equivalence.dfy): both implementations driven by the same
  calls produce the contract's observations, and so produce identical
  results, for the ring with the documented `copy_nonoverlapping`.
- `Scenario` (scenario.dfy): the `test_slice_ring!` run on a new ring.
  Every count and buffer it checks is proved.

## Model

| member | source | states |
|---|---|---|
| Bits.PowerOfTwoIsPow2 | src/lib.rs:194-206 | `usize::is_power_of_two` (`Bits.IsPowerOfTwo`) holds exactly for the values `2^k`, in both directions, so 0 is not a power of two, as in std |
| Bits.BitAnd | src/lib.rs:188-201 | bitwise `&` on naturals; the result never exceeds either operand (with `size - 1` it is the remainder, see Bits.MaskIsMod) |
| Bits.Count | src/lib.rs:188-191 | `(head - tail) & (size - 1)` after wrapping subtraction is `(head - tail) mod size`, below `size`: `head - tail` when not wrapped, `size - tail + head` when wrapped |
| Bits.WrapIndex | src/lib.rs:194-201 | masking with `size - 1` reduces an index modulo a power-of-two `size` |
| Bits.MaskIsMod | src/lib.rs:194-201 | for a power of two `size`, `x & (size - 1) == x % size` for every `x` |
| Bits.WrappingAdd | src/lib.rs:262-265 | `usize::wrapping_add`: the sum, less 2^64 when it overflows |
| Bits.WrappingSub | src/lib.rs:188-191 | `usize::wrapping_sub`: the difference, plus 2^64 when negative |
| Bits.StdNextPowerOfTwo | src/lib.rs:220-222 | `usize::next_power_of_two`: a power of two, at least `x`, and half of it is below `x` |
| Bits.NextPowerOfTwo | src/lib.rs:204-206 | a power of two strictly greater than `x`, whose half is at most `x`, and at most `2x` for `x >= 1` |
| Bits.NextPowerOfTwoIsLeast | src/lib.rs:204-206 | every power of two greater than `x` is at least `next_power_of_two(x)` |
| Bits.NextPowerOfTwoIsUnique | src/lib.rs:204-206 | `next_power_of_two(x)` is the only power of two `p` with `p / 2 <= x < p` |
| Bits.PowerOfTwoOrder | src/lib.rs:284-356 | a power of two greater than another is at least twice it, so the grown store has room for the moved section |
| Store.Slot | src/lib.rs:262-265 | the slot of logical element `j` read from `r` lies inside the store |
| Store.SlotIsMod | src/lib.rs:262-265 | that slot is `(r + j) % cap`, the index `wrap_add(r, j)` computes |
| Store.ViewLength | src/lib.rs:254-257 | the ring holds `Distance(R, W)` values, always fewer than `cap`: one slot stays free |
| Store.ViewOfSlots | src/lib.rs:363-391 | writing the input at the slots from W on and advancing W appends the input to the contents |
| Store.ViewDrop | src/lib.rs:394-400 | advancing R by `k` removes exactly the first `k` values |
| Store.FreeSlotsAfterWrite | src/lib.rs:374-390 | the slots the push writes are neither occupied nor written twice |
| Store.Move | src/lib.rs:267-271 | the `len` slots from `dst` hold what the `len` slots from `src` held; every other slot keeps its value |
| Store.RelocatedCursors | src/lib.rs:284-356 | the cursors after growth stay inside the new store and enclose as many values as before |
| Store.Relocate | src/lib.rs:284-356 | the grown store as intended: the old slots untouched; continuous: nothing moves; short front: the `W` front slots copied to `[old_cap, old_cap + W)`; otherwise the slots from R copied to the top of the store |
| Store.RelocateAsWritten | src/lib.rs:284-356 | the grown store as written: the slots above `old_cap` that the moved cursors now cover keep what the reallocation left there |
| Store.RelocatePreservesView | src/lib.rs:284-356 | moving the shorter wrapped section keeps every value, in order: the grown store's contents equal the old store's |
| Store.AsWrittenLosesTail | src/lib.rs:273-278 | the other wrapped case as written: an 8-slot ring with R = 7, W = 5 grown to 16 slots reads 0 at its front where it held 17 |
| Store.AsWrittenLosesElement | src/lib.rs:273-278 | with `copy_nonoverlapping` copying nothing, a wrapped ring of 8 slots grown to 16 reads 0 where it held 10 |
| Contract.Step | src/lib.rs:112-127 | one call on the logical sequence; only a push can add values, and by no more than it pushes |
| Contract.StepKeepsTraitPromises | src/lib.rs:112-127 | push appends the values; drop removes a prefix of `min(len, count)` and returns less than `count` only when the ring ran empty; read copies a prefix into the buffer, returns less than its length only when it copied every value, and changes neither the rest of the buffer nor the ring |
| Contract.PeakOfPrefix | src/lib.rs:99-103 | "more values than ever before" made precise: the peak of a run bounds the length after each of its prefixes and the peak of each prefix (the allocation promise itself is Equivalence.RunStep's) |
| Contract.FinalIsUndroppedStream | src/lib.rs:112-127 | after any calls, the ring holds the pushed stream minus the prefix the drops reported, nothing lost, duplicated or reordered |
| Contract.ReadOfSuffix | src/lib.rs:121-126 | a read on a ring holding a suffix of the pushed stream returns `min(len, output.len())` and copies the values right after the dropped prefix, leaving the rest of the buffer alone |
| Contract.ReadSeesStream | src/lib.rs:121-126 | a read returns `min(len, output.len())` and the oldest undropped values, and leaves the rest of the buffer alone |
| Contract.LengthIsPushedMinusDropped | src/lib.rs:112-127 | the length is the number pushed minus the counts the drops returned |
| Optimized.CapacityFor | src/lib.rs:220-229 | `with_capacity(n)` asks for a power of two of at least 2 slots, more than `n`, and no more than needed |
| Optimized.GrownCap | src/lib.rs:363-372 | `Vec::reserve` at least doubles the store and reaches the requested size, keeping a power of two |
| Optimized.SliceRingImpl.WithCapacity | src/lib.rs:220-229 | a new empty ring whose store has `CapacityFor(n)` slots |
| Optimized.SliceRingImpl.New | src/lib.rs:215-217 | `new()` is an empty ring of 8 slots with capacity 7 |
| Optimized.SliceRingImpl.Cap | src/lib.rs:233-240 | the store size is a power of two, at least 2 |
| Optimized.SliceRingImpl.Capacity | src/lib.rs:243-245 | one less than the slots, and never below the length |
| Optimized.SliceRingImpl.IsContinuous | src/lib.rs:248-250 | true means the values are the one block `buf[R..W]`; false means they are `buf[R..]` followed by `buf[..W]` |
| Optimized.SliceRingImpl.Len | src/lib.rs:254-257 | the number of values in the ring, below `cap` |
| Optimized.SliceRingImpl.WrapAdd | src/lib.rs:262-265 | `(index + addend) % cap`, the slot `addend` places after `index` |
| Optimized.SliceRingImpl.CopyNonoverlapping | src/lib.rs:267-278 | the store becomes `Move(old store, src, dst, len)`: the `len` slots from `dst` now hold what the `len` slots from `src` held; every other slot is unchanged |
| Optimized.SliceRingImpl.HandleCapIncrease | src/lib.rs:281-356 | contents preserved; continuous: cursors kept; short front: `W += old_cap` and `R < W < cap`; otherwise `R = cap - (old_cap - R)` and `W < R < cap` |
| Optimized.SliceRingImpl.Reserve | src/lib.rs:363-372 | a store too small is replaced by a fresh one of `GrownCap` slots, the old slots at the same indices |
| Optimized.SliceRingImpl.MakeSpace | src/lib.rs:363-372 | afterwards the input fits and the contents are unchanged; the store grows exactly when `capacity() < len() + additional` |
| Optimized.SliceRingImpl.WriteBack | src/lib.rs:374-390 | writing the input slot by slot from W and advancing W appends it to the contents |
| Optimized.SliceRingImpl.PushManyBack | src/lib.rs:363-391 | contents become old contents followed by the input (with the documented move on growth); growth exactly when it does not fit, to `GrownCap`; `cap` never shrinks |
| Optimized.SliceRingImpl.DropManyFront | src/lib.rs:394-400 | returns `min(len, count)`, removes that many values from the front, and changes neither W nor the store |
| Optimized.SliceRingImpl.ReadManyFront | src/lib.rs:403-417 | returns `k = min(len, output.len())`, `output[..k]` is the first `k` values, `output[k..]` and the ring are unchanged |
| Reference.VecDeque.PushBack | src/lib.rs:131-137 | `push_back` appends one value |
| Reference.VecDeque.PopFront | src/lib.rs:139-145 | `pop_front` removes and returns the front value, or `None` on an empty queue |
| Reference.VecDeque.PushManyBack | src/lib.rs:131-137 | pushing each value in turn appends the whole input |
| Reference.VecDeque.DropManyFront | src/lib.rs:139-145 | returns `min(len, count)` and removes that many values from the front |
| Reference.VecDeque.ReadManyFront | src/lib.rs:147-153 | returns `k = min(len, output.len())`, `output[..k]` is the first `k` values, `output[k..]` unchanged |
| Equivalence.StepOptimized | src/lib.rs:361-418 | each `SliceRingImpl` call changes the contents and reports what the contract prescribes for that call; only a push that does not fit replaces the store, so drop, read and a fitting push never allocate |
| Equivalence.StepReference | src/lib.rs:129-154 | each `VecDeque` call changes the contents and reports what the contract prescribes for that call |
| Equivalence.GrowthWithinPeak | src/lib.rs:363-372 | a store that must grow to hold a length no larger than the peak grows to at most twice the peak |
| Equivalence.RunStep | src/lib.rs:99-103 | one call on the ring leaves what the contract's calls up to it leave and reports the contract's observation; the capacity always covers the most values held so far, the store stays within twice that, and a new store is allocated only when the call leaves more values in the ring than ever before |
| Equivalence.RunOptimized | src/lib.rs:361-418 | any series of calls on a new `SliceRingImpl` with the documented `copy_nonoverlapping`, in which the ring never holds more than 2^62 values at once, reports the contract's trace; how many values stream through is unbounded |
| Equivalence.RunReference | src/lib.rs:129-154 | any series of calls on a new `VecDeque` reports the contract's trace |
| Equivalence.RunBoth | tests/lib.rs:8-15 | for any series of calls in which the ring never holds more than 2^62 values at once, the optimised ring with the documented `copy_nonoverlapping` and the `VecDeque` return the same counts and fill the buffers identically |
| Scenario.EmptyPhase | src/lib.rs:427-437 | on the empty ring, read returns 0 and leaves the buffer zero; drop(505) returns 0; length stays 0 |
| Scenario.FirstPushPhase | src/lib.rs:439-444 | pushing 0..3000 grows the 8-slot store to 4096 slots; length 3000 |
| Scenario.RereadPhase | src/lib.rs:446-456 | reading 1000 yields 0..1000; reading again 200 yields 0..200; drop(100) returns 100; length 2900 |
| Scenario.DropPhase | src/lib.rs:458-470 | reading yields 100..1100; drop(505) returns 505; reading 4000 returns 2395 with 605..3000 then zeros |
| Scenario.FittingPushPhase | src/lib.rs:472-476 | pushing 3000..4000 keeps the 4096-slot store; length 3395 |
| Scenario.GrowingPushPhase | src/lib.rs:478-483 | pushing 4000..6000 grows the store to 8192 slots; length 5395 |
| Scenario.OverreadPhase | src/lib.rs:485-498 | reading 6000 returns 5395 with 605..6000 then zeros; drop(395) returns 395; reading 5000 yields 1000..6000 |
| Scenario.ShrinkPhase | src/lib.rs:500-507 | drop(4000) returns 4000; length 1000; reading 2000 returns 1000 with 5000..6000 then zeros |
| Scenario.DrainPhase | src/lib.rs:509-518 | drop(1500) on 1000 values returns 1000; length 0; reading 2000 returns 0 and leaves the buffer zero |
| Scenario.TestSliceRing | src/lib.rs:421-519 | the whole `test_slice_ring!` run on `SliceRingImpl::new()` reports exactly the counts and buffers it asserts; capacity 7, then 4095, 4095, 8191 around the three pushes |

## Left out

- Zero-sized element types: for them `cap()` is `usize::MAX`, which is not a power of two. The model's store length is always `cap()`, and elements have a default value (`T(0)`).
- Uninitialised memory, `get_unchecked`, `ptr::write` and the clone and destructor policy. Slots of a fresh store hold the element type's default value instead of uninitialised memory.
- Allocation: `Vec::reserve` on the store (whose vector length is always 0) is modelled by its amortised growth rule, `max(2 * cap, requested)`. The allocator returning more than was asked for is not modelled.
- `usize` overflow that would panic is taken as a precondition:
  - `n + 1` and the power of two in `with_capacity` (the "capacity overflow" assert);
  - `len() + input.len()` and the reserved size in `push_many_back`.
  The cursors are naturals below `cap`. Wrap-around is modelled only where the source relies on it: `wrapping_sub` in `count` and `wrapping_add` in `wrap_add`.
- Optimized.SliceRingImpl.CopyNonoverlapping: requires the two ranges not to overlap, a requirement taken from the function's name and its callers; the source only debug-asserts the bounds.
- Equivalence.RunOptimized: requires that the ring never holds more than 2^62 values at once (`Contract.Peak`), so that no push needs a store beyond 2^63 slots, where the source panics on capacity overflow. The number of values streamed through is not bounded.
- Equivalence.RunBoth: same requirement as Equivalence.RunOptimized, for the same reason. It is about the corrected ring: the ring as written diverges from the `VecDeque` once a wrapped ring grows (Store.AsWrittenLosesElement, Store.AsWrittenLosesTail).
- The crate-level example program (reading stdin, printing windows), the benchmarks and the timing claims.
- The commented-out capacity asserts of the test macro are not modelled as asserts. Scenario.TestSliceRing states the capacities the model computes instead.
- The `VecDeque` run of `test_slice_ring!` (tests/lib.rs) is not replayed step by step. Its outcome follows from Equivalence.RunBoth together with Scenario.TestSliceRing, which are both stated through Contract.Step; no single lemma ties the two.

## Findings

| source | as written | input that shows it | evidently intended | confidence | as-written member | corrected member |
|---|---|---|---|---|---|---|
| src/lib.rs:273-278 | `copy_nonoverlapping` only debug-asserts its bounds and moves nothing, yet `handle_cap_increase` moves the cursors as if the section had been copied | 8-slot store holding 10..17 with R = 5, W = 1, grown to 16 slots: W becomes 9, and the fourth value read is the never-written slot 8 (0) instead of 10; the other wrapped case, R = 7 and W = 5, likewise reads never-written slot 15 (0) where it held 17 (Store.AsWrittenLosesTail) | move the `len` slots at `src` to `dst`, as its doc comment and the diagrams in `handle_cap_increase` describe | high (proved on the model, not executed) | Store.AsWrittenLosesElement | Store.RelocatePreservesView |
