/**
 * `SliceRingImpl`: the optimised ring. A backing store whose size `cap` is a
 * power of two, the first readable slot R and the next writable slot W. The
 * values in the ring are those from R up to W, wrapping at `cap`; one slot is
 * always left free so that R == W means empty.
 */
module Optimized {
  import opened Bits
  import opened Store
  import opened Contract

  /** `new()` asks for room for 7 values: a store of 2^3 slots. */
  const INITIAL_CAPACITY: nat := 7
  /** The smallest store has 2 slots, room for 1 value. */
  const MINIMUM_CAPACITY: nat := 1

  /**
   * Store size `with_capacity(n)` allocates: the smallest power of two that
   * leaves room for `n` values next to the free slot, and at least 2.
   */
  function CapacityFor(n: nat): (cap: nat)
    ensures IsPowerOfTwo(cap) && cap >= 2
    ensures cap - 1 >= n
    ensures cap == 2 || cap / 2 <= n
  {
    StdNextPowerOfTwo(if n + 1 >= MINIMUM_CAPACITY + 1 then n + 1 else MINIMUM_CAPACITY + 1)
  }

  /**
   * Store size after `Vec::reserve(additional)` reallocates a vector of
   * length 0 and capacity `cap < additional`: the vector at least doubles.
   */
  function GrownCap(cap: nat, additional: nat): (r: nat)
    requires IsPowerOfTwo(cap) && IsPowerOfTwo(additional)
    ensures IsPowerOfTwo(r)
    ensures r >= additional && r >= 2 * cap
  {
    if 2 * cap >= additional then 2 * cap else additional
  }

  class SliceRingImpl<T(0)> {
    /** R: slot of the first value that can be read. */
    var firstReadable: nat
    /** W: slot where the next value is written; not readable. */
    var nextWritable: nat
    /** The backing store; its length is `cap()`. */
    var buf: array<T>

    ghost predicate Valid()
      reads this
    {
      IsPowerOfTwo(buf.Length) && 2 <= buf.Length <= MAX_POWER_OF_TWO &&
      firstReadable < buf.Length && nextWritable < buf.Length
    }

    /** The values in the ring, front first. */
    ghost function Contents(): seq<T>
      reads this, buf
      requires Valid()
    {
      View(buf[..], firstReadable, nextWritable)
    }

    /** `with_capacity(n)`: an empty ring with room for at least `n` values. */
    constructor WithCapacity(n: nat)
      requires CapacityFor(n) <= MAX_POWER_OF_TWO
      ensures Valid() && fresh(buf)
      ensures buf.Length == CapacityFor(n)
      ensures Contents() == []
    {
      var cap := CapacityFor(n);
      firstReadable := 0;
      nextWritable := 0;
      buf := new T[cap];
    }

    /** `new()`: an empty ring with room for 7 values. */
    static method New() returns (ring: SliceRingImpl<T>)
      ensures fresh(ring) && fresh(ring.buf) && ring.Valid()
      ensures ring.Cap() == 8 && ring.Capacity() == INITIAL_CAPACITY
      ensures ring.Contents() == []
    {
      assert StdNextPowerOfTwo(8) == 2 * StdNextPowerOfTwo(4) == 4 * StdNextPowerOfTwo(2);
      ring := new SliceRingImpl.WithCapacity(INITIAL_CAPACITY);
    }

    /** `cap()`: the number of slots in the store. */
    function Cap(): (c: nat)
      reads this
      requires Valid()
      ensures IsPowerOfTwo(c) && c >= 2
    {
      buf.Length
    }

    /** `capacity()`: how many values fit, one less than the slots. */
    function Capacity(): (c: nat)
      reads this, buf
      requires Valid()
      ensures c + 1 == Cap()
      ensures |Contents()| <= c
    {
      buf.Length - 1
    }

    /** `is_continuous()`: the values sit in one block of the store, not wrapped. */
    function IsContinuous(): (b: bool)
      reads this, buf
      requires Valid()
      ensures b ==> firstReadable <= nextWritable &&
                    Contents() == buf[firstReadable..nextWritable]
      ensures !b ==> Contents() == buf[firstReadable..] + buf[..nextWritable]
    {
      firstReadable <= nextWritable
    }

    /** `len()`: the number of values in the ring. */
    function Len(): (n: nat)
      reads this, buf
      requires Valid()
      ensures n == |Contents()|
      ensures n < Cap()
    {
      Count(firstReadable, nextWritable, buf.Length)
    }

    /** `wrap_add(index, addend)`: the slot `addend` places after slot `index`. */
    function WrapAdd(index: nat, addend: nat): (r: nat)
      reads this
      requires Valid()
      requires index < USIZE_MODULUS && addend < USIZE_MODULUS
      ensures r == (index + addend) % Cap()
      ensures index < Cap() && addend < Cap() ==> r == Slot(index, addend, Cap())
    {
      WordModIsMod(index + addend, buf.Length);
      SlotIsMod(index, addend, buf.Length);
      WrapIndex(WrappingAdd(index, addend), buf.Length)
    }

    /**
     * `copy_nonoverlapping(src, dst, len)`: moves the `len` slots starting
     * at `src` to the `len` slots starting at `dst`.
     */
    method CopyNonoverlapping(src: nat, dst: nat, len: nat)
      requires src + len <= buf.Length && dst + len <= buf.Length
      requires src + len <= dst || dst + len <= src
      modifies buf
      ensures buf[..] == Move(old(buf[..]), src, dst, len)
    {
      var i := 0;
      while i < len
        invariant 0 <= i <= len
        invariant forall k :: 0 <= k < buf.Length ==>
          buf[k] == if dst <= k < dst + i then old(buf[src + k - dst]) else old(buf[k])
      {
        buf[dst + i] := buf[src + i];
        i := i + 1;
      }
    }

    /**
     * `handle_cap_increase(old_cap)`: after the store grew from `oldCap`
     * slots, moves the shorter wrapped section so that the cursors describe
     * the same values in the larger store.
     */
    method HandleCapIncrease(oldCap: nat)
      requires Valid() && IsPowerOfTwo(oldCap) && oldCap < buf.Length
      requires firstReadable < oldCap && nextWritable < oldCap
      modifies this`firstReadable, this`nextWritable, buf
      ensures Valid()
      ensures buf[..] == Relocate(old(buf[..]), old(firstReadable), old(nextWritable), oldCap)
      ensures (firstReadable, nextWritable) ==
              RelocatedCursors(old(firstReadable), old(nextWritable), oldCap, buf.Length)
      ensures Contents() == View(old(buf[..oldCap]), old(firstReadable), old(nextWritable))
      ensures old(firstReadable <= nextWritable) ==>
                firstReadable == old(firstReadable) && nextWritable == old(nextWritable)
      ensures old(nextWritable < firstReadable && nextWritable < oldCap - firstReadable) ==>
                firstReadable == old(firstReadable) && nextWritable == old(nextWritable) + oldCap &&
                firstReadable < nextWritable < buf.Length
      ensures old(nextWritable < firstReadable && nextWritable >= oldCap - firstReadable) ==>
                nextWritable == old(nextWritable) &&
                firstReadable == buf.Length - (oldCap - old(firstReadable)) &&
                nextWritable < firstReadable < buf.Length
    {
      RelocatePreservesView(buf[..], firstReadable, nextWritable, oldCap);
      assert buf[..][..oldCap] == buf[..oldCap];
      if IsContinuous() {
        return;
      }
      if nextWritable < oldCap - firstReadable {
        CopyNonoverlapping(0, oldCap, nextWritable);
        nextWritable := nextWritable + oldCap;
        return;
      }
      PowerOfTwoOrder(oldCap, buf.Length);
      var newCap := Cap();
      var newFirstReadable := newCap - (oldCap - firstReadable);
      CopyNonoverlapping(firstReadable, newFirstReadable, oldCap - firstReadable);
      firstReadable := newFirstReadable;
    }

    /**
     * `Vec::reserve(additional)` on the store, whose vector length is
     * always 0: when the store is too small it is reallocated at
     * `GrownCap` slots, the old slots keeping their indices.
     */
    method Reserve(additional: nat)
      requires Valid() && IsPowerOfTwo(additional)
      requires buf.Length < additional ==> GrownCap(buf.Length, additional) <= MAX_POWER_OF_TWO
      modifies this`buf
      ensures Valid()
      ensures old(buf.Length) < additional ==>
                fresh(buf) && buf.Length == GrownCap(old(buf.Length), additional)
      ensures additional <= old(buf.Length) ==> buf == old(buf)
      ensures buf[..old(buf.Length)] == old(buf[..])
    {
      if buf.Length < additional {
        var grown := new T[GrownCap(buf.Length, additional)];
        forall i | 0 <= i < buf.Length {
          grown[i] := buf[i];
        }
        buf := grown;
      }
    }

    /**
     * The first half of `push_many_back`: makes room for `additional` more
     * values, reserving a larger store and relocating the wrapped section
     * when they would not fit.
     */
    method MakeSpace(additional: nat)
      requires Valid()
      requires Len() + additional <= Capacity() ||
               GrownCap(Cap(), NextPowerOfTwo(Len() + additional)) <= MAX_POWER_OF_TWO
      modifies this, buf
      ensures Valid() && Contents() == old(Contents())
      ensures Len() + additional <= Capacity()
      ensures old(Capacity()) < old(Len()) + additional ==>
                fresh(buf) && Cap() == GrownCap(old(Cap()), NextPowerOfTwo(old(Len()) + additional))
      ensures old(Len()) + additional <= old(Capacity()) ==> buf == old(buf)
    {
      var required := Len() + additional;
      if Capacity() < required {
        var oldCap := Cap();
        ghost var store0 := buf[..];
        Reserve(NextPowerOfTwo(required));
        assert buf[..oldCap] == store0;
        HandleCapIncrease(oldCap);
      }
    }

    /**
     * The second half of `push_many_back`: writes `input` slot by slot from
     * W on, then advances W past it. The caller made room beforehand.
     */
    method WriteBack(input: seq<T>)
      requires Valid() && Len() + |input| <= Capacity()
      modifies this`nextWritable, buf
      ensures Valid()
      ensures Contents() == old(Contents()) + input
    {
      var additional := |input|;
      ghost var contents0 := Contents();
      ghost var r0, w0, cap := firstReadable, nextWritable, buf.Length;
      ghost var n0 := |contents0|;
      var i := 0;
      while i < additional
        invariant 0 <= i <= additional
        invariant nextWritable == w0
        invariant forall j :: 0 <= j < n0 ==> buf[Slot(r0, j, cap)] == contents0[j]
        invariant forall j :: 0 <= j < i ==> buf[Slot(w0, j, cap)] == input[j]
      {
        var dstIndex := WrapAdd(nextWritable, i);
        FreeSlotsAfterWrite(r0, n0, w0, i, cap);
        buf[dstIndex] := input[i];
        i := i + 1;
      }
      nextWritable := WrapAdd(nextWritable, additional);
      SlotShift(r0, n0, additional, cap);
      ViewOfSlots(buf[..], r0, nextWritable, contents0, input, w0);
    }

    /**
     * `push_many_back(input)`: appends `input`, growing the store first when
     * the values would not fit.
     */
    method PushManyBack(input: seq<T>)
      requires Valid()
      requires Len() + |input| <= Capacity() ||
               GrownCap(Cap(), NextPowerOfTwo(Len() + |input|)) <= MAX_POWER_OF_TWO
      modifies this, buf
      ensures Valid()
      ensures Contents() == old(Contents()) + input
      ensures old(Capacity()) < old(Len()) + |input| ==>
                fresh(buf) && Cap() == GrownCap(old(Cap()), NextPowerOfTwo(old(Len()) + |input|))
      ensures old(Len()) + |input| <= old(Capacity()) ==> buf == old(buf)
      ensures Cap() >= old(Cap())
    {
      MakeSpace(|input|);
      WriteBack(input);
    }

    /**
     * `drop_many_front(count)`: removes up to `count` values from the front
     * by moving R alone; returns how many were removed.
     */
    method DropManyFront(count: nat) returns (realCount: nat)
      requires Valid()
      modifies this`firstReadable
      ensures Valid()
      ensures realCount == Min(old(Len()), count)
      ensures Contents() == old(Contents())[realCount..]
      ensures nextWritable == old(nextWritable) && buf[..] == old(buf[..])
    {
      realCount := Min(Len(), count);
      SlotIsMod(firstReadable, realCount, buf.Length);
      ViewDrop(buf[..], firstReadable, nextWritable, realCount);
      firstReadable := WrapAdd(firstReadable, realCount);
    }

    /**
     * `read_many_front(output)`: copies up to `output.Length` values from
     * the front into `output`; returns how many were copied. The ring and
     * the rest of `output` are left as they were.
     */
    method ReadManyFront(output: array<T>) returns (realCount: nat)
      requires Valid() && output != buf
      modifies output
      ensures realCount == Min(Len(), output.Length)
      ensures output[..realCount] == Contents()[..realCount]
      ensures output[realCount..] == old(output[realCount..])
    {
      realCount := Min(Len(), output.Length);
      var i := 0;
      while i < realCount
        invariant 0 <= i <= realCount
        invariant forall k :: 0 <= k < i ==> output[k] == Contents()[k]
        invariant forall k :: i <= k < output.Length ==> output[k] == old(output[k])
      {
        var srcIndex := WrapAdd(firstReadable, i);
        SlotIsMod(firstReadable, i, buf.Length);
        output[i] := buf[srcIndex];
        i := i + 1;
      }
    }
  }
}
