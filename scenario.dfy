/**
 * The `test_slice_ring!` scenario, run on a new `SliceRingImpl<i32>`: the
 * counts and buffers each call reports, and the capacity around the pushes.
 */
module Scenario {
  import opened Bits
  import opened Contract
  import opened Optimized
  import opened Equivalence

  /** The integers `lo, lo + 1, …, hi - 1`. */
  function Range(lo: int, hi: int): (r: seq<int>)
    requires lo <= hi
    ensures |r| == hi - lo
    ensures forall i :: 0 <= i < |r| ==> r[i] == lo + i
  {
    seq(hi - lo, i => lo + i)
  }

  /** `n` zeros, the caller's fresh buffer. */
  function Zeros(n: nat): (r: seq<int>)
    ensures |r| == n
    ensures forall i :: 0 <= i < n ==> r[i] == 0
  {
    seq(n, i => 0)
  }

  /**
   * A push that does not fit: the store grows to `newCap` slots, the power
   * of two just above the new length, which at least doubles it.
   */
  method GrowingPush(ring: SliceRingImpl<int>, values: seq<int>, newCap: nat) returns (obs: Obs<int>)
    requires ring.Valid() && ring.Capacity() < ring.Len() + |values|
    requires IsPowerOfTwo(newCap) && newCap / 2 <= ring.Len() + |values| < newCap
    requires 2 * ring.Cap() <= newCap <= MAX_POWER_OF_TWO
    modifies ring, ring.buf
    ensures ring.Valid() && ring.Contents() == old(ring.Contents()) + values
    ensures ring.Cap() == newCap && fresh(ring.buf)
    ensures obs == Pushed
  {
    NextPowerOfTwoIsUnique(ring.Len() + |values|, newCap);
    obs := StepOptimized(ring, PushManyBack(values));
  }

  lemma RangeTake(lo: int, hi: int, k: nat)
    requires lo + k <= hi
    ensures Range(lo, hi)[..k] == Range(lo, lo + k)
  {
  }

  lemma RangeDrop(lo: int, hi: int, k: nat)
    requires lo + k <= hi
    ensures Range(lo, hi)[k..] == Range(lo + k, hi)
  {
  }

  lemma RangeAppend(lo: int, mid: int, hi: int)
    requires lo <= mid <= hi
    ensures Range(lo, mid) + Range(mid, hi) == Range(lo, hi)
  {
  }

  /** Reading a ring that holds `lo..hi` into `n` zeros. */
  lemma ReadRange(lo: int, hi: int, n: nat)
    requires lo <= hi
    ensures var k := Min(hi - lo, n);
      Step(Range(lo, hi), ReadManyFront(Zeros(n))) == (Range(lo, hi), Read(k, Range(lo, lo + k) + Zeros(n - k)))
  {
    var k := Min(hi - lo, n);
    RangeTake(lo, hi, k);
    assert Zeros(n)[k..] == Zeros(n - k);
  }

  /** Dropping `count` values from a ring that holds `lo..hi`. */
  lemma DropRange(lo: int, hi: int, count: nat)
    requires lo <= hi
    ensures var k := Min(hi - lo, count);
      Step(Range(lo, hi), DropManyFront(count)) == (Range(lo + k, hi), Dropped(k))
  {
    RangeDrop(lo, hi, Min(hi - lo, count));
  }

  /** Calls on the empty ring: reading and dropping find nothing, the buffer stays zero. */
  method EmptyPhase(ring: SliceRingImpl<int>) returns (observed: seq<Obs<int>>)
    requires ring.Valid() && ring.Contents() == [] && ring.Cap() == 8
    modifies ring, ring.buf
    ensures ring.Valid() && ring.Contents() == [] && ring.Cap() == 8
    ensures fresh(ring.buf) || ring.buf == old(ring.buf)
    ensures observed == [Length(0), Read(0, Zeros(1000)), Dropped(0), Length(0)]
  {
    var o0 := StepOptimized(ring, Len);
    assert ring.Contents() == [];
    var o1 := StepOptimized(ring, ReadManyFront(Zeros(1000)));
    assert ring.Contents() == [];
    assert o1 == Read(0, [][..0] + Zeros(1000)[0..]);
    assert Zeros(1000)[0..] == Zeros(1000);
    assert o1 == Read(0, Zeros(1000));
    var o2 := StepOptimized(ring, DropManyFront(505));
    var o3 := StepOptimized(ring, Len);
    observed := [o0, o1, o2, o3];
  }

  /** The first push, which grows the 8-slot store to 4096 slots. */
  method FirstPushPhase(ring: SliceRingImpl<int>) returns (observed: seq<Obs<int>>)
    requires ring.Valid() && ring.Contents() == [] && ring.Cap() == 8
    modifies ring, ring.buf
    ensures ring.Valid() && ring.Contents() == Range(0, 3000) && ring.Cap() == 4096
    ensures fresh(ring.buf)
    ensures observed == [Pushed, Length(3000)]
  {
    Pow2IsPowerOfTwo(12);
    var o0 := GrowingPush(ring, Range(0, 3000), Pow2(12));
    assert ring.Contents() == Range(0, 3000);
    var o1 := StepOptimized(ring, Len);
    observed := [o0, o1];
  }

  /** Reading a prefix twice, then a first drop. */
  method RereadPhase(ring: SliceRingImpl<int>) returns (observed: seq<Obs<int>>)
    requires ring.Valid() && ring.Contents() == Range(0, 3000)
    modifies ring, ring.buf
    ensures ring.Valid() && ring.Contents() == Range(100, 3000) && ring.Cap() == old(ring.Cap())
    ensures fresh(ring.buf) || ring.buf == old(ring.buf)
    ensures observed == [Read(1000, Range(0, 1000)), Read(200, Range(0, 200)), Dropped(100), Length(2900)]
  {
    assert Zeros(0) == [];
    ReadRange(0, 3000, 1000);
    var o0 := StepOptimized(ring, ReadManyFront(Zeros(1000)));
    assert o0 == Read(1000, Range(0, 1000));
    ReadRange(0, 3000, 200);
    var o1 := StepOptimized(ring, ReadManyFront(Zeros(200)));
    assert o1 == Read(200, Range(0, 200));
    DropRange(0, 3000, 100);
    var o2 := StepOptimized(ring, DropManyFront(100));
    var o3 := StepOptimized(ring, Len);
    observed := [o0, o1, o2, o3];
  }

  /** Reading after a drop, dropping again and reading past the end. */
  method DropPhase(ring: SliceRingImpl<int>) returns (observed: seq<Obs<int>>)
    requires ring.Valid() && ring.Contents() == Range(100, 3000)
    modifies ring, ring.buf
    ensures ring.Valid() && ring.Contents() == Range(605, 3000) && ring.Cap() == old(ring.Cap())
    ensures fresh(ring.buf) || ring.buf == old(ring.buf)
    ensures observed == [Read(1000, Range(100, 1100)), Dropped(505), Length(2395),
                         Read(2395, Range(605, 3000) + Zeros(1605))]
  {
    assert Zeros(0) == [];
    ReadRange(100, 3000, 1000);
    var o0 := StepOptimized(ring, ReadManyFront(Zeros(1000)));
    assert o0 == Read(1000, Range(100, 1100));
    DropRange(100, 3000, 505);
    var o1 := StepOptimized(ring, DropManyFront(505));
    var o2 := StepOptimized(ring, Len);
    ReadRange(605, 3000, 4000);
    var o3 := StepOptimized(ring, ReadManyFront(Zeros(4000)));
    observed := [o0, o1, o2, o3];
  }

  /** A push that fits without growing the 4096-slot store. */
  method FittingPushPhase(ring: SliceRingImpl<int>) returns (observed: seq<Obs<int>>)
    requires ring.Valid() && ring.Contents() == Range(605, 3000) && ring.Cap() == 4096
    modifies ring, ring.buf
    ensures ring.Valid() && ring.Contents() == Range(605, 4000) && ring.Cap() == 4096
    ensures fresh(ring.buf) || ring.buf == old(ring.buf)
    ensures observed == [Pushed, Length(3395)]
  {
    var o0 := StepOptimized(ring, PushManyBack(Range(3000, 4000)));
    RangeAppend(605, 3000, 4000);
    var o1 := StepOptimized(ring, Len);
    observed := [o0, o1];
  }

  /** A push that grows the store again, to 8192 slots. */
  method GrowingPushPhase(ring: SliceRingImpl<int>) returns (observed: seq<Obs<int>>)
    requires ring.Valid() && ring.Contents() == Range(605, 4000) && ring.Cap() == 4096
    modifies ring, ring.buf
    ensures ring.Valid() && ring.Contents() == Range(605, 6000) && ring.Cap() == 8192
    ensures fresh(ring.buf)
    ensures observed == [Pushed, Length(5395)]
  {
    Pow2IsPowerOfTwo(13);
    assert Pow2(13) == 2 * Pow2(12) == 8192;
    var o0 := GrowingPush(ring, Range(4000, 6000), Pow2(13));
    RangeAppend(605, 4000, 6000);
    var o1 := StepOptimized(ring, Len);
    observed := [o0, o1];
  }

  /** Reading past the end of the grown ring, then reading after a drop. */
  method OverreadPhase(ring: SliceRingImpl<int>) returns (observed: seq<Obs<int>>)
    requires ring.Valid() && ring.Contents() == Range(605, 6000)
    modifies ring, ring.buf
    ensures ring.Valid() && ring.Contents() == Range(1000, 6000) && ring.Cap() == old(ring.Cap())
    ensures fresh(ring.buf) || ring.buf == old(ring.buf)
    ensures observed == [Read(5395, Range(605, 6000) + Zeros(605)), Dropped(395), Length(5000),
                         Read(5000, Range(1000, 6000))]
  {
    ReadRange(605, 6000, 6000);
    var o0 := StepOptimized(ring, ReadManyFront(Zeros(6000)));
    DropRange(605, 6000, 395);
    var o1 := StepOptimized(ring, DropManyFront(395));
    var o2 := StepOptimized(ring, Len);
    assert Zeros(0) == [];
    ReadRange(1000, 6000, 5000);
    var o3 := StepOptimized(ring, ReadManyFront(Zeros(5000)));
    assert o3 == Read(5000, Range(1000, 6000));
    observed := [o0, o1, o2, o3];
  }

  /** Dropping most values, then reading past the end. */
  method ShrinkPhase(ring: SliceRingImpl<int>) returns (observed: seq<Obs<int>>)
    requires ring.Valid() && ring.Contents() == Range(1000, 6000)
    modifies ring, ring.buf
    ensures ring.Valid() && ring.Contents() == Range(5000, 6000) && ring.Cap() == old(ring.Cap())
    ensures fresh(ring.buf) || ring.buf == old(ring.buf)
    ensures observed == [Dropped(4000), Length(1000), Read(1000, Range(5000, 6000) + Zeros(1000))]
  {
    DropRange(1000, 6000, 4000);
    var o0 := StepOptimized(ring, DropManyFront(4000));
    var o1 := StepOptimized(ring, Len);
    ReadRange(5000, 6000, 2000);
    var o2 := StepOptimized(ring, ReadManyFront(Zeros(2000)));
    observed := [o0, o1, o2];
  }

  /** Dropping more than the ring holds, then reading nothing. */
  method DrainPhase(ring: SliceRingImpl<int>) returns (observed: seq<Obs<int>>)
    requires ring.Valid() && ring.Contents() == Range(5000, 6000)
    modifies ring, ring.buf
    ensures ring.Valid() && ring.Contents() == [] && ring.Cap() == old(ring.Cap())
    ensures fresh(ring.buf) || ring.buf == old(ring.buf)
    ensures observed == [Dropped(1000), Length(0), Read(0, Zeros(2000))]
  {
    DropRange(5000, 6000, 1500);
    var o0 := StepOptimized(ring, DropManyFront(1500));
    assert ring.Contents() == Range(6000, 6000) == [];
    var o1 := StepOptimized(ring, Len);
    ReadRange(6000, 6000, 2000);
    var o2 := StepOptimized(ring, ReadManyFront(Zeros(2000)));
    assert o2 == Read(0, Zeros(2000));
    observed := [o0, o1, o2];
  }

  /**
   * `test_slice_ring!(SliceRingImpl::<i32>::new())`: every count and buffer
   * is the one the scenario asserts; the capacity is 7 at the start, 4095
   * after the first push, unchanged by the second and 8191 after the third.
   */
  method TestSliceRing() returns (observed: seq<Obs<int>>, capacities: seq<nat>)
    ensures observed ==
      [Length(0), Read(0, Zeros(1000)), Dropped(0), Length(0)] +
      [Pushed, Length(3000)] +
      [Read(1000, Range(0, 1000)), Read(200, Range(0, 200)), Dropped(100), Length(2900)] +
      [Read(1000, Range(100, 1100)), Dropped(505), Length(2395), Read(2395, Range(605, 3000) + Zeros(1605))] +
      [Pushed, Length(3395)] +
      [Pushed, Length(5395)] +
      [Read(5395, Range(605, 6000) + Zeros(605)), Dropped(395), Length(5000), Read(5000, Range(1000, 6000))] +
      [Dropped(4000), Length(1000), Read(1000, Range(5000, 6000) + Zeros(1000))] +
      [Dropped(1000), Length(0), Read(0, Zeros(2000))]
    ensures capacities == [7, 4095, 4095, 8191]
  {
    var ring := SliceRingImpl<int>.New();
    var c0 := ring.Capacity();
    var o0 := EmptyPhase(ring);
    var o1 := FirstPushPhase(ring);
    var c1 := ring.Capacity();
    var o2 := RereadPhase(ring);
    var o3 := DropPhase(ring);
    var o4 := FittingPushPhase(ring);
    var c2 := ring.Capacity();
    var o5 := GrowingPushPhase(ring);
    var c3 := ring.Capacity();
    var o6 := OverreadPhase(ring);
    var o7 := ShrinkPhase(ring);
    var o8 := DrainPhase(ring);
    observed := o0 + o1 + o2 + o3 + o4 + o5 + o6 + o7 + o8;
    capacities := [c0, c1, c2, c3];
  }
}
