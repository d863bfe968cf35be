/**
 * Both implementations of the `SliceRing` contract, driven by the same calls
 * from an empty ring, report exactly what the contract prescribes, and hence
 * the same thing as each other.
 */
module Equivalence {
  import opened Bits
  import opened Contract
  import opened Optimized
  import opened Reference

  function Max(a: nat, b: nat): nat
  {
    if a >= b then a else b
  }

  /** A caller's buffer holding `output`, in a fresh array. */
  method BufferOf<T>(output: seq<T>) returns (a: array<T>)
    ensures fresh(a) && a[..] == output
  {
    a := new T[|output|](i requires 0 <= i < |output| => output[i]);
  }

  /** One call on the optimised ring, and what the caller observes. */
  method StepOptimized<T(0)>(ring: SliceRingImpl<T>, op: Op<T>) returns (obs: Obs<T>)
    requires ring.Valid()
    requires op.PushManyBack? && ring.Capacity() < ring.Len() + |op.values| ==>
               GrownCap(ring.Cap(), NextPowerOfTwo(ring.Len() + |op.values|)) <= MAX_POWER_OF_TWO
    modifies ring, ring.buf
    ensures ring.Valid()
    ensures (ring.Contents(), obs) == Step(old(ring.Contents()), op)
    ensures fresh(ring.buf) || ring.buf == old(ring.buf)
    ensures op.PushManyBack? && old(ring.Capacity()) < old(ring.Len()) + |op.values| ==>
              ring.Cap() == GrownCap(old(ring.Cap()), NextPowerOfTwo(old(ring.Len()) + |op.values|))
    ensures !(op.PushManyBack? && old(ring.Capacity()) < old(ring.Len()) + |op.values|) ==>
              ring.buf == old(ring.buf) && ring.Cap() == old(ring.Cap())
  {
    match op
    case PushManyBack(values) =>
      ring.PushManyBack(values);
      obs := Pushed;
    case DropManyFront(count) =>
      var k := ring.DropManyFront(count);
      obs := Dropped(k);
    case ReadManyFront(output) =>
      var out := BufferOf(output);
      var k := ring.ReadManyFront(out);
      assert out[..] == out[..k] + out[k..];
      obs := Read(k, out[..]);
    case Len =>
      obs := Length(ring.Len());
  }

  /** One call on the reference queue, and what the caller observes. */
  method StepReference<T>(deque: VecDeque<T>, op: Op<T>) returns (obs: Obs<T>)
    modifies deque
    ensures (deque.items, obs) == Step(old(deque.items), op)
  {
    match op
    case PushManyBack(values) =>
      deque.PushManyBack(values);
      obs := Pushed;
    case DropManyFront(count) =>
      var k := deque.DropManyFront(count);
      obs := Dropped(k);
    case ReadManyFront(output) =>
      var out := BufferOf(output);
      var k := deque.ReadManyFront(out);
      assert out[..] == out[..k] + out[k..];
      obs := Read(k, out[..]);
    case Len =>
      obs := Length(|deque.items|);
  }

  /** After `ops`, the prefix of a longer run, the trace grows by the next call's observation. */
  lemma TraceStep<T>(ops: seq<Op<T>>, i: nat)
    requires i < |ops|
    ensures Trace(ops[..i + 1]) == Trace(ops[..i]) + [Step(Final(ops[..i]), ops[i]).1]
    ensures Final(ops[..i + 1]) == Step(Final(ops[..i]), ops[i]).0
    ensures AllPushed(ops[..i + 1]) ==
            AllPushed(ops[..i]) + (if ops[i].PushManyBack? then ops[i].values else [])
    ensures Peak(ops[..i + 1]) == Max(Peak(ops[..i]), |Final(ops[..i + 1])|)
  {
    assert ops[..i + 1][..i] == ops[..i];
  }

  /**
   * A store of `cap` slots that must grow to hold `required` values, no more
   * than the ring's peak, grows to at most twice that peak.
   */
  lemma GrowthWithinPeak(cap: nat, required: nat, peak: nat)
    requires IsPowerOfTwo(cap) && cap <= required <= peak
    ensures GrownCap(cap, NextPowerOfTwo(required)) <= 2 * peak
  {
  }

  /**
   * Call `i` of `ops` on a ring holding what the calls before it left: the
   * ring then holds what the calls up to `i` leave. Its capacity covers the
   * peak so far, its store stays within twice that peak, and it allocates a
   * new store only when it is about to hold more values than ever before.
   */
  method RunStep<T(0)>(ring: SliceRingImpl<T>, ops: seq<Op<T>>, i: nat) returns (obs: Obs<T>)
    requires i < |ops| && Peak(ops) <= MAX_POWER_OF_TWO / 2
    requires ring.Valid() && ring.Contents() == Final(ops[..i])
    requires Peak(ops[..i]) <= ring.Capacity() && ring.Cap() <= Max(8, 2 * Peak(ops[..i]))
    modifies ring, ring.buf
    ensures ring.Valid() && (fresh(ring.buf) || ring.buf == old(ring.buf))
    ensures ring.Contents() == Final(ops[..i + 1])
    ensures obs == Step(Final(ops[..i]), ops[i]).1
    ensures Peak(ops[..i + 1]) <= ring.Capacity() && ring.Cap() <= Max(8, 2 * Peak(ops[..i + 1]))
    ensures ring.buf != old(ring.buf) ==> Peak(ops[..i]) < |Final(ops[..i + 1])|
  {
    TraceStep(ops, i);
    PeakOfPrefix(ops, i + 1);
    var grows := ops[i].PushManyBack? && ring.Capacity() < ring.Len() + |ops[i].values|;
    if grows {
      GrowthWithinPeak(ring.Cap(), ring.Len() + |ops[i].values|, Peak(ops[..i + 1]));
      assert Peak(ops[..i]) < |Final(ops[..i + 1])|;
    }
    ghost var oldCapacity := ring.Capacity();
    obs := StepOptimized(ring, ops[i]);
    assert !grows ==> ring.Capacity() == oldCapacity;
    assert |Final(ops[..i + 1])| <= ring.Capacity();
  }

  /**
   * Runs `ops` on a new `SliceRingImpl`. As long as the ring never holds
   * more than 2^62 values at once, however many pass through it, the store
   * never needs more than 2^63 slots, and the caller observes exactly the
   * contract's trace.
   */
  method RunOptimized<T(0)>(ops: seq<Op<T>>) returns (trace: seq<Obs<T>>)
    requires Peak(ops) <= MAX_POWER_OF_TWO / 2
    ensures trace == Trace(ops)
  {
    var ring := SliceRingImpl<T>.New();
    trace := [];
    var i := 0;
    while i < |ops|
      invariant 0 <= i <= |ops|
      invariant ring.Valid() && fresh(ring) && fresh(ring.buf)
      invariant ring.Contents() == Final(ops[..i])
      invariant trace == Trace(ops[..i])
      invariant Peak(ops[..i]) <= ring.Capacity() && ring.Cap() <= Max(8, 2 * Peak(ops[..i]))
    {
      TraceStep(ops, i);
      var obs := RunStep(ring, ops, i);
      trace := trace + [obs];
      i := i + 1;
    }
    assert ops[..|ops|] == ops;
  }

  /** Runs `ops` on a new `VecDeque`: the caller observes the contract's trace. */
  method RunReference<T>(ops: seq<Op<T>>) returns (trace: seq<Obs<T>>)
    ensures trace == Trace(ops)
  {
    var deque := new VecDeque<T>.New();
    trace := [];
    var i := 0;
    while i < |ops|
      invariant 0 <= i <= |ops|
      invariant fresh(deque)
      invariant deque.items == Final(ops[..i])
      invariant trace == Trace(ops[..i])
    {
      TraceStep(ops, i);
      var obs := StepReference(deque, ops[i]);
      trace := trace + [obs];
      i := i + 1;
    }
    assert ops[..|ops|] == ops;
  }

  /**
   * The optimised ring and the reference queue return the same counts and
   * fill the caller's buffers identically for any sequence of calls that
   * never has the ring hold more than 2^62 values at once.
   */
  method RunBoth<T(0)>(ops: seq<Op<T>>) returns (optimized: seq<Obs<T>>, reference: seq<Obs<T>>)
    requires Peak(ops) <= MAX_POWER_OF_TWO / 2
    ensures optimized == reference
    ensures |optimized| == |ops|
  {
    optimized := RunOptimized(ops);
    reference := RunReference(ops);
    TraceLength(ops);
  }

  lemma {:induction false} TraceLength<T>(ops: seq<Op<T>>)
    ensures |Trace(ops)| == |ops|
  {
    if ops != [] {
      TraceLength(ops[..|ops| - 1]);
    }
  }
}
