/**
 * The `SliceRing` contract: what pushing, dropping and reading many values
 * at once does to the logical sequence of values held by a ring, and what a
 * caller observes. Every implementation of the contract is held to this.
 */
module Contract {

  function Min(a: nat, b: nat): nat
  {
    if a <= b then a else b
  }

  /** One call on a ring; `ReadManyFront` carries the caller's buffer as it is before the call. */
  datatype Op<T> =
    | PushManyBack(values: seq<T>)
    | DropManyFront(count: nat)
    | ReadManyFront(output: seq<T>)
    | Len

  /** What the caller sees of a call: the count it returned and the buffer it filled. */
  datatype Obs<T> =
    | Pushed
    | Dropped(count: nat)
    | Read(count: nat, output: seq<T>)
    | Length(len: nat)

  /**
   * One call on the logical sequence `s`: push appends, drop removes up to
   * `count` values from the front, read copies up to `|output|` values from
   * the front into the buffer and leaves the rest of the buffer alone.
   */
  function Step<T>(s: seq<T>, op: Op<T>): (r: (seq<T>, Obs<T>))
    ensures |r.0| <= |s| + (if op.PushManyBack? then |op.values| else 0)
  {
    match op
    case PushManyBack(values) => (s + values, Pushed)
    case DropManyFront(count) =>
      var k := Min(|s|, count);
      (s[k..], Dropped(k))
    case ReadManyFront(output) =>
      var k := Min(|s|, |output|);
      (s, Read(k, s[..k] + output[k..]))
    case Len => (s, Length(|s|))
  }

  /**
   * `Step` keeps the promises the trait documents: a push appends the values;
   * a drop removes a prefix and returns less than `count` only when the ring
   * ran empty; a read copies a prefix, returns less than the buffer's length
   * only when it copied every value, and leaves the rest of the buffer and
   * the ring alone.
   */
  lemma StepKeepsTraitPromises<T>(s: seq<T>, op: Op<T>)
    ensures var r := Step(s, op);
      (op.PushManyBack? ==>
        r.1 == Pushed && |r.0| == |s| + |op.values| && r.0[..|s|] == s && r.0[|s|..] == op.values) &&
      (op.DropManyFront? ==>
        r.1.Dropped? && r.1.count <= op.count && r.1.count <= |s| && r.0 == s[r.1.count..] &&
        (r.1.count < op.count ==> r.0 == [])) &&
      (op.ReadManyFront? ==>
        r.0 == s && r.1.Read? && r.1.count <= |op.output| && r.1.count <= |s| &&
        |r.1.output| == |op.output| &&
        r.1.output[..r.1.count] == s[..r.1.count] && r.1.output[r.1.count..] == op.output[r.1.count..] &&
        (r.1.count < |op.output| ==> r.1.count == |s|)) &&
      (op.Len? ==> r == (s, Length(|s|)))
  {
  }

  /** The logical sequence after running `ops` on an empty ring. */
  function Final<T>(ops: seq<Op<T>>): seq<T>
  {
    if ops == [] then [] else Step(Final(ops[..|ops| - 1]), ops[|ops| - 1]).0
  }

  /** Everything the caller observes while running `ops` on an empty ring. */
  function Trace<T>(ops: seq<Op<T>>): seq<Obs<T>>
  {
    if ops == [] then []
    else Trace(ops[..|ops| - 1]) + [Step(Final(ops[..|ops| - 1]), ops[|ops| - 1]).1]
  }

  /** All values pushed by `ops`, in order. */
  function AllPushed<T>(ops: seq<Op<T>>): seq<T>
  {
    if ops == [] then []
    else AllPushed(ops[..|ops| - 1]) + (if ops[|ops| - 1].PushManyBack? then ops[|ops| - 1].values else [])
  }

  /** Sum of the counts the drops of a trace returned. */
  function TotalDropped<T>(trace: seq<Obs<T>>): nat
  {
    if trace == [] then 0
    else TotalDropped(trace[..|trace| - 1]) + (if trace[|trace| - 1].Dropped? then trace[|trace| - 1].count else 0)
  }

  /** The most values the ring holds at any point while running `ops` on an empty ring. */
  function Peak<T>(ops: seq<Op<T>>): nat
  {
    if ops == [] then 0
    else var p := Peak(ops[..|ops| - 1]);
      if p >= |Final(ops)| then p else |Final(ops)|
  }

  /** A prefix of a run never holds more values than the whole run does at its peak. */
  lemma {:induction false} PeakOfPrefix<T>(ops: seq<Op<T>>, i: nat)
    requires i <= |ops|
    ensures |Final(ops[..i])| <= Peak(ops[..i]) <= Peak(ops)
    decreases |ops|
  {
    if i == |ops| {
      assert ops[..i] == ops;
      if ops != [] {
        PeakOfPrefix(ops[..|ops| - 1], |ops| - 1);
      }
    } else {
      var init := ops[..|ops| - 1];
      assert init[..i] == ops[..i];
      PeakOfPrefix(init, i);
    }
  }

  /**
   * Order preservation: after any calls, the ring holds exactly the pushed
   * stream minus the prefix the drops reported as removed, nothing
   * duplicated, lost or reordered.
   */
  lemma {:induction false} FinalIsUndroppedStream<T>(ops: seq<Op<T>>)
    ensures TotalDropped(Trace(ops)) <= |AllPushed(ops)|
    ensures Final(ops) == AllPushed(ops)[TotalDropped(Trace(ops))..]
  {
    if ops != [] {
      var init, op := ops[..|ops| - 1], ops[|ops| - 1];
      FinalIsUndroppedStream(init);
      var t := Trace(ops);
      assert t[..|t| - 1] == Trace(init);
      var s, d := AllPushed(init), TotalDropped(Trace(init));
      match op
      case PushManyBack(values) =>
        assert Final(ops) == s[d..] + values;
        assert s[d..] + values == (s + values)[d..];
      case DropManyFront(count) =>
        var k := Min(|Final(init)|, count);
        assert Final(ops) == s[d..][k..];
      case ReadManyFront(output) =>
      case Len =>
    }
  }

  /** A read on a ring holding `pushed[d..]` returns the values right after `d`. */
  lemma ReadOfSuffix<T>(pushed: seq<T>, d: nat, output: seq<T>)
    requires d <= |pushed|
    ensures var obs := Step(pushed[d..], ReadManyFront(output)).1;
      obs.count == Min(|pushed| - d, |output|) &&
      obs.output[..obs.count] == pushed[d..d + obs.count] &&
      obs.output[obs.count..] == output[obs.count..]
  {
    var s := pushed[d..];
    var k := Min(|s|, |output|);
    assert (s[..k] + output[k..])[..k] == s[..k] == pushed[d..d + k];
    assert (s[..k] + output[k..])[k..] == output[k..];
  }

  /**
   * A read returns the oldest values still in the ring: those right after
   * the dropped prefix of the pushed stream.
   */
  lemma ReadSeesStream<T>(ops: seq<Op<T>>, output: seq<T>)
    ensures var obs := Step(Final(ops), ReadManyFront(output)).1;
      var d := TotalDropped(Trace(ops));
      d <= |AllPushed(ops)| &&
      obs.count == Min(|AllPushed(ops)| - d, |output|) &&
      obs.output[..obs.count] == AllPushed(ops)[d..d + obs.count] &&
      obs.output[obs.count..] == output[obs.count..]
  {
    FinalIsUndroppedStream(ops);
    ReadOfSuffix(AllPushed(ops), TotalDropped(Trace(ops)), output);
  }

  /** The ring's length after `ops` is what was pushed minus what was dropped. */
  lemma LengthIsPushedMinusDropped<T>(ops: seq<Op<T>>)
    ensures |Final(ops)| == |AllPushed(ops)| - TotalDropped(Trace(ops))
  {
    FinalIsUndroppedStream(ops);
  }
}
