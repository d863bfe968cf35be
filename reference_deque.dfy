/**
 * The reference implementation of the `SliceRing` contract on the standard
 * double-ended queue: bulk operations written as loops of single-value
 * `push_back`, `pop_front` and indexed reads.
 */
module Reference {
  import opened Contract

  datatype Option<T> = None | Some(value: T)

  /** The standard double-ended queue, seen as the sequence of its values, front first. */
  class VecDeque<T> {
    var items: seq<T>

    /** `VecDeque::new()` */
    constructor New()
      ensures items == []
    {
      items := [];
    }

    /** `push_back(x)`: appends one value. */
    method PushBack(x: T)
      modifies this
      ensures items == old(items) + [x]
    {
      items := items + [x];
    }

    /** `pop_front()`: removes and returns the front value, `None` when empty. */
    method PopFront() returns (r: Option<T>)
      modifies this
      ensures old(items) == [] ==> r == None && items == []
      ensures old(items) != [] ==> r == Some(old(items)[0]) && items == old(items)[1..]
    {
      if items == [] {
        r := None;
      } else {
        r := Some(items[0]);
        items := items[1..];
      }
    }

    /** `push_many_back(input)`: pushes the values one at a time. */
    method PushManyBack(input: seq<T>)
      modifies this
      ensures items == old(items) + input
    {
      var i := 0;
      while i < |input|
        invariant 0 <= i <= |input|
        invariant items == old(items) + input[..i]
      {
        PushBack(input[i]);
        assert input[..i + 1] == input[..i] + [input[i]];
        i := i + 1;
      }
      assert input[..|input|] == input;
    }

    /** `drop_many_front(count)`: pops `min(len, count)` values; returns how many. */
    method DropManyFront(count: nat) returns (realCount: nat)
      modifies this
      ensures realCount == Min(|old(items)|, count)
      ensures items == old(items)[realCount..]
    {
      realCount := Min(|items|, count);
      var i := 0;
      while i < realCount
        invariant 0 <= i <= realCount
        invariant items == old(items)[i..]
      {
        var popped := PopFront();
        i := i + 1;
      }
    }

    /**
     * `read_many_front(output)`: copies the first `min(len, |output|)` values
     * into `output`; returns how many. The queue is not changed.
     */
    method ReadManyFront(output: array<T>) returns (count: nat)
      modifies output
      ensures count == Min(|items|, output.Length)
      ensures output[..count] == items[..count]
      ensures output[count..] == old(output[count..])
    {
      count := Min(|items|, output.Length);
      var i := 0;
      while i < count
        invariant 0 <= i <= count
        invariant forall k :: 0 <= k < i ==> output[k] == items[k]
        invariant forall k :: i <= k < output.Length ==> output[k] == old(output[k])
      {
        output[i] := items[i];
        i := i + 1;
      }
    }
  }
}
