/**
 * The backing store of the ring seen as a value: which slots hold which
 * logical element, and how growing the store relocates the wrapped part.
 */
module Store {
  import opened Bits

  /** Number of occupied slots from `r` (first readable) up to `w` (next writable). */
  function Distance(r: nat, w: nat, cap: nat): nat
    requires r < cap
  {
    if r <= w then w - r else cap - r + w
  }

  /** Physical slot of logical element `j` when reading starts at slot `r`. */
  function Slot(r: nat, j: nat, cap: nat): (s: nat)
    requires r < cap && j < cap
    ensures s < cap
  {
    if r + j < cap then r + j else r + j - cap
  }

  /** Stepping `a` slots and then `b` more is stepping `a + b` slots. */
  lemma SlotShift(r: nat, a: nat, b: nat, cap: nat)
    requires r < cap && a + b < cap
    ensures Slot(Slot(r, a, cap), b, cap) == Slot(r, a + b, cap)
  {
  }

  /** `Slot` is the wrapped addition `(r + j) % cap` the ring computes with `wrap_add`. */
  lemma SlotIsMod(r: nat, j: nat, cap: nat)
    ensures r < cap && j < cap ==> Slot(r, j, cap) == (r + j) % cap
  {
    if r < cap && j < cap {
      ModSmall(r + j, cap);
    }
  }

  /** The logical contents of a store whose readable region runs from `r` to `w`. */
  ghost function View<T>(store: seq<T>, r: nat, w: nat): seq<T>
    requires r < |store| && w < |store|
  {
    var n := Distance(r, w, |store|);
    seq(n, j requires 0 <= j < n => store[Slot(r, j, |store|)])
  }

  /** The view has `Distance` elements, so at least one slot is always free. */
  lemma ViewLength<T>(store: seq<T>, r: nat, w: nat)
    requires r < |store| && w < |store|
    ensures |View(store, r, w)| == Distance(r, w, |store|) < |store|
  {
  }

  /**
   * A store whose slots from `r` on hold `front` and whose slots from
   * `w = Slot(r, |front|)` on hold `back` has view `front + back`.
   */
  lemma ViewOfSlots<T>(store: seq<T>, r: nat, w': nat, front: seq<T>, back: seq<T>, w: nat)
    requires r < |store| && w' < |store| && |front| + |back| < |store|
    requires w == Slot(r, |front|, |store|) && w' == Slot(r, |front| + |back|, |store|)
    requires forall j :: 0 <= j < |front| ==> store[Slot(r, j, |store|)] == front[j]
    requires forall j :: 0 <= j < |back| ==> store[Slot(w, j, |store|)] == back[j]
    ensures View(store, r, w') == front + back
  {
    var cap := |store|;
    forall j | |front| <= j < |front| + |back|
      ensures store[Slot(r, j, cap)] == back[j - |front|]
    {
      SlotShift(r, |front|, j - |front|, cap);
    }
  }

  /**
   * The slot `i` places after `w = Slot(r, n)` holds none of the `n` values
   * from `r` on, and none of those written at the `i` slots before it.
   */
  lemma FreeSlotsAfterWrite(r: nat, n: nat, w: nat, i: nat, cap: nat)
    requires r < cap && n + i < cap && w == Slot(r, n, cap)
    ensures forall j :: 0 <= j < n ==> Slot(r, j, cap) != Slot(w, i, cap)
    ensures forall j :: 0 <= j < i ==> Slot(w, j, cap) != Slot(w, i, cap)
  {
  }

  /** Advancing the first readable slot by `k` drops the first `k` elements. */
  lemma ViewDrop<T>(store: seq<T>, r: nat, w: nat, k: nat)
    requires r < |store| && w < |store|
    requires k <= Distance(r, w, |store|)
    ensures View(store, Slot(r, k, |store|), w) == View(store, r, w)[k..]
  {
    var cap := |store|;
    var r' := Slot(r, k, cap);
    assert Distance(r', w, cap) == Distance(r, w, cap) - k;
    forall j | 0 <= j < Distance(r', w, cap)
      ensures Slot(r', j, cap) == Slot(r, k + j, cap)
    {
    }
  }

  /** `len` slots starting at `src` moved to the slots starting at `dst`; all other slots kept. */
  function Move<T>(store: seq<T>, src: nat, dst: nat, len: nat): (moved: seq<T>)
    requires src + len <= |store| && dst + len <= |store|
    ensures |moved| == |store|
    ensures moved[dst..dst + len] == store[src..src + len]
    ensures forall i :: 0 <= i < |store| && !(dst <= i < dst + len) ==> moved[i] == store[i]
  {
    seq(|store|, i requires 0 <= i < |store| =>
      if dst <= i < dst + len then store[src + i - dst] else store[i])
  }

  /**
   * Cursors after the store grew from `oldCap` to `newCap` slots: a continuous
   * region stays, otherwise the shorter wrapped section is moved, the part in
   * front of the wrap point behind the old end, or the part behind `r` to the
   * top of the new store.
   */
  function RelocatedCursors(r: nat, w: nat, oldCap: nat, newCap: nat): (c: (nat, nat))
    requires IsPowerOfTwo(oldCap) && IsPowerOfTwo(newCap) && oldCap < newCap
    requires r < oldCap && w < oldCap
    ensures c.0 < newCap && c.1 < newCap
    ensures Distance(c.0, c.1, newCap) == Distance(r, w, oldCap)
  {
    PowerOfTwoOrder(oldCap, newCap);
    if r <= w then (r, w)
    else if w < oldCap - r then (r, w + oldCap)
    else (newCap - (oldCap - r), w)
  }

  /** The grown store after the shorter wrapped section was moved. */
  function Relocate<T>(store: seq<T>, r: nat, w: nat, oldCap: nat): (grown: seq<T>)
    requires IsPowerOfTwo(oldCap) && IsPowerOfTwo(|store|) && oldCap < |store|
    requires r < oldCap && w < oldCap
    ensures |grown| == |store| && 2 * oldCap <= |grown|
    ensures grown[..oldCap] == store[..oldCap]
    ensures r <= w ==> grown == store
    ensures w < r && w < oldCap - r ==> grown[oldCap..oldCap + w] == store[..w]
    ensures w < r && w >= oldCap - r ==> grown[|store| - (oldCap - r)..] == store[r..oldCap]
  {
    PowerOfTwoOrder(oldCap, |store|);
    if r <= w then store
    else if w < oldCap - r then Move(store, 0, oldCap, w)
    else Move(store, r, |store| - (oldCap - r), oldCap - r)
  }

  /**
   * Relocation keeps the logical sequence: the elements the old store held
   * between `r` and `w` are, in order, those the grown store holds between
   * the relocated cursors.
   */
  lemma RelocatePreservesView<T>(store: seq<T>, r: nat, w: nat, oldCap: nat)
    requires IsPowerOfTwo(oldCap) && IsPowerOfTwo(|store|) && oldCap < |store|
    requires r < oldCap && w < oldCap
    ensures var c := RelocatedCursors(r, w, oldCap, |store|);
      View(Relocate(store, r, w, oldCap), c.0, c.1) == View(store[..oldCap], r, w)
  {
    var newCap := |store|;
    PowerOfTwoOrder(oldCap, newCap);
    var c := RelocatedCursors(r, w, oldCap, newCap);
    var moved := Relocate(store, r, w, oldCap);
    var n := Distance(r, w, oldCap);
    forall j | 0 <= j < n
      ensures moved[Slot(c.0, j, newCap)] == store[Slot(r, j, oldCap)]
    {
    }
  }

  /**
   * `handle_cap_increase` as the source writes it: the cursors move as in
   * `RelocatedCursors`, but `copy_nonoverlapping` copies nothing, so every
   * slot of the grown store keeps what it held.
   */
  function RelocateAsWritten<T>(store: seq<T>, r: nat, w: nat, oldCap: nat): (grown: seq<T>)
    requires IsPowerOfTwo(oldCap) && IsPowerOfTwo(|store|) && oldCap < |store|
    requires r < oldCap && w < oldCap
    ensures |grown| == |store|
    ensures grown[oldCap..] == store[oldCap..]
  {
    store
  }

  /**
   * The relocation as written loses values: with slots 0..7 holding 10..17,
   * the fresh slots 0, and the region wrapped at r = 5, w = 1, W moves to 9
   * but slot 8 was never filled, so the fourth value reads 0 instead of 10.
   */
  lemma AsWrittenLosesElement()
    ensures var store := [10, 11, 12, 13, 14, 15, 16, 17, 0, 0, 0, 0, 0, 0, 0, 0];
      var c := RelocatedCursors(5, 1, 8, |store|);
      View(RelocateAsWritten(store, 5, 1, 8), c.0, c.1) != View(store[..8], 5, 1)
  {
    var store := [10, 11, 12, 13, 14, 15, 16, 17, 0, 0, 0, 0, 0, 0, 0, 0];
    assert IsPowerOfTwo(8) && IsPowerOfTwo(|store|);
    var c := RelocatedCursors(5, 1, 8, |store|);
    assert c == (5, 9);
    assert View(RelocateAsWritten(store, 5, 1, 8), c.0, c.1)[3] == 0;
    assert View(store[..8], 5, 1)[3] == 10;
  }

  /**
   * The other wrapped case as written: with R = 7 and W = 5 the tail section
   * is the shorter one, R moves to slot 15 of the grown store, and that
   * never-written slot is read where the ring held 17.
   */
  lemma AsWrittenLosesTail()
    ensures var store := [10, 11, 12, 13, 14, 15, 16, 17, 0, 0, 0, 0, 0, 0, 0, 0];
      var c := RelocatedCursors(7, 5, 8, |store|);
      View(RelocateAsWritten(store, 7, 5, 8), c.0, c.1) != View(store[..8], 7, 5)
  {
    var store := [10, 11, 12, 13, 14, 15, 16, 17, 0, 0, 0, 0, 0, 0, 0, 0];
    assert IsPowerOfTwo(8) && IsPowerOfTwo(|store|);
    var c := RelocatedCursors(7, 5, 8, |store|);
    assert c == (15, 5);
    assert View(RelocateAsWritten(store, 7, 5, 8), c.0, c.1)[0] == 0;
    assert View(store[..8], 7, 5)[0] == 17;
  }
}
