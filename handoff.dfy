/**
 * The hand-off between the receiving thread and the display loop:
 * a queue of capacity one, used so that a put on a full queue first throws
 * the held frame away. Holding an Option makes "never more than one frame" part
 * of the type.
 */
module Handoff {
  import opened Wrappers

  class Slot<T> {
    var item: Option<T>

    /** A queue of capacity one starts empty. */
    constructor ()
      ensures item == None
    {
      item := None;
    }

    /** Whether the queue holds a frame. */
    method Full() returns (full: bool)
      ensures full <==> item.Some?
    {
      full := item.Some?;
    }

    /**
     * A drop-oldest put: when the queue is full its frame is taken out and
     * thrown away, then the new frame is put in; the put never blocks.
     */
    method Put(frame: T)
      modifies this
      ensures item == Some(frame)
    {
      var full := Full();
      if full {
        item := None;
      }
      item := Some(frame);
    }

    /**
     * A non-blocking take, done only when the queue is not empty: an empty
     * slot yields nothing and stays empty; a full one yields its frame and
     * becomes empty.
     */
    method TryTake() returns (frame: Option<T>)
      modifies this
      ensures frame == old(item)
      ensures item == None
    {
      frame := item;
      if item.Some? {
        item := None;
      }
    }
  }

  /**
   * Drop-oldest: two puts with no take between them leave only the second
   * frame, the next take yields it, and the slot is then empty.
   */
  method DropOldest<T>(a: T, b: T) returns (first: Option<T>, second: Option<T>)
    ensures first == Some(b)
    ensures second == None
  {
    var slot := new Slot<T>();
    slot.Put(a);
    slot.Put(b);
    first := slot.TryTake();
    second := slot.TryTake();
  }

  /** The frames of a slot, as a sequence of at most one. */
  function Held<T>(item: Option<T>): (r: seq<T>)
    ensures |r| <= 1
  {
    if item.Some? then [item.value] else []
  }

  /** a is b with some elements left out, in the same order. */
  predicate IsSubsequence<T(==)>(a: seq<T>, b: seq<T>)
    decreases |b|
  {
    a == [] ||
    (b != [] &&
     ((a[|a| - 1] == b[|b| - 1] && IsSubsequence(a[..|a| - 1], b[..|b| - 1])) ||
      IsSubsequence(a, b[..|b| - 1])))
  }

  lemma SubsequenceExtend<T>(a: seq<T>, b: seq<T>, x: T)
    requires IsSubsequence(a, b)
    ensures IsSubsequence(a + [x], b + [x])
    ensures IsSubsequence(a, b + [x])
  {
    assert (a + [x])[..|a|] == a && (b + [x])[..|b|] == b;
  }

  /** Leaving out the last element keeps a subsequence a subsequence. */
  lemma {:induction false} SubsequenceDropLast<T>(a: seq<T>, x: T, b: seq<T>)
    requires IsSubsequence(a + [x], b)
    ensures IsSubsequence(a, b)
    decreases |b|
  {
    var ax := a + [x];
    assert ax[..|ax| - 1] == a;
    if a != [] {
      if ax[|ax| - 1] == b[|b| - 1] && IsSubsequence(a, b[..|b| - 1]) {
        SubsequenceExtend(a, b[..|b| - 1], b[|b| - 1]);
        assert b[..|b| - 1] + [b[|b| - 1]] == b;
      } else {
        SubsequenceDropLast(a, x, b[..|b| - 1]);
        SubsequenceExtend(a, b[..|b| - 1], b[|b| - 1]);
        assert b[..|b| - 1] + [b[|b| - 1]] == b;
      }
    }
  }
}
