/**
 The agent's fixed-capacity circular buffer: a write position, a read position and a
 size that move modulo the capacity.  The specification is the list of values pushed
 since construction or the last `Clear`; the buffer always shows its newest `Cap` ones.
 */
module RingBuffers {

  /** The newest `min(|s|, n)` elements of `s`, oldest first. */
  function LastN<T>(s: seq<T>, n: nat): seq<T> {
    if |s| <= n then s else s[|s| - n..]
  }

  /** They are as many as there are, up to `n`, and the last of `s`. */
  lemma LastNIs<T>(s: seq<T>, n: nat)
    ensures |LastN(s, n)| == if |s| <= n then |s| else n
    ensures LastN(s, n) == s[|s| - |LastN(s, n)|..]
  {
  }

  /** A window of a window is the smaller window: what one push does to the newest `n`. */
  lemma {:induction false} LastNAppend<T>(s: seq<T>, n: nat, x: T)
    requires n > 0
    ensures LastN(s + [x], n) == LastN(LastN(s, n) + [x], n)
  {
    LastNIs(s, n);
    LastNIs(s + [x], n);
    LastNIs(LastN(s, n) + [x], n);
    hide LastN;
    var window := LastN(s, n);
    var a, b := LastN(s + [x], n), LastN(window + [x], n);
    assert |a| == |b|;
    forall i | 0 <= i < |a|
      ensures a[i] == b[i]
    {
      assert a[i] == (s + [x])[|s| + 1 - |a| + i];
      assert b[i] == (window + [x])[|window| + 1 - |a| + i];
    }
  }

  /** One turn round a circle of `cap` slots, without division. */
  function Wrap(x: nat, cap: nat): nat
    requires x < 2 * cap
  {
    if x < cap then x else x - cap
  }

  lemma WrapIsMod(x: nat, cap: nat)
    requires x < 2 * cap
    ensures x % cap == Wrap(x, cap)
  {
  }

  /** The slots read from `tail` on hold the window `w`. */
  ghost predicate Shows<T>(slots: seq<T>, tail: nat, w: seq<T>)
    requires tail < |slots| && |w| <= |slots|
  {
    forall i :: 0 <= i < |w| ==> slots[Wrap(tail + i, |slots|)] == w[i]
  }

  /** Writing at the head appends to the window, and drops its first value if it was full. */
  lemma WriteAtHead<T>(slots: seq<T>, tail: nat, w: seq<T>, value: T)
    requires tail < |slots| && |w| <= |slots| && Shows(slots, tail, w)
    ensures var after := slots[Wrap(tail + |w|, |slots|) := value];
            if |w| < |slots| then Shows(after, tail, w + [value])
            else Shows(after, Wrap(tail + 1, |slots|), (w + [value])[1..])
  {
  }

  class RingBuffer<T(0)> {
    const Cap: nat
    var storage: array<T>
    var head: nat
    var tail: nat
    var size: nat
    // Everything pushed since construction or the last Clear.
    ghost var pushed: seq<T>

    ghost predicate Valid()
      reads this, storage
    {
      && 0 < Cap == storage.Length
      && tail < Cap && size <= Cap
      && head == Wrap(tail + size, Cap)
      && size == |LastN(pushed, Cap)|
      && Shows(storage[..], tail, LastN(pushed, Cap))
    }

    constructor (cap: nat)
      requires 0 < cap
      ensures Valid() && fresh(storage)
      ensures Cap == cap && pushed == []
    {
      Cap := cap;
      storage := new T[cap];
      head, tail, size := 0, 0, 0;
      pushed := [];
    }

    /** Overwrites the oldest element when the buffer is full. */
    method Push(value: T)
      requires Valid()
      modifies this, storage
      ensures Valid() && storage == old(storage)
      ensures pushed == old(pushed) + [value]
    {
      WriteAtHead(storage[..], tail, LastN(pushed, Cap), value);
      LastNAppend(pushed, Cap, value);
      ghost var after := storage[..][head := value];
      storage[head] := value;
      assert storage[..] == after;
      WrapIsMod(head + 1, Cap);
      head := (head + 1) % Cap;
      if size < Cap {
        size := size + 1;
      } else {
        WrapIsMod(tail + 1, Cap);
        tail := (tail + 1) % Cap;
      }
      pushed := pushed + [value];
    }

    method Clear()
      requires Valid()
      modifies this
      ensures Valid() && storage == old(storage)
      ensures pushed == []
    {
      head, tail, size := 0, 0, 0;
      pushed := [];
    }

    /** The newest `Cap` values pushed since the last Clear, oldest first. */
    method Snapshot() returns (out: seq<T>)
      requires Valid()
      ensures out == LastN(pushed, Cap)
    {
      out := [];
      for i := 0 to size
        invariant out == LastN(pushed, Cap)[..i]
      {
        WrapIsMod(tail + i, Cap);
        assert storage[..][Wrap(tail + i, Cap)] == LastN(pushed, Cap)[i];
        out := out + [storage[(tail + i) % Cap]];
      }
    }

    /** The three indices are tied together modulo the capacity. */
    lemma HeadFollowsTail()
      requires Valid()
      ensures head == (tail + size) % Cap
    {
      WrapIsMod(tail + size, Cap);
    }
  }
}
