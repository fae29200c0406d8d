/** The ring buffer: a wrap-around array with growth and rotation, kept equal to
    a plain sequence. */
module CircularQueues {
  import opened Collections

  /** Slot of logical index i. */
  function Slot(head: nat, i: nat, capacity: nat): (k: nat)
    requires head < capacity && i <= capacity
    ensures k < capacity
  {
    if head + i < capacity then head + i else head + i - capacity
  }

  /** What slot k holds when the values lie head first from slot `head` on. */
  function Held<T>(values: seq<T>, head: nat, capacity: nat, k: nat): Option<T>
    requires head < capacity && k < capacity
  {
    var i := if k < head then k + capacity - head else k - head;
    if i < |values| then Some(values[i]) else None
  }

  lemma WrapIsSlot(head: nat, i: nat, capacity: nat)
    requires head < capacity && i <= capacity
    ensures (head + i) % capacity == Slot(head, i, capacity)
  {
    var x := head + i;
    if x < capacity {
      Remainder(x, capacity, 0);
    } else {
      Remainder(x, capacity, 1);
    }
  }

  lemma Remainder(x: nat, c: nat, q: nat)
    requires c > 0 && (q == 0 || q == 1) && 0 <= x - q * c < c
    ensures x % c == x - q * c
  {
  }

  /** One more value changes only the slot after the last. */
  lemma HeldAppended<T>(values: seq<T>, value: T, head: nat, capacity: nat)
    requires head < capacity && |values| < capacity
    ensures forall k: nat :: k < capacity ==>
      Held(values + [value], head, capacity, k)
      == (if k == Slot(head, |values|, capacity) then Some(value) else Held(values, head, capacity, k))
  {
  }

  lemma SlotAfter(head: nat, i: nat, capacity: nat)
    requires head < capacity && i < capacity
    ensures (Slot(head, i, capacity) + 1) % capacity == Slot(head, i + 1, capacity)
  {
  }

  const INITIAL_CAPACITY: nat := 16

  class CircularQueue<T> {
    var buffer: array<Option<T>>
    var capacity: nat
    var size: nat
    var head: nat
    var tail: nat
    const fixed: bool
    /** The queued values, head first. */
    ghost var contents: seq<T>

    ghost predicate Valid()
      reads this, buffer
    {
      && 0 < capacity == buffer.Length
      && head < capacity && size == |contents| <= capacity
      && tail == Slot(head, size, capacity)
      && (forall k :: 0 <= k < capacity ==> buffer[k] == Held(contents, head, capacity, k))
    }

    constructor (cap: int)
      ensures Valid() && contents == [] && fresh(buffer)
      ensures fixed == (cap > 0) && capacity == if cap > 0 then cap else 16
    {
      fixed := cap > 0;
      var c: nat := if cap > 0 then cap else INITIAL_CAPACITY;
      capacity, size, head, tail := c, 0, 0, 0;
      buffer := new Option<T>[c](_ => None);
      contents := [];
    }

    /** Append at the tail; refused only by a full queue of fixed capacity. */
    method Enqueue(value: T) returns (ok: bool)
      requires Valid()
      modifies this, buffer
      ensures Valid() && ok == !(fixed && old(size) == old(capacity))
      ensures contents == if ok then old(contents) + [value] else old(contents)
      ensures old(size) < old(capacity) || !ok ==> buffer == old(buffer) && capacity == old(capacity)
      ensures old(size) == old(capacity) && ok ==> fresh(buffer) && capacity == 2 * old(capacity)
    {
      hide Held, Slot;
      if size == capacity {
        if fixed {
          return false;
        }
        Resize();
      }
      HeldAppended(contents, value, head, capacity);
      SlotAfter(head, size, capacity);
      buffer[tail] := Some(value);
      tail := (tail + 1) % capacity;
      size := size + 1;
      contents := contents + [value];
      ok := true;
    }

    /** Move the queue into a buffer of twice the capacity. */
    method Resize()
      requires Valid() && size == capacity
      modifies this, buffer
      ensures Valid() && contents == old(contents) && size == old(size)
      ensures fresh(buffer) && capacity == 2 * old(capacity)
    {
      var newCap := capacity * 2;
      var newBuf := new Option<T>[newCap](_ => None);
      for i := 0 to size
        invariant Valid() && unchanged(this) && fresh(newBuf)
        invariant forall k :: 0 <= k < newCap ==> newBuf[k] == Held(contents[..i], 0, newCap, k)
      {
        WrapIsSlot(head, i, capacity);
        newBuf[i] := buffer[(head + i) % capacity];
      }
      buffer := newBuf;
      head := 0;
      tail := size;
      capacity := newCap;
    }

    /** Remove and return the head; nothing from an empty queue. */
    method Dequeue() returns (r: Option<T>)
      requires Valid()
      modifies this, buffer
      ensures Valid() && buffer == old(buffer) && capacity == old(capacity)
      ensures r == if old(contents) == [] then None else Some(old(contents)[0])
      ensures contents == if old(contents) == [] then [] else old(contents)[1..]
    {
      if size == 0 {
        return None;
      }
      r := buffer[head];
      buffer[head] := None;
      WrapIsSlot(head, 1, capacity);
      head := (head + 1) % capacity;
      size := size - 1;
      contents := contents[1..];
    }

    /** The head without removing it. */
    method Peek() returns (r: Option<T>)
      requires Valid()
      ensures r == if contents == [] then None else Some(contents[0])
    {
      r := buffer[head];
    }

    /** Move the head to the tail; returns the new head.  Never grows or fails. */
    method Rotate() returns (r: Option<T>)
      requires Valid()
      modifies this, buffer
      ensures Valid() && buffer == old(buffer) && capacity == old(capacity)
      ensures contents == Rotated(old(contents), 1)
      ensures r == if contents == [] then None else Some(contents[0])
    {
      if size <= 1 {
        r := Peek();
        return;
      }
      var value := Dequeue();
      var ok := Enqueue(value.value);
      r := Peek();
    }

    /** Remove and return the most recently enqueued value. */
    method DequeueTail() returns (r: Option<T>)
      requires Valid()
      modifies this, buffer
      ensures Valid() && buffer == old(buffer) && capacity == old(capacity)
      ensures r == if old(contents) == [] then None else Some(old(contents)[|old(contents)| - 1])
      ensures contents == if old(contents) == [] then [] else old(contents)[..|old(contents)| - 1]
    {
      if size == 0 {
        return None;
      }
      TailBack(head, size, capacity);
      tail := (tail - 1 + capacity) % capacity;
      r := buffer[tail];
      buffer[tail] := None;
      size := size - 1;
      contents := contents[..size];
    }

    method Clear()
      requires Valid()
      modifies this, buffer
      ensures Valid() && contents == [] && buffer == old(buffer) && capacity == old(capacity)
    {
      for k := 0 to buffer.Length
        invariant unchanged(this) && k <= buffer.Length
        invariant forall j :: 0 <= j < k ==> buffer[j] == None
      {
        buffer[k] := None;
      }
      head, tail, size, contents := 0, 0, 0, [];
    }

    /** Logical index from the head, or from the tail when negative. */
    method At(index: int) returns (r: Option<T>)
      requires Valid()
      ensures
        var i := if index < 0 then |contents| + index else index;
        r == if 0 <= i < |contents| then Some(contents[i]) else None
    {
      var i := if index < 0 then size + index else index;
      if i < 0 || i >= size {
        return None;
      }
      WrapIsSlot(head, i, capacity);
      r := buffer[(head + i) % capacity];
    }

    method ToArray() returns (values: seq<T>)
      requires Valid()
      ensures values == contents
    {
      values := [];
      for i := 0 to size
        invariant values == contents[..i]
      {
        WrapIsSlot(head, i, capacity);
        values := values + [buffer[(head + i) % capacity].value];
      }
    }
  }

  lemma TailBack(head: nat, size: nat, capacity: nat)
    requires head < capacity && 0 < size <= capacity
    ensures (Slot(head, size, capacity) - 1 + capacity) % capacity == Slot(head, size - 1, capacity)
  {
    var t := Slot(head, size, capacity);
    if t == 0 {
      Remainder(capacity - 1, capacity, 0);
    } else {
      Remainder(t - 1 + capacity, capacity, 1);
    }
  }

  // ----- rotation of plain sequences

  /** The sequence after k rotations. */
  function Rotated<T>(s: seq<T>, k: nat): seq<T>
    decreases k
  {
    if k == 0 || s == [] then s else Rotated(s[1..] + [s[0]], k - 1)
  }

  lemma {:induction false} RotatedIs<T>(s: seq<T>, k: nat)
    requires k <= |s|
    ensures Rotated(s, k) == s[k..] + s[..k]
    decreases k
  {
    if k > 0 {
      var t := s[1..] + [s[0]];
      RotatedIs(t, k - 1);
      assert t[k - 1..] == s[k..] + [s[0]];
      assert t[..k - 1] == s[1..k];
      assert [s[0]] + s[1..k] == s[..k];
    }
  }

  /** A full round restores the order, and every position is current once. */
  lemma FullRound<T>(s: seq<T>)
    ensures Rotated(s, |s|) == s
    ensures forall k :: 0 <= k < |s| ==> |Rotated(s, k)| == |s| && Rotated(s, k)[0] == s[k]
  {
    RotatedIs(s, |s|);
    forall k | 0 <= k < |s|
      ensures |Rotated(s, k)| == |s| && Rotated(s, k)[0] == s[k]
    {
      RotatedIs(s, k);
    }
  }
}
