/** The ring queue of sequential/queue.c: a first-in first-out sequence in an array
    that is read round the end and doubled when one slot is left. */
module Queue {
  import opened Trie

  // ------------------------------------------------------ the array as a value

  /** The elements from front up to back, round the end if back is before front. */
  function Slice<T>(d: seq<T>, front: nat, back: nat): (s: seq<T>)
    requires front < |d| && back < |d|
    ensures |s| == if front <= back then back - front else |d| - front + back
    ensures forall i :: 0 <= i < |s| ==> s[i] == if front + i < |d| then d[front + i] else d[front + i - |d|]
  {
    if front <= back then d[front..back] else d[front..] + d[..back]
  }

  function Next(i: nat, size: nat): nat
    requires i < size
  {
    if i + 1 == size then 0 else i + 1
  }

  lemma Appended<T>(d: seq<T>, front: nat, back: nat, x: T)
    requires front < |d| && back < |d| && |Slice(d, front, back)| < |d| - 1
    ensures Slice(d[back := x], front, Next(back, |d|)) == Slice(d, front, back) + [x]
  {
    hide Slice;
  }

  lemma Popped<T>(d: seq<T>, front: nat, back: nat)
    requires front < |d| && back < |d| && front != back
    ensures Slice(d, front, back) == [d[front]] + Slice(d, Next(front, |d|), back)
  {
    hide Slice;
  }

  /** memcpy() of s to the slots from at on. */
  function Overwritten<T>(t: seq<T>, at: nat, s: seq<T>): (r: seq<T>)
    requires at + |s| <= |t|
    ensures |r| == |t| && forall i :: 0 <= i < |t| ==> r[i] == if at <= i < at + |s| then s[i - at] else t[i]
  {
    t[..at] + s + t[at + |s|..]
  }

  /** The array that queue_expand() fills. */
  function Unrolled<T>(d: seq<T>, front: nat, back: nat, zeros: seq<T>): seq<T>
    requires front < |d| && back < |d| && |zeros| == 2 * |d|
  {
    var r := Overwritten(zeros, 0, d[front..]);
    if front > back then Overwritten(r, |d| - front, d[..back]) else r
  }

  /** In both layouts of a full ring the copies put its elements into a row. */
  lemma Unrolls<T>(d: seq<T>, front: nat, back: nat, zeros: seq<T>)
    requires front < |d| && back < |d| && |zeros| == 2 * |d| && |Slice(d, front, back)| == |d| - 1
    ensures |Unrolled(d, front, back, zeros)| == 2 * |d|
    ensures Slice(Unrolled(d, front, back, zeros), 0, |d| - 1) == Slice(d, front, back)
  {
    hide Slice, Overwritten;
    var r, s := Unrolled(d, front, back, zeros), Slice(d, front, back);
    forall i | 0 <= i < |d| - 1 ensures Slice(r, 0, |d| - 1)[i] == s[i] {
      assert r[i] == s[i];
    }
  }

  // ------------------------------------------------------------------ the code

  class Ring<T(0)> {
    var front: nat
    var back: nat
    var size: nat
    var data: array<T>

    ghost predicate Valid()
      reads this, data
    {
      size == data.Length && front < size && back < size
    }

    /** The queued elements, oldest first. */
    ghost function Contents(): (s: seq<T>)
      requires Valid()
      reads this, data
      ensures |s| < size
    {
      Slice(data[..], front, back)
    }

    /** queue_construct(), for a size of at least 1. */
    constructor (size: nat)
      requires size >= 1
      ensures Valid() && fresh(data) && Contents() == []
    {
      this.size, front, back := size, 0, 0;
      data := new T[size];
    }

    /** queue_empty(). */
    predicate Empty()
      requires Valid()
      reads this, data
      ensures Empty() <==> Contents() == []
    {
      back == front
    }

    /** queue_full(): in both layouts, one slot is left. */
    predicate Full()
      requires Valid()
      reads this, data
      ensures Full() <==> |Contents()| == size - 1
    {
      back + 1 == front || (back == size - 1 && front == 0)
    }

    /** queue_expand() takes every slot but one for queued: it keeps the contents
        exactly if the queue is full. */
    method Expand()
      requires Valid()
      modifies this
      ensures Valid() && fresh(data) && size == 2 * old(size)
      ensures Contents() == old(Contents()) <==> old(Full())
    {
      hide Slice, Overwritten, Unrolled;
      var newData := Copied();
      ghost var zeros: seq<T> :| |zeros| == 2 * size && newData[..] == Unrolled(data[..], front, back, zeros);
      if Full() { Unrolls(data[..], front, back, zeros); }
      front := 0;
      back := size - 1;
      size := 2 * size;
      data := newData;
    }

    method Copied() returns (newData: array<T>)
      requires Valid()
      ensures fresh(newData) && newData.Length == 2 * size
      ensures exists zeros: seq<T> :: |zeros| == 2 * size && newData[..] == Unrolled(data[..], front, back, zeros)
    {
      hide Slice, Overwritten;
      newData := new T[2 * size];
      ghost var zeros := newData[..];
      Copy(newData, 0, data, front, size - front);
      if front > back { Copy(newData, size - front, data, 0, back); }
      assert newData[..] == Unrolled(data[..], front, back, zeros);
    }

    /** memcpy(). */
    static method Copy(target: array<T>, at: nat, source: array<T>, from: nat, n: nat)
      requires at + n <= target.Length && from + n <= source.Length && target != source
      modifies target
      ensures target[..] == Overwritten(old(target[..]), at, source[from..from + n])
    {
      hide Overwritten;
      forall i | 0 <= i < n { target[at + i] := source[from + i]; }
    }

    /** queue_push(). */
    method Push(d: T)
      requires Valid()
      modifies this, data
      ensures Valid() && (data == old(data) || fresh(data))
      ensures Contents() == old(Contents()) + [d]
    {
      hide Slice;
      if Full() { Expand(); }
      Appended(data[..], front, back, d);
      ghost var s, b := data[..], back;
      data[back] := d;
      back := back + 1;
      if back == size { back := 0; }
      assert data[..] == s[b := d] && back == Next(b, size);
    }

    /** queue_front(). */
    method Front() returns (d: Option<T>)
      requires Valid()
      ensures d == if Contents() == [] then None else Some(Contents()[0])
    {
      d := if Empty() then None else Some(data[front]);
    }

    /** queue_pop(). */
    method Pop() returns (d: Option<T>)
      requires Valid()
      modifies this
      ensures Valid() && data == old(data)
      ensures d == if old(Contents()) == [] then None else Some(old(Contents())[0])
      ensures Contents() == if old(Contents()) == [] then [] else old(Contents())[1..]
    {
      hide Slice;
      if Empty() { return None; }
      Popped(data[..], front, back);
      d := Some(data[front]);
      front := front + 1;
      if front == size { front := 0; }
    }
  }
}
