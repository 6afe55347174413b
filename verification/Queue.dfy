/**
 The circular queue of lib/queue.c: an array with a front index, a rear index
 that starts at 65535 (the uint16_t of -1) and a count.
 */
module Queue {
  import opened Machine

  /** A FIFO of bounded size that drops what does not fit. */
  function Push<T>(s: seq<T>, cap: nat, x: T): seq<T> {
    if |s| < cap then s + [x] else s
  }

  /** A queue operation: queue_add of a value, or queue_remove. */
  datatype Op<T> = Add(x: T) | Remove

  /** What a list of operations leaves in a FIFO, and what its removals returned. */
  function RunFifo<T>(s: seq<T>, cap: nat, ops: seq<Op<T>>): (seq<T>, seq<Option<T>>)
    decreases |ops|
  {
    if ops == [] then (s, [])
    else match ops[|ops| - 1]
      case Add(x) =>
        var (t, out) := RunFifo(s, cap, ops[..|ops| - 1]);
        (Push(t, cap, x), out)
      case Remove =>
        var (t, out) := RunFifo(s, cap, ops[..|ops| - 1]);
        if t == [] then (t, out + [None]) else (t[1..], out + [Some(t[0])])
  }

  class Queue<T(0)> {
    const data: array<T>
    const size: u16
    var count: u16
    var rear: u16
    var front: u16

    ghost predicate Valid()
      reads this
    {
      && data.Length == size && count <= size
      && (front < size || (size == 0 && front == 0))
      && (if rear == 65535 then front == 0 && count == 0
          else rear < size && (rear + 1 == front + count || rear + 1 == front + count - size
                               || (rear + 1 == size && front + count == 0)))
    }

    /** The `count` values from `front` on, modulo the size. */
    ghost function Contents(): (s: seq<T>)
      reads this, data
      requires Valid()
      ensures |s| == count
    {
      if front + count <= size then data[front..front + count] else data[front..] + data[..front + count - size]
    }

    /** queue_init. */
    constructor (size: u16)
      ensures Valid() && fresh(data) && this.size == size && Contents() == []
    {
      this.size := size;
      data := new T[size];
      front, rear, count := 0, 65535, 0;
    }

    /** queue_add: a value that does not fit is dropped. */
    method QueueAdd(x: T)
      requires Valid()
      modifies this, data
      ensures Valid() && Contents() == Push(old(Contents()), size, x)
    {
      if count < size {
        if rear as int == size - 1 {
          rear := 65535;
        }
        rear := if rear == 65535 then 0 else rear + 1;
        data[rear] := x;
        count := count + 1;
      }
    }

    /** queue_remove; None for NULL. */
    method QueueRemove() returns (r: Option<T>)
      requires Valid()
      modifies this
      ensures Valid()
      ensures old(Contents()) == [] ==> r == None && Contents() == []
      ensures old(Contents()) != [] ==> r == Some(old(Contents())[0]) && Contents() == old(Contents())[1..]
    {
      if count == 0 {
        return None;
      }
      r := Some(data[front]);
      front := front + 1;
      if front == size {
        front := 0;
      }
      count := count - 1;
    }

    /** queue_peek; None for NULL. */
    method QueuePeek() returns (r: Option<T>)
      requires Valid()
      ensures r == if Contents() == [] then None else Some(Contents()[0])
    {
      if count == 0 {
        return None;
      }
      return Some(data[front]);
    }

    /** Any run of operations on the array does what the bounded FIFO does. */
    method Run(ops: seq<Op<T>>) returns (out: seq<Option<T>>)
      requires Valid()
      modifies this, data
      ensures Valid() && (Contents(), out) == RunFifo(old(Contents()), size, ops)
    {
      out := [];
      for i := 0 to |ops|
        invariant Valid() && (Contents(), out) == RunFifo(old(Contents()), size, ops[..i])
      {
        assert ops[..i + 1][..i] == ops[..i] && |ops[..i + 1]| == i + 1;
        match ops[i]
        case Add(x) => QueueAdd(x);
        case Remove =>
          var r := QueueRemove();
          out := out + [r];
      }
      assert ops[..|ops|] == ops;
    }
  }
}
