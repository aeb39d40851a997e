/** The fixed-capacity circular buffer `queue` of producer_consumer.cpp.
    Ten `int` slots, a read index `head`, a write index `tail` and the
    redundant pair of flags `full` and `empty`. The buffer is shown to
    refine a bounded FIFO sequence: the ghost field `contents`. */
module Fifo {

  /** `queuesize`: the number of slots. */
  const QueueSize: nat := 10

  /** The index after `i`, written the way the source advances `head` and
      `tail`: increment, then reset to 0 on reaching `QueueSize`. */
  function Next(i: int): (j: int)
    requires 0 <= i < QueueSize
    ensures 0 <= j < QueueSize
    ensures j == (i + 1) % QueueSize
  {
    if i + 1 == QueueSize then 0 else i + 1
  }

  /** The number of occupied slots that the indices and the `full` flag
      encode: the distance from `head` to `tail` modulo `QueueSize`, except
      that equal indices with `full` set mean every slot is occupied. */
  function StoredCount(head: int, tail: int, full: bool): (n: nat)
    ensures n <= QueueSize
    ensures n == QueueSize <==> full
    ensures !full && head == tail ==> n == 0
  {
    if full then QueueSize else (tail - head) % QueueSize
  }

  /** The representation invariant over the four scalar fields, for a queue
      holding `n` items: both indices are slot indices, the count they encode
      is `n`, `full` only ever holds with the two indices equal, and
      `empty` is set exactly when nothing is stored. */
  predicate Consistent(head: int, tail: int, full: bool, empty: bool, n: nat)
  {
    0 <= head < QueueSize && 0 <= tail < QueueSize &&
    (full ==> head == tail) &&
    n == StoredCount(head, tail, full) &&
    (empty <==> n == 0)
  }

  /** The items in ring order: the `n` slots met walking forward from
      `head`, wrapping around the end of the buffer. */
  ghost function Window(buf: seq<int>, head: int, n: nat): seq<int>
    requires |buf| == QueueSize && 0 <= head < QueueSize && n <= QueueSize
    decreases n
  {
    if n == 0 then [] else [buf[head]] + Window(buf, Next(head), n - 1)
  }

  /** The flags never contradict each other, and either one forces the two
      indices to coincide. */
  lemma ConsistentFlags(head: int, tail: int, full: bool, empty: bool, n: nat)
    requires Consistent(head, tail, full, empty, n)
    ensures !(full && empty)
    ensures full || empty ==> head == tail
    ensures full <==> n == QueueSize
    ensures n <= QueueSize
  {
  }

  /** The invariant pins the representation down completely: for a given
      `head` and count `n`, the only consistent state has `tail` at
      `head + n` modulo `QueueSize`, `full` iff `n` is the capacity and
      `empty` iff `n` is zero. */
  lemma ConsistentIff(head: int, tail: int, full: bool, empty: bool, n: nat)
    ensures Consistent(head, tail, full, empty, n) <==>
            0 <= head < QueueSize && n <= QueueSize &&
            tail == (head + n) % QueueSize &&
            (full <==> n == QueueSize) && (empty <==> n == 0)
  {
  }

  /** `add` under its guard `!full`: writing at `tail`, advancing it, setting
      `full` when it catches up with `head` and clearing `empty` keeps the
      invariant and stores one more item. */
  lemma AddKeepsConsistent(head: int, tail: int, full: bool, empty: bool, n: nat)
    requires Consistent(head, tail, full, empty, n) && !full
    ensures Consistent(head, Next(tail), if Next(tail) == head then true else full, false, n + 1)
  {
  }

  /** `del` under its guard `!empty`: advancing `head`, setting `empty` when
      it catches up with `tail` and clearing `full` keeps the invariant and
      stores one item fewer. */
  lemma DelKeepsConsistent(head: int, tail: int, full: bool, empty: bool, n: nat)
    requires Consistent(head, tail, full, empty, n) && !empty
    ensures n > 0
    ensures Consistent(Next(head), tail, false, if Next(head) == tail then true else empty, n - 1)
  {
  }

  /** The `i`-th item of a window lies in slot `head + i` modulo
      `QueueSize`. */
  lemma {:induction false} WindowAt(buf: seq<int>, head: int, n: nat, i: nat)
    requires |buf| == QueueSize && 0 <= head < QueueSize && n <= QueueSize && i < n
    ensures |Window(buf, head, n)| == n
    ensures Window(buf, head, n)[i] == buf[(head + i) % QueueSize]
    decreases n
  {
    if i == 0 {
      if n > 1 { WindowAt(buf, Next(head), n - 1, 0); }
    } else {
      WindowAt(buf, Next(head), n - 1, i - 1);
      assert (Next(head) + (i - 1)) % QueueSize == (head + i) % QueueSize;
    }
  }

  /** The slot `n` places after `head` is, seen from `Next(head)`, `n - 1`
      places on, and for `0 < n < QueueSize` it is not `head` itself. */
  lemma AdvanceSlot(head: int, n: nat, t: int)
    requires 0 <= head < QueueSize && 0 < n < QueueSize && t == (head + n) % QueueSize
    ensures t == (Next(head) + (n - 1)) % QueueSize
    ensures t != head
  {
    if head + n < QueueSize {
      assert t == head + n;
    } else {
      assert t == head + n - QueueSize;
    }
  }

  /** Writing an item into slot `t`, the first free slot after a window of
      `n` items, appends it to the window and leaves the items already there
      alone. */
  lemma {:induction false} WindowAppend(buf: seq<int>, head: int, n: nat, t: int, x: int)
    requires |buf| == QueueSize && 0 <= head < QueueSize && n < QueueSize
    requires t == (head + n) % QueueSize
    ensures Window(buf[t := x], head, n + 1) == Window(buf, head, n) + [x]
    decreases n
  {
    var b := buf[t := x];
    if n == 0 {
      assert t == head;
      assert Window(b, head, 1) == [b[head]] + Window(b, Next(head), 0);
    } else {
      AdvanceSlot(head, n, t);
      WindowAppend(buf, Next(head), n - 1, t, x);
      calc {
        Window(b, head, n + 1);
        [b[head]] + Window(b, Next(head), n);
        [buf[head]] + (Window(buf, Next(head), n - 1) + [x]);
        ([buf[head]] + Window(buf, Next(head), n - 1)) + [x];
        Window(buf, head, n) + [x];
      }
    }
  }

  /** The source's `struct queue`. `contents` is the abstract value: the
      items stored, oldest first. The lock and the two condition variables
      are not part of the model. */
  class Queue {
    var head: int
    var tail: int
    var full: bool
    var empty: bool
    const buf: array<int>
    ghost var contents: seq<int>

    ghost predicate Valid()
      reads this, buf
    {
      buf.Length == QueueSize &&
      Consistent(head, tail, full, empty, |contents|) &&
      contents == Window(buf[..], head, |contents|)
    }

    /** The default member initialisers: both indices 0, `empty` set,
        `full` clear, every slot zero. */
    constructor ()
      ensures Valid() && fresh(buf)
      ensures contents == []
      ensures head == 0 && tail == 0 && !full && empty
      ensures buf[..] == seq(QueueSize, _ => 0)
    {
      head, tail := 0, 0;
      full, empty := false, true;
      buf := new int[QueueSize](_ => 0);
      contents := [];
    }

    /** `add`: store `x` at `tail`, advance `tail`, set `full` if it met
        `head`, clear `empty`. The caller's wait loop guarantees `!full`. */
    method Add(x: int)
      requires Valid() && !full
      modifies this`tail, this`full, this`empty, this`contents, buf
      ensures Valid()
      ensures contents == old(contents) + [x]
      ensures head == old(head) && tail == (old(tail) + 1) % QueueSize
      ensures buf[..] == old(buf[..])[old(tail) := x]
      ensures !empty && (full <==> tail == head)
    {
      ghost var n := |contents|;
      ghost var slots := buf[..];
      ConsistentIff(head, tail, full, empty, n);
      WindowAppend(slots, head, n, tail, x);
      AddKeepsConsistent(head, tail, full, empty, n);
      buf[tail] := x;
      assert buf[..] == slots[tail := x];
      tail := tail + 1;
      if tail == QueueSize { tail := 0; }
      if tail == head { full := true; }
      empty := false;
      contents := contents + [x];
    }

    /** `del`: read the slot at `head`, advance `head`, set `empty` if it
        met `tail`, clear `full`. The caller's wait loop guarantees
        `!empty`. */
    method Del() returns (x: int)
      requires Valid() && !empty
      modifies this`head, this`full, this`empty, this`contents
      ensures Valid()
      ensures old(contents) != [] && x == old(contents)[0]
      ensures contents == old(contents)[1..]
      ensures x == buf[old(head)] && buf[..] == old(buf[..])
      ensures tail == old(tail) && head == (old(head) + 1) % QueueSize
      ensures !full && (empty <==> head == tail)
    {
      ghost var n := |contents|;
      DelKeepsConsistent(head, tail, full, empty, n);
      var oldHead := head;
      head := head + 1;
      if head == QueueSize { head := 0; }
      if head == tail { empty := true; }
      full := false;
      contents := contents[1..];
      x := buf[oldHead];
    }
  }
}
