/**
 * The flow-controlled in-memory byte stream (libsponge/byte_stream.cc): a
 * ring of capacity + 1 slots in which `head` is the slot of the oldest
 * buffered byte and `tail` the slot of the newest, with monotone counters of
 * bytes written and read, an end-of-input flag and an error flag.
 */
module ByteStreams {

  function Min(a: int, b: int): int {
    if a <= b then a else b
  }

  /** x % m for the small quotients the ring index arithmetic produces. */
  lemma ModSmall(x: int, m: int)
    requires 0 < m && 0 <= x < 3 * m
    ensures x % m == if x < m then x else if x < 2 * m then x - m else x - 2 * m
  {
  }

  /** The ring slot, among capacity + 1, of the k-th buffered byte when the
      oldest sits at `head` (k = -1 is the slot just before the head). */
  function RingSlot(head: nat, capacity: nat, k: int): int {
    var p := head + k;
    if p < 0 then p + capacity + 1 else if p > capacity then p - (capacity + 1) else p
  }

  /** The source's `(head + k) % (capacity + 1)` is the ring slot of position k. */
  lemma RingSlotMod(head: nat, capacity: nat, k: int)
    requires head <= capacity && 0 <= k <= capacity
    ensures RingSlot(head, capacity, k) == (head + k) % (capacity + 1)
  {
    ModSmall(head + k, capacity + 1);
  }

  /** Positions 0..n of the ring occupy n + 1 distinct slots. */
  lemma SlotsDistinct(head: nat, capacity: nat, n: nat)
    requires head <= capacity && n <= capacity
    ensures forall k :: 0 <= k < n ==> RingSlot(head, capacity, k) != RingSlot(head, capacity, n)
  {
  }

  lemma DropAppend<T>(a: seq<T>, b: seq<T>, k: nat)
    requires k <= |a|
    ensures (a + b)[k..] == a[k..] + b
  {
  }

  /** Ring b holds the bytes c, the first at slot `head`. */
  ghost predicate RingView(b: array<char>, head: nat, capacity: nat, c: seq<char>)
    reads b
  {
    b.Length == capacity + 1 && head <= capacity && |c| <= capacity &&
    forall k :: 0 <= k < |c| ==> b[RingSlot(head, capacity, k)] == c[k]
  }

  /** Moving the head n slots on renumbers the positions of the ring. */
  lemma RingShift(head: nat, capacity: nat, n: nat, h1: nat, k: int)
    requires head <= capacity && n <= capacity && -1 <= k && n + k <= capacity
    requires h1 == RingSlot(head, capacity, n)
    ensures RingSlot(h1, capacity, k) == RingSlot(head, capacity, n + k)
  {
  }

  /** Dropping the first n bytes and moving the head n slots on leaves a
      ring view of the rest. */
  lemma RingDrop(b: array<char>, head: nat, capacity: nat, c: seq<char>, n: nat, h1: nat)
    requires RingView(b, head, capacity, c) && n <= |c| && h1 == RingSlot(head, capacity, n)
    ensures RingView(b, h1, capacity, c[n..])
  {
    forall k | 0 <= k < |c| - n
      ensures b[RingSlot(h1, capacity, k)] == c[n..][k]
    {
      RingShift(head, capacity, n, h1, k);
    }
  }

  lemma DropDrop<T>(a: seq<T>, k: nat, n: nat)
    requires k + n <= |a|
    ensures a[k + n..] == a[k..][n..]
  {
  }

  /** Storing the bytes of `more` after the bytes c0 extends the ring view
      of c0 to that of c0 + more. */
  lemma RingExtend(b: array<char>, head: nat, capacity: nat, c0: seq<char>, more: seq<char>)
    requires head <= capacity && b.Length == capacity + 1 && |c0| + |more| <= capacity
    requires forall k :: 0 <= k < |c0| ==> b[RingSlot(head, capacity, k)] == c0[k]
    requires forall k :: 0 <= k < |more| ==> b[RingSlot(head, capacity, |c0| + k)] == more[k]
    ensures forall k :: 0 <= k < |c0| + |more| ==> b[RingSlot(head, capacity, k)] == (c0 + more)[k]
  {
    forall k | 0 <= k < |c0| + |more|
      ensures b[RingSlot(head, capacity, k)] == (c0 + more)[k]
    {
      if k >= |c0| {
        assert b[RingSlot(head, capacity, |c0| + (k - |c0|))] == more[k - |c0|];
      }
    }
  }

  /** The copy loop of write(): stores `more` in the |more| slots of ring b
      after `tail`, the slot of the last of the bytes c0 the ring holds from
      `head` on, and returns the slot of the last byte stored. */
  method CopyIntoRing(b: array<char>, head: nat, capacity: nat, tail: nat, more: seq<char>, ghost c0: seq<char>)
    returns (t: nat)
    requires b.Length == capacity + 1 && head <= capacity && tail <= capacity
    requires |c0| + |more| <= capacity && tail == RingSlot(head, capacity, |c0| - 1)
    requires forall k :: 0 <= k < |c0| ==> b[RingSlot(head, capacity, k)] == c0[k]
    modifies b
    ensures t <= capacity && t == RingSlot(head, capacity, |c0| + |more| - 1)
    ensures forall k :: 0 <= k < |c0| ==> b[RingSlot(head, capacity, k)] == c0[k]
    ensures forall k :: 0 <= k < |more| ==> b[RingSlot(head, capacity, |c0| + k)] == more[k]
  {
    t := tail;
    var i := 0;
    while i < |more|
      invariant 0 <= i <= |more|
      invariant t <= capacity && t == RingSlot(head, capacity, |c0| + i - 1)
      invariant forall k :: 0 <= k < |c0| ==> b[RingSlot(head, capacity, k)] == c0[k]
      invariant forall k :: 0 <= k < i ==> b[RingSlot(head, capacity, |c0| + k)] == more[k]
    {
      ModSmall(t + 1, capacity + 1);
      SlotsDistinct(head, capacity, |c0| + i);
      t := (t + 1) % (capacity + 1);
      b[t] := more[i];
      i := i + 1;
    }
  }

  /** write()'s copy into the ring: afterwards the ring holds c0 + more from
      `head` on, and the returned slot is that of its last byte. */
  method StoreRing(b: array<char>, head: nat, capacity: nat, tail: nat, more: seq<char>, ghost c0: seq<char>)
    returns (t: nat)
    requires RingView(b, head, capacity, c0) && tail <= capacity
    requires |c0| + |more| <= capacity && tail == RingSlot(head, capacity, |c0| - 1)
    modifies b
    ensures t <= capacity && t == RingSlot(head, capacity, |c0| + |more| - 1)
    ensures RingView(b, head, capacity, c0 + more)
  {
    t := CopyIntoRing(b, head, capacity, tail, more, c0);
    RingExtend(b, head, capacity, c0, more);
  }

  /** The model of ByteStream: `Buffered` is the ghost view of the ring, the
      bytes written and not yet read, and `History` every byte ever written. */
  class ByteStream {
    const capacity: nat
    const buffer: array<char>
    var head: nat
    var tail: nat
    var writtenCnt: nat
    var readCnt: nat
    var inputEnded: bool
    var errorFlag: bool
    /** Every byte the stream has ever accepted, in order. */
    ghost var History: seq<char>
    /** The bytes currently buffered, oldest first. */
    ghost var Buffered: seq<char>
    ghost const Repr: set<object>

    ghost predicate Valid()
      reads this, Repr
      ensures Valid() ==> this in Repr
    {
      && Repr == {this, buffer}
      && buffer.Length == capacity + 1
      && head <= capacity && tail <= capacity
      && |History| == writtenCnt && readCnt <= writtenCnt
      && Buffered == History[readCnt..]
      && tail == RingSlot(head, capacity, |Buffered| - 1)
      && RingView(buffer, head, capacity, Buffered)
    }

    constructor (capacity: nat)
      ensures Valid() && fresh(Repr)
      ensures this.capacity == capacity
      ensures History == [] && Buffered == [] && readCnt == 0 && !inputEnded && !errorFlag
    {
      this.capacity := capacity;
      buffer := new char[capacity + 1];
      head, tail := 0, capacity;
      writtenCnt, readCnt := 0, 0;
      inputEnded, errorFlag := false, false;
      History, Buffered := [], [];
      Repr := {this, buffer};
    }

    /** buffer_size(): the number of buffered bytes, recovered from head and tail
        (the source's unsigned wrap-around in `_tail - _head` cancels out). */
    function BufferSize(): (r: nat)
      reads Repr
      requires Valid()
      ensures r == |Buffered| && r <= capacity
    {
      ModSmall(tail - head + 1 + capacity + 1, capacity + 1);
      (tail - head + 1 + capacity + 1) % (capacity + 1)
    }

    /** remaining_capacity(): how many more bytes `Write` would accept. */
    function RemainingCapacity(): (r: nat)
      reads Repr
      requires Valid()
      ensures r == capacity - |Buffered|
    {
      capacity - BufferSize()
    }

    function BufferEmpty(): (r: bool)
      reads Repr
      requires Valid()
      ensures r <==> Buffered == []
    {
      BufferSize() == 0
    }

    /** eof(): input has ended and every byte has been read. */
    function Eof(): (r: bool)
      reads Repr
      requires Valid()
      ensures r <==> inputEnded && Buffered == []
    {
      inputEnded && BufferEmpty()
    }

    function BytesWritten(): (r: nat)
      reads Repr
      requires Valid()
      ensures r == |History|
    {
      writtenCnt
    }

    function BytesRead(): (r: nat)
      reads Repr
      requires Valid()
      ensures r == |History| - |Buffered|
    {
      readCnt
    }

    /** write(data): appends as many bytes of data as fit and returns their count. */
    method Write(data: seq<char>) returns (ret: nat)
      requires Valid()
      modifies Repr
      ensures Valid()
      ensures ret == Min(|data|, capacity - |old(Buffered)|)
      ensures History == old(History) + data[..ret]
      ensures Buffered == old(Buffered) + data[..ret]
      ensures writtenCnt == old(writtenCnt) + ret
      ensures head == old(head) && readCnt == old(readCnt)
      ensures inputEnded == old(inputEnded) && errorFlag == old(errorFlag)
    {
      ret := Min(|data|, RemainingCapacity());
      var more := data[..ret];
      var t := StoreRing(buffer, head, capacity, tail, more, Buffered);
      DropAppend(History, more, readCnt);
      tail, writtenCnt := t, writtenCnt + ret;
      History, Buffered := History + more, Buffered + more;
    }

    /** peek_output(len): a copy of the first min(len, buffer_size()) buffered bytes. */
    method PeekOutput(len: nat) returns (r: seq<char>)
      requires Valid()
      ensures r == Buffered[..Min(len, |Buffered|)]
    {
      var n := Min(len, BufferSize());
      r := [];
      var i := 0;
      while i < n
        invariant 0 <= i <= n
        invariant r == Buffered[..i]
      {
        RingSlotMod(head, capacity, i);
        r := r + [buffer[(head + i) % (capacity + 1)]];
        i := i + 1;
      }
    }

    /** pop_output(len): discards the first min(len, buffer_size()) buffered bytes. */
    method PopOutput(len: nat)
      requires Valid()
      modifies this
      ensures Valid()
      ensures readCnt == old(readCnt) + Min(len, |old(Buffered)|)
      ensures Buffered == old(Buffered)[Min(len, |old(Buffered)|)..]
      ensures History == old(History) && writtenCnt == old(writtenCnt) && tail == old(tail)
      ensures inputEnded == old(inputEnded) && errorFlag == old(errorFlag)
    {
      var n := Min(len, BufferSize());
      ghost var h0, b0 := head, Buffered;
      RingSlotMod(h0, capacity, n);
      DropDrop(History, readCnt, n);
      head := (head + n) % (capacity + 1);
      readCnt := readCnt + n;
      Buffered := Buffered[n..];
      RingShift(h0, capacity, n, head, |Buffered| - 1);
      RingDrop(buffer, h0, capacity, b0, n, head);
    }

    /** read(len): peek_output(len) followed by pop_output(len). */
    method Read(len: nat) returns (r: seq<char>)
      requires Valid()
      modifies this
      ensures Valid()
      ensures r == old(Buffered)[..Min(len, |old(Buffered)|)]
      ensures History[..readCnt] == old(History[..readCnt]) + r
      ensures readCnt == old(readCnt) + |r|
      ensures Buffered == old(Buffered)[|r|..]
      ensures History == old(History) && writtenCnt == old(writtenCnt)
      ensures inputEnded == old(inputEnded) && errorFlag == old(errorFlag)
    {
      r := PeekOutput(len);
      PopOutput(len);
      assert History[..readCnt] == old(History[..readCnt]) + r;
    }

    /** end_input(): marks the end of the input; idempotent. */
    method EndInput()
      requires Valid()
      modifies this
      ensures Valid() && inputEnded
      ensures History == old(History) && Buffered == old(Buffered)
      ensures readCnt == old(readCnt) && writtenCnt == old(writtenCnt)
      ensures head == old(head) && tail == old(tail) && errorFlag == old(errorFlag)
    {
      inputEnded := true;
    }

    /** set_error(): marks the stream as failed (called on a reset). */
    method SetError()
      requires Valid()
      modifies this
      ensures Valid() && errorFlag
      ensures History == old(History) && Buffered == old(Buffered)
      ensures readCnt == old(readCnt) && writtenCnt == old(writtenCnt)
      ensures head == old(head) && tail == old(tail) && inputEnded == old(inputEnded)
    {
      errorFlag := true;
    }
  }
}
