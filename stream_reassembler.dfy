/**
 * The stream reassembler (libsponge/stream_reassembler.cc): substrings of a
 * byte stream arrive at absolute indices, possibly out of order and
 * overlapping; the bytes that fit the capacity window are parked in an
 * ordered map of (byte, present) slots, and the contiguous run starting at
 * the first unassembled index is written to the output ByteStream.
 */
module StreamReassemblers {
  import opened ByteStreams

  /** `size_t` is 64 bits wide; `numeric_limits<size_t>::max()` is the
      initial end-of-stream index ("no end known yet"). */
  const TWO64: nat := 0x1_0000_0000_0000_0000
  const SIZE_MAX: nat := TWO64 - 1

  /** A value of the source's `std::map<size_t, pair<char, bool>>`:
      operator[] on a missing key inserts `Slot('\0', false)`. */
  datatype Slot = Slot(ch: char, present: bool)
  type Slots = map<nat, Slot>

  function Max(a: int, b: int): int {
    if a >= b then a else b
  }

  /** The indices holding a received, not yet assembled byte. */
  ghost function PresentKeys(m: Slots): set<nat> {
    set k | k in m && m[k].present
  }

  /** The present keys outside [lo, hi): those an erase of that run keeps. */
  ghost function Outside(m: Slots, lo: nat, hi: nat): set<nat> {
    set k | k in PresentKeys(m) && (k < lo || hi <= k)
  }

  lemma PresentInsert(m: Slots, k: nat, c: char)
    ensures PresentKeys(m[k := Slot(c, true)]) == PresentKeys(m) + {k}
  {
  }

  /** `index + data.size()` in 64-bit unsigned arithmetic. */
  function SegEnd(index: nat, data: seq<char>): nat {
    (index + |data|) % TWO64
  }

  /** Line 24: the first index of the segment that is stored. */
  function ClipStart(index: nat, cur: nat): nat {
    Max(index, cur)
  }

  /** Line 25: one past the last index stored: the segment's end, the end of
      the capacity window and the known end of the stream, whichever is first. */
  function ClipEnd(index: nat, data: seq<char>, cur: nat, window: nat, eof: nat): nat {
    Min(SegEnd(index, data), Min(cur + window, eof))
  }

  /** The byte at index k of the segment disagrees with the one already pending there. */
  predicate Conflicts(m: Slots, data: seq<char>, index: nat, k: nat)
    requires index <= k < index + |data|
  {
    k in m && m[k].present && m[k].ch != data[k - index]
  }

  /** The clipped range [lo, hi) of a segment lies inside the segment (or is empty). */
  predicate InSegment(data: seq<char>, index: nat, lo: nat, hi: nat) {
    lo >= hi || (index <= lo && hi <= index + |data|)
  }

  /** m with every index of [lo, hi) holding the segment's byte, marked
      present, stored in ascending index order as the loop at lines 27-36 does. */
  ghost function Fill(m: Slots, data: seq<char>, index: nat, lo: nat, hi: nat): Slots
    requires InSegment(data, index, lo, hi)
    decreases hi - lo
  {
    if lo >= hi then m else Fill(m[lo := Slot(data[lo - index], true)], data, index, lo + 1, hi)
  }

  /** Fill touches exactly the keys of [lo, hi), each getting the segment's byte. */
  lemma {:induction false} FillAt(m: Slots, data: seq<char>, index: nat, lo: nat, hi: nat)
    requires InSegment(data, index, lo, hi)
    ensures forall k :: k in Fill(m, data, index, lo, hi) <==> k in m || lo <= k < hi
    ensures forall k :: k in Fill(m, data, index, lo, hi) ==>
      Fill(m, data, index, lo, hi)[k] == if lo <= k < hi then Slot(data[k - index], true) else m[k]
    decreases hi - lo
  {
    if lo < hi {
      FillAt(m[lo := Slot(data[lo - index], true)], data, index, lo + 1, hi);
    }
  }

  /** Fill leaves a key at or after hi as it was. */
  lemma {:induction false} FillBeyond(m: Slots, data: seq<char>, index: nat, lo: nat, hi: nat, k: nat)
    requires InSegment(data, index, lo, hi) && hi <= k
    ensures k in Fill(m, data, index, lo, hi) <==> k in m
    ensures k in m ==> Fill(m, data, index, lo, hi)[k] == m[k]
    decreases hi - lo
  {
    if lo < hi {
      FillBeyond(m[lo := Slot(data[lo - index], true)], data, index, lo + 1, hi, k);
    }
  }

  /** Filling one more index is one more map update. */
  lemma {:induction false} FillSnoc(m: Slots, data: seq<char>, index: nat, lo: nat, hi: nat)
    requires lo <= hi && index <= lo && hi < index + |data|
    ensures Fill(m, data, index, lo, hi + 1) == Fill(m, data, index, lo, hi)[hi := Slot(data[hi - index], true)]
    decreases hi - lo
  {
    if lo < hi {
      FillSnoc(m[lo := Slot(data[lo - index], true)], data, index, lo + 1, hi);
    }
  }

  /** The contiguous run of present bytes from `cur`, stopping before `eof`:
      what the assembly loop (lines 40-43) collects. */
  function Run(m: Slots, cur: nat, eof: nat): seq<char>
    decreases eof - cur
  {
    if cur < eof && cur in m && m[cur].present then [m[cur].ch] + Run(m, cur + 1, eof) else []
  }

  /** The run is made of present slots below eof, in index order, and is
      maximal: the slot right after it is missing, not present, or at eof. */
  lemma {:induction false} RunSpec(m: Slots, cur: nat, eof: nat)
    ensures cur + |Run(m, cur, eof)| <= Max(cur, eof)
    ensures forall k :: cur <= k < cur + |Run(m, cur, eof)| ==>
      k in m && m[k].present && m[k].ch == Run(m, cur, eof)[k - cur]
    ensures var e := cur + |Run(m, cur, eof)|; !(e < eof && e in m && m[e].present)
    decreases eof - cur
  {
    if cur < eof && cur in m && m[cur].present {
      RunSpec(m, cur + 1, eof);
      var r := Run(m, cur + 1, eof);
      assert Run(m, cur, eof) == [m[cur].ch] + r;
      forall k | cur <= k < cur + |Run(m, cur, eof)|
        ensures k in m && m[k].present && m[k].ch == Run(m, cur, eof)[k - cur]
      {
        if k > cur {
          assert Run(m, cur, eof)[k - cur] == r[k - (cur + 1)];
        }
      }
    }
  }

  /** The exit test of the assembly loop: `_stream[_cur_index]` default-inserts
      a missing key whenever it is evaluated, i.e. when cur < eof. */
  function Touch(m: Slots, cur: nat, eof: nat): (r: Slots)
    ensures PresentKeys(r) == PresentKeys(m)
    ensures forall k :: k in r <==> k in m || (k == cur && cur < eof)
    ensures forall k :: k in m ==> r[k] == m[k]
  {
    if cur < eof && cur !in m then m[cur := Slot('\0', false)] else m
  }

  /** `_stream.erase(_stream.find(lo), _stream.find(hi))`: a missing `lo` is
      `end()` and erases nothing; a missing `hi` is `end()` and erases every
      key from lo on. */
  function EraseRun(m: Slots, lo: nat, hi: nat): Slots {
    if lo !in m then m
    else if hi in m then map k | k in m && (k < lo || hi <= k) :: m[k]
    else map k | k in m && k < lo :: m[k]
  }

  /** Erasing a run [lo, hi) keeps at most the present keys outside it, and
      exactly those when `hi` is a key or no present key lies at or after hi. */
  lemma EraseKeeps(m: Slots, lo: nat, hi: nat)
    requires lo <= hi && (lo < hi ==> lo in m)
    ensures PresentKeys(EraseRun(m, lo, hi)) <= Outside(m, lo, hi)
    ensures (hi in m || forall k :: k in PresentKeys(m) ==> k < hi) ==>
      PresentKeys(EraseRun(m, lo, hi)) == Outside(m, lo, hi)
  {
  }

  lemma SubsetSize<T>(a: set<T>, b: set<T>)
    requires a <= b
    ensures |a| <= |b|
  {
    assert b == a + (b - a);
  }

  /** One step of the storing loop at index i, with m' the map after the
      indices before i: index i conflicts exactly when m' already holds a
      different present byte there, and otherwise storing it extends the fill
      by i and adds i to the present keys unless it was present already. */
  lemma StoreStep(m: Slots, m': Slots, data: seq<char>, index: nat, st: nat, i: nat)
    requires st <= i && index <= st && i < index + |data|
    requires m' == Fill(m, data, index, st, i)
    ensures Conflicts(m, data, index, i) <==> i in m' && m'[i].present && m'[i].ch != data[i - index]
    ensures Fill(m, data, index, st, i + 1) == m'[i := Slot(data[i - index], true)]
    ensures i in m' && m'[i].present && m'[i].ch == data[i - index] ==> m' == m'[i := Slot(data[i - index], true)]
    ensures !(i in m' && m'[i].present) ==>
      PresentKeys(m'[i := Slot(data[i - index], true)]) == PresentKeys(m') + {i} && i !in PresentKeys(m')
  {
    FillBeyond(m, data, index, st, i, i);
    FillSnoc(m, data, index, st, i);
    PresentInsert(m', i, data[i - index]);
  }

  /** The storing loop of push_substring (lines 27-36) over the slot map m and
      the unassembled count: every index of [st, ed) gets the segment's byte,
      unless a different byte is already pending at one of them, in which case
      the loop stops there (the source throws) with the bytes before it stored. */
  method StoreSegment(m: Slots, cnt: nat, data: seq<char>, index: nat, st: nat, ed: nat)
    returns (m': Slots, cnt': nat, ok: bool)
    requires InSegment(data, index, st, ed)
    ensures ok <==> forall k :: st <= k < ed ==> !Conflicts(m, data, index, k)
    ensures ok ==> m' == Fill(m, data, index, st, ed)
    ensures !ok ==> exists c :: && st <= c < ed && Conflicts(m, data, index, c)
                               && (forall k :: st <= k < c ==> !Conflicts(m, data, index, k))
                               && m' == Fill(m, data, index, st, c)
    ensures cnt' + |PresentKeys(m)| == cnt + |PresentKeys(m')|
  {
    m', cnt', ok := m, cnt, true;
    var i := st;
    while i < ed
      invariant st <= i && (i <= ed || i == st)
      invariant InSegment(data, index, st, i)
      invariant m' == Fill(m, data, index, st, i)
      invariant forall k :: st <= k < i ==> !Conflicts(m, data, index, k)
      invariant cnt' + |PresentKeys(m)| == cnt + |PresentKeys(m')|
    {
      var slot := Slot(data[i - index], true);
      StoreStep(m, m', data, index, st, i);
      if i in m' && m'[i].present {
        if m'[i].ch != slot.ch {
          ok := false;
          return;
        }
      } else {
        cnt' := cnt' + 1;
      }
      m' := m'[i := slot];
      i := i + 1;
    }
  }

  /** The assembly loop of push_substring (lines 38-43): collects the run of
      present bytes from cur, decrementing the count once per byte. */
  method Assemble(m: Slots, cur: nat, eof: nat, cnt: int) returns (m': Slots, cur': nat, str: seq<char>, cnt': int)
    ensures str == Run(m, cur, eof)
    ensures cur' == cur + |str| && cnt' == cnt - |str|
    ensures m' == Touch(m, cur', eof)
    ensures |Outside(m, cur, cur')| == |PresentKeys(m)| - |str|
  {
    cur', str, cnt' := cur, [], cnt;
    assert Outside(m, cur, cur') == PresentKeys(m);
    while cur' < eof && cur' in m && m[cur'].present
      invariant cur <= cur' && cur' == cur + |str| && cnt' == cnt - |str|
      invariant str + Run(m, cur', eof) == Run(m, cur, eof)
      invariant |Outside(m, cur, cur')| == |PresentKeys(m)| - |str|
      decreases eof - cur'
    {
      assert Run(m, cur', eof) == [m[cur'].ch] + Run(m, cur' + 1, eof);
      assert Outside(m, cur, cur' + 1) == Outside(m, cur, cur') - {cur'};
      str := str + [m[cur'].ch];
      cnt', cur' := cnt' - 1, cur' + 1;
    }
    m' := Touch(m, cur', eof);
  }

  /** Lines 27-45 of push_substring on the slot map, the first unassembled
      index and the counter: store the clipped range [st, ed), collect the run
      from cur and erase it. `window` is cur + capacity - buffer_size() less cur. */
  method PushSlots(m: Slots, cnt: nat, cur: nat, eof: nat, window: nat, data: seq<char>, index: nat, st: nat, ed: nat)
    returns (ok: bool, m': Slots, cur': nat, str: seq<char>, cnt': nat)
    requires InSegment(data, index, st, ed) && cur <= st && ed <= cur + window
    requires forall k :: k in m ==> cur <= k
    requires forall k :: k in m && m[k].present ==> k < cur + window
    requires cnt >= |PresentKeys(m)|
    ensures ok <==> forall k :: st <= k < ed ==> !Conflicts(m, data, index, k)
    ensures !ok ==> cur' == cur && str == []
    ensures !ok ==> exists c :: && st <= c < ed && Conflicts(m, data, index, c)
                               && (forall k :: st <= k < c ==> !Conflicts(m, data, index, k))
                               && m' == Fill(m, data, index, st, c)
    ensures !ok ==> cnt' - |PresentKeys(m')| == cnt - |PresentKeys(m)|
    ensures ok ==> var filled := Fill(m, data, index, st, ed);
      && str == Run(filled, cur, eof)
      && cur' == cur + |str|
      && m' == EraseRun(Touch(filled, cur', eof), cur, cur')
    ensures |str| <= window
    ensures forall k :: k in m' ==> cur' <= k
    ensures forall k :: k in m' && m'[k].present ==> k < cur + window
    ensures cnt' >= |PresentKeys(m')| && cnt' - |PresentKeys(m')| >= cnt - |PresentKeys(m)|
    ensures ok && ed <= eof && (forall k :: k in m && m[k].present ==> k < eof) ==>
      cnt' - |PresentKeys(m')| == cnt - |PresentKeys(m)|
  {
    var filled, cnt1;
    filled, cnt1, ok := StoreSegment(m, cnt, data, index, st, ed);
    if !ok {
      ghost var c :| st <= c < ed && Conflicts(m, data, index, c) && filled == Fill(m, data, index, st, c);
      WindowAfterStore(m, data, index, st, c, cur, window);
      return ok, filled, cur, [], cnt1;
    }
    WindowAfterStore(m, data, index, st, ed, cur, window);
    var touched, cnt2;
    touched, cur', str, cnt2 := Assemble(filled, cur, eof, cnt1);
    RunSpec(filled, cur, eof);
    if |str| > 0 {
      assert cur + (|str| - 1) in filled;
    }
    m' := EraseRun(touched, cur, cur');
    EraseKeeps(touched, cur, cur');
    SubsetSize(PresentKeys(m'), Outside(touched, cur, cur'));
    cnt' := cnt2;
    AfterAssembly(filled, cur, cur', eof, window);
    if ed <= eof && (forall k :: k in m && m[k].present ==> k < eof) {
      FillAt(m, data, index, st, ed);
      if cur' !in touched {
        assert eof <= cur';
        assert forall k :: k in PresentKeys(touched) ==> k < cur';
      }
    }
  }

  /** The model of StreamReassembler. `Dropped` counts pending bytes that an
      erase removed without assembling them (only possible once the end of
      the stream was moved below them); the source's counter includes them. */
  class StreamReassembler {
    const capacity: nat
    const output: ByteStream
    var slots: Slots
    var curIndex: nat
    var eofIndex: nat
    var unassembledCnt: nat
    ghost var Dropped: nat
    ghost const Repr: set<object>

    ghost predicate Valid()
      reads this, Repr
      ensures Valid() ==> this in Repr
    {
      && this in Repr && output in Repr && Repr == {this} + output.Repr && this !in output.Repr
      && output.Valid() && output.capacity == capacity
      && curIndex == |output.History|
      && (forall k :: k in slots ==> curIndex <= k)
      && (forall k :: k in slots && slots[k].present ==> k < curIndex + capacity - |output.Buffered|)
      && unassembledCnt == |PresentKeys(slots)| + Dropped
    }

    constructor (capacity: nat)
      ensures Valid() && fresh(Repr)
      ensures this.capacity == capacity && output.History == [] && !output.inputEnded && !output.errorFlag
      ensures slots == map[] && curIndex == 0 && eofIndex == SIZE_MAX && unassembledCnt == 0 && Dropped == 0
    {
      this.capacity := capacity;
      var out := new ByteStream(capacity);
      output := out;
      slots := map[];
      curIndex, eofIndex, unassembledCnt := 0, SIZE_MAX, 0;
      Dropped := 0;
      Repr := {this} + out.Repr;
      new;
      assert PresentKeys(slots) == {};
    }

    /** What push_substring(data, index, eof) does, from the state before
        the call to the one after it. `ok` is false where the source throws
        on an inconsistent byte; the state is then left as the source leaves
        it, with the bytes before the conflict stored. */
    twostate predicate PushedAs(data: seq<char>, index: nat, eof: bool, ok: bool)
      requires old(Valid())
      reads this, output
    {
      var st, ed := ClipStart(index, old(curIndex)),
                    ClipEnd(index, data, old(curIndex), capacity - |old(output.Buffered)|, old(eofIndex));
      && eofIndex == (if eof then Min(old(eofIndex), SegEnd(index, data)) else old(eofIndex))
      && (ok <==> (forall k :: st <= k < ed ==> !Conflicts(old(slots), data, index, k)))
      && (!ok ==> && curIndex == old(curIndex) && output.History == old(output.History)
                  && output.Buffered == old(output.Buffered) && output.inputEnded == old(output.inputEnded)
                  && Dropped == old(Dropped)
                  && exists c :: && st <= c < ed && Conflicts(old(slots), data, index, c)
                                 && (forall k :: st <= k < c ==> !Conflicts(old(slots), data, index, k))
                                 && slots == Fill(old(slots), data, index, st, c))
      && (ok ==>
            var run := Run(Fill(old(slots), data, index, st, ed), old(curIndex), eofIndex);
            && output.History == old(output.History) + run
            && output.Buffered == old(output.Buffered) + run
            && curIndex == old(curIndex) + |run|
            && slots == EraseRun(Touch(Fill(old(slots), data, index, st, ed), curIndex, eofIndex), old(curIndex), curIndex)
            && output.inputEnded == (old(output.inputEnded) || curIndex == eofIndex))
      && output.errorFlag == old(output.errorFlag)
      && Dropped >= old(Dropped)
      && (ok && (forall k :: k in old(slots) && old(slots)[k].present ==> k < eofIndex) ==> Dropped == old(Dropped))
    }

    /** push_substring(data, index, eof), with `index` a 64-bit value. */
    method PushSubstring(data: seq<char>, index: nat, eof: bool) returns (ok: bool)
      requires Valid() && index < TWO64
      modifies Repr
      ensures Valid() && PushedAs(data, index, eof, ok)
    {
      var window := capacity - output.BufferSize();
      var st := ClipStart(index, curIndex);
      var ed := ClipEnd(index, data, curIndex, window, eofIndex);
      var eof' := if eof then Min(eofIndex, SegEnd(index, data)) else eofIndex;
      var m', cur', str, cnt';
      ok, m', cur', str, cnt' := PushSlots(slots, unassembledCnt, curIndex, eof', window, data, index, st, ed);
      Commit(ok, m', cur', eof', str, cnt');
    }

    /** The end of push_substring: an assembled run is written to the output,
        which is ended once the run reaches the end of the stream, and the
        new slot map, indices and counter are stored. */
    method Commit(ok: bool, m': Slots, cur': nat, eof': nat, str: seq<char>, cnt': nat)
      requires Valid()
      requires ok ==> cur' == curIndex + |str| && |str| <= capacity - |output.Buffered|
      requires !ok ==> cur' == curIndex
      requires forall k :: k in m' ==> cur' <= k
      requires forall k :: k in m' && m'[k].present ==> k < curIndex + capacity - |output.Buffered|
      requires cnt' >= |PresentKeys(m')|
      modifies Repr
      ensures Valid()
      ensures slots == m' && curIndex == cur' && eofIndex == eof' && unassembledCnt == cnt'
      ensures Dropped == cnt' - |PresentKeys(m')|
      ensures ok ==> output.History == old(output.History) + str && output.Buffered == old(output.Buffered) + str
      ensures !ok ==> output.History == old(output.History) && output.Buffered == old(output.Buffered)
      ensures output.inputEnded == (old(output.inputEnded) || (ok && cur' == eof'))
      ensures output.errorFlag == old(output.errorFlag)
    {
      slots, curIndex, eofIndex, unassembledCnt := m', cur', eof', cnt';
      Dropped := cnt' - |PresentKeys(m')|;
      if ok {
        Deliver(output, str, cur' == eof');
      }
    }

    /** Writes an assembled run, which fits, to the output and ends the
        output if `last` says the run reached the end of the stream. */
    static method Deliver(out: ByteStream, str: seq<char>, last: bool)
      requires out.Valid() && |str| <= out.capacity - |out.Buffered|
      modifies out.Repr
      ensures out.Valid()
      ensures out.History == old(out.History) + str && out.Buffered == old(out.Buffered) + str
      ensures out.inputEnded == (old(out.inputEnded) || last) && out.errorFlag == old(out.errorFlag)
    {
      var written := out.Write(str);
      if last {
        out.EndInput();
      }
    }

    /** unassembled_bytes(): the source's counter, which is the number of
        pending bytes plus those dropped by an erase. */
    function UnassembledBytes(): (r: nat)
      reads Repr
      requires Valid()
      ensures r == |PresentKeys(slots)| + Dropped
      ensures Dropped == 0 ==> r == |PresentKeys(slots)|
    {
      unassembledCnt
    }

    /** empty(): no byte is counted as unassembled. */
    function Empty(): (r: bool)
      reads Repr
      requires Valid()
      ensures r <==> PresentKeys(slots) == {} && Dropped == 0
    {
      UnassembledBytes() == 0
    }
  }

  /** Storing a clipped segment keeps every key at or after cur and every
      present key inside the window [cur, cur + window). */
  lemma WindowAfterStore(m: Slots, data: seq<char>, index: nat, st: nat, ed: nat, cur: nat, window: nat)
    requires InSegment(data, index, st, ed) && cur <= st && ed <= cur + window
    requires forall k :: k in m ==> cur <= k
    requires forall k :: k in m && m[k].present ==> k < cur + window
    ensures forall k :: k in Fill(m, data, index, st, ed) ==> cur <= k
    ensures forall k :: k in Fill(m, data, index, st, ed) && Fill(m, data, index, st, ed)[k].present ==> k < cur + window
  {
    FillAt(m, data, index, st, ed);
  }

  /** After the run [lo, cur) of `filled` is assembled and erased, every
      remaining key is at or after cur and every present key is inside the
      window, which shrank from the front by the run's length. */
  lemma AfterAssembly(filled: Slots, lo: nat, cur: nat, eof: nat, window: nat)
    requires lo <= cur && cur == lo + |Run(filled, lo, eof)|
    requires forall k :: k in filled ==> lo <= k
    requires forall k :: k in filled && filled[k].present ==> k < lo + window
    ensures var r := EraseRun(Touch(filled, cur, eof), lo, cur);
      forall k :: k in r ==> cur <= k
    ensures var r := EraseRun(Touch(filled, cur, eof), lo, cur);
      forall k :: k in r && r[k].present ==> k < lo + window
  {
    RunSpec(filled, lo, eof);
    if cur > lo {
      assert lo + 0 in filled;
    }
  }
}
