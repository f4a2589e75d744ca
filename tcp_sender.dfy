/**
 * The TCP sender (libsponge/tcp_sender.cc): cuts the outgoing byte stream
 * into segments that fit the window the peer advertised, keeps the segments
 * sent and not yet acknowledged in a FIFO, and retransmits the oldest of
 * them when the retransmission timer expires, doubling the timeout
 * (section 5 of RFC 6298) unless the window is zero, in which case the
 * segment is a window probe (section 4.2.2.17 of RFC 1122).
 */
module TCPSenders {
  import opened WrappingIntegers
  import opened ByteStreams
  import opened TCPSegments

  function Bit(b: bool): nat {
    if b then 1 else 0
  }

  function Pow2(n: nat): nat {
    if n == 0 then 1 else 2 * Pow2(n - 1)
  }

  /** The retransmission timeout after n consecutive doublings of rto. */
  function Backoff(rto: nat, n: nat): nat {
    if n == 0 then rto else 2 * Backoff(rto, n - 1)
  }

  /** Backoff is exponential: rto * 2^n (section 5.5 of RFC 6298). */
  lemma {:induction false} BackoffPow2(rto: nat, n: nat)
    ensures Backoff(rto, n) == rto * Pow2(n)
  {
    if n > 0 {
      BackoffPow2(rto, n - 1);
      assert rto * (2 * Pow2(n - 1)) == 2 * (rto * Pow2(n - 1));
    }
  }

  /** The retransmission timer, as the sender uses it: a running flag, the
      time elapsed since it was (re)started and the current timeout. */
  datatype Timer = Timer(running: bool, elapsed: nat, timeout: nat)

  function Restart(t: Timer): Timer {
    t.(running := true, elapsed := 0)
  }

  function Stop(t: Timer): Timer {
    t.(running := false)
  }

  function SetTimeOut(t: Timer, timeout: nat): Timer {
    t.(timeout := timeout)
  }

  /** Time passes only for a running timer. */
  function TickTimer(t: Timer, ms: nat): Timer {
    if t.running then t.(elapsed := t.elapsed + ms) else t
  }

  function TimedOut(t: Timer): bool {
    t.running && t.elapsed >= t.timeout
  }

  /** An outstanding segment with the absolute sequence number of its first byte. */
  datatype Outstanding = Outstanding(abs: nat, seg: Segment)


  function Len(o: Outstanding): nat {
    LengthInSequenceSpace(o.seg)
  }

  /** The sequence numbers the outstanding segments occupy. */
  ghost function InFlight(os: seq<Outstanding>): nat
    decreases |os|
  {
    if os == [] then 0 else Len(os[0]) + InFlight(os[1..])
  }

  ghost function Payloads(os: seq<Outstanding>): seq<char>
    decreases |os|
  {
    if os == [] then [] else os[0].seg.payload + Payloads(os[1..])
  }

  function Segs(os: seq<Outstanding>): seq<Segment>
    decreases |os|
  {
    if os == [] then [] else [os[0].seg] + Segs(os[1..])
  }

  /** The segments of os follow each other without gap or overlap from
      absolute sequence number `start` to `end`. */
  ghost predicate Chain(os: seq<Outstanding>, start: nat, end: nat) {
    && (os == [] ==> start == end)
    && (os != [] ==> os[0].abs == start && os[|os| - 1].abs + Len(os[|os| - 1]) == end)
    && (forall i :: 0 <= i < |os| - 1 ==> os[i].abs + Len(os[i]) == os[i + 1].abs)
  }

  /** An outstanding segment as fill_window sends it: stamped with the
      wrapped form of its absolute sequence number, and not empty. */
  predicate Stamped(o: Outstanding, isn: u32) {
    Len(o) > 0 && o.seg.header.seqno == Wrap(o.abs, isn)
  }

  /** The outstanding segments as the sender keeps them: a chain ending at
      the next sequence number, whose lengths add up to the bytes in flight,
      each stamped with its wrapped sequence number. */
  ghost predicate FlightChain(os: seq<Outstanding>, bif: nat, next: nat, isn: u32) {
    && bif <= next && Chain(os, next - bif, next) && bif == InFlight(os)
    && forall i :: 0 <= i < |os| ==> Stamped(os[i], isn)
  }

  /** The next sequence number counts the SYN, the bytes read from the
      outgoing stream and the FIN; nothing is read before the SYN is sent. */
  ghost predicate Accounted(next: nat, syn: bool, fin: bool, unread: int) {
    && 0 <= unread
    && next == Bit(syn) + unread + Bit(fin)
    && (!syn ==> !fin && unread == 0)
  }

  /** Retiring the front segment leaves a chain that starts where it ended. */
  lemma ChainTail(os: seq<Outstanding>, start: nat, end: nat)
    requires Chain(os, start, end) && os != []
    ensures Chain(os[1..], start + Len(os[0]), end)
  {
    var t := os[1..];
    forall i | 0 <= i < |t| - 1
      ensures t[i].abs + Len(t[i]) == t[i + 1].abs
    {
      assert t[i] == os[i + 1] && t[i + 1] == os[i + 2];
    }
  }

  lemma ChainConcat(a: seq<Outstanding>, b: seq<Outstanding>, start: nat, mid: nat, end: nat)
    requires Chain(a, start, mid) && Chain(b, mid, end)
    ensures Chain(a + b, start, end)
  {
    var c := a + b;
    if a == [] {
      assert c == b;
    } else if b == [] {
      assert c == a;
    } else {
      forall i | 0 <= i < |c| - 1
        ensures c[i].abs + Len(c[i]) == c[i + 1].abs
      {
        if i >= |a| {
          assert c[i] == b[i - |a|] && c[i + 1] == b[i - |a| + 1];
        }
      }
    }
  }

  /** The chain spans exactly the sequence numbers its segments occupy. */
  lemma {:induction false} ChainSpan(os: seq<Outstanding>, start: nat, end: nat)
    requires Chain(os, start, end)
    ensures end == start + InFlight(os)
    decreases |os|
  {
    if os != [] {
      ChainTail(os, start, end);
      ChainSpan(os[1..], start + Len(os[0]), end);
    }
  }

  lemma {:induction false} ChainBounds(os: seq<Outstanding>, start: nat, end: nat, i: nat)
    requires Chain(os, start, end) && i < |os|
    ensures start <= os[i].abs && os[i].abs + Len(os[i]) <= end
    decreases |os|
  {
    ChainTail(os, start, end);
    ChainSpan(os[1..], start + Len(os[0]), end);
    if i > 0 {
      ChainBounds(os[1..], start + Len(os[0]), end, i - 1);
    }
  }

  /** Outstanding segments that each occupy sequence space are in strictly
      ascending order of their absolute sequence numbers. */
  lemma {:induction false} ChainAscending(os: seq<Outstanding>, start: nat, end: nat, i: nat, j: nat)
    requires Chain(os, start, end) && (forall k :: 0 <= k < |os| ==> Len(os[k]) > 0)
    requires i < j < |os|
    ensures start <= os[i].abs < os[j].abs < end
    decreases |os|
  {
    ChainTail(os, start, end);
    if i == 0 {
      ChainBounds(os[1..], start + Len(os[0]), end, j - 1);
      assert os[1..][j - 1] == os[j];
    } else {
      ChainAscending(os[1..], start + Len(os[0]), end, i - 1, j - 1);
      assert os[1..][i - 1] == os[i] && os[1..][j - 1] == os[j];
    }
  }

  lemma {:induction false} InFlightConcat(a: seq<Outstanding>, b: seq<Outstanding>)
    ensures InFlight(a + b) == InFlight(a) + InFlight(b)
    ensures Payloads(a + b) == Payloads(a) + Payloads(b)
    ensures Segs(a + b) == Segs(a) + Segs(b)
    decreases |a|
  {
    if a != [] {
      assert (a + b)[1..] == a[1..] + b;
      InFlightConcat(a[1..], b);
    } else {
      assert a + b == b;
    }
  }

  /** Segments that all occupy sequence space are in flight iff there are any. */
  lemma InFlightEmpty(os: seq<Outstanding>, isn: u32)
    requires forall i :: 0 <= i < |os| ==> Stamped(os[i], isn)
    ensures InFlight(os) == 0 <==> os == []
  {
    if os != [] {
      assert Stamped(os[0], isn);
    }
  }

  /** The payload size of one round of fill_window (lines 39-40): the
      payload limit, the room left in the window after the bytes in flight
      and the SYN, and the bytes buffered, whichever is least. The payload is
      all of the buffered bytes unless the limit or the window stops it. */
  function PayloadSize(w: nat, bif: nat, syn: bool, buffered: nat): (n: nat)
    requires bif < w
    ensures n <= MAX_PAYLOAD_SIZE && n <= buffered && bif + n + Bit(syn) <= w
    ensures n < buffered ==> n == MAX_PAYLOAD_SIZE || bif + n + Bit(syn) == w
    ensures n == 0 ==> buffered == 0 || (syn && bif + 1 == w)
  {
    Min(MAX_PAYLOAD_SIZE, Min(w - bif - Bit(syn), buffered))
  }

  /** max(window, 1): a zero window is treated as one. */
  function Max1(w: nat): (r: nat)
    ensures r >= 1 && (w > 0 ==> r == w)
    ensures w == 0 ==> r == 1
  {
    if w == 0 then 1 else w
  }

  /** The state fill_window works on: bytes in flight, next absolute
      sequence number, the SYN and FIN flags and the buffered outgoing bytes. */
  datatype Filling = Filling(bif: nat, next: nat, synSent: bool, finSent: bool, avail: seq<char>)

  /** What one round of the fill_window loop does: stop (Done), or send one segment
      and move to a new state. */
  datatype Round = Done | Send(out: Outstanding, after: Filling)

  /**
   * One round of fill_window under window w (lines 30-66). The round stops
   * when the window is full or the segment it builds would be empty; it
   * sends SYN if none was sent, the payload `PayloadSize` allows, and FIN if
   * none was sent, the input has ended, the payload empties the stream and
   * the FIN still fits the window.
   */
  ghost function NextRound(w: nat, s: Filling, ended: bool, isn: u32): (r: Round)
    ensures r.Done? <==> s.bif >= w || (s.avail == [] && s.synSent && (s.finSent || !ended))
    ensures r.Send? ==>
      var h, p := r.out.seg.header, r.out.seg.payload;
      && r.out.abs == s.next && Stamped(r.out, isn) && |p| <= MAX_PAYLOAD_SIZE
      && !h.ack && !h.rst
      && r.after.bif == s.bif + Len(r.out) <= w && r.after.next == s.next + Len(r.out)
      && s.avail == p + r.after.avail
      && (|p| < |s.avail| ==> |p| == MAX_PAYLOAD_SIZE || s.bif + |p| + Bit(h.syn) == w)
      && r.after.synSent && (h.syn <==> !s.synSent)
      && r.after.finSent == (s.finSent || h.fin)
      && (h.fin <==> !s.finSent && ended && r.after.avail == [] && s.bif + |p| + Bit(h.syn) < w)
  {
    if s.bif >= w then Done
    else
      var syn := !s.synSent;
      var n := PayloadSize(w, s.bif, syn, |s.avail|);
      var fin := !s.finSent && ended && n == |s.avail| && s.bif + n + Bit(syn) < w;
      var len := n + Bit(syn) + Bit(fin);
      if len == 0 then Done
      else
        assert s.avail == s.avail[..n] + s.avail[n..];
        Send(Outstanding(s.next, Segment(EmptyHeader.(seqno := Wrap(s.next, isn), syn := syn, fin := fin), s.avail[..n])),
             Filling(s.bif + len, s.next + len, true, s.finSent || fin, s.avail[n..]))
  }

  /** The segments fill_window sends from state s under window w, and the
      state it stops in: the rounds of `NextRound` until one is done. */
  ghost function Sends(w: nat, s: Filling, ended: bool, isn: u32): (seq<Outstanding>, Filling)
    decreases w - s.bif
  {
    match NextRound(w, s, ended, isn)
    case Done => ([], s)
    case Send(o, s') =>
      var r := Sends(w, s', ended, isn);
      ([o] + r.0, r.1)
  }

  /** states[i] is the state before the i-th segment of `sent` and after the
      one before it. */
  ghost predicate Trace(w: nat, ended: bool, isn: u32, states: seq<Filling>, sent: seq<Outstanding>) {
    && |states| == |sent| + 1
    && forall i :: 0 <= i < |sent| ==> TraceStep(w, ended, isn, states, sent, i)
  }

  /** The i-th round of a trace sends sent[i] and moves from states[i] to
      states[i + 1]. */
  ghost predicate TraceStep(w: nat, ended: bool, isn: u32, states: seq<Filling>, sent: seq<Outstanding>, i: nat)
    requires i < |sent| && |states| == |sent| + 1
  {
    NextRound(w, states[i], ended, isn) == Send(sent[i], states[i + 1])
  }

  lemma TraceAt(w: nat, ended: bool, isn: u32, states: seq<Filling>, sent: seq<Outstanding>, i: nat)
    requires Trace(w, ended, isn, states, sent) && i < |sent|
    ensures NextRound(w, states[i], ended, isn) == Send(sent[i], states[i + 1])
  {
    assert TraceStep(w, ended, isn, states, sent, i);
  }

  lemma TraceTail(w: nat, ended: bool, isn: u32, states: seq<Filling>, sent: seq<Outstanding>)
    requires Trace(w, ended, isn, states, sent) && sent != []
    ensures NextRound(w, states[0], ended, isn) == Send(sent[0], states[1])
    ensures Trace(w, ended, isn, states[1..], sent[1..])
  {
    TraceAt(w, ended, isn, states, sent, 0);
    forall i | 0 <= i < |sent| - 1
      ensures TraceStep(w, ended, isn, states[1..], sent[1..], i)
    {
      TraceAt(w, ended, isn, states, sent, i + 1);
      assert states[1..][i] == states[i + 1] && states[1..][i + 1] == states[i + 2];
      assert sent[1..][i] == sent[i + 1];
    }
  }

  /** A trace extended by one more round. */
  lemma TraceSnoc(w: nat, ended: bool, isn: u32, states: seq<Filling>, sent: seq<Outstanding>, o: Outstanding, s': Filling)
    requires Trace(w, ended, isn, states, sent) && NextRound(w, states[|sent|], ended, isn) == Send(o, s')
    ensures Trace(w, ended, isn, states + [s'], sent + [o])
  {
    var st, se := states + [s'], sent + [o];
    forall i | 0 <= i < |se|
      ensures TraceStep(w, ended, isn, st, se, i)
    {
      if i < |sent| {
        TraceAt(w, ended, isn, states, sent, i);
        assert st[i] == states[i] && st[i + 1] == states[i + 1] && se[i] == sent[i];
      }
    }
  }

  /** The round fill_window's loop body performs, written with the values
      it computes: the segment built from the payload read, the bytes left
      and the FIN decision, and whether it occupies no sequence space. */
  lemma RoundStep(w: nat, bif: nat, next: nat, syn0: bool, fin0: bool, avail: seq<char>, ended: bool, isn: u32,
                  o: Outstanding, rest: seq<char>, stop: bool)
    requires bif < w
    requires o.seg.payload == avail[..PayloadSize(w, bif, !syn0, |avail|)] && rest == avail[|o.seg.payload|..]
    requires o.abs == next
    requires o.seg.header == EmptyHeader.(seqno := Wrap(next, isn), syn := !syn0,
                                          fin := !fin0 && ended && rest == [] && bif + |o.seg.payload| + Bit(!syn0) < w)
    requires stop == (Len(o) == 0)
    ensures var r := NextRound(w, Filling(bif, next, syn0, fin0, avail), ended, isn);
      && (stop <==> r.Done?)
      && (!stop ==> r == Send(o, Filling(bif + Len(o), next + Len(o), true, fin0 || o.seg.header.fin, rest)))
  {
    assert o == Outstanding(o.abs, Segment(o.seg.header, o.seg.payload));
  }

  /** A trace that ends in a stopping state is what `Sends` computes. */
  lemma {:induction false} TraceSends(w: nat, ended: bool, isn: u32, states: seq<Filling>, sent: seq<Outstanding>)
    requires Trace(w, ended, isn, states, sent) && NextRound(w, states[|sent|], ended, isn).Done?
    ensures Sends(w, states[0], ended, isn) == (sent, states[|sent|])
    decreases |sent|
  {
    if sent != [] {
      TraceTail(w, ended, isn, states, sent);
      TraceSends(w, ended, isn, states[1..], sent[1..]);
      assert sent == [sent[0]] + sent[1..];
    }
  }

  /** Conversely, the rounds of `Sends` form a trace that ends in a stopping state. */
  lemma {:induction false} SendsTrace(w: nat, s: Filling, ended: bool, isn: u32) returns (states: seq<Filling>)
    ensures var r := Sends(w, s, ended, isn);
      && Trace(w, ended, isn, states, r.0) && states[0] == s && states[|r.0|] == r.1
      && NextRound(w, r.1, ended, isn).Done?
    decreases w - s.bif
  {
    match NextRound(w, s, ended, isn)
    case Done =>
      states := [s];
    case Send(o, s') =>
      var rest := SendsTrace(w, s', ended, isn);
      var r' := Sends(w, s', ended, isn);
      var sent := [o] + r'.0;
      assert Sends(w, s, ended, isn) == (sent, r'.1);
      states := [s] + rest;
      forall i | 0 <= i < |sent|
        ensures TraceStep(w, ended, isn, states, sent, i)
      {
        if i > 0 {
          TraceAt(w, ended, isn, rest, r'.0, i - 1);
          assert states[i] == rest[i - 1] && states[i + 1] == rest[i] && sent[i] == r'.0[i - 1];
        }
      }
  }

  /** The segments of a trace are contiguous from the first state's next
      sequence number to the last one's, each stamped with its wrapped
      sequence number, non-empty and within the payload limit; the bytes in
      flight grow exactly as the next sequence number does. */
  lemma {:induction false} TraceChain(w: nat, ended: bool, isn: u32, states: seq<Filling>, sent: seq<Outstanding>)
    requires Trace(w, ended, isn, states, sent)
    ensures Chain(sent, states[0].next, states[|sent|].next)
    ensures states[|sent|].bif - states[0].bif == states[|sent|].next - states[0].next
    ensures forall i :: 0 <= i < |sent| ==> Stamped(sent[i], isn) && |sent[i].seg.payload| <= MAX_PAYLOAD_SIZE
    ensures sent != [] ==> states[|sent|].synSent && states[|sent|].bif <= w
    decreases |sent|
  {
    if sent != [] {
      TraceTail(w, ended, isn, states, sent);
      TraceChain(w, ended, isn, states[1..], sent[1..]);
      ChainConcat([sent[0]], sent[1..], states[0].next, states[1].next, states[|sent|].next);
      assert [sent[0]] + sent[1..] == sent;
      forall i | 0 <= i < |sent|
        ensures Stamped(sent[i], isn) && |sent[i].seg.payload| <= MAX_PAYLOAD_SIZE
      {
        if i > 0 {
          assert sent[i] == sent[1..][i - 1];
        }
      }
    }
  }

  /** The segments of a trace carry the stream's bytes from the front, in
      order; the next sequence number grows by the bytes taken plus the SYN
      and FIN newly sent. */
  lemma {:induction false} TracePayloads(w: nat, ended: bool, isn: u32, states: seq<Filling>, sent: seq<Outstanding>)
    requires Trace(w, ended, isn, states, sent)
    ensures states[0].avail == Payloads(sent) + states[|sent|].avail
    ensures states[|sent|].next + |states[|sent|].avail| + Bit(states[0].synSent) + Bit(states[0].finSent)
         == states[0].next + |states[0].avail| + Bit(states[|sent|].synSent) + Bit(states[|sent|].finSent)
    ensures states[0].finSent ==> states[|sent|].finSent
    ensures states[0].synSent ==> states[|sent|].synSent
    ensures states[|sent|].finSent && !states[0].finSent ==> ended && states[|sent|].avail == []
    decreases |sent|
  {
    if sent != [] {
      TraceTail(w, ended, isn, states, sent);
      TracePayloads(w, ended, isn, states[1..], sent[1..]);
      assert states[1..][|sent[1..]|] == states[|sent|];
      if sent[0].seg.header.fin && |sent| > 1 {
        TraceAt(w, ended, isn, states, sent, 1);
        assert false;
      }
    }
  }

  /** In a trace, SYN goes on the first segment iff no SYN was sent before,
      and on no other; FIN goes on at most the last segment, and only if no
      FIN was sent before. */
  lemma {:induction false} TraceFlags(w: nat, ended: bool, isn: u32, states: seq<Filling>, sent: seq<Outstanding>)
    requires Trace(w, ended, isn, states, sent)
    ensures forall i :: 0 <= i < |sent| ==> (sent[i].seg.header.syn <==> i == 0 && !states[0].synSent)
    ensures forall i :: 0 <= i < |sent| ==> sent[i].seg.header.fin ==> i == |sent| - 1 && !states[0].finSent
    decreases |sent|
  {
    if sent != [] {
      TraceTail(w, ended, isn, states, sent);
      TraceFlags(w, ended, isn, states[1..], sent[1..]);
      if sent[0].seg.header.fin && |sent| > 1 {
        TraceAt(w, ended, isn, states, sent, 1);
        assert false;
      }
      forall i | 0 <= i < |sent|
        ensures (sent[i].seg.header.syn <==> i == 0 && !states[0].synSent)
        ensures sent[i].seg.header.fin ==> i == |sent| - 1 && !states[0].finSent
      {
        if i > 0 {
          assert sent[i] == sent[1..][i - 1];
        }
      }
    }
  }

  /** fill_window's segments are contiguous from the old next sequence number
      to the new one, stamped, non-empty and within the payload limit, and
      the bytes in flight grow by exactly their lengths. */
  lemma SendsChain(w: nat, s: Filling, ended: bool, isn: u32)
    ensures var r := Sends(w, s, ended, isn);
      && Chain(r.0, s.next, r.1.next)
      && r.1.bif == s.bif + InFlight(r.0)
      && (forall i :: 0 <= i < |r.0| ==> Stamped(r.0[i], isn) && |r.0[i].seg.payload| <= MAX_PAYLOAD_SIZE)
  {
    var states := SendsTrace(w, s, ended, isn);
    var r := Sends(w, s, ended, isn);
    TraceChain(w, ended, isn, states, r.0);
    ChainSpan(r.0, s.next, r.1.next);
  }

  /** fill_window takes the bytes it sends from the front of the stream, in
      order, and the next sequence number grows by those bytes plus the SYN
      and FIN newly sent. */
  lemma SendsStream(w: nat, s: Filling, ended: bool, isn: u32)
    ensures var r := Sends(w, s, ended, isn);
      && s.avail == Payloads(r.0) + r.1.avail
      && r.1.synSent == (s.synSent || r.0 != [])
      && (r.1.finSent && !s.finSent ==> ended && r.1.avail == [])
      && r.1.next + |r.1.avail| + Bit(s.synSent) + Bit(s.finSent) == s.next + |s.avail| + Bit(r.1.synSent) + Bit(r.1.finSent)
  {
    var states := SendsTrace(w, s, ended, isn);
    var r := Sends(w, s, ended, isn);
    TracePayloads(w, ended, isn, states, r.0);
    TraceChain(w, ended, isn, states, r.0);
  }

  /** fill_window never overfills the window, and stops only once the window
      is full or nothing (payload, SYN or FIN) is left to send. */
  lemma SendsStops(w: nat, s: Filling, ended: bool, isn: u32)
    ensures var r := Sends(w, s, ended, isn);
      && (r.0 != [] ==> r.1.bif <= w)
      && (r.1.bif >= w || (r.1.avail == [] && r.1.synSent && (r.1.finSent || !ended)))
  {
    var states := SendsTrace(w, s, ended, isn);
    TraceChain(w, ended, isn, states, Sends(w, s, ended, isn).0);
  }

  /** fill_window never moves the next sequence number back: it grows by
      exactly the sequence numbers of the segments sent. */
  lemma SendsAdvance(w: nat, s: Filling, ended: bool, isn: u32)
    ensures var r := Sends(w, s, ended, isn); r.1.next == s.next + InFlight(r.0) >= s.next
  {
    SendsChain(w, s, ended, isn);
    var r := Sends(w, s, ended, isn);
    ChainSpan(r.0, s.next, r.1.next);
  }

  /** The SYN goes on the first segment ever sent and on no other, and the FIN
      on at most one segment, the last one that fill_window sends. */
  lemma SendsFlags(w: nat, s: Filling, ended: bool, isn: u32)
    ensures var sent := Sends(w, s, ended, isn).0;
      && (forall i :: 0 <= i < |sent| ==> (sent[i].seg.header.syn <==> i == 0 && !s.synSent))
      && (forall i :: 0 <= i < |sent| ==> sent[i].seg.header.fin ==> i == |sent| - 1 && !s.finSent)
  {
    var states := SendsTrace(w, s, ended, isn);
    TraceFlags(w, ended, isn, states, Sends(w, s, ended, isn).0);
  }

  /** From the state of a sender that has sent nothing, fill_window sends
      at least one segment; the first carries SYN at absolute sequence number
      0, which goes on the wire as the ISN. */
  lemma FirstFillSendsSyn(w: nat, avail: seq<char>, ended: bool, isn: u32)
    requires w >= 1
    ensures var sent := Sends(w, Filling(0, 0, false, false, avail), ended, isn).0;
      sent != [] && sent[0].abs == 0 && sent[0].seg.header.syn && sent[0].seg.header.seqno == isn
  {
    assert NextRound(w, Filling(0, 0, false, false, avail), ended, isn).Send?;
  }

  /** TCPState::state_summary(sender), ERROR first. */
  datatype SenderState = SendError | Closed | SynSent | SynAcked | FinSent | FinAcked

  function SenderSummary(error: bool, next: nat, bif: nat, eof: bool, written: nat): SenderState {
    if error then SendError
    else if next == 0 then Closed
    else if next == bif then SynSent
    else if !eof then SynAcked
    else if next < written + 2 then SynAcked
    else if bif > 0 then FinSent
    else FinAcked
  }

  /** The retransmission timer after ack_received has retired segments
      (lines 90-99): reset to the initial timeout and restarted if any
      segment was retired, stopped if none is left in flight. */
  function AckTimer(t: Timer, retiredAny: bool, noneLeft: bool, rto: nat): Timer {
    var t1 := if retiredAny then Restart(SetTimeOut(t, rto)) else t;
    if noneLeft then Stop(t1) else t1
  }

  /** The sender's state apart from its queue of segments to send and its
      constants: the outstanding segments, the counters, flags and bytes
      `Filling` holds, the window, the retransmission count, the timer,
      and the outbound stream's history and flags. */
  datatype SenderView = SenderView(outstanding: seq<Outstanding>, filling: Filling, window: u16, retx: nat, timer: Timer,
                                   history: seq<char>, ended: bool, error: bool)

  /** What fill_window does to a sender in state `v` with ISN `isn`: the
      segments `Sends` finds are kept as outstanding, the counters and
      flags become those it reaches, and the timer starts if it was not
      running and something was sent; nothing else changes. */
  ghost function FilledView(v: SenderView, isn: u32): SenderView {
    var r := Sends(Max1(v.window), v.filling, v.ended, isn);
    v.(outstanding := v.outstanding + r.0, filling := r.1,
       timer := if r.0 != [] && !v.timer.running then Restart(v.timer) else v.timer)
  }

  /** fill_window keeps the segments outstanding before it in front of
      those it sends, moves the next sequence number forward by exactly
      what it sends, and leaves the window, the retransmission count and
      the outbound stream as they were. */
  lemma FilledViewGrows(v: SenderView, isn: u32)
    ensures var f := FilledView(v, isn);
      && |v.outstanding| <= |f.outstanding| && f.outstanding[..|v.outstanding|] == v.outstanding
      && f.filling.next == v.filling.next + InFlight(f.outstanding[|v.outstanding|..]) >= v.filling.next
      && f.window == v.window && f.retx == v.retx
      && f.history == v.history && f.ended == v.ended && f.error == v.error
  {
    var r := Sends(Max1(v.window), v.filling, v.ended, isn);
    SendsAdvance(Max1(v.window), v.filling, v.ended, isn);
    assert (v.outstanding + r.0)[|v.outstanding|..] == r.0;
  }

  /** Retiring the front segment keeps the invariant over the rest, with
      the front segment's length no longer in flight. */
  lemma FlightTail(os: seq<Outstanding>, bif: nat, next: nat, isn: u32)
    requires FlightChain(os, bif, next, isn) && os != []
    ensures Len(os[0]) <= bif && FlightChain(os[1..], bif - Len(os[0]), next, isn)
  {
    ChainTail(os, next - bif, next);
    forall i | 0 <= i < |os[1..]|
      ensures Stamped(os[1..][i], isn)
    {
      assert os[1..][i] == os[i + 1];
    }
  }

  /** No outstanding segment ends before the front one does. */
  lemma FlightEnds(os: seq<Outstanding>, bif: nat, next: nat, isn: u32)
    requires FlightChain(os, bif, next, isn) && os != []
    ensures forall j :: 0 <= j < |os| ==> os[0].abs + Len(os[0]) <= os[j].abs + Len(os[j])
  {
    forall j | 0 < j < |os|
      ensures os[0].abs + Len(os[0]) <= os[j].abs
    {
      ChainTail(os, next - bif, next);
      ChainBounds(os[1..], next - bif + Len(os[0]), next, j - 1);
      assert os[1..][j - 1] == os[j];
    }
  }

  /** How many segments at the front of `os` the absolute acknowledgment
      number `ackno` covers entirely. */
  ghost function Covered(os: seq<Outstanding>, ackno: nat): (k: nat)
    ensures k <= |os|
    decreases |os|
  {
    if os != [] && os[0].abs + Len(os[0]) <= ackno then 1 + Covered(os[1..], ackno) else 0
  }

  /** The outstanding segments being ascending, the covered front segments
      are exactly the segments the acknowledgment number covers. */
  lemma {:induction false} CoveredExact(os: seq<Outstanding>, bif: nat, next: nat, isn: u32, ackno: nat)
    requires FlightChain(os, bif, next, isn)
    ensures Covered(os, ackno) <= |os|
    ensures forall i :: 0 <= i < Covered(os, ackno) ==> os[i].abs + Len(os[i]) <= ackno
    ensures forall i :: Covered(os, ackno) <= i < |os| ==> ackno < os[i].abs + Len(os[i])
    decreases |os|
  {
    if os != [] {
      FlightEnds(os, bif, next, isn);
      if os[0].abs + Len(os[0]) <= ackno {
        FlightTail(os, bif, next, isn);
        CoveredExact(os[1..], bif - Len(os[0]), next, isn, ackno);
        forall i | 0 < i < |os|
          ensures os[i] == os[1..][i - 1]
        {
        }
      }
    }
  }

  /** The retirement loop of ack_received (lines 78-87): drops from the front
      of the outstanding segments, one by one, those the acknowledgment
      number covers entirely, taking their lengths off the bytes in flight. */
  method RetireAcked(os0: seq<Outstanding>, bif0: nat, next: nat, isn: u32, ackno: nat)
    returns (os: seq<Outstanding>, bif: nat, k: nat)
    requires FlightChain(os0, bif0, next, isn)
    ensures k == Covered(os0, ackno) <= |os0| && os == os0[k..]
    ensures FlightChain(os, bif, next, isn)
  {
    os, bif, k := os0, bif0, 0;
    while os != [] && os[0].abs + Len(os[0]) - 1 < ackno
      invariant k <= |os0| && os == os0[k..] && FlightChain(os, bif, next, isn)
      invariant Covered(os0, ackno) == k + Covered(os, ackno)
      decreases |os|
    {
      FlightTail(os, bif, next, isn);
      bif := bif - Len(os[0]);
      os := os[1..];
      k := k + 1;
    }
  }

  class TCPSender {
    const isn: u32
    const initialRto: nat
    const stream: ByteStream
    var segmentsOut: seq<Segment>
    var outstanding: seq<Outstanding>
    var nextSeqno: nat
    var bytesInFlight: nat
    var windowSize: u16
    var synSent: bool
    var finSent: bool
    var consecutiveRetx: nat
    var timer: Timer
    ghost const Repr: set<object>

    ghost predicate Valid()
      reads this, Repr
      ensures Valid() ==> this in Repr
    {
      && this in Repr && stream in Repr && Repr == {this} + stream.Repr && this !in stream.Repr
      && stream.Valid()
      && FlightChain(outstanding, bytesInFlight, nextSeqno, isn)
      && Accounted(nextSeqno, synSent, finSent, |stream.History| - |stream.Buffered|)
      && (timer.running <==> outstanding != [])
      && timer.timeout == Backoff(initialRto, consecutiveRetx)
    }

    /** The constructor, with the ISN as a parameter. */
    constructor (capacity: nat, retxTimeout: u16, isn: u32)
      ensures Valid() && fresh(Repr)
      ensures this.isn == isn && initialRto == retxTimeout && stream.capacity == capacity
      ensures stream.History == [] && !stream.inputEnded && !stream.errorFlag
      ensures segmentsOut == [] && outstanding == [] && nextSeqno == 0 && bytesInFlight == 0
      ensures windowSize == 1 && !synSent && !finSent && consecutiveRetx == 0
      ensures timer == Timer(false, 0, retxTimeout)
    {
      this.isn := isn;
      initialRto := retxTimeout;
      var s := new ByteStream(capacity);
      stream := s;
      segmentsOut, outstanding := [], [];
      nextSeqno, bytesInFlight, windowSize := 0, 0, 1;
      synSent, finSent, consecutiveRetx := false, false, 0;
      timer := Timer(false, 0, retxTimeout);
      Repr := {this} + s.Repr;
    }

    /** bytes_in_flight(): the sequence numbers the outstanding segments
        occupy, from the oldest one's first to the next sequence number. */
    function BytesInFlight(): (r: nat)
      reads Repr
      requires Valid()
      ensures r == InFlight(outstanding)
      ensures outstanding != [] ==> r == nextSeqno - outstanding[0].abs
      ensures r == 0 <==> outstanding == []
    {
      InFlightEmpty(outstanding, isn);
      bytesInFlight
    }

    /** consecutive_retransmissions(): the current timeout is the initial one
        doubled once per consecutive retransmission. */
    function ConsecutiveRetransmissions(): (r: nat)
      reads Repr
      requires Valid()
      ensures timer.timeout == initialRto * Pow2(r)
    {
      BackoffPow2(initialRto, consecutiveRetx);
      consecutiveRetx
    }

    /** TCPState::state_summary(sender), stated on the sender's flags and
        counters. FIN_SENT and FIN_ACKED need the outbound stream at its
        end: write accepts bytes after end_input, and a sender whose FIN
        went out reports SYN_ACKED again once it has such bytes. */
    function Summary(): (r: SenderState)
      reads Repr
      requires Valid()
      ensures r == SendError <==> stream.errorFlag
      ensures r == Closed <==> !stream.errorFlag && !synSent
      ensures r == SynSent <==> !stream.errorFlag && synSent && bytesInFlight == nextSeqno
      ensures r == SynSent ==> synSent && outstanding != [] && outstanding[0].abs == 0
      ensures r == SynAcked <==> && !stream.errorFlag && synSent && bytesInFlight < nextSeqno
                                 && !(finSent && stream.inputEnded && stream.Buffered == [])
      ensures r == FinSent <==> && !stream.errorFlag && finSent && stream.inputEnded && stream.Buffered == []
                                && outstanding != [] && bytesInFlight < nextSeqno
      ensures r == FinAcked <==> !stream.errorFlag && finSent && stream.inputEnded && stream.Buffered == [] && outstanding == []
      ensures r == FinAcked ==> synSent && finSent && outstanding == [] && stream.inputEnded && stream.Buffered == []
    {
      InFlightEmpty(outstanding, isn);
      SenderSummary(stream.errorFlag, nextSeqno, bytesInFlight, stream.Eof(), stream.BytesWritten())
    }

    /** One round of the fill_window loop (lines 31-52): builds a segment
        with SYN if none was sent, reads its payload from the stream and
        adds FIN if the stream then is at its end and the FIN fits the
        window; `stop` when the segment occupies no sequence space. */
    method BuildSegment(w: nat, bif: nat, next: nat, syn0: bool, fin0: bool, ghost cur: Filling) returns (stop: bool, o: Outstanding)
      requires stream.Valid() && bif < w && cur == Filling(bif, next, syn0, fin0, stream.Buffered)
      modifies stream.Repr
      ensures stream.Valid() && stream.History == old(stream.History)
      ensures stream.inputEnded == old(stream.inputEnded) && stream.errorFlag == old(stream.errorFlag)
      ensures var r := NextRound(w, cur, stream.inputEnded, isn);
        && (stop <==> r.Done?)
        && (stop ==> stream.Buffered == old(stream.Buffered))
        && (!stop ==> r == Send(o, Filling(bif + Len(o), next + Len(o), true, fin0 || o.seg.header.fin, stream.Buffered)))
    {
      var syn := !syn0;
      var size := PayloadSize(w, bif, syn, stream.BufferSize());
      var payload := stream.Read(size);
      var fin := !fin0 && stream.Eof() && bif + |payload| + Bit(syn) < w;
      o := Outstanding(next, Segment(EmptyHeader.(seqno := Wrap(next, isn), syn := syn, fin := fin), payload));
      stop := Len(o) == 0;
      RoundStep(w, bif, next, syn0, fin0, old(stream.Buffered), stream.inputEnded, isn, o, stream.Buffered, stop);
    }

    /** The loop of fill_window (lines 30-67): returns the segments built,
        the state reached, the timer and, as a ghost, the states between
        the rounds. */
    method SendRounds(w: nat)
      returns (sent: seq<Outstanding>, bif: nat, next: nat, syn0: bool, fin0: bool, t: Timer, ghost states: seq<Filling>)
      requires stream.Valid() && this !in stream.Repr
      modifies stream.Repr
      ensures stream.Valid() && stream.History == old(stream.History)
      ensures stream.inputEnded == old(stream.inputEnded) && stream.errorFlag == old(stream.errorFlag)
      ensures Trace(w, stream.inputEnded, isn, states, sent)
      ensures states[0] == old(Filling(bytesInFlight, nextSeqno, synSent, finSent, stream.Buffered))
      ensures states[|sent|] == Filling(bif, next, syn0, fin0, stream.Buffered)
      ensures NextRound(w, states[|sent|], stream.inputEnded, isn).Done?
      ensures t == if sent != [] && !timer.running then Restart(timer) else timer
    {
      syn0, fin0, next, bif, t := synSent, finSent, nextSeqno, bytesInFlight, timer;
      sent := [];
      ghost var ended := stream.inputEnded;
      ghost var start := Filling(bif, next, syn0, fin0, stream.Buffered);
      states := [start];
      while bif < w
        modifies stream.Repr
        invariant stream.Valid() && stream.History == old(stream.History)
        invariant stream.inputEnded == ended && stream.errorFlag == old(stream.errorFlag)
        invariant Trace(w, ended, isn, states, sent) && states[0] == start
        invariant states[|sent|] == Filling(bif, next, syn0, fin0, stream.Buffered)
        invariant t == if sent != [] && !timer.running then Restart(timer) else timer
        decreases w - bif
      {
        var stop, o := BuildSegment(w, bif, next, syn0, fin0, states[|sent|]);
        if stop {
          break;
        }
        if !t.running {
          t := Restart(t);
        }
        ghost var nxt := Filling(bif + Len(o), next + Len(o), true, fin0 || o.seg.header.fin, stream.Buffered);
        TraceSnoc(w, ended, isn, states, sent, o, nxt);
        assert (states + [nxt])[0] == start;
        sent := sent + [o];
        syn0, fin0 := true, fin0 || o.seg.header.fin;
        next, bif := next + Len(o), bif + Len(o);
        states := states + [nxt];
        assert bif == nxt.bif && next == nxt.next && fin0 == nxt.finSent && stream.Buffered == nxt.avail;
      }
    }

    /** The rounds of fill_window as `Sends` describes them, ending in a
        state fill_window stops in (`FillEnd`). */
    method RunRounds() returns (sent: seq<Outstanding>, bif: nat, next: nat, syn: bool, fin: bool, t: Timer)
      requires stream.Valid() && this !in stream.Repr
      requires FlightChain(outstanding, bytesInFlight, nextSeqno, isn)
      requires Accounted(nextSeqno, synSent, finSent, |stream.History| - |stream.Buffered|)
      requires timer.running <==> outstanding != []
      modifies stream.Repr
      ensures stream.Valid() && stream.History == old(stream.History)
      ensures stream.inputEnded == old(stream.inputEnded) && stream.errorFlag == old(stream.errorFlag)
      ensures (t.running <==> outstanding + sent != []) && t.timeout == timer.timeout
      ensures old(FillFrom(stream.Buffered, stream.inputEnded)) == (sent, Filling(bif, next, syn, fin, stream.Buffered))
      ensures FillEnd(Max1(windowSize), stream.inputEnded, isn, outstanding, sent, |stream.History|, Filling(bif, next, syn, fin, stream.Buffered))
      ensures t == if sent != [] && !timer.running then Restart(timer) else timer
    {
      var w := Max1(windowSize);
      ghost var states;
      sent, bif, next, syn, fin, t, states := SendRounds(w);
      FillFacts(w, stream.inputEnded, isn, states, sent, outstanding, |stream.History|);
    }

    /** The rounds of fill_window as `Sends` describes them, with the
        segments built extending the outstanding chain and the stopping
        condition written out. */
    method Fill() returns (sent: seq<Outstanding>, bif: nat, next: nat, syn: bool, fin: bool, t: Timer)
      requires stream.Valid() && this !in stream.Repr
      requires FlightChain(outstanding, bytesInFlight, nextSeqno, isn)
      requires Accounted(nextSeqno, synSent, finSent, |stream.History| - |stream.Buffered|)
      requires timer.running <==> outstanding != []
      modifies stream.Repr
      ensures stream.Valid() && stream.History == old(stream.History)
      ensures stream.inputEnded == old(stream.inputEnded) && stream.errorFlag == old(stream.errorFlag)
      ensures (t.running <==> outstanding + sent != []) && t.timeout == timer.timeout
      ensures old(FillFrom(stream.Buffered, stream.inputEnded)) == (sent, Filling(bif, next, syn, fin, stream.Buffered))
      ensures FlightChain(outstanding + sent, bif, next, isn)
      ensures Accounted(next, syn, fin, |stream.History| - |stream.Buffered|)
      ensures bif >= Max1(windowSize) || (stream.Buffered == [] && syn && (fin || !stream.inputEnded))
      ensures t == if sent != [] && !timer.running then Restart(timer) else timer
    {
      sent, bif, next, syn, fin, t := RunRounds();
      FillEndParts(Max1(windowSize), stream.inputEnded, isn, outstanding, sent, |stream.History|, bif, next, syn, fin, stream.Buffered);
    }

    /** fill_window(): sends segments while the bytes in flight are below the
        window (a zero window counts as one) and a non-empty segment can be
        built; the segments sent and the state reached are those of `Sends`. */
    method FillWindow()
      requires Valid()
      modifies Repr
      ensures Valid() && FilledAs()
      ensures bytesInFlight >= Max1(windowSize) || (stream.Buffered == [] && synSent && (finSent || !stream.inputEnded))
      ensures View() == old(FilledView(View(), isn))
    {
      var sent, bif, next, syn, fin, t := Fill();
      Commit(outstanding + sent, segmentsOut + Segs(sent), bif, next, syn, fin, t);
    }

    /** The assignments that end fill_window: the new outstanding segments,
        queue, counters and timer, which keep the invariant. */
    method Commit(os: seq<Outstanding>, queue: seq<Segment>, bif: nat, next: nat, syn: bool, fin: bool, t: Timer)
      requires this in Repr && stream in Repr && Repr == {this} + stream.Repr && this !in stream.Repr
      requires stream.Valid()
      requires FlightChain(os, bif, next, isn)
      requires Accounted(next, syn, fin, |stream.History| - |stream.Buffered|)
      requires t.running <==> os != []
      requires t.timeout == Backoff(initialRto, consecutiveRetx)
      modifies this
      ensures Valid()
      ensures outstanding == os && segmentsOut == queue
      ensures bytesInFlight == bif && nextSeqno == next && synSent == syn && finSent == fin && timer == t
      ensures windowSize == old(windowSize) && consecutiveRetx == old(consecutiveRetx)
    {
      segmentsOut, outstanding, synSent, finSent, nextSeqno, bytesInFlight, timer
        := queue, os, syn, fin, next, bif, t;
    }

    /** The state ack_received leaves before it calls fill_window (lines
        78-102): the segments kept, the bytes in flight, the retransmission
        count, the timer and the window. */
    method CommitAck(os: seq<Outstanding>, bif: nat, retired: bool, t: Timer, win: u16)
      requires Valid()
      requires FlightChain(os, bif, nextSeqno, isn)
      requires t.running <==> os != []
      requires t.timeout == if retired then initialRto else timer.timeout
      modifies this
      ensures Valid()
      ensures outstanding == os && bytesInFlight == bif && timer == t && windowSize == win
      ensures consecutiveRetx == if retired then 0 else old(consecutiveRetx)
      ensures segmentsOut == old(segmentsOut) && nextSeqno == old(nextSeqno)
      ensures synSent == old(synSent) && finSent == old(finSent)
    {
      outstanding, bytesInFlight, timer, windowSize := os, bif, t, win;
      if retired {
        consecutiveRetx := 0;
      }
    }

    /** The transition of fill_window(): the segments `FillFrom` finds for
        the state before are sent, queued and kept as outstanding, and the
        state reached is the one it finds. */
    twostate predicate FilledAs()
      reads this, stream
    {
      var r := old(FillFrom(stream.Buffered, stream.inputEnded));
      && windowSize == old(windowSize) && consecutiveRetx == old(consecutiveRetx)
      && stream.History == old(stream.History)
      && stream.inputEnded == old(stream.inputEnded) && stream.errorFlag == old(stream.errorFlag)
      && outstanding == old(outstanding) + r.0
      && segmentsOut == old(segmentsOut) + Segs(r.0)
      && Filling(bytesInFlight, nextSeqno, synSent, finSent, stream.Buffered) == r.1
      && timer == if r.0 != [] && !old(timer).running then Restart(old(timer)) else old(timer)
    }

    /** What tick(ms) queues again: the oldest outstanding segment,
        unchanged, when the timer advanced by ms has expired and a segment
        is outstanding; nothing otherwise. */
    function Retransmitted(ms: nat): (r: seq<Segment>)
      reads this
      ensures |r| <= 1 && (r != [] <==> TimedOut(TickTimer(timer, ms)) && outstanding != [])
      ensures r != [] ==> r[0] == outstanding[0].seg
    {
      if TimedOut(TickTimer(timer, ms)) && outstanding != [] then [outstanding[0].seg] else []
    }

    /** The transition of tick(ms), apart from the queue: on a
        retransmission the timer is restarted, and with a nonzero window
        the retransmission count also grows by one and the timeout doubles
        (a zero window makes the retransmission a window probe); otherwise
        the timer only advances. Nothing in flight changes. */
    twostate predicate RetimedAs(ms: nat)
      reads this
    {
      && (var t := TickTimer(old(timer), ms);
          if old(Retransmitted(ms)) != [] then
            && consecutiveRetx == old(consecutiveRetx) + (if windowSize > 0 then 1 else 0)
            && timer == Restart(if windowSize > 0 then SetTimeOut(t, 2 * t.timeout) else t)
          else
            consecutiveRetx == old(consecutiveRetx) && timer == t)
      && outstanding == old(outstanding) && nextSeqno == old(nextSeqno) && bytesInFlight == old(bytesInFlight)
      && windowSize == old(windowSize) && synSent == old(synSent) && finSent == old(finSent)
    }

    /** What fill_window would send from the current state if the stream
        held `avail` and had `ended` as its end-of-input flag, and the state
        it would reach. */
    ghost function FillFrom(avail: seq<char>, ended: bool): (seq<Outstanding>, Filling)
      reads this
    {
      Sends(Max1(windowSize), Filling(bytesInFlight, nextSeqno, synSent, finSent, avail), ended, isn)
    }

    /** What ack_received(ackno, win) sends: nothing for an acknowledgment
        beyond the next sequence number; otherwise what fill_window sends
        once the covered segments are retired and the window recorded. */
    ghost function AckSent(ackno: u32, win: u16): seq<Outstanding>
      reads this, stream
    {
      var abs := Unwrap(ackno, isn, nextSeqno);
      if abs > nextSeqno then []
      else
        var kept := outstanding[Covered(outstanding, abs)..];
        Sends(Max1(win), Filling(InFlight(kept), nextSeqno, synSent, finSent, stream.Buffered), stream.inputEnded, isn).0
    }

    /** The counters, flags and buffered bytes ack_received(ackno, win)
        leaves: as they are for an acknowledgment beyond the next sequence
        number, otherwise those fill_window reaches once the covered
        segments are retired. */
    ghost function AckFilling(ackno: u32, win: u16): Filling
      reads this, stream
    {
      AckView(ackno, win).filling
    }

    /** The state summary of the sender once ack_received(ackno, win) has run. */
    ghost function AckSummary(ackno: u32, win: u16): SenderState
      reads this, stream
    {
      var f := AckFilling(ackno, win);
      SenderSummary(stream.errorFlag, f.next, f.bif, stream.inputEnded && f.avail == [], |stream.History|)
    }

    /** What a further fill_window would send once ack_received(ackno, win)
        has run, with the window it recorded (the old one for an ignored
        acknowledgment). */
    ghost function AckFill(ackno: u32, win: u16): seq<Outstanding>
      reads this, stream
    {
      var v := AckView(ackno, win);
      Sends(Max1(v.window), v.filling, v.ended, isn).0
    }

    /** The sender's state as `SenderView` records it. */
    ghost function View(): SenderView
      reads this, stream
    {
      SenderView(outstanding, Filling(bytesInFlight, nextSeqno, synSent, finSent, stream.Buffered), windowSize,
                 consecutiveRetx, timer, stream.History, stream.inputEnded, stream.errorFlag)
    }

    /** The sender's state once ack_received(ackno, win) has run: as it is
        for an acknowledgment beyond the next sequence number; otherwise
        the segments the acknowledgment covers entirely are retired, the
        retransmission count is reset if any was, the timer follows
        `AckTimer`, the window is recorded, and fill_window runs from
        there. */
    ghost function AckView(ackno: u32, win: u16): SenderView
      reads this, stream
    {
      var abs := Unwrap(ackno, isn, nextSeqno);
      if abs > nextSeqno then View()
      else
        var k := Covered(outstanding, abs);
        var kept := outstanding[k..];
        FilledView(View().(outstanding := kept, filling := Filling(InFlight(kept), nextSeqno, synSent, finSent, stream.Buffered),
                           window := win, retx := if k > 0 then 0 else consecutiveRetx,
                           timer := AckTimer(timer, k > 0, kept == [], initialRto)), isn)
    }

    /** ack_received(ackno, win) never moves the next sequence number back
        nor touches the outbound stream's history and flags; an
        acknowledgment it does not ignore records the window and keeps the
        segments it does not cover entirely in front, in their order. */
    lemma AckViewKeeps(ackno: u32, win: u16)
      ensures var v := AckView(ackno, win);
        && v.filling.next >= nextSeqno
        && v.history == stream.History && v.ended == stream.inputEnded && v.error == stream.errorFlag
      ensures var abs := Unwrap(ackno, isn, nextSeqno);
        abs <= nextSeqno ==>
          var v, kept := AckView(ackno, win), outstanding[Covered(outstanding, abs)..];
          && v.window == win && |kept| <= |v.outstanding| && v.outstanding[..|kept|] == kept
    {
      var abs := Unwrap(ackno, isn, nextSeqno);
      if abs <= nextSeqno {
        var k := Covered(outstanding, abs);
        var kept := outstanding[k..];
        FilledViewGrows(View().(outstanding := kept, filling := Filling(InFlight(kept), nextSeqno, synSent, finSent, stream.Buffered),
                                window := win, retx := if k > 0 then 0 else consecutiveRetx,
                                timer := AckTimer(timer, k > 0, kept == [], initialRto)), isn);
      }
    }

    /** An acknowledgment never moves the next sequence number back, so a
        sender that has left CLOSED is not CLOSED after ack_received, which
        is the state segment_received goes on to read. */
    lemma AckKeepsOpen(ackno: u32, win: u16)
      requires Valid() && Summary() != Closed
      ensures AckFilling(ackno, win).next >= nextSeqno
      ensures AckSummary(ackno, win) != Closed
    {
      var abs := Unwrap(ackno, isn, nextSeqno);
      if abs <= nextSeqno {
        var kept := outstanding[Covered(outstanding, abs)..];
        SendsAdvance(Max1(win), Filling(InFlight(kept), nextSeqno, synSent, finSent, stream.Buffered), stream.inputEnded, isn);
      }
      assert stream.errorFlag || synSent;
      assert stream.errorFlag || nextSeqno > 0;
    }

    /** The transition of ack_received(ackno, win), from the state before
        the call to the one after it. */
    twostate predicate AckedAs(ackno: u32, win: u16)
      reads this, stream, Repr
    {
      && stream.History == old(stream.History)
      && stream.inputEnded == old(stream.inputEnded) && stream.errorFlag == old(stream.errorFlag)
      && (Unwrap(ackno, isn, old(nextSeqno)) > old(nextSeqno) ==> unchanged(Repr))
      && var abs := Unwrap(ackno, isn, old(nextSeqno));
        abs <= old(nextSeqno) ==>
          var k := Covered(old(outstanding), abs);
          var kept := old(outstanding)[k..];
          var t1 := AckTimer(old(timer), k > 0, kept == [], initialRto);
          var r := Sends(Max1(win), Filling(InFlight(kept), old(nextSeqno), old(synSent), old(finSent), old(stream.Buffered)),
                         old(stream.inputEnded), isn);
          && windowSize == win
          && consecutiveRetx == (if k > 0 then 0 else old(consecutiveRetx))
          && outstanding == kept + r.0
          && segmentsOut == old(segmentsOut) + Segs(r.0)
          && Filling(bytesInFlight, nextSeqno, synSent, finSent, stream.Buffered) == r.1
          && timer == if r.0 != [] && !t1.running then Restart(t1) else t1
    }

    /** ack_received(ackno, window): an acknowledgment beyond the next
        sequence number is ignored, window included. Otherwise the
        segments it covers entirely are retired (`Covered`), the timer
        follows `AckTimer`, the window is recorded and fill_window runs
        from the state so reached. */
    method AckReceived(ackno: u32, win: u16)
      requires Valid()
      modifies Repr
      ensures Valid() && AckedAs(ackno, win)
      ensures View() == old(AckView(ackno, win))
    {
      var abs := Unwrap(ackno, isn, nextSeqno);
      if abs > nextSeqno {
        return;
      }
      ghost var k := Covered(outstanding, abs);
      ghost var kept := outstanding[k..];
      ghost var retired := View().(outstanding := kept, filling := Filling(InFlight(kept), nextSeqno, synSent, finSent, stream.Buffered),
                                   window := win, retx := if k > 0 then 0 else consecutiveRetx,
                                   timer := AckTimer(timer, k > 0, kept == [], initialRto));
      AckRetire(abs, win);
      assert View() == retired by {
        assert bytesInFlight == BytesInFlight();
      }
      FillWindow();
    }

    /** Lines 75-102 of ack_received: retires the segments `abs` covers
        entirely, updates the retransmission count and the timer, and
        records the window. */
    method AckRetire(abs: nat, win: u16)
      requires Valid()
      modifies this
      ensures Valid()
      ensures var k := Covered(old(outstanding), abs);
        && outstanding == old(outstanding)[k..]
        && consecutiveRetx == (if k > 0 then 0 else old(consecutiveRetx))
        && timer == AckTimer(old(timer), k > 0, outstanding == [], initialRto)
      ensures windowSize == win && segmentsOut == old(segmentsOut) && nextSeqno == old(nextSeqno)
      ensures synSent == old(synSent) && finSent == old(finSent)
    {
      var os, bif, n := RetireAcked(outstanding, bytesInFlight, nextSeqno, isn, abs);
      InFlightEmpty(os, isn);
      assert n == 0 ==> os == outstanding;
      var t := AckTimer(timer, n > 0, bif == 0, initialRto);
      assert t.running == ((n > 0 || timer.running) && bif != 0);
      CommitAck(os, bif, n > 0, t, win);
    }

    /** tick(ms): queues `Retransmitted(ms)` and moves the timer as
        `RetimedAs` describes it. */
    method Tick(ms: nat)
      requires Valid()
      modifies this
      ensures Valid() && RetimedAs(ms)
      ensures segmentsOut == old(segmentsOut) + old(Retransmitted(ms))
    {
      timer := TickTimer(timer, ms);
      if TimedOut(timer) && outstanding != [] {
        segmentsOut := segmentsOut + [outstanding[0].seg];
        if windowSize > 0 {
          consecutiveRetx := consecutiveRetx + 1;
          timer := SetTimeOut(timer, timer.timeout * 2);
        }
        timer := Restart(timer);
      }
    }

    /** Nothing but the queue of segments to send differs from the state
        before. */
    twostate predicate QueueOnly()
      reads this
    {
      && outstanding == old(outstanding) && nextSeqno == old(nextSeqno) && bytesInFlight == old(bytesInFlight)
      && windowSize == old(windowSize) && consecutiveRetx == old(consecutiveRetx) && timer == old(timer)
      && synSent == old(synSent) && finSent == old(finSent)
    }

    /** send_empty_segment(): queues a segment without payload or flags at
        the next sequence number; it occupies no sequence space and is not
        kept as outstanding. */
    method SendEmptySegment()
      requires Valid()
      modifies this
      ensures Valid()
      ensures segmentsOut == old(segmentsOut) + [Segment(EmptyHeader.(seqno := Wrap(nextSeqno, isn)), [])]
      ensures LengthInSequenceSpace(segmentsOut[|segmentsOut| - 1]) == 0
      ensures QueueOnly()
    {
      segmentsOut := segmentsOut + [Segment(EmptyHeader.(seqno := Wrap(nextSeqno, isn)), [])];
    }

    /** segments_out().pop(): the owner takes the oldest queued segment. */
    method PopSegment() returns (seg: Segment)
      requires Valid() && segmentsOut != []
      modifies this
      ensures Valid()
      ensures seg == old(segmentsOut)[0] && segmentsOut == old(segmentsOut)[1..]
      ensures QueueOnly()
    {
      seg := segmentsOut[0];
      segmentsOut := segmentsOut[1..];
    }

    /** stream_in().write(data): the bytes accepted join the outbound
        stream; the sender's own state is untouched. */
    method WriteStream(data: seq<char>) returns (n: nat)
      requires Valid()
      modifies stream.Repr
      ensures Valid()
      ensures n == Min(|data|, stream.capacity - |old(stream.Buffered)|)
      ensures stream.History == old(stream.History) + data[..n] && stream.Buffered == old(stream.Buffered) + data[..n]
      ensures stream.inputEnded == old(stream.inputEnded) && stream.errorFlag == old(stream.errorFlag)
    {
      n := stream.Write(data);
    }

    /** stream_in().end_input(). */
    method EndInput()
      requires Valid()
      modifies stream
      ensures Valid() && stream.inputEnded
      ensures stream.History == old(stream.History) && stream.Buffered == old(stream.Buffered)
      ensures stream.errorFlag == old(stream.errorFlag)
    {
      stream.EndInput();
    }

    /** stream_in().set_error(). */
    method SetStreamError()
      requires Valid()
      modifies stream
      ensures Valid() && stream.errorFlag
      ensures stream.History == old(stream.History) && stream.Buffered == old(stream.Buffered)
      ensures stream.inputEnded == old(stream.inputEnded)
    {
      stream.SetError();
    }
  }

  /** Appending the segments of a trace to the outstanding segments keeps
      the sender's invariant over them. */
  lemma FillKeepsChain(w: nat, ended: bool, isn: u32, states: seq<Filling>, sent: seq<Outstanding>, os: seq<Outstanding>)
    requires Trace(w, ended, isn, states, sent)
    requires FlightChain(os, states[0].bif, states[0].next, isn)
    ensures FlightChain(os + sent, states[|sent|].bif, states[|sent|].next, isn)
  {
    var first, last := states[0], states[|sent|];
    TraceChain(w, ended, isn, states, sent);
    ChainSpan(sent, first.next, last.next);
    ChainConcat(os, sent, first.next - first.bif, first.next, last.next);
    InFlightConcat(os, sent);
    forall i | 0 <= i < |os + sent|
      ensures Stamped((os + sent)[i], isn)
    {
      if i >= |os| {
        assert (os + sent)[i] == sent[i - |os|];
      }
    }
  }

  /** The state fill_window stops in: the segments sent after the
      outstanding ones `os` extend their chain up to state e, the
      sequence-number accounting holds in e, and e is a stopping state,
      the window full or nothing left to send. */
  ghost predicate FillEnd(w: nat, ended: bool, isn: u32, os: seq<Outstanding>, sent: seq<Outstanding>, written: nat, e: Filling) {
    && FlightChain(os + sent, e.bif, e.next, isn)
    && Accounted(e.next, e.synSent, e.finSent, written - |e.avail|)
    && (e.bif >= w || (e.avail == [] && e.synSent && (e.finSent || !ended)))
  }

  /** The parts of a `FillEnd` for a stopping state given field by field. */
  lemma FillEndParts(w: nat, ended: bool, isn: u32, os: seq<Outstanding>, sent: seq<Outstanding>, written: nat,
                     bif: nat, next: nat, syn: bool, fin: bool, avail: seq<char>)
    requires FillEnd(w, ended, isn, os, sent, written, Filling(bif, next, syn, fin, avail))
    ensures FlightChain(os + sent, bif, next, isn)
    ensures Accounted(next, syn, fin, written - |avail|)
    ensures bif >= w || (avail == [] && syn && (fin || !ended))
  {
  }

  /** What fill_window's loop establishes, given the trace of its rounds:
      its segments are the ones `Sends` computes and the state it stops in
      is a `FillEnd`. */
  lemma FillFacts(w: nat, ended: bool, isn: u32, states: seq<Filling>, sent: seq<Outstanding>, os: seq<Outstanding>, written: nat)
    requires Trace(w, ended, isn, states, sent) && NextRound(w, states[|sent|], ended, isn).Done?
    requires FlightChain(os, states[0].bif, states[0].next, isn)
    requires Accounted(states[0].next, states[0].synSent, states[0].finSent, written - |states[0].avail|)
    ensures Sends(w, states[0], ended, isn) == (sent, states[|sent|])
    ensures FillEnd(w, ended, isn, os, sent, written, states[|sent|])
    ensures sent != [] ==> os + sent != []
  {
    TraceSends(w, ended, isn, states, sent);
    FillKeepsChain(w, ended, isn, states, sent, os);
    FillKeepsAccounted(w, ended, isn, states, sent, written);
    assert sent != [] ==> |os + sent| != 0;
  }

  /** The rounds of a trace keep the sequence-number accounting of the
      bytes read from the stream. */
  lemma FillKeepsAccounted(w: nat, ended: bool, isn: u32, states: seq<Filling>, sent: seq<Outstanding>, written: nat)
    requires Trace(w, ended, isn, states, sent)
    requires Accounted(states[0].next, states[0].synSent, states[0].finSent, written - |states[0].avail|)
    ensures Accounted(states[|sent|].next, states[|sent|].synSent, states[|sent|].finSent, written - |states[|sent|].avail|)
  {
    TracePayloads(w, ended, isn, states, sent);
    TraceChain(w, ended, isn, states, sent);
  }
}
