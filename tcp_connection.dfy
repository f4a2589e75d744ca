/**
 * The TCP connection (libsponge/tcp_connection.cc): joins a sender and a
 * receiver. Every segment the sender queues moves to the connection's own
 * queue with the receiver's acknowledgment number and window stamped on it;
 * the connection decides when to connect, when to answer with an empty
 * acknowledgment, when to reset, and when it stops being active.
 */
module TCPConnections {
  import opened Options
  import opened WrappingIntegers
  import opened ByteStreams
  import opened TCPSegments
  import opened TCPReceivers
  import opened TCPSenders

  /** Lines 168-172: a segment leaving the connection carries the receiver's
      acknowledgment number, with ACK set, once there is one, and the window
      capped at 65535; nothing else about it changes. */
  function Stamp(seg: Segment, ackno: Option<u32>, window: nat): (r: Segment)
    ensures r.payload == seg.payload && LengthInSequenceSpace(r) == LengthInSequenceSpace(seg)
    ensures r.header.seqno == seg.header.seqno && r.header.rst == seg.header.rst
    ensures r.header.ack <==> seg.header.ack || ackno.Some?
    ensures ackno.Some? ==> r.header.ackno == ackno.value
    ensures ackno.None? ==> r.header == seg.header.(win := r.header.win)
    ensures r.header.win <= window && (r.header.win == window || r.header.win == U16_MAX)
  {
    var h := if ackno.Some? then seg.header.(ack := true, ackno := ackno.value) else seg.header;
    Segment(h.(win := if window < U16_MAX then window else U16_MAX), seg.payload)
  }

  /** The segments of a queue, each stamped, in their order. */
  function StampAll(segs: seq<Segment>, ackno: Option<u32>, window: nat): (r: seq<Segment>)
    ensures |r| == |segs|
  {
    if segs == [] then [] else [Stamp(segs[0], ackno, window)] + StampAll(segs[1..], ackno, window)
  }

  /** The i-th segment moved out is the i-th segment queued, stamped. */
  lemma {:induction false} StampAllAt(segs: seq<Segment>, ackno: Option<u32>, window: nat, i: nat)
    requires i < |segs|
    ensures StampAll(segs, ackno, window)[i] == Stamp(segs[i], ackno, window)
  {
    if i > 0 {
      StampAllAt(segs[1..], ackno, window, i - 1);
    }
  }

  /** Moving two queues one after the other moves their concatenation. */
  lemma {:induction false} StampAllConcat(a: seq<Segment>, b: seq<Segment>, ackno: Option<u32>, window: nat)
    ensures StampAll(a + b, ackno, window) == StampAll(a, ackno, window) + StampAll(b, ackno, window)
  {
    if a == [] {
      assert a + b == b;
    } else {
      assert (a + b)[0] == a[0] && (a + b)[1..] == a[1..] + b;
      StampAllConcat(a[1..], b, ackno, window);
      calc {
        StampAll(a + b, ackno, window);
        [Stamp(a[0], ackno, window)] + StampAll(a[1..] + b, ackno, window);
        [Stamp(a[0], ackno, window)] + (StampAll(a[1..], ackno, window) + StampAll(b, ackno, window));
        ([Stamp(a[0], ackno, window)] + StampAll(a[1..], ackno, window)) + StampAll(b, ackno, window);
      }
    }
  }

  /** Moving the front segment of a queue, stamped, to the end of another
      keeps the two together as they were. */
  lemma StampMoved(done: seq<Segment>, q: seq<Segment>, ackno: Option<u32>, window: nat)
    requires q != []
    ensures (done + [Stamp(q[0], ackno, window)]) + StampAll(q[1..], ackno, window) == done + StampAll(q, ackno, window)
  {
  }

  /** Lines 152-154: the reset segment, at the given sequence number, with
      RST as its only flag and no payload. */
  function RstSegment(seqno: u32): (r: Segment)
    ensures r.header.rst && !r.header.syn && !r.header.fin && !r.header.ack
    ensures r.header.seqno == seqno && LengthInSequenceSpace(r) == 0
  {
    Segment(EmptyHeader.(seqno := seqno, rst := true), [])
  }

  /** Lines 72-73: a keep-alive occupies no sequence space and carries the
      sequence number one below the acknowledgment number. */
  predicate KeepAlive(seg: Segment, ackno: Option<u32>) {
    ackno.Some? && LengthInSequenceSpace(seg) == 0 && seg.header.seqno == Minus(ackno.value, 1)
  }

  /** Once an acknowledgment number wraps absolute sequence number a >= 1, a
      segment is a keep-alive exactly if it is empty and starts at absolute
      sequence number a - 1, the byte before the one expected next. */
  lemma KeepAliveIsOneBelow(seg: Segment, isn: u32, a: nat)
    requires a >= 1
    ensures KeepAlive(seg, Some(Wrap(a, isn))) <==> LengthInSequenceSpace(seg) == 0 && seg.header.seqno == Wrap(a - 1, isn)
  {
    var s := isn + a;
    assert Minus(Wrap(a, isn), 1) == (s % TWO32 - 1) % TWO32;
    assert (s % TWO32 - 1) % TWO32 == (s - 1) % TWO32 by {
      var q := s / TWO32;
      assert s - 1 == (s % TWO32 - 1) + q * TWO32;
    }
  }

  /** A connection whose receiver has an acknowledgment number answers a
      keep-alive it receives with an acknowledgment for it: the empty segment
      queued, once stamped, acknowledges the next expected byte. */
  lemma StampedEmptyAcks(next: u32, ackno: Option<u32>, window: nat)
    requires ackno.Some?
    ensures var r := Stamp(Segment(EmptyHeader.(seqno := next), []), ackno, window);
      && r.header.ack && r.header.ackno == ackno.value && LengthInSequenceSpace(r) == 0
  {
  }

  /** On a connection that has sent nothing, the first segment connect()
      moves out is the SYN at the ISN, carrying the receiver's
      acknowledgment number once there is one. */
  lemma {:induction false} FirstConnectSendsSyn(w: nat, avail: seq<char>, ended: bool, isn: u32, ackno: Option<u32>, window: nat)
    requires w >= 1
    ensures var out := StampAll(Segs(Sends(w, Filling(0, 0, false, false, avail), ended, isn).0), ackno, window);
      && out != [] && out[0].header.syn && out[0].header.seqno == isn
      && (ackno.Some? ==> out[0].header.ack && out[0].header.ackno == ackno.value)
  {
    FirstFillSendsSyn(w, avail, ended, isn);
    var sent := Sends(w, Filling(0, 0, false, false, avail), ended, isn).0;
    assert Segs(sent) == [sent[0].seg] + Segs(sent[1..]);
    StampAllAt(Segs(sent), ackno, window, 0);
  }

  /** The empty segment send_empty_segment queues at `next`. */
  function EmptySegment(next: nat, isn: u32): (r: Segment)
    ensures LengthInSequenceSpace(r) == 0 && r.header.seqno == Wrap(next, isn)
    ensures !r.header.rst && !r.header.ack
  {
    Segment(EmptyHeader.(seqno := Wrap(next, isn)), [])
  }

  /** The connection's queue of outgoing segments and its linger and
      active flags, as one value. */
  datatype Outbox = Outbox(queue: seq<Segment>, linger: bool, active: bool)

  /** What the connection reads of its receiver and sender once both have
      seen a segment: the receiver's state, its ackno and window, and the
      sender's next absolute sequence number and ISN. */
  datatype PeerView = PeerView(recv: ReceiverState, ackno: Option<u32>, window: nat, next: nat, isn: u32)

  /** What lines 50-83 of segment_received do, given what the ACK stage
      left: `need` (lines 39-47), the segments ack_received queued, the
      sender's state summary after it, and what fill_window would send
      from there; `peers` is what the connection then reads of its receiver
      and sender, and `pre` and `post` are its queue and flags when the
      segment arrived and once it is handled.
      - A SYN received while the sender is closed connects (lines 51-55): the
        first segment sent is the SYN at the ISN, and everything queued
        moves out stamped.
      - Otherwise a FIN received while the sender's SYN is acknowledged
        turns lingering off (lines 58-61); without lingering, a FIN
        received and a FIN acknowledged end the connection, sending
        nothing (lines 64-69).
      - Otherwise an empty segment is queued when one is needed or the
        segment is a keep-alive (lines 72-80), and everything queued moves
        out stamped (line 82). */
  ghost predicate ReactedAs(seg: Segment, need: bool, queued: seq<Segment>, midSend: SenderState, fill: seq<Outstanding>,
                            peers: PeerView, pre: Outbox, post: Outbox)
  {
    if peers.recv == SynRecv && midSend == Closed then ConnectedOnSyn(queued, fill, peers, pre, post)
    else ClosedOrAnsweredAs(seg, need, queued, midSend, peers, pre, post)
  }

  /** Lines 51-55: the first segment connect() sends is the SYN at the
      ISN, and what was queued moves out with it, stamped. */
  ghost predicate ConnectedOnSyn(queued: seq<Segment>, fill: seq<Outstanding>, peers: PeerView, pre: Outbox, post: Outbox)
  {
    && fill != [] && fill[0].abs == 0 && fill[0].seg.header.syn && fill[0].seg.header.seqno == peers.isn
    && post == pre.(queue := pre.queue + StampAll(queued + Segs(fill), peers.ackno, peers.window))
  }

  /** Lines 58-83: the passive close, the close without lingering, or the
      answer, as `ClosedOrAnswered` says, stated on the values reached. */
  ghost predicate ClosedOrAnsweredAs(seg: Segment, need: bool, queued: seq<Segment>, midSend: SenderState,
                                     peers: PeerView, pre: Outbox, post: Outbox)
  {
    var lingerAfter := pre.linger && !(peers.recv == FinRecv && midSend == SynAcked);
    if !lingerAfter && peers.recv == FinRecv && midSend == FinAcked then
      post == Outbox(pre.queue, false, false)
    else
      var empty := if need || KeepAlive(seg, peers.ackno) then [EmptySegment(peers.next, peers.isn)] else [];
      post == Outbox(pre.queue + StampAll(queued + empty, peers.ackno, peers.window), lingerAfter, pre.active)
  }

  /** The sender's state once lines 50-83 of segment_received have run
      from `mid`, the state the ACK stage left: connect() runs fill_window
      on a SYN received while the sender is closed; otherwise only the
      sender's queue changes. */
  ghost function ReactView(recv: ReceiverState, midSend: SenderState, mid: SenderView, isn: u32): SenderView {
    if recv == SynRecv && midSend == Closed then FilledView(mid, isn) else mid
  }

  class TCPConnection {
    /** TCPConfig::rt_timeout: the initial retransmission timeout, in milliseconds. */
    const rtTimeout: nat
    const sender: TCPSender
    const receiver: TCPReceiver
    var segmentsOut: seq<Segment>
    var linger: bool
    var active: bool
    var timeSinceLastSegment: nat
    ghost const Repr: set<object>

    /** The sender and the receiver are valid, apart and owned. */
    ghost predicate Wired()
      reads this, Repr
    {
      && this in Repr && sender in Repr && receiver in Repr
      && Repr == {this} + sender.Repr + receiver.Repr
      && this !in sender.Repr && this !in receiver.Repr && sender.Repr !! receiver.Repr
      && sender.Valid() && receiver.Valid()
    }

    /** Between calls the sender's queue is empty, every segment it queued
        having moved to the connection's queue, and an inactive connection
        does not linger. */
    ghost predicate Valid()
      reads this, Repr
    {
      && Wired()
      && sender.segmentsOut == []
      && (!active ==> !linger)
    }

    /** The connection's queue and flags as they are now. */
    function Now(): Outbox
      reads this
    {
      Outbox(segmentsOut, linger, active)
    }

    /** The receiver's and the sender's parts the connection reads. */
    function Peers(): PeerView
      requires sender.Valid() && receiver.Valid()
      reads sender, sender.Repr, receiver, receiver.Repr
    {
      PeerView(receiver.Summary(), receiver.Ackno(), receiver.WindowSize(), sender.nextSeqno, sender.isn)
    }

    /** The constructor, with the configuration as parameters. */
    constructor (sendCapacity: nat, recvCapacity: nat, rtTimeout: u16, isn: u32)
      ensures Valid() && fresh(Repr)
      ensures this.rtTimeout == rtTimeout && segmentsOut == [] && linger && active && timeSinceLastSegment == 0
      ensures sender.isn == isn && sender.initialRto == rtTimeout && sender.stream.capacity == sendCapacity
      ensures sender.nextSeqno == 0 && sender.outstanding == [] && receiver.capacity == recvCapacity && receiver.isn == None
    {
      this.rtTimeout := rtTimeout;
      var s := new TCPSender(sendCapacity, rtTimeout, isn);
      var r := new TCPReceiver(recvCapacity);
      sender, receiver := s, r;
      segmentsOut, linger, active, timeSinceLastSegment := [], true, true, 0;
      Repr := {this} + s.Repr + r.Repr;
    }

    /** remaining_outbound_capacity(): the room left in the outbound stream. */
    function RemainingOutboundCapacity(): (r: nat)
      reads Repr
      requires Wired()
      ensures r == sender.stream.capacity - |sender.stream.Buffered|
    {
      sender.stream.RemainingCapacity()
    }

    /** bytes_in_flight(): the sender's sequence numbers sent and not yet
        acknowledged. */
    function BytesInFlight(): (r: nat)
      reads Repr
      requires Wired()
      ensures r == InFlight(sender.outstanding) && (r == 0 <==> sender.outstanding == [])
    {
      sender.BytesInFlight()
    }

    // Each of the following helpers performs one step on the connection's
    // own fields or on one of its parts and states its whole effect.

    /** One segment joins the connection's queue. */
    method Emit(seg: Segment)
      requires Wired()
      modifies this
      ensures Wired() && segmentsOut == old(segmentsOut) + [seg]
      ensures linger == old(linger) && active == old(active) && timeSinceLastSegment == old(timeSinceLastSegment)
    {
      segmentsOut := segmentsOut + [seg];
    }

    /** The two flags of the connection take the values given. */
    method SetFlags(newLinger: bool, newActive: bool)
      requires Wired()
      modifies this
      ensures Wired() && linger == newLinger && active == newActive
      ensures segmentsOut == old(segmentsOut) && timeSinceLastSegment == old(timeSinceLastSegment)
    {
      linger, active := newLinger, newActive;
    }

    /** The time since the last segment was received becomes `t`. */
    method SetTime(t: nat)
      requires Wired()
      modifies this
      ensures Wired() && timeSinceLastSegment == t
      ensures segmentsOut == old(segmentsOut) && linger == old(linger) && active == old(active)
      ensures unchanged(receiver, receiver.reassembler, receiver.reassembler.output, receiver.reassembler.output.buffer)
    {
      timeSinceLastSegment := t;
    }

    /** The outbound stream gets the error flag. */
    method FailOutbound()
      requires Wired()
      modifies sender.stream
      ensures Wired() && sender.stream.errorFlag
      ensures sender.stream.History == old(sender.stream.History) && sender.stream.Buffered == old(sender.stream.Buffered)
      ensures sender.stream.inputEnded == old(sender.stream.inputEnded)
    {
      sender.SetStreamError();
    }

    /** The inbound stream gets the error flag. */
    method FailInbound()
      requires Wired()
      modifies receiver.reassembler.output
      ensures Wired() && receiver.StreamOut().errorFlag
      ensures receiver.StreamOut().History == old(receiver.StreamOut().History)
      ensures receiver.StreamOut().Buffered == old(receiver.StreamOut().Buffered)
      ensures receiver.StreamOut().inputEnded == old(receiver.StreamOut().inputEnded)
    {
      receiver.SetStreamError();
    }

    /** Both streams get the error flag, the outbound one first. */
    method FailStreams()
      requires Wired()
      modifies sender.stream, receiver.reassembler.output
      ensures Wired() && sender.Summary() == SendError && receiver.Summary() == RecvError
      ensures sender.View() == old(sender.View()).(error := true)
      ensures sender.stream.History == old(sender.stream.History) && sender.stream.Buffered == old(sender.stream.Buffered)
      ensures sender.stream.inputEnded == old(sender.stream.inputEnded)
      ensures receiver.StreamOut().History == old(receiver.StreamOut().History)
      ensures receiver.StreamOut().Buffered == old(receiver.StreamOut().Buffered)
      ensures receiver.StreamOut().inputEnded == old(receiver.StreamOut().inputEnded)
    {
      FailOutbound();
      FailInbound();
    }

    /** The sender's fill_window. */
    method SenderFill()
      requires Wired()
      modifies sender.Repr
      ensures Wired() && sender.FilledAs()
      ensures sender.View() == old(FilledView(sender.View(), sender.isn))
      ensures unchanged(receiver, receiver.reassembler, receiver.reassembler.output, receiver.reassembler.output.buffer)
    {
      sender.FillWindow();
    }

    /** The sender's ack_received; an acknowledgment that leaves nothing
        outstanding has made the sender queue nothing. */
    method SenderAck(ackno: u32, win: u16)
      requires Wired()
      modifies sender.Repr
      ensures Wired() && sender.AckedAs(ackno, win)
      ensures sender.View() == old(sender.AckView(ackno, win))
      ensures sender.outstanding == [] ==> sender.segmentsOut == old(sender.segmentsOut)
      ensures sender.segmentsOut == old(sender.segmentsOut) + Segs(old(sender.AckSent(ackno, win)))
      ensures sender.Summary() == old(sender.AckSummary(ackno, win))
      ensures sender.FillFrom(sender.stream.Buffered, sender.stream.inputEnded).0 == old(sender.AckFill(ackno, win))
    {
      sender.AckReceived(ackno, win);
      assert old(sender.segmentsOut) + Segs([]) == old(sender.segmentsOut);
      ghost var f := old(sender.AckFilling(ackno, win));
      assert Filling(sender.bytesInFlight, sender.nextSeqno, sender.synSent, sender.finSent, sender.stream.Buffered) == f;
      assert sender.windowSize == if old(Unwrap(ackno, sender.isn, sender.nextSeqno) > sender.nextSeqno) then old(sender.windowSize) else win;
      assert sender.stream.Eof() == (sender.stream.inputEnded && f.avail == []) && sender.stream.BytesWritten() == |old(sender.stream.History)|;
    }

    /** The sender's tick. */
    method SenderTick(ms: nat)
      requires Wired()
      modifies sender
      ensures Wired() && sender.RetimedAs(ms)
      ensures sender.segmentsOut == old(sender.segmentsOut) + old(sender.Retransmitted(ms))
      ensures unchanged(sender.stream)
      ensures unchanged(receiver, receiver.reassembler, receiver.reassembler.output, receiver.reassembler.output.buffer)
    {
      sender.Tick(ms);
    }

    /** The sender's send_empty_segment. */
    method SenderSendEmpty()
      requires Wired()
      modifies sender
      ensures Wired() && sender.QueueOnly()
      ensures sender.segmentsOut == old(sender.segmentsOut) + [EmptySegment(sender.nextSeqno, sender.isn)]
    {
      sender.SendEmptySegment();
    }

    /** The oldest segment leaves the sender's queue. */
    method SenderPop() returns (seg: Segment)
      requires Wired() && sender.segmentsOut != []
      modifies sender
      ensures Wired() && sender.QueueOnly()
      ensures seg == old(sender.segmentsOut)[0] && sender.segmentsOut == old(sender.segmentsOut)[1..]
    {
      seg := sender.PopSegment();
    }

    /** The outbound stream's write. */
    method SenderWrite(data: seq<char>) returns (n: nat)
      requires Wired()
      modifies sender.stream.Repr
      ensures Wired()
      ensures n == Min(|data|, sender.stream.capacity - |old(sender.stream.Buffered)|)
      ensures sender.stream.History == old(sender.stream.History) + data[..n]
      ensures sender.stream.Buffered == old(sender.stream.Buffered) + data[..n]
      ensures sender.stream.inputEnded == old(sender.stream.inputEnded) && sender.stream.errorFlag == old(sender.stream.errorFlag)
    {
      n := sender.WriteStream(data);
    }

    /** The outbound stream's end_input. */
    method SenderEndInput()
      requires Wired()
      modifies sender.stream
      ensures Wired() && sender.stream.inputEnded
      ensures sender.stream.History == old(sender.stream.History) && sender.stream.Buffered == old(sender.stream.Buffered)
      ensures sender.stream.errorFlag == old(sender.stream.errorFlag)
    {
      sender.EndInput();
    }

    /** The receiver's segment_received. */
    method ReceiverSegment(seg: Segment) returns (ok: bool)
      requires Wired()
      modifies receiver.Repr
      ensures Wired() && receiver.ReceivedAs(seg, ok)
      ensures sender.AckSent(seg.header.ackno, seg.header.win) == old(sender.AckSent(seg.header.ackno, seg.header.win))
      ensures sender.Summary() == old(sender.Summary())
      ensures sender.AckSummary(seg.header.ackno, seg.header.win) == old(sender.AckSummary(seg.header.ackno, seg.header.win))
      ensures sender.AckFill(seg.header.ackno, seg.header.win) == old(sender.AckFill(seg.header.ackno, seg.header.win))
      ensures sender.FillFrom(sender.stream.Buffered, sender.stream.inputEnded)
              == old(sender.FillFrom(sender.stream.Buffered, sender.stream.inputEnded))
      ensures sender.View() == old(sender.View())
      ensures sender.AckView(seg.header.ackno, seg.header.win) == old(sender.AckView(seg.header.ackno, seg.header.win))
    {
      ok := receiver.SegmentReceived(seg);
    }

    /** _add_ackno_and_window_to_send(): moves the sender's queue, in order,
        to the connection's queue, stamping each segment. */
    method AddAcknoAndWindowToSend()
      requires Wired()
      modifies this, sender
      ensures Wired() && sender.segmentsOut == [] && sender.QueueOnly()
      ensures segmentsOut == old(segmentsOut) + StampAll(old(sender.segmentsOut), receiver.Ackno(), receiver.WindowSize())
      ensures linger == old(linger) && active == old(active) && timeSinceLastSegment == old(timeSinceLastSegment)
      ensures unchanged(receiver, receiver.reassembler, receiver.reassembler.output, receiver.reassembler.output.buffer)
    {
      // The receiver does not change while the queue moves.
      var ackno, window := receiver.Ackno(), receiver.WindowSize();
      while sender.segmentsOut != []
        invariant Wired() && sender.QueueOnly()
        invariant segmentsOut + StampAll(sender.segmentsOut, ackno, window)
                  == old(segmentsOut) + StampAll(old(sender.segmentsOut), ackno, window)
        invariant linger == old(linger) && active == old(active) && timeSinceLastSegment == old(timeSinceLastSegment)
        decreases |sender.segmentsOut|
      {
        ghost var before, done := sender.segmentsOut, segmentsOut;
        var seg := SenderPop();
        Emit(Stamp(seg, ackno, window));
        StampMoved(done, before, ackno, window);
      }
    }

    /** Lines 103-105 of tick: the sender's queue is emptied, its segments
        discarded. */
    method DiscardSenderQueue()
      requires Wired()
      modifies sender
      ensures Wired() && sender.segmentsOut == [] && sender.QueueOnly()
    {
      while sender.segmentsOut != []
        invariant Wired() && sender.QueueOnly()
        decreases |sender.segmentsOut|
      {
        var _ := SenderPop();
      }
    }

    /** _set_rst_state(send_rst): optionally queues a reset at the next
        sequence number, unstamped; then both streams fail, lingering stops
        and the connection is no longer active. */
    method SetRstState(sendRst: bool)
      requires Wired()
      modifies this, sender.stream, receiver.reassembler.output
      ensures Wired()
      ensures segmentsOut == old(segmentsOut) + (if sendRst then [RstSegment(Wrap(sender.nextSeqno, sender.isn))] else [])
      ensures sender.Summary() == SendError && receiver.Summary() == RecvError
      ensures !linger && !active && timeSinceLastSegment == old(timeSinceLastSegment)
      ensures sender.View() == old(sender.View()).(error := true)
      ensures sender.stream.History == old(sender.stream.History) && sender.stream.Buffered == old(sender.stream.Buffered)
      ensures sender.stream.inputEnded == old(sender.stream.inputEnded)
      ensures receiver.StreamOut().History == old(receiver.StreamOut().History)
      ensures receiver.StreamOut().Buffered == old(receiver.StreamOut().Buffered)
      ensures receiver.StreamOut().inputEnded == old(receiver.StreamOut().inputEnded)
    {
      if sendRst {
        Emit(RstSegment(Wrap(sender.nextSeqno, sender.isn)));
      }
      SetFlags(false, false);
      FailStreams();
    }

    /** The connection's queue grew by `segs`, stamped with the receiver's
        current acknowledgment number and window, and the sender's queue is
        empty. */
    twostate predicate SentStamped(segs: seq<Segment>)
      requires Wired()
      reads this, Repr
    {
      segmentsOut == old(segmentsOut) + StampAll(segs, receiver.Ackno(), receiver.WindowSize()) && sender.segmentsOut == []
    }

    /** The transition of connect(): the sender sends what fill_window
        finds and reaches the state `FilledView` gives (the window and the
        retransmission count kept, the timer started if it was stopped and
        something was sent), and what was queued before moves out with it,
        stamped. */
    twostate predicate ConnectedAs()
      requires Wired()
      reads this, Repr
    {
      var r := old(sender.FillFrom(sender.stream.Buffered, sender.stream.inputEnded));
      && sender.outstanding == old(sender.outstanding) + r.0
      && Filling(sender.bytesInFlight, sender.nextSeqno, sender.synSent, sender.finSent, sender.stream.Buffered) == r.1
      && SentStamped(old(sender.segmentsOut) + Segs(r.0))
      && sender.stream.History == old(sender.stream.History)
      && sender.stream.inputEnded == old(sender.stream.inputEnded) && sender.stream.errorFlag == old(sender.stream.errorFlag)
      && sender.View() == old(FilledView(sender.View(), sender.isn))
      && linger == old(linger) && active == old(active) && timeSinceLastSegment == old(timeSinceLastSegment)
    }

    /** connect(): fill_window, whose first call sends the SYN, and the
        segments sent move out stamped. */
    method Connect()
      requires Wired()
      modifies this, sender.Repr
      ensures Wired() && ConnectedAs()
      ensures unchanged(receiver, receiver.reassembler, receiver.reassembler.output, receiver.reassembler.output.buffer)
    {
      SenderFill();
      AddAcknoAndWindowToSend();
    }

    /** connect() on a SYN received while the sender is closed (lines
        51-55): nothing is in flight yet, so the first segment sent is the
        SYN at the ISN. */
    method ConnectOnSyn()
      requires Wired() && sender.Summary() == Closed
      modifies this, sender.Repr
      ensures Wired()
      ensures ConnectedOnSyn(old(sender.segmentsOut), old(sender.FillFrom(sender.stream.Buffered, sender.stream.inputEnded).0),
                             Peers(), old(Now()), Now())
      ensures ConnectedAs()
      ensures unchanged(receiver, receiver.reassembler, receiver.reassembler.output, receiver.reassembler.output.buffer)
    {
      ghost var fill := sender.FillFrom(sender.stream.Buffered, sender.stream.inputEnded).0;
      assert fill != [] && fill[0].abs == 0 && fill[0].seg.header.syn && fill[0].seg.header.seqno == sender.isn by {
        assert !sender.synSent && !sender.finSent && sender.nextSeqno == 0 && sender.bytesInFlight == 0;
        FirstFillSendsSyn(Max1(sender.windowSize), sender.stream.Buffered, sender.stream.inputEnded, sender.isn);
      }
      Connect();
    }

    /** write(data): the bytes the outbound stream accepts, then, as in
        connect(), fill_window from the stream so extended and the segments
        sent moved out stamped (lines 90-91 are connect()'s body). */
    method Write(data: seq<char>) returns (n: nat)
      requires Valid()
      modifies this, sender.Repr
      ensures Valid()
      ensures n == Min(|data|, sender.stream.capacity - |old(sender.stream.Buffered)|)
      ensures sender.stream.History == old(sender.stream.History) + data[..n]
      ensures var r := old(sender.FillFrom(sender.stream.Buffered + data[..n], sender.stream.inputEnded));
        && sender.outstanding == old(sender.outstanding) + r.0
        && Filling(sender.bytesInFlight, sender.nextSeqno, sender.synSent, sender.finSent, sender.stream.Buffered) == r.1
        && segmentsOut == old(segmentsOut) + StampAll(Segs(r.0), receiver.Ackno(), receiver.WindowSize())
        && sender.timer == if r.0 != [] && !old(sender.timer).running then Restart(old(sender.timer)) else old(sender.timer)
      ensures sender.windowSize == old(sender.windowSize) && sender.consecutiveRetx == old(sender.consecutiveRetx)
      ensures sender.stream.inputEnded == old(sender.stream.inputEnded) && sender.stream.errorFlag == old(sender.stream.errorFlag)
      ensures linger == old(linger) && active == old(active) && timeSinceLastSegment == old(timeSinceLastSegment)
    {
      n := SenderWrite(data);
      ghost var r := sender.FillFrom(sender.stream.Buffered, sender.stream.inputEnded);
      assert sender.segmentsOut == [];
      Connect();
      assert [] + Segs(r.0) == Segs(r.0);
    }

    /** end_input_stream(): ends the outbound stream, then, as in connect(),
        fill_window (which may now send the FIN) and the segments sent move
        out stamped. */
    method EndInputStream()
      requires Valid()
      modifies this, sender.Repr
      ensures Valid() && sender.stream.inputEnded
      ensures sender.stream.History == old(sender.stream.History)
      ensures var r := old(sender.FillFrom(sender.stream.Buffered, true));
        && sender.outstanding == old(sender.outstanding) + r.0
        && Filling(sender.bytesInFlight, sender.nextSeqno, sender.synSent, sender.finSent, sender.stream.Buffered) == r.1
        && segmentsOut == old(segmentsOut) + StampAll(Segs(r.0), receiver.Ackno(), receiver.WindowSize())
        && sender.timer == if r.0 != [] && !old(sender.timer).running then Restart(old(sender.timer)) else old(sender.timer)
      ensures sender.windowSize == old(sender.windowSize) && sender.consecutiveRetx == old(sender.consecutiveRetx)
      ensures sender.stream.errorFlag == old(sender.stream.errorFlag)
      ensures linger == old(linger) && active == old(active) && timeSinceLastSegment == old(timeSinceLastSegment)
    {
      SenderEndInput();
      ghost var r := sender.FillFrom(sender.stream.Buffered, sender.stream.inputEnded);
      assert sender.segmentsOut == [];
      Connect();
      assert [] + Segs(r.0) == Segs(r.0);
    }

    /** The destructor: a connection still active is reset, with a reset
        segment sent; an inactive one is left as it is. */
    method Destroy()
      requires Valid()
      modifies this, sender.stream, receiver.reassembler.output
      ensures Valid() && !active
      ensures old(active) ==> && segmentsOut == old(segmentsOut) + [RstSegment(Wrap(sender.nextSeqno, sender.isn))]
                              && sender.Summary() == SendError && receiver.Summary() == RecvError
                              && sender.View() == old(sender.View()).(error := true)
      ensures !old(active) ==> unchanged(this, sender.stream, receiver.reassembler.output)
      ensures sender.stream.History == old(sender.stream.History) && sender.stream.Buffered == old(sender.stream.Buffered)
      ensures sender.stream.inputEnded == old(sender.stream.inputEnded)
      ensures receiver.StreamOut().History == old(receiver.StreamOut().History)
      ensures receiver.StreamOut().Buffered == old(receiver.StreamOut().Buffered)
      ensures receiver.StreamOut().inputEnded == old(receiver.StreamOut().inputEnded)
    {
      if active {
        SetRstState(true);
      }
    }

    /** Lines 39-48 of segment_received: an empty acknowledgment is needed
        for a segment that occupies sequence space, unless it carried ACK
        and the connection's own queue is not empty after ack_received. An
        acknowledgment that leaves nothing outstanding queues nothing. The
        ghost results are what the sender queued, its state summary, what
        a further fill_window would send and its whole state, as
        `AckStaged` states them. */
    method AckStage(seg: Segment) returns (needEmptyAck: bool, ghost queued: seq<Segment>, ghost midSend: SenderState,
                                           ghost fill: seq<Outstanding>, ghost mid: SenderView)
      requires Wired()
      modifies sender.Repr
      ensures Wired()
      ensures unchanged(receiver, receiver.reassembler, receiver.reassembler.output, receiver.reassembler.output.buffer)
      ensures old(AckStaged(seg, needEmptyAck, queued, midSend, fill, mid))
      ensures && sender.segmentsOut == old(sender.segmentsOut) + queued && midSend == sender.Summary()
              && fill == sender.FillFrom(sender.stream.Buffered, sender.stream.inputEnded).0 && mid == sender.View()
      ensures seg.header.ack ==> sender.AckedAs(seg.header.ackno, seg.header.win)
      ensures !seg.header.ack ==> unchanged(sender.Repr)
      ensures sender.outstanding == [] ==> sender.segmentsOut == old(sender.segmentsOut)
    {
      needEmptyAck := LengthInSequenceSpace(seg) > 0;
      queued := [];
      if seg.header.ack {
        SenderAck(seg.header.ackno, seg.header.win);
        queued := Segs(old(sender.AckSent(seg.header.ackno, seg.header.win)));
        if needEmptyAck && segmentsOut != [] {
          needEmptyAck := false;
        }
      } else {
        assert sender.segmentsOut == old(sender.segmentsOut) + [];
      }
      midSend := sender.Summary();
      fill := sender.FillFrom(sender.stream.Buffered, sender.stream.inputEnded).0;
      mid := sender.View();
    }

    /** Lines 50-55 of segment_received, once receiver and sender have seen
        the segment: a receiver that has just seen the SYN while the sender
        is closed makes the connection connect; otherwise it goes on as
        `CloseOrAnswer` says. */
    method React(seg: Segment, needEmptyAck: bool, ghost queued: seq<Segment>, ghost midSend: SenderState,
                 ghost fill: seq<Outstanding>, ghost mid: SenderView)
      requires Wired()
      requires queued == sender.segmentsOut && midSend == sender.Summary()
      requires fill == sender.FillFrom(sender.stream.Buffered, sender.stream.inputEnded).0 && mid == sender.View()
      modifies this, sender.Repr
      ensures Wired() && timeSinceLastSegment == old(timeSinceLastSegment)
      ensures unchanged(receiver, receiver.reassembler, receiver.reassembler.output, receiver.reassembler.output.buffer)
      ensures ReactedAs(seg, needEmptyAck, queued, midSend, fill, Peers(), old(Now()), Now())
      ensures sender.View() == ReactView(receiver.Summary(), midSend, mid, sender.isn)
      ensures old(receiver.Summary()) == SynRecv && old(sender.Summary()) == Closed ==> ConnectedAs()
      ensures !(old(receiver.Summary()) == SynRecv && old(sender.Summary()) == Closed) ==> ClosedOrAnswered(seg, needEmptyAck)
      // What these say about the connection's invariant and its flags:
      ensures sender.segmentsOut == [] || (unchanged(sender.Repr) && old(sender.Summary()) == FinAcked)
      ensures (active ==> old(active)) && (linger ==> old(linger))
      ensures (!old(active) ==> !old(linger)) ==> (!active ==> !linger)
      ensures old(active) && !active ==> receiver.Summary() == FinRecv && old(sender.Summary()) == FinAcked
    {
      if receiver.Summary() == SynRecv && sender.Summary() == Closed {
        ConnectOnSyn();
      } else {
        CloseOrAnswer(seg, needEmptyAck);
      }
    }

    /** The transition of lines 58-83 of segment_received: a FIN received
        while the sender's SYN is acknowledged turns lingering off; without
        lingering, a FIN received and a FIN acknowledged end the connection
        and nothing is sent; otherwise the connection answers as `Answered`
        says. */
    twostate predicate ClosedOrAnswered(seg: Segment, needEmptyAck: bool)
      requires old(Wired()) && Wired()
      reads this, Repr
    {
      var recv, send := old(receiver.Summary()), old(sender.Summary());
      var lingerAfter := old(linger) && !(recv == FinRecv && send == SynAcked);
      if !lingerAfter && recv == FinRecv && send == FinAcked then
        && !active && !linger && segmentsOut == old(segmentsOut) && unchanged(sender.Repr)
      else
        linger == lingerAfter && active == old(active) && Answered(seg, needEmptyAck)
    }

    /** Lines 58-69 of segment_received, then `Answer`. */
    method CloseOrAnswer(seg: Segment, needEmptyAck: bool)
      requires Wired()
      modifies this, sender.Repr
      ensures Wired() && timeSinceLastSegment == old(timeSinceLastSegment)
      ensures unchanged(receiver, receiver.reassembler, receiver.reassembler.output, receiver.reassembler.output.buffer)
      ensures ClosedOrAnswered(seg, needEmptyAck) && sender.View() == old(sender.View())
      ensures ClosedOrAnsweredAs(seg, needEmptyAck, old(sender.segmentsOut), old(sender.Summary()),
                                 Peers(), old(Now()), Now())
    {
      var recv, send := receiver.Summary(), sender.Summary();
      if !(linger && !(recv == FinRecv && send == SynAcked)) && recv == FinRecv && send == FinAcked {
        SetFlags(false, false);
      } else {
        LingerAndAnswer(seg, needEmptyAck);
      }
    }

    /** Lines 58-61 and 72-83 of segment_received, when lines 64-69 do not
        end the connection. The answer is built before lingering is turned
        off here: neither reads what the other writes, and the sender's
        state summary is the same before and after the answer. */
    method LingerAndAnswer(seg: Segment, needEmptyAck: bool)
      requires Wired()
      modifies this, sender
      ensures Wired() && linger == (old(linger) && !(receiver.Summary() == FinRecv && old(sender.Summary()) == SynAcked))
      ensures active == old(active) && Answered(seg, needEmptyAck) && sender.View() == old(sender.View())
    {
      Answer(seg, needEmptyAck);
      UpdateLinger();
    }

    /** Lines 58-61 of segment_received: a FIN received while the sender's
        SYN is acknowledged turns lingering off (the passive close). */
    method UpdateLinger()
      requires Wired()
      modifies this
      ensures Wired() && linger == (old(linger) && !(receiver.Summary() == FinRecv && sender.Summary() == SynAcked))
      ensures active == old(active) && segmentsOut == old(segmentsOut) && timeSinceLastSegment == old(timeSinceLastSegment)
    {
      if receiver.Summary() == FinRecv && sender.Summary() == SynAcked {
        SetFlags(false, active);
      }
    }

    /** The transition of lines 72-83 of segment_received: an empty segment
        is queued when one is needed or the segment is a keep-alive, and the
        sender's queue moves out stamped; nothing else changes. */
    twostate predicate Answered(seg: Segment, needEmptyAck: bool)
      requires old(Wired()) && Wired()
      reads this, Repr
    {
      var empty := if needEmptyAck || KeepAlive(seg, receiver.Ackno()) then [EmptySegment(sender.nextSeqno, sender.isn)] else [];
      && SentStamped(old(sender.segmentsOut) + empty)
      && sender.QueueOnly() && unchanged(sender.stream)
      && timeSinceLastSegment == old(timeSinceLastSegment)
    }

    /** Lines 72-83 of segment_received. */
    method Answer(seg: Segment, needEmptyAck: bool)
      requires Wired()
      modifies this, sender
      ensures Wired() && linger == old(linger) && active == old(active)
      ensures Answered(seg, needEmptyAck) && sender.View() == old(sender.View())
    {
      var need := needEmptyAck || KeepAlive(seg, receiver.Ackno());
      if need {
        SenderSendEmpty();
      } else {
        assert sender.segmentsOut == old(sender.segmentsOut) + [];
      }
      AddAcknoAndWindowToSend();
    }

    /** What the ACK stage of segment_received (lines 39-48) leaves, stated
        on the state before it: an empty ACK is needed for a segment that
        occupies sequence space, unless it carried ACK and the connection's
        queue is not empty. With ACK, the segments ack_received queued, the
        sender's summary after it, what a further fill_window would send and
        the sender's state are those `AckSent`, `AckSummary`, `AckFill` and
        `AckView` give; without ACK nothing is queued and the summary, the
        fill and the state are the sender's own. */
    ghost predicate AckStaged(seg: Segment, need: bool, queued: seq<Segment>, midSend: SenderState, fill: seq<Outstanding>,
                              mid: SenderView)
      requires sender.Valid()
      reads this, sender, sender.Repr
    {
      && (need <==> LengthInSequenceSpace(seg) > 0 && !(seg.header.ack && segmentsOut != []))
      && if seg.header.ack then
           && queued == Segs(sender.AckSent(seg.header.ackno, seg.header.win))
           && midSend == sender.AckSummary(seg.header.ackno, seg.header.win)
           && fill == sender.AckFill(seg.header.ackno, seg.header.win)
           && mid == sender.AckView(seg.header.ackno, seg.header.win)
         else
           && queued == [] && midSend == sender.Summary()
           && fill == sender.FillFrom(sender.stream.Buffered, sender.stream.inputEnded).0
           && mid == sender.View()
    }

    /** Lines 36-83 of segment_received, for a segment without RST: the
        receiver takes the segment (`ok` is false where its reassembler
        throws, which ends the call), then `AckAndReact`, whose ghost
        results it passes on. */
    method Process(seg: Segment) returns (ok: bool, ghost need: bool, ghost queued: seq<Segment>,
                                          ghost midSend: SenderState, ghost fill: seq<Outstanding>,
                                          ghost mid: SenderView)
      requires Valid()
      modifies this, sender.Repr, receiver.Repr
      ensures Valid() && timeSinceLastSegment == old(timeSinceLastSegment)
      ensures receiver.ReceivedAs(seg, ok)
      ensures !ok ==> && segmentsOut == old(segmentsOut) && active == old(active) && linger == old(linger)
                      && unchanged(sender.Repr)
      ensures ok ==> && old(AckStaged(seg, need, queued, midSend, fill, mid))
                     && ReactedAs(seg, need, queued, midSend, fill, Peers(), old(Now()), Now())
                     && sender.View() == ReactView(receiver.Summary(), midSend, mid, sender.isn)
      ensures (active ==> old(active)) && (linger ==> old(linger))
      ensures old(active) && !active ==> receiver.Summary() == FinRecv && sender.Summary() == FinAcked
    {
      ok := ReceiverSegment(seg);
      assert segmentsOut == old(segmentsOut) && linger == old(linger) && active == old(active);
      if ok {
        need, queued, midSend, fill, mid := AckAndReact(seg);
      } else {
        need, queued, midSend, fill, mid := false, [], sender.Summary(), [], sender.View();
      }
    }

    /** Lines 39-83 of segment_received: `AckStage`, then `React`. The ghost
        results record what the ACK stage leaves, which `ReactedAs` and
        `ReactView` read.
        A connection whose outbound FIN is acknowledged has nothing in
        flight, so the acknowledgment sent nothing and the sender's queue is
        still empty when the connection ends without sending. */
    method AckAndReact(seg: Segment) returns (ghost need: bool, ghost queued: seq<Segment>,
                                              ghost midSend: SenderState, ghost fill: seq<Outstanding>,
                                          ghost mid: SenderView)
      requires Valid()
      modifies this, sender.Repr
      ensures Valid() && timeSinceLastSegment == old(timeSinceLastSegment)
      ensures unchanged(receiver, receiver.reassembler, receiver.reassembler.output, receiver.reassembler.output.buffer)
      ensures old(AckStaged(seg, need, queued, midSend, fill, mid))
      ensures ReactedAs(seg, need, queued, midSend, fill, Peers(), old(Now()), Now())
      ensures sender.View() == ReactView(receiver.Summary(), midSend, mid, sender.isn)
      ensures (active ==> old(active)) && (linger ==> old(linger))
      ensures old(active) && !active ==> receiver.Summary() == FinRecv && sender.Summary() == FinAcked
    {
      var n;
      n, queued, midSend, fill, mid := AckStage(seg);
      need := n;
      assert sender.segmentsOut == [] + queued == queued;
      assert sender.Summary() == FinAcked ==> sender.segmentsOut == [];
      React(seg, n, queued, midSend, fill, mid);
    }

    /** segment_received(seg): `Dispatch` handles the segment, and the time
        since the last segment is reset (line 25). Nothing else in the call
        reads or writes that time, so the model resets it last. */
    method SegmentReceived(seg: Segment) returns (ok: bool, ghost need: bool, ghost queued: seq<Segment>,
                                                  ghost midSend: SenderState, ghost fill: seq<Outstanding>,
                                          ghost mid: SenderView)
      requires Valid()
      modifies this, sender.Repr, receiver.Repr
      ensures Valid() && timeSinceLastSegment == 0
      ensures seg.header.rst ==> && ok && !active && !linger && segmentsOut == old(segmentsOut)
                                 && sender.Summary() == SendError && receiver.Summary() == RecvError
                                 && sender.View() == old(sender.View()).(error := true)
      ensures !seg.header.rst && !ok ==>
                && segmentsOut == old(segmentsOut) && active == old(active) && linger == old(linger)
                && unchanged(sender.Repr)
      ensures !seg.header.rst ==> receiver.ReceivedAs(seg, ok)
      ensures !seg.header.rst && ok ==>
                && old(AckStaged(seg, need, queued, midSend, fill, mid))
                && ReactedAs(seg, need, queued, midSend, fill, Peers(), old(Now()), Now())
                && sender.View() == ReactView(receiver.Summary(), midSend, mid, sender.isn)
      ensures (active ==> old(active)) && (linger ==> old(linger))
      ensures old(active) && !active && !seg.header.rst ==> receiver.Summary() == FinRecv && sender.Summary() == FinAcked
    {
      ok, need, queued, midSend, fill, mid := Dispatch(seg);
      SetTime(0);
    }

    /** Lines 26-83 of segment_received. A reset makes the connection fail
        without sending anything; any other segment goes through `Process`,
        whose ghost results, for a segment the receiver accepts, say what
        was sent and how the flags changed (`ReactedAs`). The connection
        never becomes active again nor starts lingering again, and it stops
        being active only on a reset or with the inbound FIN received and
        the outbound FIN acknowledged. */
    method Dispatch(seg: Segment) returns (ok: bool, ghost need: bool, ghost queued: seq<Segment>,
                                           ghost midSend: SenderState, ghost fill: seq<Outstanding>,
                                          ghost mid: SenderView)
      requires Valid()
      modifies this, sender.Repr, receiver.Repr
      ensures Valid() && timeSinceLastSegment == old(timeSinceLastSegment)
      ensures seg.header.rst ==> && ok && !active && !linger && segmentsOut == old(segmentsOut)
                                 && sender.Summary() == SendError && receiver.Summary() == RecvError
                                 && sender.View() == old(sender.View()).(error := true)
      ensures !seg.header.rst && !ok ==>
                && segmentsOut == old(segmentsOut) && active == old(active) && linger == old(linger)
                && unchanged(sender.Repr)
      ensures !seg.header.rst ==> receiver.ReceivedAs(seg, ok)
      ensures !seg.header.rst && ok ==>
                && old(AckStaged(seg, need, queued, midSend, fill, mid))
                && ReactedAs(seg, need, queued, midSend, fill, Peers(), old(Now()), Now())
                && sender.View() == ReactView(receiver.Summary(), midSend, mid, sender.isn)
      ensures (active ==> old(active)) && (linger ==> old(linger))
      ensures old(active) && !active && !seg.header.rst ==> receiver.Summary() == FinRecv && sender.Summary() == FinAcked
    {
      if seg.header.rst {
        SetRstState(false);
        ok, need, queued, midSend, fill, mid := true, false, [], SendError, [], sender.View();
      } else {
        ok, need, queued, midSend, fill, mid := Process(seg);
      }
    }

    /** The owner of the connection takes the oldest segment from the queue
        that line 173 fills; nothing else changes. */
    method TakeSegment() returns (seg: Segment)
      requires Valid() && segmentsOut != []
      modifies this
      ensures Valid() && seg == old(segmentsOut)[0] && segmentsOut == old(segmentsOut)[1..]
      ensures linger == old(linger) && active == old(active) && timeSinceLastSegment == old(timeSinceLastSegment)
    {
      seg := segmentsOut[0];
      segmentsOut := segmentsOut[1..];
    }

    /** Lines 103-108 of tick: the sender's queue is discarded and the
        connection resets, sending a reset. */
    method GiveUp()
      requires Wired()
      modifies this, sender, sender.stream, receiver.reassembler.output
      ensures Wired() && sender.segmentsOut == [] && sender.QueueOnly()
      ensures segmentsOut == old(segmentsOut) + [RstSegment(Wrap(sender.nextSeqno, sender.isn))]
      ensures !active && !linger && sender.Summary() == SendError && receiver.Summary() == RecvError
      ensures timeSinceLastSegment == old(timeSinceLastSegment)
      ensures sender.View() == old(sender.View()).(error := true)
      ensures sender.stream.History == old(sender.stream.History) && sender.stream.Buffered == old(sender.stream.Buffered)
      ensures sender.stream.inputEnded == old(sender.stream.inputEnded)
      ensures receiver.StreamOut().History == old(receiver.StreamOut().History)
      ensures receiver.StreamOut().Buffered == old(receiver.StreamOut().Buffered)
      ensures receiver.StreamOut().inputEnded == old(receiver.StreamOut().inputEnded)
    {
      DiscardSenderQueue();
      SetRstState(true);
    }

    /** Lines 112-121 of tick: the sender's queue moves out stamped, and a
        connection that lingers with the inbound FIN received and the
        outbound FIN acknowledged ends once ten initial retransmission
        timeouts have passed since the last segment arrived. */
    method AfterTick()
      requires Wired()
      modifies this, sender
      ensures Wired() && sender.QueueOnly() && sender.segmentsOut == [] && unchanged(sender.stream)
      ensures unchanged(receiver, receiver.reassembler, receiver.reassembler.output, receiver.reassembler.output.buffer)
      ensures segmentsOut == old(segmentsOut) + StampAll(old(sender.segmentsOut), receiver.Ackno(), receiver.WindowSize())
      ensures timeSinceLastSegment == old(timeSinceLastSegment)
      ensures if && old(linger) && receiver.Summary() == FinRecv && sender.Summary() == FinAcked
                 && timeSinceLastSegment >= 10 * rtTimeout
              then !active && !linger
              else active == old(active) && linger == old(linger)
    {
      AddAcknoAndWindowToSend();
      if linger && receiver.Summary() == FinRecv && sender.Summary() == FinAcked && timeSinceLastSegment >= 10 * rtTimeout {
        SetFlags(false, false);
      }
    }

    /** tick(ms): the time since the last segment and the sender's timer
        advance. Once the sender has retransmitted more than
        MAX_RETX_ATTEMPTS times in a row, the connection gives up
        (`GiveUp`); otherwise what the sender retransmits moves out stamped
        and the linger timeout is checked (`AfterTick`). */
    method Tick(ms: nat)
      requires Valid()
      modifies this, sender, sender.stream, receiver.reassembler.output
      ensures Valid() && timeSinceLastSegment == old(timeSinceLastSegment) + ms
      ensures sender.RetimedAs(ms)
      ensures sender.consecutiveRetx > MAX_RETX_ATTEMPTS ==>
                && segmentsOut == old(segmentsOut) + [RstSegment(Wrap(sender.nextSeqno, sender.isn))]
                && !active && !linger && sender.Summary() == SendError && receiver.Summary() == RecvError
      ensures sender.consecutiveRetx <= MAX_RETX_ATTEMPTS ==>
                && segmentsOut == old(segmentsOut) + StampAll(old(sender.Retransmitted(ms)), receiver.Ackno(), receiver.WindowSize())
                && if && old(linger) && receiver.Summary() == FinRecv && sender.Summary() == FinAcked
                      && timeSinceLastSegment >= 10 * rtTimeout
                   then !active && !linger
                   else active == old(active) && linger == old(linger)
      // Only giving up touches the streams, and then only their error flags.
      ensures sender.stream.History == old(sender.stream.History) && sender.stream.Buffered == old(sender.stream.Buffered)
      ensures sender.stream.inputEnded == old(sender.stream.inputEnded)
      ensures receiver.StreamOut().History == old(receiver.StreamOut().History)
      ensures receiver.StreamOut().Buffered == old(receiver.StreamOut().Buffered)
      ensures receiver.StreamOut().inputEnded == old(receiver.StreamOut().inputEnded)
      ensures sender.consecutiveRetx <= MAX_RETX_ATTEMPTS ==> unchanged(sender.stream, receiver.reassembler.output)
    {
      SetTime(timeSinceLastSegment + ms);
      TickSender(ms);
    }

    /** Lines 98-121 of tick, once the time since the last segment has
        advanced: the sender's tick, then `GiveUp` or `AfterTick`. */
    method TickSender(ms: nat)
      requires Valid()
      modifies this, sender, sender.stream, receiver.reassembler.output
      ensures Valid() && timeSinceLastSegment == old(timeSinceLastSegment)
      ensures sender.RetimedAs(ms)
      ensures sender.consecutiveRetx > MAX_RETX_ATTEMPTS ==>
                && segmentsOut == old(segmentsOut) + [RstSegment(Wrap(sender.nextSeqno, sender.isn))]
                && !active && !linger && sender.Summary() == SendError && receiver.Summary() == RecvError
      ensures sender.consecutiveRetx <= MAX_RETX_ATTEMPTS ==>
                && segmentsOut == old(segmentsOut) + StampAll(old(sender.Retransmitted(ms)), receiver.Ackno(), receiver.WindowSize())
                && if && old(linger) && receiver.Summary() == FinRecv && sender.Summary() == FinAcked
                      && timeSinceLastSegment >= 10 * rtTimeout
                   then !active && !linger
                   else active == old(active) && linger == old(linger)
      ensures sender.stream.History == old(sender.stream.History) && sender.stream.Buffered == old(sender.stream.Buffered)
      ensures sender.stream.inputEnded == old(sender.stream.inputEnded)
      ensures receiver.StreamOut().History == old(receiver.StreamOut().History)
      ensures receiver.StreamOut().Buffered == old(receiver.StreamOut().Buffered)
      ensures receiver.StreamOut().inputEnded == old(receiver.StreamOut().inputEnded)
      ensures sender.consecutiveRetx <= MAX_RETX_ATTEMPTS ==> unchanged(sender.stream, receiver.reassembler.output)
    {
      SenderTick(ms);
      assert sender.segmentsOut == old(sender.Retransmitted(ms));
      Settle();
    }

    /** Lines 103-121 of tick, once the sender has ticked: `GiveUp` after
        more than MAX_RETX_ATTEMPTS consecutive retransmissions, `AfterTick`
        otherwise. */
    method Settle()
      requires Wired() && (!active ==> !linger)
      modifies this, sender, sender.stream, receiver.reassembler.output
      ensures Wired() && sender.segmentsOut == [] && sender.QueueOnly() && timeSinceLastSegment == old(timeSinceLastSegment)
      ensures sender.consecutiveRetx > MAX_RETX_ATTEMPTS ==>
                && segmentsOut == old(segmentsOut) + [RstSegment(Wrap(sender.nextSeqno, sender.isn))]
                && !active && !linger && sender.Summary() == SendError && receiver.Summary() == RecvError
      ensures sender.consecutiveRetx <= MAX_RETX_ATTEMPTS ==>
                && segmentsOut == old(segmentsOut) + StampAll(old(sender.segmentsOut), receiver.Ackno(), receiver.WindowSize())
                && unchanged(sender.stream, receiver.reassembler.output)
                && if && old(linger) && receiver.Summary() == FinRecv && sender.Summary() == FinAcked
                      && timeSinceLastSegment >= 10 * rtTimeout
                   then !active && !linger
                   else active == old(active) && linger == old(linger)
      ensures !active ==> !linger
      ensures sender.stream.History == old(sender.stream.History) && sender.stream.Buffered == old(sender.stream.Buffered)
      ensures sender.stream.inputEnded == old(sender.stream.inputEnded)
      ensures receiver.StreamOut().History == old(receiver.StreamOut().History)
      ensures receiver.StreamOut().Buffered == old(receiver.StreamOut().Buffered)
      ensures receiver.StreamOut().inputEnded == old(receiver.StreamOut().inputEnded)
    {
      if sender.ConsecutiveRetransmissions() > MAX_RETX_ATTEMPTS {
        GiveUp();
      } else {
        AfterTick();
      }
    }
  }
}
