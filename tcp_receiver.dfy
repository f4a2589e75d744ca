/**
 * The TCP receiver (libsponge/tcp_receiver.cc): records the initial sequence
 * number from the first SYN, turns each segment's wrapped sequence number
 * into a stream index for the reassembler, and derives the acknowledgment
 * number and the window it advertises.
 */
module TCPReceivers {
  import opened Options
  import opened WrappingIntegers
  import opened ByteStreams
  import opened StreamReassemblers
  import opened TCPSegments

  /** tcp_receiver.cc:21: the stream index of a segment starting at absolute
      sequence number abs, `abs - 1 + syn` in 64-bit unsigned arithmetic. */
  function StreamIndex(abs: nat, syn: bool): (r: nat)
    ensures r < TWO64
    ensures 1 <= abs < TWO64 && !syn ==> r == abs - 1
    ensures abs < TWO64 && syn ==> r == abs
    ensures abs == 0 && !syn ==> r == SIZE_MAX
  {
    (abs - 1 + (if syn then 1 else 0)) % TWO64
  }

  /** ackno(): none before an ISN; otherwise the wrapped absolute sequence
      number of the next byte expected, counting the SYN and, once the
      stream has ended, the FIN. */
  function AcknoOf(isn: Option<u32>, written: nat, ended: bool): (r: Option<u32>)
    ensures r.None? <==> isn.None?
  {
    if isn.None? then None else Some(Wrap(written + 1 + (if ended then 1 else 0), isn.value))
  }

  /** The acknowledgment number unwraps, against the bytes written, to the
      absolute sequence number that follows the SYN, the bytes assembled and
      the FIN if it was assembled. */
  lemma AcknoUnwraps(isn: u32, written: nat, ended: bool)
    ensures Unwrap(AcknoOf(Some(isn), written, ended).value, isn, written) == written + 1 + (if ended then 1 else 0)
  {
    UnwrapWrap(written + 1 + (if ended then 1 else 0), isn, written);
  }

  /** The SYN segment's own payload starts at stream index 0. */
  lemma SynStartsAtZero(isn: u32, checkpoint: nat)
    requires checkpoint < HALF32
    ensures StreamIndex(Unwrap(isn, isn, checkpoint), true) == 0
  {
    assert Wrap(0, isn) == isn;
    UnwrapWrap(0, isn, checkpoint);
  }

  /** A segment without SYN whose sequence number is the acknowledgment
      number sent for an open stream carries the next byte the reassembler
      expects: its index is the number of bytes written. */
  lemma AcknoIndexIsNextByte(isn: u32, written: nat)
    requires written + 1 < TWO64
    ensures StreamIndex(Unwrap(AcknoOf(Some(isn), written, false).value, isn, written), false) == written
  {
    AcknoUnwraps(isn, written, false);
  }

  /** A segment without SYN that starts at absolute sequence number a >= 1,
      within 2^31 of the bytes written, is pushed at stream index a - 1. */
  lemma PayloadIndex(isn: u32, written: nat, a: nat)
    requires 1 <= a < TWO64 && Dist(a, written) < HALF32
    ensures StreamIndex(Unwrap(Wrap(a, isn), isn, written), false) == a - 1
  {
    UnwrapWrap(a, isn, written);
  }

  /** TCPState::state_summary(receiver), ERROR first. */
  datatype ReceiverState = RecvError | Listen | SynRecv | FinRecv

  function ReceiverSummary(error: bool, ackno: Option<u32>, ended: bool): (r: ReceiverState)
    ensures r == RecvError <==> error
    ensures r == Listen <==> !error && ackno.None?
    ensures r == SynRecv <==> !error && ackno.Some? && !ended
    ensures r == FinRecv <==> !error && ackno.Some? && ended
  {
    if error then RecvError else if ackno.None? then Listen else if ended then FinRecv else SynRecv
  }

  class TCPReceiver {
    const capacity: nat
    const reassembler: StreamReassembler
    var isn: Option<u32>
    ghost const Repr: set<object>

    ghost predicate Valid()
      reads this, Repr
      ensures Valid() ==> this in Repr
    {
      && this in Repr && reassembler in Repr && Repr == {this} + reassembler.Repr && this !in reassembler.Repr
      && reassembler.Valid() && reassembler.capacity == capacity
    }

    constructor (capacity: nat)
      ensures Valid() && fresh(Repr)
      ensures this.capacity == capacity && isn == None
      ensures reassembler.output.History == [] && !reassembler.output.inputEnded && !reassembler.output.errorFlag
    {
      this.capacity := capacity;
      var r := new StreamReassembler(capacity);
      reassembler := r;
      isn := None;
      Repr := {this} + r.Repr;
    }

    /** stream_out(): the reassembled inbound byte stream. */
    function StreamOut(): ByteStream
      reads this
    {
      reassembler.output
    }

    /** The transition of segment_received(seg), from the state before the
        call to the one after it: the first SYN's sequence number becomes
        the ISN, which then never changes; before it a segment changes
        nothing; after it the payload is pushed at its stream index, with
        FIN as the end of the stream. */
    twostate predicate ReceivedAs(seg: Segment, ok: bool)
      requires old(Valid())
      reads this, reassembler, reassembler.output, reassembler.output.buffer
    {
      && (old(isn).Some? ==> isn == old(isn))
      && (old(isn).None? ==> isn == if seg.header.syn then Some(seg.header.seqno) else None)
      && (old(isn).None? && !seg.header.syn ==> ok && unchanged(reassembler, reassembler.output, reassembler.output.buffer))
      && (isn.Some? ==>
            reassembler.PushedAs(seg.payload,
                                 StreamIndex(Unwrap(seg.header.seqno, isn.value, |old(reassembler.output.History)|), seg.header.syn),
                                 seg.header.fin, ok))
    }

    /** segment_received(seg). `ok` is false where the reassembler throws on
        an inconsistent byte. */
    method SegmentReceived(seg: Segment) returns (ok: bool)
      requires Valid()
      modifies Repr
      ensures Valid() && ReceivedAs(seg, ok)
    {
      var i := isn;
      if i.None? {
        if !seg.header.syn {
          return true;
        }
        i := Some(seg.header.seqno);
      }
      var checkpoint := reassembler.output.BytesWritten();
      var absSeq := Unwrap(seg.header.seqno, i.value, checkpoint);
      ok := reassembler.PushSubstring(seg.payload, StreamIndex(absSeq, seg.header.syn), seg.header.fin);
      isn := i;
    }

    /** stream_out().set_error(). */
    method SetStreamError()
      requires Valid()
      modifies reassembler.output
      ensures Valid() && reassembler.output.errorFlag
      ensures reassembler.output.History == old(reassembler.output.History)
      ensures reassembler.output.Buffered == old(reassembler.output.Buffered)
      ensures reassembler.output.inputEnded == old(reassembler.output.inputEnded)
    {
      reassembler.output.SetError();
    }

    /** ackno(). */
    function Ackno(): (r: Option<u32>)
      reads Repr
      requires Valid()
      ensures r.None? <==> isn.None?
      ensures r == AcknoOf(isn, |reassembler.output.History|, reassembler.output.inputEnded)
    {
      AcknoOf(isn, reassembler.output.BytesWritten(), reassembler.output.inputEnded)
    }

    /** window_size(): the room left in the inbound stream. */
    function WindowSize(): (r: nat)
      reads Repr
      requires Valid()
      ensures r == capacity - |reassembler.output.Buffered| && r <= capacity
    {
      capacity - reassembler.output.BufferSize()
    }

    /** TCPState::state_summary(receiver): ERROR once the inbound stream
        has failed, LISTEN before the SYN, SYN_RECV after it, FIN_RECV once
        the inbound stream has ended. */
    function Summary(): (r: ReceiverState)
      reads Repr
      requires Valid()
      ensures r == RecvError <==> reassembler.output.errorFlag
      ensures r == Listen <==> !reassembler.output.errorFlag && isn.None?
      ensures r == SynRecv <==> !reassembler.output.errorFlag && isn.Some? && !reassembler.output.inputEnded
      ensures r == FinRecv <==> !reassembler.output.errorFlag && isn.Some? && reassembler.output.inputEnded
    {
      ReceiverSummary(reassembler.output.errorFlag, Ackno(), reassembler.output.inputEnded)
    }
  }
}
