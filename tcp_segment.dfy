/**
 * TCP segments as plain records: the header fields the stack reads and
 * writes, the payload, and the segment's length in sequence space. The
 * configuration constants are those of the stack's `TCPConfig`.
 */
module TCPSegments {
  import opened WrappingIntegers

  /** An unsigned 16-bit value (the advertised window on the wire). */
  type u16 = x: int | 0 <= x < 0x1_0000

  const U16_MAX: u16 := 0xFFFF

  /** TCPConfig::MAX_PAYLOAD_SIZE: the largest payload of one segment. */
  const MAX_PAYLOAD_SIZE: nat := 1000
  /** TCPConfig::MAX_RETX_ATTEMPTS: retransmissions of one segment before the connection gives up. */
  const MAX_RETX_ATTEMPTS: nat := 8

  datatype Header = Header(seqno: u32, ackno: u32, win: u16, syn: bool, ack: bool, fin: bool, rst: bool)

  /** A default-constructed header: every field zero or false. */
  const EmptyHeader := Header(0, 0, 0, false, false, false, false)

  datatype Segment = Segment(header: Header, payload: seq<char>)

  /** length_in_sequence_space(): the payload plus one for each of SYN and FIN. */
  function LengthInSequenceSpace(seg: Segment): (r: nat)
    ensures r >= |seg.payload|
    ensures r == 0 <==> seg.payload == [] && !seg.header.syn && !seg.header.fin
    ensures r <= |seg.payload| + 2
  {
    |seg.payload| + (if seg.header.syn then 1 else 0) + (if seg.header.fin then 1 else 0)
  }
}
