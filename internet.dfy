/**
 * The records the network interface and the router exchange: IPv4
 * datagrams, Ethernet frames and ARP messages (RFC 826). Their wire formats
 * are not part of this model: a frame's payload records which record was
 * serialised into it, and parsing gives back exactly that record, or fails
 * on bytes no serialiser of that kind produced.
 */
module Internet {
  import opened Options

  /** A raw 32-bit IPv4 address, the `uint32_t` `Address::ipv4_numeric()` gives. */
  type Ip = n: nat | n < 0x1_0000_0000

  /** An 8-bit unsigned header field. */
  type u8 = n: nat | n < 256

  /** The IPv4 header fields the core reads or writes. */
  datatype IPv4Header = IPv4Header(ttl: u8, src: Ip, dst: Ip)

  datatype InternetDatagram = InternetDatagram(header: IPv4Header, payload: seq<bv8>)

  /** A 48-bit Ethernet (ARP "hardware") address. */
  type EthernetAddress = s: seq<bv8> | |s| == 6 witness [0, 0, 0, 0, 0, 0]

  const ETHERNET_BROADCAST: EthernetAddress := [0xff, 0xff, 0xff, 0xff, 0xff, 0xff]

  /** The value-initialised address `{}`, the target of an ARP request. */
  const ETHERNET_UNKNOWN: EthernetAddress := [0, 0, 0, 0, 0, 0]

  /** EtherType values of an Ethernet header. */
  const TYPE_IPv4: bv16 := 0x800
  const TYPE_ARP: bv16 := 0x806

  datatype EthernetHeader = EthernetHeader(dst: EthernetAddress, src: EthernetAddress, etherType: bv16)

  /** ARP opcodes. */
  const OPCODE_REQUEST: bv16 := 1
  const OPCODE_REPLY: bv16 := 2

  /** The ARP fields the core reads or writes (Ethernet/IPv4 hardware and
      protocol types are implied). */
  datatype ARPMessage = ARPMessage(
    opcode: bv16,
    senderEthernetAddress: EthernetAddress,
    senderIpAddress: Ip,
    targetEthernetAddress: EthernetAddress,
    targetIpAddress: Ip)

  /** A frame's payload: the serialisation of a datagram, of an ARP message,
      or bytes that neither parser accepts. */
  datatype Payload =
    | DatagramBytes(dgram: InternetDatagram)
    | ArpBytes(msg: ARPMessage)
    | OtherBytes(bytes: seq<bv8>)

  datatype EthernetFrame = EthernetFrame(header: EthernetHeader, payload: Payload)

  /** `InternetDatagram::parse`: succeeds exactly on a serialised datagram
      and then gives back that datagram. The parser is foreign code; that
      parsing inverts serialising is the premise of this abstraction, not a
      property proved of the real byte format. */
  function ParseDatagram(p: Payload): (r: Option<InternetDatagram>)
    ensures r.Some? <==> p.DatagramBytes?
    ensures r.Some? ==> p == DatagramBytes(r.value)
  {
    if p.DatagramBytes? then Some(p.dgram) else None
  }

  /** `ARPMessage::parse`: succeeds exactly on a serialised ARP message and
      then gives back that message. As for datagrams, the round trip is the
      premise of the abstraction, not proved of the byte format. */
  function ParseArp(p: Payload): (r: Option<ARPMessage>)
    ensures r.Some? <==> p.ArpBytes?
    ensures r.Some? ==> p == ArpBytes(r.value)
  {
    if p.ArpBytes? then Some(p.msg) else None
  }
}
