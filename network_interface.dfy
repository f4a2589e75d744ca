/**
 * The network interface (libsponge/network_interface.cc/.hh): the bridge
 * between IP datagrams and Ethernet frames. It keeps an ARP cache of
 * learned IP-to-Ethernet mappings, remembers which addresses it has asked
 * for, holds datagrams back until their next hop's address is known, and
 * expires all of these as time passes (RFC 826, "Packet Reception").
 */
module NetworkInterfaces {
  import opened Options
  import opened Internet

  /** network_interface.hh:69: how long a learned mapping is kept. */
  const ARP_ENTRY_TTL_MS: nat := 30000

  /** network_interface.hh:72: how long a request is waited on before
      another may be sent and the datagrams held for it are dropped. */
  const ARP_RESPONSE_TTL_MS: nat := 5000

  /** network_interface.hh:41-44: a learned mapping and its remaining life. */
  datatype ARPEntry = ARPEntry(ethAddr: EthernetAddress, ttl: nat)

  /** A datagram held back, with the next hop it was sent to. */
  type Held = (Ip, InternetDatagram)

  /** The held datagrams for ip, in the order they arrived. */
  function HeldFor(waiting: map<Ip, seq<Held>>, ip: Ip): seq<Held> {
    if ip in waiting then waiting[ip] else []
  }

  /** The frame `_send` pushes (network_interface.cc:29-36). */
  function Frame(src: EthernetAddress, dst: EthernetAddress, etherType: bv16, payload: Payload): EthernetFrame {
    EthernetFrame(EthernetHeader(dst, src, etherType), payload)
  }

  /** The frames that flush the held datagrams to dst, one per datagram. */
  function FlushFrames(src: EthernetAddress, dst: EthernetAddress, held: seq<Held>): (r: seq<EthernetFrame>)
    ensures |r| == |held|
    ensures forall k :: 0 <= k < |held| ==> r[k] == Frame(src, dst, TYPE_IPv4, DatagramBytes(held[k].1))
  {
    if held == [] then []
    else FlushFrames(src, dst, held[..|held| - 1]) + [Frame(src, dst, TYPE_IPv4, DatagramBytes(held[|held| - 1].1))]
  }

  /** A datagram held last is flushed last, after every datagram held
      before it (network_interface.hh:62: the list keeps arrival order). */
  lemma HeldLastFlushedLast(src: EthernetAddress, dst: EthernetAddress, waiting: map<Ip, seq<Held>>, ip: Ip, h: Held)
    ensures FlushFrames(src, dst, HeldFor(waiting[ip := HeldFor(waiting, ip) + [h]], ip))
         == FlushFrames(src, dst, HeldFor(waiting, ip)) + [Frame(src, dst, TYPE_IPv4, DatagramBytes(h.1))]
  {
    var before := HeldFor(waiting, ip);
    assert HeldFor(waiting[ip := before + [h]], ip) == before + [h];
    assert (before + [h])[..|before|] == before;
  }

  /** The mappings tick leaves: those outliving ms, each ms older. */
  function AgedEntries(table: map<Ip, ARPEntry>, ms: nat): map<Ip, ARPEntry> {
    map ip | ip in table && table[ip].ttl > ms :: table[ip].(ttl := table[ip].ttl - ms)
  }

  /** The requests tick leaves pending: those outliving ms, each ms older. */
  function AgedRequests(pending: map<Ip, nat>, ms: nat): map<Ip, nat> {
    map ip | ip in pending && pending[ip] > ms :: pending[ip] - ms
  }

  /** The held datagrams tick keeps: all but those whose request expires. */
  function Abandoned(waiting: map<Ip, seq<Held>>, pending: map<Ip, nat>, ms: nat): map<Ip, seq<Held>> {
    map ip | ip in waiting && !(ip in pending && pending[ip] <= ms) :: waiting[ip]
  }

  /** Two ticks age the cache as one tick of their combined length. */
  lemma AgedEntriesCompose(table: map<Ip, ARPEntry>, a: nat, b: nat)
    ensures AgedEntries(AgedEntries(table, a), b) == AgedEntries(table, a + b)
  {
    var once := AgedEntries(table, a);
    assert forall ip :: ip in AgedEntries(once, b) <==> ip in AgedEntries(table, a + b);
  }

  /** Two ticks age the pending requests as one tick of their combined length. */
  lemma AgedRequestsCompose(pending: map<Ip, nat>, a: nat, b: nat)
    ensures AgedRequests(AgedRequests(pending, a), b) == AgedRequests(pending, a + b)
  {
    var once := AgedRequests(pending, a);
    assert forall ip :: ip in AgedRequests(once, b) <==> ip in AgedRequests(pending, a + b);
  }

  /** The sum of a series of tick lengths. */
  function Elapsed(ticks: seq<nat>): nat {
    if ticks == [] then 0 else Elapsed(ticks[..|ticks| - 1]) + ticks[|ticks| - 1]
  }

  /** The cache after a series of ticks. */
  function AgedBy(table: map<Ip, ARPEntry>, ticks: seq<nat>): map<Ip, ARPEntry> {
    if ticks == [] then table else AgedEntries(AgedBy(table, ticks[..|ticks| - 1]), ticks[|ticks| - 1])
  }

  /** However the time is split into ticks, a mapping with life left
      survives exactly while the total elapsed time is below its remaining
      life; a freshly learned one therefore lives ARP_ENTRY_TTL_MS. */
  lemma {:induction false} AgedByElapsed(table: map<Ip, ARPEntry>, ticks: seq<nat>)
    requires forall ip :: ip in table ==> table[ip].ttl > 0
    ensures AgedBy(table, ticks) == AgedEntries(table, Elapsed(ticks))
  {
    if ticks == [] {
      assert AgedEntries(table, 0) == table;
    } else {
      var init := ticks[..|ticks| - 1];
      AgedByElapsed(table, init);
      AgedEntriesCompose(table, Elapsed(init), ticks[|ticks| - 1]);
    }
  }

  /** The invariant the three tables keep: every mapping and request has
      life left within its limit, and each address with held datagrams has
      a pending request and no known mapping, so nothing is held for an
      address already known and nothing is held beyond a request's life. */
  ghost predicate TablesConsistent(arpTable: map<Ip, ARPEntry>, pending: map<Ip, nat>, waiting: map<Ip, seq<Held>>) {
    && (forall ip :: ip in arpTable ==> 0 < arpTable[ip].ttl <= ARP_ENTRY_TTL_MS)
    && (forall ip :: ip in pending ==> 0 < pending[ip] <= ARP_RESPONSE_TTL_MS)
    && (forall ip :: ip in waiting ==> ip in pending && ip !in arpTable && waiting[ip] != [])
  }

  /** Holding a datagram for an unknown address keeps the invariant. */
  lemma HoldKeepsConsistent(arpTable: map<Ip, ARPEntry>, pending: map<Ip, nat>, waiting: map<Ip, seq<Held>>, ip: Ip, h: Held)
    requires TablesConsistent(arpTable, pending, waiting) && ip !in arpTable
    ensures TablesConsistent(arpTable, if ip in pending then pending else pending[ip := ARP_RESPONSE_TTL_MS],
                             waiting[ip := HeldFor(waiting, ip) + [h]])
  {
  }

  /** Learning a mapping and flushing what was held for it keeps the invariant. */
  lemma LearnKeepsConsistent(arpTable: map<Ip, ARPEntry>, pending: map<Ip, nat>, waiting: map<Ip, seq<Held>>, ip: Ip, eth: EthernetAddress)
    requires TablesConsistent(arpTable, pending, waiting)
    ensures TablesConsistent(arpTable[ip := ARPEntry(eth, ARP_ENTRY_TTL_MS)], pending, waiting - {ip})
  {
  }

  /** A tick keeps the invariant. */
  lemma TickKeepsConsistent(arpTable: map<Ip, ARPEntry>, pending: map<Ip, nat>, waiting: map<Ip, seq<Held>>, ms: nat)
    requires TablesConsistent(arpTable, pending, waiting)
    ensures TablesConsistent(AgedEntries(arpTable, ms), AgedRequests(pending, ms), Abandoned(waiting, pending, ms))
  {
  }

  /** The cache part-way through the first loop of tick: the addresses in
      todo are not yet visited. */
  ghost function PartlyAgedEntries(table: map<Ip, ARPEntry>, todo: set<Ip>, ms: nat): map<Ip, ARPEntry> {
    map ip | ip in table && (ip in todo || table[ip].ttl > ms) :: if ip in todo then table[ip] else table[ip].(ttl := table[ip].ttl - ms)
  }

  lemma AgeOneEntry(table: map<Ip, ARPEntry>, todo: set<Ip>, ms: nat, ip: Ip)
    requires ip in todo && todo <= table.Keys
    ensures table[ip].ttl <= ms ==> PartlyAgedEntries(table, todo, ms) - {ip} == PartlyAgedEntries(table, todo - {ip}, ms)
    ensures table[ip].ttl > ms ==>
      PartlyAgedEntries(table, todo, ms)[ip := table[ip].(ttl := table[ip].ttl - ms)] == PartlyAgedEntries(table, todo - {ip}, ms)
  {
  }

  /** The pending requests part-way through the second loop of tick. */
  ghost function PartlyAgedRequests(pending: map<Ip, nat>, todo: set<Ip>, ms: nat): map<Ip, nat> {
    map ip | ip in pending && (ip in todo || pending[ip] > ms) :: if ip in todo then pending[ip] else pending[ip] - ms
  }

  /** The held datagrams part-way through the second loop of tick. */
  ghost function PartlyAbandoned(waiting: map<Ip, seq<Held>>, pending: map<Ip, nat>, todo: set<Ip>, ms: nat): map<Ip, seq<Held>> {
    map ip | ip in waiting && !(ip in pending && ip !in todo && pending[ip] <= ms) :: waiting[ip]
  }

  lemma AgeOneRequest(pending: map<Ip, nat>, waiting: map<Ip, seq<Held>>, todo: set<Ip>, ms: nat, ip: Ip)
    requires ip in todo && todo <= pending.Keys
    ensures pending[ip] <= ms ==>
      && PartlyAgedRequests(pending, todo, ms) - {ip} == PartlyAgedRequests(pending, todo - {ip}, ms)
      && PartlyAbandoned(waiting, pending, todo, ms) - {ip} == PartlyAbandoned(waiting, pending, todo - {ip}, ms)
    ensures pending[ip] > ms ==>
      && PartlyAgedRequests(pending, todo, ms)[ip := pending[ip] - ms] == PartlyAgedRequests(pending, todo - {ip}, ms)
      && PartlyAbandoned(waiting, pending, todo, ms) == PartlyAbandoned(waiting, pending, todo - {ip}, ms)
  {
  }

  class NetworkInterface {
    /** network_interface.hh:47: this interface's Ethernet address. */
    const ethernetAddress: EthernetAddress
    /** network_interface.hh:50: this interface's IP address. */
    const ipAddress: Ip
    /** network_interface.hh:53: the frames sent, oldest first; the only output. */
    var framesOut: seq<EthernetFrame>
    /** network_interface.hh:56: learned mappings. */
    var arpTable: map<Ip, ARPEntry>
    /** network_interface.hh:59: addresses asked for, with the time the
        request is still waited on. */
    var pending: map<Ip, nat>
    /** network_interface.hh:62: datagrams held per next-hop address. */
    var waiting: map<Ip, seq<Held>>

    ghost predicate Valid()
      reads this
    {
      TablesConsistent(arpTable, pending, waiting)
    }

    /** network_interface.cc:23-27. */
    constructor(ethernetAddress: EthernetAddress, ipAddress: Ip)
      ensures Valid()
      ensures this.ethernetAddress == ethernetAddress && this.ipAddress == ipAddress
      ensures framesOut == [] && arpTable == map[] && pending == map[] && waiting == map[]
    {
      this.ethernetAddress := ethernetAddress;
      this.ipAddress := ipAddress;
      framesOut := [];
      arpTable := map[];
      pending := map[];
      waiting := map[];
    }

    /** The broadcast request for ip's Ethernet address (lines 52-59). */
    function RequestFrame(ip: Ip): EthernetFrame {
      Frame(ethernetAddress, ETHERNET_BROADCAST, TYPE_ARP,
            ArpBytes(ARPMessage(OPCODE_REQUEST, ethernetAddress, ipAddress, ETHERNET_UNKNOWN, ip)))
    }

    /** The reply to msg if it is a request for this interface's address,
        sent back to the requester (lines 91-101). */
    function ReplyFrames(msg: ARPMessage): (r: seq<EthernetFrame>)
      ensures |r| <= 1
      ensures r != [] <==> msg.opcode == OPCODE_REQUEST && msg.targetIpAddress == ipAddress
      ensures r != [] ==> r[0].header.dst == msg.senderEthernetAddress && r[0].header.src == ethernetAddress
      ensures r != [] ==> ParseArp(r[0].payload) == Some(ARPMessage(OPCODE_REPLY, ethernetAddress, ipAddress, msg.senderEthernetAddress, msg.senderIpAddress))
    {
      if msg.opcode == OPCODE_REQUEST && msg.targetIpAddress == ipAddress then
        [Frame(ethernetAddress, msg.senderEthernetAddress, TYPE_ARP,
               ArpBytes(ARPMessage(OPCODE_REPLY, ethernetAddress, ipAddress, msg.senderEthernetAddress, msg.senderIpAddress)))]
      else []
    }

    /** Whether a frame is addressed to this interface (lines 73-75). */
    predicate Accepts(dst: EthernetAddress) {
      dst == ETHERNET_BROADCAST || dst == ethernetAddress
    }

    /** _send (network_interface.cc:29-36): pushes one frame from this
        interface's address. */
    method Send(dst: EthernetAddress, etherType: bv16, payload: Payload)
      modifies this
      ensures framesOut == old(framesOut) + [Frame(ethernetAddress, dst, etherType, payload)]
      ensures arpTable == old(arpTable) && pending == old(pending) && waiting == old(waiting)
    {
      framesOut := framesOut + [EthernetFrame(EthernetHeader(dst, ethernetAddress, etherType), payload)];
    }

    /** send_datagram (network_interface.cc:41-68): sends at once to a
        known address; otherwise asks for the address unless a request is
        already pending, and holds the datagram. */
    method SendDatagram(dgram: InternetDatagram, nextHop: Ip)
      requires Valid()
      modifies this
      ensures Valid()
      ensures nextHop in old(arpTable) ==>
        && framesOut == old(framesOut) + [Frame(ethernetAddress, old(arpTable)[nextHop].ethAddr, TYPE_IPv4, DatagramBytes(dgram))]
        && arpTable == old(arpTable) && pending == old(pending) && waiting == old(waiting)
      ensures nextHop !in old(arpTable) ==>
        && framesOut == old(framesOut) + (if nextHop in old(pending) then [] else [RequestFrame(nextHop)])
        && arpTable == old(arpTable)
        && pending == (if nextHop in old(pending) then old(pending) else old(pending)[nextHop := ARP_RESPONSE_TTL_MS])
        && waiting == old(waiting)[nextHop := HeldFor(old(waiting), nextHop) + [(nextHop, dgram)]]
    {
      if nextHop in arpTable {
        Send(arpTable[nextHop].ethAddr, TYPE_IPv4, DatagramBytes(dgram));
      } else {
        HoldKeepsConsistent(arpTable, pending, waiting, nextHop, (nextHop, dgram));
        if nextHop !in pending {
          Send(ETHERNET_BROADCAST, TYPE_ARP, ArpBytes(ARPMessage(OPCODE_REQUEST, ethernetAddress, ipAddress, ETHERNET_UNKNOWN, nextHop)));
          pending := pending[nextHop := ARP_RESPONSE_TTL_MS];
        }
        waiting := waiting[nextHop := HeldFor(waiting, nextHop) + [(nextHop, dgram)]];
      }
    }

    /** recv_frame (network_interface.cc:71-116): frames for another
        interface are ignored; an IPv4 frame gives its datagram if it
        parses; an ARP message teaches its sender's mapping, is answered
        when it asks for this interface's address, and releases the
        datagrams held for its sender. */
    method RecvFrame(frame: EthernetFrame) returns (r: Option<InternetDatagram>)
      requires Valid()
      modifies this
      ensures Valid()
      ensures !Accepts(frame.header.dst) ==> r.None? && unchanged(this)
      ensures Accepts(frame.header.dst) && frame.header.etherType == TYPE_IPv4 ==>
        r == ParseDatagram(frame.payload) && unchanged(this)
      ensures Accepts(frame.header.dst) && frame.header.etherType != TYPE_IPv4 ==> r.None?
      ensures Accepts(frame.header.dst) && frame.header.etherType == TYPE_ARP && ParseArp(frame.payload).None? ==> unchanged(this)
      ensures Accepts(frame.header.dst) && frame.header.etherType != TYPE_IPv4 && frame.header.etherType != TYPE_ARP ==> unchanged(this)
      ensures Accepts(frame.header.dst) && frame.header.etherType == TYPE_ARP && ParseArp(frame.payload).Some? ==>
        var msg := ParseArp(frame.payload).value;
        && arpTable == old(arpTable)[msg.senderIpAddress := ARPEntry(msg.senderEthernetAddress, ARP_ENTRY_TTL_MS)]
        && pending == old(pending)
        && waiting == old(waiting) - {msg.senderIpAddress}
        && framesOut == old(framesOut) + ReplyFrames(msg)
                        + FlushFrames(ethernetAddress, msg.senderEthernetAddress, HeldFor(old(waiting), msg.senderIpAddress))
    {
      if frame.header.dst != ETHERNET_BROADCAST && frame.header.dst != ethernetAddress {
        return None;
      }
      if frame.header.etherType == TYPE_IPv4 {
        return ParseDatagram(frame.payload);
      }
      if frame.header.etherType == TYPE_ARP {
        var parsed := ParseArp(frame.payload);
        if parsed.None? {
          return None;
        }
        Learn(parsed.value);
      }
      return None;
    }

    /** Lines 88-113: answers a request for this interface's address,
        records the sender's mapping and flushes what was held for it. */
    method Learn(msg: ARPMessage)
      requires Valid()
      modifies this
      ensures Valid()
      ensures arpTable == old(arpTable)[msg.senderIpAddress := ARPEntry(msg.senderEthernetAddress, ARP_ENTRY_TTL_MS)]
      ensures pending == old(pending)
      ensures waiting == old(waiting) - {msg.senderIpAddress}
      ensures framesOut == old(framesOut) + ReplyFrames(msg)
                           + FlushFrames(ethernetAddress, msg.senderEthernetAddress, HeldFor(old(waiting), msg.senderIpAddress))
    {
      var srcIp := msg.senderIpAddress;
      if msg.opcode == OPCODE_REQUEST && msg.targetIpAddress == ipAddress {
        Send(msg.senderEthernetAddress, TYPE_ARP,
             ArpBytes(ARPMessage(OPCODE_REPLY, ethernetAddress, ipAddress, msg.senderEthernetAddress, srcIp)));
      }
      LearnKeepsConsistent(arpTable, pending, waiting, srcIp, msg.senderEthernetAddress);
      arpTable := arpTable[srcIp := ARPEntry(msg.senderEthernetAddress, ARP_ENTRY_TTL_MS)];
      FlushHeld(srcIp, msg.senderEthernetAddress);
    }

    /** Lines 106-113: sends every datagram held for ip to dst, in the
        order they were held, then forgets them. */
    method FlushHeld(ip: Ip, dst: EthernetAddress)
      modifies this
      ensures framesOut == old(framesOut) + FlushFrames(ethernetAddress, dst, HeldFor(old(waiting), ip))
      ensures waiting == old(waiting) - {ip}
      ensures arpTable == old(arpTable) && pending == old(pending)
    {
      if ip in waiting {
        var held := waiting[ip];
        var k := 0;
        while k < |held|
          invariant k <= |held|
          invariant framesOut == old(framesOut) + FlushFrames(ethernetAddress, dst, held[..k])
          invariant arpTable == old(arpTable) && pending == old(pending) && waiting == old(waiting)
        {
          Send(dst, TYPE_IPv4, DatagramBytes(held[k].1));
          assert held[..k + 1][..k] == held[..k];
          k := k + 1;
        }
        assert held[..k] == held;
        waiting := waiting - {ip};
      }
    }

    /** tick (network_interface.cc:119-143): ages the cache and the
        pending requests, dropping what has run out, and drops the datagrams
        held for a request that ran out. */
    method Tick(ms: nat)
      requires Valid()
      modifies this
      ensures Valid()
      ensures arpTable == AgedEntries(old(arpTable), ms)
      ensures pending == AgedRequests(old(pending), ms)
      ensures waiting == Abandoned(old(waiting), old(pending), ms)
      ensures framesOut == old(framesOut)
    {
      TickKeepsConsistent(arpTable, pending, waiting, ms);
      ExpireEntries(ms);
      ExpireRequests(ms);
    }

    /** Lines 121-128: visits every mapping once, in no particular order. */
    method ExpireEntries(ms: nat)
      modifies this
      ensures arpTable == AgedEntries(old(arpTable), ms)
      ensures pending == old(pending) && waiting == old(waiting) && framesOut == old(framesOut)
    {
      ghost var table := arpTable;
      var todo := arpTable.Keys;
      assert PartlyAgedEntries(table, todo, ms) == table;
      while todo != {}
        invariant todo <= table.Keys
        invariant arpTable == PartlyAgedEntries(table, todo, ms)
        invariant pending == old(pending) && waiting == old(waiting) && framesOut == old(framesOut)
        decreases todo
      {
        var ip :| ip in todo;
        AgeOneEntry(table, todo, ms, ip);
        if arpTable[ip].ttl <= ms {
          arpTable := arpTable - {ip};
        } else {
          arpTable := arpTable[ip := arpTable[ip].(ttl := arpTable[ip].ttl - ms)];
        }
        todo := todo - {ip};
      }
      assert PartlyAgedEntries(table, {}, ms) == AgedEntries(table, ms);
    }

    /** Lines 130-142: visits every pending request once, in no particular
        order; one that runs out also drops what was held for it. */
    method ExpireRequests(ms: nat)
      modifies this
      ensures pending == AgedRequests(old(pending), ms)
      ensures waiting == Abandoned(old(waiting), old(pending), ms)
      ensures arpTable == old(arpTable) && framesOut == old(framesOut)
    {
      ghost var requests, held := pending, waiting;
      var todo := pending.Keys;
      assert PartlyAgedRequests(requests, todo, ms) == requests;
      assert PartlyAbandoned(held, requests, todo, ms) == held;
      while todo != {}
        invariant todo <= requests.Keys
        invariant pending == PartlyAgedRequests(requests, todo, ms)
        invariant waiting == PartlyAbandoned(held, requests, todo, ms)
        invariant arpTable == old(arpTable) && framesOut == old(framesOut)
        decreases todo
      {
        var ip :| ip in todo;
        AgeOneRequest(requests, held, todo, ms, ip);
        if pending[ip] <= ms {
          waiting := waiting - {ip};
          pending := pending - {ip};
        } else {
          pending := pending[ip := pending[ip] - ms];
        }
        todo := todo - {ip};
      }
      assert PartlyAgedRequests(requests, {}, ms) == AgedRequests(requests, ms);
      assert PartlyAbandoned(held, requests, {}, ms) == Abandoned(held, requests, ms);
    }
  }
}
