/**
 * The IP router (libsponge/router.cc): a table of routes appended in order,
 * a longest-prefix-match lookup with ties going to the earliest route, and
 * forwarding with the time-to-live decremented (sections 5.2.4.3 and 5.3.1
 * of RFC 1812). Handing a datagram to an outgoing interface is recorded as
 * a `Forward` event instead of calling into that interface.
 */
module Routers {
  import opened Options
  import opened Internet

  /** A route's prefix length: a `uint8_t` in the source, here at most 32. */
  type PrefixLength = n: nat | n <= 32

  /** One row of the routing table, as add_route stores it. */
  datatype RouteEntry = RouteEntry(routePrefix: Ip, prefixLength: PrefixLength, nextHop: Option<Ip>, interfaceNum: nat)

  /** `interface(n).send_datagram(dgram, nextHop)`, as an event. */
  datatype Forward = Forward(interfaceNum: nat, nextHop: Ip, dgram: InternetDatagram)

  function Pow2(n: nat): (r: nat)
    ensures r > 0
  {
    if n == 0 then 1 else 2 * Pow2(n - 1)
  }

  lemma {:induction false} Pow2Add(a: nat, b: nat)
    ensures Pow2(a + b) == Pow2(a) * Pow2(b)
  {
    if b > 0 {
      Pow2Add(a, b - 1);
      assert Pow2(a + b) == 2 * Pow2(a + b - 1);
    }
  }

  lemma Pow2Of32()
    ensures Pow2(32) == 0x1_0000_0000
  {
    assert Pow2(8) == 256;
    Pow2Add(8, 8);
    Pow2Add(16, 16);
  }

  /** `a ^ b` on unsigned integers, one bit at a time from the lowest. */
  function Xor(a: nat, b: nat): nat
    decreases a + b
  {
    if a == 0 && b == 0 then 0
    else 2 * Xor(a / 2, b / 2) + (if a % 2 == b % 2 then 0 else 1)
  }

  /** `x >> s` on unsigned integers. */
  function Shr(x: nat, s: nat): nat {
    DivIsNatural(x, Pow2(s));
    x / Pow2(s)
  }

  /** router.cc:46: a route applies to dst when its prefix length is zero or
      the exclusive-or of prefix and dst has no bit left once shifted right
      by `32 - prefix_length`. */
  predicate Matches(r: RouteEntry, dst: Ip) {
    r.prefixLength == 0 || Shr(Xor(r.routePrefix, dst), 32 - r.prefixLength) == 0
  }

  lemma DivIsNatural(x: nat, d: int)
    requires d > 0
    ensures x / d >= 0
  {
  }

  lemma {:induction false} MulAtLeast(a: int, d: int)
    requires a >= 1 && d > 0
    ensures a * d >= d
    decreases a
  {
    if a > 1 {
      MulAtLeast(a - 1, d);
      assert a * d == (a - 1) * d + d;
    }
  }

  lemma DivUnique(x: int, d: int, k: int, m: int)
    requires d > 0 && x == k * d + m && 0 <= m < d
    ensures x / d == k
  {
    var q, r := x / d, x % d;
    assert x == q * d + r;
    assert (q - k) * d == m - r;
    if q > k {
      MulAtLeast(q - k, d);
    } else if q < k {
      MulAtLeast(k - q, d);
    }
  }

  lemma DivDiv(x: nat, p: nat)
    requires p > 0
    ensures x / (2 * p) == (x / p) / 2
  {
    var q, r := x / p, x % p;
    var h, l := q / 2, q % 2;
    calc {
      x;
      q * p + r;
      (2 * h + l) * p + r;
      h * (2 * p) + (l * p + r);
    }
    assert l * p + r < 2 * p by {
      assert l <= 1;
      assert l * p <= p;
    }
    DivUnique(x, 2 * p, h, l * p + r);
  }

  /** The exclusive-or is zero exactly when its operands are equal. */
  lemma {:induction false} XorIsZeroIff(a: nat, b: nat)
    ensures Xor(a, b) == 0 <==> a == b
    decreases a + b
  {
    if a != 0 || b != 0 {
      XorIsZeroIff(a / 2, b / 2);
    }
  }

  lemma XorHalves(a: nat, b: nat)
    ensures Xor(a, b) / 2 == Xor(a / 2, b / 2)
  {
  }

  /** Shifting the exclusive-or is the exclusive-or of the shifted operands. */
  lemma {:induction false} ShrXor(a: nat, b: nat, s: nat)
    ensures Shr(Xor(a, b), s) == Xor(Shr(a, s), Shr(b, s))
  {
    if s > 0 {
      ShrXor(a, b, s - 1);
      var p := Pow2(s - 1);
      DivDiv(Xor(a, b), p);
      DivDiv(a, p);
      DivDiv(b, p);
      XorHalves(a / p, b / p);
    }
  }

  /** A route matches dst exactly when prefix and dst agree in their top
      prefixLength bits, that is, when shifting both right by the other
      `32 - prefixLength` bits leaves equal values. For prefix length 0 no
      bit is compared, so the special case of line 46 is what the general
      test gives once all 32 bits are shifted out. */
  lemma MatchesIffTopBitsAgree(r: RouteEntry, dst: Ip)
    ensures Matches(r, dst) <==> Shr(r.routePrefix, 32 - r.prefixLength) == Shr(dst, 32 - r.prefixLength)
  {
    var s := 32 - r.prefixLength;
    if r.prefixLength == 0 {
      Pow2Of32();
      DivUnique(r.routePrefix, Pow2(32), 0, r.routePrefix);
      DivUnique(dst, Pow2(32), 0, dst);
    } else {
      ShrXor(r.routePrefix, dst, s);
      XorIsZeroIff(Shr(r.routePrefix, s), Shr(dst, s));
    }
  }

  /** Route i is the one longest-prefix matching selects under the match
      test m: it matches, no matching route is longer, and every matching
      route added before it is strictly shorter. */
  ghost predicate IsLongestEarliestBy(routes: seq<RouteEntry>, m: RouteEntry -> bool, i: nat) {
    && i < |routes|
    && m(routes[i])
    && (forall j :: 0 <= j < |routes| && m(routes[j]) ==> routes[j].prefixLength <= routes[i].prefixLength)
    && (forall j :: 0 <= j < i && m(routes[j]) ==> routes[j].prefixLength < routes[i].prefixLength)
  }

  /** The index the scan of router.cc:41-51 holds after visiting routes,
      under the match test m: a route replaces the best so far when it
      matches and there is no best yet or it is strictly longer. */
  function BestBy(routes: seq<RouteEntry>, m: RouteEntry -> bool): (r: Option<nat>)
    ensures r.Some? ==> r.value < |routes|
  {
    if routes == [] then None
    else
      var b := BestBy(routes[..|routes| - 1], m);
      var last := |routes| - 1;
      if m(routes[last]) && (b.None? || routes[last].prefixLength > routes[b.value].prefixLength)
      then Some(last)
      else b
  }

  /** The scan finds nothing exactly when no route matches, and otherwise
      finds the longest matching route, the earliest among equally long ones. */
  lemma {:induction false} BestByIsLongestEarliest(routes: seq<RouteEntry>, m: RouteEntry -> bool)
    ensures BestBy(routes, m).None? <==> forall j :: 0 <= j < |routes| ==> !m(routes[j])
    ensures BestBy(routes, m).Some? ==> IsLongestEarliestBy(routes, m, BestBy(routes, m).value)
  {
    if routes != [] {
      var init := routes[..|routes| - 1];
      BestByIsLongestEarliest(init, m);
      assert forall j :: 0 <= j < |init| ==> init[j] == routes[j];
    }
  }

  /** At most one route is longest-earliest. */
  lemma LongestEarliestUnique(routes: seq<RouteEntry>, m: RouteEntry -> bool, i: nat, k: nat)
    requires IsLongestEarliestBy(routes, m, i) && IsLongestEarliestBy(routes, m, k)
    ensures i == k
  {
  }

  /** The scan's result is characterised by the declarative selection both ways. */
  lemma BestByCharacterised(routes: seq<RouteEntry>, m: RouteEntry -> bool, i: nat)
    ensures BestBy(routes, m) == Some(i) <==> IsLongestEarliestBy(routes, m, i)
  {
    BestByIsLongestEarliest(routes, m);
    if IsLongestEarliestBy(routes, m, i) {
      LongestEarliestUnique(routes, m, i, BestBy(routes, m).value);
    }
  }

  /** The match test of line 46 for destination dst. */
  function MatchesFor(dst: Ip): RouteEntry -> bool {
    r => Matches(r, dst)
  }

  /** The route route_one_datagram picks for dst. */
  function Best(routes: seq<RouteEntry>, dst: Ip): (r: Option<nat>)
    ensures r.Some? ==> r.value < |routes|
  {
    BestBy(routes, MatchesFor(dst))
  }

  /** Route i is the longest-prefix match for dst, earliest among ties. */
  ghost predicate IsLongestEarliest(routes: seq<RouteEntry>, dst: Ip, i: nat) {
    IsLongestEarliestBy(routes, MatchesFor(dst), i)
  }

  /** No route is picked exactly when none matches; a picked route is the
      longest-prefix match, earliest among ties. */
  lemma BestIsLongestEarliest(routes: seq<RouteEntry>, dst: Ip)
    ensures Best(routes, dst).None? <==> forall j :: 0 <= j < |routes| ==> !Matches(routes[j], dst)
    ensures Best(routes, dst).Some? ==> IsLongestEarliest(routes, dst, Best(routes, dst).value)
  {
    BestByIsLongestEarliest(routes, MatchesFor(dst));
  }

  /** The route picked for dst is exactly the longest-earliest match. */
  lemma BestCharacterised(routes: seq<RouteEntry>, dst: Ip, i: nat)
    ensures Best(routes, dst) == Some(i) <==> IsLongestEarliest(routes, dst, i)
  {
    BestByCharacterised(routes, MatchesFor(dst), i);
  }

  /** Lines 57-61: the route's next hop, or the destination itself for a
      directly attached network. */
  function NextHopFor(r: RouteEntry, dst: Ip): Ip {
    if r.nextHop.Some? then r.nextHop.value else dst
  }

  /** The datagram with its time-to-live decremented (line 54). */
  function Decremented(d: InternetDatagram): InternetDatagram
    requires d.header.ttl > 0
  {
    d.(header := d.header.(ttl := d.header.ttl - 1))
  }

  /** What route_one_datagram hands to the interfaces for d (lines 53-63). */
  function Routed(routes: seq<RouteEntry>, d: InternetDatagram): seq<Forward> {
    match Best(routes, d.header.dst)
    case None => []
    case Some(i) =>
      if d.header.ttl > 1 then [Forward(routes[i].interfaceNum, NextHopFor(routes[i], d.header.dst), Decremented(d))]
      else []
  }

  /** A datagram is forwarded exactly when some route matches and its
      time-to-live exceeds 1; it is then forwarded once, on the interface of
      the longest-earliest route, to that route's next hop, with the
      time-to-live one lower and every other field unchanged. */
  lemma RoutedForwardsOnce(routes: seq<RouteEntry>, d: InternetDatagram)
    ensures Routed(routes, d) != [] <==> (exists j :: 0 <= j < |routes| && Matches(routes[j], d.header.dst)) && d.header.ttl > 1
    ensures forall i: nat :: IsLongestEarliest(routes, d.header.dst, i) && d.header.ttl > 1 ==>
      Routed(routes, d) == [Forward(routes[i].interfaceNum, NextHopFor(routes[i], d.header.dst), Decremented(d))]
  {
    BestIsLongestEarliest(routes, d.header.dst);
    forall i: nat | IsLongestEarliest(routes, d.header.dst, i) && d.header.ttl > 1
      ensures Routed(routes, d) == [Forward(routes[i].interfaceNum, NextHopFor(routes[i], d.header.dst), Decremented(d))]
    {
      BestCharacterised(routes, d.header.dst, i);
    }
  }

  /** Routing a queue: every datagram routed once, in queue order. */
  function RoutedQueue(routes: seq<RouteEntry>, q: seq<InternetDatagram>): seq<Forward> {
    if q == [] then [] else RoutedQueue(routes, q[..|q| - 1]) + Routed(routes, q[|q| - 1])
  }

  /** Routing the queues of all interfaces, first interface first. */
  function RoutedAll(routes: seq<RouteEntry>, qs: seq<seq<InternetDatagram>>): seq<Forward> {
    if qs == [] then [] else RoutedAll(routes, qs[..|qs| - 1]) + RoutedQueue(routes, qs[|qs| - 1])
  }

  /** Routing two queues back to back is routing their concatenation: each
      datagram's forwarding depends on that datagram alone. */
  lemma {:induction false} RoutedQueueConcat(routes: seq<RouteEntry>, a: seq<InternetDatagram>, b: seq<InternetDatagram>)
    ensures RoutedQueue(routes, a + b) == RoutedQueue(routes, a) + RoutedQueue(routes, b)
    decreases |b|
  {
    if b == [] {
      assert a + b == a;
    } else {
      var b' := b[..|b| - 1];
      assert (a + b)[..|a + b| - 1] == a + b';
      assert (a + b)[|a + b| - 1] == b[|b| - 1];
      RoutedQueueConcat(routes, a, b');
    }
  }

  /** Draining all queues routes their concatenation, in order. */
  lemma {:induction false} RoutedAllIsFlattened(routes: seq<RouteEntry>, qs: seq<seq<InternetDatagram>>)
    ensures RoutedAll(routes, qs) == RoutedQueue(routes, Flatten(qs))
  {
    if qs != [] {
      RoutedAllIsFlattened(routes, qs[..|qs| - 1]);
      RoutedQueueConcat(routes, Flatten(qs[..|qs| - 1]), qs[|qs| - 1]);
    }
  }

  /** Helpers for the loops of Router.DrainQueue and Router.Route. */
  lemma AppendAssoc<T>(a: seq<T>, b: seq<T>, c: seq<T>)
    ensures (a + b) + c == a + (b + c)
  {
  }

  lemma RoutedQueueStep(routes: seq<RouteEntry>, q: seq<InternetDatagram>, k: nat)
    requires k < |q|
    ensures RoutedQueue(routes, q[..k + 1]) == RoutedQueue(routes, q[..k]) + Routed(routes, q[k])
  {
    assert q[..k + 1][..k] == q[..k];
  }

  lemma RoutedAllStep(routes: seq<RouteEntry>, qs: seq<seq<InternetDatagram>>, n: nat)
    requires n < |qs|
    ensures RoutedAll(routes, qs[..n + 1]) == RoutedAll(routes, qs[..n]) + RoutedQueue(routes, qs[n])
  {
    assert qs[..n + 1][..n] == qs[..n];
  }

  /** The datagrams of all queues, first interface first. */
  function Flatten(qs: seq<seq<InternetDatagram>>): seq<InternetDatagram> {
    if qs == [] then [] else Flatten(qs[..|qs| - 1]) + qs[|qs| - 1]
  }

  ghost predicate AllEmpty(qs: seq<seq<InternetDatagram>>) {
    forall i :: 0 <= i < |qs| ==> qs[i] == []
  }

  class Router {
    /** `_route_table`, in the order routes were added. */
    var routeTable: seq<RouteEntry>
    /** Each interface's `datagrams_out()` queue: datagrams it received and
        passed up for routing. The interfaces are not part of this model. */
    var queues: seq<seq<InternetDatagram>>
    /** Every datagram handed to an interface so far, in order. */
    var sent: seq<Forward>

    constructor(queues: seq<seq<InternetDatagram>>)
      ensures routeTable == [] && this.queues == queues && sent == []
    {
      routeTable := [];
      this.queues := queues;
      sent := [];
    }

    /** add_route (router.cc:25-34): appends, keeping earlier routes in order. */
    method AddRoute(routePrefix: Ip, prefixLength: PrefixLength, nextHop: Option<Ip>, interfaceNum: nat)
      modifies this
      ensures routeTable == old(routeTable) + [RouteEntry(routePrefix, prefixLength, nextHop, interfaceNum)]
      ensures queues == old(queues) && sent == old(sent)
    {
      routeTable := routeTable + [RouteEntry(routePrefix, prefixLength, nextHop, interfaceNum)];
    }

    /** The scan of router.cc:40-51 over the table. */
    method FindBestMatch(dst: Ip) returns (best: Option<nat>)
      ensures best == Best(routeTable, dst)
      ensures best.Some? ==> IsLongestEarliest(routeTable, dst, best.value)
      ensures best.None? <==> forall j :: 0 <= j < |routeTable| ==> !Matches(routeTable[j], dst)
    {
      best := None;
      var i := 0;
      while i < |routeTable|
        invariant 0 <= i <= |routeTable|
        invariant best == Best(routeTable[..i], dst)
      {
        assert routeTable[..i + 1][..i] == routeTable[..i];
        if Matches(routeTable[i], dst) && (best.None? || routeTable[i].prefixLength > routeTable[best.value].prefixLength) {
          best := Some(i);
        }
        i := i + 1;
      }
      assert routeTable[..i] == routeTable;
      BestIsLongestEarliest(routeTable, dst);
    }

    /** route_one_datagram (router.cc:37-64). */
    method RouteOneDatagram(d: InternetDatagram)
      modifies this
      ensures sent == old(sent) + Routed(routeTable, d)
      ensures routeTable == old(routeTable) && queues == old(queues)
    {
      var best := FindBestMatch(d.header.dst);
      if best.Some? && d.header.ttl > 1 {
        var r := routeTable[best.value];
        var out := Decremented(d);
        if r.nextHop.Some? {
          sent := sent + [Forward(r.interfaceNum, r.nextHop.value, out)];
        } else {
          sent := sent + [Forward(r.interfaceNum, d.header.dst, out)];
        }
      }
    }

    /** router.cc:70-73: routes the datagrams of queue n from the front
        until it is empty. */
    method DrainQueue(n: nat)
      requires n < |queues|
      modifies this
      ensures |queues| == |old(queues)| && queues[n] == []
      ensures forall j :: 0 <= j < |queues| && j != n ==> queues[j] == old(queues)[j]
      ensures sent == old(sent) + RoutedQueue(routeTable, old(queues)[n])
      ensures routeTable == old(routeTable)
    {
      ghost var q := queues[n];
      ghost var k := 0;
      while queues[n] != []
        invariant k <= |q|
        invariant routeTable == old(routeTable)
        invariant queues == old(queues)[n := q[k..]]
        invariant sent == old(sent) + RoutedQueue(routeTable, q[..k])
        decreases |queues[n]|
      {
        RouteOneDatagram(queues[n][0]);
        RoutedQueueStep(routeTable, q, k);
        AppendAssoc(old(sent), RoutedQueue(routeTable, q[..k]), Routed(routeTable, q[k]));
        queues := queues[n := queues[n][1..]];
        k := k + 1;
      }
      assert q[..k] == q;
    }

    /** route (router.cc:66-75): drains every interface's queue in turn. */
    method Route()
      modifies this
      ensures sent == old(sent) + RoutedAll(routeTable, old(queues))
      ensures |queues| == |old(queues)| && AllEmpty(queues)
      ensures routeTable == old(routeTable)
    {
      ghost var qs := queues;
      var n := 0;
      while n < |queues|
        invariant n <= |queues| == |qs|
        invariant routeTable == old(routeTable)
        invariant forall j :: 0 <= j < n ==> queues[j] == []
        invariant forall j :: n <= j < |qs| ==> queues[j] == qs[j]
        invariant sent == old(sent) + RoutedAll(routeTable, qs[..n])
      {
        ghost var sentBefore := sent;
        assert queues[n] == qs[n];
        DrainQueue(n);
        assert sent == sentBefore + RoutedQueue(routeTable, qs[n]);
        RoutedAllStep(routeTable, qs, n);
        AppendAssoc(old(sent), RoutedAll(routeTable, qs[..n]), RoutedQueue(routeTable, qs[n]));
        n := n + 1;
      }
      assert qs[..n] == qs;
    }
  }
}
