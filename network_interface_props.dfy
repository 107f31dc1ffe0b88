/** What send_datagram, recv_frame and tick promise: a cached next hop is sent to at once;
    an unresolved one is asked for at most once per ARP_REQUEST_PERIOD; an ARP message
    releases, in order and exactly once, every datagram waiting for its sender; stale
    requests and cache entries age out; and no recorded time lies in the future. */
module NetInterfaceProps {
  import opened Common
  import opened Wrap32
  import opened NetTypes
  import opened NetInterfaces

  /** Without keeps exactly the waiting datagrams whose next hop is not in ips. */
  lemma {:induction false} WithoutMembers(ws: seq<Waiting>, ips: set<u32>)
    ensures forall w :: w in Without(ws, ips) <==> w in ws && w.nextHop !in ips
    decreases |ws|
  {
    if ws != [] {
      var init := ws[..|ws| - 1];
      WithoutMembers(init, ips);
      assert ws == init + [ws[|ws| - 1]];
    }
  }

  /** Matching picks exactly the datagrams waiting for ip. */
  lemma {:induction false} MatchingMembers(ws: seq<Waiting>, ip: u32)
    ensures forall d :: d in Matching(ws, ip) <==> Waiting(d, ip) in ws
    decreases |ws|
  {
    if ws != [] {
      var init := ws[..|ws| - 1];
      MatchingMembers(init, ip);
      assert ws == init + [ws[|ws| - 1]];
    }
  }

  /** Every waiting datagram is either kept by Without or picked by Matching, never both:
      the queue splits into what an ARP message for ip releases and what stays. */
  lemma {:induction false} WaitingSplits(ws: seq<Waiting>, ip: u32)
    ensures |Without(ws, {ip})| + |Matching(ws, ip)| == |ws|
    decreases |ws|
  {
    if ws != [] {
      WaitingSplits(ws[..|ws| - 1], ip);
    }
  }

  /** send_datagram to a cached next hop transmits exactly one IPv4 frame, to the cached
      Ethernet address and from this interface's, and queues nothing. */
  lemma SendCached(st: InterfaceState, d: Datagram, hop: u32)
    requires hop in st.cache
    ensures var st' := st.SendDatagram(d, hop);
      && st'.transmitted == st.transmitted + [st'.transmitted[|st.transmitted|]]
      && var f := st'.transmitted[|st.transmitted|];
      && f.header.dst == st.cache[hop].mac && f.header.src == st.ethernetAddress
      && f.header.etherType == TYPE_IPV4 && ParseDatagram(f.payload) == Some(d)
      && st'.waiting == st.waiting && st'.requests == st.requests && st'.cache == st.cache
  {
  }

  /** send_datagram to an unresolved next hop whose request is younger than
      ARP_REQUEST_PERIOD queues the datagram and transmits nothing. */
  lemma SendSuppressed(st: InterfaceState, d: Datagram, hop: u32)
    requires hop !in st.cache && hop in st.requests && st.lastTick - st.requests[hop] < ARP_REQUEST_PERIOD
    ensures var st' := st.SendDatagram(d, hop);
      st'.transmitted == st.transmitted && st'.waiting == st.waiting + [Waiting(d, hop)]
      && st'.requests == st.requests && st'.cache == st.cache
  {
  }

  /** Otherwise send_datagram queues the datagram and broadcasts one ARP request for the
      next hop, sent from this interface's addresses, and records when. */
  lemma SendRequests(st: InterfaceState, d: Datagram, hop: u32)
    requires hop !in st.cache && !(hop in st.requests && st.lastTick - st.requests[hop] < ARP_REQUEST_PERIOD)
    ensures var st' := st.SendDatagram(d, hop);
      && st'.waiting == st.waiting + [Waiting(d, hop)]
      && |st'.transmitted| == |st.transmitted| + 1 && st'.transmitted[..|st.transmitted|] == st.transmitted
      && var f := st'.transmitted[|st.transmitted|];
      && f.header.dst == ETHERNET_BROADCAST && f.header.src == st.ethernetAddress
      && f.header.etherType == TYPE_ARP
      && ParseArp(f.payload) == Some(ArpMessage(OPCODE_REQUEST, st.ethernetAddress, st.ipAddress, 0, hop))
      && st'.requests == st.requests[hop := st.lastTick] && st'.cache == st.cache
  {
  }

  /** A request is not repeated within ARP_REQUEST_PERIOD: once send_datagram has asked
      for hop, another datagram for hop less than ARP_REQUEST_PERIOD later only waits. */
  lemma NoDuplicateRequest(st: InterfaceState, d1: Datagram, d2: Datagram, hop: u32, ms: nat)
    requires st.Valid() && hop !in st.cache
    requires !(hop in st.requests && st.lastTick - st.requests[hop] < ARP_REQUEST_PERIOD)
    requires ms < ARP_REQUEST_PERIOD
    ensures var st1 := st.SendDatagram(d1, hop).Tick(ms);
      var st2 := st1.SendDatagram(d2, hop);
      st2.transmitted == st1.transmitted && st2.waiting == st1.waiting + [Waiting(d2, hop)]
  {
    var st0 := st.SendDatagram(d1, hop);
    assert hop !in StaleRequests(st0.requests, st0.lastTick, ms);
  }

  /** Exactly ARP_REQUEST_PERIOD after a request, the request has not expired and yet a
      new one is broadcast: suppression tests "< 5000" while expiry tests "> 5000". */
  lemma RequestRepeatedAtPeriod(st: InterfaceState, d1: Datagram, d2: Datagram, hop: u32)
    requires st.Valid() && hop !in st.cache
    requires !(hop in st.requests && st.lastTick - st.requests[hop] < ARP_REQUEST_PERIOD)
    ensures var st1 := st.SendDatagram(d1, hop).Tick(ARP_REQUEST_PERIOD);
      var st2 := st1.SendDatagram(d2, hop);
      && hop in st1.requests
      && st2.transmitted == st1.transmitted + [RequestFrame(st.ethernetAddress, st.ipAddress, hop)]
  {
    var st0 := st.SendDatagram(d1, hop);
    assert hop !in StaleRequests(st0.requests, st0.lastTick, ARP_REQUEST_PERIOD);
  }

  /** recv_frame ignores a frame addressed neither to this interface nor to broadcast,
      a frame of another type, and a payload that does not parse. */
  lemma RecvIgnores(st: InterfaceState, f: Frame)
    requires || (f.header.dst != st.ethernetAddress && f.header.dst != ETHERNET_BROADCAST)
             || (f.header.etherType != TYPE_IPV4 && f.header.etherType != TYPE_ARP)
             || f.payload.Unparseable?
    ensures st.RecvFrame(f) == st
  {
  }

  /** recv_frame queues an IPv4 datagram addressed to this interface or to broadcast for
      the router, and changes nothing else. */
  lemma RecvDatagram(st: InterfaceState, d: Datagram, dst: EthAddr, src: EthAddr)
    requires dst == st.ethernetAddress || dst == ETHERNET_BROADCAST
    ensures st.RecvFrame(DatagramFrame(d, dst, src)) == st.(received := st.received + [d])
  {
  }

  /** Any ARP message caches its sender's mapping with the current time and clears the
      pending request for the sender; other mappings and requests stay. */
  lemma ArpLearns(st: InterfaceState, m: ArpMessage)
    ensures var st' := st.LearnArp(m);
      && st'.cache[m.senderIp] == CacheEntry(m.senderEth, st.lastTick)
      && m.senderIp !in st'.requests
      && (forall ip :: ip != m.senderIp ==> (ip in st'.cache <==> ip in st.cache))
      && (forall ip :: ip != m.senderIp && ip in st.cache ==> st'.cache[ip] == st.cache[ip])
      && (forall ip :: ip != m.senderIp ==> (ip in st'.requests <==> ip in st.requests))
      && st'.received == st.received && st'.lastTick == st.lastTick
  {
  }

  /** After an ARP message from X nothing waits for X and everything else still waits;
      each datagram that waited for X is transmitted once, in queue order, to X's
      Ethernet address, before any reply. */
  lemma ArpReleases(st: InterfaceState, m: ArpMessage)
    ensures var st' := st.LearnArp(m);
      var released := Matching(st.waiting, m.senderIp);
      && (forall w :: w in st'.waiting ==> w.nextHop != m.senderIp)
      && (forall w :: w in st.waiting && w.nextHop != m.senderIp ==> w in st'.waiting)
      && |st'.waiting| + |released| == |st.waiting|
      && (forall d :: d in released <==> Waiting(d, m.senderIp) in st.waiting)
      && |st'.transmitted| >= |st.transmitted| + |released|
      && (forall i :: 0 <= i < |released| ==>
            st'.transmitted[|st.transmitted| + i] == DatagramFrame(released[i], m.senderEth, st.ethernetAddress))
  {
    WithoutMembers(st.waiting, {m.senderIp});
    MatchingMembers(st.waiting, m.senderIp);
    WaitingSplits(st.waiting, m.senderIp);
  }

  /** An ARP message is answered exactly when it is a request for this interface's own
      address; the reply goes to the requester and tells it this interface's
      addresses. */
  lemma ArpAnswers(st: InterfaceState, m: ArpMessage)
    ensures var st' := st.LearnArp(m);
      var n := |st.transmitted| + |Matching(st.waiting, m.senderIp)|;
      && (m.opcode == OPCODE_REQUEST && m.targetIp == st.ipAddress <==> |st'.transmitted| == n + 1)
      && (|st'.transmitted| == n + 1 ==>
            var f := st'.transmitted[n];
            && f.header.dst == m.senderEth && f.header.src == st.ethernetAddress && f.header.etherType == TYPE_ARP
            && ParseArp(f.payload) == Some(ArpMessage(OPCODE_REPLY, st.ethernetAddress, st.ipAddress, m.senderEth, m.senderIp)))
      && |st'.transmitted| <= n + 1
  {
  }

  /** A datagram sent to an unresolved next hop goes out, to the resolved address, when
      that hop's ARP reply arrives. */
  lemma WaitingUntilReply(st: InterfaceState, d: Datagram, hop: u32, reply: ArpMessage)
    requires hop !in st.cache && reply.senderIp == hop
    ensures var st1 := st.SendDatagram(d, hop);
      var st2 := st1.RecvFrame(Frame(EthernetHeader(st.ethernetAddress, reply.senderEth, TYPE_ARP), ArpBytes(reply)));
      && (forall w :: w in st2.waiting ==> w.nextHop != hop)
      && DatagramFrame(d, reply.senderEth, st.ethernetAddress) in st2.transmitted
  {
    var st1 := st.SendDatagram(d, hop);
    var released := Matching(st1.waiting, hop);
    MatchingMembers(st1.waiting, hop);
    assert Waiting(d, hop) in st1.waiting by {
      assert st1.waiting[|st1.waiting| - 1] == Waiting(d, hop);
    }
    var k :| 0 <= k < |released| && released[k] == d;
    var frame := Frame(EthernetHeader(st.ethernetAddress, reply.senderEth, TYPE_ARP), ArpBytes(reply));
    var st2 := st1.RecvFrame(frame);
    assert st2 == st1.LearnArp(reply);
    WithoutMembers(st1.waiting, {hop});
    var tx := st1.transmitted + FramesFor(released, reply.senderEth, st.ethernetAddress);
    assert tx[|st1.transmitted| + k] == DatagramFrame(d, reply.senderEth, st.ethernetAddress);
    assert st2.transmitted == tx || st2.transmitted == tx + [ReplyFrame(st.ethernetAddress, st.ipAddress, reply)];
    assert st2.transmitted[|st1.transmitted| + k] == tx[|st1.transmitted| + k];
  }

  /** tick keeps exactly the requests at most ARP_REQUEST_PERIOD old and the cache
      entries at most ARP_CACHE_TTL old (counting the ms that pass), drops every datagram
      waiting on an expired request and keeps the others, and advances the clock by
      ms. */
  lemma TickExpires(st: InterfaceState, ms: nat)
    ensures var st' := st.Tick(ms);
      && (forall ip :: ip in st'.requests <==> ip in st.requests && ms + st.lastTick - st.requests[ip] <= ARP_REQUEST_PERIOD)
      && (forall ip :: ip in st'.requests ==> st'.requests[ip] == st.requests[ip])
      && (forall ip :: ip in st'.cache <==> ip in st.cache && ms + st.lastTick - st.cache[ip].time <= ARP_CACHE_TTL)
      && (forall ip :: ip in st'.cache ==> st'.cache[ip] == st.cache[ip])
      && (forall w :: w in st'.waiting <==> w in st.waiting && w.nextHop !in StaleRequests(st.requests, st.lastTick, ms))
      && st'.lastTick == st.lastTick + ms && st'.transmitted == st.transmitted && st'.received == st.received
  {
    WithoutMembers(st.waiting, StaleRequests(st.requests, st.lastTick, ms));
  }

  /** Every operation keeps recorded times in the past. */
  lemma SendKeepsValid(st: InterfaceState, d: Datagram, hop: u32)
    requires st.Valid()
    ensures st.SendDatagram(d, hop).Valid()
  {
  }

  lemma RecvKeepsValid(st: InterfaceState, f: Frame)
    requires st.Valid()
    ensures st.RecvFrame(f).Valid()
  {
  }

  lemma TickKeepsValid(st: InterfaceState, ms: nat)
    requires st.Valid()
    ensures st.Tick(ms).Valid()
  {
  }
}
