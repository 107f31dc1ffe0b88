/** NetworkInterface: the link layer between IP and Ethernet. It resolves next-hop IPv4
    addresses to Ethernet addresses with ARP (RFC 826), caches what it learns for
    30 seconds, holds datagrams while a resolution is pending (asking again at most every
    5 seconds), and queues the datagrams it receives for the router.

    The value InterfaceState and its functions say what each operation does; the class
    NetworkInterface does it with the source's fields and loops and is proved to agree.
    The output port is modelled as the log of frames transmitted. */
module NetInterfaces {
  import opened Common
  import opened Wrap32
  import opened NetTypes

  /** How long a pending ARP request suppresses a new one, and when it expires (ms). */
  const ARP_REQUEST_PERIOD: nat := 5000
  /** How long a learned mapping stays in the ARP cache (ms). */
  const ARP_CACHE_TTL: nat := 30000

  /** An entry of arp_cache_: the Ethernet address and the time it was learned. */
  datatype CacheEntry = CacheEntry(mac: EthAddr, time: nat)

  /** An entry of datagrams_in_: a datagram waiting for its next hop to be resolved. */
  datatype Waiting = Waiting(dgram: Datagram, nextHop: u32)

  /** The frame carrying a datagram to a resolved Ethernet address. */
  function DatagramFrame(d: Datagram, dst: EthAddr, src: EthAddr): (f: Frame)
    ensures f.header.dst == dst && f.header.src == src && f.header.etherType == TYPE_IPV4
    ensures ParseDatagram(f.payload) == Some(d)
  {
    Frame(EthernetHeader(dst, src, TYPE_IPV4), DatagramBytes(d))
  }

  /** The broadcast ARP request asking who has target. */
  function RequestFrame(eth: EthAddr, ip: u32, target: u32): (f: Frame)
    ensures f.header.dst == ETHERNET_BROADCAST && f.header.src == eth && f.header.etherType == TYPE_ARP
    ensures ParseArp(f.payload).Some?
    ensures var m := ParseArp(f.payload).value;
      && m.opcode == OPCODE_REQUEST && m.senderEth == eth && m.senderIp == ip
      && m.targetEth == 0 && m.targetIp == target
  {
    Frame(EthernetHeader(ETHERNET_BROADCAST, eth, TYPE_ARP),
          ArpBytes(ArpMessage(OPCODE_REQUEST, eth, ip, 0, target)))
  }

  /** The ARP reply telling the sender of request that ip is at eth. */
  function ReplyFrame(eth: EthAddr, ip: u32, request: ArpMessage): (f: Frame)
    ensures f.header.dst == request.senderEth && f.header.src == eth && f.header.etherType == TYPE_ARP
    ensures ParseArp(f.payload).Some?
    ensures var m := ParseArp(f.payload).value;
      && m.opcode == OPCODE_REPLY && m.senderEth == eth && m.senderIp == ip
      && m.targetEth == request.senderEth && m.targetIp == request.senderIp
  {
    Frame(EthernetHeader(request.senderEth, eth, TYPE_ARP),
          ArpBytes(ArpMessage(OPCODE_REPLY, eth, ip, request.senderEth, request.senderIp)))
  }

  /** The frames carrying ds, in order, to dst. */
  function FramesFor(ds: seq<Datagram>, dst: EthAddr, src: EthAddr): (fs: seq<Frame>)
    ensures |fs| == |ds|
    ensures forall i :: 0 <= i < |ds| ==> fs[i] == DatagramFrame(ds[i], dst, src)
  {
    seq(|ds|, i requires 0 <= i < |ds| => DatagramFrame(ds[i], dst, src))
  }

  /** The waiting datagrams whose next hop is not in ips, in queue order. */
  function Without(ws: seq<Waiting>, ips: set<u32>): (kept: seq<Waiting>)
    ensures |kept| <= |ws|
    decreases |ws|
  {
    if ws == [] then []
    else
      var last := ws[|ws| - 1];
      Without(ws[..|ws| - 1], ips) + (if last.nextHop in ips then [] else [last])
  }

  /** The waiting datagrams whose next hop is ip, in queue order. */
  function Matching(ws: seq<Waiting>, ip: u32): (ds: seq<Datagram>)
    ensures |ds| <= |ws|
    decreases |ws|
  {
    if ws == [] then []
    else
      var last := ws[|ws| - 1];
      Matching(ws[..|ws| - 1], ip) + (if last.nextHop == ip then [last.dgram] else [])
  }

  /** The pending requests that are older than ARP_REQUEST_PERIOD once ms more have
      passed. */
  function StaleRequests(requests: map<u32, nat>, now: nat, ms: nat): (stale: set<u32>)
    ensures stale <= requests.Keys
    ensures forall ip :: ip in requests && requests[ip] + ARP_REQUEST_PERIOD < now + ms ==> ip in stale
  {
    set ip | ip in requests && ms + now - requests[ip] > ARP_REQUEST_PERIOD
  }

  /** The cache entries that are older than ARP_CACHE_TTL once ms more have passed. */
  function StaleEntries(cache: map<u32, CacheEntry>, now: nat, ms: nat): (stale: set<u32>)
    ensures stale <= cache.Keys
    ensures forall ip :: ip in cache && cache[ip].time + ARP_CACHE_TTL < now + ms ==> ip in stale
  {
    set ip | ip in cache && ms + now - cache[ip].time > ARP_CACHE_TTL
  }

  /** The state of a NetworkInterface. */
  datatype InterfaceState = InterfaceState(
    ethernetAddress: EthAddr,
    ipAddress: u32,
    cache: map<u32, CacheEntry>,     // arp_cache_
    requests: map<u32, nat>,         // arp_requests_: when each pending request was sent
    waiting: seq<Waiting>,           // datagrams_in_
    received: seq<Datagram>,         // datagrams_received_
    transmitted: seq<Frame>,         // every frame handed to the output port
    lastTick: nat)                   // last_tick_
  {
    /** No time recorded lies in the future, so the source's unsigned differences
        last_tick_ - time never wrap. */
    ghost predicate Valid()
    {
      && (forall ip :: ip in cache ==> cache[ip].time <= lastTick)
      && (forall ip :: ip in requests ==> requests[ip] <= lastTick)
    }

    /** send_datagram: frame dgram to the cached address of nextHop; otherwise queue it,
        and broadcast an ARP request unless one was sent less than ARP_REQUEST_PERIOD
        ago. */
    function SendDatagram(dgram: Datagram, nextHop: u32): (s: InterfaceState)
      ensures s.received == received && s.lastTick == lastTick
    {
      if nextHop in cache then
        this.(transmitted := transmitted + [DatagramFrame(dgram, cache[nextHop].mac, ethernetAddress)])
      else if nextHop in requests && lastTick - requests[nextHop] < ARP_REQUEST_PERIOD then
        this.(waiting := waiting + [Waiting(dgram, nextHop)])
      else
        this.(waiting := waiting + [Waiting(dgram, nextHop)],
              transmitted := transmitted + [RequestFrame(ethernetAddress, ipAddress, nextHop)],
              requests := requests[nextHop := lastTick])
    }

    /** recv_frame: ignore frames for other hosts; queue a parsed IPv4 datagram; learn
        from a parsed ARP message (see LearnArp). */
    function RecvFrame(frame: Frame): (s: InterfaceState)
      ensures s.lastTick == lastTick
      ensures s.received == received
        || (|s.received| == |received| + 1 && s.received[..|received|] == received)
      ensures frame.header.dst != ethernetAddress && frame.header.dst != ETHERNET_BROADCAST ==> s == this
    {
      if frame.header.dst != ethernetAddress && frame.header.dst != ETHERNET_BROADCAST then this
      else if frame.header.etherType == TYPE_IPV4 then
        match ParseDatagram(frame.payload)
        case None => this
        case Some(d) => this.(received := received + [d])
      else if frame.header.etherType == TYPE_ARP then
        match ParseArp(frame.payload)
        case None => this
        case Some(m) => LearnArp(m)
      else this
    }

    /** What an ARP message does: cache its sender's mapping, clear the pending request
        for the sender, send every datagram waiting for the sender, and answer a request
        for this interface's own address. */
    function LearnArp(m: ArpMessage): (s: InterfaceState)
      ensures s.received == received && s.lastTick == lastTick
      ensures m.senderIp in s.cache && s.cache[m.senderIp].mac == m.senderEth
      ensures m.senderIp !in s.requests
      ensures transmitted <= s.transmitted
    {
      var released := this.(
        cache := cache[m.senderIp := CacheEntry(m.senderEth, lastTick)],
        requests := requests - {m.senderIp},
        waiting := Without(waiting, {m.senderIp}),
        transmitted := transmitted + FramesFor(Matching(waiting, m.senderIp), m.senderEth, ethernetAddress));
      if m.opcode == OPCODE_REQUEST && m.targetIp == ipAddress then
        released.(transmitted := released.transmitted + [ReplyFrame(ethernetAddress, ipAddress, m)])
      else released
    }

    /** tick: expire stale requests with the datagrams waiting on them, expire stale cache
        entries, and advance the clock. */
    function Tick(ms: nat): (s: InterfaceState)
      ensures s.lastTick == lastTick + ms
      ensures s.received == received && s.transmitted == transmitted
      ensures s.requests.Keys <= requests.Keys && s.cache.Keys <= cache.Keys
    {
      var stale := StaleRequests(requests, lastTick, ms);
      this.(requests := requests - stale,
            waiting := Without(waiting, stale),
            cache := cache - StaleEntries(cache, lastTick, ms),
            lastTick := lastTick + ms)
    }
  }

  /** A new interface: nothing cached, pending, waiting, received or sent. */
  function NewInterface(eth: EthAddr, ip: u32): (s: InterfaceState)
    ensures s.Valid()
  {
    InterfaceState(eth, ip, map[], map[], [], [], [], 0)
  }

  lemma WithoutSnoc(ws: seq<Waiting>, ips: set<u32>, j: nat)
    requires j < |ws|
    ensures Without(ws[..j + 1], ips) == Without(ws[..j], ips) + (if ws[j].nextHop in ips then [] else [ws[j]])
  {
    assert ws[..j + 1][..j] == ws[..j];
  }

  lemma MatchingSnoc(ws: seq<Waiting>, ip: u32, j: nat)
    requires j < |ws|
    ensures Matching(ws[..j + 1], ip) == Matching(ws[..j], ip) + (if ws[j].nextHop == ip then [ws[j].dgram] else [])
  {
    assert ws[..j + 1][..j] == ws[..j];
  }

  lemma FramesForSnoc(ds: seq<Datagram>, d: Datagram, dst: EthAddr, src: EthAddr)
    ensures FramesFor(ds + [d], dst, src) == FramesFor(ds, dst, src) + [DatagramFrame(d, dst, src)]
  {
  }

  /** Removing the datagrams for A and then those for B removes those for A + B. */
  lemma {:induction false} WithoutTwice(ws: seq<Waiting>, a: set<u32>, b: set<u32>)
    ensures Without(Without(ws, a), b) == Without(ws, a + b)
    decreases |ws|
  {
    if ws != [] {
      var init := ws[..|ws| - 1];
      var last := ws[|ws| - 1];
      WithoutTwice(init, a, b);
      var tail := if last.nextHop in a then [] else [last];
      WithoutAppend(Without(init, a), tail, b);
      if last.nextHop !in a {
        assert Without(tail, b) == Without([], b) + (if last.nextHop in b then [] else [last]);
      }
    }
  }

  lemma {:induction false} WithoutAppend(xs: seq<Waiting>, ys: seq<Waiting>, ips: set<u32>)
    ensures Without(xs + ys, ips) == Without(xs, ips) + Without(ys, ips)
    decreases |ys|
  {
    if ys == [] {
      assert xs + ys == xs;
    } else {
      var init := ys[..|ys| - 1];
      WithoutAppend(xs, init, ips);
      assert (xs + ys)[..|xs + ys| - 1] == xs + init;
    }
  }

  /** The class form of NetworkInterface. */
  class NetworkInterface {
    const ethernetAddress: EthAddr
    const ipAddress: u32
    var arpCache: map<u32, CacheEntry>
    var arpRequests: map<u32, nat>
    var datagramsIn: seq<Waiting>
    var datagramsReceived: seq<Datagram>
    var transmitted: seq<Frame>
    var lastTick: nat

    function Model(): InterfaceState
      reads this
    {
      InterfaceState(ethernetAddress, ipAddress, arpCache, arpRequests, datagramsIn,
                     datagramsReceived, transmitted, lastTick)
    }

    constructor (eth: EthAddr, ip: u32)
      ensures Model() == NewInterface(eth, ip)
    {
      ethernetAddress := eth;
      ipAddress := ip;
      arpCache := map[];
      arpRequests := map[];
      datagramsIn := [];
      datagramsReceived := [];
      transmitted := [];
      lastTick := 0;
    }

    method SendDatagram(dgram: Datagram, nextHop: u32)
      modifies this
      ensures Model() == old(Model()).SendDatagram(dgram, nextHop)
    {
      if nextHop in arpCache {
        var frame := DatagramFrame(dgram, arpCache[nextHop].mac, ethernetAddress);
        transmitted := transmitted + [frame];
      } else {
        if nextHop in arpRequests {
          if lastTick - arpRequests[nextHop] < ARP_REQUEST_PERIOD {
            datagramsIn := datagramsIn + [Waiting(dgram, nextHop)];
            return;
          }
        }
        var frame := RequestFrame(ethernetAddress, ipAddress, nextHop);
        datagramsIn := datagramsIn + [Waiting(dgram, nextHop)];
        transmitted := transmitted + [frame];
        arpRequests := arpRequests[nextHop := lastTick];
      }
    }

    method RecvFrame(frame: Frame)
      modifies this
      ensures Model() == old(Model()).RecvFrame(frame)
    {
      if frame.header.dst != ethernetAddress && frame.header.dst != ETHERNET_BROADCAST {
        return;
      }
      if frame.header.etherType == TYPE_IPV4 {
        var parsed := ParseDatagram(frame.payload);
        if parsed.Some? {
          datagramsReceived := datagramsReceived + [parsed.value];
        }
      } else if frame.header.etherType == TYPE_ARP {
        var parsed := ParseArp(frame.payload);
        if parsed.Some? {
          LearnArp(parsed.value);
        }
      }
    }

    /** recv_frame's handling of a parsed ARP message. */
    method LearnArp(m: ArpMessage)
      modifies this
      ensures Model() == old(Model()).LearnArp(m)
    {
      arpCache := arpCache[m.senderIp := CacheEntry(m.senderEth, lastTick)];
      if m.senderIp in arpRequests {
        arpRequests := arpRequests - {m.senderIp};
      }
      ReleaseWaiting(m.senderIp);
      if m.opcode == OPCODE_REQUEST {
        if m.targetIp != ipAddress {
          return;
        }
        var reply := ReplyFrame(ethernetAddress, ipAddress, m);
        transmitted := transmitted + [reply];
      }
    }

    /** Send and remove every datagram waiting for ip, now that ip is in the cache. */
    method ReleaseWaiting(ip: u32)
      requires ip in arpCache
      modifies this
      ensures Model() == old(Model()).(
        waiting := Without(old(datagramsIn), {ip}),
        transmitted := old(transmitted) + FramesFor(Matching(old(datagramsIn), ip), old(arpCache)[ip].mac, ethernetAddress))
    {
      ghost var ws := datagramsIn;
      ghost var mac := arpCache[ip].mac;
      ghost var j := 0;
      var i := 0;
      while i < |datagramsIn|
        invariant arpCache == old(arpCache) && arpRequests == old(arpRequests)
        invariant datagramsReceived == old(datagramsReceived) && lastTick == old(lastTick)
        invariant 0 <= j <= |ws| && i == |Without(ws[..j], {ip})| && |datagramsIn| - i == |ws| - j
        invariant datagramsIn == Without(ws[..j], {ip}) + ws[j..]
        invariant transmitted == old(transmitted) + FramesFor(Matching(ws[..j], ip), mac, ethernetAddress)
        decreases |datagramsIn| - i
      {
        EraseStep(ws, {ip}, j, datagramsIn, i);
        MatchingSnoc(ws, ip, j);
        if datagramsIn[i].nextHop == ip {
          FramesForSnoc(Matching(ws[..j], ip), ws[j].dgram, mac, ethernetAddress);
          SendDatagram(datagramsIn[i].dgram, datagramsIn[i].nextHop);
          datagramsIn := datagramsIn[..i] + datagramsIn[i + 1..];
        } else {
          i := i + 1;
        }
        j := j + 1;
      }
      assert ws[..j] == ws;
    }

    /** Remove every datagram waiting for ip. */
    method DropWaiting(ip: u32)
      modifies this
      ensures Model() == old(Model()).(waiting := Without(old(datagramsIn), {ip}))
    {
      ghost var ws := datagramsIn;
      ghost var j := 0;
      var i := 0;
      while i < |datagramsIn|
        invariant arpCache == old(arpCache) && arpRequests == old(arpRequests) && transmitted == old(transmitted)
        invariant datagramsReceived == old(datagramsReceived) && lastTick == old(lastTick)
        invariant 0 <= j <= |ws| && i == |Without(ws[..j], {ip})| && |datagramsIn| - i == |ws| - j
        invariant datagramsIn == Without(ws[..j], {ip}) + ws[j..]
        decreases |datagramsIn| - i
      {
        EraseStep(ws, {ip}, j, datagramsIn, i);
        if datagramsIn[i].nextHop == ip {
          datagramsIn := datagramsIn[..i] + datagramsIn[i + 1..];
        } else {
          i := i + 1;
        }
        j := j + 1;
      }
      assert ws[..j] == ws;
    }

    method Tick(ms: nat)
      modifies this
      ensures Model() == old(Model()).Tick(ms)
    {
      ExpireRequests(ms);
      ExpireCache(ms);
      lastTick := lastTick + ms;
    }

    /** tick's first loop: erase each stale pending request and the datagrams waiting on
        it. */
    method ExpireRequests(ms: nat)
      modifies this
      ensures Model() == old(Model()).(
        requests := old(arpRequests) - StaleRequests(old(arpRequests), lastTick, ms),
        waiting := Without(old(datagramsIn), StaleRequests(old(arpRequests), lastTick, ms)))
    {
      ghost var stale := StaleRequests(arpRequests, lastTick, ms);
      var todo := arpRequests.Keys;
      WithoutNone(datagramsIn);
      assert stale - todo == {};
      while todo != {}
        invariant todo <= old(arpRequests).Keys
        invariant arpCache == old(arpCache) && transmitted == old(transmitted)
        invariant datagramsReceived == old(datagramsReceived) && lastTick == old(lastTick)
        invariant arpRequests == old(arpRequests) - (stale - todo)
        invariant datagramsIn == Without(old(datagramsIn), stale - todo)
        decreases todo
      {
        var ip :| ip in todo;
        if ms + lastTick - arpRequests[ip] > ARP_REQUEST_PERIOD {
          DropWaiting(ip);
          WithoutTwice(old(datagramsIn), stale - todo, {ip});
          assert (stale - todo) + {ip} == stale - (todo - {ip});
          arpRequests := arpRequests - {ip};
        } else {
          assert stale - todo == stale - (todo - {ip});
        }
        todo := todo - {ip};
      }
      assert stale - todo == stale;
    }

    /** tick's second loop: erase each stale cache entry. */
    method ExpireCache(ms: nat)
      modifies this
      ensures Model() == old(Model()).(cache := old(arpCache) - StaleEntries(old(arpCache), lastTick, ms))
    {
      ghost var stale := StaleEntries(arpCache, lastTick, ms);
      var todo := arpCache.Keys;
      while todo != {}
        invariant todo <= old(arpCache).Keys
        invariant arpRequests == old(arpRequests) && datagramsIn == old(datagramsIn) && transmitted == old(transmitted)
        invariant datagramsReceived == old(datagramsReceived) && lastTick == old(lastTick)
        invariant arpCache == old(arpCache) - (stale - todo)
        decreases todo
      {
        var ip :| ip in todo;
        if ms + lastTick - arpCache[ip].time > ARP_CACHE_TTL {
          arpCache := arpCache - {ip};
          assert (stale - todo) + {ip} == stale - (todo - {ip});
        } else {
          assert stale - todo == stale - (todo - {ip});
        }
        todo := todo - {ip};
      }
    }
  }

  /** One pass of an erase-while-iterating loop over ws: cur holds the kept part of
      ws[..j] followed by ws[j..], and i points at ws[j]. */
  lemma EraseStep(ws: seq<Waiting>, ips: set<u32>, j: nat, cur: seq<Waiting>, i: nat)
    requires j < |ws| && cur == Without(ws[..j], ips) + ws[j..] && i == |Without(ws[..j], ips)|
    ensures i < |cur| && cur[i] == ws[j]
    ensures ws[j].nextHop in ips ==>
      cur[..i] + cur[i + 1..] == Without(ws[..j + 1], ips) + ws[j + 1..] && i == |Without(ws[..j + 1], ips)|
    ensures ws[j].nextHop !in ips ==>
      cur == Without(ws[..j + 1], ips) + ws[j + 1..] && i + 1 == |Without(ws[..j + 1], ips)|
  {
    WithoutSnoc(ws, ips, j);
    assert ws[j..] == [ws[j]] + ws[j + 1..];
    assert cur[..i] == Without(ws[..j], ips) && cur[i + 1..] == ws[j + 1..];
  }

  lemma {:induction false} WithoutNone(ws: seq<Waiting>)
    ensures Without(ws, {}) == ws
    decreases |ws|
  {
    if ws != [] {
      WithoutNone(ws[..|ws| - 1]);
      assert ws[..|ws| - 1] + [ws[|ws| - 1]] == ws;
    }
  }
}
