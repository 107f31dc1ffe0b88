/** Router: a forwarding table of prefix rules over a set of network interfaces. route()
    drains each interface's queue of received datagrams in turn; a datagram whose TTL is
    at most 1 is dropped, any other one loses one from its TTL and goes out on the
    interface of the longest matching rule (section 5.2.4.3 of RFC 1812), to the rule's
    next hop or, for a directly attached network, to the datagram's own destination.

    Rule selection and forwarding are stated on values (BestMatch, Forward, Drain,
    RouteFrom); the class Router does the same with the source's loops over the
    interface objects and is proved to agree. */
module Routers {
  import opened Common
  import opened Wrap32
  import opened NetTypes
  import opened NetInterfaces

  /** A forwarding-table entry. */
  datatype Rule = Rule(routePrefix: u32, prefixLength: u8, nextHop: Option<u32>, interfaceNum: nat)

  function Pow2(k: nat): (p: nat)
    ensures p >= 1
  {
    if k == 0 then 1 else 2 * Pow2(k - 1)
  }

  /** A rule whose match test is defined: the source shifts by 32 - prefix_length, which is
      undefined for a length of 0 or above 32 unless the prefix is 0 and the shift is
      skipped. */
  predicate WellFormed(r: Rule)
  {
    r.routePrefix == 0 || 1 <= r.prefixLength <= 32
  }

  predicate AllWellFormed(table: seq<Rule>)
  {
    forall i :: 0 <= i < |table| ==> WellFormed(table[i])
  }

  /** route's match test: the prefix is 0, or the prefix and the destination agree once
      both are shifted right by 32 - prefix_length bits. */
  predicate Matches(r: Rule, dst: u32): (b: bool)
    requires WellFormed(r)
    ensures dst == r.routePrefix ==> b
    ensures r.routePrefix != 0 && r.prefixLength == 32 ==> (b <==> dst == r.routePrefix)
  {
    r.routePrefix == 0 || r.routePrefix / Pow2(32 - r.prefixLength) == dst / Pow2(32 - r.prefixLength)
  }

  /** The rule route's loop selects: the last rule that matches and is strictly longer
      than every matching rule before it, so the longest match wins and the earliest
      rule wins a tie; None if no rule matches. */
  function BestMatch(table: seq<Rule>, dst: u32): (best: Option<nat>)
    requires AllWellFormed(table)
    ensures best.Some? ==> best.value < |table|
    decreases |table|
  {
    if table == [] then None
    else
      var before := BestMatch(table[..|table| - 1], dst);
      var last := table[|table| - 1];
      if Matches(last, dst) && (before.None? || last.prefixLength > table[before.value].prefixLength) then
        Some(|table| - 1)
      else before
  }

  /** What it means for best to be route's choice: None when nothing matches; otherwise a
      matching rule, as long as every matching rule, and strictly longer than every
      matching rule before it. */
  ghost predicate IsBest(table: seq<Rule>, dst: u32, best: Option<nat>)
    requires AllWellFormed(table)
  {
    match best
    case None => forall j :: 0 <= j < |table| ==> !Matches(table[j], dst)
    case Some(k) =>
      && k < |table| && Matches(table[k], dst)
      && (forall j :: 0 <= j < |table| && Matches(table[j], dst) ==> table[j].prefixLength <= table[k].prefixLength)
      && (forall j :: 0 <= j < k && Matches(table[j], dst) ==> table[j].prefixLength < table[k].prefixLength)
  }

  /** Rules fit n interfaces: every rule is well formed and names one of them. */
  predicate TableFits(table: seq<Rule>, n: nat)
  {
    AllWellFormed(table) && forall i :: 0 <= i < |table| ==> table[i].interfaceNum < n
  }

  /** add_route: fails when the interface number is out of range, else appends. */
  function TableWithRoute(table: seq<Rule>, interfaceCount: nat, rule: Rule): (t: Option<seq<Rule>>)
    ensures t.Some? <==> rule.interfaceNum < interfaceCount
    ensures t.Some? ==> |t.value| == |table| + 1 && t.value[..|table|] == table && t.value[|table|] == rule
  {
    if rule.interfaceNum >= interfaceCount then None else Some(table + [rule])
  }

  /** Where a datagram forwarded by rule is sent: the rule's next hop, or for a directly
      attached network the datagram's destination. */
  function NextHop(rule: Rule, d: Datagram): (h: u32)
    ensures rule.nextHop.Some? ==> h == rule.nextHop.value
    ensures rule.nextHop.None? ==> h == d.dst
  {
    if rule.nextHop.Some? then rule.nextHop.value else d.dst
  }

  /** route's handling of one datagram taken from a queue. */
  function Forward(ifaces: seq<InterfaceState>, table: seq<Rule>, d: Datagram): (r: seq<InterfaceState>)
    requires TableFits(table, |ifaces|)
    ensures |r| == |ifaces| && forall j :: 0 <= j < |r| ==> r[j].received == ifaces[j].received
  {
    if d.ttl <= 1 then ifaces
    else
      var d' := d.(ttl := d.ttl - 1);
      match BestMatch(table, d'.dst)
      case None => ifaces
      case Some(k) =>
        var n := table[k].interfaceNum;
        ifaces[n := ifaces[n].SendDatagram(d', NextHop(table[k], d'))]
  }

  /** route's inner loop: forward the datagrams received on interface i, oldest first,
      until its queue is empty; the other queues are untouched. */
  function Drain(ifaces: seq<InterfaceState>, table: seq<Rule>, i: nat): (r: seq<InterfaceState>)
    requires TableFits(table, |ifaces|) && i < |ifaces|
    ensures |r| == |ifaces| && r[i].received == []
    ensures forall j :: 0 <= j < |r| && j != i ==> r[j].received == ifaces[j].received
    decreases |ifaces[i].received|
  {
    var queue := ifaces[i].received;
    if queue == [] then ifaces
    else Drain(Forward(ifaces[i := ifaces[i].(received := queue[1..])], table, queue[0]), table, i)
  }

  /** route's outer loop, from interface i on: once it is done, every queue from i on is
      empty and the queues before i are untouched. */
  function RouteFrom(ifaces: seq<InterfaceState>, table: seq<Rule>, i: nat): (r: seq<InterfaceState>)
    requires TableFits(table, |ifaces|) && i <= |ifaces|
    ensures |r| == |ifaces|
    ensures forall j :: i <= j < |r| ==> r[j].received == []
    ensures forall j :: 0 <= j < i ==> r[j].received == ifaces[j].received
    decreases |ifaces| - i
  {
    if i == |ifaces| then ifaces
    else RouteFrom(Drain(ifaces, table, i), table, i + 1)
  }

  /** The longest-prefix-match loop of route. */
  method LongestPrefixMatch(table: seq<Rule>, dst: u32) returns (best: Option<nat>)
    requires AllWellFormed(table)
    ensures best == BestMatch(table, dst)
    ensures IsBest(table, dst, best)
  {
    best := None;
    var i := 0;
    while i < |table|
      invariant 0 <= i <= |table|
      invariant best == BestMatch(table[..i], dst)
    {
      assert table[..i + 1][..i] == table[..i];
      var rule := table[i];
      if Matches(rule, dst) && (best == None || rule.prefixLength > table[best.value].prefixLength) {
        best := Some(i);
      }
      i := i + 1;
    }
    assert table[..i] == table;
    BestMatchIsBest(table, dst);
  }

  /** BestMatch is route's choice in the sense of IsBest. */
  lemma {:induction false} BestMatchIsBest(table: seq<Rule>, dst: u32)
    requires AllWellFormed(table)
    ensures IsBest(table, dst, BestMatch(table, dst))
    decreases |table|
  {
    if table != [] {
      var init := table[..|table| - 1];
      BestMatchIsBest(init, dst);
      assert forall j :: 0 <= j < |init| ==> init[j] == table[j];
    }
  }

  /** IsBest admits one answer, so any loop that meets it selects BestMatch. */
  lemma BestIsUnique(table: seq<Rule>, dst: u32, a: Option<nat>, b: Option<nat>)
    requires AllWellFormed(table) && IsBest(table, dst, a) && IsBest(table, dst, b)
    ensures a == b
  {
  }

  /** The class form of Router. */
  class Router {
    const interfaces: seq<NetworkInterface>
    var forwardingTable: seq<Rule>

    ghost function Objects(): set<NetworkInterface>
    {
      set k | 0 <= k < |interfaces| :: interfaces[k]
    }

    /** Each interface appears once, and every rule can be tested and names one of
        them. */
    ghost predicate Valid()
      reads this
    {
      && (forall a, b :: 0 <= a < b < |interfaces| ==> interfaces[a] != interfaces[b])
      && TableFits(forwardingTable, |interfaces|)
    }

    /** The states of the interfaces, in order. */
    ghost function Models(): (ms: seq<InterfaceState>)
      reads Objects()
      ensures |ms| == |interfaces|
    {
      seq(|interfaces|, k requires 0 <= k < |interfaces| reads Objects() => interfaces[k].Model())
    }

    constructor (ifaces: seq<NetworkInterface>)
      requires forall a, b :: 0 <= a < b < |ifaces| ==> ifaces[a] != ifaces[b]
      ensures interfaces == ifaces && forwardingTable == [] && Valid()
    {
      interfaces := ifaces;
      forwardingTable := [];
    }

    /** add_route; ok is false where the source throws, and then nothing changes. */
    method AddRoute(routePrefix: u32, prefixLength: u8, nextHop: Option<u32>, interfaceNum: nat) returns (ok: bool)
      requires Valid() && WellFormed(Rule(routePrefix, prefixLength, nextHop, interfaceNum))
      modifies this
      ensures Valid()
      ensures var added := TableWithRoute(old(forwardingTable), |interfaces|, Rule(routePrefix, prefixLength, nextHop, interfaceNum));
        && ok == added.Some?
        && forwardingTable == if ok then added.value else old(forwardingTable)
    {
      if interfaceNum >= |interfaces| {
        return false;
      }
      forwardingTable := forwardingTable + [Rule(routePrefix, prefixLength, nextHop, interfaceNum)];
      return true;
    }

    method Route()
      requires Valid()
      modifies Objects()
      ensures Models() == RouteFrom(old(Models()), forwardingTable, 0)
    {
      ghost var result := RouteFrom(Models(), forwardingTable, 0);
      var i := 0;
      while i < |interfaces|
        invariant 0 <= i <= |interfaces|
        invariant result == RouteFrom(Models(), forwardingTable, i)
      {
        DrainInterface(i);
        i := i + 1;
      }
    }

    /** route's loop over one interface's received queue. */
    method DrainInterface(i: nat)
      requires Valid() && i < |interfaces|
      modifies Objects()
      ensures Models() == Drain(old(Models()), forwardingTable, i)
    {
      ghost var result := Drain(Models(), forwardingTable, i);
      var iface := interfaces[i];
      while iface.datagramsReceived != []
        invariant result == Drain(Models(), forwardingTable, i)
        decreases |iface.datagramsReceived|
      {
        ghost var before := Models();
        var dgram := iface.datagramsReceived[0];
        iface.datagramsReceived := iface.datagramsReceived[1..];
        assert Models() == before[i := before[i].(received := before[i].received[1..])];
        ForwardDatagram(dgram);
      }
    }

    /** route's handling of one datagram. */
    method ForwardDatagram(dgram: Datagram)
      requires Valid()
      modifies Objects()
      ensures Models() == Forward(old(Models()), forwardingTable, dgram)
    {
      if dgram.ttl <= 1 {
        return;
      }
      var d := dgram.(ttl := dgram.ttl - 1);
      var best := LongestPrefixMatch(forwardingTable, d.dst);
      if best.Some? {
        var rule := forwardingTable[best.value];
        var nextInterface := interfaces[rule.interfaceNum];
        ghost var before := Models();
        if rule.nextHop.Some? {
          nextInterface.SendDatagram(d, rule.nextHop.value);
        } else {
          nextInterface.SendDatagram(d, d.dst);
        }
        assert Models() == before[rule.interfaceNum := before[rule.interfaceNum].SendDatagram(d, NextHop(rule, d))];
      }
    }
  }
}
