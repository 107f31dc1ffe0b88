/** What add_route and route promise: the match test selects an address block, the chosen
    rule is the longest match with ties to the earliest rule, a datagram leaves with its
    TTL one lower on the chosen interface or is dropped, and every received queue is
    empty afterwards. */
module RouterProps {
  import opened Common
  import opened Wrap32
  import opened NetTypes
  import opened NetInterfaces
  import opened Routers

  /** Floor division by p picks out the block of p consecutive numbers x lies in. */
  lemma DivBlock(x: nat, p: nat, q: nat)
    requires p >= 1
    ensures x / p == q <==> q * p <= x < q * p + p
  {
    var r := x / p;
    assert r * p <= x < r * p + p;
    if q < r {
      assert (q + 1) * p <= r * p;
    } else if r < q {
      assert (r + 1) * p <= q * p;
    }
  }

  /** A rule with a non-zero prefix matches exactly the destinations in the block of
      2^(32 - prefix_length) addresses that holds the prefix: the addresses that share
      the prefix's top prefix_length bits. */
  lemma MatchesBlock(r: Rule, dst: u32)
    requires WellFormed(r) && r.routePrefix != 0
    ensures var size := Pow2(32 - r.prefixLength);
      var base := r.routePrefix / size * size;
      Matches(r, dst) <==> base <= dst < base + size
  {
    var size := Pow2(32 - r.prefixLength);
    DivBlock(dst, size, r.routePrefix / size);
  }

  /** A rule whose prefix is 0 matches every destination, whatever its prefix length. */
  lemma ZeroPrefixMatchesAll(r: Rule, dst: u32)
    requires r.routePrefix == 0
    ensures WellFormed(r) && Matches(r, dst)
  {
  }

  /** Rules 10.0.0.0/8 on interface 0 and 10.0.1.0/24 on interface 1 send 10.0.1.5 out
      of interface 1, and 10.0.2.5 out of interface 0. */
  lemma LongestPrefixExample()
    ensures var table := [Rule(0x0A00_0000, 8, None, 0), Rule(0x0A00_0100, 24, None, 1)];
      && BestMatch(table, 0x0A00_0105) == Some(1)
      && BestMatch(table, 0x0A00_0205) == Some(0)
  {
    var table := [Rule(0x0A00_0000, 8, None, 0), Rule(0x0A00_0100, 24, None, 1)];
    assert Pow2(8) == 0x100;
    assert Pow2(24) == 0x100_0000 by {
      Pow2Add(8, 16);
      assert Pow2(16) == 0x1_0000 by { Pow2Add(8, 8); }
    }
    assert table[..1] == [table[0]] && table[..1][..0] == [];
  }

  lemma {:induction false} Pow2Add(a: nat, b: nat)
    ensures Pow2(a + b) == Pow2(a) * Pow2(b)
    decreases a
  {
    if a > 0 {
      Pow2Add(a - 1, b);
    }
  }

  /** route drops a datagram whose TTL is at most 1, and one no rule matches once its TTL
      is lowered. */
  lemma ForwardDrops(ifaces: seq<InterfaceState>, table: seq<Rule>, d: Datagram)
    requires TableFits(table, |ifaces|)
    requires d.ttl <= 1 || BestMatch(table, d.dst).None?
    ensures Forward(ifaces, table, d) == ifaces
  {
  }

  /** Any other datagram is handed, with its TTL one lower and nothing else changed, to
      the interface of the rule route chooses, addressed to the rule's next hop or to the
      datagram's destination: it is transmitted there at once or waits there for ARP.
      No other interface changes. */
  lemma ForwardDelivers(ifaces: seq<InterfaceState>, table: seq<Rule>, d: Datagram)
    requires TableFits(table, |ifaces|)
    requires d.ttl > 1 && BestMatch(table, d.dst).Some?
    ensures var k := BestMatch(table, d.dst).value;
      var n := table[k].interfaceNum;
      var hop := if table[k].nextHop.Some? then table[k].nextHop.value else d.dst;
      var out := d.(ttl := d.ttl - 1);
      var r := Forward(ifaces, table, d);
      && IsBest(table, d.dst, Some(k))
      && out.ttl == d.ttl - 1 && out.dst == d.dst && out.rest == d.rest
      && (forall j :: 0 <= j < |ifaces| && j != n ==> r[j] == ifaces[j])
      && (|| (hop in ifaces[n].cache && r[n].transmitted == ifaces[n].transmitted + [DatagramFrame(out, ifaces[n].cache[hop].mac, ifaces[n].ethernetAddress)])
          || (hop !in ifaces[n].cache && r[n].waiting == ifaces[n].waiting + [Waiting(out, hop)]))
  {
    BestMatchIsBest(table, d.dst);
  }

  /** After route every interface's received queue is empty. */
  lemma RouteEmptiesQueues(ifaces: seq<InterfaceState>, table: seq<Rule>)
    requires TableFits(table, |ifaces|)
    ensures forall j :: 0 <= j < |ifaces| ==> RouteFrom(ifaces, table, 0)[j].received == []
  {
  }

  /** add_route fails exactly when the interface number is out of range; otherwise the
      rule is appended, the table still fits the interfaces, and the earlier rules keep
      their places. */
  lemma AddRouteAppends(table: seq<Rule>, n: nat, rule: Rule)
    requires TableFits(table, n) && WellFormed(rule)
    ensures var added := TableWithRoute(table, n, rule);
      && (added.None? <==> rule.interfaceNum >= n)
      && (added.Some? ==> TableFits(added.value, n) && added.value[..|table|] == table && added.value[|table|] == rule)
  {
  }

  /** A new rule no longer than the rule chosen for dst does not change the choice: ties
      go to the earlier rule. */
  lemma AddRouteKeepsChoice(table: seq<Rule>, rule: Rule, dst: u32)
    requires AllWellFormed(table) && WellFormed(rule)
    requires BestMatch(table, dst).Some? && rule.prefixLength <= table[BestMatch(table, dst).value].prefixLength
    ensures AllWellFormed(table + [rule]) && BestMatch(table + [rule], dst) == BestMatch(table, dst)
  {
    assert (table + [rule])[..|table|] == table;
  }

  /** A new rule longer than every matching rule, and matching dst, takes over dst. */
  lemma AddRouteTakesOver(table: seq<Rule>, rule: Rule, dst: u32)
    requires AllWellFormed(table) && WellFormed(rule) && Matches(rule, dst)
    requires forall j :: 0 <= j < |table| && Matches(table[j], dst) ==> table[j].prefixLength < rule.prefixLength
    ensures AllWellFormed(table + [rule]) && BestMatch(table + [rule], dst) == Some(|table|)
  {
    assert (table + [rule])[..|table|] == table;
    BestMatchIsBest(table, dst);
  }
}
