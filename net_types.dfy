/** The link-layer and network-layer values an interface and a router exchange: Ethernet
    frames, ARP messages and IPv4 datagrams. Their wire formats are not modelled: a frame's
    payload is either a serialized datagram, a serialized ARP message, or bytes that parse
    as neither. */
module NetTypes {
  import opened Common
  import opened Wrap32

  /** A 48-bit Ethernet address. */
  type EthAddr = x: int | 0 <= x < 0x1_0000_0000_0000

  /** ETHERNET_BROADCAST, ff:ff:ff:ff:ff:ff. */
  const ETHERNET_BROADCAST: EthAddr := 0xFFFF_FFFF_FFFF

  /** EthernetHeader::TYPE_IPv4 and TYPE_ARP, the EtherType values of IPv4 and ARP. */
  const TYPE_IPV4: nat := 0x0800
  const TYPE_ARP: nat := 0x0806

  /** ARPMessage::OPCODE_REQUEST and OPCODE_REPLY (RFC 826). */
  const OPCODE_REQUEST: nat := 1
  const OPCODE_REPLY: nat := 2

  type u8 = x: int | 0 <= x < 0x100

  /** An IPv4 datagram: the header fields the core reads or writes, and the rest of the
      datagram (other header fields and the payload) as opaque bytes. */
  datatype Datagram = Datagram(ttl: u8, dst: u32, rest: seq<byte>)

  /** An ARP message (RFC 826) for Ethernet and IPv4. */
  datatype ArpMessage = ArpMessage(opcode: nat, senderEth: EthAddr, senderIp: u32,
                                   targetEth: EthAddr, targetIp: u32)

  /** A frame payload: what serialize() produced, or bytes no parser accepts. */
  datatype Payload = DatagramBytes(dgram: Datagram) | ArpBytes(arp: ArpMessage) | Unparseable(raw: seq<byte>)

  datatype EthernetHeader = EthernetHeader(dst: EthAddr, src: EthAddr, etherType: nat)

  datatype Frame = Frame(header: EthernetHeader, payload: Payload)

  /** parse(InternetDatagram&, payload). */
  function ParseDatagram(p: Payload): (r: Option<Datagram>)
    ensures r.Some? <==> p.DatagramBytes?
  {
    if p.DatagramBytes? then Some(p.dgram) else None
  }

  /** parse(ARPMessage&, payload). */
  function ParseArp(p: Payload): (r: Option<ArpMessage>)
    ensures r.Some? <==> p.ArpBytes?
  {
    if p.ArpBytes? then Some(p.arp) else None
  }
}
