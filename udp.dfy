/**
 * UDP of src/net/udp.c (RFC 768): demultiplexing of received datagrams by source
 * port, and the 8-byte header written on output, with the checksum left at 0, which
 * RFC 768 reads as "no checksum".
 */
module Udp {
  import opened CInt
  import opened Wrappers
  import opened NetBuf
  import opened Intf
  import opened Route
  import Ipv4

  /** sizeof(udp_header_t). */
  const HEADER_LEN: nat := 8
  const PORT_DNS: u16 := 53
  const PORT_BOOTP_SERVER: u16 := 67
  const PORT_NTP: u16 := 123

  /** The service udp_recv hands a datagram to. */
  datatype Service = ToDns | ToDhcp | ToNtp | Unhandled | Dropped

  /** Only replies are expected, so the service is chosen by the source port. */
  function ServiceFor(srcPort: u16): Service
  {
    if srcPort == PORT_DNS then ToDns
    else if srcPort == PORT_BOOTP_SERVER then ToDhcp
    else if srcPort == PORT_NTP then ToNtp
    else Unhandled
  }

  /**
   * udp_recv: a datagram with a whole header has `start` moved past it and goes to
   * the service its source port names; a shorter one is left alone. The length and
   * checksum fields are not looked at.
   */
  method Recv(packet: Buf) returns (service: Service)
    requires packet.Valid()
    modifies packet`start
    ensures packet.Valid() && packet.end == old(packet.end)
    ensures old(packet.end - packet.start) < HEADER_LEN ==> service == Dropped && packet.start == old(packet.start)
    ensures old(packet.end - packet.start) >= HEADER_LEN ==>
      service == ServiceFor(BE16(old(packet.Payload()), 0)) &&
      packet.Payload() == old(packet.Payload())[HEADER_LEN..]
  {
    if packet.start + HEADER_LEN > packet.end {
      return Dropped;
    }
    var srcPort := BE16(packet.Payload(), 0);
    packet.start := packet.start + HEADER_LEN;
    service := ServiceFor(srcPort);
  }

  /**
   * The datagram udp_send and udp_intf_send build: the ports, cut to 16 bits by
   * net_swap16, the length of header and payload, and a zero checksum.
   */
  function Segment(srcPort: nat, dstPort: nat, payload: seq<byte>): (s: seq<byte>)
    requires |payload| + HEADER_LEN < B16
    ensures |s| == HEADER_LEN + |payload|
  {
    BytesBE16(Wrap16(srcPort)) + BytesBE16(Wrap16(dstPort)) + BytesBE16(|payload| + HEADER_LEN) + [0, 0] + payload
  }

  /** The receiver reads back the ports, the length and the payload of a segment. */
  lemma SegmentFields(srcPort: nat, dstPort: nat, payload: seq<byte>)
    requires |payload| + HEADER_LEN < B16
    ensures var s := Segment(srcPort, dstPort, payload);
      BE16(s, 0) == Wrap16(srcPort) && BE16(s, 2) == Wrap16(dstPort) &&
      BE16(s, 4) == |s| && BE16(s, 6) == 0 && s[HEADER_LEN..] == payload
  {
    var s := Segment(srcPort, dstPort, payload);
    BE16At(s, 0, Wrap16(srcPort));
    BE16At(s, 2, Wrap16(dstPort));
    BE16At(s, 4, |payload| + HEADER_LEN);
  }

  /** A reply from port 53, 67 or 123 reaches DNS, DHCP or NTP with its payload. */
  lemma SegmentReachesService(srcPort: u16, dstPort: nat, payload: seq<byte>)
    requires |payload| + HEADER_LEN < B16
    ensures var s := Segment(srcPort, dstPort, payload);
      ServiceFor(BE16(s, 0)) == ServiceFor(srcPort) && s[HEADER_LEN..] == payload
  {
    SegmentFields(srcPort, dstPort, payload);
  }

  /** udp_send: the header goes in front of the payload and the datagram to ipv4_send. */
  method Send(dst: u32, dstPort: nat, srcPort: nat, packet: Buf, table: RouteTable) returns (handoff: Option<Ipv4.Handoff>)
    requires packet.Valid() && packet.start >= HEADER_LEN + Ipv4.HEADER_LEN
    modifies packet`start, packet.data
    ensures packet.Valid() && packet.end == old(packet.end)
    ensures handoff == Ipv4.Hop(table.routes, dst)
    ensures packet.Payload() == Ipv4.Outbound(handoff, dst, Ipv4.PROTOCOL_UDP, Segment(srcPort, dstPort, old(packet.Payload())))
  {
    WriteHeader(dstPort, srcPort, packet);
    ghost var written := packet.Payload();
    handoff := Ipv4.Send(dst, Ipv4.PROTOCOL_UDP, packet, table);
    if handoff.None? {
      assert packet.Payload() == written;
    }
  }

  /**
   * udp_intf_send: as udp_send, but straight to one interface, with the destination
   * as its own next hop.
   */
  method IntfSend(intf: Interface, dst: u32, dstPort: nat, srcPort: nat, packet: Buf) returns (handoff: Ipv4.Handoff)
    requires packet.Valid() && packet.start >= HEADER_LEN + Ipv4.HEADER_LEN
    modifies packet`start, packet.data
    ensures packet.Valid() && packet.end == old(packet.end)
    ensures packet.Payload() ==
      Ipv4.Datagram(Ipv4.PROTOCOL_UDP, intf.ipAddr, dst, Segment(srcPort, dstPort, old(packet.Payload())))
    ensures handoff == Ipv4.Handoff(intf, dst)
  {
    WriteHeader(dstPort, srcPort, packet);
    handoff := Ipv4.IntfSend(intf, dst, dst, Ipv4.PROTOCOL_UDP, packet);
  }

  /** The header both send functions write in front of the payload. */
  method WriteHeader(dstPort: nat, srcPort: nat, packet: Buf)
    requires packet.Valid() && packet.start >= HEADER_LEN + Ipv4.HEADER_LEN
    modifies packet`start, packet.data
    ensures packet.Valid() && packet.end == old(packet.end) && packet.start == old(packet.start) - HEADER_LEN
    ensures packet.Payload() == Segment(srcPort, dstPort, old(packet.Payload()))
  {
    var len := packet.end - packet.start + HEADER_LEN;
    packet.Prepend(BytesBE16(Wrap16(srcPort)) + BytesBE16(Wrap16(dstPort)) + BytesBE16(len) + [0, 0]);
  }
}
