/**
 * IPv4 input and output of src/net/ipv4.c (RFC 791): validation of a received
 * datagram, the 20-byte header the kernel writes on output with its header checksum,
 * and the route lookup that picks the interface and next hop. The upper layer a
 * datagram goes to, and the interface's send callback, are returned rather than called.
 */
module Ipv4 {
  import opened CInt
  import opened Wrappers
  import opened NetBuf
  import opened Intf
  import opened Checksum
  import opened Route

  /** sizeof(ipv4_header_t): a header without options. */
  const HEADER_LEN: nat := 20
  const PROTOCOL_ICMP: byte := 1
  const PROTOCOL_TCP: byte := 6
  const PROTOCOL_UDP: byte := 17
  /** The version/IHL byte the kernel writes: version 4, five 32-bit words. */
  const VER_IHL: byte := 0x45
  const DEFAULT_TTL: byte := 64
  /** Where the checksum sits in the header. */
  const CHECKSUM_AT: nat := 10

  /**
   * ipv4_header_t. The 16-bit fields are in network order; the checksum is the value
   * read most significant byte first; addresses are as an x86 load sees them.
   */
  datatype Header = Header(verIhl: byte, tos: byte, len: u16, id: u16, offset: u16,
                           ttl: byte, protocol: byte, checksum: u16, src: u32, dst: u32)

  function Version(h: Header): nat { h.verIhl / 16 }
  function Ihl(h: Header): nat { h.verIhl % 16 }
  /** The fragment offset: the low 13 bits of the flags/offset field. */
  function Fragment(h: Header): nat { h.offset % 0x2000 }

  /** The bytes of a header. */
  function HeaderBytes(h: Header): (b: seq<byte>)
    ensures |b| == HEADER_LEN
  {
    [h.verIhl, h.tos] + BytesBE16(h.len) + BytesBE16(h.id) + BytesBE16(h.offset) +
    [h.ttl, h.protocol] + BytesBE16(h.checksum) + BytesLE32(h.src) + BytesLE32(h.dst)
  }

  /** The header at the front of `p`. */
  function ParseHeader(p: seq<byte>): Header
    requires |p| >= HEADER_LEN
  {
    Header(p[0], p[1], BE16(p, 2), BE16(p, 4), BE16(p, 6), p[8], p[9], BE16(p, 10), LE32(p, 12), LE32(p, 16))
  }

  /** Writing a header and reading it back gives it unchanged, whatever follows. */
  lemma ParseHeaderBytes(h: Header, rest: seq<byte>)
    ensures ParseHeader(HeaderBytes(h) + rest) == h
  {
    var p := HeaderBytes(h) + rest;
    BE16At(p, 2, h.len);
    BE16At(p, 4, h.id);
    BE16At(p, 6, h.offset);
    BE16At(p, 10, h.checksum);
    LE32At(p, 12, h.src);
    LE32At(p, 16, h.dst);
  }

  /**
   * The checks ipv4_recv makes, in order: a whole header, version 4, no fragment
   * offset, a total length within the buffer; and, as RFC 791 requires of the
   * header length, at least five words and no more than the total length.
   */
  function Accepts(p: seq<byte>): (r: Option<Header>)
    ensures r.Some? ==> |p| >= HEADER_LEN && r.value == ParseHeader(p)
    ensures r.Some? <==> (|p| >= HEADER_LEN && Version(ParseHeader(p)) == 4 && Fragment(ParseHeader(p)) == 0 &&
      ParseHeader(p).len <= |p| && 5 <= Ihl(ParseHeader(p)) && Ihl(ParseHeader(p)) * 4 <= ParseHeader(p).len)
  {
    if |p| < HEADER_LEN then None
    else
      var h := ParseHeader(p);
      if Version(h) != 4 || Fragment(h) != 0 || h.len > |p| then None
      else if Ihl(h) < 5 || Ihl(h) * 4 > h.len then None
      else Some(h)
  }

  /**
   * ipv4_recv as written: the offsets `start` and `end` move to, relative to the old
   * `start`, with the header length taken on trust.
   */
  function RecvAsWritten(p: seq<byte>): Option<(nat, nat)>
  {
    if |p| < HEADER_LEN then None
    else
      var h := ParseHeader(p);
      if Version(h) != 4 || Fragment(h) != 0 || h.len > |p| then None
      else Some((Ihl(h) * 4, h.len))
  }

  /**
   * A 20-byte datagram whose header claims 15 words passes every check as written,
   * and leaves `start` 40 bytes past `end`; the corrected checks drop it.
   */
  lemma LongIhlPassesAsWritten()
    ensures var p := HeaderBytes(Header(0x4F, 0, 20, 0, 0, 64, PROTOCOL_UDP, 0, 0, 0));
      RecvAsWritten(p) == Some((60, 20)) && Accepts(p).None?
  {
    var h := Header(0x4F, 0, 20, 0, 0, 64, PROTOCOL_UDP, 0, 0, 0);
    var p := HeaderBytes(h);
    ParseHeaderBytes(h, []);
    assert p + [] == p;
  }

  /** Where ipv4_recv hands an accepted datagram. */
  datatype Upper = ToIcmp(h: Header) | ToTcp(h: Header) | ToUdp(h: Header) | Unhandled(h: Header) | Dropped

  function UpperFor(h: Header): Upper
  {
    if h.protocol == PROTOCOL_ICMP then ToIcmp(h)
    else if h.protocol == PROTOCOL_TCP then ToTcp(h)
    else if h.protocol == PROTOCOL_UDP then ToUdp(h)
    else Unhandled(h)
  }

  /**
   * ipv4_recv: an accepted datagram has `start` moved past its header and `end` cut to
   * its total length, and goes to the protocol its header names; anything else is
   * dropped and the buffer left alone.
   */
  method Recv(packet: Buf) returns (upper: Upper)
    requires packet.Valid()
    modifies packet`start, packet`end
    ensures packet.Valid()
    ensures var a := Accepts(old(packet.Payload()));
      if a.None? then upper == Dropped && packet.start == old(packet.start) && packet.end == old(packet.end)
      else
        upper == UpperFor(a.value) && packet.start == old(packet.start) + Ihl(a.value) * 4 &&
        packet.end == old(packet.start) + a.value.len &&
        packet.Payload() == old(packet.Payload())[Ihl(a.value) * 4..a.value.len]
  {
    var p := packet.Payload();
    var a := Accepts(p);
    if a.None? {
      return Dropped;
    }
    var h := a.value;
    packet.Narrow(Ihl(h) * 4, h.len);
    upper := UpperFor(h);
  }

  /** The header ipv4_intf_send fills in before the checksum: the checksum field is 0. */
  function Outgoing(protocol: byte, src: u32, dst: u32, len: u16): Header
  {
    Header(VER_IHL, 0, len, 0, 0, DEFAULT_TTL, protocol, 0, src, dst)
  }

  /** A header with its checksum field set to the checksum over the header. */
  function Sealed(h: Header): Header
  {
    h.(checksum := ChecksumOf(HeaderBytes(h)))
  }

  /** The datagram ipv4_intf_send builds around `payload`. */
  function Datagram(protocol: byte, src: u32, dst: u32, payload: seq<byte>): (d: seq<byte>)
    requires |payload| + HEADER_LEN < B16
    ensures |d| == HEADER_LEN + |payload|
  {
    HeaderBytes(Sealed(Outgoing(protocol, src, dst, |payload| + HEADER_LEN))) + payload
  }

  /** The checksum is stored byte-swapped twice, which is the field `Patched` by the checksum bytes. */
  lemma SealedBytes(h: Header)
    requires h.checksum == 0
    ensures var c := ChecksumOf(HeaderBytes(h));
      HeaderBytes(Sealed(h)) == Patched(HeaderBytes(h), CHECKSUM_AT, Hi(c), Lo(c))
  {
  }

  /**
   * What the receiver sees: version 4, five header words, TTL 64, the total length,
   * protocol and addresses, and a header that checks to 0 (section 3.1 of RFC 791).
   */
  lemma DatagramHeader(protocol: byte, src: u32, dst: u32, payload: seq<byte>)
    requires |payload| + HEADER_LEN < B16
    ensures var h := ParseHeader(Datagram(protocol, src, dst, payload));
      Version(h) == 4 && Ihl(h) == 5 && h.ttl == DEFAULT_TTL && Fragment(h) == 0 &&
      h.len == |payload| + HEADER_LEN && h.protocol == protocol && h.src == src && h.dst == dst
    ensures ChecksumOf(Datagram(protocol, src, dst, payload)[..HEADER_LEN]) == 0
  {
    var h := Outgoing(protocol, src, dst, |payload| + HEADER_LEN);
    var d := Datagram(protocol, src, dst, payload);
    ParseHeaderBytes(Sealed(h), payload);
    assert d[..HEADER_LEN] == HeaderBytes(Sealed(h));
    SealedBytes(h);
    var b := HeaderBytes(h);
    assert b[CHECKSUM_AT] == 0 && b[CHECKSUM_AT + 1] == 0;
    SelfCheck(b, CHECKSUM_AT);
  }

  /** A datagram the kernel sends is accepted on receipt, and delivers the same payload. */
  lemma DatagramAccepted(protocol: byte, src: u32, dst: u32, payload: seq<byte>)
    requires |payload| + HEADER_LEN < B16
    ensures var d := Datagram(protocol, src, dst, payload);
      var a := Accepts(d);
      a.Some? && a.value.protocol == protocol && a.value.src == src && a.value.dst == dst &&
      d[Ihl(a.value) * 4..a.value.len] == payload
  {
    DatagramHeader(protocol, src, dst, payload);
  }

  /** The interface's send callback, with the next hop and the EtherType IPv4. */
  datatype Handoff = Handoff(intf: Interface, nextAddr: u32)

  /**
   * ipv4_intf_send: `start` moves back over the 20-byte header, which is written with
   * the total length, the interface's address as source, and its checksum.
   */
  method IntfSend(intf: Interface, nextAddr: u32, dst: u32, protocol: byte, packet: Buf) returns (handoff: Handoff)
    requires packet.Valid() && packet.start >= HEADER_LEN
    modifies packet`start, packet.data
    ensures packet.Valid() && packet.end == old(packet.end)
    ensures packet.Payload() == Datagram(protocol, intf.ipAddr, dst, old(packet.Payload()))
    ensures handoff == Handoff(intf, nextAddr)
  {
    var len := packet.end - packet.start + HEADER_LEN;
    var h := Outgoing(protocol, intf.ipAddr, dst, len);
    var c := Compute(HeaderBytes(h));
    packet.Prepend(HeaderBytes(h.(checksum := c)));
    handoff := Handoff(intf, nextAddr);
  }

  /** The interface and next hop ipv4_send hands a datagram for `dst` to, if any route matches. */
  function Hop(routes: seq<Route>, dst: u32): (h: Option<Handoff>)
    ensures h.None? <==> FirstMatch(routes, dst, |routes|).None?
  {
    var found := FirstMatch(routes, dst, |routes|);
    if found.None? then None else Some(Handoff(routes[found.value].intf, NextAddr(routes[found.value], dst)))
  }

  /**
   * The packet after ipv4_send handed it to `hop`: the datagram from that interface's
   * address, or, with no route, the payload as it was.
   */
  function Outbound(hop: Option<Handoff>, dst: u32, protocol: byte, payload: seq<byte>): seq<byte>
    requires |payload| + HEADER_LEN < B16
    reads if hop.Some? then {hop.value.intf} else {}
  {
    if hop.None? then payload else Datagram(protocol, hop.value.intf.ipAddr, dst, payload)
  }

  /**
   * ipv4_send: the first route that matches `dst` picks the interface and next hop;
   * with none, nothing is sent and the buffer is left alone.
   */
  method Send(dst: u32, protocol: byte, packet: Buf, table: RouteTable) returns (handoff: Option<Handoff>)
    requires packet.Valid() && packet.start >= HEADER_LEN
    modifies packet`start, packet.data
    ensures packet.Valid() && packet.end == old(packet.end)
    ensures handoff == Hop(table.routes, dst)
    ensures packet.Payload() == Outbound(handoff, dst, protocol, old(packet.Payload()))
    ensures handoff.None? ==> packet.start == old(packet.start) && packet.data[..] == old(packet.data[..])
  {
    var found := table.FindRoute(dst);
    if found.None? {
      return None;
    }
    var route := table.routes[found.value];
    var h := IntfSend(route.intf, NextAddr(route, dst), dst, protocol, packet);
    handoff := Some(h);
  }
}
