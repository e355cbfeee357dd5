/**
 * The Ethernet layer of src/net/eth.c: decoding of Ethernet II and 802.2 SNAP
 * headers on receive, and on send the choice of destination MAC address (through
 * the ARP cache for IPv4) and the 14-byte header written in front of the packet.
 * The upper layer a received packet goes to, and the device send, are returned
 * rather than called.
 */
module Eth {
  import opened CInt
  import opened Wrappers
  import opened NetConsts
  import opened NetBuf
  import opened Intf
  import opened Arp

  /** sizeof(eth_header_t): destination, source, EtherType. */
  const HEADER_LEN: nat := 14
  /** The header followed by the 802.2 LLC and SNAP fields. */
  const SNAP_HEADER_LEN: nat := 22
  /** The largest value of the type field that is an 802.3 length rather than an EtherType. */
  const MAX_LENGTH_FIELD: nat := 1500
  const SNAP_SAP: byte := 0xAA

  /** What eth_decode fills in. */
  datatype Decoded = Decoded(ethertype: u16, headerLen: nat)

  /**
   * eth_decode: a type field of at most 1500 with at least 22 bytes present must be
   * followed by DSAP and SSAP 0xAA, and the EtherType is then read from bytes 20-21;
   * otherwise the type field is the EtherType.
   */
  function Decode(p: seq<byte>): (r: Option<Decoded>)
    ensures r.None? <==> (|p| < HEADER_LEN ||
      (BE16(p, 12) <= MAX_LENGTH_FIELD && |p| >= SNAP_HEADER_LEN && !(p[14] == SNAP_SAP && p[15] == SNAP_SAP)))
    ensures r.Some? ==> r.value.headerLen <= |p|
  {
    if |p| < HEADER_LEN then None
    else
      var n := BE16(p, 12);
      if n <= MAX_LENGTH_FIELD && |p| >= SNAP_HEADER_LEN then
        if p[14] != SNAP_SAP || p[15] != SNAP_SAP then None
        else Some(Decoded(BE16(p, 20), SNAP_HEADER_LEN))
      else Some(Decoded(n, HEADER_LEN))
  }

  /** The header eth_intf_send writes. */
  function Header(dst: seq<byte>, src: seq<byte>, ethertype: u16): (h: seq<byte>)
    requires |dst| == 6 && |src| == 6
    ensures |h| == HEADER_LEN
  {
    dst + src + BytesBE16(ethertype)
  }

  /** A header written for an EtherType above 1500 decodes back to it, whatever follows. */
  lemma DecodeHeader(dst: seq<byte>, src: seq<byte>, ethertype: u16, rest: seq<byte>)
    requires |dst| == 6 && |src| == 6 && ethertype > MAX_LENGTH_FIELD
    ensures Decode(Header(dst, src, ethertype) + rest) == Some(Decoded(ethertype, HEADER_LEN))
  {
    var p := Header(dst, src, ethertype) + rest;
    assert p[12..14] == BytesBE16(ethertype);
    assert BE16(p, 12) == BE16(p[12..14], 0);
  }

  /** An 802.2 SNAP frame decodes to the EtherType in its SNAP header. */
  lemma DecodeSnap(dst: seq<byte>, src: seq<byte>, length: u16, llc: seq<byte>, ethertype: u16, rest: seq<byte>)
    requires |dst| == 6 && |src| == 6 && length <= MAX_LENGTH_FIELD
    requires |llc| == 6 && llc[0] == SNAP_SAP && llc[1] == SNAP_SAP
    ensures Decode(Header(dst, src, length) + llc + BytesBE16(ethertype) + rest) == Some(Decoded(ethertype, SNAP_HEADER_LEN))
  {
    var p := Header(dst, src, length) + llc + BytesBE16(ethertype) + rest;
    assert p[12..14] == BytesBE16(length);
    assert BE16(p, 12) == BE16(p[12..14], 0);
    assert p[20..22] == BytesBE16(ethertype);
    assert BE16(p, 20) == BE16(p[20..22], 0);
  }

  /** The layer eth_recv hands a packet to. */
  datatype Upper = ToArp | ToIpv4 | Ipv6Logged | Unhandled | Malformed

  function UpperFor(ethertype: u16): Upper
  {
    if ethertype == ET_ARP then ToArp
    else if ethertype == ET_IPV4 then ToIpv4
    else if ethertype == ET_IPV6 then Ipv6Logged
    else Unhandled
  }

  /**
   * eth_recv: a packet that decodes has its header stripped and goes to the layer
   * its EtherType names; one that does not is left alone.
   */
  method Recv(packet: Buf) returns (upper: Upper)
    requires packet.Valid()
    modifies packet`start
    ensures packet.Valid() && packet.end == old(packet.end)
    ensures Decode(old(packet.Payload())).None? ==> upper == Malformed && packet.start == old(packet.start)
    ensures Decode(old(packet.Payload())).Some? ==>
      var d := Decode(old(packet.Payload())).value;
      upper == UpperFor(d.ethertype) && packet.Payload() == old(packet.Payload())[d.headerLen..]
  {
    var d := Decode(packet.Payload());
    if d.None? {
      return Malformed;
    }
    packet.start := packet.start + d.value.headerLen;
    upper := UpperFor(d.value.ethertype);
  }

  /** Where eth_intf_send is asked to send: a MAC address for ARP, an IPv4 address for IPv4. */
  datatype Dest = MacDest(mac: seq<byte>) | IpDest(ip: u32)

  /**
   * The destination MAC address eth_intf_send settles on: the given one for ARP; for
   * IPv4 the broadcast address for the limited or the interface's broadcast address,
   * else the cached one; none for other EtherTypes or an IPv4 address not cached.
   */
  function Target(ethertype: u16, dst: Dest, broadcast: u32, cache: seq<Entry>): Option<seq<byte>>
  {
    if ethertype == ET_ARP && dst.MacDest? then Some(dst.mac)
    else if ethertype == ET_IPV4 && dst.IpDest? then
      if dst.ip == IPV4_BROADCAST || dst.ip == broadcast then Some(ETH_BROADCAST)
      else match Lookup(cache, dst.ip)
        case Some(i) => Some(cache[i].ha)
        case None => None
    else None
  }

  /** An IPv4 destination that is neither broadcast nor cached waits for ARP. */
  predicate AwaitsArp(ethertype: u16, dst: Dest, broadcast: u32, cache: seq<Entry>)
  {
    ethertype == ET_IPV4 && dst.IpDest? && dst.ip != IPV4_BROADCAST && dst.ip != broadcast &&
    Lookup(cache, dst.ip).None?
  }

  /** Target and AwaitsArp split IPv4 destinations between them. */
  lemma IpDestResolvedOrPending(dst: u32, broadcast: u32, cache: seq<Entry>)
    ensures Target(ET_IPV4, IpDest(dst), broadcast, cache).Some? != AwaitsArp(ET_IPV4, IpDest(dst), broadcast, cache)
    ensures Target(ET_IPV4, IpDest(dst), broadcast, cache).Some? && dst != IPV4_BROADCAST && dst != broadcast ==>
      Target(ET_IPV4, IpDest(dst), broadcast, cache) == Some(cache[Lookup(cache, dst).value].ha)
  {
  }

  /** What became of a packet given to eth_intf_send. */
  datatype Sent = DevSend | ArpPending(effects: seq<Arp.Effect>) | Dropped

  /**
   * eth_intf_send: with a destination MAC address the 14-byte header is written in
   * front of the packet and the packet goes to the device; an unresolved IPv4
   * destination hands the packet to arp_request instead; anything else is dropped.
   */
  method IntfSend(intf: Interface, dst: Dest, ethertype: u16, packet: Buf, arp: ArpCache) returns (sent: Sent)
    requires packet.Valid() && packet.start >= HEADER_LEN && |intf.ethAddr| == 6 && arp.Valid()
    requires dst.MacDest? ==> |dst.mac| == 6
    modifies packet`start, packet.data, arp.cache
    ensures packet.Valid() && packet.end == old(packet.end) && arp.Valid()
    ensures var target := Target(ethertype, dst, intf.broadcastAddr, old(arp.cache[..]));
      if target.Some? then
        sent == DevSend && arp.cache[..] == old(arp.cache[..]) &&
        packet.Payload() == Header(target.value, intf.ethAddr, ethertype) + old(packet.Payload())
      else if AwaitsArp(ethertype, dst, intf.broadcastAddr, old(arp.cache[..])) then
        sent.ArpPending? && packet.Payload() == old(packet.Payload()) &&
        (arp.cache[..], sent.effects) ==
          Requested(old(arp.cache[..]), intf, intf.ethAddr, intf.ipAddr, dst.ip, ethertype, packet)
      else
        sent == Dropped && packet.Payload() == old(packet.Payload()) && arp.cache[..] == old(arp.cache[..])
  {
    var target: Option<seq<byte>> := None;
    if ethertype == ET_ARP && dst.MacDest? {
      target := Some(dst.mac);
    } else if ethertype == ET_IPV4 && dst.IpDest? {
      if dst.ip == IPV4_BROADCAST || dst.ip == intf.broadcastAddr {
        target := Some(ETH_BROADCAST);
      } else {
        target := arp.LookupEthAddr(dst.ip);
        if target.None? {
          var effects := arp.Request(intf, dst.ip, ethertype, packet);
          return ArpPending(effects);
        }
      }
    }
    if target.None? {
      return Dropped;
    }
    packet.Prepend(Header(target.value, intf.ethAddr, ethertype));
    sent := DevSend;
  }
}
