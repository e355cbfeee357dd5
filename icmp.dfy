/**
 * ICMP echo of src/net/icmp.c (RFC 792): an echo request is answered with an echo
 * reply carrying the same identifier, sequence number and data; an echo reply is only
 * logged. Each message is built in a buffer from the pool and its checksum patched in
 * once the whole message is in place.
 */
module Icmp {
  import opened CInt
  import opened Wrappers
  import opened FrameAllocator
  import opened NetBuf
  import opened Checksum
  import opened Route
  import Ipv4

  const HEADER_LEN: nat := 8
  const TYPE_ECHO_REPLY: byte := 0
  const TYPE_ECHO_REQUEST: byte := 8
  /** Where the checksum sits in the message. */
  const CHECKSUM_AT: nat := 2

  /** The message before its checksum: type, code 0, checksum 0, identifier, sequence, data. */
  function Unsealed(icmpType: byte, id: u16, sequence: u16, data: seq<byte>): (m: seq<byte>)
    ensures |m| == HEADER_LEN + |data|
  {
    [icmpType, 0, 0, 0] + BytesBE16(id) + BytesBE16(sequence) + data
  }

  /** The message sent: the checksum over the whole message is written high byte first. */
  function Echo(icmpType: byte, id: u16, sequence: u16, data: seq<byte>): (m: seq<byte>)
    ensures |m| == HEADER_LEN + |data|
  {
    var u := Unsealed(icmpType, id, sequence, data);
    var c := ChecksumOf(u);
    Patched(u, CHECKSUM_AT, Hi(c), Lo(c))
  }

  /**
   * A message built by the kernel reads back with its type, identifier, sequence number
   * and data, and checks to 0 (RFC 792, "Echo or Echo Reply Message").
   */
  lemma EchoFields(icmpType: byte, id: u16, sequence: u16, data: seq<byte>)
    requires HEADER_LEN + |data| <= 0x1_0000
    ensures var m := Echo(icmpType, id, sequence, data);
      m[0] == icmpType && m[1] == 0 && BE16(m, 4) == id && BE16(m, 6) == sequence &&
      m[HEADER_LEN..] == data && ChecksumOf(m) == 0
  {
    var u := Unsealed(icmpType, id, sequence, data);
    var m := Echo(icmpType, id, sequence, data);
    BE16At(u, 4, id);
    BE16At(u, 6, sequence);
    assert m[4..] == u[4..];
    SelfCheck(u, CHECKSUM_AT);
  }

  /** What icmp_recv did with a message. */
  datatype Outcome = Ignored | ReplyLogged(from: u32) | Replied(reply: Buf, handoff: Option<Ipv4.Handoff>)

  /**
   * icmp_echo_reply and icmp_echo_request: a buffer from the pool receives the message,
   * which goes to ipv4_send addressed to `addr`.
   */
  method SendEcho(icmpType: byte, addr: u32, id: u16, sequence: u16, data: seq<byte>,
                  pool: Pool, pfa: Allocator, table: RouteTable) returns (buf: Buf, handoff: Option<Ipv4.Handoff>)
    requires pool.Valid() && pfa.Valid() && NET_BUF_START + HEADER_LEN + |data| <= PAGE_SIZE
    modifies pool, pfa, pfa.buffer, pool.Reused()
    ensures pool.Valid() && pfa.Valid() && buf in pool.live && buf.Valid() && buf.end == NET_BUF_START + HEADER_LEN + |data|
    ensures buf !in old(pool.live) && pool.live == old(pool.live) + {buf} && pool.allocCount == old(pool.allocCount) + 1
    ensures handoff == Ipv4.Hop(table.routes, addr)
    ensures buf.Payload() == Ipv4.Outbound(handoff, addr, Ipv4.PROTOCOL_ICMP, Echo(icmpType, id, sequence, data))
  {
    buf := NewEcho(icmpType, id, sequence, data, pool, pfa);
    handoff := Ipv4.Send(addr, Ipv4.PROTOCOL_ICMP, buf, table);
  }

  /** A buffer from net_alloc_buf holding the message. */
  method NewEcho(icmpType: byte, id: u16, sequence: u16, data: seq<byte>, pool: Pool, pfa: Allocator) returns (buf: Buf)
    requires pool.Valid() && pfa.Valid() && NET_BUF_START + HEADER_LEN + |data| <= PAGE_SIZE
    modifies pool, pfa, pfa.buffer, pool.Reused()
    ensures pool.Valid() && pfa.Valid() && buf in pool.live && buf.Valid() && buf.start == NET_BUF_START
    ensures buf !in old(pool.live) && pool.live == old(pool.live) + {buf} && pool.allocCount == old(pool.allocCount) + 1
    ensures (fresh(buf) && fresh(buf.data)) || (old(pool.freeList) != [] && buf == old(pool.freeList[0]))
    ensures buf.Payload() == Echo(icmpType, id, sequence, data)
  {
    buf := pool.Alloc(pfa);
    WriteEcho(icmpType, id, sequence, data, buf);
  }

  /** The message written into an empty buffer, its checksum patched in afterwards. */
  method WriteEcho(icmpType: byte, id: u16, sequence: u16, data: seq<byte>, buf: Buf)
    requires buf.Valid() && buf.start == buf.end == NET_BUF_START && NET_BUF_START + HEADER_LEN + |data| <= PAGE_SIZE
    modifies buf`end, buf.data
    ensures buf.Valid() && buf.start == NET_BUF_START && buf.end == NET_BUF_START + HEADER_LEN + |data|
    ensures buf.Payload() == Echo(icmpType, id, sequence, data)
  {
    var u := Unsealed(icmpType, id, sequence, data);
    buf.Append(u);
    assert buf.Payload() == u;
    var c := Compute(u);
    buf.Patch(CHECKSUM_AT, Hi(c), Lo(c));
  }

  /**
   * icmp_recv: a message shorter than the 8-byte header is ignored; an echo request
   * is answered to its sender with the same identifier, sequence number and data; an
   * echo reply is only logged; other types are ignored.
   */
  method Recv(header: Ipv4.Header, packet: Buf, pool: Pool, pfa: Allocator, table: RouteTable) returns (outcome: Outcome)
    requires packet.Valid() && packet.start >= NET_BUF_START && pool.Valid() && pfa.Valid()
    modifies pool, pfa, pfa.buffer, pool.Reused()
    ensures pool.Valid() && pfa.Valid()
    ensures var p := old(packet.Payload());
      if |p| < HEADER_LEN || (p[0] != TYPE_ECHO_REQUEST && p[0] != TYPE_ECHO_REPLY) then
        outcome == Ignored && pool.live == old(pool.live)
      else if p[0] == TYPE_ECHO_REPLY then outcome == ReplyLogged(header.src) && pool.live == old(pool.live)
      else
        outcome.Replied? && outcome.reply.Valid() && outcome.reply !in old(pool.live) &&
        pool.live == old(pool.live) + {outcome.reply} &&
        outcome.handoff == Ipv4.Hop(table.routes, header.src) &&
        outcome.reply.Payload() ==
          Ipv4.Outbound(outcome.handoff, header.src, Ipv4.PROTOCOL_ICMP, Echo(TYPE_ECHO_REPLY, BE16(p, 4), BE16(p, 6), p[HEADER_LEN..]))
  {
    if packet.start + HEADER_LEN > packet.end {
      return Ignored;
    }
    var p := packet.Payload();
    if p[0] == TYPE_ECHO_REQUEST {
      var reply, handoff := SendEcho(TYPE_ECHO_REPLY, header.src, BE16(p, 4), BE16(p, 6), p[HEADER_LEN..], pool, pfa, table);
      outcome := Replied(reply, handoff);
    } else if p[0] == TYPE_ECHO_REPLY {
      outcome := ReplyLogged(header.src);
    } else {
      outcome := Ignored;
    }
  }

  /** The reply to an echo request reads back with its identifier, sequence number and data. */
  lemma ReplyEchoesRequest(id: u16, sequence: u16, data: seq<byte>)
    requires HEADER_LEN + |data| <= 0x1_0000
    ensures var request := Echo(TYPE_ECHO_REQUEST, id, sequence, data);
      var reply := Echo(TYPE_ECHO_REPLY, BE16(request, 4), BE16(request, 6), request[HEADER_LEN..]);
      reply[0] == TYPE_ECHO_REPLY && BE16(reply, 4) == id && BE16(reply, 6) == sequence &&
      reply[HEADER_LEN..] == data && ChecksumOf(reply) == 0
  {
    EchoFields(TYPE_ECHO_REQUEST, id, sequence, data);
    EchoFields(TYPE_ECHO_REPLY, id, sequence, data);
  }
}
