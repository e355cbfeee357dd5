/**
 * The DHCP client of src/net/dhcp.c (RFC 2131, with the options of RFC 2132): a
 * discover and a request are broadcast from port 68 to port 67; a reply addressed
 * to this interface's hardware address has its options parsed, and an offer is
 * answered with a request, an acknowledgement configures the interface, the routes
 * and the DNS server. The options record keeps, as the C does, the offsets of the
 * option values rather than copies of them.
 */
module Dhcp {
  import opened CInt
  import opened Wrappers
  import opened FrameAllocator
  import opened NetBuf
  import opened Intf
  import opened Route
  import opened NetConsts
  import Udp
  import Ipv4
  import Dns

  const OP_REQUEST: byte := 1
  const OP_REPLY: byte := 2
  const HTYPE_ETH: byte := 1
  /** sizeof(eth_addr_t). */
  const ETH_LEN: nat := 6
  const MAGIC_COOKIE: u32 := 0x6382_5363

  const OPT_PAD: byte := 0
  const OPT_SUBNET_MASK: byte := 1
  const OPT_ROUTER: byte := 3
  const OPT_DNS: byte := 6
  const OPT_REQUESTED_IP_ADDR: byte := 50
  const OPT_LEASE_TIME: byte := 51
  const OPT_DHCP_MESSAGE_TYPE: byte := 53
  const OPT_SERVER_ID: byte := 54
  const OPT_PARAMETER_REQUEST: byte := 55
  const OPT_END: byte := 255

  const DHCP_DISCOVER: byte := 1
  const DHCP_OFFER: byte := 2
  const DHCP_REQUEST: byte := 3
  const DHCP_ACK: byte := 5
  const DHCP_NAK: byte := 6

  /** sizeof(dhcp_header_t): the fixed fields of section 2 of RFC 2131. */
  const HEADER_LEN: nat := 236
  /** Options follow the header and the four-byte magic cookie. */
  const OPTIONS_AT: nat := 240
  const XID_AT: nat := 4
  const YOUR_IP_AT: nat := 16
  const CLIENT_ETH_AT: nat := 28

  const PORT_BOOTP_SERVER: nat := 67
  const PORT_BOOTP_CLIENT: nat := 68

  /** The parameter request list both messages carry: subnet mask, router, DNS. */
  const PARAMETERS: seq<byte> := [OPT_SUBNET_MASK, OPT_ROUTER, OPT_DNS]

  // ---- reading the packet ---------------------------------------------------------

  /** A byte as the parser reads it; a read past the packet sees 0 here. */
  function ByteAt(p: seq<byte>, i: nat): (b: byte)
    ensures i < |p| ==> b == p[i]
  {
    if i < |p| then p[i] else 0
  }

  /** The four bytes an ipv4_addr_t or uint32_t load at `i` takes. */
  function Quad(p: seq<byte>, i: nat): (q: seq<byte>)
    ensures |q| == 4
    ensures i + 4 <= |p| ==> q == p[i..i + 4]
  {
    [ByteAt(p, i), ByteAt(p, i + 1), ByteAt(p, i + 2), ByteAt(p, i + 3)]
  }

  /** The address at `i`, as the kernel loads it. */
  function AddrAt(p: seq<byte>, i: nat): u32
  {
    LE32(Quad(p, i), 0)
  }

  // ---- dhcp_parse_options ---------------------------------------------------------

  /** The start and end of an option's value, as the pointer pairs of dhcp_options_t. */
  datatype Span = Span(from: nat, to: nat)

  /**
   * dhcp_options_t: the offsets of the subnet mask, server identifier and lists, the
   * lease time and the message type. Option 50 has a field in the C struct that the
   * parser never fills, so it has none here.
   */
  datatype Options = Options(subnetMask: Option<nat>, routers: Option<Span>, dns: Option<Span>,
                             leaseTime: u32, messageType: byte, serverId: Option<nat>, parameters: Option<Span>)

  /** The record after the parser's memset. */
  const CLEARED: Options := Options(None, None, None, 0, 0, None, None)

  /**
   * The switch on an option's code: a known option records where its value lies, or
   * the value itself; any other option leaves the record alone.
   */
  function Record(o: Options, p: seq<byte>, code: byte, at: nat, next: nat): Options
  {
    if code == OPT_SUBNET_MASK then o.(subnetMask := Some(at))
    else if code == OPT_ROUTER then o.(routers := Some(Span(at, next)))
    else if code == OPT_DNS then o.(dns := Some(Span(at, next)))
    else if code == OPT_LEASE_TIME then o.(leaseTime := BE32(Quad(p, at), 0))
    else if code == OPT_DHCP_MESSAGE_TYPE then o.(messageType := ByteAt(p, at))
    else if code == OPT_SERVER_ID then o.(serverId := Some(at))
    else if code == OPT_PARAMETER_REQUEST then o.(parameters := Some(Span(at, next)))
    else o
  }

  /**
   * The option loop from `i`: a pad byte is skipped, an end byte stops it, and any
   * other code is followed by a length byte and a value that must end inside the
   * packet. A code in the last byte fails too: its length byte lies past the end, and
   * whatever it holds, the value would end past the end.
   */
  function Walk(p: seq<byte>, i: nat, o: Options): Option<Options>
    decreases |p| - i
  {
    if i >= |p| then Some(o)
    else if p[i] == OPT_PAD then Walk(p, i + 1, o)
    else if p[i] == OPT_END then Some(o)
    else if i + 1 == |p| then None
    else
      var next := i + 2 + p[i + 1];
      if next > |p| then None
      else Walk(p, next, Record(o, p, p[i], i + 2, next))
  }

  /** dhcp_parse_options: the magic cookie must follow the header, then the options. */
  function Parse(p: seq<byte>): (r: Option<Options>)
  {
    if |p| < OPTIONS_AT || BE32(p, HEADER_LEN) != MAGIC_COOKIE then None
    else Walk(p, OPTIONS_AT, CLEARED)
  }

  /** The loop of dhcp_parse_options, with a cursor moving through the options. */
  method ParseOptions(p: seq<byte>) returns (r: Option<Options>)
    ensures r == Parse(p)
  {
    if |p| < OPTIONS_AT {
      return None;
    }
    var cookie := BE32(p, HEADER_LEN);
    if cookie != MAGIC_COOKIE {
      return None;
    }
    var o := CLEARED;
    var at := OPTIONS_AT;
    while at < |p|
      invariant at <= |p| && Walk(p, at, o) == Walk(p, OPTIONS_AT, CLEARED)
      decreases |p| - at
    {
      var code := p[at];
      if code == OPT_PAD {
        at := at + 1;
      } else if code == OPT_END {
        return Some(o);
      } else {
        if at + 1 == |p| {
          return None;
        }
        var next := at + 2 + p[at + 1];
        if next > |p| {
          return None;
        }
        o := Record(o, p, code, at + 2, next);
        at := next;
      }
    }
    return Some(o);
  }

  /** Without the magic cookie after a whole header, nothing is parsed. */
  lemma ParseNeedsCookie(p: seq<byte>)
    ensures Parse(p).Some? ==> |p| >= OPTIONS_AT && BE32(p, HEADER_LEN) == MAGIC_COOKIE
    ensures |p| >= OPTIONS_AT && BE32(p, HEADER_LEN) == MAGIC_COOKIE && (|p| == OPTIONS_AT || p[OPTIONS_AT] == OPT_END) ==>
      Parse(p) == Some(CLEARED)
  {
  }

  /** The offsets in the record all lie inside the packet, the ends of spans included. */
  predicate Inside(o: Options, n: nat)
  {
    (o.subnetMask.Some? ==> o.subnetMask.value <= n) &&
    (o.routers.Some? ==> o.routers.value.from <= o.routers.value.to <= n) &&
    (o.dns.Some? ==> o.dns.value.from <= o.dns.value.to <= n) &&
    (o.serverId.Some? ==> o.serverId.value <= n) &&
    (o.parameters.Some? ==> o.parameters.value.from <= o.parameters.value.to <= n)
  }

  /** One option, whose value ends inside the packet, keeps the record's offsets inside. */
  lemma RecordInside(o: Options, p: seq<byte>, code: byte, at: nat, next: nat)
    requires Inside(o, |p|) && at <= next <= |p|
    ensures Inside(Record(o, p, code, at, next), |p|)
  {
    var r := Record(o, p, code, at, next);
    if code == OPT_SUBNET_MASK {
      assert r == o.(subnetMask := Some(at));
    } else if code == OPT_ROUTER {
      assert r == o.(routers := Some(Span(at, next)));
    } else if code == OPT_DNS {
      assert r == o.(dns := Some(Span(at, next)));
    } else if code == OPT_SERVER_ID {
      assert r == o.(serverId := Some(at));
    } else if code == OPT_PARAMETER_REQUEST {
      assert r == o.(parameters := Some(Span(at, next)));
    } else {
      assert r.subnetMask == o.subnetMask && r.routers == o.routers && r.dns == o.dns;
      assert r.serverId == o.serverId && r.parameters == o.parameters;
    }
  }

  /** Every pointer the parser records points into the packet. */
  lemma {:induction false} WalkInside(p: seq<byte>, i: nat, o: Options)
    requires Inside(o, |p|)
    ensures Walk(p, i, o).Some? ==> Inside(Walk(p, i, o).value, |p|)
    decreases |p| - i
  {
    if i < |p| && p[i] == OPT_PAD {
      WalkInside(p, i + 1, o);
    } else if i < |p| && p[i] != OPT_END && i + 1 < |p| {
      var next := i + 2 + p[i + 1];
      if next <= |p| {
        RecordInside(o, p, p[i], i + 2, next);
        WalkInside(p, next, Record(o, p, p[i], i + 2, next));
      }
    }
  }

  /** A later option with the same code overwrites what an earlier one recorded. */
  lemma LaterOptionWins(o: Options, p: seq<byte>, code: byte, at: nat, next: nat, at2: nat, next2: nat)
    ensures Record(Record(o, p, code, at, next), p, code, at2, next2) == Record(o, p, code, at2, next2)
  {
  }

  /** Options with different codes fill different fields, so their order does not matter. */
  lemma DistinctOptionsCommute(o: Options, p: seq<byte>, c1: byte, at1: nat, next1: nat, c2: byte, at2: nat, next2: nat)
    requires c1 != c2
    ensures Record(Record(o, p, c1, at1, next1), p, c2, at2, next2) ==
      Record(Record(o, p, c2, at2, next2), p, c1, at1, next1)
  {
  }

  // ---- encoding options -----------------------------------------------------------

  /** One option as a sender writes it: a code and its value. */
  datatype Opt = Opt(code: byte, value: seq<byte>)

  /** Options that can be written: neither pad nor end, values shorter than 256 bytes. */
  predicate Encodable(opts: seq<Opt>)
  {
    forall k :: 0 <= k < |opts| ==> opts[k].code != OPT_PAD && opts[k].code != OPT_END && |opts[k].value| < 256
  }

  /** The options written one after another, each as code, length and value. */
  function Encode(opts: seq<Opt>): (e: seq<byte>)
    requires Encodable(opts)
  {
    if opts == [] then [] else [opts[0].code, |opts[0].value| as byte] + opts[0].value + Encode(opts[1..])
  }

  /** The record after the options, written from `i` on, each went through the switch. */
  function Applied(o: Options, p: seq<byte>, i: nat, opts: seq<Opt>): Options
    requires Encodable(opts)
    decreases |opts|
  {
    if opts == [] then o
    else
      var next := i + 2 + |opts[0].value|;
      Applied(Record(o, p, opts[0].code, i + 2, next), p, next, opts[1..])
  }

  /** Written options followed by an end byte are read back, one by one, in order. */
  lemma {:induction false} EncodedWalks(p: seq<byte>, i: nat, o: Options, opts: seq<Opt>)
    requires Encodable(opts)
    requires i + |Encode(opts)| < |p| && p[i..i + |Encode(opts)|] == Encode(opts) && p[i + |Encode(opts)|] == OPT_END
    ensures Walk(p, i, o) == Some(Applied(o, p, i, opts))
    decreases |opts|
  {
    if opts != [] {
      var e := Encode(opts);
      var first := [opts[0].code, |opts[0].value| as byte] + opts[0].value;
      var rest := Encode(opts[1..]);
      assert e == first + rest;
      assert p[i] == e[0] && p[i + 1] == e[1];
      var next := i + 2 + |opts[0].value|;
      assert p[next..next + |rest|] == e[|first|..] == rest;
      assert Encodable(opts[1..]) by {
        forall k | 0 <= k < |opts[1..]| ensures opts[1..][k] == opts[k + 1] {}
      }
      EncodedWalks(p, next, Record(o, p, opts[0].code, i + 2, next), opts[1..]);
    }
  }

  // ---- dhcp_build_header and the messages -----------------------------------------

  function Zeros(n: nat): (z: seq<byte>)
    ensures |z| == n
  {
    seq(n, _ => 0)
  }

  /**
   * What dhcp_build_header writes: a zeroed header with opcode 1, hardware type 1,
   * hardware length 6, the transaction id in network order and the client's hardware
   * address; the magic cookie; then option 53 holding the message type.
   */
  function Header(xid: u32, mac: seq<byte>, messageType: byte): (h: seq<byte>)
    requires |mac| == ETH_LEN
    ensures |h| == OPTIONS_AT + 3
  {
    [OP_REQUEST, HTYPE_ETH, ETH_LEN as byte, 0] + BytesBE32(xid) + Zeros(20) + mac + Zeros(202) +
    BytesBE32(MAGIC_COOKIE) + [OPT_DHCP_MESSAGE_TYPE, 1, messageType]
  }

  /** The fields of a built header read back as they were given. */
  lemma HeaderFields(xid: u32, mac: seq<byte>, messageType: byte)
    requires |mac| == ETH_LEN
    ensures var h := Header(xid, mac, messageType);
      h[0] == OP_REQUEST && h[1] == HTYPE_ETH && h[2] == ETH_LEN && BE32(h, XID_AT) == xid &&
      h[CLIENT_ETH_AT..CLIENT_ETH_AT + ETH_LEN] == mac && BE32(h, HEADER_LEN) == MAGIC_COOKIE &&
      h[OPTIONS_AT..] == Encode([Opt(OPT_DHCP_MESSAGE_TYPE, [messageType])])
  {
    var h := Header(xid, mac, messageType);
    var x := BytesBE32(xid);
    var c := BytesBE32(MAGIC_COOKIE);
    assert h[XID_AT..XID_AT + 4] == x;
    assert BE32(h, XID_AT) == BE32(x, 0) by {
      assert h[4] == x[0] && h[5] == x[1] && h[6] == x[2] && h[7] == x[3];
    }
    assert h[HEADER_LEN..HEADER_LEN + 4] == c;
    assert BE32(h, HEADER_LEN) == BE32(c, 0) by {
      assert h[236] == c[0] && h[237] == c[1] && h[238] == c[2] && h[239] == c[3];
    }
  }

  /** The options of a discover after option 53: the parameter list, then the end. */
  const DISCOVER_OPTIONS: seq<byte> := [OPT_PARAMETER_REQUEST, 3] + PARAMETERS + [OPT_END]

  /** The options of a request after option 53: server id, requested address, parameter list, end. */
  function RequestOptions(serverId: seq<byte>, requested: seq<byte>): seq<byte>
  {
    [OPT_SERVER_ID, 4] + serverId + [OPT_REQUESTED_IP_ADDR, 4] + requested + DISCOVER_OPTIONS
  }

  /** A message of the given type with the given options after option 53, read back. */
  lemma {:induction false} BuiltParses(xid: u32, mac: seq<byte>, messageType: byte, opts: seq<Opt>, trailer: seq<byte>)
    requires |mac| == ETH_LEN && Encodable(opts)
    ensures var p := Header(xid, mac, messageType) + Encode(opts) + [OPT_END] + trailer;
      Parse(p) == Some(Applied(CLEARED, p, OPTIONS_AT, [Opt(OPT_DHCP_MESSAGE_TYPE, [messageType])] + opts))
  {
    var h := Header(xid, mac, messageType);
    var p := h + Encode(opts) + [OPT_END] + trailer;
    var all := [Opt(OPT_DHCP_MESSAGE_TYPE, [messageType])] + opts;
    HeaderFields(xid, mac, messageType);
    assert Encodable(all) by {
      forall k | 0 <= k < |all| ensures all[k].code != OPT_PAD && all[k].code != OPT_END && |all[k].value| < 256 {
        if k > 0 { assert all[k] == opts[k - 1]; }
      }
    }
    assert all[1..] == opts;
    assert Encode(all) == [OPT_DHCP_MESSAGE_TYPE, 1, messageType] + Encode(opts);
    assert p[..OPTIONS_AT] == h[..OPTIONS_AT];
    assert BE32(p, HEADER_LEN) == BE32(h, HEADER_LEN);
    assert p[OPTIONS_AT..OPTIONS_AT + |Encode(all)|] == Encode(all);
    EncodedWalks(p, OPTIONS_AT, CLEARED, all);
  }

  /** A discover reads back as a discover asking for the subnet mask, router and DNS. */
  lemma DiscoverParses(mac: seq<byte>)
    requires |mac| == ETH_LEN
    ensures Parse(Header(0, mac, DHCP_DISCOVER) + DISCOVER_OPTIONS) ==
      Some(CLEARED.(messageType := DHCP_DISCOVER, parameters := Some(Span(245, 248))))
  {
    var opts := [Opt(OPT_PARAMETER_REQUEST, PARAMETERS)];
    var h := Header(0, mac, DHCP_DISCOVER);
    var p := h + DISCOVER_OPTIONS;
    assert Encode(opts[1..]) == [];
    assert p == h + Encode(opts) + [OPT_END] + [];
    BuiltParses(0, mac, DHCP_DISCOVER, opts, []);
    var all := [Opt(OPT_DHCP_MESSAGE_TYPE, [DHCP_DISCOVER])] + opts;
    assert all[1..] == opts && opts[1..] == [];
    assert p[242] == h[242] == DHCP_DISCOVER;
    var o1 := CLEARED.(messageType := DHCP_DISCOVER);
    assert Record(CLEARED, p, OPT_DHCP_MESSAGE_TYPE, 242, 243) == o1;
    assert Applied(CLEARED, p, OPTIONS_AT, all) == Applied(o1, p, 243, opts);
    assert Applied(o1, p, 243, opts) == Applied(o1.(parameters := Some(Span(245, 248))), p, 248, []);
  }

  /** The options of a request after option 53, as the encoder writes them, then the end. */
  lemma RequestEncoded(serverId: seq<byte>, requested: seq<byte>)
    requires |serverId| == 4 && |requested| == 4
    ensures var opts := [Opt(OPT_SERVER_ID, serverId), Opt(OPT_REQUESTED_IP_ADDR, requested), Opt(OPT_PARAMETER_REQUEST, PARAMETERS)];
      Encodable(opts) && RequestOptions(serverId, requested) == Encode(opts) + [OPT_END]
  {
    var opts := [Opt(OPT_SERVER_ID, serverId), Opt(OPT_REQUESTED_IP_ADDR, requested), Opt(OPT_PARAMETER_REQUEST, PARAMETERS)];
    assert opts[1..][1..] == opts[2..] && opts[2..][1..] == [];
    assert Encode(opts[2..][1..]) == [];
    assert Encode(opts[1..]) == [OPT_REQUESTED_IP_ADDR, 4] + requested + [OPT_PARAMETER_REQUEST, 3] + PARAMETERS;
  }

  /** A request reads back as a request naming the server, with the parameter list. */
  lemma RequestParses(xid: u32, mac: seq<byte>, serverId: seq<byte>, requested: seq<byte>)
    requires |mac| == ETH_LEN && |serverId| == 4 && |requested| == 4
    ensures var p := Header(xid, mac, DHCP_REQUEST) + RequestOptions(serverId, requested);
      Parse(p) == Some(CLEARED.(messageType := DHCP_REQUEST, serverId := Some(245), parameters := Some(Span(257, 260))))
  {
    var opts := [Opt(OPT_SERVER_ID, serverId), Opt(OPT_REQUESTED_IP_ADDR, requested), Opt(OPT_PARAMETER_REQUEST, PARAMETERS)];
    var h := Header(xid, mac, DHCP_REQUEST);
    var p := h + RequestOptions(serverId, requested);
    RequestEncoded(serverId, requested);
    assert p == h + Encode(opts) + [OPT_END] + [];
    BuiltParses(xid, mac, DHCP_REQUEST, opts, []);
    var all := [Opt(OPT_DHCP_MESSAGE_TYPE, [DHCP_REQUEST])] + opts;
    assert all[1..] == opts;
    assert p[242] == h[242] == DHCP_REQUEST;
    var o1 := CLEARED.(messageType := DHCP_REQUEST);
    assert Record(CLEARED, p, OPT_DHCP_MESSAGE_TYPE, 242, 243) == o1;
    assert Applied(CLEARED, p, OPTIONS_AT, all) == Applied(o1, p, 243, opts);
    var o2 := o1.(serverId := Some(245));
    assert Applied(o1, p, 243, opts) == Applied(o2, p, 249, opts[1..]);
    assert Applied(o2, p, 249, opts[1..]) == Applied(o2, p, 255, opts[2..]);
    assert Applied(o2, p, 255, opts[2..]) == Applied(o2.(parameters := Some(Span(257, 260))), p, 260, []);
  }

  /** dhcp_build_header on an empty buffer. */
  method BuildHeader(packet: Buf, xid: u32, mac: seq<byte>, messageType: byte)
    requires packet.Valid() && packet.start == packet.end == NET_BUF_START && |mac| == ETH_LEN
    modifies packet`end, packet.data
    ensures packet.Valid() && packet.start == NET_BUF_START && packet.Payload() == Header(xid, mac, messageType)
  {
    packet.Append(Header(xid, mac, messageType));
  }

  // ---- dhcp_recv ------------------------------------------------------------------

  /**
   * The filter of dhcp_recv: a whole header, a reply, Ethernet hardware addresses of
   * six bytes, and this interface's address as the client's.
   */
  predicate ForClient(p: seq<byte>, mac: seq<byte>)
  {
    |p| >= HEADER_LEN && p[0] == OP_REPLY && p[1] == HTYPE_ETH && p[2] == ETH_LEN &&
    p[CLIENT_ETH_AT..CLIENT_ETH_AT + ETH_LEN] == mac
  }

  /** What a reply asks of the client. */
  datatype Kind = NotForClient | Offer(opts: Options) | Acked(opts: Options) | Other(messageType: byte)

  function Classify(p: seq<byte>, mac: seq<byte>): Kind
  {
    if !ForClient(p, mac) then NotForClient
    else
      var r := Parse(p);
      if r.None? then NotForClient
      else if r.value.messageType == DHCP_OFFER then Offer(r.value)
      else if r.value.messageType == DHCP_ACK then Acked(r.value)
      else Other(r.value.messageType)
  }

  /** Our own messages are requests, which the client's filter turns away. */
  lemma OwnMessagesIgnored(xid: u32, mac: seq<byte>, messageType: byte, rest: seq<byte>)
    requires |mac| == ETH_LEN
    ensures Classify(Header(xid, mac, messageType) + rest, mac) == NotForClient
  {
    assert (Header(xid, mac, messageType) + rest)[0] == OP_REQUEST;
  }

  /** The server identifier the request carries: the bytes at the offset option 54 recorded. */
  function ServerIdBytes(p: seq<byte>, o: Options): (b: seq<byte>)
    ensures |b| == 4
  {
    if o.serverId.Some? then Quad(p, o.serverId.value) else [0, 0, 0, 0]
  }

  /** The request dhcp_request sends in answer to offer `p`. */
  function RequestMessage(p: seq<byte>, o: Options, mac: seq<byte>): seq<byte>
    requires |p| >= HEADER_LEN && |mac| == ETH_LEN
  {
    Header(BE32(p, XID_AT), mac, DHCP_REQUEST) + RequestOptions(ServerIdBytes(p, o), p[YOUR_IP_AT..YOUR_IP_AT + 4])
  }

  /** What udp_intf_send makes of a message for the broadcast address, port 67 from port 68. */
  function Broadcast(intf: Interface, message: seq<byte>): seq<byte>
    requires |message| + Udp.HEADER_LEN + Ipv4.HEADER_LEN < B16
    reads intf
  {
    Ipv4.Datagram(Ipv4.PROTOCOL_UDP, intf.ipAddr, IPV4_BROADCAST,
      Udp.Segment(PORT_BOOTP_CLIENT, PORT_BOOTP_SERVER, message))
  }

  /**
   * dhcp_request: a new buffer with the header of a request, the server identifier,
   * the offered address as the requested one, and the parameter list, broadcast.
   */
  method Request(intf: Interface, p: seq<byte>, o: Options, pool: Pool, pfa: Allocator) returns (buf: Buf, handoff: Ipv4.Handoff)
    requires |p| >= HEADER_LEN && |intf.ethAddr| == ETH_LEN && pool.Valid() && pfa.Valid()
    modifies pool, pfa, pfa.buffer, pool.Reused()
    ensures pool.Valid() && pfa.Valid() && buf.Valid()
    ensures buf !in old(pool.live) && pool.live == old(pool.live) + {buf} && pool.allocCount == old(pool.allocCount) + 1
    ensures handoff == Ipv4.Handoff(intf, IPV4_BROADCAST)
    ensures buf.Payload() == Broadcast(intf, RequestMessage(p, o, intf.ethAddr))
  {
    buf, handoff := SendMessage(intf, BE32(p, XID_AT), DHCP_REQUEST,
      RequestOptions(ServerIdBytes(p, o), p[YOUR_IP_AT..YOUR_IP_AT + 4]), pool, pfa);
  }

  /** dhcp_discover: a new buffer with a discover, transaction id 0, broadcast. */
  method Discover(intf: Interface, pool: Pool, pfa: Allocator) returns (buf: Buf, handoff: Ipv4.Handoff)
    requires |intf.ethAddr| == ETH_LEN && pool.Valid() && pfa.Valid()
    modifies pool, pfa, pfa.buffer, pool.Reused()
    ensures pool.Valid() && pfa.Valid() && buf.Valid()
    ensures buf !in old(pool.live) && pool.live == old(pool.live) + {buf} && pool.allocCount == old(pool.allocCount) + 1
    ensures handoff == Ipv4.Handoff(intf, IPV4_BROADCAST)
    ensures buf.Payload() == Broadcast(intf, Header(0, intf.ethAddr, DHCP_DISCOVER) + DISCOVER_OPTIONS)
  {
    buf, handoff := SendMessage(intf, 0, DHCP_DISCOVER, DISCOVER_OPTIONS, pool, pfa);
  }

  /** A new message, with its header and options, handed to udp_intf_send for the broadcast address. */
  method SendMessage(intf: Interface, xid: u32, messageType: byte, options: seq<byte>, pool: Pool, pfa: Allocator)
    returns (buf: Buf, handoff: Ipv4.Handoff)
    requires |intf.ethAddr| == ETH_LEN && |options| <= 32 && pool.Valid() && pfa.Valid()
    modifies pool, pfa, pfa.buffer, pool.Reused()
    ensures pool.Valid() && pfa.Valid() && buf.Valid()
    ensures buf !in old(pool.live) && pool.live == old(pool.live) + {buf} && pool.allocCount == old(pool.allocCount) + 1
    ensures handoff == Ipv4.Handoff(intf, IPV4_BROADCAST)
    ensures buf.Payload() == Broadcast(intf, Header(xid, intf.ethAddr, messageType) + options)
  {
    ghost var message := Header(xid, intf.ethAddr, messageType) + options;
    assert intf !in pool.Reused();
    buf := NewMessage(xid, intf.ethAddr, messageType, options, pool, pfa);
    handoff := Udp.IntfSend(intf, IPV4_BROADCAST, PORT_BOOTP_SERVER, PORT_BOOTP_CLIENT, buf);
    assert buf.Payload() == Broadcast(intf, message);
  }

  /** A buffer from net_alloc_buf with a built header and the options after it. */
  method NewMessage(xid: u32, mac: seq<byte>, messageType: byte, options: seq<byte>, pool: Pool, pfa: Allocator)
    returns (buf: Buf)
    requires |mac| == ETH_LEN && |options| <= 32 && pool.Valid() && pfa.Valid()
    modifies pool, pfa, pfa.buffer, pool.Reused()
    ensures pool.Valid() && pfa.Valid() && buf.Valid() && buf.start == NET_BUF_START
    ensures buf !in old(pool.live) && pool.live == old(pool.live) + {buf} && pool.allocCount == old(pool.allocCount) + 1
    ensures (fresh(buf) && fresh(buf.data)) || (old(pool.freeList) != [] && buf == old(pool.freeList[0]))
    ensures buf.Payload() == Header(xid, mac, messageType) + options
  {
    buf := pool.Alloc(pfa);
    BuildHeader(buf, xid, mac, messageType);
    buf.Append(options);
  }

  /** The default route through the first router offered. */
  function DefaultRoute(intf: Interface, p: seq<byte>, routers: Span): Route
  {
    Route(0, 0, AddrAt(p, routers.from), intf)
  }

  /** The route to the subnet of `ip` under the offered mask, with no gateway. */
  function SubnetRoute(intf: Interface, ip: u32, p: seq<byte>, mask: nat): Route
  {
    Route(And32(ip, AddrAt(p, mask)), AddrAt(p, mask), 0, intf)
  }

  /** The route to `ip` alone. */
  function HostRoute(intf: Interface, ip: u32): Route
  {
    Route(ip, 0xFFFF_FFFF, 0, intf)
  }

  /** The routes dhcp_ack adds, in order: default, subnet, then the host route. */
  function AckRoutes(intf: Interface, ip: u32, p: seq<byte>, o: Options): seq<Route>
  {
    (if o.routers.Some? then [DefaultRoute(intf, p, o.routers.value)] else []) +
    (if o.subnetMask.Some? then [SubnetRoute(intf, ip, p, o.subnetMask.value)] else []) +
    [HostRoute(intf, ip)]
  }

  /** The list after net_add_route was called with each of `adds` in turn. */
  function InsertedAll(routes: seq<Route>, adds: seq<Route>): seq<Route>
    decreases |adds|
  {
    if adds == [] then routes else InsertedAll(Inserted(routes, adds[0]), adds[1..])
  }

  /** One more route added after the others. */
  lemma {:induction false} InsertedAllSnoc(routes: seq<Route>, adds: seq<Route>, r: Route)
    ensures InsertedAll(routes, adds + [r]) == Inserted(InsertedAll(routes, adds), r)
    decreases |adds|
  {
    if adds == [] {
      assert InsertedAll(Inserted(routes, r), []) == Inserted(routes, r);
    } else {
      assert (adds + [r])[1..] == adds[1..] + [r];
      InsertedAllSnoc(Inserted(routes, adds[0]), adds[1..], r);
    }
  }

  /** Adding routes keeps the old ones and adds exactly the new ones. */
  lemma {:induction false} InsertedAllAdds(routes: seq<Route>, adds: seq<Route>)
    ensures multiset(InsertedAll(routes, adds)) == multiset(routes) + multiset(adds)
    decreases |adds|
  {
    if adds != [] {
      InsertedCount(routes, adds[0]);
      InsertedAllAdds(Inserted(routes, adds[0]), adds[1..]);
      assert adds == [adds[0]] + adds[1..];
      assert multiset(adds) == multiset{adds[0]} + multiset(adds[1..]);
    }
  }

  /** net_add_route adds the one route to the list. */
  lemma InsertedCount(routes: seq<Route>, r: Route)
    ensures multiset(Inserted(routes, r)) == multiset(routes) + multiset{r}
  {
    AddRouteKeepsOrder(routes, r);
  }

  /** A route added, or there before, is there after. */
  lemma InsertedAllHas(routes: seq<Route>, adds: seq<Route>, r: Route)
    requires r in routes || r in adds
    ensures r in InsertedAll(routes, adds)
  {
    InsertedAllAdds(routes, adds);
    assert r in multiset(routes) + multiset(adds);
    assert r in multiset(InsertedAll(routes, adds));
  }

  /** Each call to net_add_route lengthens the list by one. */
  lemma InsertedAllLength(routes: seq<Route>, adds: seq<Route>)
    ensures |InsertedAll(routes, adds)| == |routes| + |adds|
  {
    InsertedAllAdds(routes, adds);
    assert |multiset(InsertedAll(routes, adds))| == |multiset(routes) + multiset(adds)|;
  }

  /**
   * After an acknowledgement the table holds the host route, the default route when a
   * router was offered, and the subnet route when a mask was, besides the old routes.
   */
  lemma AckRoutesAdded(routes: seq<Route>, intf: Interface, ip: u32, p: seq<byte>, o: Options)
    ensures var after := InsertedAll(routes, AckRoutes(intf, ip, p, o));
      HostRoute(intf, ip) in after &&
      (o.routers.Some? ==> DefaultRoute(intf, p, o.routers.value) in after) &&
      (o.subnetMask.Some? ==> SubnetRoute(intf, ip, p, o.subnetMask.value) in after) &&
      |after| == |routes| + (if o.routers.Some? then 1 else 0) + (if o.subnetMask.Some? then 1 else 0) + 1
  {
    var adds := AckRoutes(intf, ip, p, o);
    InsertedAllLength(routes, adds);
    InsertedAllHas(routes, adds, HostRoute(intf, ip));
    if o.routers.Some? {
      InsertedAllHas(routes, adds, DefaultRoute(intf, p, o.routers.value));
    }
    if o.subnetMask.Some? {
      InsertedAllHas(routes, adds, SubnetRoute(intf, ip, p, o.subnetMask.value));
    }
  }

  /**
   * dhcp_ack: the interface takes the offered address; the default, subnet and host
   * routes are added; the broadcast address is the address with every host bit set;
   * the first DNS server offered becomes the resolver's server.
   */
  method Ack(intf: Interface, p: seq<byte>, o: Options, table: RouteTable, resolver: Dns.Resolver)
    requires |p| >= HEADER_LEN
    modifies intf`ipAddr, intf`broadcastAddr, table, resolver`server
    ensures intf.ipAddr == LE32(p, YOUR_IP_AT)
    ensures table.routes == InsertedAll(old(table.routes), AckRoutes(intf, intf.ipAddr, p, o))
    ensures intf.broadcastAddr ==
      if o.subnetMask.Some? then Or32(intf.ipAddr, Not32(AddrAt(p, o.subnetMask.value))) else old(intf.broadcastAddr)
    ensures resolver.server == if o.dns.Some? then AddrAt(p, o.dns.value.from) else old(resolver.server)
  {
    var ip := LE32(p, YOUR_IP_AT);
    intf.ipAddr := ip;
    AddRoutes(intf, ip, p, o, table);
    if o.subnetMask.Some? {
      intf.broadcastAddr := Or32(ip, Not32(AddrAt(p, o.subnetMask.value)));
    }
    if o.dns.Some? {
      resolver.server := AddrAt(p, o.dns.value.from);
    }
  }

  /** dhcp_ack's three calls to net_add_route. */
  method AddRoutes(intf: Interface, ip: u32, p: seq<byte>, o: Options, table: RouteTable)
    modifies table
    ensures table.routes == InsertedAll(old(table.routes), AckRoutes(intf, ip, p, o))
  {
    ghost var routes := table.routes;
    ghost var adds: seq<Route> := [];
    assert table.routes == InsertedAll(routes, adds);
    if o.routers.Some? {
      var r := DefaultRoute(intf, p, o.routers.value);
      table.AddRoute(r);
      InsertedAllSnoc(routes, adds, r);
      adds := adds + [r];
    }
    if o.subnetMask.Some? {
      var r := SubnetRoute(intf, ip, p, o.subnetMask.value);
      table.AddRoute(r);
      InsertedAllSnoc(routes, adds, r);
      adds := adds + [r];
    }
    var host := HostRoute(intf, ip);
    table.AddRoute(host);
    InsertedAllSnoc(routes, adds, host);
    adds := adds + [host];
    assert adds == AckRoutes(intf, ip, p, o);
  }

  /**
   * The request names the offer's transaction id and asks for the address offered, with
   * the server identifier the offer carried.
   */
  lemma RequestEchoesOffer(p: seq<byte>, o: Options, mac: seq<byte>)
    requires |p| >= HEADER_LEN && |mac| == ETH_LEN
    ensures var m := RequestMessage(p, o, mac);
      Parse(m).Some? && Parse(m).value.messageType == DHCP_REQUEST && Parse(m).value.serverId == Some(245) &&
      BE32(m, XID_AT) == BE32(p, XID_AT) && Quad(m, 245) == ServerIdBytes(p, o) &&
      m[251..255] == p[YOUR_IP_AT..YOUR_IP_AT + 4]
  {
    var serverId := ServerIdBytes(p, o);
    var requested := p[YOUR_IP_AT..YOUR_IP_AT + 4];
    var h := Header(BE32(p, XID_AT), mac, DHCP_REQUEST);
    var m := RequestMessage(p, o, mac);
    RequestParses(BE32(p, XID_AT), mac, serverId, requested);
    HeaderFields(BE32(p, XID_AT), mac, DHCP_REQUEST);
    assert m[..|h|] == h;
    assert m[XID_AT..XID_AT + 4] == h[XID_AT..XID_AT + 4];
    assert m[245..249] == serverId;
    assert m[251..255] == requested;
  }

  /** What dhcp_recv did with a packet. */
  datatype Reaction =
    | Ignored
    | Requested(buf: Buf, handoff: Ipv4.Handoff)
    | Acknowledged
    | Unhandled(messageType: byte)

  /** The checks at the head of dhcp_recv, then dhcp_parse_options. */
  method Accept(p: seq<byte>, mac: seq<byte>) returns (k: Kind)
    ensures k == Classify(p, mac)
  {
    if !ForClient(p, mac) {
      return NotForClient;
    }
    var parsed := ParseOptions(p);
    if parsed.None? {
      return NotForClient;
    }
    var o := parsed.value;
    k := if o.messageType == DHCP_OFFER then Offer(o) else if o.messageType == DHCP_ACK then Acked(o)
      else Other(o.messageType);
  }

  /** The switch of dhcp_recv on the message type of a reply addressed to the client. */
  method Dispatch(intf: Interface, p: seq<byte>, k: Kind, pool: Pool, pfa: Allocator, table: RouteTable, resolver: Dns.Resolver)
    returns (reaction: Reaction)
    requires |p| >= HEADER_LEN && !k.NotForClient? && pool.Valid() && pfa.Valid() && |intf.ethAddr| == ETH_LEN
    modifies intf`ipAddr, intf`broadcastAddr, table, resolver`server, pool, pfa, pfa.buffer, pool.Reused()
    ensures pool.Valid() && pfa.Valid()
    ensures Reacted(k, reaction)
    ensures k.Offer? ==>
      reaction.buf.Valid() && reaction.buf !in old(pool.live) &&
      pool.live == old(pool.live) + {reaction.buf} && pool.allocCount == old(pool.allocCount) + 1 &&
      reaction.handoff == Ipv4.Handoff(intf, IPV4_BROADCAST) &&
      reaction.buf.Payload() == Broadcast(intf, RequestMessage(p, k.opts, intf.ethAddr))
    ensures !k.Offer? ==> pool.live == old(pool.live) && pool.allocCount == old(pool.allocCount)
    ensures if k.Acked? then
        intf.ipAddr == LE32(p, YOUR_IP_AT) &&
        table.routes == InsertedAll(old(table.routes), AckRoutes(intf, intf.ipAddr, p, k.opts)) &&
        intf.broadcastAddr == (if k.opts.subnetMask.Some? then Or32(intf.ipAddr, Not32(AddrAt(p, k.opts.subnetMask.value)))
          else old(intf.broadcastAddr)) &&
        resolver.server == (if k.opts.dns.Some? then AddrAt(p, k.opts.dns.value.from) else old(resolver.server))
      else
        intf.ipAddr == old(intf.ipAddr) && intf.broadcastAddr == old(intf.broadcastAddr) &&
        table.routes == old(table.routes) && resolver.server == old(resolver.server)
  {
    match k
    case Offer(o) =>
      assert intf !in pool.Reused() && table !in pool.Reused() && resolver !in pool.Reused();
      var buf, handoff := Request(intf, p, o, pool, pfa);
      reaction := Requested(buf, handoff);
    case Acked(o) =>
      Ack(intf, p, o, table, resolver);
      reaction := Acknowledged;
    case Other(messageType) =>
      reaction := Unhandled(messageType);
  }

  /** The reaction answers the kind of packet: one for one, and nothing for a packet not for the client. */
  predicate Reacted(k: Kind, reaction: Reaction)
  {
    (reaction.Ignored? <==> k.NotForClient?) &&
    (k.Offer? <==> reaction.Requested?) &&
    (k.Acked? <==> reaction.Acknowledged?) &&
    (k.Other? ==> reaction == Unhandled(k.messageType)) && (reaction.Unhandled? ==> k.Other?)
  }

  /**
   * dhcp_recv: a packet that is not a well-formed reply to this interface is dropped;
   * an offer is answered with a request, an acknowledgement configures the interface,
   * and any other message type changes nothing.
   */
  method Recv(intf: Interface, packet: Buf, pool: Pool, pfa: Allocator, table: RouteTable, resolver: Dns.Resolver)
    returns (reaction: Reaction)
    requires packet.Valid() && pool.Valid() && pfa.Valid() && |intf.ethAddr| == ETH_LEN
    modifies intf`ipAddr, intf`broadcastAddr, table, resolver`server, pool, pfa, pfa.buffer, pool.Reused()
    ensures pool.Valid() && pfa.Valid()
    ensures Reacted(Classify(old(packet.Payload()), intf.ethAddr), reaction)
    ensures var k := Classify(old(packet.Payload()), intf.ethAddr);
      k.Offer? ==>
        reaction.buf.Valid() && reaction.buf !in old(pool.live) &&
        pool.live == old(pool.live) + {reaction.buf} && pool.allocCount == old(pool.allocCount) + 1 &&
        reaction.handoff == Ipv4.Handoff(intf, IPV4_BROADCAST) &&
        reaction.buf.Payload() == Broadcast(intf, RequestMessage(old(packet.Payload()), k.opts, intf.ethAddr))
    ensures !reaction.Requested? ==> pool.live == old(pool.live) && pool.allocCount == old(pool.allocCount)
    ensures var k := Classify(old(packet.Payload()), intf.ethAddr);
      var p := old(packet.Payload());
      if k.Acked? then
        intf.ipAddr == LE32(p, YOUR_IP_AT) &&
        table.routes == InsertedAll(old(table.routes), AckRoutes(intf, intf.ipAddr, p, k.opts)) &&
        intf.broadcastAddr == (if k.opts.subnetMask.Some? then Or32(intf.ipAddr, Not32(AddrAt(p, k.opts.subnetMask.value)))
          else old(intf.broadcastAddr)) &&
        resolver.server == (if k.opts.dns.Some? then AddrAt(p, k.opts.dns.value.from) else old(resolver.server))
      else
        intf.ipAddr == old(intf.ipAddr) && intf.broadcastAddr == old(intf.broadcastAddr) &&
        table.routes == old(table.routes) && resolver.server == old(resolver.server)
  {
    var p := packet.Payload();
    var k := Accept(p, intf.ethAddr);
    if k.NotForClient? {
      return Ignored;
    }
    reaction := Dispatch(intf, p, k, pool, pfa, table, resolver);
  }
}
