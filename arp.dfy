/**
 * The ARP cache of src/net/arp.c (RFC 826): sixteen entries mapping an IPv4 address
 * to a MAC address, each able to hold one packet waiting for the answer. What the
 * C hands to an interface's send callback, to net_free_buf or to eth_intf_send is
 * returned here as a list of effects, in the order the C performs them.
 */
module Arp {
  import opened CInt
  import opened Wrappers
  import opened NetConsts
  import opened NetBuf
  import opened Intf

  const ARP_CACHE_SIZE: nat := 16
  const HTYPE_ETH: u16 := 1
  const OP_REQUEST: u16 := 1
  const OP_REPLY: u16 := 2
  /** sizeof(arp_header_t): htype, ptype, hlen, plen and op. */
  const HEADER_LEN: nat := 8
  /** The header and the four addresses of an Ethernet/IPv4 message. */
  const MESSAGE_LEN: nat := 28

  datatype Entry = Entry(ha: seq<byte>, pa: u32, intf: Option<Interface>, ethertype: u16, packet: Option<Buf>)

  /** A MAC address of six bytes, and a pending packet always with its interface. */
  predicate Consistent(e: Entry)
  {
    |e.ha| == 6 && (e.packet.Some? ==> e.intf.Some?)
  }

  const EMPTY: Entry := Entry(ETH_NULL, 0, None, 0, None)

  datatype Effect =
    /** arp_send: a message handed to the interface's send callback, to `ethDst`. */
    | Transmit(intf: Interface, ethDst: seq<byte>, message: seq<byte>)
    /** net_free_buf of a pending packet that a newer one replaces. */
    | FreeBuf(buf: Buf)
    /** eth_intf_send of a pending packet, now that `ipDst` is resolved. */
    | Resend(intf: Interface, ipDst: u32, ethertype: u16, packet: Buf)

  /** The 28 bytes arp_send writes: header in network order, then sha, spa, tha and tpa. */
  function Message(op: u16, sha: seq<byte>, spa: u32, tha: seq<byte>, tpa: u32): (m: seq<byte>)
    requires |sha| == 6 && |tha| == 6
    ensures |m| == MESSAGE_LEN
  {
    BytesBE16(HTYPE_ETH) + BytesBE16(ET_IPV4) + [6, 4] + BytesBE16(op) +
    sha + BytesLE32(spa) + tha + BytesLE32(tpa)
  }

  /** The fields arp_recv uses. */
  datatype Parsed = Parsed(op: u16, sha: seq<byte>, spa: u32, tpa: u32)

  /**
   * arp_recv's checks: a whole header, hardware type Ethernet, protocol type IPv4,
   * and room for the four addresses. The lengths hlen and plen are not checked.
   */
  function Parse(p: seq<byte>): (r: Option<Parsed>)
    ensures r.Some? <==> |p| >= MESSAGE_LEN && BE16(p, 0) == HTYPE_ETH && BE16(p, 2) == ET_IPV4
    ensures r.Some? ==> |r.value.sha| == 6
  {
    if |p| < HEADER_LEN then None
    else if BE16(p, 0) != HTYPE_ETH || BE16(p, 2) != ET_IPV4 || |p| < MESSAGE_LEN then None
    else Some(Parsed(BE16(p, 6), p[8..14], LE32(p, 14), LE32(p, 24)))
  }

  /** What arp_send writes, arp_recv reads back, whatever follows it. */
  lemma ParseMessage(op: u16, sha: seq<byte>, spa: u32, tha: seq<byte>, tpa: u32, rest: seq<byte>)
    requires |sha| == 6 && |tha| == 6
    ensures Parse(Message(op, sha, spa, tha, tpa) + rest) == Some(Parsed(op, sha, spa, tpa))
  {
    var p := Message(op, sha, spa, tha, tpa) + rest;
    assert p[0..2] == BytesBE16(HTYPE_ETH);
    assert p[2..4] == BytesBE16(ET_IPV4);
    assert p[6..8] == BytesBE16(op);
    assert p[8..14] == sha;
    assert p[14..18] == BytesLE32(spa);
    assert p[24..28] == BytesLE32(tpa);
    assert BE16(p, 0) == BE16(p[0..2], 0);
    assert BE16(p, 2) == BE16(p[2..4], 0);
    assert BE16(p, 6) == BE16(p[6..8], 0);
    assert LE32(p, 14) == LE32(p[14..18], 0);
    assert LE32(p, 24) == LE32(p[24..28], 0);
  }

  /** arp_lookup: the first entry holding `pa`. */
  function Lookup(c: seq<Entry>, pa: u32): (r: Option<nat>)
    ensures r.Some? ==> r.value < |c| && c[r.value].pa == pa
    ensures r.Some? ==> forall j :: 0 <= j < r.value ==> c[j].pa != pa
    ensures r.None? ==> forall j :: 0 <= j < |c| ==> c[j].pa != pa
  {
    if c == [] then None
    else if c[0].pa == pa then Some(0)
    else match Lookup(c[1..], pa)
      case Some(i) => Some(i + 1)
      case None => None
  }

  /**
   * arp_add: the first unused entry (address 0) takes the pair; when there is none,
   * entries 1 to 15 move down one place, dropping the oldest, and the last slot is
   * reused. That slot keeps its interface, EtherType and pending packet, which now
   * also sit in slot 14.
   */
  function Added(c: seq<Entry>, ha: seq<byte>, pa: u32): (r: (seq<Entry>, nat))
    requires |c| == ARP_CACHE_SIZE
    ensures |r.0| == ARP_CACHE_SIZE && r.1 < ARP_CACHE_SIZE
    ensures r.0[r.1].ha == ha && r.0[r.1].pa == pa
  {
    match Lookup(c, 0)
    case Some(i) => (c[i := c[i].(ha := ha, pa := pa)], i)
    case None => (c[1..] + [c[15].(ha := ha, pa := pa)], 15)
  }

  /** After adding an address the cache did not hold, looking it up finds the new entry. */
  lemma AddedThenFound(c: seq<Entry>, ha: seq<byte>, pa: u32)
    requires |c| == ARP_CACHE_SIZE && Lookup(c, pa).None?
    ensures Lookup(Added(c, ha, pa).0, pa) == Some(Added(c, ha, pa).1)
  {
    var (d, i) := Added(c, ha, pa);
    forall j | 0 <= j < i
      ensures d[j].pa != pa
    {
      if Lookup(c, 0).None? {
        assert d[j] == c[j + 1];
      }
    }
    LookupFirst(d, pa, i);
  }

  /** When the cache is full, adding keeps entries 1 to 15 in order and drops entry 0. */
  lemma AddedEvictsOldest(c: seq<Entry>, ha: seq<byte>, pa: u32)
    requires |c| == ARP_CACHE_SIZE && forall j :: 0 <= j < |c| ==> c[j].pa != 0
    ensures Added(c, ha, pa).1 == 15 && Added(c, ha, pa).0[..15] == c[1..]
  {
  }

  /** Adding keeps entries consistent. */
  lemma AddedConsistent(c: seq<Entry>, ha: seq<byte>, pa: u32)
    requires |c| == ARP_CACHE_SIZE && |ha| == 6 && forall j :: 0 <= j < |c| ==> Consistent(c[j])
    ensures forall j :: 0 <= j < ARP_CACHE_SIZE ==> Consistent(Added(c, ha, pa).0[j])
  {
  }

  lemma {:induction false} LookupFirst(c: seq<Entry>, pa: u32, i: nat)
    requires i < |c| && c[i].pa == pa && forall j :: 0 <= j < i ==> c[j].pa != pa
    ensures Lookup(c, pa) == Some(i)
  {
    if i > 0 {
      LookupFirst(c[1..], pa, i - 1);
    }
  }

  /**
   * arp_request: the entry for `tpa`, found or added with a null MAC address, takes
   * the packet, its interface and EtherType; a packet it already held is freed; a
   * request is broadcast.
   */
  function Requested(c: seq<Entry>, intf: Interface, ethAddr: seq<byte>, ipAddr: u32,
                     tpa: u32, ethertype: u16, packet: Buf): (r: (seq<Entry>, seq<Effect>))
    requires |c| == ARP_CACHE_SIZE && |ethAddr| == 6
    ensures |r.0| == ARP_CACHE_SIZE
  {
    var (c1, i) := if Lookup(c, tpa).Some? then (c, Lookup(c, tpa).value) else Added(c, ETH_NULL, tpa);
    var freed := if c1[i].packet.Some? then [FreeBuf(c1[i].packet.value)] else [];
    (c1[i := c1[i].(intf := Some(intf), ethertype := ethertype, packet := Some(packet))],
     freed + [Transmit(intf, ETH_BROADCAST, Message(OP_REQUEST, ethAddr, ipAddr, ETH_NULL, tpa))])
  }

  /**
   * After arp_request the address is cached with the new packet pending; a previously
   * pending packet is freed exactly when there was one; the last effect is the request.
   */
  lemma RequestedPending(c: seq<Entry>, intf: Interface, ethAddr: seq<byte>, ipAddr: u32,
                         tpa: u32, ethertype: u16, packet: Buf)
    requires |c| == ARP_CACHE_SIZE && |ethAddr| == 6
    ensures var (d, effects) := Requested(c, intf, ethAddr, ipAddr, tpa, ethertype, packet);
      Lookup(d, tpa).Some? && d[Lookup(d, tpa).value].packet == Some(packet) &&
      d[Lookup(d, tpa).value].intf == Some(intf) &&
      (Lookup(c, tpa).Some? ==> (|effects| == 2 <==> c[Lookup(c, tpa).value].packet.Some?)) &&
      effects[|effects| - 1] == Transmit(intf, ETH_BROADCAST, Message(OP_REQUEST, ethAddr, ipAddr, ETH_NULL, tpa))
  {
    var (c1, i) := if Lookup(c, tpa).Some? then (c, Lookup(c, tpa).value) else Added(c, ETH_NULL, tpa);
    if Lookup(c, tpa).None? {
      AddedThenFound(c, ETH_NULL, tpa);
    }
    var d := Requested(c, intf, ethAddr, ipAddr, tpa, ethertype, packet).0;
    LookupFirst(d, tpa, i);
  }

  /**
   * The first half of arp_recv: a cached sender's entry takes the new MAC address and,
   * if it holds a pending packet, that packet is resent and the entry's pending
   * fields cleared.
   */
  function Refreshed(c: seq<Entry>, m: Parsed): (r: (seq<Entry>, seq<Effect>))
    requires |c| == ARP_CACHE_SIZE && |m.sha| == 6 && forall j :: 0 <= j < |c| ==> Consistent(c[j])
    ensures |r.0| == ARP_CACHE_SIZE && forall j :: 0 <= j < ARP_CACHE_SIZE ==> Consistent(r.0[j])
  {
    var found := Lookup(c, m.spa);
    if found.None? then (c, [])
    else
      var e := c[found.value].(ha := m.sha);
      assert Consistent(c[found.value]);
      if e.packet.Some? then
        (c[found.value := e.(intf := None, ethertype := 0, packet := None)],
         [Resend(e.intf.value, m.spa, e.ethertype, e.packet.value)])
      else (c[found.value := e], [])
  }

  /**
   * On a full cache the reused last slot still holds the pending packet that the shift
   * also copied into slot 14, so arp_request for a new address frees a packet that
   * slot 14 still holds.
   */
  lemma FullCacheRequestFreesShared(c: seq<Entry>, intf: Interface, ethAddr: seq<byte>, ipAddr: u32,
                                    tpa: u32, ethertype: u16, packet: Buf)
    requires |c| == ARP_CACHE_SIZE && |ethAddr| == 6 && forall j :: 0 <= j < |c| ==> c[j].pa != 0
    requires Lookup(c, tpa).None? && c[15].packet.Some?
    ensures var (d, effects) := Requested(c, intf, ethAddr, ipAddr, tpa, ethertype, packet);
      effects[0] == FreeBuf(c[15].packet.value) && d[14].packet == c[15].packet
  {
  }

  /**
   * arp_recv: a well-formed message first refreshes the sender's entry, if cached;
   * then, when the message targets this interface's address, an uncached sender is
   * added and a request is answered.
   */
  function Received(c: seq<Entry>, intf: Interface, ethAddr: seq<byte>, ipAddr: u32, p: seq<byte>): (r: (seq<Entry>, seq<Effect>))
    requires |c| == ARP_CACHE_SIZE && |ethAddr| == 6 && forall j :: 0 <= j < |c| ==> Consistent(c[j])
    ensures |r.0| == ARP_CACHE_SIZE
  {
    match Parse(p)
    case None => (c, [])
    case Some(m) =>
      var (c1, resent) := Refreshed(c, m);
      if m.tpa != ipAddr then (c1, resent)
      else
        var c2 := if Lookup(c, m.spa).None? then Added(c1, m.sha, m.spa).0 else c1;
        if m.op == OP_REQUEST
        then (c2, resent + [Transmit(intf, m.sha, Message(OP_REPLY, ethAddr, ipAddr, m.sha, m.spa))])
        else (c2, resent)
  }

  /** A malformed message changes nothing and sends nothing. */
  lemma ReceivedMalformed(c: seq<Entry>, intf: Interface, ethAddr: seq<byte>, ipAddr: u32, p: seq<byte>)
    requires |c| == ARP_CACHE_SIZE && |ethAddr| == 6 && forall j :: 0 <= j < |c| ==> Consistent(c[j])
    requires |p| < MESSAGE_LEN || BE16(p, 0) != HTYPE_ETH || BE16(p, 2) != ET_IPV4
    ensures Received(c, intf, ethAddr, ipAddr, p) == (c, [])
  {
  }

  /**
   * A message aimed at this interface leaves the sender cached with its MAC address,
   * no packet pending for it, and a reply sent exactly when it was a request.
   */
  lemma ReceivedLearnsSender(c: seq<Entry>, intf: Interface, ethAddr: seq<byte>, ipAddr: u32, p: seq<byte>)
    requires |c| == ARP_CACHE_SIZE && |ethAddr| == 6 && forall j :: 0 <= j < |c| ==> Consistent(c[j])
    requires Parse(p).Some? && Parse(p).value.tpa == ipAddr
    ensures var m := Parse(p).value;
      var (d, effects) := Received(c, intf, ethAddr, ipAddr, p);
      Lookup(d, m.spa).Some? && d[Lookup(d, m.spa).value].ha == m.sha &&
      (Lookup(c, m.spa).Some? ==> d[Lookup(d, m.spa).value].packet.None?) &&
      ((exists k :: 0 <= k < |effects| && effects[k].Transmit?) <==> m.op == OP_REQUEST)
  {
    var m := Parse(p).value;
    var found := Lookup(c, m.spa);
    var (d, effects) := Received(c, intf, ethAddr, ipAddr, p);
    if found.None? {
      AddedThenFound(c, m.sha, m.spa);
    } else {
      LookupFirst(d, m.spa, found.value);
    }
    if m.op == OP_REQUEST {
      assert effects[|effects| - 1].Transmit?;
    }
  }

  /** The pending packet of a cached sender is resent exactly once, to the sender's address. */
  lemma ReceivedResendsOnce(c: seq<Entry>, intf: Interface, ethAddr: seq<byte>, ipAddr: u32, p: seq<byte>)
    requires |c| == ARP_CACHE_SIZE && |ethAddr| == 6 && forall j :: 0 <= j < |c| ==> Consistent(c[j])
    requires Parse(p).Some? && Lookup(c, Parse(p).value.spa).Some?
    ensures var m := Parse(p).value;
      var e := c[Lookup(c, m.spa).value];
      var effects := Received(c, intf, ethAddr, ipAddr, p).1;
      (e.packet.Some? ==> effects[0] == Resend(e.intf.value, m.spa, e.ethertype, e.packet.value)) &&
      (forall k :: 1 <= k < |effects| ==> !effects[k].Resend?) &&
      (e.packet.None? ==> forall k :: 0 <= k < |effects| ==> !effects[k].Resend?)
  {
  }

  class ArpCache {
    const cache: array<Entry>

    ghost predicate Valid()
      reads this, cache
    {
      cache.Length == ARP_CACHE_SIZE && forall j :: 0 <= j < ARP_CACHE_SIZE ==> Consistent(cache[j])
    }

    constructor ()
      ensures Valid() && fresh(cache) && forall j :: 0 <= j < ARP_CACHE_SIZE ==> cache[j] == EMPTY
    {
      cache := new Entry[ARP_CACHE_SIZE](_ => EMPTY);
    }

    /** arp_init: every entry's MAC and IPv4 addresses are zeroed; nothing else changes. */
    method Init()
      requires Valid()
      modifies cache
      ensures Valid()
      ensures forall j :: 0 <= j < ARP_CACHE_SIZE ==> cache[j] == old(cache[j]).(ha := ETH_NULL, pa := 0)
    {
      var i := 0;
      while i < ARP_CACHE_SIZE
        invariant 0 <= i <= ARP_CACHE_SIZE
        invariant forall j :: 0 <= j < i ==> cache[j] == old(cache[j]).(ha := ETH_NULL, pa := 0)
        invariant forall j :: i <= j < ARP_CACHE_SIZE ==> cache[j] == old(cache[j])
      {
        cache[i] := cache[i].(ha := ETH_NULL, pa := 0);
        i := i + 1;
      }
    }

    /** arp_lookup. */
    method LookupEntry(pa: u32) returns (found: Option<nat>)
      requires Valid()
      ensures found == Lookup(cache[..], pa)
    {
      var i := 0;
      while i < ARP_CACHE_SIZE
        invariant 0 <= i <= ARP_CACHE_SIZE
        invariant forall j :: 0 <= j < i ==> cache[j].pa != pa
      {
        if cache[i].pa == pa {
          LookupFirst(cache[..], pa, i);
          return Some(i);
        }
        i := i + 1;
      }
      return None;
    }

    /** arp_lookup_eth_addr: the MAC address cached for `pa`, if any. */
    method LookupEthAddr(pa: u32) returns (ha: Option<seq<byte>>)
      requires Valid()
      ensures Lookup(cache[..], pa).None? ==> ha.None?
      ensures Lookup(cache[..], pa).Some? ==> ha == Some(cache[Lookup(cache[..], pa).value].ha)
    {
      var found := LookupEntry(pa);
      if found.Some? {
        return Some(cache[found.value].ha);
      }
      return None;
    }

    /** arp_add, with the shift of the full cache done in place. */
    method Add(ha: seq<byte>, pa: u32) returns (index: nat)
      requires Valid() && |ha| == 6
      modifies cache
      ensures Valid() && (cache[..], index) == Added(old(cache[..]), ha, pa)
    {
      AddedConsistent(cache[..], ha, pa);
      ghost var c := cache[..];
      var free := LookupEntry(0);
      if free.Some? {
        index := free.value;
        cache[index] := cache[index].(ha := ha, pa := pa);
        assert cache[..] == c[index := c[index].(ha := ha, pa := pa)];
      } else {
        Shift();
        index := ARP_CACHE_SIZE - 1;
        cache[index] := cache[index].(ha := ha, pa := pa);
        assert cache[..] == c[1..] + [c[15].(ha := ha, pa := pa)];
      }
    }

    /** The memcpy of arp_add: entries 1 to 15 move down one place; the last is left alone. */
    method Shift()
      requires Valid()
      modifies cache
      ensures Valid() && cache[..] == old(cache[1..]) + [old(cache[ARP_CACHE_SIZE - 1])]
    {
      var k := 0;
      while k < ARP_CACHE_SIZE - 1
        invariant 0 <= k <= ARP_CACHE_SIZE - 1
        invariant forall j :: 0 <= j < k ==> cache[j] == old(cache[j + 1])
        invariant forall j :: k <= j < ARP_CACHE_SIZE ==> cache[j] == old(cache[j])
      {
        cache[k] := cache[k + 1];
        k := k + 1;
      }
    }

    /** arp_request. */
    method Request(intf: Interface, tpa: u32, ethertype: u16, packet: Buf) returns (effects: seq<Effect>)
      requires Valid() && |intf.ethAddr| == 6
      modifies cache
      ensures Valid()
      ensures (cache[..], effects) == Requested(old(cache[..]), intf, intf.ethAddr, intf.ipAddr, tpa, ethertype, packet)
    {
      var found := LookupEntry(tpa);
      var i;
      if found.Some? {
        i := found.value;
      } else {
        i := Add(ETH_NULL, tpa);
      }
      effects := [];
      if cache[i].packet.Some? {
        effects := [FreeBuf(cache[i].packet.value)];
      }
      cache[i] := cache[i].(intf := Some(intf), ethertype := ethertype, packet := Some(packet));
      effects := effects + [Transmit(intf, ETH_BROADCAST, Message(OP_REQUEST, intf.ethAddr, intf.ipAddr, ETH_NULL, tpa))];
    }

    /** The first half of arp_recv; `merge` tells whether the sender was cached. */
    method Refresh(m: Parsed) returns (merge: bool, effects: seq<Effect>)
      requires Valid() && |m.sha| == 6
      modifies cache
      ensures Valid() && merge == Lookup(old(cache[..]), m.spa).Some?
      ensures (cache[..], effects) == Refreshed(old(cache[..]), m)
    {
      effects := [];
      merge := false;
      var found := LookupEntry(m.spa);
      ghost var c := cache[..];
      if found.Some? {
        var i := found.value;
        var e := cache[i].(ha := m.sha);
        cache[i] := e;
        merge := true;
        if e.packet.Some? {
          effects := [Resend(e.intf.value, m.spa, e.ethertype, e.packet.value)];
          cache[i] := e.(intf := None, ethertype := 0, packet := None);
          assert cache[..] == c[i := e.(intf := None, ethertype := 0, packet := None)];
        } else {
          assert cache[..] == c[i := e];
        }
      }
    }

    /** arp_recv. */
    method Recv(intf: Interface, p: seq<byte>) returns (effects: seq<Effect>)
      requires Valid() && |intf.ethAddr| == 6
      modifies cache
      ensures Valid()
      ensures (cache[..], effects) == Received(old(cache[..]), intf, intf.ethAddr, intf.ipAddr, p)
    {
      effects := [];
      if |p| < HEADER_LEN {
        return;
      }
      if BE16(p, 0) != HTYPE_ETH || BE16(p, 2) != ET_IPV4 || |p| < MESSAGE_LEN {
        return;
      }
      var op := BE16(p, 6);
      var sha := p[8..14];
      var spa := LE32(p, 14);
      var tpa := LE32(p, 24);
      assert Parse(p) == Some(Parsed(op, sha, spa, tpa));
      ghost var c := cache[..];
      var merge;
      merge, effects := Refresh(Parsed(op, sha, spa, tpa));
      ghost var c1 := cache[..];
      if tpa == intf.ipAddr {
        if !merge {
          var _ := Add(sha, spa);
          assert cache[..] == Added(c1, sha, spa).0;
        }
        if op == OP_REQUEST {
          effects := effects + [Transmit(intf, sha, Message(OP_REPLY, intf.ethAddr, intf.ipAddr, sha, spa))];
        }
      }
    }
  }
}
