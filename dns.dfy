/**
 * The DNS stub resolver of src/net/dns.c (RFC 1035, section 4.1): host names are
 * encoded as length-prefixed labels in a one-question query sent to `dns_server`;
 * answers are scanned for the first A record; a reply is matched by its identifier
 * to a pending entry, whose callback then runs once. The callback and its context are
 * opaque tokens here, and running the callback is returned to the caller.
 * The layout of dns_header_t (six 16-bit fields) follows section 4.1.1 of RFC 1035.
 */
module Dns {
  import opened CInt
  import opened Wrappers
  import opened FrameAllocator
  import opened NetBuf
  import opened Route
  import opened Port
  import Udp
  import Ipv4

  /** sizeof(dns_header_t). */
  const HEADER_LEN: nat := 12
  /** Hosts of this many characters or more are refused. */
  const MAX_HOST_LEN: nat := 256
  /** A count byte at or above this value starts a two-byte compression pointer. */
  const POINTER_MIN: byte := 64
  const TYPE_A: u16 := 1
  const CLASS_IN: u16 := 1
  /** The flags of a query: recursion desired. */
  const FLAGS_RD: u16 := 0x0100
  const DOT: byte := 0x2E
  const PORT_DNS: nat := 53

  /**
   * skip_host: the position just past the name at `i`, which ends at a zero byte or
   * after a compression pointer; None when a count byte lies past the packet.
   */
  function SkipHost(p: seq<byte>, i: nat): (r: Option<nat>)
    ensures r.Some? ==> i < r.value
    decreases |p| - i
  {
    if i >= |p| then None
    else if p[i] >= POINTER_MIN then Some(i + 2)
    else if p[i] > 0 then SkipHost(p, i + 1 + p[i])
    else Some(i + 1)
  }

  /** skip_host's loop. */
  method SkipName(p: seq<byte>, i: nat) returns (r: Option<nat>)
    ensures r == SkipHost(p, i)
  {
    var at := i;
    while true
      invariant i <= at && SkipHost(p, at) == SkipHost(p, i)
      decreases |p| - at
    {
      if at >= |p| {
        return None;
      }
      var count := p[at];
      if count >= POINTER_MIN {
        return Some(at + 2);
      } else if count > 0 {
        at := at + 1 + count;
      } else {
        return Some(at + 1);
      }
    }
  }

  /** The position after `n` questions from `i`: each a name, a type and a class. */
  function SkipQuestions(p: seq<byte>, i: nat, n: nat): (r: Option<nat>)
    ensures r.Some? ==> i <= r.value
    decreases n
  {
    if n == 0 then Some(i)
    else match SkipHost(p, i)
      case None => None
      case Some(j) => SkipQuestions(p, j + 4, n - 1)
  }

  /**
   * The first of `n` resource records from `i` with type A and four bytes of data:
   * the address in it. None if there is none, or the records run past the packet.
   */
  function FirstA(p: seq<byte>, i: nat, n: nat): Option<u32>
    decreases n
  {
    if n == 0 then None
    else match SkipHost(p, i)
      case None => None
      case Some(j) =>
        if j + 10 > |p| then None
        else if BE16(p, j) == TYPE_A && BE16(p, j + 8) == 4 then
          if j + 14 <= |p| then Some(LE32(p, j + 10)) else None
        else FirstA(p, j + 10 + BE16(p, j + 8), n - 1)
  }

  /** dns_get_ip4_a, reading nothing outside the packet. */
  function GetIp4A(p: seq<byte>): Option<u32>
  {
    if |p| < HEADER_LEN then None
    else match SkipQuestions(p, HEADER_LEN, BE16(p, 4))
      case None => None
      case Some(i) => FirstA(p, i, BE16(p, 6))
  }

  /**
   * The record whose fixed part starts at `j`: cut short, it ends the search; a four-byte
   * A record gives its address; any other is stepped over to the one after it.
   */
  lemma FirstAAt(p: seq<byte>, i: nat, n: nat, j: nat)
    requires n > 0 && SkipHost(p, i) == Some(j)
    ensures j + 10 > |p| ==> FirstA(p, i, n) == None
    ensures j + 10 <= |p| && BE16(p, j) == TYPE_A && BE16(p, j + 8) == 4 ==>
      FirstA(p, i, n) == if j + 14 <= |p| then Some(LE32(p, j + 10)) else None
    ensures j + 10 <= |p| && !(BE16(p, j) == TYPE_A && BE16(p, j + 8) == 4) ==>
      FirstA(p, i, n) == FirstA(p, j + 10 + BE16(p, j + 8), n - 1)
  {
  }

  /** An address FirstA finds is four bytes of the packet at or after `i`. */
  lemma {:induction false} FirstAInPacket(p: seq<byte>, i: nat, n: nat)
    ensures FirstA(p, i, n).Some? ==> exists j :: i <= j && j + 4 <= |p| && FirstA(p, i, n).value == LE32(p, j)
    decreases n
  {
    if n > 0 && SkipHost(p, i).Some? {
      var j := SkipHost(p, i).value;
      if j + 10 <= |p| && !(BE16(p, j) == TYPE_A && BE16(p, j + 8) == 4) {
        FirstAInPacket(p, j + 10 + BE16(p, j + 8), n - 1);
      }
    }
  }

  /**
   * The corrected dns_get_ip4_a reads its answer from inside the packet: an address it
   * returns is four bytes of the packet after the 12-byte header.
   */
  lemma AnswerInPacket(p: seq<byte>)
    ensures GetIp4A(p).Some? ==> exists j :: HEADER_LEN <= j && j + 4 <= |p| && GetIp4A(p).value == LE32(p, j)
  {
    if |p| >= HEADER_LEN && SkipQuestions(p, HEADER_LEN, BE16(p, 4)).Some? {
      FirstAInPacket(p, SkipQuestions(p, HEADER_LEN, BE16(p, 4)).value, BE16(p, 6));
    }
  }

  /** dns_get_ip4_a's loops: over the questions, then over the answers. */
  method FindAddress(p: seq<byte>) returns (addr: Option<u32>)
    ensures addr == GetIp4A(p)
  {
    if |p| < HEADER_LEN {
      return None;
    }
    var questions := BE16(p, 4);
    var answers := BE16(p, 6);
    var at: nat := HEADER_LEN;
    var k: nat := 0;
    while k < questions
      invariant k <= questions && SkipQuestions(p, at, questions - k) == SkipQuestions(p, HEADER_LEN, questions)
    {
      var next := SkipName(p, at);
      if next.None? {
        return None;
      }
      at := next.value + 4;
      k := k + 1;
    }
    k := 0;
    while k < answers
      invariant k <= answers && FirstA(p, at, answers - k) == GetIp4A(p)
    {
      var next := SkipName(p, at);
      if next.None? {
        return None;
      }
      var j := next.value;
      FirstAAt(p, at, answers - k, j);
      if j + 10 > |p| {
        return None;
      }
      var queryType := BE16(p, j);
      var dataLen := BE16(p, j + 8);
      if queryType == TYPE_A && dataLen == 4 {
        if j + 14 > |p| {
          return None;
        }
        return Some(LE32(p, j + 10));
      }
      at := j + 10 + dataLen;
      k := k + 1;
    }
    return None;
  }

  /**
   * dns_get_ip4_a as written: nothing bounds its reads by the packet's end, so it
   * scans the buffer's frame from `start` to the end of the page.
   */
  function GetIp4AAsWritten(frame: seq<byte>, start: nat): Option<u32>
    requires start <= |frame|
  {
    GetIp4A(frame[start..])
  }

  /**
   * A reply of a bare header announcing one answer, in a buffer that still holds an
   * A record from an earlier packet: as written, the stale record is taken as the
   * answer; reading only the packet finds none.
   */
  lemma StaleAnswerAsWritten()
    ensures var header: seq<byte> := [0, 7, 0x81, 0x80, 0, 0, 0, 1, 0, 0, 0, 0];
      var stale: seq<byte> := [0, 0, 1, 0, 1, 0, 0, 0, 60, 0, 4, 10, 0, 0, 1];
      GetIp4AAsWritten(header + stale, 0) == Some(0x0100000A) && GetIp4A(header) == None
  {
    var header: seq<byte> := [0, 7, 0x81, 0x80, 0, 0, 0, 1, 0, 0, 0, 0];
    var stale: seq<byte> := [0, 0, 1, 0, 1, 0, 0, 0, 60, 0, 4, 10, 0, 0, 1];
    var frame := header + stale;
    assert frame[0..] == frame;
    assert BE16(frame, 4) == 0 && BE16(frame, 6) == 1;
    assert SkipHost(frame, 12) == Some(13);
    assert BE16(frame, 13) == 1 && BE16(frame, 21) == 4;
    assert BE16(header, 4) == 0 && BE16(header, 6) == 1;
  }

  /** The number of characters of the label starting at `i`: up to the next dot or the end. */
  function LabelLen(host: seq<byte>, i: nat): (n: nat)
    requires i <= |host|
    ensures i + n <= |host|
    decreases |host| - i
  {
    if i == |host| || host[i] == DOT then 0 else 1 + LabelLen(host, i + 1)
  }

  /** A label ends at a dot or at the end of the host, with no dot before. */
  lemma {:induction false} LabelLenEnds(host: seq<byte>, i: nat)
    requires i <= |host|
    ensures var n := LabelLen(host, i);
      (i + n == |host| || host[i + n] == DOT) && forall j :: i <= j < i + n ==> host[j] != DOT
    decreases |host| - i
  {
    if i < |host| && host[i] != DOT {
      LabelLenEnds(host, i + 1);
    }
  }

  /** The converse: a run of non-dots ending at a dot or the end is the label. */
  lemma {:induction false} LabelLenRun(host: seq<byte>, i: nat, k: nat)
    requires i <= k <= |host| && (k == |host| || host[k] == DOT)
    requires forall j :: i <= j < k ==> host[j] != DOT
    ensures LabelLen(host, i) == k - i
    decreases k - i
  {
    if i < k {
      LabelLenRun(host, i + 1, k);
    }
  }

  /**
   * The encoded name: each dot, and the front, becomes the length of the label after
   * it; the characters are copied; a zero byte ends the name.
   */
  function NameBytes(host: seq<byte>): (n: seq<byte>)
    requires |host| < MAX_HOST_LEN
    ensures |n| == |host| + 2
  {
    seq(|host| + 2, k requires 0 <= k < |host| + 2 =>
      if k == 0 then LabelLen(host, 0) as byte
      else if k <= |host| then (if host[k - 1] == DOT then LabelLen(host, k) as byte else host[k - 1])
      else 0)
  }

  /** "a.bc" is encoded as 1 a 2 b c 0. */
  lemma NameBytesExample()
    ensures NameBytes([0x61, DOT, 0x62, 0x63]) == [1, 0x61, 2, 0x62, 0x63, 0]
  {
    var host: seq<byte> := [0x61, DOT, 0x62, 0x63];
    LabelLenRun(host, 0, 1);
    LabelLenRun(host, 2, 4);
  }

  /**
   * dns_query_host's label loop: each character is copied one place on; at a dot or
   * the terminating NUL, the length of the label just finished is written at its head,
   * and the character just copied becomes the next head.
   */
  method EncodeName(host: seq<byte>) returns (name: seq<byte>)
    requires |host| < MAX_HOST_LEN
    ensures name == NameBytes(host)
  {
    name := [0];
    var head: nat := 0;
    var k: nat := 0;
    while k <= |host|
      invariant k <= |host| + 1 && |name| == k + 1 && head <= k
      invariant head == 0 || head == |host| + 1 || (head <= |host| && host[head - 1] == DOT)
      invariant forall j :: head <= j < k && j < |host| ==> host[j] != DOT
      invariant forall j :: 0 <= j < |name| && j != head ==> name[j] == NameBytes(host)[j]
      invariant k == |host| + 1 ==> head == k && name[head] == 0
    {
      var c: byte := if k < |host| then host[k] else 0;
      if c == DOT || k == |host| {
        LabelLenRun(host, head, k);
        var len: byte := k - head;
        name := name[head := len];
        head := |name|;
      }
      name := name + [c];
      k := k + 1;
    }
  }

  /**
   * A name skip_host can walk: not empty, no empty label, no label of 64 characters
   * or more (whose length byte would read as a pointer), and no NUL.
   */
  predicate ValidHost(host: seq<byte>)
  {
    0 < |host| < MAX_HOST_LEN && host[0] != DOT && host[|host| - 1] != DOT &&
    (forall i :: 0 <= i < |host| - 1 && host[i] == DOT ==> host[i + 1] != DOT) &&
    (forall i :: 0 <= i < |host| ==> host[i] != 0) &&
    (forall i :: 0 <= i <= |host| ==> LabelLen(host, i) < 64)
  }

  /** skip_host, started at any label head of an encoded name, lands just past the name. */
  lemma {:induction false} SkipFromHead(host: seq<byte>, h: nat, rest: seq<byte>)
    requires ValidHost(host) && h < |host| && (h == 0 || host[h - 1] == DOT)
    ensures SkipHost(NameBytes(host) + rest, h) == Some(|host| + 2)
    decreases |host| - h
  {
    var p := NameBytes(host) + rest;
    var n := LabelLen(host, h);
    LabelLenEnds(host, h);
    assert host[h] != DOT;
    assert n > 0;
    assert p[h] == n;
    if h + n == |host| {
      assert p[h + 1 + n] == 0;
    } else {
      assert host[h + n] == DOT;
      SkipFromHead(host, h + n + 1, rest);
    }
  }

  /** skip_host steps over exactly the name dns_query_host encodes. */
  lemma SkipEncodedName(host: seq<byte>, rest: seq<byte>)
    requires ValidHost(host)
    ensures SkipHost(NameBytes(host) + rest, 0) == Some(|NameBytes(host)|)
  {
    SkipFromHead(host, 0, rest);
  }

  /** The query dns_query_host sends: header, the name, type A and class IN. */
  function Query(id: nat, host: seq<byte>): (q: seq<byte>)
    requires |host| < MAX_HOST_LEN
    ensures |q| == HEADER_LEN + |host| + 6
  {
    BytesBE16(Wrap16(id)) + BytesBE16(FLAGS_RD) + BytesBE16(1) + [0, 0, 0, 0, 0, 0] +
    NameBytes(host) + BytesBE16(TYPE_A) + BytesBE16(CLASS_IN)
  }

  /** An A record for `addr` whose name is a pointer to the question at offset 12. */
  function Answer(ttl: u32, addr: u32): (r: seq<byte>)
    ensures |r| == 16
  {
    [0xC0, HEADER_LEN as byte] + BytesBE16(TYPE_A) + BytesBE16(CLASS_IN) + BytesBE32(ttl) + BytesBE16(4) + BytesLE32(addr)
  }

  /**
   * A reply that echoes the question and answers it with one A record: the address
   * is what dns_get_ip4_a finds.
   */
  function Reply(id: nat, host: seq<byte>, ttl: u32, addr: u32): seq<byte>
    requires |host| < MAX_HOST_LEN
  {
    BytesBE16(Wrap16(id)) + BytesBE16(0x8180) + BytesBE16(1) + BytesBE16(1) + [0, 0, 0, 0] +
    (NameBytes(host) + BytesBE16(TYPE_A) + BytesBE16(CLASS_IN) + Answer(ttl, addr))
  }

  lemma ReplyAnswered(id: nat, host: seq<byte>, ttl: u32, addr: u32)
    requires ValidHost(host)
    ensures GetIp4A(Reply(id, host, ttl, addr)) == Some(addr)
  {
    var p := Reply(id, host, ttl, addr);
    var head := BytesBE16(Wrap16(id)) + BytesBE16(0x8180) + BytesBE16(1) + BytesBE16(1) + [0, 0, 0, 0];
    var body := NameBytes(host) + BytesBE16(TYPE_A) + BytesBE16(CLASS_IN) + Answer(ttl, addr);
    assert p == head + body;
    assert p[4..6] == BytesBE16(1) && p[6..8] == BytesBE16(1);
    BE16At(p, 4, 1);
    BE16At(p, 6, 1);
    var j := QuestionSkipped(head, host, ttl, addr);
    assert p[j..j + 16] == Answer(ttl, addr);
    AnswerRead(p, j, ttl, addr);
  }

  /** skip_host and the type and class step over the echoed question. */
  lemma QuestionSkipped(head: seq<byte>, host: seq<byte>, ttl: u32, addr: u32) returns (j: nat)
    requires ValidHost(host) && |head| == HEADER_LEN
    ensures var p := head + (NameBytes(host) + BytesBE16(TYPE_A) + BytesBE16(CLASS_IN) + Answer(ttl, addr));
      j + 16 == |p| && p[j..j + 16] == Answer(ttl, addr) && SkipQuestions(p, HEADER_LEN, 1) == Some(j)
  {
    var tail := BytesBE16(TYPE_A) + BytesBE16(CLASS_IN) + Answer(ttl, addr);
    var body := NameBytes(host) + BytesBE16(TYPE_A) + BytesBE16(CLASS_IN) + Answer(ttl, addr);
    assert body == NameBytes(host) + tail;
    SkipEncodedName(host, tail);
    SkipShifted(head, body, 0);
    j := HEADER_LEN + |NameBytes(host)| + 4;
    var p := head + body;
    assert SkipHost(p, HEADER_LEN) == Some(j - 4);
    assert p[j..] == Answer(ttl, addr);
  }

  /** The pointer-named A record at `j` is the first answer and gives its address. */
  lemma AnswerRead(p: seq<byte>, j: nat, ttl: u32, addr: u32)
    requires j + 16 <= |p| && p[j..j + 16] == Answer(ttl, addr)
    ensures FirstA(p, j, 1) == Some(addr)
  {
    var r := Answer(ttl, addr);
    assert p[j] == r[0] == 0xC0;
    var ttlLen := BytesBE32(ttl) + BytesBE16(4);
    assert r == [0xC0, HEADER_LEN as byte] + BytesBE16(TYPE_A) + BytesBE16(CLASS_IN) + ttlLen + BytesLE32(addr);
    assert p[j + 2] == r[2] == 0 && p[j + 3] == r[3] == 1;
    assert p[j + 10] == r[10] == 0 && p[j + 11] == r[11] == 4;
    assert p[j + 12..j + 16] == r[12..16] == BytesLE32(addr);
    LE32At(p, j + 12, addr);
  }

  /** skip_host does not look before its start: a prefix shifts its result. */
  lemma {:induction false} SkipShifted(head: seq<byte>, p: seq<byte>, i: nat)
    ensures SkipHost(head + p, |head| + i) ==
      (match SkipHost(p, i) case None => None case Some(j) => Some(|head| + j))
    decreases |p| - i
  {
    if i < |p| && p[i] < POINTER_MIN && p[i] > 0 {
      SkipShifted(head, p, i + 1 + p[i]);
    }
  }

  /** A pending query: its identifier, host, and the callback's context and function. */
  datatype Pending = Pending(id: u32, host: seq<byte>, context: nat, callback: nat)

  /** The first pending entry with identifier `id`. */
  function FirstWithId(entries: seq<Pending>, id: nat): (r: Option<nat>)
    ensures r.Some? ==> r.value < |entries| && entries[r.value].id == id
    ensures r.Some? ==> forall j :: 0 <= j < r.value ==> entries[j].id != id
    ensures r.None? ==> forall j :: 0 <= j < |entries| ==> entries[j].id != id
  {
    if |entries| == 0 then None
    else if entries[0].id == id then Some(0)
    else match FirstWithId(entries[1..], id)
      case None => None
      case Some(k) => Some(k + 1)
  }

  /** Removing the entry whose callback runs drops exactly that one entry. */
  lemma RemovedOnce(entries: seq<Pending>, k: nat)
    requires k < |entries|
    ensures multiset(entries[..k] + entries[k + 1..]) + multiset{entries[k]} == multiset(entries)
    ensures |entries[..k] + entries[k + 1..]| == |entries| - 1
  {
    assert entries == entries[..k] + [entries[k]] + entries[k + 1..];
  }

  /** What dns_query_host did. */
  datatype QueryOutcome = NoServer | HostTooLong(leaked: Buf) | Sent(buf: Buf, srcPort: u16, handoff: Option<Ipv4.Handoff>)

  /** dns_server and the pending list entry_list, head first. */
  class Resolver {
    var server: u32
    var entries: seq<Pending>

    constructor ()
      ensures server == 0 && entries == []
    {
      server := 0;
      entries := [];
    }

    /**
     * dns_recv: the first entry with the reply's identifier is unlinked and returned,
     * for its callback to run once; with none, nothing changes. The identifier is
     * compared as the 32-bit value the entry holds.
     */
    method Recv(p: seq<byte>) returns (delivered: Option<Pending>)
      modifies this`entries
      ensures |p| < 2 ==> delivered.None? && entries == old(entries)
      ensures |p| >= 2 ==>
        var k := FirstWithId(old(entries), BE16(p, 0));
        if k.None? then delivered.None? && entries == old(entries)
        else delivered == Some(old(entries)[k.value]) && entries == old(entries)[..k.value] + old(entries)[k.value + 1..]
    {
      if |p| < 2 {
        return None;
      }
      var id := BE16(p, 0);
      var k := 0;
      while k < |entries|
        invariant k <= |entries| && forall j :: 0 <= j < k ==> entries[j].id != id
      {
        if entries[k].id == id {
          delivered := Some(entries[k]);
          entries := entries[..k] + entries[k + 1..];
          return;
        }
        k := k + 1;
      }
      delivered := None;
    }

    /**
     * dns_query_host: nothing without a server; a host of 256 characters or more is
     * refused after the buffer was allocated, which is never released; otherwise the
     * query goes to the server's port 53 from a new ephemeral port, and an entry is
     * pushed at the head of the list when a callback is given.
     */
    method QueryHost(host: seq<byte>, id: u32, context: nat, callback: Option<nat>,
                     pool: Pool, pfa: Allocator, ports: PortCounter, table: RouteTable) returns (outcome: QueryOutcome)
      requires pool.Valid() && pfa.Valid()
      modifies this`entries, pool, pfa, pfa.buffer, ports, pool.Reused()
      ensures pool.Valid() && pfa.Valid()
      ensures old(server) == 0 ==> outcome == NoServer && entries == old(entries) && pool.live == old(pool.live)
      ensures old(server) != 0 && |host| >= MAX_HOST_LEN ==>
        outcome.HostTooLong? && outcome.leaked !in old(pool.live) && pool.live == old(pool.live) + {outcome.leaked} &&
        entries == old(entries)
      ensures old(server) != 0 && |host| < MAX_HOST_LEN ==>
        outcome.Sent? && outcome.buf !in old(pool.live) && pool.live == old(pool.live) + {outcome.buf} &&
        outcome.srcPort == Issued(old(ports.nextPort)) && ports.nextPort == Advanced(old(ports.nextPort)) &&
        entries == (if callback.Some? then [Pending(id, host, context, callback.value)] else []) + old(entries) &&
        outcome.buf.Valid() && outcome.handoff == Ipv4.Hop(table.routes, old(server)) &&
        outcome.buf.Payload() ==
          Ipv4.Outbound(outcome.handoff, old(server), Ipv4.PROTOCOL_UDP, Udp.Segment(outcome.srcPort, PORT_DNS, Query(id, host)))
    {
      if server == 0 {
        return NoServer;
      }
      assert this !in pool.Reused() && ports !in pool.Reused();
      if |host| >= MAX_HOST_LEN {
        var leaked := pool.Alloc(pfa);
        return HostTooLong(leaked);
      }
      var buf, srcPort, handoff := Register(host, id, context, callback, pool, pfa, ports, table);
      outcome := Sent(buf, srcPort, handoff);
    }

    /** For a host that fits: a port is taken, the entry pushed, and the query sent. */
    method Register(host: seq<byte>, id: u32, context: nat, callback: Option<nat>,
                    pool: Pool, pfa: Allocator, ports: PortCounter, table: RouteTable)
      returns (buf: Buf, srcPort: u16, handoff: Option<Ipv4.Handoff>)
      requires pool.Valid() && pfa.Valid() && |host| < MAX_HOST_LEN
      modifies this`entries, pool, pfa, pfa.buffer, ports, pool.Reused()
      ensures pool.Valid() && pfa.Valid()
      ensures buf !in old(pool.live) && pool.live == old(pool.live) + {buf} && buf.Valid()
      ensures srcPort == Issued(old(ports.nextPort)) && ports.nextPort == Advanced(old(ports.nextPort))
      ensures entries == (if callback.Some? then [Pending(id, host, context, callback.value)] else []) + old(entries)
      ensures handoff == Ipv4.Hop(table.routes, server)
      ensures buf.Payload() == Ipv4.Outbound(handoff, server, Ipv4.PROTOCOL_UDP, Udp.Segment(srcPort, PORT_DNS, Query(id, host)))
    {
      ghost var reused := pool.Reused();
      if callback.Some? {
        entries := [Pending(id, host, context, callback.value)] + entries;
      }
      srcPort := ports.Next();
      assert pool.Reused() == reused && this !in reused && ports !in reused;
      buf, handoff := SendQuery(server, host, id, srcPort, pool, pfa, table);
    }
  }

  /**
   * The query for `host` in a buffer from net_alloc_buf, sent by udp_send to port 53
   * of `server` from `srcPort`.
   */
  method SendQuery(server: u32, host: seq<byte>, id: u32, srcPort: u16, pool: Pool, pfa: Allocator, table: RouteTable)
    returns (buf: Buf, handoff: Option<Ipv4.Handoff>)
    requires pool.Valid() && pfa.Valid() && |host| < MAX_HOST_LEN
    modifies pool, pfa, pfa.buffer, pool.Reused()
    ensures pool.Valid() && pfa.Valid() && buf.Valid()
    ensures buf !in old(pool.live) && pool.live == old(pool.live) + {buf} && pool.allocCount == old(pool.allocCount) + 1
    ensures handoff == Ipv4.Hop(table.routes, server)
    ensures buf.Payload() == Ipv4.Outbound(handoff, server, Ipv4.PROTOCOL_UDP, Udp.Segment(srcPort, PORT_DNS, Query(id, host)))
  {
    buf := NewQuery(host, id, pool, pfa);
    handoff := Udp.Send(server, PORT_DNS, srcPort, buf, table);
  }

  /** A buffer from net_alloc_buf holding the query. */
  method NewQuery(host: seq<byte>, id: u32, pool: Pool, pfa: Allocator) returns (buf: Buf)
    requires pool.Valid() && pfa.Valid() && |host| < MAX_HOST_LEN
    modifies pool, pfa, pfa.buffer, pool.Reused()
    ensures pool.Valid() && pfa.Valid() && buf.Valid() && buf.start == NET_BUF_START
    ensures buf !in old(pool.live) && pool.live == old(pool.live) + {buf} && pool.allocCount == old(pool.allocCount) + 1
    ensures (fresh(buf) && fresh(buf.data)) || (old(pool.freeList) != [] && buf == old(pool.freeList[0]))
    ensures buf.Payload() == Query(id, host)
  {
    var query := BuildQuery(host, id);
    buf := pool.Alloc(pfa);
    buf.Append(query);
  }

  /** The query's bytes, the name encoded by the label loop. */
  method BuildQuery(host: seq<byte>, id: u32) returns (query: seq<byte>)
    requires |host| < MAX_HOST_LEN
    ensures query == Query(id, host)
  {
    var name := EncodeName(host);
    query := BytesBE16(Wrap16(id)) + BytesBE16(FLAGS_RD) + BytesBE16(1) + [0, 0, 0, 0, 0, 0] +
      name + BytesBE16(TYPE_A) + BytesBE16(CLASS_IN);
  }
}
