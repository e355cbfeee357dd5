/**
 * TCP of src/net/tcp.c (RFC 793, section 3.9 "Event Processing"): segments on the
 * wire, the option parser, the out-of-order resequencing list, the per-connection
 * state machine and the lists of live and free connections.
 *
 * Sequence numbers are 32-bit and compared the way the SEQ_CMP macro does, through
 * the signed value of their wrapped difference. The callbacks a connection holds
 * (on_connect, on_error, on_state, on_data) and the segments it hands to IPv4 are
 * recorded, in order, as the connection's `events`.
 */
module Tcp {
  import opened CInt
  import opened Wrappers
  import opened Checksum
  import opened Intf
  import opened Route
  import FrameAllocator
  import NetBuf

  const WINDOW_SIZE: u32 := 8192
  const MSL: nat := 120000
  /** The MSS the kernel announces in its SYN. */
  const OWN_MSS: u16 := 1460

  const FIN: byte := 0x01
  const SYN: byte := 0x02
  const RST: byte := 0x04
  const PSH: byte := 0x08
  const ACK: byte := 0x10
  const URG: byte := 0x20

  const OPT_END: byte := 0
  const OPT_NOP: byte := 1
  const OPT_MSS: byte := 2

  const PROTOCOL_TCP: byte := 6
  const HEADER_LEN: nat := 20
  /** The pseudo header the checksum covers ahead of the segment. */
  const PSEUDO_LEN: nat := 12
  const CHECKSUM_AT: nat := 16
  /** The most data one buffer holds after a SYN header with its option. */
  const MAX_DATA: nat := FrameAllocator.PAGE_SIZE - NetBuf.NET_BUF_START - HEADER_LEN - 4

  /** Error codes passed to on_error. */
  const CONN_RESET: nat := 1
  const CONN_REFUSED: nat := 2
  const CONN_CLOSING: nat := 3

  /** `flags & bit` for one of the single-bit flags above. */
  predicate Has(flags: byte, bit: byte)
    requires bit in {FIN, SYN, RST, PSH, ACK, URG}
  {
    (flags / bit) % 2 == 1
  }

  // ---- Sequence numbers --------------------------------------------------------------

  /** SEQ_CMP(x, y, op) compares this value with 0. */
  function SeqCmp(x: u32, y: u32): int
  {
    Signed32(Wrap32(x - y))
  }

  predicate SeqLt(x: u32, y: u32) { SeqCmp(x, y) < 0 }
  predicate SeqLe(x: u32, y: u32) { SeqCmp(x, y) <= 0 }

  /** `x + n` in sequence space. */
  function SeqAdd(x: u32, n: int): u32
  {
    Wrap32(x + n)
  }

  /** How far `x` lies ahead of `base`, going forward around the sequence space. */
  function Offset(base: u32, x: u32): u32
  {
    Wrap32(x - base)
  }

  /**
   * Between numbers less than half the space ahead of a common base, SEQ_CMP orders
   * them as their distances from the base (RFC 793, section 3.3).
   */
  lemma SeqCmpOffsets(base: u32, x: u32, y: u32)
    requires Offset(base, x) < 0x8000_0000 && Offset(base, y) < 0x8000_0000
    ensures SeqCmp(x, y) == Offset(base, x) - Offset(base, y)
  {
    var a: int := Offset(base, x);
    var b: int := Offset(base, y);
    var k1 := (x - base) / B32;
    var k2 := (y - base) / B32;
    assert x - base == a + k1 * B32;
    assert y - base == b + k2 * B32;
    assert x - y == (a - b) + (k1 - k2) * B32;
    WrapMultiple(a - b, k1 - k2);
    WrapNear(a - b);
  }

  /** Moving a number forward by `n` moves its distance from the base by `n`. */
  lemma OffsetAdd(base: u32, x: u32, n: int)
    requires 0 <= Offset(base, x) + n < B32
    ensures Offset(base, SeqAdd(x, n)) == Offset(base, x) + n
  {
    var a: int := Offset(base, x);
    var k := (x - base) / B32;
    assert x - base == a + k * B32;
    assert (x + n) % B32 - base == (a + n) - ((x + n) / B32 - k) * B32;
    WrapMultiple(a + n, -((x + n) / B32 - k));
  }

  // ---- Segments on the wire ----------------------------------------------------------

  /** The fixed header, in host order, as tcp_swap leaves it. */
  datatype Header = Header(
    srcPort: u16, dstPort: u16, seqNo: u32, ack: u32, off: byte, flags: byte,
    window: u16, checksum: u16, urgent: u16)

  /** The 20 header bytes in network order. */
  function HeaderBytes(h: Header): (b: seq<byte>)
    ensures |b| == HEADER_LEN
  {
    BytesBE16(h.srcPort) + BytesBE16(h.dstPort) + BytesBE32(h.seqNo) + BytesBE32(h.ack) +
    [h.off, h.flags] + BytesBE16(h.window) + BytesBE16(h.checksum) + BytesBE16(h.urgent)
  }

  /** The fixed header read from the front of a segment, as tcp_swap converts it. */
  function ParseHeader(p: seq<byte>): Header
    requires |p| >= HEADER_LEN
  {
    Header(BE16(p, 0), BE16(p, 2), BE32(p, 4), BE32(p, 8), p[12], p[13], BE16(p, 14), BE16(p, 16), BE16(p, 18))
  }

  /** The header length tcp_recv takes from the offset byte: `off >> 2`. */
  function HeaderLen(h: Header): nat
  {
    h.off / 4
  }

  /** Header bytes read back as the header they encode. */
  lemma HeaderRoundTrip(h: Header, rest: seq<byte>)
    ensures ParseHeader(HeaderBytes(h) + rest) == h
  {
    var p := HeaderBytes(h) + rest;
    BE16At(p, 0, h.srcPort);
    BE16At(p, 2, h.dstPort);
    BE32At(p, 4, h.seqNo);
    BE32At(p, 8, h.ack);
    BE16At(p, 14, h.window);
    BE16At(p, 16, h.checksum);
    BE16At(p, 18, h.urgent);
  }

  /** The pseudo header: source and destination as stored, zero, protocol, length. */
  function Pseudo(src: u32, dst: u32, protocol: byte, len: u16): (b: seq<byte>)
    ensures |b| == PSEUDO_LEN
  {
    BytesLE32(src) + BytesLE32(dst) + [0, protocol] + BytesBE16(len)
  }

  /** The option tcp_send_packet writes into a SYN: MSS 1460. */
  function SynOptions(flags: byte): (b: seq<byte>)
  {
    if Has(flags, SYN) then [OPT_MSS, 4] + BytesBE16(OWN_MSS) else []
  }

  /** The zero bytes of tcp_send_packet's padding loop, up to a multiple of four. */
  function Padding(len: nat): (b: seq<byte>)
    ensures (len + |b|) % 4 == 0 && |b| < 4
  {
    seq((4 - len % 4) % 4, _ => 0)
  }

  /** What tcp_send_packet writes before it computes the checksum. */
  function Unsealed(srcPort: u16, dstPort: u16, seqNo: u32, ack: u32, flags: byte, data: seq<byte>): (u: seq<byte>)
  {
    var options := SynOptions(flags);
    var len := HEADER_LEN + |options|;
    var pad := Padding(len);
    HeaderBytes(Header(srcPort, dstPort, seqNo, ack, Wrap8((len + |pad|) * 4), flags, WINDOW_SIZE as u16, 0, 0)) +
    options + pad + data
  }

  /** The segment tcp_send_packet hands to IPv4: the checksum over pseudo header and segment is patched in. */
  function Wire(src: u32, dst: u32, srcPort: u16, dstPort: u16, seqNo: u32, ack: u32, flags: byte, data: seq<byte>): seq<byte>
    requires |data| <= MAX_DATA
  {
    var u := Unsealed(srcPort, dstPort, seqNo, ack, flags, data);
    var c := ChecksumOf(Pseudo(src, dst, PROTOCOL_TCP, |u|) + u);
    Patched(u, CHECKSUM_AT, Hi(c), Lo(c))
  }

  /** The options are whole words, so the data offset covers exactly the header and its options. */
  lemma UnsealedLayout(srcPort: u16, dstPort: u16, seqNo: u32, ack: u32, flags: byte, data: seq<byte>)
    ensures var u := Unsealed(srcPort, dstPort, seqNo, ack, flags, data);
      var hl := HEADER_LEN + |SynOptions(flags)|;
      |u| == hl + |data| && hl % 4 == 0 && HeaderLen(ParseHeader(u)) == hl &&
      u[CHECKSUM_AT] == 0 && u[CHECKSUM_AT + 1] == 0 &&
      u[HEADER_LEN..hl] == SynOptions(flags) && u[hl..] == data
  {
    var options := SynOptions(flags);
    var hl := HEADER_LEN + |options|;
    assert |Padding(hl)| == 0;
    var h := Header(srcPort, dstPort, seqNo, ack, Wrap8(hl * 4), flags, WINDOW_SIZE as u16, 0, 0);
    var u := Unsealed(srcPort, dstPort, seqNo, ack, flags, data);
    assert u == HeaderBytes(h) + (options + Padding(hl) + data);
    HeaderRoundTrip(h, options + Padding(hl) + data);
  }

  /**
   * A segment the kernel sends reads back with the header fields it was given, the
   * data offset of its header and options, and the options and data after it.
   */
  lemma WireFields(src: u32, dst: u32, srcPort: u16, dstPort: u16, seqNo: u32, ack: u32, flags: byte, data: seq<byte>)
    requires |data| <= MAX_DATA
    ensures var w := Wire(src, dst, srcPort, dstPort, seqNo, ack, flags, data);
      var h := ParseHeader(w);
      var hl := HEADER_LEN + |SynOptions(flags)|;
      |w| == hl + |data| &&
      h.srcPort == srcPort && h.dstPort == dstPort && h.seqNo == seqNo && h.ack == ack &&
      h.flags == flags && h.window == WINDOW_SIZE && HeaderLen(h) == hl &&
      w[HEADER_LEN..hl] == SynOptions(flags) && w[hl..] == data
  {
    var u := Unsealed(srcPort, dstPort, seqNo, ack, flags, data);
    UnsealedLayout(srcPort, dstPort, seqNo, ack, flags, data);
    var c := ChecksumOf(Pseudo(src, dst, PROTOCOL_TCP, |u|) + u);
    PatchedKeepsHeader(u, Hi(c), Lo(c));
  }

  /** A segment the kernel sends checks to 0 against its pseudo header (RFC 793, section 3.1). */
  lemma WireChecks(src: u32, dst: u32, srcPort: u16, dstPort: u16, seqNo: u32, ack: u32, flags: byte, data: seq<byte>)
    requires |data| <= MAX_DATA
    ensures var w := Wire(src, dst, srcPort, dstPort, seqNo, ack, flags, data);
      ChecksumOf(Pseudo(src, dst, PROTOCOL_TCP, |w|) + w) == 0
  {
    var u := Unsealed(srcPort, dstPort, seqNo, ack, flags, data);
    UnsealedLayout(srcPort, dstPort, seqNo, ack, flags, data);
    SealedChecks(Pseudo(src, dst, PROTOCOL_TCP, |u|), u);
  }

  /** A segment whose checksum field is zero, sealed behind its pseudo header, checks to 0. */
  lemma SealedChecks(ps: seq<byte>, u: seq<byte>)
    requires |ps| == PSEUDO_LEN && CHECKSUM_AT + 2 <= |u| && |ps| + |u| <= 0x1_0000
    requires u[CHECKSUM_AT] == 0 && u[CHECKSUM_AT + 1] == 0
    ensures var c := ChecksumOf(ps + u); ChecksumOf(ps + Patched(u, CHECKSUM_AT, Hi(c), Lo(c))) == 0
  {
    var d := ps + u;
    var c := ChecksumOf(d);
    PatchedAfter(ps, u, CHECKSUM_AT, Hi(c), Lo(c));
    SelfCheck(d, PSEUDO_LEN + CHECKSUM_AT);
  }

  /** Patching the checksum leaves the other header fields and everything after the header alone. */
  lemma PatchedKeepsHeader(u: seq<byte>, a: byte, b: byte)
    requires |u| >= HEADER_LEN
    ensures var w := Patched(u, CHECKSUM_AT, a, b);
      ParseHeader(w) == ParseHeader(u).(checksum := a * B8 + b) && w[HEADER_LEN..] == u[HEADER_LEN..]
  {
    var w := Patched(u, CHECKSUM_AT, a, b);
    assert forall i :: 0 <= i < |u| && i != CHECKSUM_AT && i != CHECKSUM_AT + 1 ==> w[i] == u[i];
  }

  /** A field patched behind a prefix is the same field patched in the whole. */
  lemma PatchedAfter(prefix: seq<byte>, u: seq<byte>, k: nat, a: byte, b: byte)
    requires k + 2 <= |u|
    ensures prefix + Patched(u, k, a, b) == Patched(prefix + u, |prefix| + k, a, b)
  {
    assert (prefix + u)[..|prefix| + k] == prefix + u[..k];
    assert (prefix + u)[|prefix| + k + 2..] == u[k + 2..];
  }

  // ---- tcp_parse_options ---------------------------------------------------------------

  /** The byte at `i`, or 0 past the segment. */
  function ByteAt(p: seq<byte>, i: nat): byte
  {
    if i < |p| then p[i] else 0
  }

  /**
   * The option loop from `i` up to `end`: NOP is skipped, END stops it, and any other
   * option needs a length of at least 2 that ends by `end`; an MSS option records its
   * value. None is the loop's `return 0`.
   */
  function WalkOptions(p: seq<byte>, i: nat, end: nat, mss: u16): Option<u16>
    requires end <= |p|
    decreases end - i
  {
    if i >= end then Some(mss)
    else if p[i] == OPT_NOP then WalkOptions(p, i + 1, end, mss)
    else if p[i] == OPT_END then Some(mss)
    else
      var len := ByteAt(p, i + 1);
      if len < 2 || i + len > end then None
      else WalkOptions(p, i + len, end, if p[i] == OPT_MSS then BE16([ByteAt(p, i + 2), ByteAt(p, i + 3)], 0) else mss)
  }

  /** tcp_parse_options over the options from `start` to `end`, the MSS cleared first. */
  method ParseOptions(p: seq<byte>, start: nat, end: nat) returns (r: Option<u16>)
    requires end <= |p|
    ensures r == WalkOptions(p, start, end, 0)
  {
    var mss: u16 := 0;
    var i := start;
    while i < end
      invariant WalkOptions(p, i, end, mss) == WalkOptions(p, start, end, 0)
      decreases end - i
    {
      var kind := p[i];
      i := i + 1;
      if kind == OPT_NOP {
        continue;
      } else if kind == OPT_END {
        break;
      }
      var len := ByteAt(p, i);
      i := i + 1;
      if len < 2 {
        return None;
      }
      var next := i + len - 2;
      if next > end {
        return None;
      }
      if kind == OPT_MSS {
        mss := BE16([ByteAt(p, i), ByteAt(p, i + 1)], 0);
      }
      i := next;
    }
    return Some(mss);
  }

  /**
   * An MSS option after any number of NOPs is read back with its value, and the walk
   * goes on right after it.
   */
  lemma {:induction false} MssReadBack(nops: nat, mss: u16, rest: seq<byte>, end: nat, old_mss: u16)
    requires nops + 4 <= end <= nops + 4 + |rest|
    ensures var p := seq(nops, _ => OPT_NOP) + [OPT_MSS, 4] + BytesBE16(mss) + rest;
      WalkOptions(p, 0, end, old_mss) == WalkOptions(p, nops + 4, end, mss)
  {
    var p := seq(nops, _ => OPT_NOP) + [OPT_MSS, 4] + BytesBE16(mss) + rest;
    var i := 0;
    while i < nops
      invariant i <= nops && WalkOptions(p, 0, end, old_mss) == WalkOptions(p, i, end, old_mss)
    {
      assert p[i] == OPT_NOP;
      i := i + 1;
    }
    assert p[nops] == OPT_MSS && p[nops + 1] == 4;
    assert [ByteAt(p, nops + 2), ByteAt(p, nops + 3)] == BytesBE16(mss);
    BE16At(BytesBE16(mss), 0, mss);
  }

  /** The option of the kernel's own SYN reads back as MSS 1460. */
  lemma SynOptionsParse(flags: byte)
    requires Has(flags, SYN)
    ensures WalkOptions(SynOptions(flags), 0, 4, 0) == Some(OWN_MSS)
  {
    MssReadBack(0, OWN_MSS, [], 4, 0);
    assert seq(0, _ => OPT_NOP) + [OPT_MSS, 4] + BytesBE16(OWN_MSS) + [] == SynOptions(flags);
  }
}
