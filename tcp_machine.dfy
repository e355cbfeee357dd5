/**
 * The connection state machine of src/net/tcp.c (RFC 793, section 3.9) as functions
 * on the fields of one connection: each handler's new fields, what it did in order
 * (segments handed to IPv4, callbacks, buffers freed) and how often it put the
 * connection on the free list.
 */
module TcpMachine {
  import opened CInt
  import opened Wrappers
  import opened Checksum
  import opened Tcp
  import opened TcpResequence
  import opened Route
  import Intf

  datatype State =
    | Closed | Listen | SynSent | SynReceived | Established | FinWait1 | FinWait2
    | CloseWait | Closing | LastAck | TimeWait

  datatype Snd = Snd(una: u32, nxt: u32, wnd: u32, urp: u32, wl1: u32, wl2: u32, iss: u32)
  datatype Rcv = Rcv(nxt: u32, wnd: u32, urp: u32, irs: u32)

  /** The fields of a tcp_conn_t, without its list links and callbacks. */
  datatype Tcb = Tcb(
    state: State, intf: Intf.Interface?, localAddr: u32, nextAddr: u32, remoteAddr: u32,
    localPort: u16, remotePort: u16, snd: Snd, rcv: Rcv, resequence: seq<Segment>, mslWait: u32)

  /**
   * A segment tcp_send_packet builds: pseudo-header addresses, ports, sequence and
   * acknowledgement numbers, flags and data. Its bytes on the wire are `Bytes`.
   */
  datatype Packet = Packet(
    src: u32, dst: u32, srcPort: u16, dstPort: u16, seqNo: u32, ack: u32, flags: byte, data: seq<byte>)

  function Bytes(pk: Packet): seq<byte>
    requires |pk.data| <= MAX_DATA
  {
    Wire(pk.src, pk.dst, pk.srcPort, pk.dstPort, pk.seqNo, pk.ack, pk.flags, pk.data)
  }

  /** What a handler does besides updating the connection, in the order it does it. */
  datatype Event =
    | Transmit(intf: Intf.Interface?, next: u32, packet: Packet)  // ipv4_intf_send to packet.dst via next
    | StateChanged(from: State, to: State)  // on_state
    | Connected  // on_connect
    | Error(code: nat)  // on_error
    | Delivered(data: seq<byte>)  // on_data
    | Released(buf: Segment)  // net_free_buf of a resequenced segment

  /** The effect of a handler: the new fields, its events, and how many times it freed the connection. */
  datatype Out = Out(tcb: Tcb, events: seq<Event>, frees: nat)

  /** One handler after another. */
  function Then(first: Out, second: Out): Out
  {
    Out(second.tcb, first.events + second.events, first.frees + second.frees)
  }

  function Nothing(t: Tcb): Out { Out(t, [], 0) }

  /** 2 * TCP_MSL ticks from `now`, as msl_wait holds it. */
  function WaitUntil(now: u32): u32 { SeqAdd(now, 2 * MSL) }

  // ---- Helpers of tcp.c ----------------------------------------------------------------

  /** tcp_set_state. */
  function SetState(t: Tcb, s: State): Out
  {
    Out(t.(state := s), [StateChanged(t.state, s)], 0)
  }

  /** tcp_set_state, and the TIME_WAIT timer started when the new state is TIME_WAIT. */
  function Enter(t: Tcb, s: State, now: u32): Out
  {
    var o := SetState(t, s);
    if s == TimeWait then Out(o.tcb.(mslWait := WaitUntil(now)), o.events, 0) else o
  }

  /** The TIME_WAIT timer restarted. */
  function Restart(t: Tcb, now: u32): Out
  {
    Out(t.(mslWait := WaitUntil(now)), [], 0)
  }

  /** The sequence space a segment with these flags and data takes up. */
  function SpaceOf(flags: byte, len: nat): nat
  {
    len + if Has(flags, SYN) || Has(flags, FIN) then 1 else 0
  }

  /** The segment tcp_send_packet builds: the ack field is rcv.nxt only when ACK is set. */
  function Outgoing(t: Tcb, seqNo: u32, flags: byte, data: seq<byte>): Packet
  {
    Packet(t.localAddr, t.remoteAddr, t.localPort, t.remotePort, seqNo,
      if Has(flags, ACK) then t.rcv.nxt else 0, flags, data)
  }

  /** tcp_send_packet: hand the segment to IPv4 and move snd.nxt past it. */
  function Send(t: Tcb, seqNo: u32, flags: byte, data: seq<byte>): Out
    requires |data| <= MAX_DATA
  {
    Out(t.(snd := t.snd.(nxt := SeqAdd(t.snd.nxt, SpaceOf(flags, |data|)))),
      [Transmit(t.intf, t.nextAddr, Outgoing(t, seqNo, flags, data))], 0)
  }

  /** An empty segment with these flags from snd.nxt. */
  function Control(t: Tcb, flags: byte): Out
  {
    Send(t, t.snd.nxt, flags, [])
  }

  /** net_free_buf of each segment, in list order. */
  function Releases(list: seq<Segment>): (r: seq<Event>)
    ensures |r| == |list|
  {
    if list == [] then [] else Releases(list[..|list| - 1]) + [Released(list[|list| - 1])]
  }

  /**
   * tcp_free: a connection not yet closed moves to CLOSED and frees its resequenced
   * segments (the list itself is left as it was); either way it goes on the free list.
   */
  function Free(t: Tcb): Out
  {
    if t.state != Closed then Out(t.(state := Closed), [StateChanged(t.state, Closed)] + Releases(t.resequence), 1)
    else Out(t, [], 1)
  }

  /** tcp_error: on_error, then tcp_free. */
  function Fail(t: Tcb, code: nat): Out
  {
    Then(Out(t, [Error(code)], 0), Free(t))
  }

  // ---- Handlers --------------------------------------------------------------------------

  /** SYN_SENT accepts an ACK only for something sent: iss < ack <= snd.nxt. */
  predicate AckAcceptable(t: Tcb, ack: u32)
  {
    !SeqLe(ack, t.snd.iss) && SeqLe(ack, t.snd.nxt)
  }

  /** tcp_recv_syn_sent. */
  function SynSentStep(t: Tcb, h: Header): Out
  {
    if Has(h.flags, ACK) && !AckAcceptable(t, h.ack) then
      if !Has(h.flags, RST) then Send(t, h.ack, RST, []) else Nothing(t)
    else if Has(h.flags, RST) then
      if Has(h.flags, ACK) then Fail(t, CONN_RESET) else Nothing(t)
    else if Has(h.flags, SYN) then
      var t1 := t.(rcv := t.rcv.(irs := h.seqNo, nxt := SeqAdd(h.seqNo, 1)));
      if Has(h.flags, ACK) then Open(t1.(snd := t1.snd.(una := h.ack, wnd := h.window, wl1 := h.seqNo, wl2 := h.ack)))
      else Simultaneous(t1)
    else Nothing(t)
  }

  /** A SYN+ACK in SYN_SENT: ESTABLISHED, acknowledge it, on_connect. */
  function Open(t: Tcb): Out
  {
    var o := SetState(t, Established);
    var o2 := Then(o, Control(o.tcb, ACK));
    Then(o2, Out(o2.tcb, [Connected], 0))
  }

  /** A bare SYN in SYN_SENT: SYN_RECEIVED, and the SYN sent again with an ACK. */
  function Simultaneous(t: Tcb): Out
  {
    var o := SetState(t, SynReceived);
    Then(o, Control(o.tcb.(snd := o.tcb.snd.(nxt := SeqAdd(o.tcb.snd.nxt, -1))), SYN + ACK))
  }

  /** tcp_recv_rst. */
  function RstStep(t: Tcb): Out
  {
    match t.state
    case SynReceived => Fail(t, CONN_REFUSED)
    case Established | FinWait1 | FinWait2 | CloseWait => Fail(t, CONN_RESET)
    case Closing | LastAck | TimeWait => Free(t)
    case _ => Nothing(t)
  }

  /** tcp_recv_syn: a SYN inside the window resets the connection. */
  function SynStep(t: Tcb): Out
  {
    var o := Send(t, 0, RST + ACK, []);
    Then(o, Fail(o.tcb, CONN_RESET))
  }

  /** The window update of tcp_recv_ack: taken from a newer segment, or a newer ack of the same one. */
  function WindowUpdated(t: Tcb, h: Header): Tcb
  {
    if SeqLt(t.snd.wl1, h.seqNo) || (t.snd.wl1 == h.seqNo && SeqLe(t.snd.wl2, h.ack))
    then t.(snd := t.snd.(wnd := h.window, wl1 := h.seqNo, wl2 := h.ack))
    else t
  }

  /** tcp_recv_ack in the synchronized states that take an ACK: ESTABLISHED, FIN_WAIT_1/2, CLOSE_WAIT, CLOSING. */
  function AckOpen(t: Tcb, h: Header, now: u32): Out
  {
    var t1 := if SeqLe(t.snd.una, h.ack) && SeqLe(h.ack, t.snd.nxt)
      then WindowUpdated(t.(snd := t.snd.(una := h.ack)), h) else t;
    if SeqCmp(h.ack, t1.snd.nxt) > 0 then Control(t1, ACK)
    else if SeqCmp(h.ack, t1.snd.nxt) < 0 then Nothing(t1)
    else if t1.state == FinWait1 then SetState(t1, FinWait2)
    else if t1.state == Closing then Enter(t1, TimeWait, now)
    else Nothing(t1)
  }

  /** tcp_recv_ack. */
  function AckStep(t: Tcb, h: Header, now: u32): Out
  {
    match t.state
    case SynReceived =>
      // a plain unsigned comparison in the source, not SEQ_CMP
      if t.snd.una <= h.ack <= t.snd.nxt then
        SetState(t.(snd := t.snd.(wnd := h.window, wl1 := h.seqNo, wl2 := h.ack)), Established)
      else Send(t, h.ack, RST, [])
    case Established | FinWait1 | FinWait2 | CloseWait | Closing => AckOpen(t, h, now)
    case LastAck =>
      if SeqCmp(h.ack, t.snd.nxt) >= 0 then Free(t) else Nothing(t)
    case _ => Nothing(t)
  }

  /** on_data and net_free_buf of each delivered segment, in order. */
  function Deliveries(list: seq<Segment>): seq<Event>
  {
    if list == [] then []
    else Deliveries(list[..|list| - 1]) + [Delivered(list[|list| - 1].data), Released(list[|list| - 1])]
  }

  /** tcp_recv_process: hand over the segments at the head that start at rcv.nxt. */
  function ProcessStep(t: Tcb): Out
  {
    var n := Ready(t.resequence, t.rcv.nxt);
    Out(t.(rcv := t.rcv.(nxt := Advanced(t.resequence, n, t.rcv.nxt)), resequence := t.resequence[n..]),
      Deliveries(t.resequence[..n]), 0)
  }

  /** tcp_recv_insert (as intended). */
  function InsertStep(t: Tcb, seg: Segment): Out
  {
    var r := Insert(t.resequence, seg);
    Out(t.(resequence := r.list), Releases(r.released), 0)
  }

  /** tcp_recv_data: in ESTABLISHED and FIN_WAIT_1/2 the data is queued, delivered where it can be, and acknowledged. */
  function DataStep(t: Tcb, seg: Segment): Out
  {
    if t.state in {Established, FinWait1, FinWait2} then
      var o1 := InsertStep(t, seg);
      var o2 := Then(o1, ProcessStep(o1.tcb));
      Then(o2, Control(o2.tcb, ACK))
    else Nothing(t)
  }

  /** The state tcp_recv_fin moves to, given whether the FIN's ack covers everything sent. */
  function FinNext(s: State, allAcked: bool): State
  {
    match s
    case SynReceived | Established => CloseWait
    case FinWait1 => if allAcked then TimeWait else Closing
    case FinWait2 => TimeWait
    case _ => s
  }

  /** tcp_recv_fin: acknowledge the FIN, then follow FinNext, restarting the TIME_WAIT timer. */
  function FinStep(t: Tcb, h: Header, now: u32): Out
  {
    var o := Control(t.(rcv := t.rcv.(nxt := SeqAdd(h.seqNo, 1))), ACK);
    var t1 := o.tcb;
    var next := FinNext(t1.state, SeqCmp(h.ack, t1.snd.nxt) >= 0);
    if t1.state == TimeWait then Then(o, Restart(t1, now))
    else if next == t1.state then o
    else Then(o, Enter(t1, next, now))
  }

  /** The check of tcp_recv_general: the segment lies within [rcv.nxt, rcv.nxt + rcv.wnd]. */
  predicate InWindow(t: Tcb, seqNo: u32, len: nat)
  {
    SeqLe(t.rcv.nxt, seqNo) && SeqLe(SeqAdd(seqNo, len), SeqAdd(t.rcv.nxt, t.rcv.wnd))
  }

  /**
   * tcp_recv_general as written: window check, then RST, SYN, ACK, data and FIN in that
   * order, going on after tcp_recv_syn or tcp_recv_ack has freed the connection.
   */
  function GeneralStepAsWritten(t: Tcb, h: Header, seg: Segment, now: u32): Out
  {
    if !InWindow(t, h.seqNo, |seg.data|) then
      if !Has(h.flags, RST) then Control(t, ACK) else Nothing(t)
    else if Has(h.flags, RST) then RstStep(t)
    else
      var o1 := if Has(h.flags, SYN) then SynStep(t) else Nothing(t);
      if !Has(h.flags, ACK) then o1
      else
        var o2 := Then(o1, AckStep(o1.tcb, h, now));
        var o3 := if |seg.data| != 0 then Then(o2, DataStep(o2.tcb, seg)) else o2;
        if Has(h.flags, FIN) then Then(o3, FinStep(o3.tcb, h, now)) else o3
  }

  /**
   * tcp_recv_general as intended (section 3.9 of RFC 793): the same checks in the same
   * order, but a SYN in the window ends the processing once the connection is reset,
   * and so does an ACK that frees it.
   */
  function GeneralStep(t: Tcb, h: Header, seg: Segment, now: u32): Out
  {
    if !InWindow(t, h.seqNo, |seg.data|) then
      if !Has(h.flags, RST) then Control(t, ACK) else Nothing(t)
    else if Has(h.flags, RST) then RstStep(t)
    else if Has(h.flags, SYN) then SynStep(t)
    else if !Has(h.flags, ACK) then Nothing(t)
    else
      var o2 := AckStep(t, h, now);
      if o2.tcb.state == Closed then o2 else Then(o2, AfterAck(o2.tcb, h, seg, now))
  }

  /** The rest of tcp_recv_general once the ACK is handled: the data, then the FIN. Neither frees the connection. */
  function AfterAck(t: Tcb, h: Header, seg: Segment, now: u32): (o: Out)
    ensures o.frees == 0
  {
    var o3 := if |seg.data| != 0 then DataStep(t, seg) else Nothing(t);
    if Has(h.flags, FIN) then Then(o3, FinStep(o3.tcb, h, now)) else o3
  }

  /** The state tcp_close moves to after sending FIN, where it sends one. */
  function CloseNext(s: State): State
  {
    match s
    case SynReceived | Established => FinWait1
    case CloseWait => LastAck
    case _ => s
  }

  /** tcp_close. */
  function CloseStep(t: Tcb): Out
  {
    match t.state
    case Closed | Listen | SynSent => Free(t)
    case SynReceived | Established | CloseWait =>
      var o := Control(t, FIN + ACK);
      Then(o, SetState(o.tcb, CloseNext(t.state)))
    case _ => Out(t, [Error(CONN_CLOSING)], 0)
  }

  /** tcp_send: data from snd.nxt with ACK. */
  function SendStep(t: Tcb, data: seq<byte>): Out
    requires |data| <= MAX_DATA
  {
    Send(t, t.snd.nxt, ACK, data)
  }

  /** tcp_poll for one connection: a TIME_WAIT whose timer has run out is freed. */
  function PollStep(t: Tcb, now: u32): Out
  {
    if t.state == TimeWait && SeqCmp(now, t.mslWait) >= 0 then Free(t) else Nothing(t)
  }

  /** tcp_poll over the connections in list order: what each one does, one after another. */
  function PollEvents(ts: seq<Tcb>, now: u32): seq<Event>
  {
    if ts == [] then [] else PollEvents(ts[..|ts| - 1], now) + PollStep(ts[|ts| - 1], now).events
  }

  // ---- tcp_recv ----------------------------------------------------------------------------

  /** A connection fresh from tcp_alloc's memset: every field zero. */
  function ZeroTcb(): Tcb
  {
    Tcb(Closed, null, 0, 0, 0, 0, 0, Snd(0, 0, 0, 0, 0, 0, 0), Rcv(0, 0, 0, 0), [], 0)
  }

  /** tcp_find's test: the segment's source is the remote end and its destination the local end. */
  predicate Addressed(t: Tcb, src: u32, srcPort: u16, dst: u32, dstPort: u16)
  {
    t.remoteAddr == src && t.localAddr == dst && t.remotePort == srcPort && t.localPort == dstPort
  }

  /** tcp_find: the first connection in the list the segment is addressed to. */
  function FirstConn(ts: seq<Tcb>, src: u32, srcPort: u16, dst: u32, dstPort: u16): (k: Option<nat>)
    ensures k.Some? ==> k.value < |ts| && Addressed(ts[k.value], src, srcPort, dst, dstPort)
    ensures k.Some? ==> forall m :: 0 <= m < k.value ==> !Addressed(ts[m], src, srcPort, dst, dstPort)
    ensures k.None? ==> forall m :: 0 <= m < |ts| ==> !Addressed(ts[m], src, srcPort, dst, dstPort)
  {
    if ts == [] then None
    else if Addressed(ts[0], src, srcPort, dst, dstPort) then Some(0)
    else match FirstConn(ts[1..], src, srcPort, dst, dstPort)
      case None => None
      case Some(k) => Some(k + 1)
  }

  /**
   * tcp_recv_closed: a segment for no connection (or a closed one) is answered with a
   * RST through the route back to its source, unless it is a RST itself or there is
   * no such route. The reset takes its sequence number from the segment's ack, or, if
   * it has none, acknowledges the segment with RST+ACK.
   */
  function ResetReply(routes: seq<Route>, src: u32, dst: u32, h: Header, len: u16): seq<Event>
  {
    if Has(h.flags, RST) then []
    else match FirstMatch(routes, src, |routes|)
      case None => []
      case Some(r) => Reset(ResetTcb(routes[r], src, dst, h), h, len).events
  }

  /** The zeroed connection tcp_recv_closed answers from: the segment's ends swapped, routed by `r`. */
  function ResetTcb(r: Route, src: u32, dst: u32, h: Header): Tcb
  {
    ZeroTcb().(intf := r.intf, localAddr := dst, localPort := h.dstPort,
      remoteAddr := src, remotePort := h.srcPort, nextAddr := NextAddr(r, src))
  }

  /** The reset tcp_recv_closed sends for a segment of `len` bytes with header `h`. */
  function Reset(t: Tcb, h: Header, len: u16): Out
  {
    if Has(h.flags, ACK) then Send(t, h.ack, RST, [])
    else Send(t.(rcv := t.rcv.(nxt := SeqAdd(h.seqNo, len - HeaderLen(h)))), 0, RST + ACK, [])
  }

  /**
   * The data after the header, as tcp_recv advances the buffer past `off >> 2` bytes;
   * none when the header claims more bytes than the segment has. The data is what
   * follows the header, so it ends where the segment does and is never longer.
   */
  function Arrived(p: seq<byte>, h: Header): (seg: Segment)
    ensures seg.seqNo == h.seqNo && seg.fin == Has(h.flags, FIN)
    ensures |seg.data| + HeaderLen(h) <= |p| || seg.data == []
    ensures seg.data == p[|p| - |seg.data|..]
    ensures HeaderLen(h) <= |p| ==> |seg.data| == |p| - HeaderLen(h)
  {
    Segment(h.seqNo, if HeaderLen(h) <= |p| then p[HeaderLen(h)..] else [], Has(h.flags, FIN))
  }

  /**
   * data_len of tcp_recv_general as written: `end - start` once start has moved past
   * `off >> 2` bytes, as a uint32_t; it wraps when the header claims more than there is.
   */
  function DataLenAsWritten(p: seq<byte>, h: Header): (n: u32)
    ensures |p| < B32 && HeaderLen(h) <= |p| ==> n == |Arrived(p, h).data|
    ensures |p| < B32 && |p| < HeaderLen(h) ==> n == B32 - (HeaderLen(h) - |p|) && n != 0
  {
    Wrap32(|p| - HeaderLen(h))
  }

  /**
   * As written, a segment at rcv.nxt whose data offset points past its end passes the
   * window check with a length of nearly 2^32 (a 20-byte segment with off = 0xF0 has
   * data_len 2^32 - 40), so tcp_recv_data takes it as data; Arrived has no data for it.
   */
  lemma LongOffsetPassesWindow(t: Tcb, p: seq<byte>, h: Header)
    requires HEADER_LEN <= |p| < HeaderLen(h) && h.seqNo == t.rcv.nxt && t.rcv.wnd < 0x7FFF_0000
    ensures InWindow(t, h.seqNo, DataLenAsWritten(p, h))
    ensures DataLenAsWritten(p, h) >= B32 - 64 && Arrived(p, h).data == []
  {
    var d := HeaderLen(h) - |p|;
    var n := DataLenAsWritten(p, h);
    assert 0 < d <= 63 - HEADER_LEN;
    WrapNear(t.rcv.nxt + n);
    WrapNear(t.rcv.nxt + t.rcv.wnd);
    WrapNear(SeqAdd(h.seqNo, n) - SeqAdd(t.rcv.nxt, t.rcv.wnd));
    WrapNear(t.rcv.nxt - h.seqNo);
  }

  /** What tcp_recv does with a segment. */
  datatype Reception =
    | Discarded  // too short, a bad checksum, or a listening connection
    | Answered(events: seq<Event>)  // no open connection: tcp_recv_closed
    | Stepped(k: nat, out: Out)  // the k-th connection's handler ran

  /** The 16-bit length tcp_recv stores in the pseudo header. */
  function Len16(p: seq<byte>): u16
  {
    Wrap16(|p|)
  }

  /** The handler tcp_recv gives a segment for a connection in SYN_SENT or a synchronized state. */
  function Handler(t: Tcb, h: Header, seg: Segment, now: u32): Out
  {
    if t.state == SynSent then SynSentStep(t, h) else GeneralStep(t, h, seg, now)
  }

  /**
   * The second half of tcp_recv, for a segment with header `h`, length `len` and data
   * `seg`: tcp_recv_closed when no connection or a CLOSED one is addressed, nothing for
   * a LISTEN one, its handler for any other.
   */
  function Dispatch(ts: seq<Tcb>, routes: seq<Route>, src: u32, dst: u32, h: Header, len: u16, seg: Segment, now: u32): (r: Reception)
    ensures r.Stepped? ==> r.k < |ts|
  {
    match FirstConn(ts, src, h.srcPort, dst, h.dstPort)
    case None => Answered(ResetReply(routes, src, dst, h, len))
    case Some(k) =>
      if ts[k].state == Closed then Answered(ResetReply(routes, src, dst, h, len))
      else if ts[k].state == Listen then Discarded
      else Stepped(k, Handler(ts[k], h, seg, now))
  }

  /**
   * tcp_recv: a segment at least a header long whose checksum over the pseudo header
   * is 0 goes on to Dispatch, with the data after the header.
   */
  function Receive(ts: seq<Tcb>, routes: seq<Route>, src: u32, dst: u32, protocol: byte, p: seq<byte>, now: u32): (r: Reception)
    ensures r.Stepped? ==> r.k < |ts|
  {
    if |p| < HEADER_LEN then Discarded
    else if ChecksumOf(Pseudo(src, dst, protocol, Len16(p)) + p) != 0 then Discarded
    else
      var h := ParseHeader(p);
      Dispatch(ts, routes, src, dst, h, Len16(p), Arrived(p, h), now)
  }
}
