/**
 * What the handlers of src/net/tcp.c promise, stated over TcpMachine: the segment
 * tcp_send_packet builds and the sequence space it takes, the SYN_SENT, window, RST,
 * FIN, close and poll tables, in-order delivery, whole close sequences, and that the
 * corrected tcp_recv_general sends nothing from a connection it has freed.
 */
module TcpFacts {
  import opened CInt
  import opened Checksum
  import opened Tcp
  import opened TcpResequence
  import opened TcpMachine

  // ---- tcp_send_packet ---------------------------------------------------------------------

  /**
   * tcp_send_packet hands over one segment and nothing else; snd.nxt then lies the data
   * length ahead, one more for SYN or FIN, and nothing else in the connection changes.
   */
  lemma SendAdvances(t: Tcb, seqNo: u32, flags: byte, data: seq<byte>)
    requires |data| <= MAX_DATA
    ensures var o := Send(t, seqNo, flags, data);
      o.frees == 0 && |o.events| == 1 && o.events[0].Transmit? &&
      o.events[0].intf == t.intf && o.events[0].next == t.nextAddr &&
      o.tcb == t.(snd := t.snd.(nxt := o.tcb.snd.nxt)) &&
      Offset(t.snd.nxt, o.tcb.snd.nxt) == |data| + (if Has(flags, SYN) || Has(flags, FIN) then 1 else 0)
  {
    assert Offset(t.snd.nxt, t.snd.nxt) == 0;
    OffsetAdd(t.snd.nxt, t.snd.nxt, SpaceOf(flags, |data|));
  }

  /**
   * The segment tcp_send_packet builds: the connection's ports, the sequence number asked
   * for, rcv.nxt as ack exactly when ACK is set, a data offset that is a whole number of
   * words ending where the data starts, and a checksum that verifies over the pseudo header.
   */
  lemma SentSegment(t: Tcb, seqNo: u32, flags: byte, data: seq<byte>)
    requires |data| <= MAX_DATA
    ensures var pk := Outgoing(t, seqNo, flags, data);
      var w := Bytes(pk);
      pk.src == t.localAddr && pk.dst == t.remoteAddr &&
      HEADER_LEN <= |w| < 0x1_0000 &&
      var h := ParseHeader(w);
      h.srcPort == t.localPort && h.dstPort == t.remotePort && h.seqNo == seqNo &&
      h.ack == (if Has(flags, ACK) then t.rcv.nxt else 0) && h.flags == flags &&
      HeaderLen(h) % 4 == 0 && HEADER_LEN <= HeaderLen(h) <= |w| && w[HeaderLen(h)..] == data &&
      ChecksumOf(Pseudo(t.localAddr, t.remoteAddr, PROTOCOL_TCP, |w|) + w) == 0
  {
    var pk := Outgoing(t, seqNo, flags, data);
    WireFields(pk.src, pk.dst, pk.srcPort, pk.dstPort, pk.seqNo, pk.ack, flags, data);
    WireChecks(pk.src, pk.dst, pk.srcPort, pk.dstPort, pk.seqNo, pk.ack, flags, data);
    UnsealedLayout(pk.srcPort, pk.dstPort, pk.seqNo, pk.ack, flags, data);
  }

  // ---- SYN_SENT ----------------------------------------------------------------------------

  /**
   * In SYN_SENT an ACK outside (iss, snd.nxt] changes nothing; it is answered by a RST
   * carrying the ack as its sequence number, unless it is a RST itself.
   */
  lemma SynSentRejectsAck(t: Tcb, h: Header)
    requires Has(h.flags, ACK) && !AckAcceptable(t, h.ack)
    ensures var o := SynSentStep(t, h);
      o.tcb == t && o.frees == 0 &&
      (Has(h.flags, RST) ==> o.events == []) &&
      (!Has(h.flags, RST) ==> (|o.events| == 1 && o.events[0].Transmit? &&
        o.events[0].packet.flags == RST && o.events[0].packet.seqNo == h.ack))
  {
  }

  /**
   * A SYN+ACK that acknowledges our SYN opens the connection: ESTABLISHED, rcv.nxt one
   * past the peer's initial sequence number, an ACK sent, and on_connect exactly once, last.
   */
  lemma SynSentOpens(t: Tcb, h: Header)
    requires Has(h.flags, SYN) && Has(h.flags, ACK) && !Has(h.flags, RST) && AckAcceptable(t, h.ack)
    ensures var o := SynSentStep(t, h);
      o.tcb.state == Established && o.tcb.rcv.irs == h.seqNo && o.tcb.rcv.nxt == SeqAdd(h.seqNo, 1) &&
      o.tcb.snd.una == h.ack && o.frees == 0 &&
      |o.events| == 3 && o.events[0] == StateChanged(t.state, Established) &&
      o.events[1].Transmit? && o.events[1].packet.flags == ACK && o.events[1].packet.ack == SeqAdd(h.seqNo, 1) &&
      o.events[2] == Connected && multiset(o.events)[Connected] == 1
  {
    var t1 := t.(rcv := t.rcv.(irs := h.seqNo, nxt := SeqAdd(h.seqNo, 1)));
    var t2 := t1.(snd := t1.snd.(una := h.ack, wnd := h.window, wl1 := h.seqNo, wl2 := h.ack));
    assert SynSentStep(t, h) == Open(t2);
    OpenShape(t2);
  }

  /** What Open does with any control block: ESTABLISHED, one ACK for rcv.nxt, then on_connect once. */
  lemma OpenShape(t: Tcb)
    ensures var o := Open(t);
      o.tcb.state == Established && o.tcb.rcv == t.rcv && o.tcb.snd.una == t.snd.una && o.frees == 0 &&
      |o.events| == 3 && o.events[0] == StateChanged(t.state, Established) &&
      o.events[1].Transmit? && o.events[1].packet.flags == ACK && o.events[1].packet.ack == t.rcv.nxt &&
      o.events[2] == Connected && multiset(o.events)[Connected] == 1
  {
    var o := Open(t);
    assert o.events[..2] + [o.events[2]] == o.events;
    assert Connected !in multiset(o.events[..2]);
  }

  /**
   * A bare SYN in SYN_SENT (a simultaneous open) moves to SYN_RECEIVED and sends the SYN
   * again with an ACK from the same sequence number, so snd.nxt ends where it was; the
   * connection is not reported as connected.
   */
  lemma SynSentSimultaneous(t: Tcb, h: Header)
    requires Has(h.flags, SYN) && !Has(h.flags, ACK) && !Has(h.flags, RST)
    ensures var o := SynSentStep(t, h);
      o.tcb.state == SynReceived && o.tcb.rcv.nxt == SeqAdd(h.seqNo, 1) && o.tcb.snd.nxt == t.snd.nxt &&
      o.frees == 0 && |o.events| == 2 && o.events[0] == StateChanged(t.state, SynReceived) &&
      o.events[1].Transmit? && o.events[1].packet.flags == SYN + ACK &&
      o.events[1].packet.seqNo == SeqAdd(t.snd.nxt, -1) && Connected !in o.events
  {
    WrapAdd(t.snd.nxt - 1, 1);
  }

  // ---- tcp_recv_general --------------------------------------------------------------------

  /** A segment outside the receive window changes nothing and only draws an ACK, none for a RST. */
  lemma OutOfWindow(t: Tcb, h: Header, seg: Segment, now: u32)
    requires !InWindow(t, h.seqNo, |seg.data|)
    ensures var o := GeneralStep(t, h, seg, now);
      o.tcb == t && o.frees == 0 &&
      (Has(h.flags, RST) ==> o.events == []) &&
      (!Has(h.flags, RST) ==> (|o.events| == 1 && o.events[0].Transmit? &&
        o.events[0].packet.flags == ACK && o.events[0].packet.seqNo == t.snd.nxt && o.events[0].packet.ack == t.rcv.nxt))
  {
  }

  /**
   * tcp_recv_rst: SYN_RECEIVED reports a refused connection and ESTABLISHED, FIN_WAIT_1/2
   * and CLOSE_WAIT a reset one, then each is freed; CLOSING, LAST_ACK and TIME_WAIT are
   * freed without a report; any other state ignores the RST.
   */
  lemma RstTable(t: Tcb)
    ensures var o := RstStep(t);
      var freed := [StateChanged(t.state, Closed)] + Releases(t.resequence);
      (t.state == SynReceived ==> o.events == [Error(CONN_REFUSED)] + freed) &&
      (t.state in {Established, FinWait1, FinWait2, CloseWait} ==> o.events == [Error(CONN_RESET)] + freed) &&
      (t.state in {Closing, LastAck, TimeWait} ==> o.events == freed) &&
      (t.state in {Closed, Listen, SynSent} ==> o == Nothing(t)) &&
      (t.state !in {Closed, Listen, SynSent} ==> o.tcb == t.(state := Closed) && o.frees == 1)
  {
  }

  /**
   * tcp_recv_fin acknowledges the FIN (rcv.nxt one past it) and then moves as its table
   * says, with the TIME_WAIT timer started on entering TIME_WAIT and restarted in it.
   */
  lemma FinTable(t: Tcb, h: Header, now: u32)
    ensures var o := FinStep(t, h, now);
      o.frees == 0 && o.tcb.rcv.nxt == SeqAdd(h.seqNo, 1) && o.tcb.snd.nxt == t.snd.nxt &&
      o.tcb.state == FinNext(t.state, SeqCmp(h.ack, t.snd.nxt) >= 0) &&
      (o.tcb.state == TimeWait ==> o.tcb.mslWait == WaitUntil(now)) &&
      (o.tcb.state != TimeWait ==> o.tcb.mslWait == t.mslWait) &&
      |o.events| >= 1 && o.events[0].Transmit? && o.events[0].packet.flags == ACK &&
      o.events[0].packet.ack == SeqAdd(h.seqNo, 1)
  {
    var t0 := t.(rcv := t.rcv.(nxt := SeqAdd(h.seqNo, 1)));
    AckControl(t0);
    var o := Control(t0, ACK);
    assert o.tcb == t0 && o.events[0].packet.flags == ACK && o.events[0].packet.ack == t0.rcv.nxt;
  }

  /** A bare ACK takes up no sequence space: the connection is left as it was. */
  lemma AckControl(t: Tcb)
    ensures var o := Control(t, ACK);
      o.tcb == t && o.frees == 0 && o.events == [Transmit(t.intf, t.nextAddr, Outgoing(t, t.snd.nxt, ACK, []))]
      && Outgoing(t, t.snd.nxt, ACK, []).ack == t.rcv.nxt
  {
    assert !Has(ACK, SYN) && !Has(ACK, FIN) && Has(ACK, ACK);
    DivMod(t.snd.nxt, B32, 0, t.snd.nxt);
  }

  /** The rows of tcp_recv_fin's switch. */
  lemma FinNextRows(allAcked: bool)
    ensures FinNext(SynReceived, allAcked) == CloseWait && FinNext(Established, allAcked) == CloseWait
    ensures FinNext(FinWait1, true) == TimeWait && FinNext(FinWait1, false) == Closing
    ensures FinNext(FinWait2, allAcked) == TimeWait
    ensures forall s :: s in {CloseWait, Closing, LastAck, TimeWait} ==> FinNext(s, allAcked) == s
  {
  }

  /**
   * tcp_close: a connection that never got going is freed; SYN_RECEIVED and ESTABLISHED
   * send FIN and move to FIN_WAIT_1, CLOSE_WAIT sends FIN and moves to LAST_ACK; in the
   * other states the close is refused with an error and nothing changes.
   */
  lemma CloseTable(t: Tcb)
    ensures var o := CloseStep(t);
      (t.state in {Closed, Listen, SynSent} ==> o == Free(t) && o.frees == 1 && o.tcb.state == Closed) &&
      (t.state in {SynReceived, Established, CloseWait} ==>
        o.tcb.state == (if t.state == CloseWait then LastAck else FinWait1) && o.frees == 0 &&
        Offset(t.snd.nxt, o.tcb.snd.nxt) == 1 &&
        |o.events| == 2 && o.events[0].Transmit? && o.events[0].packet.flags == FIN + ACK &&
        o.events[0].packet.seqNo == t.snd.nxt && o.events[1] == StateChanged(t.state, o.tcb.state)) &&
      (t.state in {FinWait1, FinWait2, Closing, LastAck, TimeWait} ==> o == Out(t, [Error(CONN_CLOSING)], 0))
  {
    if t.state in {SynReceived, Established, CloseWait} {
      SendAdvances(t, t.snd.nxt, FIN + ACK, []);
    }
  }

  /** tcp_poll frees a connection exactly when it is in TIME_WAIT and its timer has run out. */
  lemma PollTable(t: Tcb, now: u32)
    ensures var o := PollStep(t, now);
      (o.frees > 0 <==> t.state == TimeWait && SeqCmp(now, t.mslWait) >= 0) &&
      (o.frees > 0 ==> o.tcb == t.(state := Closed) && o.events == [StateChanged(TimeWait, Closed)] + Releases(t.resequence)) &&
      (o.frees == 0 ==> o == Nothing(t))
  {
  }

  // ---- tcp_recv_process --------------------------------------------------------------------

  /** The data the events hand to on_data, one after the other. */
  function DeliveredData(events: seq<Event>): seq<byte>
  {
    if events == [] then []
    else (if events[0].Delivered? then events[0].data else []) + DeliveredData(events[1..])
  }

  lemma {:induction false} DeliveredDataAppend(a: seq<Event>, b: seq<Event>)
    ensures DeliveredData(a + b) == DeliveredData(a) + DeliveredData(b)
    decreases |a|
  {
    if a == [] {
      assert a + b == b;
    } else {
      var ab, head := a + b, if a[0].Delivered? then a[0].data else [];
      DeliveredDataAppend(a[1..], b);
      assert ab[0] == a[0] && ab[1..] == a[1..] + b;
      assert DeliveredData(ab) == head + DeliveredData(a[1..] + b);
      assert DeliveredData(a) == head + DeliveredData(a[1..]);
    }
  }

  /** Delivering segments hands over their data in list order. */
  lemma {:induction false} DeliveriesData(list: seq<Segment>)
    ensures DeliveredData(Deliveries(list)) == Joined(list)
    decreases |list|
  {
    if list != [] {
      var init, last := list[..|list| - 1], list[|list| - 1];
      DeliveriesData(init);
      var pair := [Delivered(last.data), Released(last)];
      DeliveredDataAppend(Deliveries(init), pair);
      assert pair[1..] == [Released(last)] && [Released(last)][1..] == [];
      assert DeliveredData([Released(last)]) == [];
      assert DeliveredData(pair) == last.data;
      JoinedSnoc(init, last);
      assert init + [last] == list;
    }
  }

  lemma {:induction false} JoinedSnoc(list: seq<Segment>, s: Segment)
    ensures Joined(list + [s]) == Joined(list) + s.data
    decreases |list|
  {
    if list == [] {
      assert [s][1..] == [];
    } else {
      JoinedSnoc(list[1..], s);
      assert (list + [s])[1..] == list[1..] + [s];
    }
  }

  /**
   * tcp_recv_process hands over, in list order, exactly the segments at the head that
   * follow on from rcv.nxt without a gap: their data is what on_data receives, rcv.nxt
   * moves past all of it, and the segment left at the head (if any) does not start there.
   */
  lemma ProcessDelivers(t: Tcb)
    ensures var o := ProcessStep(t);
      var n := Ready(t.resequence, t.rcv.nxt);
      o.frees == 0 && o.tcb == t.(rcv := o.tcb.rcv, resequence := o.tcb.resequence) &&
      o.tcb.rcv == t.rcv.(nxt := o.tcb.rcv.nxt) &&
      o.tcb.resequence == t.resequence[n..] &&
      DeliveredData(o.events) == Joined(t.resequence[..n]) &&
      o.tcb.rcv.nxt == SeqAdd(t.rcv.nxt, |Joined(t.resequence[..n])|) &&
      (o.tcb.resequence == [] || o.tcb.resequence[0].seqNo != o.tcb.rcv.nxt)
  {
    var n := Ready(t.resequence, t.rcv.nxt);
    ReadyStopsAtGap(t.resequence, t.rcv.nxt);
    DeliveriesData(t.resequence[..n]);
  }

  // ---- Whole close sequences ----------------------------------------------------------------

  /**
   * The active close: tcp_close in ESTABLISHED sends FIN and enters FIN_WAIT_1; the ACK
   * of that FIN moves to FIN_WAIT_2; the peer's FIN moves to TIME_WAIT with the timer
   * set; and once the timer has run out tcp_poll frees the connection.
   */
  lemma ActiveClose(t: Tcb, ack: Header, fin: Header, now1: u32, now2: u32, now3: u32)
    requires t.state == Established
    requires ack.ack == SeqAdd(t.snd.nxt, 1)
    requires SeqCmp(now3, WaitUntil(now2)) >= 0
    ensures var o1 := CloseStep(t);
      var o2 := AckStep(o1.tcb, ack, now1);
      var o3 := FinStep(o2.tcb, fin, now2);
      var o4 := PollStep(o3.tcb, now3);
      o1.tcb.state == FinWait1 && o2.tcb.state == FinWait2 && o3.tcb.state == TimeWait &&
      o3.tcb.mslWait == WaitUntil(now2) && o4.tcb.state == Closed && o4.frees == 1 &&
      o1.frees + o2.frees + o3.frees == 0
  {
    var o1 := CloseStep(t);
    CloseTable(t);
    assert Offset(t.snd.nxt, t.snd.nxt) == 0;
    OffsetAdd(t.snd.nxt, t.snd.nxt, 1);
    assert o1.tcb.snd.nxt == ack.ack;
    var o2 := AckStep(o1.tcb, ack, now1);
    assert o2.tcb.state == FinWait2;
    FinTable(o2.tcb, fin, now2);
  }

  /**
   * The passive close: the peer's FIN in ESTABLISHED moves to CLOSE_WAIT; tcp_close
   * sends our FIN and enters LAST_ACK; the ACK of that FIN frees the connection.
   */
  lemma PassiveClose(t: Tcb, fin: Header, ack: Header, now1: u32, now2: u32)
    requires t.state == Established
    requires ack.ack == SeqAdd(t.snd.nxt, 1)
    ensures var o1 := FinStep(t, fin, now1);
      var o2 := CloseStep(o1.tcb);
      var o3 := AckStep(o2.tcb, ack, now2);
      o1.tcb.state == CloseWait && o2.tcb.state == LastAck && o3.tcb.state == Closed &&
      o1.frees + o2.frees == 0 && o3.frees == 1
  {
    var o1 := FinStep(t, fin, now1);
    FinTable(t, fin, now1);
    CloseTable(o1.tcb);
    assert Offset(t.snd.nxt, t.snd.nxt) == 0;
    OffsetAdd(t.snd.nxt, t.snd.nxt, 1);
  }

  // ---- Nothing is sent from a freed connection ---------------------------------------------------

  /** The events after the last move to CLOSED (all of them if there is none). */
  function SinceClosed(events: seq<Event>): seq<Event>
  {
    if events == [] then []
    else if events[|events| - 1].StateChanged? && events[|events| - 1].to == Closed then []
    else SinceClosed(events[..|events| - 1]) + [events[|events| - 1]]
  }

  /** A handler that frees the connection leaves it CLOSED and sends nothing from it afterwards. */
  predicate QuietAfterFree(o: Out)
  {
    o.frees > 0 ==> o.tcb.state == Closed && forall e :: e in SinceClosed(o.events) ==> !e.Transmit?
  }

  lemma {:induction false} SinceReleases(a: seq<Event>, list: seq<Segment>)
    ensures SinceClosed(a + Releases(list)) == SinceClosed(a) + Releases(list)
    decreases |list|
  {
    if list == [] {
      assert a + Releases(list) == a;
    } else {
      var init := list[..|list| - 1];
      var e := Released(list[|list| - 1]);
      SinceReleases(a, init);
      assert a + Releases(list) == (a + Releases(init)) + [e];
      SinceClosedSnoc(a + Releases(init), e);
    }
  }

  /** An event other than a move to CLOSED is one more event since the last such move. */
  lemma SinceClosedSnoc(events: seq<Event>, e: Event)
    requires !(e.StateChanged? && e.to == Closed)
    ensures SinceClosed(events + [e]) == SinceClosed(events) + [e]
  {
    var all := events + [e];
    assert all[..|all| - 1] == events && all[|all| - 1] == e;
  }

  /** What tcp_free records ends every freeing handler, so nothing is sent after it. */
  lemma FreeQuiet(before: seq<Event>, t: Tcb)
    requires t.state != Closed
    ensures var o := Free(t);
      SinceClosed(before + o.events) == Releases(t.resequence) &&
      forall e :: e in SinceClosed(before + o.events) ==> !e.Transmit?
  {
    var ch := [StateChanged(t.state, Closed)];
    SinceReleases(before + ch, t.resequence);
    assert before + Free(t).events == before + ch + Releases(t.resequence);
    assert SinceClosed(before + ch) == [];
    ReleasesAreReleased(t.resequence);
  }

  lemma {:induction false} ReleasesAreReleased(list: seq<Segment>)
    ensures forall e :: e in Releases(list) ==> e.Released?
    decreases |list|
  {
    if list != [] {
      ReleasesAreReleased(list[..|list| - 1]);
    }
  }

  /** tcp_recv_ack frees the connection only from LAST_ACK, as its last act. */
  lemma AckQuiet(t: Tcb, h: Header, now: u32)
    requires t.state != Closed
    ensures QuietAfterFree(AckStep(t, h, now))
    ensures AckStep(t, h, now).tcb.state == Closed ==> AckStep(t, h, now).frees > 0
  {
    if t.state == LastAck && SeqCmp(h.ack, t.snd.nxt) >= 0 {
      FreeItselfQuiet(t);
    }
  }

  /** tcp_free on its own sends nothing after it. */
  lemma FreeItselfQuiet(t: Tcb)
    requires t.state != Closed
    ensures QuietAfterFree(Free(t))
  {
    FreeQuiet([], t);
    assert Free(t).events == [] + Free(t).events;
  }

  /** tcp_recv_rst frees the connection as its last act. */
  lemma RstQuiet(t: Tcb)
    requires t.state != Closed
    ensures QuietAfterFree(RstStep(t))
  {
    match t.state
    case SynReceived =>
      assert RstStep(t) == Fail(t, CONN_REFUSED);
      FailQuiet(t, CONN_REFUSED);
    case Established | FinWait1 | FinWait2 | CloseWait =>
      assert RstStep(t) == Fail(t, CONN_RESET);
      FailQuiet(t, CONN_RESET);
    case Closing | LastAck | TimeWait =>
      assert RstStep(t) == Free(t);
      FreeItselfQuiet(t);
    case _ =>
  }

  /** tcp_error frees the connection as its last act. */
  lemma FailQuiet(t: Tcb, code: nat)
    requires t.state != Closed
    ensures QuietAfterFree(Fail(t, code))
  {
    FreeQuiet([Error(code)], t);
  }

  /** tcp_recv_syn sends its reset before it frees the connection. */
  lemma SynQuiet(t: Tcb)
    requires t.state != Closed
    ensures QuietAfterFree(SynStep(t))
  {
    var o := Send(t, 0, RST + ACK, []);
    FreeQuiet(o.events + [Error(CONN_RESET)], o.tcb);
    assert SynStep(t).events == o.events + [Error(CONN_RESET)] + Free(o.tcb).events;
  }

  /** Corrected tcp_recv_general: once the connection is freed, nothing more is sent from it. */
  lemma GeneralQuiet(t: Tcb, h: Header, seg: Segment, now: u32)
    requires t.state != Closed
    ensures QuietAfterFree(GeneralStep(t, h, seg, now))
  {
    var o := GeneralStep(t, h, seg, now);
    if !InWindow(t, h.seqNo, |seg.data|) {
      assert o.frees == 0;
    } else if Has(h.flags, RST) {
      RstQuiet(t);
    } else if Has(h.flags, SYN) {
      SynQuiet(t);
    } else if Has(h.flags, ACK) {
      AckQuiet(t, h, now);
    }
  }

  /**
   * tcp_recv_general as written: a SYN+ACK+FIN without data inside the window of a live
   * connection resets and frees it, and then tcp_recv_fin still sends an ACK from it.
   */
  lemma AsWrittenSendsAfterFree(t: Tcb, h: Header, seg: Segment, now: u32)
    requires t.state != Closed && InWindow(t, h.seqNo, |seg.data|) && |seg.data| == 0
    requires !Has(h.flags, RST) && Has(h.flags, SYN) && Has(h.flags, ACK) && Has(h.flags, FIN)
    ensures var o := GeneralStepAsWritten(t, h, seg, now);
      o.frees > 0 && !QuietAfterFree(o) && o.events[|o.events| - 1].Transmit?
  {
    var o1 := SynStep(t);
    assert o1.tcb.state == Closed && o1.frees == 1;
    var o2 := Then(o1, AckStep(o1.tcb, h, now));
    assert o2.events == o1.events + [];
    var f := FinStep(o2.tcb, h, now);
    assert f == Control(o2.tcb.(rcv := o2.tcb.rcv.(nxt := SeqAdd(h.seqNo, 1))), ACK);
    assert |f.events| == 1 && f.events[0].Transmit?;
    var o := GeneralStepAsWritten(t, h, seg, now);
    assert o == Then(o2, f);
    var last := o.events[|o.events| - 1];
    assert o.events[..|o.events| - 1] == o2.events && last == f.events[0];
    assert last in SinceClosed(o.events);
  }
}
