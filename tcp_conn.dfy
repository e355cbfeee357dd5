/**
 * The connections of src/net/tcp.c as objects: each tcp_conn_t is a `Conn` whose
 * fields the handlers update in place, and the `Stack` holds tcp_conn_list,
 * free_conn_list and, in order, everything the handlers do outside the connection
 * (segments handed to IPv4, callbacks, buffers freed). Every method is proved to do
 * what the matching function of TcpMachine says.
 */
module TcpConn {
  import opened CInt
  import opened Wrappers
  import opened Checksum
  import opened Tcp
  import opened TcpResequence
  import opened TcpMachine
  import opened Route
  import Intf

  class Conn {
    var state: State
    var intf: Intf.Interface?
    var localAddr: u32
    var nextAddr: u32
    var remoteAddr: u32
    var localPort: u16
    var remotePort: u16
    var snd: Snd
    var rcv: Rcv
    var resequence: seq<Segment>
    var mslWait: u32

    /** The connection's fields as a value. */
    function Value(): Tcb
      reads this
    {
      Tcb(state, intf, localAddr, nextAddr, remoteAddr, localPort, remotePort, snd, rcv, resequence, mslWait)
    }

    /** tcp_alloc's memset. */
    constructor ()
      ensures Value() == ZeroTcb()
    {
      state := Closed;
      intf := null;
      localAddr, nextAddr, remoteAddr := 0, 0, 0;
      localPort, remotePort := 0, 0;
      snd := Snd(0, 0, 0, 0, 0, 0, 0);
      rcv := Rcv(0, 0, 0, 0);
      resequence := [];
      mslWait := 0;
    }
  }

  /** The fields of each connection of the list. */
  function Tcbs(cs: seq<Conn>): (ts: seq<Tcb>)
    reads set c | c in cs
    ensures |ts| == |cs| && forall k :: 0 <= k < |cs| ==> ts[k] == cs[k].Value()
  {
    if cs == [] then [] else Tcbs(cs[..|cs| - 1]) + [cs[|cs| - 1].Value()]
  }

  /** No connection is in the list twice, as in a linked list. */
  predicate Distinct(cs: seq<Conn>)
  {
    forall a, b :: 0 <= a < b < |cs| ==> cs[a] != cs[b]
  }

  /** `n` pushes of one connection on the front of the free list. */
  function Pushes(c: Conn, n: nat): (r: seq<Conn>)
    ensures |r| == n && forall k :: 0 <= k < n ==> r[k] == c
  {
    seq(n, _ => c)
  }

  /** What tcp_poll puts on the free list: the connections it frees, the last first. */
  function PollFreed(cs: seq<Conn>, ts: seq<Tcb>, now: u32): seq<Conn>
    requires |cs| == |ts|
  {
    if cs == [] then []
    else Pushes(cs[|cs| - 1], PollStep(ts[|ts| - 1], now).frees) + PollFreed(cs[..|cs| - 1], ts[..|ts| - 1], now)
  }

  /**
   * Starting from the events `ev0` and free list `fr0`, `o` leaves the fields `v`, the
   * events `ev` (the earlier ones, then `o`'s) and the free list `fr` (`c` pushed as
   * often as `o` freed it).
   */
  predicate Follows(v: Tcb, ev: seq<Event>, fr: seq<Conn>, c: Conn, ev0: seq<Event>, fr0: seq<Conn>, o: Out)
  {
    v == o.tcb && ev == ev0 + o.events && fr == Pushes(c, o.frees) + fr0
  }

  /** Two handlers one after the other do what their `Then` does. */
  lemma FollowsThen(c: Conn, ev0: seq<Event>, fr0: seq<Conn>, o1: Out, ev1: seq<Event>, fr1: seq<Conn>,
                    o2: Out, v: Tcb, ev: seq<Event>, fr: seq<Conn>)
    requires Follows(o1.tcb, ev1, fr1, c, ev0, fr0, o1) && Follows(v, ev, fr, c, ev1, fr1, o2)
    ensures Follows(v, ev, fr, c, ev0, fr0, Then(o1, o2))
  {
    assert Pushes(c, o2.frees) + Pushes(c, o1.frees) == Pushes(c, o1.frees + o2.frees);
  }

  /** One more connection polled. */
  lemma PollNext(cs: seq<Conn>, ts: seq<Tcb>, i: nat, now: u32)
    requires |cs| == |ts| && i < |ts|
    ensures PollEvents(ts[..i + 1], now) == PollEvents(ts[..i], now) + PollStep(ts[i], now).events
    ensures PollFreed(cs[..i + 1], ts[..i + 1], now) == Pushes(cs[i], PollStep(ts[i], now).frees) + PollFreed(cs[..i], ts[..i], now)
  {
    assert ts[..i + 1][..i] == ts[..i] && cs[..i + 1][..i] == cs[..i];
  }

  /** One more segment handed over by tcp_recv_process's loop. */
  lemma ProcessNext(list: seq<Segment>, k: nat, cur: u32, nxt: u32, n: nat)
    requires k < |list| && list[k].seqNo == cur && n == Ready(list, nxt)
    requires Ready(list, nxt) == k + Ready(list[k..], cur) && Advanced(list, n, nxt) == Advanced(list[k..], n - k, cur)
    ensures k < n && list[k..][1..] == list[k + 1..]
    ensures Ready(list, nxt) == k + 1 + Ready(list[k + 1..], SeqAdd(cur, |list[k].data|))
    ensures Advanced(list, n, nxt) == Advanced(list[k + 1..], n - (k + 1), SeqAdd(cur, |list[k].data|))
    ensures Deliveries(list[..k + 1]) == Deliveries(list[..k]) + [Delivered(list[k].data), Released(list[k])]
  {
    assert list[k..][0] == list[k] && list[k..][1..] == list[k + 1..];
    assert list[..k + 1][..k] == list[..k];
  }

  lemma Associative<T>(a: seq<T>, b: seq<T>, c: seq<T>)
    ensures a + b + c == a + (b + c)
  {
  }

  class Stack {
    /** tcp_conn_list */
    var conns: seq<Conn>
    /** free_conn_list */
    var free: seq<Conn>
    /** Everything the handlers did outside the connections, in order. */
    var events: seq<Event>

    constructor ()
      ensures conns == [] && free == [] && events == []
    {
      conns, free, events := [], [], [];
    }

    /** Since the state `events0` and `free0` describe, `c` did what `o` says. */
    predicate Did(c: Conn, events0: seq<Event>, free0: seq<Conn>, o: Out)
      reads this, c
    {
      Follows(c.Value(), events, free, c, events0, free0, o)
    }

    /** tcp_set_state */
    method SetState(c: Conn, s: State)
      modifies this`events, c`state
      ensures Did(c, old(events), old(free), TcpMachine.SetState(old(c.Value()), s))
    {
      var from := c.state;
      c.state := s;
      events := events + [StateChanged(from, s)];
    }

    /** tcp_set_state, and the TIME_WAIT timer where the new state is TIME_WAIT. */
    method Enter(c: Conn, s: State, now: u32)
      modifies this`events, c`state, c`mslWait
      ensures Did(c, old(events), old(free), TcpMachine.Enter(old(c.Value()), s, now))
    {
      SetState(c, s);
      if s == TimeWait {
        c.mslWait := WaitUntil(now);
      }
    }

    /** tcp_send_packet */
    method SendPacket(c: Conn, seqNo: u32, flags: byte, data: seq<byte>)
      requires |data| <= MAX_DATA
      modifies this`events, c`snd
      ensures Did(c, old(events), old(free), Send(old(c.Value()), seqNo, flags, data))
    {
      var segment := Outgoing(c.Value(), seqNo, flags, data);
      events := events + [Transmit(c.intf, c.nextAddr, segment)];
      var nxt := SeqAdd(c.snd.nxt, |data|);
      if Has(flags, SYN) || Has(flags, FIN) {
        nxt := SeqAdd(nxt, 1);
        WrapAdd(c.snd.nxt + |data|, 1);
      }
      c.snd := c.snd.(nxt := nxt);
    }

    /** net_free_buf of each of `list[i..j]`, in order. */
    method ReleaseRun(list: seq<Segment>, i: nat, j: nat)
      requires i <= j <= |list|
      modifies this`events
      ensures events == old(events) + Releases(list[i..j])
    {
      var k := i;
      while k < j
        invariant i <= k <= j && events == old(events) + Releases(list[i..k])
      {
        assert list[i..k + 1][..k - i] == list[i..k];
        events := events + [Released(list[k])];
        k := k + 1;
      }
    }

    /** tcp_free */
    method Free(c: Conn)
      modifies this`events, this`free, c`state
      ensures Did(c, old(events), old(free), TcpMachine.Free(old(c.Value())))
    {
      if c.state != Closed {
        SetState(c, Closed);
        ReleaseRun(c.resequence, 0, |c.resequence|);
        assert c.resequence[0..|c.resequence|] == c.resequence;
      }
      free := [c] + free;
      assert Pushes(c, 1) == [c];
    }

    /** tcp_error */
    method Fail(c: Conn, code: nat)
      modifies this`events, this`free, c`state
      ensures Did(c, old(events), old(free), TcpMachine.Fail(old(c.Value()), code))
    {
      ghost var t0, ev0, fr0 := c.Value(), events, free;
      events := events + [Error(code)];
      assert Pushes(c, 0) == [];
      ghost var ev1 := events;
      Free(c);
      FollowsThen(c, ev0, fr0, Out(t0, [Error(code)], 0), ev1, fr0, TcpMachine.Free(t0), c.Value(), events, free);
    }

    /** tcp_recv_syn_sent */
    method RecvSynSent(c: Conn, h: Header)
      modifies this`events, this`free, c
      ensures Did(c, old(events), old(free), SynSentStep(old(c.Value()), h))
    {
      if Has(h.flags, ACK) && !AckAcceptable(c.Value(), h.ack) {
        if !Has(h.flags, RST) {
          SendPacket(c, h.ack, RST, []);
        }
        return;
      }
      if Has(h.flags, RST) {
        if Has(h.flags, ACK) {
          Fail(c, CONN_RESET);
        }
        return;
      }
      if Has(h.flags, SYN) {
        c.rcv := c.rcv.(irs := h.seqNo, nxt := SeqAdd(h.seqNo, 1));
        if Has(h.flags, ACK) {
          c.snd := c.snd.(una := h.ack, wnd := h.window, wl1 := h.seqNo, wl2 := h.ack);
          Open(c);
        } else {
          Simultaneous(c);
        }
      }
    }

    /** The SYN+ACK branch of tcp_recv_syn_sent. */
    method Open(c: Conn)
      modifies this`events, c`state, c`snd
      ensures Did(c, old(events), old(free), TcpMachine.Open(old(c.Value())))
    {
      ghost var t0, ev0, fr0 := c.Value(), events, free;
      SetState(c, Established);
      ghost var o1, ev1 := TcpMachine.SetState(t0, Established), events;
      SendPacket(c, c.snd.nxt, ACK, []);
      ghost var o2 := Control(o1.tcb, ACK);
      FollowsThen(c, ev0, fr0, o1, ev1, fr0, o2, c.Value(), events, free);
      ghost var ev2 := events;
      events := events + [Connected];
      assert Pushes(c, 0) == [];
      FollowsThen(c, ev0, fr0, Then(o1, o2), ev2, fr0, Out(o2.tcb, [Connected], 0), c.Value(), events, free);
    }

    /** The bare SYN branch of tcp_recv_syn_sent. */
    method Simultaneous(c: Conn)
      modifies this`events, c`state, c`snd
      ensures Did(c, old(events), old(free), TcpMachine.Simultaneous(old(c.Value())))
    {
      ghost var t0, ev0, fr0 := c.Value(), events, free;
      SetState(c, SynReceived);
      ghost var o1, ev1 := TcpMachine.SetState(t0, SynReceived), events;
      c.snd := c.snd.(nxt := SeqAdd(c.snd.nxt, -1));
      ghost var t3 := c.Value();
      SendPacket(c, c.snd.nxt, SYN + ACK, []);
      FollowsThen(c, ev0, fr0, o1, ev1, fr0, Control(t3, SYN + ACK), c.Value(), events, free);
    }

    /** tcp_recv_rst */
    method RecvRst(c: Conn)
      modifies this`events, this`free, c`state
      ensures Did(c, old(events), old(free), RstStep(old(c.Value())))
    {
      match c.state
      case SynReceived => Fail(c, CONN_REFUSED);
      case Established | FinWait1 | FinWait2 | CloseWait => Fail(c, CONN_RESET);
      case Closing | LastAck | TimeWait => Free(c);
      case _ =>
    }

    /** tcp_recv_syn */
    method RecvSyn(c: Conn)
      modifies this`events, this`free, c`snd, c`state
      ensures Did(c, old(events), old(free), SynStep(old(c.Value())))
    {
      ghost var t0, ev0, fr0 := c.Value(), events, free;
      SendPacket(c, 0, RST + ACK, []);
      ghost var o1, ev1 := Send(t0, 0, RST + ACK, []), events;
      Fail(c, CONN_RESET);
      FollowsThen(c, ev0, fr0, o1, ev1, fr0, TcpMachine.Fail(o1.tcb, CONN_RESET), c.Value(), events, free);
    }

    /** tcp_recv_ack in ESTABLISHED, FIN_WAIT_1/2, CLOSE_WAIT and CLOSING. */
    method RecvAckOpen(c: Conn, h: Header, now: u32)
      modifies this`events, c`snd, c`state, c`mslWait
      ensures Did(c, old(events), old(free), AckOpen(old(c.Value()), h, now))
    {
      if SeqLe(c.snd.una, h.ack) && SeqLe(h.ack, c.snd.nxt) {
        c.snd := c.snd.(una := h.ack);
        if SeqLt(c.snd.wl1, h.seqNo) || (c.snd.wl1 == h.seqNo && SeqLe(c.snd.wl2, h.ack)) {
          c.snd := c.snd.(wnd := h.window, wl1 := h.seqNo, wl2 := h.ack);
        }
      }
      if SeqCmp(h.ack, c.snd.nxt) > 0 {
        SendPacket(c, c.snd.nxt, ACK, []);
        return;
      }
      if SeqCmp(h.ack, c.snd.nxt) >= 0 {
        if c.state == FinWait1 {
          SetState(c, FinWait2);
        } else if c.state == Closing {
          Enter(c, TimeWait, now);
        }
      }
    }

    /** tcp_recv_ack */
    method RecvAck(c: Conn, h: Header, now: u32)
      modifies this`events, this`free, c`snd, c`state, c`mslWait
      ensures Did(c, old(events), old(free), AckStep(old(c.Value()), h, now))
    {
      match c.state
      case SynReceived =>
        if c.snd.una <= h.ack <= c.snd.nxt {
          c.snd := c.snd.(wnd := h.window, wl1 := h.seqNo, wl2 := h.ack);
          SetState(c, Established);
        } else {
          SendPacket(c, h.ack, RST, []);
        }
      case Established | FinWait1 | FinWait2 | CloseWait | Closing => RecvAckOpen(c, h, now);
      case LastAck =>
        if SeqCmp(h.ack, c.snd.nxt) >= 0 {
          Free(c);
        }
      case _ =>
    }

    /** The scan of tcp_recv_insert for the first segment not before `x`. */
    method FindStop(list: seq<Segment>, x: u32) returns (i: nat)
      ensures i == Stop(list, x)
    {
      i := 0;
      while i < |list| && !SeqLe(x, list[i].seqNo)
        invariant i <= Stop(list, x)
      {
        i := i + 1;
      }
    }

    /** The scan of tcp_recv_insert for the segments a new one ending at `pEnd` covers. */
    method FindCover(list: seq<Segment>, pEnd: u32, i: nat) returns (j: nat)
      requires i <= |list|
      ensures j == Cover(list, pEnd, i)
    {
      j := i;
      while j < |list| && !SeqLt(pEnd, list[j].seqNo) && !SeqLt(pEnd, End(list[j]))
        invariant i <= j <= |list| && Cover(list, pEnd, j) == Cover(list, pEnd, i)
        decreases |list| - j
      {
        j := j + 1;
      }
    }

    /** tcp_recv_insert, with the new segment linked in between `prev` and `cur`. */
    method RecvInsert(c: Conn, p: Segment)
      modifies this`events, c`resequence
      ensures Did(c, old(events), old(free), InsertStep(old(c.Value()), p))
    {
      var list := c.resequence;
      var i := FindStop(list, p.seqNo);
      if Dropped(list, p, i) {
        events := events + [Released(p)];
        assert Releases([p]) == [Released(p)];
        return;
      }
      var j := |list|;
      if !p.fin {
        j := FindCover(list, End(p), i);
      }
      ReleaseRun(list, i, j);
      c.resequence := Spliced(list, p, i, j);
    }

    /** tcp_recv_process */
    method RecvProcess(c: Conn)
      modifies this`events, c`rcv, c`resequence
      ensures Did(c, old(events), old(free), ProcessStep(old(c.Value())))
    {
      var list, nxt := c.resequence, c.rcv.nxt;
      ghost var t0 := c.Value();
      ghost var n := Ready(list, nxt);
      var rest, cur := list, nxt;
      ghost var k := 0;
      while rest != [] && cur == rest[0].seqNo
        invariant k <= |list| && rest == list[k..]
        invariant Ready(list, nxt) == k + Ready(rest, cur)
        invariant Advanced(list, n, nxt) == Advanced(rest, n - k, cur)
        invariant events == old(events) + Deliveries(list[..k])
        modifies this`events
        decreases |rest|
      {
        var packet := rest[0];
        ProcessNext(list, k, cur, nxt, n);
        cur := SeqAdd(cur, |packet.data|);
        events := events + [Delivered(packet.data), Released(packet)];
        rest := rest[1..];
        k := k + 1;
      }
      assert k == n && cur == Advanced(list, n, nxt);
      c.rcv := c.rcv.(nxt := cur);
      c.resequence := rest;
      ProcessedAll(c, t0, old(events), old(free));
    }

    /** The segments ready at rcv.nxt handed over, rcv.nxt past them and the list without them: ProcessStep. */
    lemma ProcessedAll(c: Conn, t0: Tcb, events0: seq<Event>, free0: seq<Conn>)
      requires free == free0
      requires var n := Ready(t0.resequence, t0.rcv.nxt);
        && c.Value() == t0.(rcv := t0.rcv.(nxt := Advanced(t0.resequence, n, t0.rcv.nxt)), resequence := t0.resequence[n..])
        && events == events0 + Deliveries(t0.resequence[..n])
      ensures Did(c, events0, free0, ProcessStep(t0))
    {
      assert Pushes(c, 0) == [];
    }

    /** tcp_recv_data */
    method RecvData(c: Conn, seg: Segment)
      modifies this`events, c`snd, c`rcv, c`resequence
      ensures Did(c, old(events), old(free), DataStep(old(c.Value()), seg))
    {
      if c.state in {Established, FinWait1, FinWait2} {
        ghost var t0, ev0, fr0 := c.Value(), events, free;
        RecvInsert(c, seg);
        ghost var o1, ev1 := InsertStep(t0, seg), events;
        RecvProcess(c);
        ghost var o2 := ProcessStep(o1.tcb);
        FollowsThen(c, ev0, fr0, o1, ev1, fr0, o2, c.Value(), events, free);
        ghost var ev2 := events;
        SendPacket(c, c.snd.nxt, ACK, []);
        FollowsThen(c, ev0, fr0, Then(o1, o2), ev2, fr0, Control(o2.tcb, ACK), c.Value(), events, free);
      } else {
        assert Pushes(c, 0) == [];
      }
    }

    /** tcp_recv_fin */
    method RecvFin(c: Conn, h: Header, now: u32)
      modifies this`events, c
      ensures Did(c, old(events), old(free), FinStep(old(c.Value()), h, now))
    {
      ghost var ev0, fr0 := events, free;
      c.rcv := c.rcv.(nxt := SeqAdd(h.seqNo, 1));
      ghost var o := Control(c.Value(), ACK);
      SendPacket(c, c.snd.nxt, ACK, []);
      ghost var ev1 := events;
      if c.state == TimeWait {
        c.mslWait := WaitUntil(now);
        assert Pushes(c, 0) == [];
        FollowsThen(c, ev0, fr0, o, ev1, fr0, Restart(o.tcb, now), c.Value(), events, free);
      } else {
        var next := FinNext(c.state, SeqCmp(h.ack, c.snd.nxt) >= 0);
        if next != c.state {
          Enter(c, next, now);
          FollowsThen(c, ev0, fr0, o, ev1, fr0, TcpMachine.Enter(o.tcb, next, now), c.Value(), events, free);
        }
      }
    }

    /** The checks of tcp_recv_general after the window and RST: SYN, then ACK, data and FIN. */
    method RecvInWindow(c: Conn, h: Header, seg: Segment, now: u32)
      requires InWindow(c.Value(), h.seqNo, |seg.data|) && !Has(h.flags, RST)
      modifies this`events, this`free, c
      ensures Did(c, old(events), old(free), GeneralStep(old(c.Value()), h, seg, now))
    {
      if Has(h.flags, SYN) {
        RecvSyn(c);
        return;
      }
      if !Has(h.flags, ACK) {
        assert Pushes(c, 0) == [];
        return;
      }
      ghost var t0, ev0, fr0 := c.Value(), events, free;
      RecvAck(c, h, now);
      if c.state == Closed {
        return;
      }
      ghost var o2, ev2, fr2 := AckStep(t0, h, now), events, free;
      RecvAfterAck(c, h, seg, now);
      FollowsThen(c, ev0, fr0, o2, ev2, fr2, AfterAck(o2.tcb, h, seg, now), c.Value(), events, free);
    }

    /** The data and FIN checks at the end of tcp_recv_general. */
    method RecvAfterAck(c: Conn, h: Header, seg: Segment, now: u32)
      modifies this`events, c
      ensures Did(c, old(events), old(free), AfterAck(old(c.Value()), h, seg, now))
    {
      ghost var t0, ev0, fr0 := c.Value(), events, free;
      if |seg.data| != 0 {
        RecvData(c, seg);
      } else {
        assert Pushes(c, 0) == [];
      }
      ghost var o3 := if |seg.data| != 0 then DataStep(t0, seg) else Nothing(t0);
      ghost var ev3 := events;
      if Has(h.flags, FIN) {
        RecvFin(c, h, now);
        FollowsThen(c, ev0, fr0, o3, ev3, fr0, FinStep(o3.tcb, h, now), c.Value(), events, free);
      }
    }

    /** tcp_recv_general */
    method RecvGeneral(c: Conn, h: Header, seg: Segment, now: u32)
      modifies this`events, this`free, c
      ensures Did(c, old(events), old(free), GeneralStep(old(c.Value()), h, seg, now))
    {
      if !InWindow(c.Value(), h.seqNo, |seg.data|) {
        if !Has(h.flags, RST) {
          SendPacket(c, c.snd.nxt, ACK, []);
        } else {
          assert Pushes(c, 0) == [];
        }
      } else if Has(h.flags, RST) {
        RecvRst(c);
      } else {
        RecvInWindow(c, h, seg, now);
      }
    }

    /** tcp_close */
    method Close(c: Conn)
      modifies this`events, this`free, c
      ensures Did(c, old(events), old(free), CloseStep(old(c.Value())))
    {
      ghost var t0, ev0, fr0 := c.Value(), events, free;
      assert Pushes(c, 0) == [];
      match c.state
      case Closed | Listen | SynSent => Free(c);
      case SynReceived | Established | CloseWait =>
        SendPacket(c, c.snd.nxt, FIN + ACK, []);
        ghost var o1, ev1 := Control(t0, FIN + ACK), events;
        SetState(c, CloseNext(c.state));
        FollowsThen(c, ev0, fr0, o1, ev1, fr0, TcpMachine.SetState(o1.tcb, CloseNext(t0.state)), c.Value(), events, free);
      case _ =>
        events := events + [Error(CONN_CLOSING)];
    }

    /** tcp_send */
    method SendData(c: Conn, data: seq<byte>)
      requires |data| <= MAX_DATA
      modifies this`events, c`snd
      ensures Did(c, old(events), old(free), SendStep(old(c.Value()), data))
    {
      SendPacket(c, c.snd.nxt, ACK, data);
    }

    /** The body of tcp_poll's loop for one connection. */
    method PollOne(c: Conn, now: u32)
      modifies this`events, this`free, c`state
      ensures Did(c, old(events), old(free), PollStep(old(c.Value()), now))
    {
      if c.state == TimeWait && SeqCmp(now, c.mslWait) >= 0 {
        Free(c);
      } else {
        assert Pushes(c, 0) == [];
      }
    }

    /** The first `i` connections have been polled from the fields `ts`, the others not yet. */
    predicate Polled(ts: seq<Tcb>, i: nat, now: u32, events0: seq<Event>, free0: seq<Conn>)
      reads this, set c | c in conns
    {
      i <= |conns| == |ts| &&
      (forall k :: 0 <= k < |conns| ==> conns[k].Value() == if k < i then PollStep(ts[k], now).tcb else ts[k]) &&
      events == events0 + PollEvents(ts[..i], now) &&
      free == PollFreed(conns[..i], ts[..i], now) + free0
    }

    /** One turn of tcp_poll's loop, at the `i`-th connection. */
    method PollAt(ghost ts: seq<Tcb>, i: nat, now: u32, ghost events0: seq<Event>, ghost free0: seq<Conn>)
      requires Distinct(conns) && i < |conns| && Polled(ts, i, now, events0, free0)
      modifies this`events, this`free, (conns[i] as Conn)`state
      ensures Polled(ts, i + 1, now, events0, free0)
    {
      var c := conns[i];
      assert forall k :: 0 <= k < |conns| && k != i ==> conns[k] != c;
      PollOne(c, now);
      PollNext(conns, ts, i, now);
      Associative(events0, PollEvents(ts[..i], now), PollStep(ts[i], now).events);
      Associative(Pushes(c, PollStep(ts[i], now).frees), PollFreed(conns[..i], ts[..i], now), free0);
    }

    /** tcp_poll: every TIME_WAIT connection whose timer has run out is freed. */
    method Poll(now: u32)
      requires Distinct(conns)
      modifies this`events, this`free, set c | c in conns
      ensures forall k :: 0 <= k < |conns| ==> conns[k].Value() == PollStep(old(conns[k].Value()), now).tcb
      ensures events == old(events) + PollEvents(old(Tcbs(conns)), now)
      ensures free == PollFreed(conns, old(Tcbs(conns)), now) + old(free)
    {
      ghost var ts := Tcbs(conns);
      var i := 0;
      while i < |conns|
        invariant Polled(ts, i, now, old(events), old(free))
      {
        PollAt(ts, i, now, old(events), old(free));
        i := i + 1;
      }
      PolledAll(ts, now, old(events), old(free));
    }

    /** Once every connection is polled, each got its PollStep and the events and frees are all of theirs. */
    lemma PolledAll(ts: seq<Tcb>, now: u32, events0: seq<Event>, free0: seq<Conn>)
      requires Polled(ts, |conns|, now, events0, free0)
      ensures forall k :: 0 <= k < |conns| ==> conns[k].Value() == PollStep(ts[k], now).tcb
      ensures events == events0 + PollEvents(ts, now)
      ensures free == PollFreed(conns, ts, now) + free0
    {
      assert ts[..|conns|] == ts && conns[..|conns|] == conns;
    }

    /**
     * Since `events0`, `free0` and the fields `ts0` of the connections, the stack did what
     * `r` says: nothing, the events of a reply, or one connection's handler and nothing
     * to the others.
     */
    predicate Handled(r: Reception, events0: seq<Event>, free0: seq<Conn>, ts0: seq<Tcb>)
      reads this, set c | c in conns
    {
      |ts0| == |conns| &&
      match r
      case Discarded =>
        events == events0 && free == free0 && forall m :: 0 <= m < |conns| ==> conns[m].Value() == ts0[m]
      case Answered(reply) =>
        events == events0 + reply && free == free0 && forall m :: 0 <= m < |conns| ==> conns[m].Value() == ts0[m]
      case Stepped(k, o) =>
        k < |conns| && Did(conns[k], events0, free0, o) &&
        forall m :: 0 <= m < |conns| && m != k ==> conns[m].Value() == ts0[m]
    }

    /** tcp_recv_closed, with a connection of its own that is never listed. */
    method RecvClosed(table: RouteTable, src: u32, dst: u32, h: Header, len: u16)
      modifies this`events
      ensures events == old(events) + ResetReply(table.routes, src, dst, h, len)
    {
      if Has(h.flags, RST) {
        return;
      }
      var found := table.FindRoute(src);
      if found.None? {
        return;
      }
      var rst := ResetConn(table.routes[found.value], src, dst, h);
      ghost var ev0 := events;
      SendReset(rst, h, len);
      assert events == ev0 + Reset(ResetTcb(table.routes[found.value], src, dst, h), h, len).events;
    }

    /** tcp_recv_closed's rst_conn, zeroed and then given the segment's ends swapped. */
    method ResetConn(route: Route, src: u32, dst: u32, h: Header) returns (rst: Conn)
      ensures fresh(rst) && rst.Value() == ResetTcb(route, src, dst, h)
    {
      rst := new Conn();
      rst.intf := route.intf;
      rst.localAddr, rst.localPort := dst, h.dstPort;
      rst.remoteAddr, rst.remotePort := src, h.srcPort;
      rst.nextAddr := NextAddr(route, src);
    }

    /** The reset of tcp_recv_closed, sent from `rst`. */
    method SendReset(rst: Conn, h: Header, len: u16)
      modifies this`events, rst`rcv, rst`snd
      ensures Did(rst, old(events), old(free), Reset(old(rst.Value()), h, len))
    {
      if Has(h.flags, ACK) {
        SendPacket(rst, h.ack, RST, []);
      } else {
        rst.rcv := rst.rcv.(nxt := SeqAdd(h.seqNo, len - HeaderLen(h)));
        SendPacket(rst, 0, RST + ACK, []);
      }
    }

    /** The connection's handler in tcp_recv. */
    method Handle(c: Conn, h: Header, seg: Segment, now: u32)
      modifies this`events, this`free, c
      ensures Did(c, old(events), old(free), Handler(old(c.Value()), h, seg, now))
    {
      if c.state == SynSent {
        RecvSynSent(c, h);
      } else {
        RecvGeneral(c, h, seg, now);
      }
    }

    /** The handler of the `k`-th connection, which leaves the others alone. */
    method HandleAt(k: nat, h: Header, seg: Segment, now: u32)
      requires Distinct(conns) && k < |conns|
      modifies this`events, this`free, conns[k]
      ensures Handled(Stepped(k, old(Handler(conns[k].Value(), h, seg, now))), old(events), old(free), old(Tcbs(conns)))
    {
      var conn := conns[k];
      assert forall m :: 0 <= m < |conns| && m != k ==> conns[m] != conn;
      Handle(conn, h, seg, now);
    }

    /** The second half of tcp_recv: the segment goes to the connection it is addressed to. */
    method Deliver(table: RouteTable, src: u32, dst: u32, h: Header, len: u16, seg: Segment, now: u32)
      requires Distinct(conns)
      modifies this`events, this`free, set c | c in conns
      ensures Handled(old(Dispatch(Tcbs(conns), table.routes, src, dst, h, len, seg, now)), old(events), old(free), old(Tcbs(conns)))
    {
      ghost var ts := Tcbs(conns);
      var k := Find(src, h.srcPort, dst, h.dstPort);
      if k.None? || conns[k.value].state == Closed {
        assert Dispatch(ts, table.routes, src, dst, h, len, seg, now) == Answered(ResetReply(table.routes, src, dst, h, len));
        RecvClosed(table, src, dst, h, len);
        return;
      }
      if conns[k.value].state == Listen {
        return;
      }
      assert Dispatch(ts, table.routes, src, dst, h, len, seg, now) == Stepped(k.value, Handler(ts[k.value], h, seg, now));
      HandleAt(k.value, h, seg, now);
    }

    /**
     * tcp_recv of the segment `p` (the bytes from the TCP header on) that came from
     * `src` to `dst`: what Receive says happens, happens, to the connection it names
     * and to no other.
     */
    method Recv(table: RouteTable, src: u32, dst: u32, protocol: byte, p: seq<byte>, now: u32)
      requires Distinct(conns)
      modifies this`events, this`free, set c | c in conns
      ensures Handled(old(Receive(Tcbs(conns), table.routes, src, dst, protocol, p, now)), old(events), old(free), old(Tcbs(conns)))
    {
      if |p| < HEADER_LEN {
        return;
      }
      var sum := Compute(Pseudo(src, dst, protocol, Len16(p)) + p);
      if sum != 0 {
        return;
      }
      var h := ParseHeader(p);
      Deliver(table, src, dst, h, Len16(p), Arrived(p, h), now);
    }

    /** tcp_find */
    method Find(src: u32, srcPort: u16, dst: u32, dstPort: u16) returns (k: Option<nat>)
      ensures k == FirstConn(Tcbs(conns), src, srcPort, dst, dstPort)
    {
      var i := 0;
      while i < |conns|
        invariant i <= |conns|
        invariant forall m :: 0 <= m < i ==> !Addressed(conns[m].Value(), src, srcPort, dst, dstPort)
      {
        var c := conns[i];
        if c.remoteAddr == src && c.localAddr == dst && c.remotePort == srcPort && c.localPort == dstPort {
          FirstConnIs(Tcbs(conns), src, srcPort, dst, dstPort, i);
          return Some(i);
        }
        i := i + 1;
      }
      FirstConnIs(Tcbs(conns), src, srcPort, dst, dstPort, |conns|);
      return None;
    }
  }

  /** FirstConn is the index before which no connection matches and at which one does (or the end). */
  lemma {:induction false} FirstConnIs(ts: seq<Tcb>, src: u32, srcPort: u16, dst: u32, dstPort: u16, i: nat)
    requires i <= |ts| && forall m :: 0 <= m < i ==> !Addressed(ts[m], src, srcPort, dst, dstPort)
    requires i < |ts| ==> Addressed(ts[i], src, srcPort, dst, dstPort)
    ensures FirstConn(ts, src, srcPort, dst, dstPort) == if i < |ts| then Some(i) else None
  {
    var k := FirstConn(ts, src, srcPort, dst, dstPort);
    if k.Some? {
      assert k.value >= i;
    }
  }
}
