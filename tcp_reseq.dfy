/**
 * The resequencing list of src/net/tcp.c: received segments a connection holds,
 * ordered by sequence number, until the gap in front of them is filled
 * (tcp_recv_insert), and the delivery of the in-order ones from its head
 * (tcp_recv_process).
 *
 * Positions in sequence space are compared with SEQ_CMP. The ordering lemmas measure
 * every number as its distance ahead of a base, normally rcv.nxt, and need each
 * segment to end less than half the space ahead of it, where SEQ_CMP and those
 * distances agree.
 */
module TcpResequence {
  import opened CInt
  import opened Tcp

  /** A buffered segment: the sequence number of its first byte, its data, and whether it carried FIN. */
  datatype Segment = Segment(seqNo: u32, data: seq<byte>, fin: bool)

  /** `seq + (end - start)`: the sequence number just past the segment's data. */
  function End(s: Segment): u32
  {
    SeqAdd(s.seqNo, |s.data|)
  }

  /** `buf->end -= k`: the segment without its last `k` bytes (without any, if it is shorter). */
  function Shortened(s: Segment, k: u32): (r: Segment)
    ensures r.seqNo == s.seqNo && r.fin == s.fin && r.data <= s.data
    ensures k <= |s.data| ==> |r.data| == |s.data| - k
    ensures k > |s.data| ==> r.data == []
  {
    s.(data := if k <= |s.data| then s.data[..|s.data| - k] else [])
  }

  /**
   * The first scan of tcp_recv_insert: the index of `cur`, the first segment the new
   * one does not follow (SEQ_CMP(packet->seq, cur->seq, <=)); the segment before it
   * is `prev`.
   */
  function Stop(list: seq<Segment>, x: u32): (i: nat)
    ensures i <= |list|
    ensures forall k :: 0 <= k < i ==> !SeqLe(x, list[k].seqNo)
    ensures i < |list| ==> SeqLe(x, list[i].seqNo)
  {
    if list == [] || SeqLe(x, list[0].seqNo) then 0 else 1 + Stop(list[1..], x)
  }

  /**
   * The second scan, from `j`: segments the new data, ending at `pEnd`, covers
   * completely are passed over (and freed); it stops at the first segment that starts
   * after `pEnd` or reaches past it.
   */
  function Cover(list: seq<Segment>, pEnd: u32, j: nat): (k: nat)
    requires j <= |list|
    ensures j <= k <= |list|
    ensures forall m :: j <= m < k ==> !SeqLt(pEnd, list[m].seqNo) && !SeqLt(pEnd, End(list[m]))
    ensures k < |list| ==> SeqLt(pEnd, list[k].seqNo) || SeqLt(pEnd, End(list[k]))
    decreases |list| - j
  {
    if j == |list| || SeqLt(pEnd, list[j].seqNo) || SeqLt(pEnd, End(list[j])) then j
    else Cover(list, pEnd, j + 1)
  }

  /** tcp_recv_insert frees the new segment: `prev` already reaches as far as it does. */
  predicate Dropped(list: seq<Segment>, p: Segment, i: nat)
    requires i <= |list|
  {
    i > 0 && SeqCmp(End(list[i - 1]), End(p)) >= 0
  }

  /** The segments up to and including `prev`, with `prev` cut back where it runs past `x`. */
  function Before(list: seq<Segment>, i: nat, x: u32): (b: seq<Segment>)
    requires i <= |list|
    ensures |b| == i
  {
    if i > 0 && SeqCmp(End(list[i - 1]), x) > 0
    then list[..i - 1] + [Shortened(list[i - 1], Wrap32(End(list[i - 1]) - x))]
    else list[..i]
  }

  /**
   * Where the old list goes on after the new segment: past the segments it covers,
   * or nowhere after a FIN, which frees everything from `cur` on.
   */
  function After(list: seq<Segment>, p: Segment, i: nat): (j: nat)
    requires i <= |list|
    ensures i <= j <= |list|
  {
    if p.fin then |list| else Cover(list, End(p), i)
  }

  /** The new segment, cut back where it runs into the segment at `j`. */
  function Clipped(list: seq<Segment>, p: Segment, j: nat): (r: Segment)
    requires j <= |list|
    ensures r.seqNo == p.seqNo
  {
    if j < |list| && !SeqLt(End(p), list[j].seqNo) then Shortened(p, Wrap32(End(p) - list[j].seqNo)) else p
  }

  /** The list with the new segment linked between `prev` (index i - 1) and the segment at `j`. */
  function Spliced(list: seq<Segment>, p: Segment, i: nat, j: nat): (r: seq<Segment>)
    requires i <= j <= |list|
    ensures |r| == i + 1 + |list| - j
  {
    Before(list, i, p.seqNo) + [Clipped(list, p, j)] + list[j..]
  }

  /** The list after an insertion, and the segments it frees. */
  datatype Insertion = Insertion(list: seq<Segment>, released: seq<Segment>)

  /**
   * tcp_recv_insert as written: `conn->resequence = packet` after linking at most
   * `cur` behind it, so `prev` and everything before it, and everything after `cur`,
   * leave the list without being freed.
   */
  function InsertAsWritten(list: seq<Segment>, p: Segment): (r: Insertion)
    ensures |r.list| <= 2 || r.list == list
  {
    var i := Stop(list, p.seqNo);
    if Dropped(list, p, i) then Insertion(list, [p])
    else
      var j := After(list, p, i);
      Insertion([Clipped(list, p, j)] + (if j < |list| then [list[j]] else []), list[i..j])
  }

  /**
   * tcp_recv_insert as intended: the new segment, cut back to fit, is linked between
   * `prev` and the first segment it does not cover, and the ones it covers are freed;
   * a FIN frees everything after it.
   */
  function Insert(list: seq<Segment>, p: Segment): (r: Insertion)
  {
    var i := Stop(list, p.seqNo);
    if Dropped(list, p, i) then Insertion(list, [p])
    else
      var j := After(list, p, i);
      Insertion(Spliced(list, p, i, j), list[i..j])
  }

  /** Some segment of `list` starts at `x`. */
  predicate Starts(list: seq<Segment>, x: u32)
  {
    exists t :: t in list && t.seqNo == x
  }

  /**
   * The written insertion loses segments: with [10, 15) and [20, 25) held, a segment
   * at 40 leaves the list holding only itself, and frees neither of the others.
   */
  lemma AsWrittenLosesSegments()
    ensures var a := Segment(10, [1, 2, 3, 4, 5], false);
      var b := Segment(20, [1, 2, 3, 4, 5], false);
      var c := Segment(40, [1, 2, 3, 4, 5], false);
      var r := InsertAsWritten([a, b], c);
      r.list == [c] && r.released == [] && !Starts(r.list, a.seqNo) && a !in r.released
  {
    var a := Segment(10, [1, 2, 3, 4, 5], false);
    var b := Segment(20, [1, 2, 3, 4, 5], false);
    var c := Segment(40, [1, 2, 3, 4, 5], false);
    assert SeqCmp(40, 10) == 30 && SeqCmp(40, 20) == 20;
    assert Stop([a, b], 40) == 2 by {
      assert Stop([b], 40) == 1 by { assert Stop([], 40) == 0; }
    }
    assert SeqCmp(End(b), End(c)) < 0 && SeqCmp(End(b), 40) < 0;
  }

  /**
   * Whenever the written insertion keeps the new segment, the segments before `cur`
   * (index Stop) and those after the first one it does not cover leave the list
   * without being freed: the list and the freed segments fall short of the |list| + 1
   * that InsertConserves keeps by exactly that many.
   */
  lemma AsWrittenLosesCount(list: seq<Segment>, p: Segment)
    ensures var i := Stop(list, p.seqNo);
      var r := InsertAsWritten(list, p);
      !Dropped(list, p, i) ==>
        var j := After(list, p, i);
        |list| + 1 - (|r.list| + |r.released|) == i + (if j < |list| then |list| - j - 1 else 0)
  {
  }

  /**
   * The intended insertion loses nothing: every segment held before, and the new
   * one, is still in the list (from the same sequence number) or is freed, and the
   * list and the freed segments together are one more than the list before.
   */
  lemma InsertConserves(list: seq<Segment>, p: Segment)
    ensures var r := Insert(list, p);
      (forall s :: s in list ==> Starts(r.list, s.seqNo) || s in r.released) &&
      (Starts(r.list, p.seqNo) || p in r.released) &&
      |r.list| + |r.released| == |list| + 1
  {
    var r := Insert(list, p);
    var i := Stop(list, p.seqNo);
    if Dropped(list, p, i) {
      forall s | s in list ensures Starts(r.list, s.seqNo) { }
    } else {
      var j := After(list, p, i);
      SplicedAt(list, p, i, j, i);
      forall s | s in list ensures Starts(r.list, s.seqNo) || s in r.released {
        var k :| 0 <= k < |list| && list[k] == s;
        if k < i {
          SameStarts(list, i, p.seqNo, k);
          SplicedAt(list, p, i, j, k);
        } else if k < j {
          assert r.released[k - i] == s;
        } else {
          SplicedAt(list, p, i, j, k - j + i + 1);
        }
      }
    }
  }

  /** Where each element of the spliced list comes from. */
  lemma SplicedAt(list: seq<Segment>, p: Segment, i: nat, j: nat, k: nat)
    requires i <= j <= |list| && k < i + 1 + |list| - j
    ensures Spliced(list, p, i, j)[k] ==
      if k < i then Before(list, i, p.seqNo)[k] else if k == i then Clipped(list, p, j) else list[k - i - 1 + j]
  {
  }

  /** Cutting `prev` back keeps where every segment before `cur` starts. */
  lemma SameStarts(list: seq<Segment>, i: nat, x: u32, k: nat)
    requires k < i <= |list|
    ensures Before(list, i, x)[k].seqNo == list[k].seqNo
  {
    if k < i - 1 {
      assert Before(list, i, x)[..i - 1][k] == list[..i - 1][k];
    }
  }

  // ---- Order ---------------------------------------------------------------------------

  /** How far past `base` the segment's data ends, not wrapped. */
  function EndOffset(base: u32, s: Segment): int
  {
    Offset(base, s.seqNo) + |s.data|
  }

  /** The segment ends less than half the sequence space past `base`. */
  predicate Fits(base: u32, s: Segment)
  {
    EndOffset(base, s) < 0x8000_0000
  }

  /**
   * The list is in sequence order from `base`, and no two segments overlap: each one
   * ends before any later one starts.
   */
  predicate Ordered(list: seq<Segment>, base: u32)
  {
    (forall k :: 0 <= k < |list| ==> Fits(base, list[k])) &&
    (forall a, b :: 0 <= a < b < |list| ==> EndOffset(base, list[a]) <= Offset(base, list[b].seqNo))
  }

  /** For a segment that fits, End is its end offset moved back into sequence space. */
  lemma EndAt(base: u32, s: Segment)
    requires Fits(base, s)
    ensures Offset(base, End(s)) == EndOffset(base, s)
  {
    OffsetAdd(base, s.seqNo, |s.data|);
  }

  /** The amount tcp_recv_insert cuts, `y - x`, is the difference of the two distances. */
  lemma Gap(base: u32, x: u32, y: u32)
    requires Offset(base, x) < 0x8000_0000 && Offset(base, y) <= Offset(base, x)
    ensures Wrap32(x - y) == Offset(base, x) - Offset(base, y)
  {
    SeqCmpOffsets(base, x, y);
  }

  /** Cutting `k` bytes off a segment's end moves its end offset back by `k`. */
  lemma ShortenedEnd(base: u32, s: Segment, k: u32)
    requires k <= |s.data|
    ensures EndOffset(base, Shortened(s, k)) == EndOffset(base, s) - k
  {
  }

  /** What the first scan of an ordered list tells, as distances from the base. */
  lemma StopOffsets(list: seq<Segment>, base: u32, p: Segment)
    requires Ordered(list, base) && Fits(base, p)
    ensures var i := Stop(list, p.seqNo);
      (forall k :: 0 <= k < i ==> Offset(base, list[k].seqNo) < Offset(base, p.seqNo)) &&
      (forall k :: i <= k < |list| ==> Offset(base, p.seqNo) <= Offset(base, list[k].seqNo))
  {
    var i := Stop(list, p.seqNo);
    forall k | 0 <= k < i ensures Offset(base, list[k].seqNo) < Offset(base, p.seqNo) {
      StopBelow(list, base, p, k);
    }
    forall k | i <= k < |list| ensures Offset(base, p.seqNo) <= Offset(base, list[k].seqNo) {
      StopAbove(list, base, p, i, k);
    }
  }

  /** A segment the first scan passes over starts before the new one. */
  lemma StopBelow(list: seq<Segment>, base: u32, p: Segment, k: nat)
    requires Ordered(list, base) && Fits(base, p) && k < Stop(list, p.seqNo)
    ensures Offset(base, list[k].seqNo) < Offset(base, p.seqNo)
  {
    assert Fits(base, list[k]);
    SeqCmpOffsets(base, p.seqNo, list[k].seqNo);
  }

  /** A segment from the first one at or after the new one's start on starts at or after it. */
  lemma StopAbove(list: seq<Segment>, base: u32, p: Segment, i: nat, k: nat)
    requires Ordered(list, base) && Fits(base, p) && i <= k < |list| && SeqLe(p.seqNo, list[i].seqNo)
    ensures Offset(base, p.seqNo) <= Offset(base, list[k].seqNo)
  {
    AtOrAfter(base, p, list[i]);
    if i < k {
      assert EndOffset(base, list[i]) <= Offset(base, list[k].seqNo);
    }
  }

  /** Two segments that fit, in sequence order, are in offset order. */
  lemma AtOrAfter(base: u32, p: Segment, c: Segment)
    requires Fits(base, p) && Fits(base, c) && SeqLe(p.seqNo, c.seqNo)
    ensures Offset(base, p.seqNo) <= Offset(base, c.seqNo)
  {
    SeqCmpOffsets(base, p.seqNo, c.seqNo);
  }


  /**
   * The segments up to `prev`, with `prev` cut back, start where they did, end where
   * they did or earlier, and end before the new segment starts.
   */
  lemma BeforeOffsets(list: seq<Segment>, base: u32, x: u32, k: nat)
    requires Ordered(list, base) && Offset(base, x) < 0x8000_0000 && k < Stop(list, x)
    ensures var b := Before(list, Stop(list, x), x);
      b[k].seqNo == list[k].seqNo && EndOffset(base, b[k]) <= EndOffset(base, list[k]) &&
      EndOffset(base, b[k]) <= Offset(base, x)
  {
    var i := Stop(list, x);
    var b := Before(list, i, x);
    SameStarts(list, i, x, k);
    var prev := list[i - 1];
    SeqCmpOffsets(base, x, prev.seqNo);
    if k < i - 1 {
      assert b[..i - 1][k] == list[..i - 1][k];
      assert EndOffset(base, list[k]) <= Offset(base, prev.seqNo);
    } else {
      EndAt(base, prev);
      SeqCmpOffsets(base, End(prev), x);
      if SeqCmp(End(prev), x) > 0 {
        Gap(base, End(prev), x);
        ShortenedEnd(base, prev, Wrap32(End(prev) - x));
      }
    }
  }

  /**
   * The new segment as placed ends where it did or earlier, and before the first
   * segment kept after it.
   */
  lemma ClippedOffsets(list: seq<Segment>, base: u32, p: Segment)
    requires Ordered(list, base) && Fits(base, p)
    ensures var i := Stop(list, p.seqNo);
      var j := After(list, p, i);
      var packet := Clipped(list, p, j);
      EndOffset(base, packet) <= EndOffset(base, p) &&
      (j < |list| ==> EndOffset(base, packet) <= Offset(base, list[j].seqNo))
  {
    var i := Stop(list, p.seqNo);
    var j := After(list, p, i);
    if j < |list| {
      var c := list[j];
      StopOffsets(list, base, p);
      assert Offset(base, p.seqNo) <= Offset(base, c.seqNo) && Fits(base, c);
      ClipAgainst(base, list, p, j);
    }
  }

  /** Against a segment at j, the new one is cut exactly when it does not end before that segment starts. */
  lemma ClippedAt(list: seq<Segment>, p: Segment, j: nat)
    requires j < |list|
    ensures !SeqLt(End(p), list[j].seqNo) ==> Clipped(list, p, j) == Shortened(p, Wrap32(End(p) - list[j].seqNo))
    ensures SeqLt(End(p), list[j].seqNo) ==> Clipped(list, p, j) == p
  {
  }

  /**
   * The cut of tcp_recv_insert against the segment at j, after the new one: when the new
   * one reaches past the start of that segment it is shortened to end exactly there,
   * otherwise it already ends before it.
   */
  lemma ClipAgainst(base: u32, list: seq<Segment>, p: Segment, j: nat)
    requires j < |list| && Fits(base, p) && Fits(base, list[j]) && Offset(base, p.seqNo) <= Offset(base, list[j].seqNo)
    ensures EndOffset(base, Clipped(list, p, j)) <= EndOffset(base, p)
    ensures EndOffset(base, Clipped(list, p, j)) <= Offset(base, list[j].seqNo)
    ensures !SeqLt(End(p), list[j].seqNo) ==> EndOffset(base, Clipped(list, p, j)) == Offset(base, list[j].seqNo)
  {
    var pEnd, c := End(p), list[j];
    ClippedAt(list, p, j);
    EndAt(base, p);
    SeqCmpOffsets(base, pEnd, c.seqNo);
    if !SeqLt(pEnd, c.seqNo) {
      Gap(base, pEnd, c.seqNo);
      ShortenedEnd(base, p, Wrap32(pEnd - c.seqNo));
    }
  }

  /**
   * Inserting a segment that fits into an ordered list leaves it ordered: the repaired
   * tcp_recv_insert keeps the list sorted without overlaps.
   */
  lemma InsertKeepsOrder(list: seq<Segment>, base: u32, p: Segment)
    requires Ordered(list, base) && Fits(base, p)
    ensures Ordered(Insert(list, p).list, base)
  {
    var i := Stop(list, p.seqNo);
    if !Dropped(list, p, i) {
      var j := After(list, p, i);
      var r := Spliced(list, p, i, j);
      forall a, b | 0 <= a < b < |r| ensures EndOffset(base, r[a]) <= Offset(base, r[b].seqNo) {
        SplicedPair(list, base, p, a, b);
      }
      forall k | 0 <= k < |r| ensures Fits(base, r[k]) {
        SplicedAt(list, p, i, j, k);
        if k < i {
          BeforeOffsets(list, base, p.seqNo, k);
        } else if k == i {
          ClippedOffsets(list, base, p);
        }
      }
    }
  }

  /** Any two segments of the spliced list are in order and apart. */
  lemma SplicedPair(list: seq<Segment>, base: u32, p: Segment, a: nat, b: nat)
    requires Ordered(list, base) && Fits(base, p)
    requires var i := Stop(list, p.seqNo); a < b < |Spliced(list, p, i, After(list, p, i))|
    ensures var i := Stop(list, p.seqNo);
      var r := Spliced(list, p, i, After(list, p, i));
      EndOffset(base, r[a]) <= Offset(base, r[b].seqNo)
  {
    var i := Stop(list, p.seqNo);
    var j := After(list, p, i);
    SplicedAt(list, p, i, j, a);
    SplicedAt(list, p, i, j, b);
    if a < i {
      BeforeOffsets(list, base, p.seqNo, a);
      if b < i {
        BeforeOffsets(list, base, p.seqNo, b);
        assert EndOffset(base, list[a]) <= Offset(base, list[b].seqNo);
      } else if b > i {
        StopOffsets(list, base, p);
        assert EndOffset(base, list[a]) <= Offset(base, list[b - i - 1 + j].seqNo);
      }
    } else if a == i {
      ClippedOffsets(list, base, p);
      if b - i - 1 + j > j {
        assert EndOffset(base, list[j]) <= Offset(base, list[b - i - 1 + j].seqNo);
      }
    } else {
      assert EndOffset(base, list[a - i - 1 + j]) <= Offset(base, list[b - i - 1 + j].seqNo);
    }
  }

  // ---- tcp_recv_process ----------------------------------------------------------------

  /**
   * How many segments from the head tcp_recv_process delivers starting at `nxt`: it
   * goes on while the head starts exactly at rcv.nxt, moving rcv.nxt past each one.
   */
  function Ready(list: seq<Segment>, nxt: u32): (n: nat)
    ensures n <= |list|
  {
    if list == [] || list[0].seqNo != nxt then 0 else 1 + Ready(list[1..], End(list[0]))
  }

  /** rcv.nxt after delivering the first `n` segments from `nxt`. */
  function Advanced(list: seq<Segment>, n: nat, nxt: u32): u32
    requires n <= |list|
  {
    if n == 0 then nxt else Advanced(list[1..], n - 1, SeqAdd(nxt, |list[0].data|))
  }

  /** The data of the segments, one after the other. */
  function Joined(list: seq<Segment>): (d: seq<byte>)
  {
    if list == [] then [] else list[0].data + Joined(list[1..])
  }

  /** The first n segments joined are the head's data followed by the next n - 1 joined. */
  lemma JoinedFront(list: seq<Segment>, n: nat)
    requires 0 < n <= |list|
    ensures |Joined(list[..n])| == |list[0].data| + |Joined(list[1..][..n - 1])|
  {
    assert list[..n][0] == list[0] && list[..n][1..] == list[1..][..n - 1];
  }

  /**
   * Delivery stops exactly at a gap: every delivered segment started where the one
   * before it ended, rcv.nxt moves past all of them, and what is left is empty or does
   * not start at the new rcv.nxt.
   */
  lemma {:induction false} ReadyStopsAtGap(list: seq<Segment>, nxt: u32)
    ensures var n := Ready(list, nxt);
      var after := Advanced(list, n, nxt);
      (n == |list| || list[n].seqNo != after) &&
      after == SeqAdd(nxt, |Joined(list[..n])|)
    decreases |list|
  {
    var n := Ready(list, nxt);
    if n > 0 {
      ReadyStopsAtGap(list[1..], End(list[0]));
      JoinedFront(list, n);
      WrapAdd(nxt + |list[0].data|, |Joined(list[1..][..n - 1])|);
    } else {
      assert list[..0] == [];
    }
  }

  /**
   * In an ordered list whose head is at the base, delivery hands over the data in
   * sequence order and rcv.nxt ends up exactly its total length ahead.
   */
  lemma ReadyAdvancesByData(list: seq<Segment>, nxt: u32)
    requires Ordered(list, nxt)
    ensures var n := Ready(list, nxt);
      Offset(nxt, Advanced(list, n, nxt)) == |Joined(list[..n])| < 0x8000_0000
  {
    var n := Ready(list, nxt);
    ReadyStopsAtGap(list, nxt);
    var len := |Joined(list[..n])|;
    if n > 0 {
      ReadyContiguous(list, nxt, nxt, n);
      assert Fits(nxt, list[n - 1]);
    } else {
      assert list[..0] == [];
    }
    assert Offset(nxt, nxt) == 0;
    OffsetAdd(nxt, nxt, len);
  }

  /**
   * The delivered segments of an ordered list are back to back: the n-th one ends
   * exactly the joined length past where the first one starts.
   */
  lemma {:induction false} ReadyContiguous(list: seq<Segment>, base: u32, x: u32, n: nat)
    requires Ordered(list, base) && 0 < n <= Ready(list, x)
    ensures EndOffset(base, list[n - 1]) == Offset(base, x) + |Joined(list[..n])|
    decreases n
  {
    assert list[0].seqNo == x;
    JoinedFront(list, n);
    if n == 1 {
      assert list[1..][..0] == [];
    } else {
      var rest := list[1..];
      assert Ordered(rest, base) by {
        forall a, b | 0 <= a < b < |rest| ensures EndOffset(base, rest[a]) <= Offset(base, rest[b].seqNo) {
          assert rest[a] == list[a + 1] && rest[b] == list[b + 1];
        }
      }
      EndAt(base, list[0]);
      ReadyContiguous(rest, base, End(list[0]), n - 1);
    }
  }
}
