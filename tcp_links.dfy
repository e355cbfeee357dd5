/**
 * The two connection lists of src/net/tcp.c as pointer chains. tcp_conn_list and
 * free_conn_list thread through the same `next` field of tcp_conn_t; a connection is
 * its address (0 is the null pointer) and `next` maps each connection to the one after
 * it. tcp_find and tcp_poll walk the chain from tcp_conn_list's head.
 */
module TcpLinks {
  import opened Wrappers

  /** The next field of every connection, by address. */
  type Links = map<nat, nat>

  /** The connections met following next from `from`, at most n of them. */
  function Chain(next: Links, from: nat, n: nat): (s: seq<nat>)
    ensures |s| <= n
    decreases n
  {
    if from == 0 || from !in next || n == 0 then [] else [from] + Chain(next, next[from], n - 1)
  }

  /** The first connection of a list, `end` for the empty one. */
  function Start(s: seq<nat>, end: nat): nat
  {
    if s == [] then end else s[0]
  }

  function Head(s: seq<nat>): nat
  {
    Start(s, 0)
  }

  /** Connection a is linked to b: a is not null and its next field is b. */
  predicate Linked(next: Links, a: nat, b: nat)
  {
    a != 0 && a in next && next[a] == b
  }

  /** What follows the k-th connection of `s`: the next one, or `end` after the last. */
  function After(s: seq<nat>, k: nat, end: nat): nat
    requires k < |s|
  {
    if k + 1 < |s| then s[k + 1] else end
  }

  /** The connections of `s` follow each other through next, and the last one's next is `end`. */
  predicate Runs(next: Links, s: seq<nat>, end: nat)
  {
    forall k :: 0 <= k < |s| ==> Linked(next, s[k], After(s, k, end))
  }

  /** The list `s` is threaded through next, ending in the null pointer. */
  predicate Threads(next: Links, s: seq<nat>)
  {
    Runs(next, s, 0)
  }

  predicate Distinct(s: seq<nat>)
  {
    forall a, b :: 0 <= a < b < |s| ==> s[a] != s[b]
  }

  /** Two runs, the first ending where the second starts, make one run. */
  lemma RunsJoin(next: Links, a: seq<nat>, b: seq<nat>, end: nat)
    requires Runs(next, a, Start(b, end)) && Runs(next, b, end)
    ensures Runs(next, a + b, end)
  {
    var s := a + b;
    forall k | 0 <= k < |s| ensures Linked(next, s[k], After(s, k, end)) {
      if k < |a| {
        assert s[k] == a[k] && After(s, k, end) == After(a, k, Start(b, end));
        assert Linked(next, a[k], After(a, k, Start(b, end)));
      } else {
        assert s[k] == b[k - |a|] && After(s, k, end) == After(b, k - |a|, end);
        assert Linked(next, b[k - |a|], After(b, k - |a|, end));
      }
    }
  }

  /** A run splits into two runs, the first ending where the second starts. */
  lemma RunsSplit(next: Links, a: seq<nat>, b: seq<nat>, end: nat)
    requires Runs(next, a + b, end)
    ensures Runs(next, a, Start(b, end)) && Runs(next, b, end)
  {
    var s := a + b;
    forall k | 0 <= k < |a| ensures Linked(next, a[k], After(a, k, Start(b, end))) {
      assert s[k] == a[k] && After(s, k, end) == After(a, k, Start(b, end));
      assert Linked(next, s[k], After(s, k, end));
    }
    forall k | 0 <= k < |b| ensures Linked(next, b[k], After(b, k, end)) {
      assert s[|a| + k] == b[k] && After(s, |a| + k, end) == After(b, k, end);
      assert Linked(next, s[|a| + k], After(s, |a| + k, end));
    }
  }

  /** Changing the next field of a connection outside a run leaves the run as it was. */
  lemma RunsUpdate(next: Links, s: seq<nat>, end: nat, c: nat, v: nat)
    requires Runs(next, s, end) && c !in s
    ensures Runs(next[c := v], s, end)
  {
    forall k | 0 <= k < |s| ensures Linked(next[c := v], s[k], After(s, k, end)) {
      assert s[k] != c && Linked(next, s[k], After(s, k, end));
    }
  }

  /** Walking a threaded list from its head meets its connections in order, and no others. */
  lemma {:induction false} ChainFollows(next: Links, s: seq<nat>, n: nat)
    requires Threads(next, s) && |s| <= n
    ensures Chain(next, Head(s), n) == s
    decreases |s|
  {
    if s != [] {
      RunsSplit(next, [s[0]], s[1..], 0);
      assert [s[0]] + s[1..] == s;
      ChainFollows(next, s[1..], n - 1);
    }
  }

  /** tcp_free as written: the connection is pushed on the free list through its next field, and stays linked. */
  function FreeAsWritten(next: Links, freeHead: nat, c: nat): (r: (Links, nat))
    ensures r.1 == c && c in r.0 && r.0[c] == freeHead
    ensures r.0.Keys == next.Keys + {c}
  {
    (next[c := freeHead], c)
  }

  /**
   * As written, once the i-th connection of tcp_conn_list is freed, the walk from
   * tcp_conn_list goes up to it and then down the free list: the connections after it
   * are no longer met, and the free ones are.
   */
  lemma FreeAsWrittenCuts(next: Links, list: seq<nat>, free: seq<nat>, i: nat, n: nat)
    requires Threads(next, list) && Threads(next, free) && i < |list|
    requires forall k :: 0 <= k < i ==> list[k] != list[i]
    requires list[i] !in free && i + 1 + |free| <= n
    ensures var r := FreeAsWritten(next, Head(free), list[i]);
      Chain(r.0, Head(list), n) == list[..i + 1] + free
  {
    CutRuns(next, list, free, i);
    RegroupedChain(next[list[i] := Head(free)], list, free, i, n);
  }

  /** The walk along a list regrouped around its i-th element. */
  lemma RegroupedChain(next: Links, list: seq<nat>, free: seq<nat>, i: nat, n: nat)
    requires i < |list| && i + 1 + |free| <= n && Threads(next, list[..i] + ([list[i]] + free))
    ensures Chain(next, Head(list), n) == list[..i + 1] + free
  {
    Regroup(list, i, free);
    ChainFollows(next, list[..i + 1] + free, n);
  }

  /** After the write, the connections up to the i-th run on into the free list. */
  lemma CutRuns(next: Links, list: seq<nat>, free: seq<nat>, i: nat)
    requires Threads(next, list) && Threads(next, free) && i < |list|
    requires forall k :: 0 <= k < i ==> list[k] != list[i]
    requires list[i] !in free
    ensures Threads(next[list[i] := Head(free)], list[..i] + ([list[i]] + free))
  {
    var c := list[i];
    var next' := next[c := Head(free)];
    Around(list, i);
    RunsSplit(next, list[..i], [c] + list[i + 1..], 0);
    RunsUpdate(next, list[..i], c, c, Head(free));
    FreeRuns(next, free, c);
    RunsJoin(next', list[..i], [c] + free, 0);
  }

  /** The freed connection, linked to the head of the free list, runs on down it. */
  lemma FreeRuns(next: Links, free: seq<nat>, c: nat)
    requires Threads(next, free) && c !in free && c != 0
    ensures Threads(next[c := Head(free)], [c] + free)
  {
    var next' := next[c := Head(free)];
    RunsUpdate(next, free, 0, c, Head(free));
    assert Runs(next', [c], Start(free, 0));
    RunsJoin(next', [c], free, 0);
  }



  /**
   * With the free list empty, freeing a connection of tcp_conn_list as written makes
   * every connection after it unreachable: tcp_find no longer meets them.
   */
  lemma FreeAsWrittenLosesLater(next: Links, list: seq<nat>, i: nat, j: nat)
    requires Threads(next, list) && Distinct(list) && i < j < |list|
    ensures var r := FreeAsWritten(next, 0, list[i]);
      list[j] !in Chain(r.0, Head(list), |list|)
  {
    FreeAsWrittenCuts(next, list, [], i, |list|);
    assert list[..i + 1] + [] == list[..i + 1];
  }

  /** A list is what comes before its i-th element, that element, and what comes after. */
  lemma Around(list: seq<nat>, i: nat)
    requires i < |list|
    ensures list == list[..i] + ([list[i]] + list[i + 1..])
  {
  }

  /** The first i+1 connections followed by the free list, grouped around the i-th. */
  lemma Regroup(list: seq<nat>, i: nat, free: seq<nat>)
    requires i < |list|
    ensures list[..i] + ([list[i]] + free) == list[..i + 1] + free
    ensures Head(list[..i + 1] + free) == Head(list)
  {
    assert list[..i + 1] == list[..i] + [list[i]];
  }

  /** The links once the predecessor of the i-th connection (if any) takes over its next field. */
  function Bypassed(next: Links, list: seq<nat>, i: nat): Links
    requires i < |list| && list[i] in next
  {
    if i == 0 then next else next[list[i - 1] := next[list[i]]]
  }

  /**
   * tcp_free as it is evidently meant: the i-th connection is taken out of tcp_conn_list
   * (its predecessor, or the head, takes its next) and pushed on the free list. Returns
   * the links and the new heads of both lists.
   */
  function FreeUnlinked(next: Links, list: seq<nat>, i: nat, freeHead: nat): (r: (Links, nat, nat))
    requires i < |list| && list[i] in next
    ensures r.2 == list[i] && list[i] in r.0 && r.0[list[i]] == freeHead
  {
    var c := list[i];
    (Bypassed(next, list, i)[c := freeHead], if i == 0 then next[c] else Head(list), c)
  }

  /**
   * The corrected tcp_free keeps both lists threaded: tcp_conn_list loses exactly the
   * freed connection and the free list gains it at its head, so every other connection
   * is met as before.
   */
  lemma FreeUnlinks(next: Links, list: seq<nat>, free: seq<nat>, i: nat)
    requires Threads(next, list) && Threads(next, free) && Distinct(list) && i < |list|
    requires forall k :: 0 <= k < |list| ==> list[k] !in free
    ensures list[i] in next
    ensures var r := FreeUnlinked(next, list, i, Head(free));
      && Chain(r.0, r.1, |list| - 1) == list[..i] + list[i + 1..]
      && Chain(r.0, r.2, |free| + 1) == [list[i]] + free
  {
    assert Linked(next, list[i], After(list, i, 0));
    UnlinkedList(next, list, i, Head(free));
    UnlinkedFree(next, list, free, i);
  }

  /** The corrected tcp_free, on tcp_conn_list: everything but the freed connection, in order. */
  lemma UnlinkedList(next: Links, list: seq<nat>, i: nat, freeHead: nat)
    requires Threads(next, list) && Distinct(list) && i < |list| && list[i] in next
    ensures var r := FreeUnlinked(next, list, i, freeHead);
      Chain(r.0, r.1, |list| - 1) == list[..i] + list[i + 1..]
  {
    var r := FreeUnlinked(next, list, i, freeHead);
    UnlinkRuns(next, list, i);
    RunsUpdate(Bypassed(next, list, i), list[..i] + list[i + 1..], 0, list[i], freeHead);
    ChainFollows(r.0, list[..i] + list[i + 1..], |list| - 1);
  }

  /** The corrected tcp_free, on free_conn_list: the freed connection, then the free list as it was. */
  lemma UnlinkedFree(next: Links, list: seq<nat>, free: seq<nat>, i: nat)
    requires Threads(next, free) && i < |list| && list[i] in next && list[i] != 0
    requires forall k :: 0 <= k < |list| ==> list[k] !in free
    ensures var r := FreeUnlinked(next, list, i, Head(free));
      Chain(r.0, r.2, |free| + 1) == [list[i]] + free
  {
    RunsNotIn(next, free, list, i);
    FreeRuns(Bypassed(next, list, i), free, list[i]);
    ChainFollows(FreeUnlinked(next, list, i, Head(free)).0, [list[i]] + free, |free| + 1);
  }


  /** Once bypassed, the i-th connection is out of tcp_conn_list and the others still run, from the new head. */
  lemma UnlinkRuns(next: Links, list: seq<nat>, i: nat)
    requires Threads(next, list) && Distinct(list) && i < |list|
    ensures list[i] in next
    ensures list[i] !in list[..i] + list[i + 1..]
    ensures Threads(Bypassed(next, list, i), list[..i] + list[i + 1..])
    ensures Head(list[..i] + list[i + 1..]) == if i == 0 then next[list[i]] else Head(list)
  {
    var c := list[i];
    var before, after := list[..i], list[i + 1..];
    Around(list, i);
    RunsSplit(next, before, [c] + after, 0);
    RunsSplit(next, [c], after, 0);
    assert Linked(next, c, After([c], 0, Start(after, 0)));
    if i == 0 {
      assert before + after == after;
    } else {
      UnlinkLater(next, list, i);
    }
  }

  /** Bypassing a connection that has a predecessor: the predecessor now runs on to what followed it. */
  lemma UnlinkLater(next: Links, list: seq<nat>, i: nat)
    requires 0 < i < |list| && Distinct(list)
    requires Runs(next, list[..i], list[i]) && Runs(next, [list[i]], Start(list[i + 1..], 0)) && Runs(next, list[i + 1..], 0)
    ensures list[i] in next
    ensures Threads(Bypassed(next, list, i), list[..i] + list[i + 1..])
    ensures Head(list[..i] + list[i + 1..]) == Head(list)
  {
    var c, p := list[i], list[i - 1];
    var before, after := list[..i], list[i + 1..];
    assert Linked(next, c, After([c], 0, Start(after, 0)));
    Pieces(list, i);
    RunsSplit(next, before[..i - 1], [p], c);
    Bypass(next, before[..i - 1], p, c, after);
    assert Bypassed(next, list, i) == next[p := next[c]];
  }

  /** The pieces of a list around its i-th element and the one before it. */
  lemma Pieces(list: seq<nat>, i: nat)
    requires 0 < i < |list| && Distinct(list)
    ensures list[..i] == list[..i - 1] + [list[i - 1]]
    ensures list[..i - 1] + ([list[i - 1]] + list[i + 1..]) == list[..i] + list[i + 1..]
    ensures Head(list[..i] + list[i + 1..]) == Head(list)
    ensures list[i - 1] !in list[..i - 1] && list[i - 1] !in list[i + 1..]
  {
    assert list[..i] == list[..i - 1] + [list[i - 1]];
  }

  /** With p linked to c, giving p c's next makes the run up to p go on with what followed c. */
  lemma Bypass(next: Links, front: seq<nat>, p: nat, c: nat, after: seq<nat>)
    requires Runs(next, front, p) && Runs(next, [p], c) && Runs(next, after, 0)
    requires c in next && next[c] == Start(after, 0) && p !in front && p !in after
    ensures Threads(next[p := next[c]], front + ([p] + after))
  {
    var linked := next[p := next[c]];
    RunsUpdate(next, front, p, p, next[c]);
    RunsUpdate(next, after, 0, p, next[c]);
    assert Linked(next, p, After([p], 0, c));
    assert Runs(linked, [p], Start(after, 0)) by {
      assert Linked(linked, p, After([p], 0, Start(after, 0)));
    }
    RunsJoin(linked, [p], after, 0);
    RunsJoin(linked, front, [p] + after, 0);
  }

  /** The free list still runs once the predecessor of the i-th connection has a new next field. */
  lemma RunsNotIn(next: Links, free: seq<nat>, list: seq<nat>, i: nat)
    requires Threads(next, free) && i < |list| && list[i] in next
    requires forall k :: 0 <= k < |list| ==> list[k] !in free
    ensures Threads(Bypassed(next, list, i), free) && list[i] !in free
  {
    if i > 0 {
      assert list[i - 1] !in free;
      RunsUpdate(next, free, 0, list[i - 1], next[list[i]]);
    }
  }

  /**
   * tcp_alloc: the head of the free list is taken and the free list goes on from its
   * next; None when the free list is empty and a fresh page is taken instead.
   */
  function Alloc(next: Links, freeHead: nat): (r: Option<(nat, nat)>)
  {
    if freeHead != 0 && freeHead in next then Some((freeHead, next[freeHead])) else None
  }

  /** Taking from a threaded free list leaves the rest of it threaded. */
  lemma AllocPops(next: Links, free: seq<nat>)
    requires Threads(next, free) && free != []
    ensures Alloc(next, Head(free)) == Some((free[0], Head(free[1..])))
    ensures Threads(next, free[1..])
  {
    RunsSplit(next, [free[0]], free[1..], 0);
    assert [free[0]] + free[1..] == free;
  }


  /** tcp_connect: the new connection is pushed at the head of tcp_conn_list. */
  function Push(next: Links, listHead: nat, c: nat): (r: (Links, nat))
    ensures r.1 == c && c in r.0 && r.0[c] == listHead
  {
    (next[c := listHead], c)
  }

  /** Pushing a connection not yet in tcp_conn_list puts it first, and the rest follows unchanged. */
  lemma PushThreads(next: Links, list: seq<nat>, c: nat)
    requires Threads(next, list) && c != 0 && c !in list
    ensures var r := Push(next, Head(list), c);
      Chain(r.0, r.1, |list| + 1) == [c] + list
  {
    var r := Push(next, Head(list), c);
    RunsUpdate(next, list, 0, c, Head(list));
    assert Runs(r.0, [c], Start(list, 0));
    RunsJoin(r.0, [c], list, 0);
    ChainFollows(r.0, [c] + list, |list| + 1);
  }

}
