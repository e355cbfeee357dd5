/**
 * The routing table of src/net/route.c: a doubly linked list of routes, here the
 * sequence `routes` in next-order. An IPv4 address or mask is the uint32_t the kernel
 * loads from the four network-order bytes, so masks are compared in that
 * little-endian reading.
 */
module Route {
  import opened Wrappers
  import opened CInt
  import opened Intf

  /** One route: destination network, mask, gateway (0 for none) and outgoing interface. */
  datatype Route = Route(dst: u32, mask: u32, gateway: u32, intf: Interface)

  /** The test net_find_route applies to each node it looks at. */
  predicate Matches(r: Route, dst: u32)
  {
    And32(dst, r.mask) == r.dst
  }

  /**
   * Where net_add_route's walk, started at node `i`, stops: the first node from there,
   * other than the tail, whose mask exceeds the new one, or else the tail. The new
   * route goes right after it.
   */
  function InsertAfter(routes: seq<Route>, mask: u32, i: nat): (k: nat)
    requires i < |routes|
    ensures i <= k < |routes|
    decreases |routes| - i
  {
    if i == |routes| - 1 || routes[i].mask > mask then i
    else InsertAfter(routes, mask, i + 1)
  }

  /** The walk passes only nodes whose mask does not exceed the new one. */
  lemma {:induction false} InsertAfterFacts(routes: seq<Route>, mask: u32, i: nat)
    requires i < |routes|
    ensures var k := InsertAfter(routes, mask, i);
      (forall j :: i <= j < k ==> routes[j].mask <= mask) &&
      (k < |routes| - 1 ==> routes[k].mask > mask)
    decreases |routes| - i
  {
    if i < |routes| - 1 && routes[i].mask <= mask {
      InsertAfterFacts(routes, mask, i + 1);
    }
  }

  /** The first node, among the first `limit`, that matches `dst`. */
  function FirstMatch(routes: seq<Route>, dst: u32, limit: nat): (r: Option<nat>)
    requires limit <= |routes|
    ensures r.Some? ==> r.value < limit && Matches(routes[r.value], dst)
    ensures r.Some? ==> forall j :: 0 <= j < r.value ==> !Matches(routes[j], dst)
    ensures r.None? ==> forall j :: 0 <= j < limit ==> !Matches(routes[j], dst)
  {
    if limit == 0 then None
    else
      var r := FirstMatch(routes, dst, limit - 1);
      if r.Some? then r
      else if Matches(routes[limit - 1], dst) then Some(limit - 1)
      else None
  }

  /** net_next_addr: the gateway when the route has one, else the destination itself. */
  function NextAddr(r: Route, dst: u32): (next: u32)
    ensures r.gateway != 0 ==> next == r.gateway
    ensures r.gateway == 0 ==> next == dst
  {
    if r.gateway != 0 then r.gateway else dst
  }

  class RouteTable {
    var routes: seq<Route>

    constructor ()
      ensures routes == []
    {
      routes := [];
    }

    /**
     * net_add_route: the first route becomes the only node; a later one is spliced in
     * right after the first non-tail node whose mask exceeds its own, or after the tail.
     */
    method AddRoute(r: Route)
      modifies this
      ensures routes == Inserted(old(routes), r)
    {
      if routes == [] {
        routes := [r];
        return;
      }
      var prev := 0;
      while prev + 1 < |routes|
        invariant prev < |routes|
        invariant forall j :: 0 <= j < prev ==> routes[j].mask <= r.mask
        invariant InsertAfter(routes, r.mask, prev) == InsertAfter(routes, r.mask, 0)
      {
        if routes[prev].mask > r.mask {
          break;
        }
        prev := prev + 1;
      }
      routes := routes[..prev + 1] + [r] + routes[prev + 1..];
    }

    /**
     * net_find_route as written: the loop runs while the current node has a successor,
     * so the tail is never tested. On an empty list the C dereferences a null pointer,
     * hence the precondition.
     */
    method FindRouteAsWritten(dst: u32) returns (found: Option<nat>)
      requires routes != []
      ensures found == FirstMatch(routes, dst, |routes| - 1)
    {
      var i := 0;
      while i + 1 < |routes|
        invariant i < |routes| && FirstMatch(routes, dst, i) == None
      {
        if Matches(routes[i], dst) {
          return Some(i);
        }
        i := i + 1;
      }
      return None;
    }

    /** net_find_route as intended: every node is tested, and an empty table finds nothing. */
    method FindRoute(dst: u32) returns (found: Option<nat>)
      ensures found == FirstMatch(routes, dst, |routes|)
    {
      var i := 0;
      while i < |routes|
        invariant i <= |routes| && FirstMatch(routes, dst, i) == None
      {
        if Matches(routes[i], dst) {
          return Some(i);
        }
        i := i + 1;
      }
      return None;
    }
  }

  /**
   * The list net_add_route leaves: `r` alone, or spliced in right after the node its
   * walk stops at.
   */
  function Inserted(routes: seq<Route>, r: Route): seq<Route>
  {
    if routes == [] then [r]
    else
      var k := InsertAfter(routes, r.mask, 0);
      routes[..k + 1] + [r] + routes[k + 1..]
  }

  /**
   * The splice keeps every old route, in order, and adds exactly the new one, which no
   * node before it outranks by mask unless that node is the first.
   */
  lemma AddRouteKeepsOrder(routes: seq<Route>, r: Route)
    ensures var added := Inserted(routes, r);
      |added| == |routes| + 1 && multiset(added) == multiset(routes) + multiset{r} &&
      exists k :: 0 <= k < |added| && added[k] == r && added[..k] + added[k + 1..] == routes
  {
    if routes == [] {
      assert Inserted(routes, r)[..0] + Inserted(routes, r)[1..] == routes;
    } else {
      var k := InsertAfter(routes, r.mask, 0);
      var added := routes[..k + 1] + [r] + routes[k + 1..];
      assert added[..k + 1] == routes[..k + 1];
      assert added[k + 2..] == routes[k + 1..];
      assert routes == routes[..k + 1] + routes[k + 1..];
    }
  }

  /**
   * With a single default route (0.0.0.0/0), every destination matches, yet the lookup
   * as written finds nothing, because it never tests the last node.
   */
  lemma DefaultRouteMissed(gateway: u32, intf: Interface, dst: u32)
    ensures var table := [Route(0, 0, gateway, intf)];
      Matches(table[0], dst) && FirstMatch(table, dst, |table| - 1).None? &&
      FirstMatch(table, dst, |table|) == Some(0)
  {
    AndZero(dst);
  }

  /** The lookup as written agrees with the corrected one except when only the tail matches. */
  lemma AsWrittenMissesOnlyTail(routes: seq<Route>, dst: u32)
    requires routes != []
    ensures FirstMatch(routes, dst, |routes| - 1) != FirstMatch(routes, dst, |routes|) <==>
      (forall j :: 0 <= j < |routes| - 1 ==> !Matches(routes[j], dst)) && Matches(routes[|routes| - 1], dst)
  {
  }
}
