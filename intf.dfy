/**
 * The network interfaces of src/net/intf.c: each interface lives in a zeroed frame
 * from the allocator, and the interfaces form a list in the order they were added,
 * here the sequence `list` (head first, `net_intf_last` being its last element).
 */
module Intf {
  import opened CInt
  import opened FrameAllocator

  class Interface {
    /** Address of the frame that holds the interface. */
    const address: u32
    var ethAddr: seq<byte>
    var ipAddr: u32
    var broadcastAddr: u32
    var name: seq<char>

    /** The all-zero interface net_intf_create leaves after its memset. */
    constructor (address: u32)
      ensures this.address == address && ethAddr == [0, 0, 0, 0, 0, 0]
      ensures ipAddr == 0 && broadcastAddr == 0 && name == []
    {
      this.address := address;
      ethAddr := [0, 0, 0, 0, 0, 0];
      ipAddr := 0;
      broadcastAddr := 0;
      name := [];
    }
  }

  /** net_intf_create: a new frame from the allocator, zeroed. */
  method Create(pfa: Allocator) returns (intf: Interface)
    requires pfa.Valid()
    modifies pfa, pfa.buffer
    ensures pfa.Valid() && fresh(intf)
    ensures (pfa.State(), intf.address) == Requested(old(pfa.State()))
    ensures intf.ethAddr == [0, 0, 0, 0, 0, 0] && intf.ipAddr == 0 && intf.broadcastAddr == 0
  {
    var address := pfa.RequestPage();
    intf := new Interface(address);
  }

  class InterfaceList {
    var list: seq<Interface>

    constructor ()
      ensures list == []
    {
      list := [];
    }

    /**
     * net_intf_add: the first interface becomes both head and last; a later one is
     * linked after the last and becomes the last.
     */
    method Add(intf: Interface)
      modifies this
      ensures list == old(list) + [intf]
      ensures list[0] == (if old(list) == [] then intf else old(list[0]))
      ensures list[|list| - 1] == intf
    {
      list := list + [intf];
    }
  }

  /** Traversal in next-order meets the interfaces in the order they were added. */
  lemma {:induction false} AddOrder(adds: seq<Interface>)
    ensures ListAfter([], adds) == adds
  {
    AddedFrom([], adds);
  }

  /** The list after adding `adds`, one at a time, to `list`. */
  function ListAfter(list: seq<Interface>, adds: seq<Interface>): (r: seq<Interface>)
    ensures |r| == |list| + |adds|
    decreases |adds|
  {
    if adds == [] then list else ListAfter(list + [adds[0]], adds[1..])
  }

  lemma {:induction false} AddedFrom(list: seq<Interface>, adds: seq<Interface>)
    ensures ListAfter(list, adds) == list + adds
    decreases |adds|
  {
    if adds != [] {
      AddedFrom(list + [adds[0]], adds[1..]);
      assert list + [adds[0]] + adds[1..] == list + adds;
    }
  }
}
