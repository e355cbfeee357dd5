/**
 * Link-layer constants shared by the network modules: the null and broadcast MAC
 * addresses of src/net/addr.c and the EtherType values of src/net/eth.h.
 */
module NetConsts {
  import opened CInt

  const ETH_NULL: seq<byte> := [0, 0, 0, 0, 0, 0]
  const ETH_BROADCAST: seq<byte> := [0xFF, 0xFF, 0xFF, 0xFF, 0xFF, 0xFF]
  /** 255.255.255.255, the limited broadcast address. */
  const IPV4_BROADCAST: u32 := 0xFFFF_FFFF

  const ET_IPV4: u16 := 0x0800
  const ET_ARP: u16 := 0x0806
  const ET_IPV6: u16 := 0x86DD
}
