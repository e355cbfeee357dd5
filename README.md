# MishaOS core, modelled in Dafny

MishaOS is a hobby x86 kernel. This project models its sequential core in Dafny and proves properties of that model. The core covers the physical frame allocator and the page tables, the kernel heap and the packet-buffer pool. On the network side it covers the Internet checksum, Ethernet, ARP, IPv4, UDP, ICMP echo, the DHCP client, the DNS resolver, the route list, the ephemeral ports and TCP (its wire format, its state machine and its resequencing list). It also covers the Minecraft-protocol codecs, the process queues and file-descriptor lists, date arithmetic and format_time, the CMOS clock's BCD conversions, the initrd file system and the path walk of open, GDT, TSS and IDT descriptors, the TGA decoder, PS/2 mouse packets, and the string and number routines of the kernel and of the boot loader.

There is one module per C file. It is named after the file's subject (`FrameAllocator` and `PageTable` for src/cpu/paging.c, `Heap` for src/sys/heap.c, `Tcp`, `TcpMachine`, `TcpConn`, `TcpResequence`, `TcpLinks` and `TcpFacts` for src/net/tcp.c, and so on). Each module follows the form of its source:

- Code that updates state in place becomes a class whose fields are that state. This covers the frame bitmap, the heap's segment list, the buffer pool, the ARP cache, the route list, the scheduler's queues, the CMOS registers, the TCP connections and the receive buffer of the Minecraft protocol.
- Each method of such a class is proved against a specification function on values.
- Pure encoders and decoders become functions, with lemmas for their round trips and invariants.
- Fixed-width C integers are Dafny integers restricted to their range. Wrap-around (`% 2^32`), C's truncating division and byte order are written out explicitly in the `CInt` module.
- Callbacks, device sends and terminal output become returned effect values, or event lists the state records. Examples are a TCP connection's `on_data` and `on_connect`, an interface's send function, a DNS callback and `net_free_buf`.
- The clock (`pit_get_ticks`) and the CMOS's register reads are parameters.

Where the C code does something its authors evidently did not intend, the model keeps two versions, as listed under "## Findings". One member models the code as written, with a lemma that exhibits the discrepancy on a concrete input. A corrected member proves the intended property, and the rest of the model uses the corrected one.


## Model

| member | source | states |
|---|---|---|
| Port.Issued | src/net/port.c:5-11 | the port returned is never 0: a zero counter is bumped to 1 first |
| Port.IssuedRun | src/net/port.c:5-11 | the ports that n consecutive calls return, one per call |
| Port.RunConsecutive | src/net/port.c:5-11 | until the 16-bit counter wraps, consecutive calls return consecutive ports |
| Port.RunDistinct | src/net/port.c:3-11 | the 16384 calls from the initial 49152 return distinct ports 49152..65535 |
| Port.WrapSkipsZero | src/net/port.c:6-10 | after 65535 the counter wraps to 0, which is skipped: the next port is 1 |
| Port.PortCounter.Next | src/net/port.c:5-11 | returns the counter bumped past 0 and leaves it one higher, modulo 2^16 |
| Intf.Create | src/net/intf.c:9-13 | a fresh frame taken from the page allocator, with the Ethernet, IP and broadcast addresses zero |
| Intf.InterfaceList.Add | src/net/intf.c:15-24 | the first interface becomes head and last; a later one is linked after the last and becomes the last; the list grows by exactly that interface |
| Intf.AddOrder | src/net/intf.c:15-24 | following next from the head meets the interfaces in the order they were added |
| Intf.ListAfter | src/net/intf.c:15-24 | the list after a run of additions holds one entry per interface added |
| Intf.AddedFrom | src/net/intf.c:15-24 | adding one more interface appends it to the list of earlier additions |
| Idt.TypeAttributes | src/idt.c:7 | the attribute byte is 0x80 plus the privilege level times 32 plus the gate type, below 256 |
| Idt.TypeAttributesFields | src/idt.c:7 | the present bit, privilege level (dpl & 3) and gate type (gate_type & 0xF) read back from the byte, bit 4 clear |
| Idt.AttributeBits | src/idt.c:7 | the three fields read back from their arithmetic sum |
| Idt.GateDescriptor.Encode | src/idt.c:3-9 | the low and high halves of the offset, the selector, a zero byte and the attributes; the handler address reads back as offset |
| Idt.KernelGate | src/idt.c:7 | selector 0x08, privilege 0 and type 0xE give the attribute byte 0x8E |
| Checksum.SumWordsBound | src/net/checksum.c:7-20 | the words summed are at most 0xFFFF each, so the sum is at most 0xFFFF per word |
| Checksum.SumWordsAppend | src/net/checksum.c:7-20 | summing an even-length prefix and the rest separately gives the same total |
| Checksum.SumWordsSwap | src/net/checksum.c:7-20 | the sum does not depend on the order of whole-word blocks |
| Checksum.Update | src/net/checksum.c:7-20 | the result is sum plus every 16-bit word of data, a trailing odd byte alone, wrapped to 32 bits |
| Checksum.UpdateStep | src/net/checksum.c:10-13 | one turn of the word loop keeps the wrapped total still to come |
| Checksum.FoldFacts | src/net/checksum.c:22-23 | the two carry folds keep the sum modulo 0xFFFF, and the folded value is 0 exactly when the sum is 0 |
| Checksum.FoldOfMultiple | src/net/checksum.c:22-26 | a positive multiple of 0xFFFF folds to 0xFFFF, whose complement is 0 |
| Checksum.Compute | src/net/checksum.c:3-5 | the checksum is the final form of the update of data from 0 |
| Checksum.Patched | src/net/icmp.c:65-67 | writing a 16-bit field changes exactly those two bytes |
| Checksum.SumWordsPatched | src/net/checksum.c:7-20 | writing a word-aligned field changes the sum by the new word minus the old |
| Checksum.FoldWithComplement | src/net/checksum.c:21-27 | a sum plus the complement of its fold folds to 0xFFFF |
| Checksum.SelfCheck | src/net/checksum.c:3-27 | a message whose zeroed, word-aligned checksum field is filled with its checksum in the kernel's byte order checks to 0 (RFC 1071, section 1) |
| NetBuf.Buf.Payload | src/net/buf.c:21-22 | the packet is the end - start bytes between the two pointers |
| NetBuf.Buf.Prepend | src/net/eth.c:95-100 | start moves back over the header, which now leads the packet; end is unchanged |
| NetBuf.Buf.Append | src/net/icmp.c:62-63 | the bytes are copied at end, which moves past them; start is unchanged |
| NetBuf.Buf.Patch | src/net/ipv4.c:79 | a 16-bit field of the packet in place is overwritten, nothing else |
| NetBuf.Buf.Narrow | src/net/ipv4.c:40-41 | the packet becomes the given slice of itself: start moves forward, end is set from start |
| NetBuf.Pool.Alloc | src/net/buf.c:10-27 | the freelist head is reused, else a new frame is requested; either way one reference, an empty packet at offset 256, the counter one higher |
| NetBuf.Pool.AllocFresh | src/net/buf.c:13-14 | an empty freelist: a fresh frame from the page allocator becomes the buffer |
| NetBuf.Pool.TakeFree | src/net/buf.c:15-18 | a nonempty freelist: its head is unlinked and reset |
| NetBuf.Pool.Release | src/net/buf.c:29-35 | one reference is dropped; the last one puts the buffer at the freelist head and lowers the counter, otherwise nothing else changes |
| Eth.Decode | src/net/eth.c:10-36 | a frame is refused exactly when it is shorter than the 14-byte header, or carries a length field (<= 1500) with room for the 22-byte SNAP header but DSAP/SSAP other than 0xAA; an accepted header fits in the frame |
| Eth.Header | src/net/eth.c:95-100 | the header written before a send is 14 bytes |
| Eth.DecodeHeader | src/net/eth.c:10-36 | decoding a header written with an EtherType (> 1500) gives back that EtherType and length 14 |
| Eth.DecodeSnap | src/net/eth.c:20-29 | a length-field header followed by an 0xAA/0xAA LLC header decodes to the SNAP EtherType at bytes 20-21 and length 22 |
| Eth.Recv | src/net/eth.c:38-61 | a frame that does not decode is dropped untouched; otherwise start moves past the header and the packet goes to ARP, IPv4 or the IPv6 notice according to the EtherType |
| Eth.IpDestResolvedOrPending | src/net/eth.c:71-84 | an IPv4 destination either has a link address (broadcast, or the ARP cache entry) or the packet waits for ARP, never both |
| Eth.IntfSend | src/net/eth.c:63-104 | with a link address the 14-byte header is prepended and the device sends; an unresolved IPv4 destination goes to an ARP request with the packet; otherwise the packet is dropped unchanged |
| Icmp.Unsealed | src/net/icmp.c:111-120 | the echo message before its checksum: 8 header bytes then the data |
| Icmp.Echo | src/net/icmp.c:107-124 | the echo message with its checksum: 8 header bytes then the data |
| Icmp.EchoFields | src/net/icmp.c:111-124 | the message carries the type, code 0, the identifier and sequence number big-endian, the data, and checks to 0 |
| Icmp.SendEcho | src/net/icmp.c:107-128 | a newly allocated buffer holds the echo message, and the IPv4 send routes it by the table |
| Icmp.NewEcho | src/net/icmp.c:107-124 | a newly allocated buffer (fresh or the freelist head) holding exactly the echo message |
| Icmp.WriteEcho | src/net/icmp.c:110-124 | the empty buffer is filled with the echo message |
| Icmp.Recv | src/net/icmp.c:73-105 | a message shorter than 8 bytes or of another type is ignored; an echo reply is only logged; an echo request is answered by a new echo reply to the sender with the same identifier, sequence number and data |
| Icmp.ReplyEchoesRequest | src/net/icmp.c:82-92 | the reply built from a request's fields is an echo reply with the request's identifier, sequence number and data, and checks to 0 |
| Udp.Recv | src/net/udp.c:13-37 | a packet shorter than the 8-byte header is dropped; otherwise start moves past the header and the packet goes to DNS, DHCP or NTP by its source port |
| Udp.Segment | src/net/udp.c:39-45 | the datagram: 8 header bytes then the payload |
| Udp.SegmentFields | src/net/udp.c:40-45 | the header holds the ports truncated to 16 bits, the length of the whole datagram and a zero checksum, followed by the payload |
| Udp.SegmentReachesService | src/net/udp.c:21-35 | a datagram sent from a port is handed on receipt to the service of that port, with the payload intact |
| Udp.Send | src/net/udp.c:39-50 | the UDP header is prepended and the datagram goes through the routed IPv4 send |
| Udp.IntfSend | src/net/udp.c:52-63 | the UDP header is prepended and the datagram is sent on the given interface with the destination as next hop |
| Udp.WriteHeader | src/net/udp.c:40-45 | start moves back 8 bytes over the UDP header, which leads the payload |
| Ipv4.HeaderBytes | src/net/ipv4.c:66-79 | a header is 20 bytes |
| Ipv4.ParseHeaderBytes | src/net/ipv4.c:66-79 | parsing the bytes of a header gives it back |
| Ipv4.Accepts | src/net/ipv4.c:14-41 | a packet is accepted exactly when it holds 20 header bytes, has version 4, no fragment offset, a total length within the packet, and a header length of at least 5 words that fits in the total length |
| Ipv4.LongIhlPassesAsWritten | src/net/ipv4.c:33-41 | a header with IHL 15 and total length 20 passes the checks as written and moves start 60 bytes past a 20-byte end; the corrected check refuses it |
| Ipv4.Recv | src/net/ipv4.c:14-55 | a refused packet is dropped untouched; an accepted one is narrowed to [IHL*4, total length) and handed to ICMP, TCP or UDP by its protocol |
| Ipv4.Datagram | src/net/ipv4.c:65-80 | the datagram: a 20-byte header then the payload |
| Ipv4.SealedBytes | src/net/ipv4.c:76-79 | the header with its checksum is the zero-checksum header with the checksum stored big-endian at byte 10 |
| Ipv4.DatagramHeader | src/net/ipv4.c:65-80 | the header sent has version 4, IHL 5, TTL 64, no fragment, the whole length, the protocol, the interface address as source and the destination; it checks to 0 |
| Ipv4.DatagramAccepted | src/net/ipv4.c:14-41 | a datagram the kernel sends is accepted by its own receive path, with the same protocol, addresses and payload |
| Ipv4.IntfSend | src/net/ipv4.c:65-84 | the IPv4 header is prepended to the packet and it is handed to the interface for the next hop |
| Ipv4.Hop | src/net/ipv4.c:57-63 | there is a next hop exactly when some route in the table matches the destination |
| Ipv4.Send | src/net/ipv4.c:57-63 | the packet is sent on the first matching route's interface to its next hop; with no route nothing is written |
| Route.InsertAfter | src/net/route.c:34-39 | the node after which a new route goes lies in the list |
| Route.InsertAfterFacts | src/net/route.c:34-39 | the walk passes only routes whose mask is at most the new mask, and stops at a route with a larger mask unless it reached the last node |
| Route.FirstMatch | src/net/route.c:9-17 | the result is the first route, among the first limit, whose masked destination matches; none means no such route matches |
| Route.NextAddr | src/net/route.c:51-53 | the gateway when it is nonzero, otherwise the destination itself |
| Route.RouteTable.AddRoute | src/net/route.c:19-49 | the first route becomes the list; a later one is linked in after the node the mask walk stops at |
| Route.RouteTable.FindRouteAsWritten | src/net/route.c:9-17 | the lookup as written: the first match among all routes but the last |
| Route.RouteTable.FindRoute | src/net/route.c:9-17 | the corrected lookup: the first match among all routes |
| Route.AddRouteKeepsOrder | src/net/route.c:19-49 | adding a route keeps every route present and inserts exactly the new one, somewhere in the list |
| Route.DefaultRouteMissed | src/net/route.c:10 | a table holding only a default route matches every destination, yet the lookup as written finds nothing and the corrected one finds it |
| Route.AsWrittenMissesOnlyTail | src/net/route.c:10-16 | the lookup as written differs from the corrected one exactly when the only matching route is the last node |
| Arp.Message | src/net/arp.c:66-84 | the message arp_send builds is 28 bytes |
| Arp.Parse | src/net/arp.c:158-176 | a message is read exactly when it holds 28 bytes with hardware type Ethernet and protocol type IPv4; the sender's hardware address is 6 bytes |
| Arp.ParseMessage | src/net/arp.c:66-84 | reading back a message arp_send builds gives its operation, sender addresses and target protocol address |
| Arp.Lookup | src/net/arp.c:90-100 | the first cache slot holding the protocol address, or none when no slot holds it |
| Arp.Added | src/net/arp.c:102-119 | the cache keeps its 16 slots and the returned slot holds the new hardware and protocol address |
| Arp.AddedThenFound | src/net/arp.c:102-119 | an address not yet cached is found, after it is added, in the slot the addition returned |
| Arp.AddedEvictsOldest | src/net/arp.c:111-114 | with every slot in use the cache shifts down one slot and the new entry takes the last slot |
| Arp.AddedConsistent | src/net/arp.c:102-119 | adding keeps every slot's hardware address 6 bytes long |
| Arp.LookupFirst | src/net/arp.c:90-100 | the first slot holding an address is the one the lookup returns |
| Arp.Requested | src/net/arp.c:138-152 | a request keeps the cache at 16 slots |
| Arp.RequestedPending | src/net/arp.c:138-152 | after a request the target address is cached with the waiting packet and interface; a packet already waiting there is freed; the last effect is a broadcast ARP request for the target |
| Arp.Refreshed | src/net/arp.c:178-191 | merging a sender keeps the cache at 16 slots, every hardware address 6 bytes |
| Arp.FullCacheRequestFreesShared | src/net/arp.c:111-114 | when a full cache evicts for a request, the packet pointer of the old last slot is freed yet also stays in slot 14 after the shift |
| Arp.Received | src/net/arp.c:158-202 | receiving keeps the cache at 16 slots |
| Arp.ReceivedMalformed | src/net/arp.c:160-172 | a short message or one with other hardware or protocol types changes nothing and sends nothing |
| Arp.ReceivedLearnsSender | src/net/arp.c:178-201 | a message to this interface leaves the sender's address cached with its hardware address, a merged entry without a waiting packet, and a reply goes out exactly for a request |
| Arp.ReceivedResendsOnce | src/net/arp.c:179-191 | a known sender with a waiting packet has it resent first, and nothing else is resent |
| Arp.ArpCache.Init | src/net/arp.c:121-127 | every slot's hardware and protocol address is cleared, the rest kept |
| Arp.ArpCache.LookupEntry | src/net/arp.c:90-100 | the loop finds the slot Lookup names |
| Arp.ArpCache.LookupEthAddr | src/net/arp.c:129-136 | the hardware address of the slot holding the address, or none |
| Arp.ArpCache.Add | src/net/arp.c:102-119 | the cache and slot become those of Added |
| Arp.ArpCache.Shift | src/net/arp.c:112 | slots 1..15 move down one, the last slot is kept |
| Arp.ArpCache.Request | src/net/arp.c:138-152 | the cache and effects become those of Requested |
| Arp.ArpCache.Refresh | src/net/arp.c:178-191 | merge is set exactly when the sender is cached; the cache and effects become those of Refreshed |
| Arp.ArpCache.Recv | src/net/arp.c:158-202 | the cache and effects become those of Received |
| Addr.FieldChars | src/net/addr.c:13-18 | an octet is written with letters and digits only, never a NUL or a separator |
| Addr.FieldLength | src/net/addr.c:14-18 | a hex octet takes 2 characters (a '0' is put before values below 0x10), a decimal one 1 to 3 |
| Addr.Joined | src/net/addr.c:12-34 | the text of n octets, each followed by its separator: 3 characters each in hex, 2 to 4 in decimal |
| Addr.AddrText | src/net/addr.c:12-34 | the address text is the joined octets with the last separator taken back |
| Addr.PutField | src/net/addr.c:18 | one octet's digits and a NUL are written at pos, the rest of the buffer kept |
| Addr.PutSeparated | src/net/addr.c:18-19 | one octet's digits and its separator are written at pos (the corrected itoa returning at the NUL) |
| Addr.Join | src/net/addr.c:12-34 | the corrected loop: the buffer holds the address text and a NUL at at, and the returned end is that NUL |
| Addr.JoinFields | src/net/addr.c:13-20 | the loop writes every octet with its separator, nothing else changes |
| Addr.Stuck | src/net/addr.c:13-20 | the text the loop writes as written: each octet's digits, a NUL, then the separator, one place later |
| Addr.StuckEnds | src/net/addr.c:18-19 | that text starts with the first octet followed by a NUL and ends with a separator |
| Addr.JoinAsWritten | src/net/addr.c:12-34 | the loop as written, with the kernel itoa that returns one past the NUL: the buffer holds the stuck text, and as a C string it reads only the first octet |
| Addr.StuckFields | src/net/addr.c:13-20 | the loop as written writes every octet, its NUL and its separator |
| Addr.AsWrittenDropsOctets | src/net/addr.c:12-34 | for two or more octets the C string the loop leaves is shorter than the address text |
| Addr.Ethtoa | src/net/addr.c:12-24 | six hex octets joined by ':' (17 characters) and a NUL; the end returned is that NUL |
| Addr.Ip4toa | src/net/addr.c:26-34 | four decimal octets joined by '.' (7 to 15 characters) and a NUL; the end returned is that NUL |
| Addr.Ip4ptoa | src/net/addr.c:36-40 | the address text, ':', the port in decimal and a NUL; the end returned is one past that NUL |
| Addr.PortText | src/net/addr.c:36-40 | the address and port text fits in 21 characters |
| Addr.PortLength | src/net/addr.c:39 | a 16-bit port takes at most 5 decimal digits |
| Addr.Octets | src/net/addr.c:42-56 | what atoip4 stores from octet i on: always four octets, and whether it reached the fourth |
| Addr.OctetsStep | src/net/addr.c:43-55 | one turn of the loop: the octet is the parsed decimal value truncated to 8 bits; after the fourth it succeeds; no '.' within 4 characters fails; otherwise it goes on after the '.' |
| Addr.Atoip4 | src/net/addr.c:42-56 | the address bytes and the result are those Octets describes |
| Addr.ReadOctet | src/net/addr.c:44-54 | one turn of the loop, stopping with the result or moving past the '.' |
| Addr.Endpoint | src/net/addr.c:58-69 | atoip4p: four octets, and the port changes only on success |
| Addr.EndpointCases | src/net/addr.c:58-69 | a bad address fails with the port kept; no ':' within 16 characters of the start fails with the port kept; otherwise the port is the decimal value after the ':' truncated to 16 bits |
| Addr.Atoip4p | src/net/addr.c:58-69 | the address, port and result are those Endpoint describes |
| Addr.ReadPort | src/net/addr.c:63-68 | no ':' in the first 16 characters fails with the port kept; otherwise the port is the parsed value after it |
| Addr.AddrTextOctets | src/net/addr.c:26-34 | the address text is the four octets joined by '.' |
| Addr.OctetsChars | src/net/addr.c:26-34 | the address text holds no NUL and no ':' |
| Addr.ParseOctet | src/net/addr.c:44 | parsing an octet's decimal text up to a '.', a ':' or the end gives the octet back |
| Addr.OctetsRoundTrip | src/net/addr.c:42-56 | reading the text of octets i..3 followed by a NUL or ':' stores those octets and succeeds |
| Addr.Atoip4InvertsIp4toa | src/net/addr.c:26-56 | atoip4 reads back every address ip4toa writes, and succeeds |
| Addr.Atoip4pInvertsIp4ptoa | src/net/addr.c:36-69 | atoip4p reads back every address and port ip4ptoa writes, and succeeds |
| Addr.EndpointRead | src/net/addr.c:58-69 | an address read in full and a port after the first ':' give success with both |
| Strings.Len | src/lib/string.c:3-10 | the length of a C string is the index of its first NUL |
| Strings.Text | src/lib/string.c:3-10 | the characters before the first NUL, which they do not contain |
| Strings.TextOf | src/lib/string.c:3-10 | characters without a NUL followed by a NUL are the text of the buffer |
| Strings.Strlen | src/lib/string.c:3-10 | the loop returns the index of the first NUL at or after the start |
| Strings.Compare | src/lib/string.c:74-86 | memcmp's result is -1, 0 or 1, and 0 exactly when the bytes are equal |
| Strings.CompareAntisymmetric | src/lib/string.c:74-86 | swapping the operands negates the result |
| Strings.CompareLess | src/lib/string.c:74-86 | -1 exactly when the first differing byte of the first operand is the smaller |
| Strings.Memcmp | src/lib/string.c:74-86 | the loop returns Compare of the first size bytes |
| Strings.StrCompare | src/lib/string.c:110-122 | strcmp's result is -1, 0 or 1, and 0 exactly when the texts are equal |
| Strings.StrCompareAntisymmetric | src/lib/string.c:110-122 | swapping the strings negates the result |
| Strings.StrComparePrefix | src/lib/string.c:110-122 | a proper prefix compares below the longer string (its NUL is the smaller byte) |
| Strings.Strcmp | src/lib/string.c:110-122 | the loop returns StrCompare of the two texts |
| Strings.Scan | src/lib/string.c:88-98 | the first index below the limit holding the character, met before any NUL; none when a NUL or the limit comes first |
| Strings.StrchrFinds | src/lib/string.c:100-108 | strchr finds the character exactly when it occurs in the text or is the NUL itself, and then at its first occurrence; NUL is found at the end of the text |
| Strings.ScanReaches | src/lib/string.c:88-98 | a character at m with no match and no NUL before it is what the scan returns |
| Strings.StrchrWithin | src/lib/string.c:88-98 | _strchr returns the Scan result within the limit |
| Strings.Strchr | src/lib/string.c:100-108 | strchr returns the Scan result over the whole buffer |
| Strings.FirstMatch | src/lib/string.c:36-72 | the first position from from to last where the needle matches, none when no position there matches |
| Strings.ProbeAt | src/lib/string.c:40-47 | the inner loop of strstr: a match at p, a difference at p, or the haystack ended so no later position can match |
| Strings.Strstr | src/lib/string.c:36-53 | the first position in the haystack text where the needle text occurs, none when it does not occur |
| Strings.ProbeRaw | src/lib/string.c:59-64 | the inner loop of _strstr: whether the needle matches at j within the limit |
| Strings.StrstrWithin | src/lib/string.c:55-72 | the first position up to limit minus the needle length where the needle occurs in the first limit bytes, none otherwise |
| Strings.Copied | src/lib/string.c:17-25 | a copied C string leaves the buffer its length |
| Strings.CopiedText | src/lib/string.c:17-25 | after a copy the C string at the destination is the copied text |
| Strings.CopiedOverEnd | src/lib/string.c:12-15 | copying a text over the NUL of a C string makes it the concatenation |
| Strings.Strcpy | src/lib/string.c:17-25 | the source text and a NUL are written at the destination, the rest kept |
| Strings.Strcat | src/lib/string.c:12-15 | the source text is written over the destination's NUL, and the destination's text becomes the concatenation |
| Strings.Memset | src/lib/string.c:27-34 | the first size bytes become the value truncated to 8 bits, the rest kept |
| Strings.Memcpy | src/lib/string.c:124-130 | the first n bytes of the destination become those of the source, the rest kept |
| Stdlib.DigitChar | src/stdlib.c:34 | the alphabet character for a digit value below 36 is a letter or digit |
| Stdlib.Reverse | src/stdlib.c:6-15 | a reversal keeps the length |
| Stdlib.ReverseIndex | src/stdlib.c:8-12 | position i of the reversal holds position n - i - 1 |
| Stdlib.ReverseInvolutive | src/stdlib.c:6-19 | reversing twice gives the text back |
| Stdlib.ReverseAppend | src/stdlib.c:6-19 | reversing a concatenation reverses and swaps the parts |
| Stdlib.LowFirst | src/stdlib.c:33-35 | the do-while loop writes at least one digit, least significant first |
| Stdlib.Digits | src/stdlib.c:21-44 | the digits of n, most significant first: at least one, all letters or digits |
| Stdlib.DigitsStep | src/stdlib.c:33-35 | below the radix one digit; otherwise the digits of n / radix then the digit of n % radix |
| Stdlib.Spelled | src/stdlib.c:21-44 | the text itoa leaves: an optional '-' and the digits, at least one character, no NUL |
| Stdlib.SpelledReversed | src/stdlib.c:32-42 | the text is the reversal of what the loop writes low digit first |
| Stdlib.Reversed | src/stdlib.c:6-15 | memrev on n characters at at keeps the buffer's length |
| Stdlib.ReversedIndex | src/stdlib.c:6-15 | the n characters at at are reversed and the rest kept |
| Stdlib.ReversedInvolutive | src/stdlib.c:6-15 | memrev twice restores the buffer |
| Stdlib.ReversedText | src/stdlib.c:17-19 | strrev reverses the C string in place and keeps its NUL |
| Stdlib.Memrev | src/stdlib.c:6-15 | n / 2 swaps, and the n characters at at end reversed |
| Stdlib.Strrev | src/stdlib.c:17-19 | the text at at is reversed in place, its NUL kept |
| Stdlib.WriteLowFirst | src/stdlib.c:33-35 | the loop writes the digits least significant first, nothing else |
| Stdlib.WriteUnreversed | src/stdlib.c:32-41 | the digits, a '-' for a negative target and a NUL are written |
| Stdlib.Itoa | src/stdlib.c:21-44 | no write and no result for a radix outside 2..36; otherwise the text and a NUL, and the pointer returned is ONE PAST the NUL |
| BootUtil.Toupper | mishaboot/lgbt/util.c:3-9 | a lower-case letter becomes the upper-case one 32 below; any other character is kept; no lower-case letter comes out |
| BootUtil.DigitValue | mishaboot/lgbt/util.c:201-206 | the position in the alphabet of a character's upper-case form, none when it is not there |
| BootUtil.DigitValueOfDigit | mishaboot/lgbt/util.c:201-206 | the alphabet character of every digit value reads back as that value |
| BootUtil.Finish | mishaboot/lgbt/util.c:214 | the result, negated when a '-' was seen, in int32_t |
| BootUtil.Accumulate | mishaboot/lgbt/util.c:211 | res * radix + pos, wrapped to int32_t |
| BootUtil.Parse | mishaboot/lgbt/util.c:180-215 | atoi's value is an int32_t |
| BootUtil.ParseDigit | mishaboot/lgbt/util.c:191-212 | a digit below the radix is accumulated and the loop goes on |
| BootUtil.ParseDigits | mishaboot/lgbt/util.c:191-212 | reading the digits of n accumulates n |
| BootUtil.AtoiInvertsItoa | mishaboot/lgbt/util.c:140-215 | atoi reads back every int32_t value but INT32_MIN that itoa writes, in every radix 2..36 |
| BootUtil.Itoa | mishaboot/lgbt/util.c:140-163 | no write and no result for a radix outside 2..36; otherwise the text and a NUL, and the pointer returned is AT the NUL |
| BootUtil.Utoa | mishaboot/lgbt/util.c:165-178 | the digits of the target read as uint32_t and a NUL; the pointer returned is at the NUL |
| BootUtil.Atoi | mishaboot/lgbt/util.c:180-215 | -4 for a radix outside 2..36, otherwise Parse of the C string |
| Dhcp.ByteAt | src/net/dhcp.c:96-123 | a byte the parser reads inside the packet is the packet's byte |
| Dhcp.Quad | src/net/dhcp.c:105-119 | the four bytes of an address or lease-time load, the packet's own when they lie inside it |
| Dhcp.ParseOptions | src/net/dhcp.c:73-149 | the loop's result is Parse: none without the magic cookie or with an option running past the end, otherwise the recorded options |
| Dhcp.ParseNeedsCookie | src/net/dhcp.c:77-88 | options are parsed only after a magic cookie behind the 236-byte header; a cookie followed by nothing or by the end option gives the cleared record |
| Dhcp.RecordInside | src/net/dhcp.c:98-133 | every offset recorded lies inside the packet |
| Dhcp.WalkInside | src/net/dhcp.c:89-146 | the walk records only offsets inside the packet |
| Dhcp.LaterOptionWins | src/net/dhcp.c:103-142 | an option that appears twice keeps its later value |
| Dhcp.DistinctOptionsCommute | src/net/dhcp.c:103-142 | two different options are recorded the same in either order |
| Dhcp.EncodedWalks | src/net/dhcp.c:89-146 | options written one after the other and closed by the end option are each recorded in turn |
| Dhcp.Zeros | src/net/dhcp.c:153 | the zeroed header fields, n bytes |
| Dhcp.Header | src/net/dhcp.c:151-172 | the header, the cookie and the message-type option: 243 bytes |
| Dhcp.HeaderFields | src/net/dhcp.c:151-172 | opcode request, hardware type Ethernet, length 6, the transaction id big-endian, the client hardware address, the magic cookie, then option 53 with the message type |
| Dhcp.BuiltParses | src/net/dhcp.c:73-172 | a message the kernel builds parses back to its message type and options |
| Dhcp.DiscoverParses | src/net/dhcp.c:294-315 | the discover parses to message type DISCOVER with the parameter list at 245..248 |
| Dhcp.RequestEncoded | src/net/dhcp.c:188-204 | the request's options are server id, requested address and parameter list, then the end option |
| Dhcp.RequestParses | src/net/dhcp.c:174-210 | the request parses to message type REQUEST, the server id at 245 and the parameter list at 257..260 |
| Dhcp.BuildHeader | src/net/dhcp.c:151-172 | the empty buffer is filled with the header, the cookie and the message-type option |
| Dhcp.OwnMessagesIgnored | src/net/dhcp.c:242-249 | a message the client built itself (opcode request) is not for the client |
| Dhcp.ServerIdBytes | src/net/dhcp.c:177-190 | the four server-id bytes copied into the request |
| Dhcp.Request | src/net/dhcp.c:174-210 | a newly allocated buffer holds the request for the offer, broadcast from port 68 to port 67 on the interface |
| Dhcp.Discover | src/net/dhcp.c:294-315 | a newly allocated buffer holds the discover with transaction id 0, broadcast from port 68 to port 67 on the interface |
| Dhcp.SendMessage | src/net/dhcp.c:299-314 | a new buffer with the header and the given options, broadcast on the interface |
| Dhcp.NewMessage | src/net/dhcp.c:185-206 | a newly allocated buffer holding the header followed by the options |
| Dhcp.InsertedAllSnoc | src/net/dhcp.c:215-226 | adding one more route after a run of additions is one more insertion |
| Dhcp.InsertedAllAdds | src/net/dhcp.c:215-226 | a run of additions keeps the old routes and adds exactly the new ones |
| Dhcp.InsertedAllHas | src/net/dhcp.c:215-226 | every old and every added route is in the table after the run |
| Dhcp.InsertedAllLength | src/net/dhcp.c:215-226 | the table grows by one route per addition |
| Dhcp.AckRoutesAdded | src/net/dhcp.c:212-237 | after an acknowledgement the table holds the host route, the default route when routers were offered and the subnet route when a mask was offered, and no other new route |
| Dhcp.Ack | src/net/dhcp.c:212-237 | the interface takes the offered address; the routes are added in order default, subnet, host; the broadcast address becomes address OR NOT mask when a mask came; the DNS server becomes the first listed one when a list came |
| Dhcp.AddRoutes | src/net/dhcp.c:215-226 | the table after the three conditional net_add_route calls |
| Dhcp.RequestEchoesOffer | src/net/dhcp.c:174-204 | the request carries the offer's transaction id, its server id and the offered address, and parses as a REQUEST |
| Dhcp.Accept | src/net/dhcp.c:242-258 | the checks of opcode reply, Ethernet, length 6, this client's address and the options, as Classify |
| Dhcp.Dispatch | src/net/dhcp.c:263-291 | an offer is answered with a request in a new buffer; an acknowledgement configures the interface; NAK and any other type change nothing |
| Dhcp.Recv | src/net/dhcp.c:239-292 | the reaction is the one the message's class calls for: ignored, requested, acknowledged or unhandled, with the effects of Dispatch |
| Dns.SkipHost | src/net/dns.c:25-40 | skip_host, bounded by the packet: where a name ends, always past where it started |
| Dns.SkipName | src/net/dns.c:25-40 | the loop returns SkipHost |
| Dns.AnswerInPacket | src/net/dns.c:42-70 | the corrected answer reader returns only an address made of four bytes of the packet after its 12-byte header, never bytes beyond the packet |
| Dns.FirstAInPacket | src/net/dns.c:54-64 | the answer loop returns only an address made of four bytes of the packet at or after where it starts |
| Dns.SkipQuestions | src/net/dns.c:49-52 | the question loop never moves backwards |
| Dns.FindAddress | src/net/dns.c:42-70 | the two loops return GetIp4A |
| Dns.StaleAnswerAsWritten | src/net/dns.c:42-70 | a 12-byte reply claiming one answer but holding none returns, as written, the stale A record left in the frame after it; the corrected reader finds nothing |
| Dns.LabelLen | src/net/dns.c:125-133 | the length of the label starting at i stays inside the host name |
| Dns.LabelLenEnds | src/net/dns.c:127-133 | a label runs to the next '.' or the end of the name and contains no '.' |
| Dns.LabelLenRun | src/net/dns.c:127-133 | a run of non-dots ended by a '.' or the end is the label |
| Dns.NameBytes | src/net/dns.c:125-140 | the encoded name is two bytes longer than the host name |
| Dns.NameBytesExample | src/net/dns.c:125-140 | "a.bc" is written as 1 'a' 2 'b' 'c' 0 |
| Dns.EncodeName | src/net/dns.c:125-140 | the label loop writes NameBytes |
| Dns.SkipFromHead | src/net/dns.c:25-40 | skip_host from the start of any label of an encoded name reaches the end of the name |
| Dns.SkipEncodedName | src/net/dns.c:25-40 | skip_host passes exactly over every name the query encoder writes |
| Dns.Query | src/net/dns.c:110-147 | the query is the 12-byte header, the encoded name, type and class |
| Dns.Answer | src/net/dns.c:54-64 | an A answer record (a name pointer, type, class, TTL, length 4, the address) is 16 bytes |
| Dns.ReplyAnswered | src/net/dns.c:42-70 | a reply echoing the query with one A answer yields that answer's address |
| Dns.QuestionSkipped | src/net/dns.c:49-52 | the question loop passes over the echoed question and stops at the answer |
| Dns.AnswerRead | src/net/dns.c:54-64 | an A record of 4 data bytes is read as its address |
| Dns.SkipShifted | src/net/dns.c:25-40 | skip_host does not depend on what precedes the name |
| Dns.FirstWithId | src/net/dns.c:80-94 | the first pending entry with the identifier, none when no entry has it |
| Dns.RemovedOnce | src/net/dns.c:83-87 | unlinking an entry removes exactly that one |
| Dns.Resolver.Recv | src/net/dns.c:72-103 | the first entry with the reply's identifier is unlinked and handed back for its callback; with none, the list is unchanged |
| Dns.Resolver.QueryHost | src/net/dns.c:105-165 | no server: nothing happens; a host of 256 bytes or more: a buffer is allocated and never freed; otherwise a query is sent to port 53 from a new ephemeral port, and an entry is pushed at the head when a callback is given |
| Dns.Resolver.Register | src/net/dns.c:148-164 | the port is taken, the entry pushed when there is a callback, and the query sent through the routed UDP send |
| Dns.SendQuery | src/net/dns.c:110-164 | a new buffer holding the query, sent by UDP to the server's port 53 |
| Dns.NewQuery | src/net/dns.c:110-147 | a newly allocated buffer holding exactly the query |
| Dns.BuildQuery | src/net/dns.c:111-147 | the query bytes are Query: identifier, flags 0x0100, one question, the name, type 1, class 1 |
| FrameAllocator.BitsOfWrite | src/cpu/paging.c:111-117 | writing bit `index % 8` (most significant first) of byte `index / 8` changes exactly frame `index` of the bitmap to the written value |
| FrameAllocator.WriteBitAt | src/cpu/paging.c:112-116 | setting or clearing one mask bit of a byte leaves the other seven bits as they were |
| FrameAllocator.BitsOfAt | src/cpu/paging.c:101-103 | frame i of the bitmap is bit `i % 8` of byte `i / 8`, counted from the most significant bit |
| FrameAllocator.OnesUpdate | src/cpu/paging.c:113-117 | overwriting one frame bit changes the number of used frames by at most one, in the direction of the write |
| FrameAllocator.Allocator.GetBit | src/cpu/paging.c:96-104 | the bit is set exactly when the index lies inside the bitmap and its frame is marked; indices past the bitmap read as clear (bound check corrected to `>=`) |
| FrameAllocator.Allocator.SetBit | src/cpu/paging.c:106-120 | succeeds exactly when the index lies inside the bitmap and then changes that frame's bit and nothing else; otherwise the state is unchanged (bound check corrected to `>=`) |
| FrameAllocator.GuardAdmitsPastEnd | src/cpu/paging.c:97-107 | the bound check as written (`index > size * 8`) lets index `size * 8` through, whose byte lies one past the bitmap, and that is the only index it wrongly admits |
| FrameAllocator.Freed | src/cpu/paging.c:122-131 | a clear frame or one past the bitmap is left alone; otherwise its bit ends clear and the search cursor is untouched |
| FrameAllocator.Locked | src/cpu/paging.c:133-142 | a set frame is left alone, a clear one ends set; a frame past the bitmap cannot be set but the free counter still moves |
| FrameAllocator.Reserved | src/cpu/paging.c:156-169 | a clear frame inside the bitmap ends set and the search cursor is lowered to at most that frame; anything else is a no-op |
| FrameAllocator.FirstClear | src/cpu/paging.c:178-181 | the first clear frame at or after the cursor, every frame between being set; None exactly when all the rest are set |
| FrameAllocator.Allocator.FreePage | src/cpu/paging.c:122-131 | the new bitmap, counters and cursor are those of `Freed` on the page of the address |
| FrameAllocator.Allocator.LockPage | src/cpu/paging.c:133-142 | the new state is that of `Locked` on the page of the address |
| FrameAllocator.Allocator.ReservePage | src/cpu/paging.c:156-169 | the new state is that of `Reserved` on the page of the address |
| FrameAllocator.Allocator.FreePages | src/cpu/paging.c:144-148 | the new state is `count` successive frees of the pages at `address + i * 0x1000`, with 32-bit wrap-around of the address |
| FrameAllocator.Allocator.LockPages | src/cpu/paging.c:150-154 | the new state is `count` successive locks of the pages from `address` |
| FrameAllocator.Allocator.ReservePages | src/cpu/paging.c:171-175 | the new state is `count` successive reservations of the pages from `address` |
| FrameAllocator.Allocator.SeekClear | src/cpu/paging.c:178-181 | the cursor stops on the first clear frame at or after where it was, and reports whether there is one; if not it ends at the bitmap's end |
| FrameAllocator.Allocator.RequestPage | src/cpu/paging.c:177-189 | locks the first clear frame from the cursor and returns its address, or returns 0 with the cursor at the end when every frame is used |
| FrameAllocator.FreedKeepsTotal | src/cpu/paging.c:122-131 | freeing a page keeps free + used + reserved constant (mod 2^32) |
| FrameAllocator.LockedKeepsTotal | src/cpu/paging.c:133-142 | locking a page keeps free + used + reserved constant |
| FrameAllocator.ReservedKeepsTotal | src/cpu/paging.c:156-169 | reserving a page keeps free + used + reserved constant |
| FrameAllocator.SingleOpKeepsTotal | src/cpu/paging.c:122-169 | each of the three single-page operations keeps the accounting total |
| FrameAllocator.RangeKeepsTotal | src/cpu/paging.c:144-175 | any number of steps of the multi-page loops keeps the accounting total |
| FrameAllocator.OpChangesOneBit | src/cpu/paging.c:122-169 | on a frame inside the bitmap, a free lowers the count of used frames by one if the frame was used, a lock or reservation raises it by one if it was clear |
| FrameAllocator.FreeUndoesLock | src/cpu/paging.c:122-142 | locking a clear frame and freeing it again restores the bitmap and all three counters |
| FrameAllocator.LockUndoesFree | src/cpu/paging.c:122-142 | freeing a used frame and locking it again restores the state |
| FrameAllocator.TransferKeepsSum | src/cpu/paging.c:129-141 | moving an amount from one wrapped 32-bit counter to another keeps the wrapped sum |
| PageTable.ZeroTable | src/cpu/paging.c:212 | a freshly cleared table holds 1024 entries, all zero |
| PageTable.DirIndex | src/cpu/paging.c:208-223 | the directory slot of an address is below 1024 |
| PageTable.TableIndex | src/cpu/paging.c:216-224 | the table slot of an address is below 1024 |
| PageTable.SamePageSameSlots | src/cpu/paging.c:208-224 | two addresses on the same 4 KiB page use the same directory slot and table slot |
| PageTable.Directory.PhysAddr | src/cpu/paging.c:221-228 | the physical address keeps the offset within the page and its page number is the entry's frame |
| PageTable.Directory.EnsureTable | src/cpu/paging.c:209-214 | a present table is kept with the allocator untouched; a missing one is requested from the allocator, is a frame no other slot uses, is zero-filled and is recorded with flags 0x07 |
| PageTable.Directory.MapMemory | src/cpu/paging.c:207-219 | afterwards every address on the page of `virt` translates to the same offset in the page of `phys`, the entry's other bits are kept, entries of other pages already mapped are unchanged, and the allocator changed only by the one table request |
| PageTable.Directory.SetEntry | src/cpu/paging.c:216-218 | exactly one entry of one table frame changes |
| Heap.ExtentAppend | src/sys/heap.c:8-13 | the bytes covered by two runs of segments laid end to end add up |
| Heap.PayloadsDisjoint | src/sys/heap.c:123-132 | the payload of an earlier segment ends at or before the header of any later one, so no two payloads overlap |
| Heap.Merged | src/sys/heap.c:19-37 | a segment absorbs its successor: one segment fewer, the merged one covering both payloads and the successor's header, every other segment unchanged (the successor is unlinked, which the C omits) |
| Heap.ExtentAt | src/sys/heap.c:8-13 | a segment's header and payload sit between the segments before and after it |
| Heap.ExtentReplace | src/sys/heap.c:128-149 | flipping a segment's free flag leaves the heap's layout unchanged |
| Heap.SegWithin | src/sys/heap.c:8-13 | every segment lies inside the heap |
| Heap.ExtentPair | src/sys/heap.c:36 | two neighbours and the segment that merges them cover the same bytes |
| Heap.ExtentAround | src/sys/heap.c:19-37 | the bytes of a heap split around a pair of neighbours |
| Heap.ExtentOfMerged | src/sys/heap.c:19-37 | the merged heap covers the same bytes before and after the merged segment |
| Heap.MergedKeepsExtent | src/sys/heap.c:19-37 | merging two neighbours keeps the heap's total extent |
| Heap.CombinedForwardFacts | src/sys/heap.c:19-37 | heap_combine_forward merges only with a free successor, keeps the extent and the segment's flag, and grows it by the successor's header and payload |
| Heap.SplitLengthExact | src/sys/heap.c:50-53 | the remainder computed in 32-bit signed arithmetic, when at least 16, is the old length minus the kept length minus one header |
| Heap.Split | src/sys/heap.c:45-71 | either nothing changes (either part would be below 16 bytes) or the segment keeps `length` bytes and a new segment with the remainder and the same free flag follows it, all others unchanged |
| Heap.SplitKeepsExtent | src/sys/heap.c:45-71 | a split keeps the heap's total extent |
| Heap.RoundUp16Bounds | src/sys/heap.c:114-121 | malloc's rounded size is a multiple of 16, at least the request and less than 16 above it; it is 0 exactly for a request of 0 or one that wraps past 2^32 |
| Heap.PageRoundBounds | src/sys/heap.c:92-95 | heap_expand's rounded length is a multiple of 4 KiB, at least the request and less than one page above it |
| Heap.Expanded | src/sys/heap.c:91-111 | the heap ends in a free segment: a free last segment grows by the whole rounded length, otherwise a new free segment of that length minus a header is appended |
| Heap.ExpandedExtent | src/sys/heap.c:91-111 | expanding the heap adds exactly the rounded length to its extent |
| Heap.FirstFit | src/sys/heap.c:123-141 | the first free segment large enough for the request, every earlier segment being used or too small; None when none fits |
| Heap.Growths | src/sys/heap.c:143-144 | at most two expansions are needed, none when a segment already fits |
| Heap.GrowthsDecrease | src/sys/heap.c:143-144 | when nothing fits, one expansion brings malloc strictly closer to a fit, so its recursion ends |
| Heap.Grown | src/sys/heap.c:143-144 | after the expansions some segment fits, and a heap with a fit is not expanded |
| Heap.Taken | src/sys/heap.c:125-133 | the chosen segment ends in use with at least the requested bytes, the segments before it unchanged |
| Heap.TakenKeepsExtent | src/sys/heap.c:125-133 | handing out a segment keeps the heap's extent |
| Heap.Heap.constructor | src/sys/heap.c:73-89 | a new heap is one free segment covering all its pages less one header |
| Heap.Heap.Expand | src/sys/heap.c:91-111 | the segments become `Expanded` of the old ones and the end moves up by the rounded length |
| Heap.Heap.FindFit | src/sys/heap.c:123-141 | the walk from the first segment returns `FirstFit` |
| Heap.Heap.Take | src/sys/heap.c:125-133 | the segments become `Taken` of the old ones |
| Heap.Heap.Malloc | src/sys/heap.c:113-145 | a zero rounded size returns 0 and changes nothing; otherwise the heap is grown until a segment fits, the first fit is taken, and the address returned is just past that segment's header |
| Heap.Heap.Free | src/sys/heap.c:147-152 | the segment of the address becomes free and is merged with a free successor and then with a free predecessor |
| Heap.CombineForwardAsWrittenKeepsAbsorbed | src/sys/heap.c:19-37 | as written, after merging two free 32-byte segments the first still links to the absorbed header, which lies inside its grown payload and is still marked free |
| Process.Popped | src/sys/process.c:171-189 | dequeuing an empty queue yields nothing; otherwise the head is returned and the rest of the queue, in order, remains |
| Process.DrainedInOrder | src/sys/process.c:133-189 | the queues are FIFO: dequeuing until empty returns the processes in the order they were enqueued |
| Process.Reaped | src/sys/process.c:195-214 | next_reapable_process as intended: the head is taken as from the ready queue and reap_lock is released on both paths |
| Process.EmptyReapKeepsLock | src/sys/process.c:196-199 | as written, next_reapable_process leaves reap_lock held exactly when the queue was empty (so the next make_process_reapable spins forever), while the corrected one never does |
| Process.FindFdFrom | src/sys/process.c:281-289 | the first descriptor from a position on whose number matches, every earlier one differing; None when none matches |
| Process.FindFd | src/sys/process.c:281-289 | process_get_fd finds a descriptor exactly when the list holds one with that number, and returns the first such |
| Process.AddedIsFresh | src/sys/process.c:239-248 | adding a file pushes it at the head with number current_fd + 1, a number no older descriptor has, and every number stays at or below the counter |
| Process.ClonedShares | src/sys/process.c:291-308 | a cloned descriptor shares the original's handle, is found first under its new number, and the counter never goes down |
| Process.Proc.GetFd | src/sys/process.c:281-289 | the walk returns `FindFd` of the process's list |
| Process.Proc.CloneFd | src/sys/process.c:291-308 | an unknown `from` returns -1 and changes nothing; otherwise a copy numbered `to` is pushed at the head and current_fd is raised to `to` if below it |
| Process.AddFd | src/sys/process.c:239-248 | a null process or file returns -1 and changes nothing; otherwise the file is pushed at the head with the incremented counter as its number, which is returned |
| Process.Proc.constructor | src/sys/process.c:50-77 | a new process has the given PID, tree node and descriptors, and is not queued |
| Process.Scheduler.constructor | src/sys/process.c:86-117 | spawn_init: init has PID 0, no descriptors, sits on the root of the process tree, and both queues are empty |
| Process.Scheduler.Spawn | src/sys/process.c:38-84 | the child gets PID current_pid + 1, larger than every live PID, the parent's descriptors and counter, is unqueued and joins the tree |
| Process.Scheduler.Delete | src/sys/process.c:265-279 | a null process or init is refused and stays; any other process leaves the tree; init is always still there |
| Process.Scheduler.MakeReady | src/sys/process.c:133-148 | a null process changes nothing; otherwise it is appended at the tail and marked queued |
| Process.Scheduler.NextReady | src/sys/process.c:171-189 | the head of the ready queue is removed and returned, null when empty; it is marked not queued and no other process's mark changes |
| Process.Scheduler.MakeReapable | src/sys/process.c:150-165 | a null process changes nothing; otherwise it is appended to the reap queue, and the lock is free afterwards |
| Process.Scheduler.NextReapable | src/sys/process.c:195-214 | the queue and lock afterwards are those of `Reaped`: the head is returned, null when empty, and the lock is released (corrected) |
| Time.DaysBeforeCount | src/lib/time.c:21-22 | counted year by year, the days before 1970 + ey are 365 per year plus one per fourth year, the count split_time subtracts |
| Time.MonthTable | src/lib/time.c:11-26 | the month-start table split_time picks has 13 entries from 0 to the length of the year, the leap table when `year & 3` is 0 |
| Time.MonthTableCounts | src/lib/time.c:11-12 | each month start is the previous one plus that month's length |
| Time.CalendarOfDays | src/lib/time.c:21-24 | for a day on or after 1970, epoch_years and year_day name the year it falls in and its place in that year |
| Time.NegativeYearDay | src/lib/time.c:21-22 | before 1970 the truncating divisions leave year_day at most 0 |
| Time.YearDayInTable | src/lib/time.c:28-31 | every year_day split_time reaches lies below the table's last entry, so the month scan stops within the table |
| Time.ScanMonth | src/lib/time.c:28-31 | the month scan stops at the first month whose start lies beyond year_day |
| Time.DaysInRange | src/lib/time.c:14 | the whole days of any int32_t count of seconds stay within the bound the calendar lemmas cover |
| Time.Assemble | src/lib/time.c:14-44 | the fields derived from a day count always have a month in 1..12 and keep the zone |
| Time.Split | src/lib/time.c:8-45 | the date_time_t split_time stores has a month in 1..12 and keeps the zone |
| Time.SplitTime | src/lib/time.c:8-45 | split_time, month loop included, fills in exactly `Split(t, tz_offset)` |
| Time.SplitDays | src/lib/time.c:17-44 | the body after the division gives `Assemble` of the days and the seconds into the day |
| Time.MonthOf | src/lib/time.c:28-31 | the month loop returns `ScanMonth` from month 1 |
| Time.ClockOf | src/lib/time.c:17-19 | second and minute lie in 0..59 and hour in 0..23, and together they count the seconds into the day |
| Time.SplitIsAssembled | src/lib/time.c:9-15 | at or after 1970 the truncating division and remainder are the whole days and the seconds left over |
| Time.AssembleCounts | src/lib/time.c:17-34 | the fields of a day count name that day and that second, its weekday counting on from Thursday 1 January 1970 |
| Time.AssembleInMonth | src/lib/time.c:28-33 | the day lies within its month |
| Time.SplitCounts | src/lib/time.c:8-45 | from 1970 on, the date split_time gives counts exactly the local seconds t + 60 * tz_offset |
| Time.SplitInMonth | src/lib/time.c:28-33 | from 1970 on, month and day follow the month lengths |
| Time.WeekDayNext | src/lib/time.c:34 | dates of consecutive days have consecutive weekdays |
| Time.SplitNextDay | src/lib/time.c:34 | splitting a time one day later gives the next weekday |
| Time.JoinTimeAsWritten | src/lib/time.c:47-52 | join_time as written reads date->year as years since 1900; the result is kept in 32 bits |
| Time.JoinTime | src/lib/time.c:47-52 | join_time for the full years split_time produces; the result is kept in 32 bits |
| Time.JoinCounts | src/lib/time.c:47-52 | for a date counting days and seconds since 1970, the corrected sum gives those seconds back |
| Time.JoinTimeCounts | src/lib/time.c:47-52 | and the corrected join_time returns them when they fit an int32_t |
| Time.JoinInvertsSplit | src/lib/time.c:8-52 | joining what split_time gives back yields the local seconds t + 60 * tz_offset |
| Time.JoinAsWrittenAtEpoch | src/lib/time.c:47-52 | as written, the date of 1 January 1970 joins to -171311744, not 0 |
| Time.JoinAsWrittenMissesEpoch | src/lib/time.c:8-52 | as written, joining the split of the epoch does not give 0 back |
| Time.WeekDayName | src/lib/time.c:55-66 | the weekday name has three characters and no NUL |
| Time.MonthName | src/lib/time.c:59-77 | the month name has three characters and no NUL |
| Time.NamesOutOfRange | src/lib/time.c:63-77 | a name is "???" exactly when its field is out of range, negative values included through the unsigned reading |
| Time.Number | src/lib/time.c:71-75 | a number as written holds no NUL, and a padded one at least two characters |
| Time.NumberWidth | src/lib/time.c:71-75 | below 100 a padded number is two characters, starting with '0' exactly below 10 |
| Time.NumberReadsBack | src/lib/time.c:71-75 | the padding does not change the value a decimal parse reads back |
| Time.Formatted | src/lib/time.c:54-116 | the intended text "Www, DD Mon YYYY hh:mm:ss ±hh:mm" holds no NUL |
| Time.AsWrittenStopsAtDay | src/lib/time.c:75-76 | as written, the C string ends after the day: every later field hides behind the day's NUL |
| Time.AsWrittenTextAt | src/lib/time.c:54-116 | the same holds wherever in a buffer the text is written |
| Time.AsWrittenOverflows | src/lib/time.c:54-116 | as written, the stored characters take at least 36 bytes, more than the 34-byte time string buffer |
| Time.AsWrittenZoneNegative | src/lib/time.c:101-115 | as written, a zone an hour or more west starts "+0-": the sign is never written as such |
| Time.LocalZoneText | src/lib/time.c:101-115 | the kernel's own zone, UTC-7, comes out "+0-7", NUL, ":00", NUL as written and "-07:00" as meant |
| Time.ZoneReadsBack | src/lib/time.c:101-115 | within 100 hours the intended zone is six characters and reads back as its sign, hours and minutes |
| Time.FormattedFits | src/lib/time.c:54-116 | a date with a four-digit year and a zone within 100 hours fits the 34-byte buffer with its NUL |
| Time.CountsPrintable | src/lib/time.c:8-45 | every date split_time gives from 1970 on, in a zone within 100 hours, is printable |
| Time.SplitFits | src/lib/time.c:8-116 | formatting any split date fits the time string buffer |
| Time.PutText | src/lib/time.c:67-80 | the characters are stored over the leftover NUL and the position moves past them |
| Time.PutPad | src/lib/time.c:71-85 | a '0' is stored exactly when padding is asked for and the value is below 10 |
| Time.PutNumber | src/lib/time.c:71-75 | the padded number is stored and its NUL is left for the next step to cover |
| Time.PutNumberAsWritten | src/lib/time.c:71-75 | as written, the number and its NUL are stored and the position moves past the NUL |
| Time.PutZone | src/lib/time.c:100-115 | the intended zone, with its sign, is stored and followed by a NUL |
| Time.PutZoneAsWritten | src/lib/time.c:100-115 | as written, '+', the hour quotient and the minute remainder, each with its NUL, are stored |
| Time.PutDay | src/lib/time.c:63-75 | the weekday name, ", " and the day are stored from the start position, NUL left after them |
| Time.PutMonthYear | src/lib/time.c:76-81 | " ", the month name, " " and the year are stored over the leftover NUL |
| Time.PutClock | src/lib/time.c:82-99 | hour, minute and second, padded and separated by ':', are stored |
| Time.FormatTime | src/lib/time.c:54-116 | format_time as meant: the buffer holds the C string `Formatted(date)` from the start position and nothing else changes |
| Time.PutDayAsWritten | src/lib/time.c:63-76 | as written, the day keeps its NUL and the next character goes after it |
| Time.PutMonthYearAsWritten | src/lib/time.c:76-82 | as written, the year keeps its NUL |
| Time.PutClockAsWritten | src/lib/time.c:82-100 | as written, hour, minute and second each keep their NUL |
| Time.FormatTimeAsWritten | src/lib/time.c:54-116 | format_time as written: the buffer holds `Written(date)` and, read as a C string, only the weekday and day |
| Rtc.BcdToBin | src/rtc.c:40-42 | a valid BCD byte decodes to a value below 100 whose last decimal digit is the low nibble |
| Rtc.BinToBcd | src/rtc.c:44-46 | a value below 100 encodes to a valid BCD byte |
| Rtc.BcdRoundTrip | src/rtc.c:40-46 | decoding the encoding of a value below 100 gives it back |
| Rtc.BinRoundTrip | src/rtc.c:40-46 | encoding the decoding of a valid BCD byte gives it back |
| Rtc.Truncated | src/rtc.c:85-91 | the fields cast to uint8_t: in-range values are kept, the year counted from 2000 and the weekday from 1 |
| Rtc.AcceptedInRange | src/rtc.c:93-96 | for fields that fit a byte, rtc_set_time accepts exactly a clock in range, a day up to 31, a month up to 12, a year before 2100 and a weekday up to 6 (day and month 0 pass) |
| Rtc.Encoded | src/rtc.c:98-106 | in binary mode the bytes are stored as they are; otherwise every accepted field but the weekday is turned into valid BCD |
| Rtc.Stored | src/rtc.c:112-118 | the seven time registers receive the seven fields and every other CMOS register keeps its value |
| Rtc.Decoded | src/rtc.c:62-69 | in binary mode a register is read as it is; a BCD register decodes below 100 |
| Rtc.Read | src/rtc.c:48-82 | rtc_get_time: the year lies in 2000..2255, the zone is the kernel's local zone and year_day is left as it was |
| Rtc.SetThenGet | src/rtc.c:48-119 | setting a valid date and reading it back gives the same date in the local zone, in either register mode |
| Rtc.Cmos.constructor | src/rtc.c:10-23 | a CMOS holding the given registers |
| Rtc.Cmos.Write | src/rtc.c:35-38 | exactly one register changes |
| Rtc.Cmos.SetTime | src/rtc.c:84-119 | a date failing the range checks is rejected and no register changes; otherwise the registers become `Stored` of the encoded fields |
| Rtc.Cmos.GetTime | src/rtc.c:48-82 | the date read is `Read` of the registers |
| Vfs.HeaderOf | mishavfs/vfs.c:14-15 | the header is read from the first bytes of the image, with a 16-byte volume label |
| Vfs.ReadFilesystem | mishavfs/vfs.c:9-29 | the filesystem keeps the image and its root entry; it is accepted exactly when the signature matches, the version is 1 and the declared size is at least that of the filesystem record |
| Vfs.UntilNul | mishavfs/vfs.c:41 | the name strcmp compares is the longest NUL-free prefix of the field, ended by a NUL when shorter than the field |
| Vfs.Field32 | mishavfs/vfs.c:34-45 | a little-endian 32-bit field of an entry is below 2^32 |
| Vfs.EntryAt | mishavfs/vfs.c:5-7 | an entry can be read at an offset exactly when its bytes lie inside the image, and then holds the name, type, next, target and offset stored there |
| Vfs.Pointer | mishavfs/vfs.c:31-57 | a lookup yields an entry pointer exactly when it found one, null otherwise |
| Vfs.FollowLink | mishavfs/vfs.c:59-65 | a link is replaced by its target entry; any other entry is returned as it is |
| Vfs.Links | mishavfs/vfs.c:67-73 | following links, when it ends within the fuel, ends on an entry inside the image that is not a link |
| Vfs.FollowLinkStep | mishavfs/vfs.c:59-73 | following links from a link is following them from its target; from any other entry it stops at once |
| Vfs.LinksFuel | mishavfs/vfs.c:67-73 | once the walk ends, more fuel gives the same entry |
| Vfs.LinksResolved | mishavfs/vfs.c:67-73 | following links from the entry the walk ended on stays there |
| Vfs.FollowLinks | mishavfs/vfs.c:67-73 | the loop returns the entry `Links` reaches |
| Vfs.Search | mishavfs/vfs.c:38-48 | a sibling the scan finds is inside the image and carries the name sought |
| Vfs.SearchStep | mishavfs/vfs.c:39-45 | a sibling with another name passes the scan on to its next entry |
| Vfs.ScanStep | mishavfs/vfs.c:39-45 | one iteration: a match ends the scan there, otherwise it continues at the next entry |
| Vfs.Siblings | mishavfs/vfs.c:38-46 | the chain of next_entry links from a first entry, all inside the image |
| Vfs.SearchMisses | mishavfs/vfs.c:38-48 | on a finite chain the scan ends, and finds nothing exactly when no sibling has the name |
| Vfs.SearchFindsFirst | mishavfs/vfs.c:38-48 | the entry found is the first sibling with the name |
| Vfs.FindIn | mishavfs/vfs.c:31-49 | the entry found is inside the image and has the name; a link chain that does not end leaves the lookup undecided |
| Vfs.FindInChildren | mishavfs/vfs.c:31-49 | looking up in a directory (after its links) finds nothing exactly when none of its children has the name |
| Vfs.ScanSiblings | mishavfs/vfs.c:38-48 | the loop returns the entry `Search` finds, or null |
| Vfs.Visit | mishavfs/vfs.c:40-45 | one loop iteration either hits the current entry or hands the search on to its next entry with less fuel |
| Vfs.FindEntryIn | mishavfs/vfs.c:31-49 | vfs_find_entry_in returns the entry `FindIn` finds, or null |
| Vfs.FindEntry | mishavfs/vfs.c:51-57 | vfs_find_entry looks the name up in the root entry |
| Vfs.ContentAt | mishavfs/vfs.c:80 | a file's content starts one entry header past its stored offset |
| Vfs.FileContent | mishavfs/vfs.c:75-81 | the content pointer of the entry itself, or of the entry its links lead to when asked to follow them |
| Mount.FirstSlash | src/sys/mount.c:37-38 | strchr finds the first '/' of the path, none exactly when the path holds no '/' |
| Mount.FirstSlashAt | src/sys/mount.c:37 | a '/' with none before it is the one strchr finds |
| Mount.Walk | src/sys/mount.c:36-52 | a path without '/' is looked up directly in the parent |
| Mount.WalkStep | src/sys/mount.c:37-51 | one iteration: the component before the first '/' is looked up in the parent; a miss ends the walk with null, a hit continues from it with the rest of the path |
| Mount.Opened | src/sys/mount.c:22-53 | an absolute path is walked from the mounted root without its '/', a relative one from the working directory, and with no current process the result is null |
| Mount.Components | src/sys/mount.c:37-51 | the components the walk visits: at least one, none containing '/' |
| Mount.ComponentsJoined | src/sys/mount.c:37-51 | joining the components with '/' gives the path back |
| Mount.JoinedComponents | src/sys/mount.c:37-51 | splitting components joined with '/' gives them back |
| Mount.WalkResolves | src/sys/mount.c:36-52 | the walk equals looking the components up one after another, each in what the previous one found |
| Mount.ResolveStopsAtMissing | src/sys/mount.c:45-48 | once a component is missing, the whole path is missing, whatever follows |
| Mount.FoundNameWidth | src/sys/mount.c:35 | any name a lookup finds is at most 256 bytes, so it fits the token buffer with its NUL |
| Mount.LongComponentNotFound | src/sys/mount.c:35-48 | with the component taken whole (corrected), one of 257 bytes or more before a '/' is never found |
| Mount.CopyTokenAsWritten | src/sys/mount.c:42-43 | as written, the component fits the 257-byte token with its NUL exactly when shorter than 257 bytes; otherwise the token is filled and the copy runs past it |
| Mount.LongComponentOverflows | src/sys/mount.c:37-43 | a path whose first component has 257 or more bytes makes strchr report that length, which the copy then writes in full |
| Mount.OpenedSlash | src/sys/mount.c:24-39 | opening "/" looks up the empty name in the root |
| Mount.Mounted.constructor | src/sys/mount.c:6-7 | the mounted filesystem and root entry are the given ones |
| Mount.Mounted.MountRoot | src/sys/mount.c:9-12 | mount_root replaces the filesystem and root entry |
| Mount.Mounted.GetRootFs | src/sys/mount.c:14-16 | returns the mounted filesystem |
| Mount.Mounted.GetRootDir | src/sys/mount.c:18-20 | returns the mounted root entry |
| Mount.Mounted.Open | src/sys/mount.c:22-53 | open returns the entry `Opened` finds, or null |
| Gdt.Descriptor | src/cpu/gdt.c:8-19 | a segment descriptor is eight bytes |
| Gdt.DescriptorFields | src/cpu/gdt.c:8-19 | the processor reads back the base, the low 20 bits of the limit, the access byte and the low nibble of the flags from the bytes gdt_encode_entry writes |
| Gdt.DescriptorOfFields | src/cpu/gdt.c:8-19 | every eight-byte descriptor is the encoding of the fields read out of it, so encoding and reading are inverse |
| Gdt.FlagsNibble | src/cpu/gdt.c:12-18 | `flags << 4` kept in a byte and or-ed with the limit nibble puts the low flag nibble above it |
| Gdt.FourBytes | src/cpu/gdt.c:13-16 | the four base bytes put back together give the base |
| Gdt.TwentyBits | src/cpu/gdt.c:10-12 | the two limit bytes and the limit nibble put back together give the limit's low 20 bits |
| Gdt.FlatSegment | src/cpu/gdt.c:8-19 | a flat 4 GiB segment (base 0, limit 0xFFFFF, flags 0xC) encodes to FF FF 00 00 00 access CF 00 |
| Gdt.EncodeEntry | src/cpu/gdt.c:8-19 | the eight bytes at the entry become `Descriptor(base, limit, access, flags)` and the rest of the table is unchanged |
| Gdt.TssLimitAsWritten | src/cpu/gdt.c:22-23 | as written, the limit is the TSS address plus its size, an end address rather than a length |
| Gdt.TssLimitAsWrittenTooLarge | src/cpu/gdt.c:21-25 | as written, a TSS at 0x105000 gets a descriptor limit of 0x5068, far beyond the 104-byte structure |
| Gdt.Initialized | src/cpu/gdt.c:27-37 | the TSS has all its 27 fields |
| Gdt.InitializedFields | src/cpu/gdt.c:27-37 | after tss_encode_entry: ss0 and esp0 as given, cs 0x0B, every data segment 0x13, iopb the structure's size, every other field 0 |
| Gdt.TaskState.constructor | src/cpu/gdt.c:6 | the static TSS starts zeroed at its address |
| Gdt.TaskState.EncodeTss | src/cpu/gdt.c:21-38 | the entry becomes a descriptor for the TSS with access 0xE9 and the limit corrected to size - 1, the rest of the table unchanged, and the TSS fields become `Initialized(ss0, esp0)` |
| Gdt.TaskState.SetKernelStack | src/cpu/gdt.c:40-42 | only esp0 changes |
| Gdt.TssDescriptorSpansTss | src/cpu/gdt.c:21-25 | with the corrected limit the descriptor's base is the TSS and base through base + limit covers exactly its 104 bytes |
| Tga.GeometryOf | src/lib/tga.c:9-12 | width, height, origin, pixel start and depth read from the header make a valid geometry for every accepted header |
| Tga.Row | src/lib/tga.c:24-58 | the file row of screen row y (flipped when the origin is 0) lies within the picture |
| Tga.RowInvolutive | src/lib/tga.c:24-37 | flipping the rows twice gives the row back |
| Tga.Color | src/lib/tga.c:27-93 | a colour can be read exactly when its 3 or 4 bytes lie inside the file; it holds blue, green and red in the low bytes and the alpha byte, or 0xFF for 24-bit pixels, on top |
| Tga.SourceAt | src/lib/tga.c:23-43 | screen pixel (y, x) of an uncompressed image is the pixel stored at file row `Row(y)`, column x |
| Tga.Uncompressed | src/lib/tga.c:19-43 | types 1 and 2 decode exactly when every pixel can be read and the buffer holds w * h pixels after the size words, which then hold w and h |
| Tga.UncompressedInside | src/lib/tga.c:23-43 | every decoded pixel of types 1 and 2 is the source pixel of its place |
| Tga.UncompressedOutside | src/lib/tga.c:23-43 | the buffer past the picture is left unchanged |
| Tga.PlaceStep | src/lib/tga.c:57-72 | the cursor of the run-length loops puts the n-th pixel at its `Place` and moves on to the next place |
| Tga.PlaceInside | src/lib/tga.c:57-61 | each of the first w * h pixels of a stream lands inside the picture |
| Tga.PlaceDistinct | src/lib/tga.c:57-61 | two different pixels of a stream never land on the same place |
| Tga.Head | src/lib/tga.c:50-87 | reading a packet header consumes at least one byte and starts a run of 1 to 128 pixels; it fails exactly at the end of the file, or when a mapped run's index byte is missing |
| Tga.Pixel | src/lib/tga.c:56-106 | emitting one pixel of a run keeps the stream position ahead and the buffer's length |
| Tga.PixelPlaces | src/lib/tga.c:56-106 | the pixel lands at its place in the picture and changes only that word of the buffer |
| Tga.Rle | src/lib/tga.c:45-116 | run-length decoding never rejects once started, keeps the buffer's length and, when it completes, stores w and h first |
| Tga.RlePixel | src/lib/tga.c:56-106 | a pixel that cannot be read ends the decoding with a fault and the buffer untouched; otherwise decoding continues after it |
| Tga.Parse | src/lib/tga.c:3-119 | tga_parse rejects exactly the headers that fail its checks (an empty picture, an unknown type, a wrong colour map or depth) and then leaves the buffer alone; a completed decode stores w and h first |
| Tga.CopyStep | src/lib/tga.c:25-41 | copying one more pixel of a row writes only that pixel's word |
| Tga.Rows | src/lib/tga.c:23-42 | copying rows keeps the buffer's length |
| Tga.RowsNext | src/lib/tga.c:23-42 | the first y + 1 rows are the first y followed by a copy of file row `Row(y)` |
| Tga.DecodeUncompressed | src/lib/tga.c:19-43 | the loops of types 1 and 2 return `Uncompressed` and, on success, leave the buffer holding its pixels |
| Tga.WriteSize | src/lib/tga.c:115-116 | the first two words become w and h |
| Tga.DecodeRow | src/lib/tga.c:25-41 | a row is copied exactly when all its pixels lie in the file and the buffer; the buffer then holds the copy |
| Tga.DecodePixelOf | src/lib/tga.c:26-40 | one pixel is stored at its place when it can be read and fits the buffer, and nothing else changes |
| Tga.RowFault | src/lib/tga.c:23-43 | a row that cannot be read or stored means the whole picture cannot be decoded |
| Tga.RowsAt | src/lib/tga.c:23-43 | after y rows every pixel of those rows holds its source pixel |
| Tga.RowsKept | src/lib/tga.c:23-43 | and every other word of the buffer is unchanged |
| Tga.CopyOutside | src/lib/tga.c:25-28 | a row copy leaves the words outside the row alone |
| Tga.CopiedAt | src/lib/tga.c:23-43 | each word of a copied row holds the source pixel of its place |
| Tga.AllRowsReadable | src/lib/tga.c:23-43 | when all rows can be read, the whole picture can |
| Tga.DecodeRunLength | src/lib/tga.c:45-109 | the loops of types 9 and 10 return the status and buffer `Rle` gives from the start of the stream |
| Tga.DecodePacket | src/lib/tga.c:51-107 | one packet, header and pixels, advances the decoding as `Rle` does, or faults as it does |
| Tga.DecodePixel | src/lib/tga.c:56-106 | one pixel of a packet is stored as `Pixel` says, or faults with the buffer untouched |
| Tga.TgaParse | src/lib/tga.c:3-119 | tga_parse returns the status of `Parse` and, unless it faulted, leaves the buffer as `Parse` does (type 2 corrected to read from the pixel start) |
| Tga.TrueColorReadsHeader | src/lib/tga.c:36-39 | as written, the first pixel of a top-origin type 2 image is read at offset 0, inside the header, not at the pixel start |
| Tga.TrueColorOffsetShift | src/lib/tga.c:36-40 | for every pixel of a type 2 image, the corrected read lies 18 bytes, one header, after the offset as written |
| Mouse.BitOf | src/dev/input/mouse.c:67-71 | masking a single bit and shifting it down gives 0 or 1 |
| Mouse.Accept | src/dev/input/mouse.c:49-60 | a byte is dropped once the packet is full, and as a first byte without the sync bit; otherwise it is appended to the packet |
| Mouse.Resync | src/dev/input/mouse.c:55-57 | the stream from its first synced byte on starts with a synced byte |
| Mouse.FeedStarted | src/dev/input/mouse.c:49-60 | once a packet has started, the following bytes are taken as they come until it holds n bytes |
| Mouse.FeedFull | src/dev/input/mouse.c:51-53 | a full packet takes no more bytes until it is handled |
| Mouse.FeedFromEmpty | src/dev/input/mouse.c:49-60 | from an empty packet, a stream fills it with the first n bytes from its first synced byte on |
| Mouse.MotionRange | src/dev/input/mouse.c:76-85 | without its overflow bit a move is a 9-bit two's-complement value; with it the move reaches at most 255 further |
| Mouse.PlacedOnScreen | src/dev/input/mouse.c:87-101 | the pointer ends on the screen: a move inside it is followed exactly, a move up to 256 past the left or top edge stops at 0, one past the right or bottom edge at the last column or row |
| Mouse.FarPastEdge | src/dev/input/mouse.c:76-101 | a move of 257 to 511 past the left or top edge wraps below SIZE_MAX - UINT8_MAX, escapes the reset to 0 and ends at the far edge |
| Mouse.LeftOverflowJumps | src/dev/input/mouse.c:76-96 | at the left edge, a leftward packet with the X overflow bit set sends the pointer to the right edge |
| Mouse.Buttons | src/dev/input/mouse.c:67-71 | five button states of 0 or 1: left, right and middle are bits 0 to 2 of the first byte, the fourth and fifth bits 4 and 5 of the fourth byte |
| Mouse.LowBits | src/dev/input/mouse.c:67-69 | the three low button bits together are the first byte modulo 8 |
| Mouse.HighBits | src/dev/input/mouse.c:70-71 | the two extra button bits together are bits 4 and 5 of the fourth byte |
| Mouse.MoveAxis | src/dev/input/mouse.c:76-101 | one axis of the update, in 32-bit size_t arithmetic, gives `Placed` of the move and its overflow correction |
| Mouse.Driver.constructor | src/dev/input/mouse.c:8-21 | the static state starts empty, at position (0, 0), clean, with packet_bytes 0 |
| Mouse.Driver.SetPacketBytes | src/dev/input/mouse.c:160 | packets are 4 bytes for a wheel (ID 3) or five-button (ID 4) mouse and 3 otherwise; nothing else changes |
| Mouse.Driver.ReadPacket | src/dev/input/mouse.c:49-60 | the bytes received become `Accept` of those before; at most the one byte at packet_index is written and nothing else changes |
| Mouse.Driver.HandlePacket | src/dev/input/mouse.c:62-105 | an incomplete packet changes nothing; a complete one sets the buttons, remembers the old position, moves each axis as `Placed` says, restarts the packet and marks the pointer dirty |
| McProtocol.VarLen | src/mc/mcprotocol.c:48-57 | a VarInt takes at least one byte |
| McProtocol.VarLenBound | src/mc/mcprotocol.c:48-57 | a value below 128^n takes at most n bytes |
| McProtocol.VarLenU32 | src/mc/mcprotocol.c:48-57 | a 32-bit value takes 1 to 5 bytes |
| McProtocol.VarBytes | src/mc/mcprotocol.c:59-67 | the encoding of a value is exactly VarLen bytes long |
| McProtocol.VarLength | src/mc/mcprotocol.c:48-57 | the loop of mc_varlen returns VarLen of the value, 1 to 5 |
| McProtocol.VarBytesStep | src/mc/mcprotocol.c:60-63 | one loop step writes the low seven bits with the continuation bit and goes on with the value shifted by 7 |
| McProtocol.VarEncode | src/mc/mcprotocol.c:59-67 | mc_varencode writes the value's VarBytes at the pointer, returns the position after them and leaves every other byte alone |
| McProtocol.ReadLen | src/mc/mcprotocol.c:80-92 | the number of bytes the decoder reads is more than the bytes already read, at most 5, and inside the input |
| McProtocol.GroupsStep | src/mc/mcprotocol.c:82 | each byte read adds its low seven bits, shifted by 7 per earlier byte |
| McProtocol.GroupsPrefix | src/mc/mcprotocol.c:80-92 | what follows the bytes read does not change the value decoded |
| McProtocol.GroupsBound | src/mc/mcprotocol.c:80-92 | n groups of seven bits make a value below 128^n |
| McProtocol.VarDecoded | src/mc/mcprotocol.c:76-99 | the decoder consumes 1 to 5 bytes, all inside the input |
| McProtocol.VarDecode | src/mc/mcprotocol.c:76-99 | the loop of mc_vardecode returns the value and the end position `VarDecoded` gives |
| McProtocol.GroupsOfVarBytes | src/mc/mcprotocol.c:59-92 | summing the groups of an encoding gives the value back |
| McProtocol.VarBytesContinue | src/mc/mcprotocol.c:60-65 | every byte of an encoding but the last has the continuation bit |
| McProtocol.ReadLenOfVarBytes | src/mc/mcprotocol.c:80-92 | the decoder stops exactly at the end of an encoding, whatever follows it |
| McProtocol.VarRoundTrip | src/mc/mcprotocol.c:59-99 | decoding the encoding of any 32-bit value, followed by anything, gives the value and the encoding's length |
| McProtocol.DecodeReadsAtMostFive | src/mc/mcprotocol.c:87-91 | the decoder stops after five bytes, as the overflow check makes it |
| McProtocol.StrDecoded | src/mc/mcprotocol.c:101-108 | a string decodes to its length prefix followed by that many bytes, all inside the input |
| McProtocol.StrRoundTrip | src/mc/mcprotocol.c:69-108 | decoding an encoded string gives the string back and the position after it |
| McProtocol.Write32AsWrittenCorrupts | src/mc/mcprotocol.c:194-197 | as written, 0x12345678 goes out as 34 56 56 78 and reads back as 0x34565678 |
| McProtocol.Write32AsWrittenReadsBack | src/mc/mcprotocol.c:194-222 | as written, a value reads back as bytes 1-2 followed by bytes 2-3, so it survives exactly when its high half equals its middle half |
| McProtocol.Write32RoundTrip | src/mc/mcprotocol.c:194-222 | with `>> 16` (corrected), mc_read32 reads back every value mc_write32 writes |
| McProtocol.BytesBE64 | src/mc/mcprotocol.c:199-202 | a 64-bit value is written as eight bytes |
| McProtocol.Write64RoundTrip | src/mc/mcprotocol.c:199-226 | mc_read64 reads back every value mc_write64 writes, with the corrected mc_write32 |
| McProtocol.Write8 | src/mc/mcprotocol.c:185-187 | one byte is appended to the transmit buffer |
| McProtocol.WriteBytes | src/mc/mcprotocol.c:185-187 | the bytes are appended in order |
| McProtocol.Write16 | src/mc/mcprotocol.c:189-192 | the two big-endian bytes of the value are appended |
| McProtocol.Write32AsWritten | src/mc/mcprotocol.c:194-197 | as written, the bytes appended are those of `value >> 8` and of `value`, two each |
| McProtocol.Write32 | src/mc/mcprotocol.c:194-197 | corrected: the four big-endian bytes of the value are appended |
| McProtocol.Write64 | src/mc/mcprotocol.c:199-202 | the eight big-endian bytes of the value are appended |
| McProtocol.WriteVar | src/mc/mcprotocol.c:177-179 | the VarInt encoding of the value is appended |
| McProtocol.WriteStr | src/mc/mcprotocol.c:181-183 | the length-prefixed string is appended |
| McProtocol.Read8 | src/mc/mcprotocol.c:212-214 | the first unread byte is returned and consumed |
| McProtocol.Read16 | src/mc/mcprotocol.c:216-218 | the next two bytes are read big-endian and consumed |
| McProtocol.Read32 | src/mc/mcprotocol.c:220-222 | the next four bytes are read big-endian and consumed |
| McProtocol.Read64 | src/mc/mcprotocol.c:224-226 | the next eight bytes are read big-endian and consumed |
| McProtocol.ReadVar | src/mc/mcprotocol.c:204-206 | a VarInt is decoded from the unread bytes and exactly its bytes are consumed |
| McProtocol.ReadLenPrefix | src/mc/mcprotocol.c:80-92 | bytes after a complete VarInt do not change where the decoder stops |
| McProtocol.Framed | src/mc/mcprotocol.c:162-168 | a frame is the length prefix, the id and the body, nothing more |
| McProtocol.FramedDecodes | src/mc/mcprotocol.c:110-168 | the frame length mc_read_packet computes for a frame mc_wrap_send_packet built is exactly its size, and the id decodes after the prefix |
| McProtocol.WrapPacket | src/mc/mcprotocol.c:162-168 | the body already written is framed in place by prepending the length and the id |
| McProtocol.Accepted | src/mc/mcprotocol.c:116-124 | the bytes stored are the whole segment, or as many as fill the 16 KiB buffer |
| McProtocol.FitsLong | src/mc/mcprotocol.c:80-92 | five bytes are always enough for the decoder |
| McProtocol.Receiver.constructor | src/mc/mcprotocol.c:22-25 | the receiver starts with nothing stored or seen |
| McProtocol.Receiver.ReadPacket | src/mc/mcprotocol.c:110-160 | a first segment fixes the frame length; each segment is stored as far as the buffer allows; once the bytes seen reach the length, the frame is checked and delivered with its id, or refused as of invalid size, and the counters go back to 0 |
| McProtocol.Receiver.Store | src/mc/mcprotocol.c:116-127 | as much of the segment as fits is appended after the bytes stored |
| McProtocol.Receiver.Dispatch | src/mc/mcprotocol.c:136-154 | a frame whose prefix disagrees with the expected length is refused, any other delivered with the id and field offset `FrameId` gives |
| McProtocol.FrameId | src/mc/mcprotocol.c:141-142 | the id handed on is below 0xFF and the fields begin 2 to 10 bytes into the frame |
| McProtocol.FramedId | src/mc/mcprotocol.c:141-168 | a frame built with an id is delivered with that id modulo 0xFF, its fields starting right after the two VarInts |
| McProtocol.FrameLen | src/mc/mcprotocol.c:112-137 | the frame length is the announced length plus the length of its own prefix |
| Tcp.SeqCmpOffsets | src/net/tcp.c:284-285 | SEQ_CMP orders two sequence numbers less than half the space ahead of a common base as their distances from that base (RFC 793, section 3.3) |
| Tcp.OffsetAdd | src/net/tcp.c:216-219 | advancing a sequence number by n, modulo 2^32, advances its distance from any base by n |
| Tcp.HeaderBytes | src/net/tcp.c:174-184 | the fixed TCP header occupies exactly 20 bytes |
| Tcp.HeaderRoundTrip | src/net/tcp.c:642-650 | the header bytes, converted back as tcp_swap does, give every field that was written, whatever follows them |
| Tcp.Pseudo | src/net/tcp.c:203-208 | the pseudo header is 12 bytes long |
| Tcp.Padding | src/net/tcp.c:194-196 | the padding loop brings the header and options up to a multiple of four bytes, adding fewer than four |
| Tcp.UnsealedLayout | src/net/tcp.c:174-201 | before the checksum, a segment is header, the SYN's MSS option, then the data; the data offset covers exactly header and options and is a multiple of four, and the checksum field is zero |
| Tcp.WireFields | src/net/tcp.c:172-214 | a segment the kernel sends reads back with the given ports, sequence, acknowledgement, flags and window, a header length covering the options, the MSS option of a SYN, and the data unchanged |
| Tcp.WireChecks | src/net/tcp.c:203-211 | a segment the kernel sends checksums to zero together with its pseudo header (RFC 793, section 3.1) |
| Tcp.PatchedKeepsHeader | src/net/tcp.c:210-211 | writing the checksum changes only the checksum field: every other header field and all bytes after the header stay as they were |
| Tcp.PatchedAfter | src/net/tcp.c:203-211 | patching a field behind the pseudo header is the same as patching it in the whole checksummed buffer |
| Tcp.ParseOptions | src/net/tcp.c:29-59 | the option loop returns the specification walk: NOP is skipped, END stops, an option with length below 2 or running past the header fails, and the last MSS option's value is kept |
| Tcp.MssReadBack | src/net/tcp.c:29-59 | an MSS option after any number of NOPs is read back with its value, and parsing goes on right after it |
| Tcp.SynOptionsParse | src/net/tcp.c:187-192 | the MSS option the kernel puts in its own SYN parses back as MSS 1460 |
| TcpMachine.Releases | src/net/tcp.c:153-161 | tcp_free releases exactly one buffer per resequenced segment |
| TcpMachine.AfterAck | src/net/tcp.c:579-585 | once the ACK is handled, the data and FIN steps of tcp_recv_general never free the connection |
| TcpMachine.FirstConn | src/net/tcp.c:222-231 | tcp_find returns the first connection whose remote and local ends match the segment; nothing before it matches, and when it finds none, no connection matches |
| TcpMachine.Arrived | src/net/tcp.c:622-627 | the data of a received segment is the tail of the buffer after `off >> 2` header bytes, exactly the rest when the header fits and empty otherwise; it keeps the segment's sequence number and FIN flag |
| TcpMachine.DataLenAsWritten | src/net/tcp.c:554 | as written, data_len equals the arrived data's length when the header fits, and wraps to 2^32 minus the overshoot when the data offset points past the end |
| TcpMachine.LongOffsetPassesWindow | src/net/tcp.c:554-562 | a segment at rcv.nxt whose data offset points past its end passes the window check with a data_len of at least 2^32 - 64, although it carries no data |
| TcpMachine.Dispatch | src/net/tcp.c:614-627 | a segment handed to a connection is handed to one that exists in the list |
| TcpMachine.Receive | src/net/tcp.c:588-629 | a segment accepted by the length and checksum checks goes only to a connection that exists in the list |
| TcpConn.Conn.constructor | src/net/tcp.c:148 | a connection from tcp_alloc has every field zero |
| TcpConn.Stack.constructor | src/net/tcp.c:16-19 | the stack starts with no connections, an empty free list and nothing done |
| TcpConn.Stack.SetState | src/net/tcp.c:131-137 | the connection takes the new state and on_state is reported with the old and new state; nothing else changes |
| TcpConn.Stack.Enter | src/net/tcp.c:131-137 | tcp_set_state, with the TIME_WAIT timer set to 2 MSL ahead when the new state is TIME_WAIT |
| TcpConn.Stack.SendPacket | src/net/tcp.c:172-220 | the segment is handed to IPv4 and snd.nxt moves past it, exactly as TcpMachine.Send describes (its properties are TcpFacts.SendAdvances and TcpFacts.SentSegment) |
| TcpConn.Stack.ReleaseRun | src/net/tcp.c:156-160 | the loop frees each resequenced buffer of the run, in list order |
| TcpConn.Stack.Free | src/net/tcp.c:152-170 | a connection not yet CLOSED becomes CLOSED and frees its resequenced buffers; either way it is pushed on the free list once |
| TcpConn.Stack.Fail | src/net/tcp.c:233-239 | on_error is reported with the code, then the connection is freed |
| TcpConn.Stack.RecvSynSent | src/net/tcp.c:282-325 | the SYN_SENT handler does exactly what TcpMachine.SynSentStep says (its cases are proved in TcpFacts.SynSentRejectsAck, SynSentOpens and SynSentSimultaneous) |
| TcpConn.Stack.Open | src/net/tcp.c:303-317 | a SYN+ACK records the peer's ISN and window, enters ESTABLISHED, sends an ACK and reports on_connect |
| TcpConn.Stack.Simultaneous | src/net/tcp.c:303-323 | a bare SYN enters SYN_RECEIVED and resends the SYN with ACK from the same sequence number |
| TcpConn.Stack.RecvRst | src/net/tcp.c:327-346 | the RST handler does exactly what TcpMachine.RstStep says (its table is TcpFacts.RstTable) |
| TcpConn.Stack.RecvSyn | src/net/tcp.c:348-351 | a SYN in the window fails the connection with a reset |
| TcpConn.Stack.RecvAckOpen | src/net/tcp.c:367-400 | in the synchronized states the ACK advances snd.una and updates the window as TcpMachine.AckOpen says |
| TcpConn.Stack.RecvAck | src/net/tcp.c:353-412 | the ACK handler does exactly what TcpMachine.AckStep says for each state |
| TcpConn.Stack.FindStop | src/net/tcp.c:421-427 | the scan stops at the first resequenced segment that does not start before the new one |
| TcpConn.Stack.FindCover | src/net/tcp.c:449-466 | the scan passes exactly the segments the new one covers |
| TcpConn.Stack.RecvInsert | src/net/tcp.c:414-474 | the segment is linked into the resequence list as the corrected TcpResequence.Insert says |
| TcpConn.Stack.RecvProcess | src/net/tcp.c:476-494 | the segments at the head that start at rcv.nxt are delivered and freed in order and rcv.nxt moves past each (TcpFacts.ProcessDelivers) |
| TcpConn.Stack.RecvData | src/net/tcp.c:496-514 | in ESTABLISHED and FIN_WAIT_1/2 the data is queued, delivered where it can be and acknowledged; elsewhere nothing happens |
| TcpConn.Stack.RecvFin | src/net/tcp.c:516-550 | the FIN is acknowledged and the state follows tcp_recv_fin's switch (TcpFacts.FinTable) |
| TcpConn.Stack.RecvInWindow | src/net/tcp.c:569-585 | after the window and RST checks the SYN, ACK, data and FIN steps run as the corrected TcpMachine.GeneralStep says |
| TcpConn.Stack.RecvAfterAck | src/net/tcp.c:579-585 | the data step, then the FIN step |
| TcpConn.Stack.RecvGeneral | src/net/tcp.c:552-586 | tcp_recv_general does what the corrected TcpMachine.GeneralStep says: an out-of-window segment draws only an ACK, and processing ends once the connection is freed |
| TcpConn.Stack.Close | src/net/tcp.c:698-732 | tcp_close does what TcpMachine.CloseStep says for each state (TcpFacts.CloseTable) |
| TcpConn.Stack.SendData | src/net/tcp.c:734-736 | tcp_send sends the data with ACK from snd.nxt |
| TcpConn.Stack.PollOne | src/net/tcp.c:633-638 | a TIME_WAIT connection whose timer has run out is freed; any other is left alone |
| TcpConn.Stack.PollAt | src/net/tcp.c:632-639 | one more turn of the loop keeps the polled-prefix invariant |
| TcpConn.Stack.Poll | src/net/tcp.c:631-640 | every connection is stepped by TcpMachine.PollStep, the events are those of each connection in list order, and the freed connections are pushed on the free list |
| TcpConn.Stack.RecvClosed | src/net/tcp.c:249-280 | the events are exactly the reset TcpMachine.ResetReply describes: none for a RST or an unroutable source, RST with seq=ack for an ACK, RST+ACK acknowledging the segment otherwise |
| TcpConn.Stack.ResetConn | src/net/tcp.c:260-268 | the reset connection is fresh, zeroed, routed back to the source with its ends swapped |
| TcpConn.Stack.SendReset | src/net/tcp.c:270-278 | the reset is sent as TcpMachine.Reset says |
| TcpConn.Stack.Handle | src/net/tcp.c:620-627 | a SYN_SENT connection gets tcp_recv_syn_sent, a synchronized one tcp_recv_general, a LISTEN one nothing |
| TcpConn.Stack.HandleAt | src/net/tcp.c:620-627 | the handler changes only the k-th connection; every other keeps its fields |
| TcpConn.Stack.Deliver | src/net/tcp.c:614-628 | the segment goes to the connection TcpMachine.Dispatch names and to no other, or draws the closed-port reply |
| TcpConn.Stack.Recv | src/net/tcp.c:588-629 | what TcpMachine.Receive says happens, happens, to the connection it names and to no other |
| TcpConn.Stack.Find | src/net/tcp.c:222-231 | tcp_find's loop returns TcpMachine.FirstConn: the first connection addressed by the segment |
| TcpConn.FirstConnIs | src/net/tcp.c:222-231 | FirstConn is the index before which no connection matches and at which one does, or none |
| TcpFacts.SendAdvances | src/net/tcp.c:172-219 | tcp_send_packet transmits exactly one segment on the connection's interface and next hop, and changes only snd.nxt, which moves ahead by the data length plus one for SYN or FIN |
| TcpFacts.SentSegment | src/net/tcp.c:172-214 | the segment sent carries the connection's addresses and ports, the sequence number asked for, rcv.nxt as ack only when ACK is set, the flags, a word-aligned header length and the data after it, and checksums to zero with its pseudo header |
| TcpFacts.SynSentRejectsAck | src/net/tcp.c:284-291 | in SYN_SENT an ACK outside (iss, snd.nxt] changes nothing and draws a RST with seq=ack, unless the segment is itself a RST |
| TcpFacts.SynSentOpens | src/net/tcp.c:302-317 | in SYN_SENT an acceptable SYN+ACK sets rcv.irs and rcv.nxt = seq + 1 and snd.una = ack, enters ESTABLISHED, sends an ACK of seq + 1 and reports on_connect exactly once, last |
| TcpFacts.OpenShape | src/net/tcp.c:312-317 | the open branch changes the state, sends one ACK of rcv.nxt and reports on_connect once, in that order |
| TcpFacts.SynSentSimultaneous | src/net/tcp.c:302-323 | in SYN_SENT a bare SYN enters SYN_RECEIVED and resends SYN+ACK from snd.nxt - 1, leaving snd.nxt as it was, and never reports on_connect |
| TcpFacts.OutOfWindow | src/net/tcp.c:556-562 | a segment outside [rcv.nxt, rcv.nxt + rcv.wnd] changes nothing and only draws an ACK of rcv.nxt from snd.nxt, or nothing when it is a RST |
| TcpFacts.RstTable | src/net/tcp.c:327-346 | a RST refuses a SYN_RECEIVED connection, resets ESTABLISHED, FIN_WAIT_1/2 and CLOSE_WAIT, frees CLOSING, LAST_ACK and TIME_WAIT silently, and is ignored otherwise |
| TcpFacts.FinTable | src/net/tcp.c:516-550 | a FIN is acknowledged with seq + 1, rcv.nxt becomes seq + 1, and the state follows the switch, with the TIME_WAIT timer restarted on entering TIME_WAIT |
| TcpFacts.FinNextRows | src/net/tcp.c:522-549 | the FIN switch: SYN_RECEIVED and ESTABLISHED go to CLOSE_WAIT, FIN_WAIT_1 to TIME_WAIT if its FIN is acknowledged and to CLOSING otherwise, FIN_WAIT_2 to TIME_WAIT, and the others stay |
| TcpFacts.CloseTable | src/net/tcp.c:698-732 | tcp_close frees a CLOSED, LISTEN or SYN_SENT connection, sends FIN+ACK and enters FIN_WAIT_1 (LAST_ACK from CLOSE_WAIT), and only reports TCP_CONN_CLOSING in the closing states |
| TcpFacts.PollTable | src/net/tcp.c:633-637 | tcp_poll frees a connection if and only if it is in TIME_WAIT and its timer has run out, and leaves every other untouched |
| TcpFacts.DeliveredDataAppend | src/net/tcp.c:476-494 | the data delivered by two runs of events is the data of the first followed by the second's |
| TcpFacts.DeliveriesData | src/net/tcp.c:484-491 | delivering a list of segments hands on_data their data joined in list order |
| TcpFacts.JoinedSnoc | src/net/tcp.c:476-494 | joining a list with one more segment appends that segment's data |
| TcpFacts.ProcessDelivers | src/net/tcp.c:476-494 | tcp_recv_process delivers exactly the contiguous ready prefix of the list, in order, removes it, moves rcv.nxt past its bytes, changes nothing else, and leaves a head that does not start at rcv.nxt |
| TcpFacts.ActiveClose | src/net/tcp.c:353-732 | close, ACK of the FIN, peer FIN, and the timer running out take ESTABLISHED through FIN_WAIT_1, FIN_WAIT_2 and TIME_WAIT to CLOSED, freeing the connection once, at the end |
| TcpFacts.PassiveClose | src/net/tcp.c:353-732 | peer FIN, close and the ACK of our FIN take ESTABLISHED through CLOSE_WAIT and LAST_ACK to CLOSED, freeing the connection once, at the end |
| TcpFacts.SinceReleases | src/net/tcp.c:152-170 | the events after the last close, extended by buffer releases, are the earlier ones followed by those releases |
| TcpFacts.FreeQuiet | src/net/tcp.c:152-170 | freeing an open connection ends with its CLOSED change followed only by buffer releases, never a transmission |
| TcpFacts.ReleasesAreReleased | src/net/tcp.c:156-160 | the events of freeing the resequenced segments are all buffer releases |
| TcpFacts.AckQuiet | src/net/tcp.c:353-412 | the ACK handler sends nothing from a connection after freeing it, and a connection it leaves CLOSED it has freed |
| TcpFacts.RstQuiet | src/net/tcp.c:327-346 | the RST handler sends nothing after freeing the connection |
| TcpFacts.FailQuiet | src/net/tcp.c:233-239 | tcp_error sends nothing after freeing the connection |
| TcpFacts.SynQuiet | src/net/tcp.c:348-351 | the SYN handler sends nothing after freeing the connection |
| TcpFacts.GeneralQuiet | src/net/tcp.c:552-586 | the corrected tcp_recv_general never sends from a connection it has freed |
| TcpFacts.AsWrittenSendsAfterFree | src/net/tcp.c:569-585 | as written, an in-window SYN+ACK+FIN frees the connection in tcp_recv_syn and then transmits the FIN's ACK from the freed connection |
| TcpResequence.Shortened | src/net/tcp.c:436-458 | moving a buffer's end back by k keeps its start, sequence number and FIN flag and leaves a prefix of its data, k bytes shorter (empty if it had fewer) |
| TcpResequence.Stop | src/net/tcp.c:421-427 | the first scan stops at the first held segment that does not start before the new one; every segment it passes starts before it |
| TcpResequence.Cover | src/net/tcp.c:449-466 | the second scan passes exactly the segments the new data reaches to the end of, and stops at the first that starts after the new end or reaches past it |
| TcpResequence.Before | src/net/tcp.c:429-437 | the part of the list up to prev keeps its length (prev is cut back, not removed) |
| TcpResequence.After | src/net/tcp.c:440-466 | the list resumes at or after cur |
| TcpResequence.Clipped | src/net/tcp.c:457-459 | cutting the new segment back keeps its sequence number |
| TcpResequence.Spliced | src/net/tcp.c:468-473 | the spliced list holds the part before, the new segment, and the part kept after it |
| TcpResequence.InsertAsWritten | src/net/tcp.c:414-474 | as written, the list afterwards holds at most the new segment and cur, unless the new segment was dropped |
| TcpResequence.AsWrittenLosesSegments | src/net/tcp.c:468-473 | as written, with [10, 15) and [20, 25) held, a segment at 40 leaves the list holding only itself and frees neither of the others |
| TcpResequence.AsWrittenLosesCount | src/net/tcp.c:468-473 | as written, whenever the new segment is kept, the segments before cur and those after the first one it does not cover leave the list without being freed |
| TcpResequence.InsertConserves | src/net/tcp.c:414-474 | the corrected insertion loses nothing: each held segment and the new one is still in the list from the same sequence number, or freed, and the two together number one more than before |
| TcpResequence.Gap | src/net/tcp.c:436-458 | the amount cut, `y - x` modulo 2^32, is the difference of the two distances from the base |
| TcpResequence.ShortenedEnd | src/net/tcp.c:436-458 | cutting k bytes off a segment moves its end back by k |
| TcpResequence.StopOffsets | src/net/tcp.c:421-427 | in an ordered list the first scan splits the segments into those starting before the new one and those starting at or after it |
| TcpResequence.BeforeOffsets | src/net/tcp.c:429-437 | after prev is cut back, every segment before cur starts where it did and ends where it did or earlier, and before the new segment starts |
| TcpResequence.ClippedOffsets | src/net/tcp.c:449-466 | the new segment as placed ends where it did or earlier, and before the first segment kept after it |
| TcpResequence.ClippedAt | src/net/tcp.c:453-459 | against the segment at j, the new one is cut exactly when it does not end before that segment starts |
| TcpResequence.ClipAgainst | src/net/tcp.c:457-459 | a new segment reaching past the start of the next held one is shortened to end exactly there |
| TcpResequence.InsertKeepsOrder | src/net/tcp.c:414-474 | the corrected insertion of a segment that fits keeps the list in sequence order with no overlaps |
| TcpResequence.Ready | src/net/tcp.c:476-494 | tcp_recv_process delivers at most the whole list |
| TcpResequence.ReadyStopsAtGap | src/net/tcp.c:477-492 | delivery stops exactly at a gap: rcv.nxt moves past every delivered segment's data, and what is left is empty or does not start at the new rcv.nxt |
| TcpResequence.ReadyAdvancesByData | src/net/tcp.c:483-484 | in an ordered list, rcv.nxt ends up exactly the total delivered length ahead, less than half the sequence space |
| TcpResequence.ReadyContiguous | src/net/tcp.c:477-492 | the delivered segments of an ordered list are back to back |
| TcpLinks.Chain | src/net/tcp.c:222-231 | walking next pointers from a connection meets at most n connections |
| TcpLinks.RunsJoin | src/net/tcp.c:163-169 | two linked runs, the first ending where the second starts, form one run |
| TcpLinks.RunsSplit | src/net/tcp.c:163-169 | a linked run splits into two runs, the first ending where the second starts |
| TcpLinks.RunsUpdate | src/net/tcp.c:167 | writing the next field of a connection outside a run leaves the run as it was |
| TcpLinks.ChainFollows | src/net/tcp.c:222-231 | walking a threaded list from its head meets exactly its connections, in order |
| TcpLinks.FreeAsWritten | src/net/tcp.c:163-169 | as written, tcp_free makes the connection the head of the free list, pointing at the old head, without touching tcp_conn_list |
| TcpLinks.FreeAsWrittenCuts | src/net/tcp.c:163-169 | as written, once the i-th connection of tcp_conn_list is freed, walking tcp_conn_list meets the connections up to it and then the free list |
| TcpLinks.RegroupedChain | src/net/tcp.c:163-169 | a list regrouped around its i-th element is walked as its first i + 1 connections followed by the free list |
| TcpLinks.CutRuns | src/net/tcp.c:167 | after the write, the connections up to the i-th run on into the free list |
| TcpLinks.FreeRuns | src/net/tcp.c:167-169 | the freed connection, linked to the head of the free list, runs on down it |
| TcpLinks.FreeAsWrittenLosesLater | src/net/tcp.c:163-169 | as written, with the free list empty, every connection after the freed one becomes unreachable from tcp_conn_list, so tcp_find and tcp_poll no longer meet it |
| TcpLinks.Around | src/net/tcp.c:163-169 | a list is what comes before its i-th element, that element, and what comes after |
| TcpLinks.Regroup | src/net/tcp.c:163-169 | the first i + 1 connections followed by the free list regroup around the i-th, from the same head |
| TcpLinks.FreeUnlinked | src/net/tcp.c:163-169 | the corrected tcp_free makes the freed connection the head of the free list, pointing at the old head |
| TcpLinks.FreeUnlinks | src/net/tcp.c:152-170 | the corrected tcp_free keeps both lists threaded: tcp_conn_list loses exactly the freed connection and the free list gains it at its head |
| TcpLinks.UnlinkedList | src/net/tcp.c:152-170 | after the corrected tcp_free, tcp_conn_list is every other connection, in order |
| TcpLinks.UnlinkedFree | src/net/tcp.c:163-169 | after the corrected tcp_free, the free list is the freed connection followed by the old free list |
| TcpLinks.UnlinkRuns | src/net/tcp.c:152-170 | once bypassed, the connection is out of tcp_conn_list and the others still follow each other from the new head |
| TcpLinks.UnlinkLater | src/net/tcp.c:152-170 | bypassing a connection with a predecessor makes the predecessor run on to what followed it |
| TcpLinks.Pieces | src/net/tcp.c:152-170 | the pieces of a list around its i-th element and the one before it |
| TcpLinks.Bypass | src/net/tcp.c:152-170 | with p linked to c, giving p c's next makes the run up to p go on with what followed c |
| TcpLinks.RunsNotIn | src/net/tcp.c:163-169 | the free list still runs once the predecessor of the freed connection has a new next field |
| TcpLinks.AllocPops | src/net/tcp.c:139-150 | tcp_alloc takes the head of a non-empty free list and leaves the rest of it threaded |
| TcpLinks.Push | src/net/tcp.c:685-690 | tcp_connect makes the connection the head of tcp_conn_list, pointing at the old head |
| TcpLinks.PushThreads | src/net/tcp.c:685-690 | pushing a connection not yet listed puts it first, with the rest of tcp_conn_list following unchanged |
| CInt.Swap16 | src/net/in.h:6-8 | net_swap16 exchanges the high and low byte |
| CInt.Swap16Involutive | src/net/in.h:6-8 | swapping twice gives the value back |
| Arp.ArpCache.constructor | src/net/arp.c:24 | the static cache starts with all 16 entries empty |
| Dns.Resolver.constructor | src/net/dns.c:13-23 | no DNS server is known and the entry list is empty at start |
| FrameAllocator.Allocator.constructor | src/cpu/paging.c:73-78 | the allocator holds the bitmap and the three counters it is given, with the search index at the start |
| Intf.Interface.constructor | src/net/intf.c:9-13 | a new interface is all zero after its memset, apart from where its page lies |
| Intf.InterfaceList.constructor | src/net/intf.c:6-7 | the interface list starts empty |
| NetBuf.Buf.constructor | src/net/buf.c:20-23 | a new buffer owns a whole page, starts and ends at NET_BUF_START and has one reference |
| NetBuf.Pool.constructor | src/net/buf.c:7-8 | the pool starts with no free buffers and none allocated |
| Port.PortCounter.constructor | src/net/port.c:3 | the ephemeral port counter starts at 49152 |
| Route.RouteTable.constructor | src/net/route.c:7 | the route list starts empty |

## Left out

- Dhcp.ServerIdBytes: a request answering an offer without option 54 carries 0.0.0.0 here. The C dereferences the null `server_id` pointer.
- Dhcp.ByteAt: a byte the option parser reads past the end of the packet is taken as 0. The C reads whatever follows in the frame.
- Dns.Resolver.Recv: a reply shorter than its 2-byte identifier delivers nothing. The C reads the identifier from the frame anyway.
- Strings.StrstrWithin: requires the needle to be no longer than `limit`. For a longer needle, the C's unsigned `limit - strlen(b)` wraps and the scan runs past the haystack.
- Stdlib.Itoa: excludes INT64_MIN, whose negation overflows in C.
- PageTable.Directory.PhysAddr: requires the address's page table to be present. pde_get_phys_addr dereferences a null table otherwise.
- Process.Scheduler.MakeReady: requires the process not to be queued already. make_process_ready would link it in twice and corrupt the queue.
- Process.Scheduler.Spawn: pids are unbounded integers. The C's `++current_pid` on a pid_t would wrap after 2^31 spawns.
- Heap.Heap.Malloc: requires the heap to stay below 4 GiB after growing. The C's 32-bit addresses would wrap past that.
- Heap.Heap.constructor: only the segment layout heap_init writes is modelled. Its loop mapping the heap pages through pde_map_memory is not.
- McProtocol.Receiver.ReadPacket: requires the first segment of a packet to hold its whole VarInt length prefix. The handlers it dispatches to are returned as the `Completed` value rather than called. mc_dump and the terminal output are left out.
- Vfs.ReadFilesystem: requires the image to hold a whole header. The C's check for a null image pointer is not modelled.
- Vfs.FollowLinks: the walks carry a fuel bound, and a walk that leaves the image or runs out of fuel is `Stuck`. In C a cyclic chain of links loops forever and a bad offset reads outside the image.
- Arp.RequestedPending: states the pending packet only for a request that does not evict an entry. When arp_add evicts, slot 15's pending packet pointer stays shared with the new entry. Arp.FullCacheRequestFreesShared shows that case.
- Tga.Parse: computes `w * h` exactly, where the C's `int` product overflows for large headers. A read or write outside the file or the buffer, which the C performs unchecked, ends decoding with `Fault`.
- TcpConn.Stack.Free: tcp_free's connection stays in `conns`, and its `next` field is not modelled. The pointer-level effect on tcp_conn_list and free_conn_list is modelled in TcpLinks. The `prev` fields are written but never read, so they are not modelled.
- Route.RouteTable.FindRouteAsWritten: requires a non-empty route list. On an empty list the C dereferences the null head.
- Route.RouteTable.FindRoute: tests every route, as corrected under "## Findings". Ipv4.Send, Udp.Send and TcpConn.Stack.RecvClosed look routes up through it, so no send path shows the as-written miss of the last route.
- Ipv4.Recv: admits a datagram by the corrected Ipv4.Accepts, which also checks the header length. The as-written check is Ipv4.RecvAsWritten.
- Heap.Heap.Free: merges neighbours with the corrected merge, which unlinks the absorbed segment.
- FrameAllocator.Allocator.GetBit: refuses index `size * 8`, as does FrameAllocator.Allocator.SetBit; the C guard admits it.
- McProtocol.Write64: is built on the corrected Write32, so its round trip holds where the C's does not.
- Gdt.TaskState.EncodeTss: uses the corrected TSS limit, `sizeof(tss) - 1`.
- Tga.Parse: reads type 2 pixels from after the header and colour map, the corrected offset.
- TcpConn.Stack.RecvGeneral: returns once the connection is freed, the corrected control flow.
- TcpConn.Stack.RecvInsert: links the segment between its neighbours, the corrected insertion.
- Process.Scheduler.NextReapable: releases the reap lock on the empty path too, the corrected behaviour.
- The NULL results of net_alloc_buf and pfa_request_page, when memory is exhausted, are not modelled. Every allocation succeeds.
- The kernel's own atoi is not part of this model. The address parsers of src/net/addr.c use BootUtil.Atoi, the boot loader's atoi from mishaboot/lgbt/util.c, in its place.
- Strings: a C `char` is a Dafny `char`, and characters are not restricted to 0..255. Only on those values does the ordering of `char`s coincide with the unsigned byte comparison of strcmp and memcmp. No text encoding is modelled.
- Time: the leap-year rule is the one time.c uses (`year % 4 == 0`), so years such as 2100 are counted as leap years, as in the C.
- Rtc.Cmos.GetTime: the wait for the update-in-progress flag and `pit_sleep` are left out. The CMOS registers are a byte sequence the class holds, rather than ports 0x70/0x71.
- Mouse: the port reads and writes of mouse_init and its helpers are left out. The byte the interrupt handler reads is a parameter, and so is the screen size.
- Terminal output, kprintf and the `*_dump` printers of the network files are left out.
- pfa_read_memory_map, pde_init and enable_paging are not part of this model. They read the multiboot map and write control registers. The allocator is constructed from the bitmap and counters they would compute.
- tcp_connect, tcp_init and tcp_new_conn are not part of this model. They take the initial sequence number from the RTC and PIT clocks. Only their list push is modelled (TcpLinks.Push).
- fork, clone, switch_task and the reap path in assembly are not part of this model. The scheduler's queues and fd lists are.
- src/sys/lock.c is not part of this model, because it is about concurrency. The reap queue's lock is modelled as a boolean that is taken and released.

## Findings

| source | as written | input that shows it | evidently intended | confidence | as-written member | corrected member |
|---|---|---|---|---|---|---|
| src/mc/mcprotocol.c:194-197 | mc_write32 writes the high half as `value >> 8` | 0x12345678 goes out as 34 56 56 78 and reads back as 0x34565678 | the high half is `value >> 16`, so that mc_read32 reads back every value | not executed | McProtocol.Write32AsWrittenCorrupts | McProtocol.Write32RoundTrip |
| src/net/route.c:9-17 | net_find_route's loop runs while `route->next`, so the last route is never tested | a table holding only the default route 0.0.0.0/0 finds no route for any destination | every route is tested, and the first match is returned | not executed | Route.DefaultRouteMissed | Route.RouteTable.FindRoute |
| src/cpu/paging.c:96-120 | pfa_get_bit and pfa_set_bit refuse only `index > size * 8` | index `size * 8` passes the check and touches the byte one past the bitmap | refuse `index >= size * 8` | not executed | FrameAllocator.GuardAdmitsPastEnd | FrameAllocator.Allocator.GetBit |
| src/lib/time.c:47-52 | join_time counts years from 1900, while split_time and the RTC give full years | 1 January 1970 00:00 joins to -171311744 instead of 0 | join_time inverts split_time | not executed | Time.JoinAsWrittenMissesEpoch | Time.JoinInvertsSplit |
| src/sys/heap.c:19-37 | heap_combine_forward grows the segment but never sets `seg->next` past the absorbed one | two free 32-byte segments at 0x1000 and 0x1030: the merged segment still links to 0x1030, a header marked free inside its own payload | the absorbed segment is unlinked | not executed | Heap.CombineForwardAsWrittenKeepsAbsorbed | Heap.Merged |
| src/lib/tga.c:36-43 | the type 2 loop reads pixels from offset 0 of the file | any top-origin true-colour image: its first pixel is read from the header bytes | pixels are read from the pixel start after the header and colour map | not executed | Tga.TrueColorReadsHeader | Tga.UncompressedInside |
| src/net/ipv4.c:33-41 | ipv4_recv never checks the header length against the total length | IHL 15 with a total length of 20 is accepted, and start moves 60 bytes past a 20-byte end | refuse a header length below 5 words or longer than the datagram | not executed | Ipv4.LongIhlPassesAsWritten | Ipv4.Accepts |
| src/net/dns.c:42-70 | dns_get_ip4_a reads on past the packet's end | a 12-byte reply announcing one answer returns the stale A record 10.0.0.1 left in the frame after it | reads stop at the packet's end | not executed | Dns.StaleAnswerAsWritten | Dns.AnswerInPacket |
| src/net/tcp.c:468-473 | tcp_recv_insert sets `conn->resequence = packet`, dropping everything before and after the link it makes | with [10, 15) and [20, 25) held, a segment at 40 leaves only itself in the list, and neither buffer is freed | the segment is linked between `prev` and `cur` | not executed | TcpResequence.AsWrittenLosesSegments | TcpResequence.InsertConserves |
| src/net/tcp.c:565-585 | tcp_recv_general goes on after tcp_recv_syn or tcp_recv_ack has freed the connection | an in-window SYN+ACK+FIN with no data is reset by tcp_recv_syn, and tcp_recv_fin then sends an ACK from the freed connection | return once the connection is freed | not executed | TcpFacts.AsWrittenSendsAfterFree | TcpFacts.GeneralQuiet |
| src/net/tcp.c:152-170 | tcp_free pushes the connection on free_conn_list through its `next` field without unlinking it from tcp_conn_list | freeing the first of two connections while the free list is empty makes the second unreachable for tcp_find and tcp_poll | unlink the connection before pushing it | not executed | TcpLinks.FreeAsWrittenLosesLater | TcpLinks.FreeUnlinks |
| src/net/tcp.c:554 | data_len is `end - start` after start moved `off >> 2` bytes, as a uint32_t | a 20-byte segment at rcv.nxt with data offset 0xF0 has data_len 2^32 - 40 and passes the window check | a header longer than the segment leaves no data | not executed | TcpMachine.LongOffsetPassesWindow | TcpMachine.Arrived |
| src/sys/process.c:196-199 | next_reapable_process returns 0 on an empty queue before releasing reap_lock | asking an empty reap queue leaves the lock held, so the next make_process_reapable spins forever | the lock is released on both paths | not executed | Process.EmptyReapKeepsLock | Process.Scheduler.NextReapable |
| src/net/addr.c:12-34 | ethtoa and ip4toa continue at the pointer itoa returns, which is one past the NUL | any address of two or more octets reads, as a C string, as its first octet only | each separator overwrites the NUL | not executed | Addr.AsWrittenDropsOctets | Addr.Ip4toa |
| src/lib/time.c:54-116 | format_time continues at the pointer itoa returns, one past the NUL | every date reads, as a C string, "Www, DD" only | the fields follow each other in one C string | not executed | Time.AsWrittenStopsAtDay | Time.FormatTime |
| src/lib/time.c:54-116 | the stored characters of format_time, NULs included, take 36 bytes or more | any date overruns the 34-byte time string buffer | the text fits the buffer | not executed | Time.AsWrittenOverflows | Time.SplitFits |
| src/lib/time.c:101-115 | format_time writes '+' and then `tz / 60` zero-padded, so a zone west of UTC has no sign of its own | UTC-7 comes out as "+0-7" | "-07:00" | not executed | Time.AsWrittenZoneNegative | Time.LocalZoneText |
| src/sys/mount.c:35-43 | open copies a path component into the 257-byte `token` without checking its length | a path whose first component has 257 bytes or more and is followed by `/` is copied past the end of `token` | an over-long component is never found | not executed | Mount.LongComponentOverflows | Mount.LongComponentNotFound |
| src/cpu/gdt.c:22-23 | tss_encode_entry uses `base + sizeof(tss)` as the limit, an end address rather than a size | a TSS at 0x105000 gets the limit 0x5068, far past its 104 bytes | the limit is `sizeof(tss) - 1` | not executed | Gdt.TssLimitAsWrittenTooLarge | Gdt.TssDescriptorSpansTss |
