# network-Learning packet decoder, modelled in Dafny

network-Learning is a small C++ packet sniffer built on libpcap. Its core
is a layered, read-only decoder. A `Datagram` owns the captured bytes, and a
chain of `DatagramFragment` views lies over them. Each view is a pointer
into a data block plus a length. It either owns its block or borrows the
block of the layer below:

- `EthernetFrame`, with its 802.1Q tag;
- `IPPacket`, with its options;
- `ICMPPacket`, `TCPSegment`, `UDPSegment` and `TFTPDatagram`;
- `ARPPacket`;
- `MacAddress` and `IPAddress`.

Every accessor reads a fixed position of the view in network byte order.
Accessors whose field depends on a type code throw `EBadTransportException`
or `EBadHardwareException` when the code does not match. The sniffer's
`process_packet` callback decodes each captured frame. With the ARP-spoof
tool on, it records the target address of every ARP request. It raises an
alert for any ARP reply whose sender no pending request named.

This project models these pieces:

- the byte views;
- every decoder layer;
- the address types, with their comparison operators and printed forms;
- the ARP-spoof tracker with its capture count.

The views are values: `Octets.View` is a pointer `Null | Into(block, at)`
plus a length. `Fragments.DatagramFragment` and `Datagrams.Datagram` are the
classes that own, copy and overwrite arrays. `ArpSpoof.Sniffer` holds the
state `process_packet` keeps from one call to the next.

Exceptions become `Outcome.Result`:

- the exception messages of the source are kept verbatim in
  `TransportMismatch` and `HardwareMismatch`;
- `Truncated` stands for a read past the end of the view. The source does
  no bounds checks at all there, so its behaviour is undefined.
- `Truncated` also stands for the unsigned underflow of
  `length() - header_length()` when an upper-layer view is built over a
  view shorter than its header (Octets.Payload, EthernetFrame.Ip4,
  EthernetFrame.Arp, IpPacket.IcmpPayload, IpPacket.TcpPayload,
  IpPacket.UdpPayload, UdpSegment.Tftp). The source would go on with a
  wrapped length, and every read through it would be past the end.

Accessors that return a plain value ask, in `requires`, only for the bytes
they read.

Where the code disagrees with what it was evidently designed to do, the
model follows the code:

- the ICMP key in `description()`: the 41 cases of its switch are laid out
  as the type in the high byte and the code in the low byte;
- the option advance in `count_options()` and `option_header()`: RFC 791
  says an option's length octet counts its type and length octets too;
- the TFTP opcode mapping: tftp.h:32 declares a `tftp_error` operation,
  and section 5 of RFC 1350 gives it opcode 5.

These gaps are in the Findings below.

The one place the model departs from the code is the set of pending ARP
requests in `process_packet`. Its keys are borrowed `IPAddress` views into
the captured frame's Datagram (sniff11.cpp:86, 123), and that Datagram
frees its bytes when `process_packet` returns (datagram.cpp:40-42), so
later lookups read freed memory. What they would find is undefined, so
only the intended behaviour is modelled: the set keeps the address bytes
(see "## Left out").

## Model

| member | source | states |
|---|---|---|
| Octets.Char2Word | datagramfragment.cpp:144-147 | the value is below 2^16, and its high and low bytes are the two bytes read |
| Octets.Char4Word | datagramfragment.cpp:150-158 | the value folded byte by byte is below 2^32, and each of its four bytes is the byte read at that place |
| Octets.Word16Bytes | datagramfragment.cpp:144-147 | the encoder of a 16-bit word: char2word of its two bytes gives the word back |
| Octets.Word32Bytes | datagramfragment.cpp:150-158 | the encoder of a 32-bit word: char4word of its four bytes gives the word back |
| Octets.Char2WordInjective | datagramfragment.cpp:144-147 | two byte pairs with the same char2word are the same pair |
| Octets.Char4WordRoundTrip | datagramfragment.cpp:150-158 | encoding the char4word of four bytes gives the four bytes back |
| Octets.Low12 | ethernetframe.cpp:65-71 | char2word & 0x0FFF keeps the low nibble of the first byte above the whole second byte |
| Octets.Middle6 | tcpsegment.cpp:62-64 | (char2word & 0x0FC0) >> 6 is the low nibble of the first byte above the top two bits of the second |
| Octets.Sub | macaddress.cpp:30-31 | a borrowed address view covers exactly the n bytes at k, in the same block, moved by k |
| Octets.Data | datagramfragment.cpp:60-65 | data() points into the same block just past the header when a byte follows it, and is NULL otherwise |
| Octets.Payload | udpsegment.cpp:57-59 | the upper-layer view has length length() - header_length() and holds exactly the bytes after the header; it shares the block just past the header, or is NULL when no byte follows the header; it fails (Truncated) exactly when the header is longer than the view |
| BitOps.Shr5 | ethernetframe.cpp:43-49 | C's b >> 5 on a byte equals the division by 32 the model uses |
| BitOps.Shr4 | ippacket.cpp:41-43 | C's b >> 4 equals division by 16 |
| BitOps.Shr4And1 | ethernetframe.cpp:54-60 | C's (b >> 4) & 1 equals bit 4 as division and remainder |
| BitOps.And0F | ippacket.cpp:46-48 | C's b & 0x0F equals the remainder modulo 16 |
| BitOps.And1F | ippacket.cpp:145-146 | C's b & 0x1F equals the remainder modulo 32 |
| BitOps.And60Shr5 | ippacket.cpp:145 | C's (b & 0x60) >> 5 equals the option class as division and remainder |
| BitOps.Mask0FFF | ethernetframe.cpp:65-71 | on 16-bit vectors, char2word & 0x0FFF is the word of the masked first byte and the second byte |
| BitOps.Mask0FC0 | tcpsegment.cpp:62-64 | on 16-bit vectors, (char2word & 0x0FC0) >> 6 is the low nibble of the first byte shifted by 2, or-ed with the top two bits of the second |
| BitOps.ReservedValue | tcpsegment.cpp:62-64 | the bit-vector reserved field has the value Octets.Middle6 gives |
| Fragments.CopyOf | datagramfragment.cpp:41-42 | `new` plus memcpy: a fresh block holding exactly the n bytes of the source from position at |
| Fragments.DatagramFragment.View | datagramfragment.cpp:55-70 | the value view has the fragment's length and bytes, and is NULL exactly when the fragment has no block |
| Fragments.DatagramFragment.Length | datagramfragment.cpp:55-57 | length() is the number of bytes the fragment covers |
| Fragments.DatagramFragment.Empty | datagramfragment.cpp:24-25 | a fragment with no block and no bytes, with the ownership given |
| Fragments.DatagramFragment.constructor | datagramfragment.cpp:34-46 | an owned fragment gets a fresh block holding a copy of the l bytes; a borrowed one points at the source position; either way it covers those l bytes |
| Fragments.DatagramFragment.Copy | datagramfragment.cpp:28-31 | the copy has the same ownership, length and bytes; a borrowed source is shared, an owned one copied into a fresh block |
| Fragments.DatagramFragment.Assign | datagramfragment.cpp:81-114 | self-assignment changes nothing; otherwise length, bytes and ownership become d's, owned bytes go to a fresh block (or none when d is empty), and borrowed ones share d's block |
| Fragments.DatagramFragment.Overwrite | datagramfragment.cpp:73-78 | the covered bytes become the first len bytes of s, every other byte of the block and every field stays, and nothing happens without a block |
| Fragments.DatagramFragment.Equals | datagramfragment.cpp:117-127 | true exactly when the lengths and all the bytes agree |
| Datagrams.Datagram.Empty | datagram.cpp:25-28 | a datagram with no block and length 0 |
| Datagrams.Datagram.constructor | datagram.cpp:31-37 | a fresh block holding a copy of the first l captured bytes |
| Datagrams.Datagram.Length | datagram.cpp:45-47 | length() is the number of bytes held |
| Datagrams.Datagram.Overwrite | datagram.cpp:50-55 | the bytes become the first length() bytes of s, in place, and the length stays |
| Datagrams.Datagram.Ethernet | datagram.cpp:95-97 | ethernet() is a fresh borrowed fragment over the same block, with the same length and bytes |
| Datagrams.Datagram.Frame | datagram.cpp:95-97 | the value view of the Ethernet fragment holds the datagram's bytes |
| Datagrams.EthernetAliases | datagram.cpp:95-97 | writing through the borrowed Ethernet fragment changes the datagram's own bytes |
| ByteOrder.SameFromAgrees | macaddress.cpp:61-71 | the comparison loop of operator== (ByteOrder.SameFrom), begun where the bytes so far agree, answers whether the strings are equal |
| ByteOrder.Same | macaddress.cpp:61-71 | operator== holds exactly when both strings are equal |
| ByteOrder.LessFromIsLex | macaddress.cpp:74-84 | the loop of operator< (ByteOrder.LessFrom) decides lexicographic order with a proper prefix first |
| ByteOrder.Less | ipaddress.cpp:75-85 | operator< is lexicographic order with a proper prefix first |
| ByteOrder.LessFromTransitive | ipaddress.cpp:75-85 | the loop of operator< begun where three strings agree is transitive |
| ByteOrder.LessFromTotal | ipaddress.cpp:75-85 | begun where two strings agree, either they are equal or the loop orders them one way round |
| ByteOrder.LessTransitive | ipaddress.cpp:75-85 | operator< is transitive |
| ByteOrder.LessTrichotomy | sniff11.cpp:86 | exactly one of a < b, b < a, a == b holds, so the set of requested addresses treats two keys as the same exactly when their bytes are equal |
| Dotted.FirstDotAfterWord | macaddress.cpp:48-58 | in a dot-free word followed by nothing or a '.', the first dot comes right after the word |
| Dotted.SplitAtDot | macaddress.cpp:48-58 | two such words, each followed by nothing or by a '.', split a string the same way |
| Dotted.JoinEmpty | ipaddress.cpp:48-58 | the printed form is empty exactly when the address has no bytes |
| Dotted.JoinInjective | ipaddress.cpp:48-58 | a printer whose byte formats are non-empty, dot-free and distinct never prints two byte strings alike |
| Dotted.JoinPairs | macaddress.cpp:48-58 | with two-character formats, byte i prints at positions 3i and 3i+1, a '.' follows every byte but the last, and the length is 3n - 1 |
| Dotted.JoinAlphabet | macaddress.cpp:48-58 | every character a printer writes is a '.' or a character its byte format writes |
| MacAddress.Make | macaddress.cpp:30-36 | a borrowed six-byte address over the bytes at k, in the same block, whose header_length() is 6 |
| MacAddress.ValidFromMeaning | macaddress.cpp:39-45 | the loop of valid() begun at i holds exactly when no byte from i on is 0x00 or 0xFF |
| MacAddress.ValidBytes | macaddress.cpp:39-45 | valid() holds exactly when no byte is 0x00 or 0xFF |
| MacAddress.Valid | macaddress.cpp:39-45 | an address is invalid exactly when some byte is 0x00 or 0xFF |
| MacAddress.Equal | macaddress.cpp:61-71 | operator== holds exactly when lengths and bytes agree |
| MacAddress.Less | macaddress.cpp:74-84 | operator< is lexicographic order on the bytes |
| MacAddress.HexValue | macaddress.cpp:52 | reading a hexadecimal digit gives a value below 16 |
| MacAddress.Hex2 | macaddress.cpp:52 | "%.2x" prints two lower-case hexadecimal digits that read back as the byte |
| MacAddress.Render | macaddress.cpp:48-58 | the printed form is empty exactly for an address with no bytes, and every character is a '.' or a lower-case hexadecimal digit |
| MacAddress.RenderLayout | macaddress.cpp:48-58 | a six-byte address prints as 17 characters, xx.xx.xx.xx.xx.xx, byte i at positions 3i and 3i+1 |
| MacAddress.RenderInjective | macaddress.cpp:48-58 | two addresses that print alike are equal |
| IpAddress.Make | ipaddress.cpp:30-36 | a borrowed four-byte address over the bytes at k, in the same block, whose header_length() is 4 |
| IpAddress.ValidFromMeaning | ipaddress.cpp:39-45 | the loop of valid() begun at i holds exactly when some byte from i on is neither 0x00 nor 0xFF |
| IpAddress.ValidBytes | ipaddress.cpp:39-45 | valid() holds exactly when some byte is neither 0x00 nor 0xFF |
| IpAddress.Valid | ipaddress.cpp:39-45 | an address is valid exactly when some byte is neither 0x00 nor 0xFF |
| IpAddress.ValidityAsymmetry | ipaddress.cpp:39-45 | the MAC test implies the IP test on any non-empty bytes, and 10.0.0.1 passes the IP test but not the MAC test |
| IpAddress.Equal | ipaddress.cpp:62-72 | operator== holds exactly when lengths and bytes agree |
| IpAddress.Less | ipaddress.cpp:75-85 | operator< is lexicographic order on the bytes |
| IpAddress.Decimal | ipaddress.cpp:52 | "%d" prints one to three decimal digits, with no leading zero, whose decimal value is the byte |
| IpAddress.DecimalSeparable | ipaddress.cpp:48-58 | the decimal format is non-empty, dot-free and tells bytes apart |
| IpAddress.Render | ipaddress.cpp:48-59 | the printed form is empty exactly for an address with no bytes, and every character is a '.' or a decimal digit |
| IpAddress.RenderInjective | ipaddress.cpp:48-58 | two addresses that print alike are equal |
| IpAddress.RenderExample | ipaddress.cpp:48-58 | 192.168.0.1 prints as "192.168.0.1" |
| EthernetFrame.EtherCode | ethernetframe.cpp:33-38 | the type code is bytes 12 and 13 in network order, and 0 without a block |
| EthernetFrame.Classify | ethernetframe.cpp:75-94 | a code up to 0x05DC is a length; each named type has its code (DEC both of its two); every other code is Other; NoType never comes out |
| EthernetFrame.ClassifyCodeOf | ethernetframe.cpp:75-94 | every named type is what ether_type() returns for its code |
| EthernetFrame.TypeOf | ethernetframe.cpp:75-94 | ether_type() of a frame: never none; a length exactly without a block or for a code up to 0x05DC; IPv4, ARP and 802.1Q exactly for the codes 0x0800, 0x0806 and 0x8100 at bytes 12 and 13 |
| EthernetFrame.HeaderLength | ethernetframe.cpp:97-104 | 0 exactly without a block, 18 exactly for an 802.1Q frame, 14 otherwise |
| EthernetFrame.EmptyFrameIsLength | ethernetframe.cpp:33-38 | a frame without a block reads as a length field with header length 0 |
| EthernetFrame.Pcp | ethernetframe.cpp:43-49 | yields a value below 8 exactly for an 802.1Q frame; any other frame fails with the source's message |
| EthernetFrame.Dei | ethernetframe.cpp:54-60 | yields one bit exactly for an 802.1Q frame; any other frame fails with the source's message |
| EthernetFrame.Vid | ethernetframe.cpp:65-71 | yields a value below 0x1000 exactly for an 802.1Q frame; any other frame fails with the source's message |
| EthernetFrame.TagPartition | ethernetframe.cpp:43-71 | PCP, DEI and VID put back together give the 16-bit tag, with no gap and no overlap |
| EthernetFrame.TciSplit | ethernetframe.cpp:43-71 | the top three bits, the fourth bit and the low twelve bits of the tag word add back up to it |
| EthernetFrame.Tci | ethernetframe.cpp:43-71 | the encoder of the tag: a three-bit priority, one bit and a twelve-bit id make a 16-bit word |
| EthernetFrame.TciUnique | ethernetframe.cpp:43-71 | two tags built alike were built from the same priority, bit and id |
| EthernetFrame.DestinationMac | ethernetframe.cpp:107-109 | bytes 0 to 5 |
| EthernetFrame.SourceMac | ethernetframe.cpp:112-114 | bytes 6 to 11 |
| EthernetFrame.Ip4 | ethernetframe.cpp:117-122 | an IPv4 frame yields a borrowed view of everything after the 14-byte header; any other type fails with the source's message |
| EthernetFrame.Arp | ethernetframe.cpp:125-130 | an ARP frame yields a borrowed view of everything after the 14-byte header; any other type fails with the source's message |
| EthernetFrame.TaggedFrameNotDecapsulated | ethernetframe.cpp:117-130 | an 802.1Q frame is never handed to the IPv4 or ARP layer |
| EthernetFrame.DecodeEncoded | ethernetframe.cpp:33-130 | an encoded frame reads back its addresses, its type code, and (for IPv4 and ARP) its payload |
| EthernetFrame.DecodeTagged | ethernetframe.cpp:43-104 | an encoded 802.1Q frame has header length 18 and reads back the PCP, DEI and VID it was built from |
| ArpPacket.HardwareTypeCode | arppacket.cpp:105-110 | bytes 0 and 1, or 0 without a block |
| ArpPacket.ProtocolTypeCode | arppacket.cpp:124-129 | bytes 2 and 3, or 0 without a block |
| ArpPacket.HardwareAdrLength | arppacket.cpp:132-137 | byte 4, or 0 without a block |
| ArpPacket.ProtocolAdrLength | arppacket.cpp:140-145 | byte 5, or 0 without a block |
| ArpPacket.OperationCode | arppacket.cpp:84-89 | bytes 6 and 7, or 0 without a block |
| ArpPacket.HeaderLength | arppacket.cpp:33-38 | 8 plus both address pairs, at most 1028; 0 without a block |
| ArpPacket.HardwareOf | arppacket.cpp:92-102 | each hardware type is named by exactly its codes (ATM by three) |
| ArpPacket.ProtocolOf | arppacket.cpp:113-121 | each protocol type is named by exactly its code |
| ArpPacket.OperationOf | arppacket.cpp:73-81 | operations 1 to 4 are named by exactly their codes |
| ArpPacket.HardwareTypeOf | arppacket.cpp:92-102 | hardware_type() is Ethernet exactly when bytes 0 and 1 hold 1 |
| ArpPacket.ProtocolTypeOf | arppacket.cpp:113-121 | protocol_type() is IPv4 exactly when bytes 2 and 3 hold 0x0800 |
| ArpPacket.OperationOfPacket | arppacket.cpp:73-81 | operation() is a request exactly when bytes 6 and 7 hold 1, and a reply exactly when they hold 2 |
| ArpPacket.SourceMac | arppacket.cpp:49-54 | the six bytes at 8, exactly when the hardware is Ethernet and they are there; other hardware fails with the source's message |
| ArpPacket.DestinationMac | arppacket.cpp:41-46 | the six bytes at 8 + hlen + plen, exactly when the hardware is Ethernet and they are there; other hardware fails with the source's message |
| ArpPacket.SourceIp | arppacket.cpp:65-70 | the four bytes at 8 + hlen, exactly when the protocol is IPv4 and they are there; other protocols fail with the source's message |
| ArpPacket.DestinationIp | arppacket.cpp:57-62 | the four bytes at 8 + 2 hlen + plen, exactly when the protocol is IPv4 and they are there; other protocols fail with the source's message |
| ArpPacket.EthernetIpv4Layout | arppacket.cpp:33-70 | with 6-byte hardware and 4-byte protocol addresses the header is 28 bytes, and the four addresses lie at 8, 14, 18 and 24, as RFC 826 lays them out |
| ArpPacket.DecodeEncoded | arppacket.cpp:33-145 | an encoded Ethernet/IPv4 packet reads back its operation and its four addresses |
| IpPacket.Version | ippacket.cpp:41-43 | the high nibble of byte 0 |
| IpPacket.Ihl | ippacket.cpp:46-48 | the low nibble of byte 0; version and IHL together are byte 0 |
| IpPacket.Tos | ippacket.cpp:51-53 | byte 1 |
| IpPacket.HeaderLength | ippacket.cpp:33-38 | four bytes per IHL word, so a multiple of 4 of at most 60; 0 without a block |
| IpPacket.TotalLength | ippacket.cpp:56-58 | bytes 2 and 3 in network order |
| IpPacket.FragmentId | ippacket.cpp:61-63 | bytes 4 and 5 in network order |
| IpPacket.FragmentFlags | ippacket.cpp:66-68 | the three high bits of byte 6 |
| IpPacket.FragmentPos | ippacket.cpp:71-74 | the 13-bit field after the flags |
| IpPacket.FlagsPositionPartition | ippacket.cpp:66-74 | flags and position put back together give bytes 6 and 7 |
| IpPacket.PartitionUnique | ippacket.cpp:66-74 | a flags value and a 13-bit position are determined by the 16-bit word they make |
| IpPacket.FragmentOffsetUnscaled | ippacket.cpp:71-74 | the position is reported in units of 8 octets: offset field 185 reports 185, which is byte 1480 |
| IpPacket.Fragmented | ippacket.cpp:78-83 | first exactly at position 0, last exactly when More Fragments is clear, fragmented unless both |
| IpPacket.Ttl | ippacket.cpp:86-88 | byte 8 |
| IpPacket.Checksum | ippacket.cpp:91-93 | bytes 10 and 11 in network order |
| IpPacket.ProtocolId | ippacket.cpp:96-98 | byte 9 |
| IpPacket.Protocol | ippacket.cpp:102-110 | protocol() is ICMP, TCP and UDP exactly when byte 9 is 1, 6 and 17, and never none |
| IpPacket.ProtocolOf | ippacket.cpp:102-110 | ICMP, IGMP, TCP and UDP exactly for ids 1, 2, 6 and 17 |
| IpPacket.SourceIp | ippacket.cpp:125-132 | bytes 12 to 15 exactly for version 4; other versions fail with the source's message |
| IpPacket.DestinationIp | ippacket.cpp:114-121 | bytes 16 to 19 exactly for version 4; other versions fail with the source's message |
| IpPacket.IcmpPayload | ippacket.cpp:184-189 | for protocol ICMP, the bytes after the header; other protocols fail with the source's message |
| IpPacket.TcpPayload | ippacket.cpp:192-197 | for protocol TCP, the bytes after the header; other protocols fail with the source's message |
| IpPacket.UdpPayload | ippacket.cpp:200-205 | for protocol UDP, the bytes after the header; other protocols fail with the source's message |
| IpPacket.EncodeHeader | ippacket.cpp:33-132 | the encoder of the twenty-byte fixed header |
| IpPacket.DecodeEncodedHeader | ippacket.cpp:33-132 | every accessor reads back the field the header was encoded from, and so do the addresses for version 4 |
| IpOptions.OptionAt | ippacket.cpp:168-175 | class below 4, number below 32 and class and number together are the low 7 bits of the type byte; the length is 0 for numbers 0 and 1, and otherwise the byte after the type byte, whatever its value |
| IpOptions.Step | ippacket.cpp:148-151 | the advance as written (also option_header() at lines 170-177): it always moves forward, by at most 257 bytes; an option with number 2 or above and a length octet of at least 2 is passed by two bytes more than RFC 791's `StepRfc791` |
| IpOptions.Walk | ippacket.cpp:135-157 | the options visited from p, one per step, stopping at the header end or a zero byte; it fails only with Truncated |
| IpOptions.Options | ippacket.cpp:135-157 | the options of a packet; there are none when the header is 20 bytes |
| IpOptions.WalkBound | ippacket.cpp:144-154 | a walk from p finds at most hl - p options |
| IpOptions.OptionCountBound | ippacket.cpp:135-157 | at most header_length() - 20 options, and none for an IHL of 5 or less |
| IpOptions.CountOptions | ippacket.cpp:135-157 | count_options() is the number of options Walk finds, and fails exactly when Walk fails |
| IpOptions.OptionHeader | ippacket.cpp:160-181 | false for an index at or past the count; otherwise exactly option idx of Walk |
| IpOptions.WalkAdvance | ippacket.cpp:166-178 | each pass of option_header's loop reads the next option of the walk and moves to where the walk goes on |
| IpOptions.StepRfc791 | ippacket.cpp:148-151 | the corrected advance always moves forward |
| IpOptions.WalkRfc791 | ippacket.cpp:135-157 | the walk with the corrected advance, failing only with Truncated |
| IpOptions.DescribeAll | ippacket.cpp:160-181 | the class, number and length option_header() should report, for each option of a list in order |
| IpOptions.OptionsRfc791 | ippacket.cpp:135-157 | the options with the corrected advance |
| IpOptions.WalkRfc791Encoded | ippacket.cpp:135-181 | the corrected walk reads back every list of well-formed options, whether the header ends after them or an End of Option List follows |
| IpOptions.RouterAlertAsWritten | ippacket.cpp:151 | on an IHL-7 header holding Router Alert, three No Operation and End of Option List, the walk as written finds two options beginning at byte 20 |
| IpOptions.RouterAlertRfc791 | ippacket.cpp:151 | on that header the corrected walk finds all four options |
| IpOptions.RouterAlertMiscounted | ippacket.cpp:135-181 | on that packet, Options gives Router Alert plus one No Operation, while the corrected walk gives all four options |
| IcmpPacket.HeaderLength | icmppacket.cpp:33-38 | 8, or 0 exactly without a block |
| IcmpPacket.Type | icmppacket.cpp:91-93 | byte 0 |
| IcmpPacket.Code | icmppacket.cpp:96-98 | byte 1 |
| IcmpPacket.Checksum | icmppacket.cpp:101-103 | bytes 2 and 3 in network order |
| IcmpPacket.Identifier | icmppacket.cpp:106-111 | bytes 4 and 5 exactly when code is 0 or the type is 13, 14, 17 or 18; otherwise the source's message |
| IcmpPacket.SequenceNumber | icmppacket.cpp:114-119 | bytes 6 and 7 under the same guard; otherwise the source's message |
| IcmpPacket.NextHopMtu | icmppacket.cpp:122-127 | bytes 6 and 7 exactly for type 3; otherwise the source's message |
| IcmpPacket.OriginateTimestamp | icmppacket.cpp:130-135 | bytes 8 to 11 exactly for code 0 and type 13 or 14; otherwise the source's message |
| IcmpPacket.ReceiveTimestamp | icmppacket.cpp:138-143 | bytes 12 to 15 exactly for code 0 and type 14; otherwise the source's message |
| IcmpPacket.TransmitTimestamp | icmppacket.cpp:146-151 | bytes 16 to 19 exactly for code 0 and type 14; otherwise the source's message |
| IcmpPacket.GatewayAddress | icmppacket.cpp:154-159 | the address at 4 exactly for type 5; otherwise the source's message |
| IcmpPacket.AddressMask | icmppacket.cpp:162-167 | the address at 8 exactly for code 0 and type 17 or 18; otherwise the source's message |
| IcmpPacket.IdentifierGuardAdmitsCodeZero | icmppacket.cpp:106-119 | the guard lets through a destination unreachable with code 0, whose bytes 4 to 7 RFC 792 leaves unused |
| IcmpPacket.Describe | icmppacket.cpp:44-87 | "unknown ICMP packet" exactly for a key the switch does not list; keys 0x0000, 0x0800, 0x0301 and 0x0600 give "echo reply", "echo request", "host unreachable" and "alternate address for host" |
| IcmpPacket.KeyAsWritten | icmppacket.cpp:42 | the key as the shift parses, a 32-bit value |
| IcmpPacket.ShiftedKey | icmppacket.cpp:42 | a type shifted left by 8 + code, truncated to 32 bits, is below 2^32 |
| IcmpPacket.ShiftedKeyCodeZero | icmppacket.cpp:42 | with code 0 the shift is the multiplication by 256 the table expects |
| IcmpPacket.HostUnreachableShift | icmppacket.cpp:42 | 3 << (8 + 1) is 0x0600 |
| IcmpPacket.DescriptionAsWritten | icmppacket.cpp:41-88 | description() as written: unknown exactly for a shifted key the switch does not list, and "alternate address for host" for type 3, code 1 |
| IcmpPacket.Key | icmppacket.cpp:44-87 | the key the table is laid out for: the type in the high byte, the code in the low byte |
| IcmpPacket.Description | icmppacket.cpp:41-88 | description() with the laid-out key: unknown exactly for a key the switch does not list; "echo reply" for 0/0, "echo request" for 8/0 and "host unreachable" for 3/1 |
| IcmpPacket.DescriptionCodeZero | icmppacket.cpp:41-88 | with code 0 both keys are type * 256, so the descriptions agree; echo request and echo reply are described as such |
| IcmpPacket.ShiftedKeyLowByte | icmppacket.cpp:42 | a key shifted by 8 + code has a zero low byte |
| IcmpPacket.KeyAsWrittenDropsCode | icmppacket.cpp:42 | as written, a non-zero code never reaches the low byte, so the key never equals the laid-out key |
| IcmpPacket.HostUnreachableMisdescribed | icmppacket.cpp:41-88 | type 3 code 1 gets key 0x0600 and the text "alternate address for host" as written, and "host unreachable" with the laid-out key |
| IcmpPacket.DecodeEcho | icmppacket.cpp:91-127 | an encoded echo request or reply reads back its type, code, checksum, identifier and sequence number, and has no next-hop MTU |
| IcmpPacket.DecodeTimestampReply | icmppacket.cpp:130-167 | an encoded timestamp reply reads back its three timestamps and has neither an address mask nor a gateway address |
| TcpSegment.Offset | tcpsegment.cpp:57-59 | the high nibble of byte 12 |
| TcpSegment.HeaderLength | tcpsegment.cpp:32-34 | four bytes per offset word, so a multiple of 4 of at most 60 |
| TcpSegment.SourcePort | tcpsegment.cpp:37-39 | bytes 0 and 1 in network order |
| TcpSegment.DestinationPort | tcpsegment.cpp:42-44 | bytes 2 and 3 in network order |
| TcpSegment.SequenceNumber | tcpsegment.cpp:47-49 | bytes 4 to 7 in network order |
| TcpSegment.AckNumber | tcpsegment.cpp:52-54 | bytes 8 to 11 in network order |
| TcpSegment.Reserved | tcpsegment.cpp:62-64 | six bits: the low nibble of byte 12 above the top two bits of byte 13 |
| TcpSegment.FlagNs | tcpsegment.cpp:67-69 | NS holds exactly when byte 12 & 0x01 is non-zero |
| TcpSegment.FlagCwr | tcpsegment.cpp:72-74 | CWR holds exactly when byte 13 & 0x80 is non-zero |
| TcpSegment.FlagEce | tcpsegment.cpp:77-79 | ECE holds exactly when byte 13 & 0x40 is non-zero |
| TcpSegment.FlagUrg | tcpsegment.cpp:82-84 | URG holds exactly when byte 13 & 0x20 is non-zero |
| TcpSegment.FlagAck | tcpsegment.cpp:87-89 | ACK holds exactly when byte 13 & 0x10 is non-zero |
| TcpSegment.FlagPsh | tcpsegment.cpp:92-94 | PSH holds exactly when byte 13 & 0x08 is non-zero |
| TcpSegment.FlagRst | tcpsegment.cpp:97-99 | RST holds exactly when byte 13 & 0x04 is non-zero |
| TcpSegment.FlagSyn | tcpsegment.cpp:102-104 | SYN holds exactly when byte 13 & 0x02 is non-zero |
| TcpSegment.FlagFin | tcpsegment.cpp:107-109 | FIN holds exactly when byte 13 & 0x01 is non-zero |
| TcpSegment.FlagsByte | tcpsegment.cpp:72-109 | the eight flags CWR to FIN, weighted 0x80 down to 1, add up to byte 13 |
| TcpSegment.ByteAsBits | tcpsegment.cpp:72-109 | a byte is the sum of its bits as the flag accessors read them |
| TcpSegment.ByteAsFlagBits | tcpsegment.cpp:72-109 | a byte is the sum of its bits, each tested as the flag accessors test it |
| TcpSegment.SynAck | tcpsegment.cpp:72-109 | byte 13 equal to 0x12 sets ACK and SYN and no other flag |
| TcpSegment.ReservedHoldsNewerFlags | tcpsegment.cpp:62-79 | reserved() includes the NS, CWR and ECE flags |
| TcpSegment.WindowSize | tcpsegment.cpp:112-114 | bytes 14 and 15 in network order |
| TcpSegment.Checksum | tcpsegment.cpp:117-119 | bytes 16 and 17 in network order |
| TcpSegment.UrgentPointer | tcpsegment.cpp:122-124 | bytes 18 and 19 in network order |
| TcpSegment.PortName | tcpsegment.cpp:127-152 | the service of each listed port; "unknown" exactly for the other ports below 1024 and "ephemeral" exactly for the other ports from 1024 |
| TcpSegment.DecodeEncodedWords | tcpsegment.cpp:37-124 | ports, sequence and acknowledgment numbers, window, checksum and urgent pointer of an encoded header read back |
| TcpSegment.DecodeEncodedControl | tcpsegment.cpp:32-69 | the data offset, header length, NS flag and flag byte of an encoded header read back |
| TcpSegment.DecodeEncodedReserved | tcpsegment.cpp:62-64 | the reserved field of an encoded header is the NS flag with CWR and ECE |
| UdpSegment.SourcePort | udpsegment.cpp:37-39 | bytes 0 and 1 in network order |
| UdpSegment.DestinationPort | udpsegment.cpp:42-44 | bytes 2 and 3 in network order |
| UdpSegment.Length | udpsegment.cpp:47-49 | bytes 4 and 5 in network order |
| UdpSegment.Checksum | udpsegment.cpp:52-54 | bytes 6 and 7 in network order |
| UdpSegment.Tftp | udpsegment.cpp:57-59 | a borrowed view of exactly the bytes after the 8-byte header; a segment shorter than its header is Truncated |
| UdpSegment.PortName | udpsegment.cpp:62-87 | the service of each listed port; "unknown" exactly for the other ports below 1024 and "ephemeral" exactly for the other ports from 1024 |
| UdpSegment.PortNamesAgree | udpsegment.cpp:62-87 | the UDP and TCP port names agree on every port |
| UdpSegment.DecodeEncoded | udpsegment.cpp:37-59 | an encoded segment reads back its four fields, and tftp() yields its payload |
| Tftp.Opcode | tftp.cpp:39 | bytes 0 and 1 in network order |
| Tftp.OperationOf | tftp.cpp:38-46 | opcodes 1 to 4 give RRQ, WRQ, DATA and ACK exactly; every other opcode, 5 included, gives none; tftp_error never comes out |
| Tftp.OperationOfDatagram | tftp.cpp:38-46 | operation() of a datagram is never tftp_error, and is DATA exactly when bytes 0 and 1 hold 3 |
| Tftp.FirstZero | tftp.cpp:49-62 | the first NUL at or after k, or none when every byte after k is non-zero |
| Tftp.CString | tftp.cpp:49-62 | a C string at k is read exactly when a NUL follows within the view: the NUL-free bytes up to it |
| Tftp.CStringOfTerminated | tftp.cpp:49-62 | a NUL-free string written at k and followed by a NUL reads back as that string |
| Tftp.Filename | tftp.cpp:49-54 | the C string after the opcode, exactly for RRQ and WRQ; other datagrams fail with the source's message |
| Tftp.Mode | tftp.cpp:57-62 | for RRQ and WRQ: the C string that starts one byte past the filename's NUL, and it succeeds exactly when that string ends in a NUL inside the datagram; a filename failure is passed on; other datagrams fail with the filename message the source reuses |
| Tftp.ErrorCode | tftp.cpp:65-70 | every datagram not seen as an error packet fails with the source's message |
| Tftp.ErrorMessage | tftp.cpp:73-78 | every datagram not seen as an error packet fails with the source's message |
| Tftp.ErrorFieldsUnreachable | tftp.cpp:38-78 | both error accessors fail on every datagram |
| Tftp.Block | tftp.cpp:81-86 | bytes 2 and 3, exactly for DATA and ACK; other datagrams fail with the source's message |
| Tftp.DataLength | tftp.cpp:89-94 | exactly for DATA: the length less the 4 header bytes, wrapping around 2^32 as an unsigned int for a datagram of 2 or 3 bytes; other datagrams fail with the source's message |
| Tftp.DecodeRequest | tftp.cpp:38-94 | an encoded read or write request reads back its operation, filename and mode, and has no block or data |
| Tftp.DecodeRequestWithTrailer | tftp.cpp:38-62 | a read or write request followed by any further bytes (RFC 2347 options, say) still reads back its operation, filename and mode |
| Tftp.RequestCarriesNoBlock | tftp.cpp:81-94 | a read or write request has neither a block number nor data |
| Tftp.ReadRequestExample | tftp.cpp:49-62 | 00 01 "file" 00 "octet" 00 is a read request for "file" in octet mode |
| Tftp.OperationOfRfc1350 | tftp.cpp:38-46 | the corrected mapping: error exactly for opcode 5, and otherwise the mapping of the source |
| Tftp.ErrorCodeRfc1350 | tftp.cpp:65-70 | with the corrected mapping, the error code is bytes 2 and 3 exactly for an error packet that has them |
| Tftp.ErrorMessageRfc1350 | tftp.cpp:73-78 | with the corrected mapping, the error message is the C string at 4 of an error packet |
| Tftp.ErrorPacketIgnored | tftp.cpp:38-78 | on an encoded error packet both accessors fail as written, and with the corrected mapping they read back its code and message |
| ArpSpoof.TrackIp | sniff11.cpp:102-112 | the IPv4 branch: it fails, as Truncated, exactly when the IP view lacks byte 9, which protocol() reads; otherwise it gives the protocol, ICMP exactly for byte 9 equal to 1. The ICMP view icmp() builds at line 108 reads no byte and cannot fail |
| ArpSpoof.Track | sniff11.cpp:97-142 | one frame, with `quiet_mode` on: a frame too short for its Ethernet header is Truncated; an IPv4 frame, whatever the tool, leaves the requests and reports nothing from 24 bytes on, and below 24 bytes is Truncated (protocol() would read past the end or through NULL); with the tool off any other frame leaves the requests and reports nothing; an alert never changes the requests |
| ArpSpoof.ShortIcmpFrameQuiet | sniff11.cpp:107-151 | a 24-byte IPv4 frame whose 10-byte IP view claims ICMP and a 20-byte header passes quietly: icmp() only builds a view, so the frame is counted |
| ArpSpoof.BareIpFrameTruncated | sniff11.cpp:101-107 | a 14-byte frame of type 0x0800 gets an IP view with no block from ip4(), and is Truncated instead of dereferencing it |
| ArpSpoof.TrackArp | sniff11.cpp:119-139 | the switch on operation(): only a reply alerts, and then the requests stay; a reply never adds a request; other operations change nothing and report nothing |
| ArpSpoof.Run | sniff11.cpp:85-152 | a sequence of frames with the tool off, none of which fails, leaves the requests as they were |
| ArpSpoof.RequestInserts | sniff11.cpp:121-124 | an ARP request adds its target IP address and raises no alert |
| ArpSpoof.UnsolicitedReplyAlerts | sniff11.cpp:126-133 | a reply from an address that is not pending raises an alert naming the target and sender MAC addresses, and leaves the requests unchanged |
| ArpSpoof.AnsweredReplyErases | sniff11.cpp:128-135 | a reply from a pending address raises no alert and removes exactly that address |
| ArpSpoof.OthersLeaveRequests | sniff11.cpp:101-142 | with the tool off, for frames that are not ARP, and for the other ARP operations, nothing changes and nothing is reported, save that an IPv4 frame of fewer than 24 bytes is Truncated |
| ArpSpoof.AlertOnlyForUnsolicited | sniff11.cpp:119-139 | an alert comes only from a reply whose sender is not pending, and leaves the requests unchanged |
| ArpSpoof.TrackArpAddsOnlyTarget | sniff11.cpp:119-139 | the only address the switch on the operation can add is a request's target |
| ArpSpoof.TrackAddsOnlyTargets | sniff11.cpp:97-142 | processing a frame only ever adds the target of an ARP request |
| ArpSpoof.RunHoldsOnlyRequested | sniff11.cpp:85-152 | after any sequence of frames, every pending address was pending before or is the target of one of those frames' requests |
| ArpSpoof.Sniffer.constructor | sniff11.cpp:46 | no pending requests and a capture count of 0 |
| ArpSpoof.Sniffer.ProcessPacket | sniff11.cpp:85-152 | with `quiet_mode` on, the frame is decoded through a copied Datagram and its borrowed Ethernet view, and an IPv4 frame's protocol byte is read; on success the requests and the verdict are those of Track, and the count goes up by one modulo 2^32; on a failure nothing changes |
| ArpSpoof.Sniffer.OnArp | sniff11.cpp:119-139 | the new requests and the verdict are what TrackArp gives, and the count stays |

## Left out

- Every `operator<<` printer except the two address printers, including the hexadecimal dumps of Datagram and DatagramFragment. They are output only.
- libpcap and libnet: capturing, dumping to a file, opening devices, `main`, the command line, `shutdown` and the signal handler. ping.cpp and network-Learning.cpp are not part of this model.
- In `process_packet`, the percentage and `ctime` shown for each capture (floating point and the clock) and every display under `quiet_mode` and `show_raw`. The model is the run with `quiet_mode` on (sniff11.cpp:76, 82). With it off, the printers run before anything else, and the exceptions they raise are not modelled: those of the Ethernet, IP and ICMP headers, and the ARP printer's (arppacket.cpp:167-172, for hardware other than Ethernet or a protocol other than IPv4). The ARP printer runs at sniff11.cpp:116, before the spoof check at line 119. Its exception would leave `process_packet` before the `insert` at line 123 and before `capture_count++` at line 151, whereas ArpSpoof.Track and ArpSpoof.Sniffer.ProcessPacket record the request and count the frame.
- Destructors and `header()`. In the model the memory is managed by Dafny, and `header()` is the view's own pointer.
- Ownership of the views handed up the layers: each upper-layer view is a borrowed `Octets.View` value, not a `DatagramFragment` object.
- ArpSpoof.Sniffer: the source's `set<IPAddress>` keeps borrowed views into the per-packet buffer, which is freed when `process_packet` returns. The model keeps the address bytes instead, which is the behaviour the tracker is written for.
- ArpSpoof.Sniffer.ProcessPacket: of the IPv4 branch it keeps the one read that runs with `quiet_mode` on, the protocol byte (sniff11.cpp:107). The ICMP view `icmp()` builds at line 108 is a borrowed view (NULL data and a wrapped length when the IP header outruns its view) that nothing reads with the displays off, so it is not built; the displays of both headers are left out.
- IcmpPacket.KeyAsWritten: requires a code below 24. A larger code makes the 32-bit shift undefined in C++.
- Octets.Payload: a header longer than its view is Truncated, not a view whose length wrapped around 2^32; every later read through such a view would be undefined.
- Reads past the end of a view are undefined in C++. They are Truncated in every Result-returning accessor, and excluded by `requires` in the value-returning ones.
- The 16-bit bridge between the bit-vector forms and the integer forms is proved per byte only. Mask0FFF and Mask0FC0 are stated on bit vectors, and Low12 and Middle6 on integers.
- The owning constructors of MacAddress and IPAddress (copying six or four bytes) are not used by the decoder. Only the borrowing ones are modelled.

## Findings

| source | as written | input that shows it | evidently intended | confidence | as-written member | corrected member |
|---|---|---|---|---|---|---|
| ippacket.cpp:151 | an option with number at least 2 is skipped by its length byte plus 2, as is the same step at line 176 | IHL 7 with options 94 04 00 00 01 01 01 00 (Router Alert, three No Operation, End of Option List): the walk lands on byte 26 and counts 2 options | RFC 791 length octets count the type and length octets, so the next option starts length bytes on and all 4 options are found | high (not executed) | IpOptions.Walk, IpOptions.RouterAlertAsWritten, IpOptions.RouterAlertMiscounted | IpOptions.WalkRfc791, IpOptions.OptionsRfc791, IpOptions.WalkRfc791Encoded, IpOptions.RouterAlertRfc791 |
| icmppacket.cpp:42 | `type() << 8 + code()` parses as `type() << (8 + code())` | type 3, code 1: key 0x0600, described as "alternate address for host" | `(type() << 8) + code()`: key 0x0301, "host unreachable" | high (not executed) | IcmpPacket.KeyAsWritten, IcmpPacket.DescriptionAsWritten, IcmpPacket.KeyAsWrittenDropsCode, IcmpPacket.HostUnreachableMisdescribed | IcmpPacket.Key, IcmpPacket.Description, IcmpPacket.DescriptionCodeZero, IcmpPacket.HostUnreachableMisdescribed |
| tftp.cpp:38-46 | `operation()` maps no opcode to `tftp_error`, so `error_code()` and `error_msg()` always throw | an error packet 00 05 00 01 "x" 00 | opcode 5 is an error packet (section 5 of RFC 1350): code 1, message "x" | high (not executed) | Tftp.OperationOf, Tftp.ErrorFieldsUnreachable, Tftp.ErrorPacketIgnored | Tftp.OperationOfRfc1350, Tftp.ErrorCodeRfc1350, Tftp.ErrorMessageRfc1350, Tftp.ErrorPacketIgnored |

The following behaviours of the source are kept as written. They are stated
as lemmas and are not counted as findings:

- the identifier guard uses `||` (IcmpPacket.IdentifierGuardAdmitsCodeZero). Echo replies need it, since their type is 0.
- the fragment position is not scaled (IpPacket.FragmentOffsetUnscaled).
- the MAC and IP validity tests differ (IpAddress.ValidityAsymmetry).
- reserved() overlaps the NS, CWR and ECE flags (TcpSegment.ReservedHoldsNewerFlags).
- 802.1Q frames are never decapsulated (EthernetFrame.TaggedFrameNotDecapsulated).
- mode() reuses the filename message (Tftp.Mode).
