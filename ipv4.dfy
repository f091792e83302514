/**
 * IPPacket (ippacket.cpp): the IPv4 header of section 3.1 of RFC 791,
 * its options, and the hand-over to ICMP, TCP and UDP.
 */
module IpPacket {
  import opened Outcome
  import opened Octets
  import IpAddress

  /** IPProtocol of ippacket.h. */
  datatype IpProtocol = Icmp | Igmp | Udp | Tcp | OtherProtocol | NoProtocol

  const NOT_IPV4 := "Internet protocol not IPv4"
  const NOT_ICMP := "IP packet not transporting ICMP traffic"
  const NOT_TCP := "IP packet not transporting TCP traffic"
  const NOT_UDP := "IP packet not transporting UDP traffic"

  /** version(): the high nibble of byte 0. */
  function Version(f: Fragment): (v: nat)
    requires 1 <= f.len
    ensures v < 16
  {
    f.At(0) as nat / 16
  }

  /** ihl(): the low nibble of byte 0, the header length in 32-bit words. */
  function Ihl(f: Fragment): (n: nat)
    requires 1 <= f.len
    ensures n < 16
    ensures Version(f) * 16 + n == f.At(0) as nat
  {
    f.At(0) as nat % 16
  }

  /** header_length(): four bytes per IHL word, at most 60; 0 without a block. */
  function HeaderLength(f: Fragment): (n: nat)
    requires f.ptr.Null? || 1 <= f.len
    ensures f.ptr.Null? ==> n == 0
    ensures f.ptr.Into? ==> n == 4 * Ihl(f)
    ensures n <= 60 && n % 4 == 0
  {
    if f.ptr.Null? then 0 else 4 * Ihl(f)
  }

  /** tos(): byte 1. */
  function Tos(f: Fragment): (b: byte)
    requires 2 <= f.len
    ensures b == f.Bytes()[1]
  {
    f.At(1)
  }

  /** total_length(): bytes 2 and 3. */
  function TotalLength(f: Fragment): (n: nat)
    requires 4 <= f.len
    ensures n == Char2Word(f.At(2), f.At(3))
  {
    Be16(f, 2)
  }

  /** fragment_id(): bytes 4 and 5. */
  function FragmentId(f: Fragment): (n: nat)
    requires 6 <= f.len
    ensures n == Char2Word(f.At(4), f.At(5))
  {
    Be16(f, 4)
  }

  /** fragment_flags(): the three high bits of byte 6. */
  function FragmentFlags(f: Fragment): (n: nat)
    requires 7 <= f.len
    ensures n < 8
  {
    f.At(6) as nat / 32
  }

  /** fragment_pos(): the five low bits of byte 6, then byte 7, as the raw 13-bit field. */
  function FragmentPos(f: Fragment): (n: nat)
    requires 8 <= f.len
    ensures n < 0x2000
  {
    Char2Word(f.At(6) % 32, f.At(7))
  }

  /** The flags and the position split bytes 6 and 7 without gap or overlap. */
  lemma {:induction false} FlagsPositionPartition(f: Fragment)
    requires 8 <= f.len
    ensures FragmentFlags(f) * 0x2000 + FragmentPos(f) == Be16(f, 6)
  {
    var h := f.At(6) as nat;
    assert h == (h / 32) * 32 + h % 32;
  }

  /**
   * fragment_pos() is not scaled: RFC 791 counts the fragment offset in
   * units of eight octets, so the fragment starts 8 * FragmentPos(f)
   * bytes into the original datagram. The second fragment of a 1500-byte
   * MTU split (offset field value 185) reports 185, not 1480.
   */
  lemma FragmentOffsetUnscaled(f: Fragment)
    requires 8 <= f.len && f.At(6) == 0 && f.At(7) == 185
    ensures FragmentPos(f) == 185 && 8 * FragmentPos(f) == 1480
  {
  }

  /** The out-parameters and the result of fragmented(bool &first, bool &last). */
  datatype Fragmentation = Fragmentation(first: bool, last: bool, fragmented: bool)

  /**
   * fragmented(): a packet is the first fragment when its position is 0
   * and the last when the More Fragments bit (bit 0 of the flags) is
   * clear; it is fragmented unless it is both.
   */
  function Fragmented(f: Fragment): (r: Fragmentation)
    requires 8 <= f.len
    ensures r.first <==> FragmentPos(f) == 0
    ensures r.last <==> FragmentFlags(f) % 2 == 0
    ensures r.fragmented <==> !(r.first && r.last)
  {
    var first := FragmentPos(f) == 0;
    var last := FragmentFlags(f) % 2 == 0;
    Fragmentation(first, last, !(first && last))
  }

  /** ttl(): byte 8. */
  function Ttl(f: Fragment): (b: byte)
    requires 9 <= f.len
    ensures b == f.Bytes()[8]
  {
    f.At(8)
  }

  /** protocol_id(): byte 9. */
  function ProtocolId(f: Fragment): (b: byte)
    requires 10 <= f.len
    ensures b == f.Bytes()[9]
  {
    f.At(9)
  }

  /** checksum(): bytes 10 and 11. */
  function Checksum(f: Fragment): (n: nat)
    requires 12 <= f.len
    ensures n == Char2Word(f.At(10), f.At(11))
  {
    Be16(f, 10)
  }

  /** The protocol map of protocol(). */
  function ProtocolOf(id: nat): (p: IpProtocol)
    ensures p == Icmp <==> id == 1
    ensures p == Igmp <==> id == 2
    ensures p == Tcp <==> id == 6
    ensures p == Udp <==> id == 17
    ensures p != NoProtocol
  {
    match id
    case 1 => Icmp
    case 2 => Igmp
    case 6 => Tcp
    case 17 => Udp
    case _ => OtherProtocol
  }

  /** protocol(): the protocol named by byte 9. */
  function Protocol(f: Fragment): (p: IpProtocol)
    requires 10 <= f.len
    ensures p == Icmp <==> f.Bytes()[9] == 1
    ensures p == Tcp <==> f.Bytes()[9] == 6
    ensures p == Udp <==> f.Bytes()[9] == 17
    ensures p != NoProtocol
  {
    ProtocolOf(ProtocolId(f) as nat)
  }

  /** source_ip(): the four bytes at 12, for version 4 only. */
  function SourceIp(f: Fragment): (r: Result<Fragment>)
    ensures 1 <= f.len && Version(f) != 4 ==> r == Err(TransportMismatch(NOT_IPV4))
    ensures r.Ok? <==> 1 <= f.len && Version(f) == 4 && 16 <= f.len
    ensures r.Ok? ==> r.value.len == 4 && r.value.Bytes() == f.Bytes()[12..16]
  {
    if f.len < 1 then Err(Truncated)
    else if Version(f) != 4 then Err(TransportMismatch(NOT_IPV4))
    else if f.len < 16 then Err(Truncated)
    else Ok(IpAddress.Make(f, 12))
  }

  /** destination_ip(): the four bytes at 16, for version 4 only. */
  function DestinationIp(f: Fragment): (r: Result<Fragment>)
    ensures 1 <= f.len && Version(f) != 4 ==> r == Err(TransportMismatch(NOT_IPV4))
    ensures r.Ok? <==> 1 <= f.len && Version(f) == 4 && 20 <= f.len
    ensures r.Ok? ==> r.value.len == 4 && r.value.Bytes() == f.Bytes()[16..20]
  {
    if f.len < 1 then Err(Truncated)
    else if Version(f) != 4 then Err(TransportMismatch(NOT_IPV4))
    else if f.len < 20 then Err(Truncated)
    else Ok(IpAddress.Make(f, 16))
  }

  /** icmp(): the bytes after the header, when the protocol is ICMP. */
  function IcmpPayload(f: Fragment): (r: Result<Fragment>)
    ensures f.len < 10 ==> r == Err(Truncated)
    ensures 10 <= f.len && Protocol(f) != Icmp ==> r == Err(TransportMismatch(NOT_ICMP))
    ensures r.Ok? <==> 10 <= f.len && Protocol(f) == Icmp && HeaderLength(f) <= f.len
    ensures r.Ok? ==> r.value.len == f.len - HeaderLength(f) && r.value.Bytes() == f.Bytes()[HeaderLength(f)..]
  {
    if f.len < 10 then Err(Truncated)
    else if Protocol(f) != Icmp then Err(TransportMismatch(NOT_ICMP))
    else Payload(f, HeaderLength(f))
  }

  /** tcp(): the bytes after the header, when the protocol is TCP. */
  function TcpPayload(f: Fragment): (r: Result<Fragment>)
    ensures f.len < 10 ==> r == Err(Truncated)
    ensures 10 <= f.len && Protocol(f) != Tcp ==> r == Err(TransportMismatch(NOT_TCP))
    ensures r.Ok? <==> 10 <= f.len && Protocol(f) == Tcp && HeaderLength(f) <= f.len
    ensures r.Ok? ==> r.value.len == f.len - HeaderLength(f) && r.value.Bytes() == f.Bytes()[HeaderLength(f)..]
  {
    if f.len < 10 then Err(Truncated)
    else if Protocol(f) != Tcp then Err(TransportMismatch(NOT_TCP))
    else Payload(f, HeaderLength(f))
  }

  /** udp(): the bytes after the header, when the protocol is UDP. */
  function UdpPayload(f: Fragment): (r: Result<Fragment>)
    ensures f.len < 10 ==> r == Err(Truncated)
    ensures 10 <= f.len && Protocol(f) != Udp ==> r == Err(TransportMismatch(NOT_UDP))
    ensures r.Ok? <==> 10 <= f.len && Protocol(f) == Udp && HeaderLength(f) <= f.len
    ensures r.Ok? ==> r.value.len == f.len - HeaderLength(f) && r.value.Bytes() == f.Bytes()[HeaderLength(f)..]
  {
    if f.len < 10 then Err(Truncated)
    else if Protocol(f) != Udp then Err(TransportMismatch(NOT_UDP))
    else Payload(f, HeaderLength(f))
  }

  /** The fixed part of an IPv4 header. */
  datatype Header = Header(
    version: nat, ihl: nat, tos: byte, totalLength: nat, id: nat, flags: nat, pos: nat,
    ttl: byte, protocol: byte, checksum: nat, src: seq<byte>, dst: seq<byte>)

  ghost predicate WellFormed(h: Header) {
    h.version < 16 && h.ihl < 16 && h.totalLength < 0x1_0000 && h.id < 0x1_0000
    && h.flags < 8 && h.pos < 0x2000 && h.checksum < 0x1_0000 && |h.src| == 4 && |h.dst| == 4
  }

  /** The twenty bytes of a header, in network order. */
  function EncodeHeader(h: Header): (s: seq<byte>)
    requires WellFormed(h)
    ensures |s| == 20
  {
    [(h.version * 16 + h.ihl) as byte, h.tos] + Word16Bytes(h.totalLength) + Word16Bytes(h.id)
    + Word16Bytes(h.flags * 0x2000 + h.pos) + [h.ttl, h.protocol] + Word16Bytes(h.checksum)
    + h.src + h.dst
  }

  /** Every accessor reads back the field it was encoded from. */
  lemma {:induction false} DecodeEncodedHeader(h: Header, rest: seq<byte>)
    requires WellFormed(h)
    ensures var f := Whole(EncodeHeader(h) + rest);
            && Version(f) == h.version && Ihl(f) == h.ihl && HeaderLength(f) == 4 * h.ihl
            && Tos(f) == h.tos && TotalLength(f) == h.totalLength && FragmentId(f) == h.id
            && FragmentFlags(f) == h.flags && FragmentPos(f) == h.pos
            && Ttl(f) == h.ttl && ProtocolId(f) == h.protocol && Checksum(f) == h.checksum
            && (h.version == 4 ==> SourceIp(f).Ok? && SourceIp(f).value.Bytes() == h.src)
            && (h.version == 4 ==> DestinationIp(f).Ok? && DestinationIp(f).value.Bytes() == h.dst)
  {
    var s := EncodeHeader(h) + rest;
    var f := Whole(s);
    var w2 := Word16Bytes(h.totalLength);
    var w4 := Word16Bytes(h.id);
    var w6 := Word16Bytes(h.flags * 0x2000 + h.pos);
    var w10 := Word16Bytes(h.checksum);
    assert f.At(0) == (h.version * 16 + h.ihl) as byte && f.At(1) == h.tos;
    assert f.At(2) == w2[0] && f.At(3) == w2[1] && f.At(4) == w4[0] && f.At(5) == w4[1];
    assert f.At(6) == w6[0] && f.At(7) == w6[1] && f.At(8) == h.ttl && f.At(9) == h.protocol;
    assert f.At(10) == w10[0] && f.At(11) == w10[1];
    assert s[12..16] == h.src && s[16..20] == h.dst;
    FlagsPositionPartition(f);
    PartitionUnique(FragmentFlags(f), FragmentPos(f), h.flags, h.pos);
  }

  lemma PartitionUnique(a: nat, b: nat, a': nat, b': nat)
    requires b < 0x2000 && b' < 0x2000 && a * 0x2000 + b == a' * 0x2000 + b'
    ensures a == a' && b == b'
  {
  }
}
