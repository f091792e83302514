/**
 * EthernetFrame (ethernetframe.cpp): the Ethernet II header, the IEEE
 * 802.1Q tag, and the hand-over to the IPv4 and ARP layers.
 */
module EthernetFrame {
  import opened Outcome
  import opened Octets
  import MacAddress

  /** The EtherType enumeration of ethernetframe.h. */
  datatype EtherType =
    | Length | Dec | Xns | IPv4 | ARP | Domain | RARP | IPX
    | AppleTalk | Dot1Q | IPv6 | Loopback | Other | NoType

  const NOT_8021Q := "ethernet frame is not 802.1Q"
  const NOT_IPV4 := "Ethernet frame not transporting IPv4 traffic"
  const NOT_ARP := "Ethernet frame not transporting ARP traffic"

  /** The 14-byte header is there to be read, or there is no block at all. */
  predicate HasHeader(f: Fragment) {
    f.ptr.Null? || 14 <= f.len
  }

  /** ether_code(): bytes 12 and 13 in network order, or 0 without a block. */
  function EtherCode(f: Fragment): (c: nat)
    requires HasHeader(f)
    ensures c < 0x1_0000
    ensures f.ptr.Null? ==> c == 0
    ensures f.ptr.Into? ==> c / 0x100 == f.At(12) as nat && c % 0x100 == f.At(13) as nat
  {
    if f.ptr.Null? then 0 else Be16(f, 12)
  }

  /** The type codes that ether_type() names. */
  predicate Named(t: EtherType) {
    !(t.Length? || t.Other? || t.NoType?)
  }

  /** The code of each named type (the first one for DEC, which has two). */
  function CodeOf(t: EtherType): nat
    requires Named(t)
  {
    match t
    case Dec => 0x6000
    case Xns => 0x0600
    case IPv4 => 0x0800
    case ARP => 0x0806
    case Domain => 0x8019
    case RARP => 0x8035
    case IPX => 0x8037
    case AppleTalk => 0x809B
    case Dot1Q => 0x8100
    case IPv6 => 0x86DD
    case Loopback => 0x9000
  }

  /**
   * The decision of ether_type(): a code up to 0x05DC is a length, the
   * listed codes are named, any other code is Other; NoType never comes out.
   */
  function Classify(code: nat): (t: EtherType)
    ensures t.Length? <==> code <= 0x05DC
    ensures !t.NoType?
    ensures Named(t) ==> code == CodeOf(t) || (t == Dec && code == 0x0609)
    ensures t.Other? ==> code > 0x05DC && code !in {0x6000, 0x0609, 0x0600, 0x0800, 0x0806, 0x8019,
                                                 0x8035, 0x8037, 0x809B, 0x8100, 0x86DD, 0x9000}
  {
    if code <= 0x05DC then Length
    else if code == 0x6000 then Dec
    else if code == 0x0609 then Dec
    else if code == 0x0600 then Xns
    else if code == 0x0800 then IPv4
    else if code == 0x0806 then ARP
    else if code == 0x8019 then Domain
    else if code == 0x8035 then RARP
    else if code == 0x8037 then IPX
    else if code == 0x809B then AppleTalk
    else if code == 0x8100 then Dot1Q
    else if code == 0x86DD then IPv6
    else if code == 0x9000 then Loopback
    else Other
  }

  /** Every named type is what ether_type() returns for its code. */
  lemma ClassifyCodeOf(t: EtherType)
    requires Named(t)
    ensures Classify(CodeOf(t)) == t
  {
  }

  /** ether_type(). */
  function TypeOf(f: Fragment): (t: EtherType)
    requires HasHeader(f)
    ensures !t.NoType?
    ensures t.Length? <==> f.ptr.Null? || Char2Word(f.At(12), f.At(13)) <= 0x05DC
    ensures t == IPv4 <==> f.ptr.Into? && Char2Word(f.At(12), f.At(13)) == 0x0800
    ensures t == ARP <==> f.ptr.Into? && Char2Word(f.At(12), f.At(13)) == 0x0806
    ensures t == Dot1Q <==> f.ptr.Into? && Char2Word(f.At(12), f.At(13)) == 0x8100
  {
    Classify(EtherCode(f))
  }

  /** header_length(): 0 without a block, 18 for an 802.1Q frame, 14 otherwise. */
  function HeaderLength(f: Fragment): (n: nat)
    requires HasHeader(f)
    ensures n == 0 <==> f.ptr.Null?
    ensures n == 18 <==> f.ptr.Into? && TypeOf(f) == Dot1Q
    ensures n == 0 || n == 14 || n == 18
  {
    if f.ptr.Null? then 0 else if TypeOf(f) == Dot1Q then 18 else 14
  }

  /** A frame without a block has type code 0, so it reads as a length field. */
  lemma EmptyFrameIsLength(f: Fragment)
    requires f.ptr.Null?
    ensures HasHeader(f) && TypeOf(f) == Length && HeaderLength(f) == 0
  {
  }

  /** PCP_8021Q(): the three high bits of byte 14. */
  function Pcp(f: Fragment): (r: Result<nat>)
    ensures r.Ok? <==> HasHeader(f) && TypeOf(f) == Dot1Q && 15 <= f.len
    ensures HasHeader(f) && TypeOf(f) != Dot1Q ==> r == Err(TransportMismatch(NOT_8021Q))
    ensures !HasHeader(f) ==> r == Err(Truncated)
    ensures r.Ok? ==> r.value < 8
  {
    if !HasHeader(f) then Err(Truncated)
    else if TypeOf(f) != Dot1Q then Err(TransportMismatch(NOT_8021Q))
    else if f.len < 15 then Err(Truncated)
    else Ok(f.At(14) as nat / 32)
  }

  /** DEI_8021Q(): bit 4 of byte 14. */
  function Dei(f: Fragment): (r: Result<nat>)
    ensures r.Ok? <==> HasHeader(f) && TypeOf(f) == Dot1Q && 15 <= f.len
    ensures HasHeader(f) && TypeOf(f) != Dot1Q ==> r == Err(TransportMismatch(NOT_8021Q))
    ensures !HasHeader(f) ==> r == Err(Truncated)
    ensures r.Ok? ==> r.value < 2
  {
    if !HasHeader(f) then Err(Truncated)
    else if TypeOf(f) != Dot1Q then Err(TransportMismatch(NOT_8021Q))
    else if f.len < 15 then Err(Truncated)
    else Ok(f.At(14) as nat / 16 % 2)
  }

  /** VID_8021Q(): char2word(p_data + 14) & 0x0FFF. */
  function Vid(f: Fragment): (r: Result<nat>)
    ensures r.Ok? <==> HasHeader(f) && TypeOf(f) == Dot1Q && 16 <= f.len
    ensures HasHeader(f) && TypeOf(f) != Dot1Q ==> r == Err(TransportMismatch(NOT_8021Q))
    ensures !HasHeader(f) ==> r == Err(Truncated)
    ensures r.Ok? ==> r.value < 0x1000
  {
    if !HasHeader(f) then Err(Truncated)
    else if TypeOf(f) != Dot1Q then Err(TransportMismatch(NOT_8021Q))
    else if f.len < 16 then Err(Truncated)
    else Ok(Be16(f, 14) % 0x1000)
  }

  /** PCP, DEI and VID split the 16-bit tag control field of an 802.1Q frame without gap or overlap. */
  lemma {:induction false} TagPartition(f: Fragment)
    requires Vid(f).Ok?
    ensures Pcp(f).Ok? && Dei(f).Ok?
    ensures Pcp(f).value * 0x2000 + Dei(f).value * 0x1000 + Vid(f).value == Be16(f, 14)
  {
    var hi, lo := f.At(14), f.At(15);
    assert Pcp(f).value == hi as nat / 32 && Dei(f).value == hi as nat / 16 % 2;
    assert Vid(f).value == Char2Word(hi, lo) % 0x1000;
    TciSplit(hi, lo);
  }

  lemma {:induction false} TciSplit(hi: byte, lo: byte)
    ensures (hi as nat / 32) * 0x2000 + (hi as nat / 16 % 2) * 0x1000 + Char2Word(hi, lo) % 0x1000
            == Char2Word(hi, lo)
  {
    Low12(hi, lo);
    var h := hi as nat;
    assert h == (h / 32) * 32 + (h / 16 % 2) * 16 + h % 16;
  }

  /** destination_mac(): bytes 0 to 5. */
  function DestinationMac(f: Fragment): (m: Fragment)
    requires 6 <= f.len
    ensures m.len == 6 && m.Bytes() == f.Bytes()[0..6]
  {
    MacAddress.Make(f, 0)
  }

  /** source_mac(): bytes 6 to 11. */
  function SourceMac(f: Fragment): (m: Fragment)
    requires 12 <= f.len
    ensures m.len == 6 && m.Bytes() == f.Bytes()[6..12]
  {
    MacAddress.Make(f, 6)
  }

  /**
   * ip4(): the IPv4 packet carried by the frame, borrowed: the bytes after
   * the 14-byte header. Any other type is a transport mismatch.
   */
  function Ip4(f: Fragment): (r: Result<Fragment>)
    ensures !HasHeader(f) ==> r == Err(Truncated)
    ensures HasHeader(f) && TypeOf(f) != IPv4 ==> r == Err(TransportMismatch(NOT_IPV4))
    ensures HasHeader(f) && TypeOf(f) == IPv4 ==>
              && r.Ok? && r.value.len == f.len - 14 && r.value.Bytes() == f.Bytes()[14..]
              && (14 < f.len ==> r.value.ptr == Into(f.ptr.block, f.ptr.at + 14))
              && (14 == f.len ==> r.value.ptr == Null)
  {
    if !HasHeader(f) then Err(Truncated)
    else if TypeOf(f) != IPv4 then Err(TransportMismatch(NOT_IPV4))
    else Payload(f, HeaderLength(f))
  }

  /** arp(): the ARP packet carried by the frame, borrowed, as for ip4(). */
  function Arp(f: Fragment): (r: Result<Fragment>)
    ensures !HasHeader(f) ==> r == Err(Truncated)
    ensures HasHeader(f) && TypeOf(f) != ARP ==> r == Err(TransportMismatch(NOT_ARP))
    ensures HasHeader(f) && TypeOf(f) == ARP ==>
              && r.Ok? && r.value.len == f.len - 14 && r.value.Bytes() == f.Bytes()[14..]
              && (14 < f.len ==> r.value.ptr == Into(f.ptr.block, f.ptr.at + 14))
              && (14 == f.len ==> r.value.ptr == Null)
  {
    if !HasHeader(f) then Err(Truncated)
    else if TypeOf(f) != ARP then Err(TransportMismatch(NOT_ARP))
    else Payload(f, HeaderLength(f))
  }

  /**
   * ip4() and arp() look at the outer type code only: an 802.1Q frame is
   * never handed to the upper layers, whatever its inner type is.
   */
  lemma TaggedFrameNotDecapsulated(f: Fragment)
    requires HasHeader(f) && TypeOf(f) == Dot1Q
    ensures Ip4(f) == Err(TransportMismatch(NOT_IPV4))
    ensures Arp(f) == Err(TransportMismatch(NOT_ARP))
  {
  }

  /** An Ethernet II frame: destination, source, type code, payload. */
  function Encode(dst: seq<byte>, src: seq<byte>, code: nat, payload: seq<byte>): seq<byte>
    requires |dst| == 6 && |src| == 6 && code < 0x1_0000
  {
    dst + src + Word16Bytes(code) + payload
  }

  /** Decoding an encoded frame gives back its addresses, its code and its payload. */
  lemma {:induction false} DecodeEncoded(dst: seq<byte>, src: seq<byte>, code: nat, payload: seq<byte>)
    requires |dst| == 6 && |src| == 6 && code < 0x1_0000
    ensures var f := Whole(Encode(dst, src, code, payload));
            && HasHeader(f) && EtherCode(f) == code && TypeOf(f) == Classify(code)
            && DestinationMac(f).Bytes() == dst && SourceMac(f).Bytes() == src
            && (Classify(code) == IPv4 ==> Ip4(f).Ok? && Ip4(f).value.Bytes() == payload)
            && (Classify(code) == ARP ==> Arp(f).Ok? && Arp(f).value.Bytes() == payload)
  {
    var s := Encode(dst, src, code, payload);
    var f := Whole(s);
    var w := Word16Bytes(code);
    assert f.Bytes()[0..6] == dst && f.Bytes()[6..12] == src && f.Bytes()[14..] == payload;
    assert f.At(12) == w[0] && f.At(13) == w[1];
  }

  /** The tag control field of an 802.1Q frame from its three parts. */
  function Tci(pcp: nat, dei: nat, vid: nat): (w: nat)
    requires pcp < 8 && dei < 2 && vid < 0x1000
    ensures w < 0x1_0000
  {
    pcp * 0x2000 + dei * 0x1000 + vid
  }

  /** An 802.1Q frame: addresses, the tag, the inner type code, payload. */
  function EncodeTagged(dst: seq<byte>, src: seq<byte>, pcp: nat, dei: nat, vid: nat, inner: nat, payload: seq<byte>): seq<byte>
    requires |dst| == 6 && |src| == 6 && pcp < 8 && dei < 2 && vid < 0x1000 && inner < 0x1_0000
  {
    Encode(dst, src, 0x8100, Word16Bytes(Tci(pcp, dei, vid)) + Word16Bytes(inner) + payload)
  }

  /** The tag of an encoded 802.1Q frame decodes to the parts it was built from. */
  lemma {:induction false} DecodeTagged(dst: seq<byte>, src: seq<byte>, pcp: nat, dei: nat, vid: nat, inner: nat, payload: seq<byte>)
    requires |dst| == 6 && |src| == 6 && pcp < 8 && dei < 2 && vid < 0x1000 && inner < 0x1_0000
    ensures var f := Whole(EncodeTagged(dst, src, pcp, dei, vid, inner, payload));
            && HasHeader(f) && TypeOf(f) == Dot1Q && HeaderLength(f) == 18
            && Pcp(f) == Ok(pcp) && Dei(f) == Ok(dei) && Vid(f) == Ok(vid)
  {
    var rest := Word16Bytes(Tci(pcp, dei, vid)) + Word16Bytes(inner) + payload;
    DecodeEncoded(dst, src, 0x8100, rest);
    var f := Whole(EncodeTagged(dst, src, pcp, dei, vid, inner, payload));
    assert f.At(14) == rest[0] && f.At(15) == rest[1];
    TagPartition(f);
    assert Be16(f, 14) == Tci(pcp, dei, vid);
    TciUnique(Pcp(f).value, Dei(f).value, Vid(f).value, pcp, dei, vid);
  }

  lemma TciUnique(p: nat, d: nat, v: nat, p': nat, d': nat, v': nat)
    requires p < 8 && d < 2 && v < 0x1000 && p' < 8 && d' < 2 && v' < 0x1000
    requires Tci(p, d, v) == Tci(p', d', v')
    ensures p == p' && d == d' && v == v'
  {
  }
}
