/**
 * ARPPacket (arppacket.cpp): the Address Resolution Protocol packet of
 * RFC 826, with address lengths read from the packet itself.
 */
module ArpPacket {
  import opened Outcome
  import opened Octets
  import MacAddress
  import IpAddress

  /** ARPHardwareType, ARPProtocolType and ARPPacketType of arppacket.h. */
  datatype HardwareType = Ethernet | FrameRelay | Atm | IpSec | UnknownHardware
  datatype ProtocolType = IPv4 | IPX | Dot1Q | IPv6 | UnknownProtocol
  datatype Operation = ArpRequest | ArpReply | RarpRequest | RarpReply | UnknownOperation

  const NOT_ETHERNET := "Hardware layer not Ethernet based"
  const NOT_IPV4 := "Protocol layer not IPv4 based"

  /** The first n bytes are there to be read, or there is no block at all. */
  predicate Has(f: Fragment, n: nat) {
    f.ptr.Null? || n <= f.len
  }

  /** hardware_type_code(): bytes 0 and 1, or 0 without a block. */
  function HardwareTypeCode(f: Fragment): (c: nat)
    requires Has(f, 2)
    ensures c < 0x1_0000 && (f.ptr.Null? ==> c == 0)
    ensures f.ptr.Into? ==> c == Char2Word(f.At(0), f.At(1))
  {
    if f.ptr.Null? then 0 else Be16(f, 0)
  }

  /** protocol_type_code(): bytes 2 and 3, or 0 without a block. */
  function ProtocolTypeCode(f: Fragment): (c: nat)
    requires Has(f, 4)
    ensures c < 0x1_0000 && (f.ptr.Null? ==> c == 0)
    ensures f.ptr.Into? ==> c == Char2Word(f.At(2), f.At(3))
  {
    if f.ptr.Null? then 0 else Be16(f, 2)
  }

  /** hardware_adr_length(): byte 4, or 0 without a block. */
  function HardwareAdrLength(f: Fragment): (n: nat)
    requires Has(f, 5)
    ensures n < 0x100 && (f.ptr.Null? ==> n == 0)
    ensures f.ptr.Into? ==> n == f.At(4) as nat
  {
    if f.ptr.Null? then 0 else f.At(4) as nat
  }

  /** protocol_adr_length(): byte 5, or 0 without a block. */
  function ProtocolAdrLength(f: Fragment): (n: nat)
    requires Has(f, 6)
    ensures n < 0x100 && (f.ptr.Null? ==> n == 0)
    ensures f.ptr.Into? ==> n == f.At(5) as nat
  {
    if f.ptr.Null? then 0 else f.At(5) as nat
  }

  /** operation_code(): bytes 6 and 7, or 0 without a block. */
  function OperationCode(f: Fragment): (c: nat)
    requires Has(f, 8)
    ensures c < 0x1_0000 && (f.ptr.Null? ==> c == 0)
    ensures f.ptr.Into? ==> c == Char2Word(f.At(6), f.At(7))
  {
    if f.ptr.Null? then 0 else Be16(f, 6)
  }

  /** header_length(): the fixed eight bytes and both pairs of addresses; 0 without a block. */
  function HeaderLength(f: Fragment): (n: nat)
    requires Has(f, 6)
    ensures f.ptr.Null? ==> n == 0
    ensures f.ptr.Into? ==> n == 8 + 2 * HardwareAdrLength(f) + 2 * ProtocolAdrLength(f)
    ensures n <= 8 + 2 * 255 + 2 * 255
  {
    if f.ptr.Null? then 0 else HardwareAdrLength(f) * 2 + ProtocolAdrLength(f) * 2 + 8
  }

  /** The hardware map of hardware_type(). */
  function HardwareOf(code: nat): (t: HardwareType)
    ensures t == Ethernet <==> code == 0x0001
    ensures t == FrameRelay <==> code == 0x000F
    ensures t == Atm <==> code in {0x0010, 0x0013, 0x0015}
    ensures t == IpSec <==> code == 0x001F
  {
    match code
    case 0x0001 => Ethernet
    case 0x000F => FrameRelay
    case 0x0010 => Atm
    case 0x0013 => Atm
    case 0x0015 => Atm
    case 0x001F => IpSec
    case _ => UnknownHardware
  }

  /** The protocol map of protocol_type(). */
  function ProtocolOf(code: nat): (t: ProtocolType)
    ensures t == IPv4 <==> code == 0x0800
    ensures t == IPX <==> code == 0x8037
    ensures t == Dot1Q <==> code == 0x8100
    ensures t == IPv6 <==> code == 0x86DD
  {
    match code
    case 0x0800 => IPv4
    case 0x8037 => IPX
    case 0x8100 => Dot1Q
    case 0x86DD => IPv6
    case _ => UnknownProtocol
  }

  /** The operation map of operation(). */
  function OperationOf(code: nat): (t: Operation)
    ensures t == ArpRequest <==> code == 1
    ensures t == ArpReply <==> code == 2
    ensures t == RarpRequest <==> code == 3
    ensures t == RarpReply <==> code == 4
  {
    match code
    case 1 => ArpRequest
    case 2 => ArpReply
    case 3 => RarpRequest
    case 4 => RarpReply
    case _ => UnknownOperation
  }

  /** hardware_type(). */
  function HardwareTypeOf(f: Fragment): (t: HardwareType)
    requires Has(f, 2)
    ensures t == Ethernet <==> f.ptr.Into? && Char2Word(f.At(0), f.At(1)) == 0x0001
  {
    HardwareOf(HardwareTypeCode(f))
  }

  /** protocol_type(). */
  function ProtocolTypeOf(f: Fragment): (t: ProtocolType)
    requires Has(f, 4)
    ensures t == IPv4 <==> f.ptr.Into? && Char2Word(f.At(2), f.At(3)) == 0x0800
  {
    ProtocolOf(ProtocolTypeCode(f))
  }

  /** operation(). */
  function OperationOfPacket(f: Fragment): (t: Operation)
    requires Has(f, 8)
    ensures t == ArpRequest <==> f.ptr.Into? && Char2Word(f.At(6), f.At(7)) == 1
    ensures t == ArpReply <==> f.ptr.Into? && Char2Word(f.At(6), f.At(7)) == 2
  {
    OperationOf(OperationCode(f))
  }

  /** source_mac(): the six bytes at 8 when the hardware type is Ethernet. */
  function SourceMac(f: Fragment): (r: Result<Fragment>)
    ensures Has(f, 2) && HardwareTypeOf(f) != Ethernet ==> r == Err(HardwareMismatch(NOT_ETHERNET))
    ensures r.Ok? <==> Has(f, 2) && HardwareTypeOf(f) == Ethernet && 14 <= f.len
    ensures r.Ok? ==> r.value.len == 6 && r.value.Bytes() == f.Bytes()[8..14]
  {
    if !Has(f, 2) then Err(Truncated)
    else if HardwareTypeOf(f) != Ethernet then Err(HardwareMismatch(NOT_ETHERNET))
    else if f.len < 14 then Err(Truncated)
    else Ok(MacAddress.Make(f, 8))
  }

  /** destination_mac(): the six bytes at 8 + hlen + plen when the hardware type is Ethernet. */
  function DestinationMac(f: Fragment): (r: Result<Fragment>)
    ensures Has(f, 2) && HardwareTypeOf(f) != Ethernet ==> r == Err(HardwareMismatch(NOT_ETHERNET))
    ensures r.Ok? <==> && Has(f, 2) && HardwareTypeOf(f) == Ethernet && 6 <= f.len
                       && 8 + f.At(4) as nat + f.At(5) as nat + 6 <= f.len
    ensures r.Ok? ==> var o := 8 + f.At(4) as nat + f.At(5) as nat;
                      r.value.len == 6 && r.value.Bytes() == f.Bytes()[o..o + 6]
  {
    if !Has(f, 2) then Err(Truncated)
    else if HardwareTypeOf(f) != Ethernet then Err(HardwareMismatch(NOT_ETHERNET))
    else if f.len < 6 then Err(Truncated)
    else
      var o := 8 + HardwareAdrLength(f) + ProtocolAdrLength(f);
      if f.len < o + 6 then Err(Truncated) else Ok(MacAddress.Make(f, o))
  }

  /** source_ip(): the four bytes at 8 + hlen when the protocol type is IPv4. */
  function SourceIp(f: Fragment): (r: Result<Fragment>)
    ensures Has(f, 4) && ProtocolTypeOf(f) != IPv4 ==> r == Err(TransportMismatch(NOT_IPV4))
    ensures r.Ok? <==> && Has(f, 4) && ProtocolTypeOf(f) == IPv4 && 5 <= f.len
                       && 8 + f.At(4) as nat + 4 <= f.len
    ensures r.Ok? ==> var o := 8 + f.At(4) as nat;
                      r.value.len == 4 && r.value.Bytes() == f.Bytes()[o..o + 4]
  {
    if !Has(f, 4) then Err(Truncated)
    else if ProtocolTypeOf(f) != IPv4 then Err(TransportMismatch(NOT_IPV4))
    else if f.len < 5 then Err(Truncated)
    else
      var o := 8 + HardwareAdrLength(f);
      if f.len < o + 4 then Err(Truncated) else Ok(IpAddress.Make(f, o))
  }

  /** destination_ip(): the four bytes at 8 + 2*hlen + plen when the protocol type is IPv4. */
  function DestinationIp(f: Fragment): (r: Result<Fragment>)
    ensures Has(f, 4) && ProtocolTypeOf(f) != IPv4 ==> r == Err(TransportMismatch(NOT_IPV4))
    ensures r.Ok? <==> && Has(f, 4) && ProtocolTypeOf(f) == IPv4 && 6 <= f.len
                       && 8 + 2 * f.At(4) as nat + f.At(5) as nat + 4 <= f.len
    ensures r.Ok? ==> var o := 8 + 2 * f.At(4) as nat + f.At(5) as nat;
                      r.value.len == 4 && r.value.Bytes() == f.Bytes()[o..o + 4]
  {
    if !Has(f, 4) then Err(Truncated)
    else if ProtocolTypeOf(f) != IPv4 then Err(TransportMismatch(NOT_IPV4))
    else if f.len < 6 then Err(Truncated)
    else
      var o := 8 + HardwareAdrLength(f) * 2 + ProtocolAdrLength(f);
      if f.len < o + 4 then Err(Truncated) else Ok(IpAddress.Make(f, o))
  }

  /**
   * With six-byte hardware and four-byte protocol addresses the header is
   * 28 bytes, and the sender and target addresses sit at 8, 14, 18 and 24,
   * one after the other as RFC 826 lays them out.
   */
  lemma {:induction false} EthernetIpv4Layout(f: Fragment)
    requires 28 <= f.len && f.At(4) == 6 && f.At(5) == 4
    requires HardwareTypeOf(f) == Ethernet && ProtocolTypeOf(f) == IPv4
    ensures HeaderLength(f) == 28
    ensures SourceMac(f).Ok? && SourceMac(f).value.Bytes() == f.Bytes()[8..14]
    ensures SourceIp(f).Ok? && SourceIp(f).value.Bytes() == f.Bytes()[14..18]
    ensures DestinationMac(f).Ok? && DestinationMac(f).value.Bytes() == f.Bytes()[18..24]
    ensures DestinationIp(f).Ok? && DestinationIp(f).value.Bytes() == f.Bytes()[24..28]
  {
  }

  /** An Ethernet/IPv4 ARP packet: sender and target hardware and protocol addresses. */
  function Encode(op: nat, sha: seq<byte>, spa: seq<byte>, tha: seq<byte>, tpa: seq<byte>): seq<byte>
    requires op < 0x1_0000 && |sha| == 6 && |spa| == 4 && |tha| == 6 && |tpa| == 4
  {
    [0, 1, 8, 0, 6, 4] + Word16Bytes(op) + sha + spa + tha + tpa
  }

  /** Decoding an encoded packet gives back its operation and its four addresses. */
  lemma {:induction false} DecodeEncoded(op: nat, sha: seq<byte>, spa: seq<byte>, tha: seq<byte>, tpa: seq<byte>)
    requires op < 0x1_0000 && |sha| == 6 && |spa| == 4 && |tha| == 6 && |tpa| == 4
    ensures var f := Whole(Encode(op, sha, spa, tha, tpa));
            && HardwareTypeOf(f) == Ethernet && ProtocolTypeOf(f) == IPv4 && HeaderLength(f) == 28
            && OperationCode(f) == op && OperationOfPacket(f) == OperationOf(op)
            && SourceMac(f) == Ok(MacAddress.Make(f, 8)) && SourceMac(f).value.Bytes() == sha
            && SourceIp(f).Ok? && SourceIp(f).value.Bytes() == spa
            && DestinationMac(f).Ok? && DestinationMac(f).value.Bytes() == tha
            && DestinationIp(f).Ok? && DestinationIp(f).value.Bytes() == tpa
  {
    var s := Encode(op, sha, spa, tha, tpa);
    var f := Whole(s);
    var w := Word16Bytes(op);
    assert f.At(0) == 0 && f.At(1) == 1 && f.At(2) == 8 && f.At(3) == 0;
    assert f.At(4) == 6 && f.At(5) == 4 && f.At(6) == w[0] && f.At(7) == w[1];
    assert s[8..14] == sha && s[14..18] == spa && s[18..24] == tha && s[24..28] == tpa;
    EthernetIpv4Layout(f);
  }
}
