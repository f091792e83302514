/**
 * ICMPPacket (icmppacket.cpp): the ICMP messages of RFC 792, their
 * type-dependent fields and the textual description.
 */
module IcmpPacket {
  import opened Outcome
  import opened Octets
  import IpAddress

  /** header_length(): 8, or 0 without a block. */
  function HeaderLength(f: Fragment): (n: nat)
    ensures n == 0 <==> f.ptr.Null?
    ensures f.ptr.Into? ==> n == 8
  {
    if f.ptr.Null? then 0 else 8
  }

  /** type(): byte 0. */
  function Type(f: Fragment): (t: byte)
    requires 1 <= f.len
    ensures t == f.Bytes()[0]
  {
    f.At(0)
  }

  /** code(): byte 1. */
  function Code(f: Fragment): (c: byte)
    requires 2 <= f.len
    ensures c == f.Bytes()[1]
  {
    f.At(1)
  }

  /** checksum(): bytes 2 and 3. */
  function Checksum(f: Fragment): (n: nat)
    requires 4 <= f.len
    ensures n == Char2Word(f.At(2), f.At(3))
  {
    Be16(f, 2)
  }

  /** The guard of identifier() and sequence_number(): code 0, or a timestamp or address mask type. */
  predicate HoldsIdentifier(f: Fragment)
    requires 2 <= f.len
  {
    Code(f) == 0 || Type(f) in {13, 14, 17, 18}
  }

  /** identifier(): bytes 4 and 5. */
  function Identifier(f: Fragment): (r: Result<nat>)
    ensures f.len < 2 ==> r == Err(Truncated)
    ensures 2 <= f.len && !HoldsIdentifier(f) ==>
              r == Err(TransportMismatch("ICMP packet does not hold identifier field"))
    ensures r.Ok? <==> 2 <= f.len && HoldsIdentifier(f) && 6 <= f.len
    ensures r.Ok? ==> r.value == Char2Word(f.At(4), f.At(5))
  {
    if f.len < 2 then Err(Truncated)
    else if !HoldsIdentifier(f) then Err(TransportMismatch("ICMP packet does not hold identifier field"))
    else if f.len < 6 then Err(Truncated)
    else Ok(Be16(f, 4))
  }

  /** sequence_number(): bytes 6 and 7. */
  function SequenceNumber(f: Fragment): (r: Result<nat>)
    ensures f.len < 2 ==> r == Err(Truncated)
    ensures 2 <= f.len && !HoldsIdentifier(f) ==>
              r == Err(TransportMismatch("ICMP packet does not hold sequence number field"))
    ensures r.Ok? <==> 2 <= f.len && HoldsIdentifier(f) && 8 <= f.len
    ensures r.Ok? ==> r.value == Char2Word(f.At(6), f.At(7))
  {
    if f.len < 2 then Err(Truncated)
    else if !HoldsIdentifier(f) then Err(TransportMismatch("ICMP packet does not hold sequence number field"))
    else if f.len < 8 then Err(Truncated)
    else Ok(Be16(f, 6))
  }

  /** next_hop_MTU(): bytes 6 and 7 of a destination unreachable message (type 3). */
  function NextHopMtu(f: Fragment): (r: Result<nat>)
    ensures f.len < 1 ==> r == Err(Truncated)
    ensures 1 <= f.len && Type(f) != 3 ==>
              r == Err(TransportMismatch("ICMP packet does not hold next-hop MTU field"))
    ensures r.Ok? <==> 1 <= f.len && Type(f) == 3 && 8 <= f.len
    ensures r.Ok? ==> r.value == Char2Word(f.At(6), f.At(7))
  {
    if f.len < 1 then Err(Truncated)
    else if Type(f) != 3 then Err(TransportMismatch("ICMP packet does not hold next-hop MTU field"))
    else if f.len < 8 then Err(Truncated)
    else Ok(Be16(f, 6))
  }

  /** originate_timestamp(): bytes 8 to 11 of a timestamp or timestamp reply (types 13, 14, code 0). */
  function OriginateTimestamp(f: Fragment): (r: Result<nat>)
    ensures f.len < 2 ==> r == Err(Truncated)
    ensures 2 <= f.len && !(Code(f) == 0 && Type(f) in {13, 14}) ==>
              r == Err(TransportMismatch("ICMP packet does not hold originate timestamp field"))
    ensures r.Ok? <==> 2 <= f.len && Code(f) == 0 && Type(f) in {13, 14} && 12 <= f.len
    ensures r.Ok? ==> r.value == Char4Word(f.At(8), f.At(9), f.At(10), f.At(11))
  {
    if f.len < 2 then Err(Truncated)
    else if !(Code(f) == 0 && Type(f) in {13, 14}) then
      Err(TransportMismatch("ICMP packet does not hold originate timestamp field"))
    else if f.len < 12 then Err(Truncated)
    else Ok(Be32(f, 8))
  }

  /** receive_timestamp(): bytes 12 to 15 of a timestamp reply (type 14, code 0). */
  function ReceiveTimestamp(f: Fragment): (r: Result<nat>)
    ensures f.len < 2 ==> r == Err(Truncated)
    ensures 2 <= f.len && !(Code(f) == 0 && Type(f) == 14) ==>
              r == Err(TransportMismatch("ICMP packet does not hold receive timestamp field"))
    ensures r.Ok? <==> 2 <= f.len && Code(f) == 0 && Type(f) == 14 && 16 <= f.len
    ensures r.Ok? ==> r.value == Char4Word(f.At(12), f.At(13), f.At(14), f.At(15))
  {
    if f.len < 2 then Err(Truncated)
    else if !(Code(f) == 0 && Type(f) == 14) then
      Err(TransportMismatch("ICMP packet does not hold receive timestamp field"))
    else if f.len < 16 then Err(Truncated)
    else Ok(Be32(f, 12))
  }

  /** transmit_timestamp(): bytes 16 to 19 of a timestamp reply (type 14, code 0). */
  function TransmitTimestamp(f: Fragment): (r: Result<nat>)
    ensures f.len < 2 ==> r == Err(Truncated)
    ensures 2 <= f.len && !(Code(f) == 0 && Type(f) == 14) ==>
              r == Err(TransportMismatch("ICMP packet does not hold transmit timestamp field"))
    ensures r.Ok? <==> 2 <= f.len && Code(f) == 0 && Type(f) == 14 && 20 <= f.len
    ensures r.Ok? ==> r.value == Char4Word(f.At(16), f.At(17), f.At(18), f.At(19))
  {
    if f.len < 2 then Err(Truncated)
    else if !(Code(f) == 0 && Type(f) == 14) then
      Err(TransportMismatch("ICMP packet does not hold transmit timestamp field"))
    else if f.len < 20 then Err(Truncated)
    else Ok(Be32(f, 16))
  }

  /** ipaddress(): the gateway address, bytes 4 to 7 of a redirect (type 5). */
  function GatewayAddress(f: Fragment): (r: Result<Fragment>)
    ensures f.len < 1 ==> r == Err(Truncated)
    ensures 1 <= f.len && Type(f) != 5 ==>
              r == Err(TransportMismatch("ICMP packet does not hold IP address field"))
    ensures r.Ok? <==> 1 <= f.len && Type(f) == 5 && 8 <= f.len
    ensures r.Ok? ==> r.value.len == 4 && r.value.Bytes() == f.Bytes()[4..8]
  {
    if f.len < 1 then Err(Truncated)
    else if Type(f) != 5 then Err(TransportMismatch("ICMP packet does not hold IP address field"))
    else if f.len < 8 then Err(Truncated)
    else Ok(IpAddress.Make(f, 4))
  }

  /** address_mask(): bytes 8 to 11 of an address mask request or reply (types 17, 18, code 0). */
  function AddressMask(f: Fragment): (r: Result<Fragment>)
    ensures f.len < 2 ==> r == Err(Truncated)
    ensures 2 <= f.len && !(Code(f) == 0 && Type(f) in {17, 18}) ==>
              r == Err(TransportMismatch("ICMP packet does not hold address mask field"))
    ensures r.Ok? <==> 2 <= f.len && Code(f) == 0 && Type(f) in {17, 18} && 12 <= f.len
    ensures r.Ok? ==> r.value.len == 4 && r.value.Bytes() == f.Bytes()[8..12]
  {
    if f.len < 2 then Err(Truncated)
    else if !(Code(f) == 0 && Type(f) in {17, 18}) then
      Err(TransportMismatch("ICMP packet does not hold address mask field"))
    else if f.len < 12 then Err(Truncated)
    else Ok(IpAddress.Make(f, 8))
  }

  /**
   * The guard of identifier() also admits every message with code 0,
   * such as a destination unreachable (type 3), whose bytes 4 to 7 RFC 792
   * leaves unused.
   */
  lemma IdentifierGuardAdmitsCodeZero(f: Fragment)
    requires 8 <= f.len && Type(f) == 3 && Code(f) == 0
    ensures Identifier(f).Ok? && SequenceNumber(f).Ok? && NextHopMtu(f).Ok?
  {
  }

  /* The description table. */

  const UNKNOWN := "unknown ICMP packet"

  /** The switch of description(): each listed key and its text. */
  const TABLE: map<nat, string> := map[
    0x0000 := "echo reply",
    0x0300 := "network unreachable",
    0x0301 := "host unreachable",
    0x0302 := "protocol unreachable",
    0x0303 := "port unreachable",
    0x0304 := "fragmentation needed and Don't Fragment flag set",
    0x0305 := "source route failed",
    0x0306 := "destination network unknown",
    0x0307 := "destination host unknown",
    0x0308 := "source host isolated",
    0x0309 := "communication with destination network is administratively prohibited",
    0x030A := "communication with destination host is administratively prohibited",
    0x030B := "destination network unreachable for type of service",
    0x030C := "destination host unreachable for type of service",
    0x030D := "communication administratively prohibited ",
    0x030E := "host precedence violation",
    0x030F := "precedence cutoff in effect",
    0x0400 := "source quench",
    0x0500 := "redirect datagram for the network (or subnet)",
    0x0501 := "redirect datagram for the host",
    0x0502 := "redirect datagram for the type of service and network",
    0x0503 := "redirect datagram for the type of service and host",
    0x0600 := "alternate address for host",
    0x0800 := "echo request",
    0x0900 := "normal router advertisement",
    0x0910 := "does not route common traffic",
    0x0A00 := "router selection",
    0x0B00 := "time to live exceeded in transit",
    0x0B01 := "fragment reassembly time exceeded",
    0x0C00 := "pointer indicates the error",
    0x0C01 := "missing a required option",
    0x0C02 := "bad length",
    0x0D00 := "timestamp",
    0x0E00 := "timestamp reply",
    0x0F00 := "information request",
    0x1000 := "information reply",
    0x1100 := "address mask request",
    0x1200 := "address mask reply",
    0x1300 := "reserved (for security)",
    0x1E00 := "traceroute",
    0x1F00 := "datagram conversion error"
  ]

  /** description() of a key: its text when the switch lists it, otherwise unknown. */
  function Describe(key: nat): (s: string)
    ensures s == UNKNOWN <==> key !in TABLE
    ensures key == 0x0000 ==> s == "echo reply"
    ensures key == 0x0800 ==> s == "echo request"
    ensures key == 0x0301 ==> s == "host unreachable"
    ensures key == 0x0600 ==> s == "alternate address for host"
  {
    if key in TABLE then TABLE[key] else UNKNOWN
  }

  function Pow2(n: nat): (p: nat)
    ensures p > 0
  {
    if n == 0 then 1 else 2 * Pow2(n - 1)
  }

  /**
   * The key description() computes: `type() << 8 + code()`, which C++
   * parses as type() << (8 + code()), on a 32-bit unsigned int. A shift
   * by 32 or more is undefined, hence code() < 24.
   */
  function KeyAsWritten(f: Fragment): (k: nat)
    requires 2 <= f.len && Code(f) < 24
    ensures k < 0x1_0000_0000
  {
    ShiftedKey(Type(f) as nat, Code(f) as nat)
  }

  /** t << (8 + c) on a 32-bit unsigned int. */
  function ShiftedKey(t: nat, c: nat): (k: nat)
    requires c < 24
    ensures k < 0x1_0000_0000
  {
    t * Pow2(8 + c) % 0x1_0000_0000
  }

  /** description() as written. */
  function DescriptionAsWritten(f: Fragment): (s: string)
    requires 2 <= f.len && Code(f) < 24
    ensures s == UNKNOWN <==> KeyAsWritten(f) !in TABLE
    ensures Type(f) == 3 && Code(f) == 1 ==> s == "alternate address for host"
  {
    HostUnreachableShift();
    Describe(KeyAsWritten(f))
  }

  /** The key the table is laid out for: type in the high byte, code in the low byte. */
  function Key(f: Fragment): (k: nat)
    requires 2 <= f.len
    ensures k / 0x100 == Type(f) as nat && k % 0x100 == Code(f) as nat
  {
    Char2Word(Type(f), Code(f))
  }

  /** description() with the key the table is laid out for. */
  function Description(f: Fragment): (s: string)
    requires 2 <= f.len
    ensures s == UNKNOWN <==> Key(f) !in TABLE
    ensures Type(f) == 0 && Code(f) == 0 ==> s == "echo reply"
    ensures Type(f) == 8 && Code(f) == 0 ==> s == "echo request"
    ensures Type(f) == 3 && Code(f) == 1 ==> s == "host unreachable"
  {
    Describe(Key(f))
  }

  /** 3 << (8 + 1): the key type 3, code 1 gets as written. */
  lemma HostUnreachableShift()
    ensures ShiftedKey(3, 1) == 0x0600
  {
    assert Pow2(9) == 0x200;
  }

  lemma ShiftedKeyCodeZero(t: nat)
    requires t < 0x100
    ensures ShiftedKey(t, 0) == t * 0x100
  {
    assert Pow2(8) == 0x100;
  }

  /** When code() is 0 both keys are type() << 8, so both descriptions agree; type 8 is an echo request. */
  lemma {:induction false} DescriptionCodeZero(f: Fragment)
    requires 2 <= f.len && Code(f) == 0
    ensures KeyAsWritten(f) == Type(f) as nat * 0x100 == Key(f)
    ensures DescriptionAsWritten(f) == Description(f)
    ensures Type(f) == 8 ==> Description(f) == "echo request"
    ensures Type(f) == 0 ==> Description(f) == "echo reply"
  {
    ShiftedKeyCodeZero(Type(f) as nat);
    assert Key(f) == Type(f) as nat * 0x100;
  }

  lemma {:induction false} Pow2Add8(n: nat)
    ensures Pow2(8 + n) == 0x100 * Pow2(n)
  {
    if n > 0 {
      Pow2Add8(n - 1);
    } else {
      assert Pow2(8) == 0x100;
    }
  }

  lemma ScaledMod(x: nat)
    ensures (0x100 * x) % 0x1_0000_0000 == 0x100 * (x % 0x100_0000)
  {
    var q, r := x / 0x100_0000, x % 0x100_0000;
    assert 0x100 * x == 0x1_0000_0000 * q + 0x100 * r;
  }

  /** A shifted key is a multiple of 0x100. */
  lemma {:induction false} ShiftedKeyLowByte(t: nat, c: nat)
    requires c < 24
    ensures ShiftedKey(t, c) % 0x100 == 0
  {
    Pow2Add8(c);
    var x := t * Pow2(c);
    assert t * Pow2(8 + c) == 0x100 * x;
    ScaledMod(x);
  }

  /**
   * As written, the key of a message with a non-zero code has a zero low
   * byte, so it never equals the key the table is laid out for, and the
   * table entries with a non-zero code (such as 0x0301) are never reached.
   */
  lemma {:induction false} KeyAsWrittenDropsCode(f: Fragment)
    requires 2 <= f.len && 0 < Code(f) < 24
    ensures KeyAsWritten(f) % 0x100 == 0
    ensures KeyAsWritten(f) != Key(f)
  {
    ShiftedKeyLowByte(Type(f) as nat, Code(f) as nat);
  }

  /**
   * A host unreachable message (type 3, code 1) gets the key 3 << 9 =
   * 0x0600 as written, and with it the text of an alternate host
   * address message (type 6).
   */
  lemma {:induction false} HostUnreachableMisdescribed(f: Fragment)
    requires 2 <= f.len && Type(f) == 3 && Code(f) == 1
    ensures KeyAsWritten(f) == 0x0600
    ensures DescriptionAsWritten(f) == "alternate address for host"
    ensures Description(f) == "host unreachable"
  {
    HostUnreachableShift();
    assert Key(f) == 0x0301;
  }

  /** An ICMP message: type, code, checksum, the four type-dependent bytes, then the body. */
  function Encode(kind: byte, code: byte, checksum: nat, rest: seq<byte>, body: seq<byte>): seq<byte>
    requires checksum < 0x1_0000 && |rest| == 4
  {
    [kind, code] + Word16Bytes(checksum) + rest + body
  }

  /** An echo request or reply reads back its identifier and sequence number. */
  lemma {:induction false} DecodeEcho(kind: byte, checksum: nat, id: nat, sequence: nat, data: seq<byte>)
    requires kind == 0 || kind == 8
    requires checksum < 0x1_0000 && id < 0x1_0000 && sequence < 0x1_0000
    ensures var f := Whole(Encode(kind, 0, checksum, Word16Bytes(id) + Word16Bytes(sequence), data));
            && Type(f) == kind && Code(f) == 0 && Checksum(f) == checksum && HeaderLength(f) == 8
            && Identifier(f) == Ok(id) && SequenceNumber(f) == Ok(sequence)
            && NextHopMtu(f).Err?
  {
    var rest := Word16Bytes(id) + Word16Bytes(sequence);
    var s := Encode(kind, 0, checksum, rest, data);
    var f := Whole(s);
    var c := Word16Bytes(checksum);
    assert f.At(0) == kind && f.At(1) == 0 && f.At(2) == c[0] && f.At(3) == c[1];
    assert f.At(4) == rest[0] && f.At(5) == rest[1] && f.At(6) == rest[2] && f.At(7) == rest[3];
    Char2WordInjective(f.At(4), f.At(5), rest[0], rest[1]);
  }

  /** A timestamp reply reads back its three timestamps. */
  lemma {:induction false} DecodeTimestampReply(rest: seq<byte>, originate: nat, receive: nat, transmit: nat)
    requires |rest| == 4 && originate < 0x1_0000_0000 && receive < 0x1_0000_0000 && transmit < 0x1_0000_0000
    ensures var f := Whole(Encode(14, 0, 0, rest, Word32Bytes(originate) + Word32Bytes(receive) + Word32Bytes(transmit)));
            && OriginateTimestamp(f) == Ok(originate)
            && ReceiveTimestamp(f) == Ok(receive)
            && TransmitTimestamp(f) == Ok(transmit)
            && AddressMask(f).Err? && GatewayAddress(f).Err?
  {
    var body := Word32Bytes(originate) + Word32Bytes(receive) + Word32Bytes(transmit);
    var s := Encode(14, 0, 0, rest, body);
    var f := Whole(s);
    var o, r, t := Word32Bytes(originate), Word32Bytes(receive), Word32Bytes(transmit);
    assert s[8..12] == o && s[12..16] == r && s[16..20] == t;
    assert f.At(0) == 14 && f.At(1) == 0;
    assert f.At(8) == o[0] && f.At(9) == o[1] && f.At(10) == o[2] && f.At(11) == o[3];
    assert f.At(12) == r[0] && f.At(13) == r[1] && f.At(14) == r[2] && f.At(15) == r[3];
    assert f.At(16) == t[0] && f.At(17) == t[1] && f.At(18) == t[2] && f.At(19) == t[3];
  }
}
