/**
 * TCPSegment (tcpsegment.cpp): the header of section 3.1 of RFC 793, with
 * the NS flag of RFC 3540 and the CWR and ECE flags of RFC 3168. No
 * accessor checks for a block, so each one asks for the bytes it reads.
 */
module TcpSegment {
  import opened Octets

  /** offset(): the high nibble of byte 12, the header length in 32-bit words. */
  function Offset(f: Fragment): (n: nat)
    requires 13 <= f.len
    ensures n < 16 && n * 16 <= f.At(12) as nat < n * 16 + 16
  {
    f.At(12) as nat / 16
  }

  /** header_length(): offset() four-byte words, options included. */
  function HeaderLength(f: Fragment): (n: nat)
    requires 13 <= f.len
    ensures n <= 60 && n % 4 == 0 && n / 4 == Offset(f)
  {
    Offset(f) * 4
  }

  function SourcePort(f: Fragment): (p: nat)
    requires 2 <= f.len
    ensures p < 0x1_0000 && p == Char2Word(f.At(0), f.At(1))
  {
    Be16(f, 0)
  }

  function DestinationPort(f: Fragment): (p: nat)
    requires 4 <= f.len
    ensures p < 0x1_0000 && p == Char2Word(f.At(2), f.At(3))
  {
    Be16(f, 2)
  }

  /** sequence_nb(): bytes 4 to 7. */
  function SequenceNumber(f: Fragment): (n: nat)
    requires 8 <= f.len
    ensures n == Char4Word(f.At(4), f.At(5), f.At(6), f.At(7))
  {
    Be32(f, 4)
  }

  /** ack_nb(): bytes 8 to 11. */
  function AckNumber(f: Fragment): (n: nat)
    requires 12 <= f.len
    ensures n == Char4Word(f.At(8), f.At(9), f.At(10), f.At(11))
  {
    Be32(f, 8)
  }

  /**
   * reserved(): (char2word(p_data + 12) & 0x0FC0) >> 6, the six bits after
   * the data offset: the low nibble of byte 12 and the top two bits of
   * byte 13.
   */
  function Reserved(f: Fragment): (n: nat)
    requires 14 <= f.len
    ensures n < 64
    ensures n == (f.At(12) as nat % 16) * 4 + f.At(13) as nat / 0x40
  {
    Middle6(f.At(12), f.At(13));
    Be16(f, 12) % 0x1000 / 0x40
  }

  /**
   * The flag accessors: NS is bit 0 of byte 12, CWR down to FIN are bits 7
   * to 0 of byte 13. Each is stated as the C test of its mask on the byte.
   */
  predicate FlagNs(f: Fragment)
    requires 13 <= f.len
    ensures FlagNs(f) <==> (f.At(12) as bv8) & 0x01 != 0
  {
    f.At(12) % 2 == 1
  }

  predicate FlagCwr(f: Fragment)
    requires 14 <= f.len
    ensures FlagCwr(f) <==> (f.At(13) as bv8) & 0x80 != 0
  {
    f.At(13) / 0x80 % 2 == 1
  }

  predicate FlagEce(f: Fragment)
    requires 14 <= f.len
    ensures FlagEce(f) <==> (f.At(13) as bv8) & 0x40 != 0
  {
    f.At(13) / 0x40 % 2 == 1
  }

  predicate FlagUrg(f: Fragment)
    requires 14 <= f.len
    ensures FlagUrg(f) <==> (f.At(13) as bv8) & 0x20 != 0
  {
    f.At(13) / 0x20 % 2 == 1
  }

  predicate FlagAck(f: Fragment)
    requires 14 <= f.len
    ensures FlagAck(f) <==> (f.At(13) as bv8) & 0x10 != 0
  {
    f.At(13) / 0x10 % 2 == 1
  }

  predicate FlagPsh(f: Fragment)
    requires 14 <= f.len
    ensures FlagPsh(f) <==> (f.At(13) as bv8) & 0x08 != 0
  {
    f.At(13) / 0x08 % 2 == 1
  }

  predicate FlagRst(f: Fragment)
    requires 14 <= f.len
    ensures FlagRst(f) <==> (f.At(13) as bv8) & 0x04 != 0
  {
    f.At(13) / 0x04 % 2 == 1
  }

  predicate FlagSyn(f: Fragment)
    requires 14 <= f.len
    ensures FlagSyn(f) <==> (f.At(13) as bv8) & 0x02 != 0
  {
    f.At(13) / 0x02 % 2 == 1
  }

  predicate FlagFin(f: Fragment)
    requires 14 <= f.len
    ensures FlagFin(f) <==> (f.At(13) as bv8) & 0x01 != 0
  {
    f.At(13) % 2 == 1
  }

  function Bit(b: bool): nat { if b then 1 else 0 }

  /** The eight flags of byte 13 are its bits: together they give the byte back. */
  lemma {:induction false} FlagsByte(f: Fragment)
    requires 14 <= f.len
    ensures f.At(13) as nat ==
              0x80 * Bit(FlagCwr(f)) + 0x40 * Bit(FlagEce(f)) + 0x20 * Bit(FlagUrg(f))
              + 0x10 * Bit(FlagAck(f)) + 0x08 * Bit(FlagPsh(f)) + 0x04 * Bit(FlagRst(f))
              + 0x02 * Bit(FlagSyn(f)) + Bit(FlagFin(f))
  {
    ByteAsFlagBits(f.At(13));
  }

  /** A byte is the sum of its bits, each tested as the flag accessors test it. */
  lemma {:induction false} ByteAsFlagBits(b: byte)
    ensures b as nat ==
              0x80 * Bit(b / 0x80 % 2 == 1) + 0x40 * Bit(b / 0x40 % 2 == 1) + 0x20 * Bit(b / 0x20 % 2 == 1)
              + 0x10 * Bit(b / 0x10 % 2 == 1) + 0x08 * Bit(b / 0x08 % 2 == 1) + 0x04 * Bit(b / 0x04 % 2 == 1)
              + 0x02 * Bit(b / 0x02 % 2 == 1) + Bit(b % 2 == 1)
  {
    ByteAsBits(b);
    BitDigit(b / 0x80 % 2);
    BitDigit(b / 0x40 % 2);
    BitDigit(b / 0x20 % 2);
    BitDigit(b / 0x10 % 2);
    BitDigit(b / 0x08 % 2);
    BitDigit(b / 0x04 % 2);
    BitDigit(b / 0x02 % 2);
    BitDigit(b % 2);
  }

  lemma BitDigit(d: byte)
    requires d < 2
    ensures Bit(d == 1) == d as nat
  {
  }

  /** A byte is the sum of its bits, as the flag accessors read them. */
  lemma {:induction false} ByteAsBits(b: byte)
    ensures b as nat ==
              0x80 * (b / 0x80 % 2) as nat + 0x40 * (b / 0x40 % 2) as nat + 0x20 * (b / 0x20 % 2) as nat
              + 0x10 * (b / 0x10 % 2) as nat + 0x08 * (b / 0x08 % 2) as nat + 0x04 * (b / 0x04 % 2) as nat
              + 0x02 * (b / 0x02 % 2) as nat + (b % 2) as nat
  {
    var n := b as nat;
    BitsOf(n);
    assert (b / 0x80 % 2) as nat == n / 0x80 % 2 && (b / 0x40 % 2) as nat == n / 0x40 % 2;
    assert (b / 0x20 % 2) as nat == n / 0x20 % 2 && (b / 0x10 % 2) as nat == n / 0x10 % 2;
    assert (b / 0x08 % 2) as nat == n / 0x08 % 2 && (b / 0x04 % 2) as nat == n / 0x04 % 2;
    assert (b / 0x02 % 2) as nat == n / 0x02 % 2 && (b % 2) as nat == n % 2;
  }

  /** A byte is the sum of its eight bits. */
  lemma {:induction false} BitsOf(b: nat)
    requires b < 0x100
    ensures b == 0x80 * (b / 0x80 % 2) + 0x40 * (b / 0x40 % 2) + 0x20 * (b / 0x20 % 2) + 0x10 * (b / 0x10 % 2)
                 + 0x08 * (b / 0x08 % 2) + 0x04 * (b / 0x04 % 2) + 0x02 * (b / 0x02 % 2) + b % 2
  {
    Halving(b);
    var q1, q2, q3, q4 := b / 2, b / 4, b / 8, b / 16;
    var q5, q6, q7 := b / 32, b / 64, b / 128;
    assert b == 2 * q1 + b % 2;
    assert q1 == 2 * q2 + q1 % 2;
    assert q2 == 2 * q3 + q2 % 2;
    assert q3 == 2 * q4 + q3 % 2;
    assert q4 == 2 * q5 + q4 % 2;
    assert q5 == 2 * q6 + q5 % 2;
    assert q6 == 2 * q7 + q6 % 2;
    assert q7 == q7 % 2;
  }

  lemma Halving(b: nat)
    ensures b / 4 == b / 2 / 2 && b / 8 == b / 4 / 2 && b / 16 == b / 8 / 2
    ensures b / 32 == b / 16 / 2 && b / 64 == b / 32 / 2 && b / 128 == b / 64 / 2
  {
  }

  /** Byte 13 equal to 0x12, a SYN-ACK, sets exactly ACK and SYN among the eight flags. */
  lemma SynAck(f: Fragment)
    requires 14 <= f.len && f.At(13) == 0x12
    ensures FlagAck(f) && FlagSyn(f)
    ensures !FlagCwr(f) && !FlagEce(f) && !FlagUrg(f) && !FlagPsh(f) && !FlagRst(f) && !FlagFin(f)
  {
  }

  /**
   * The six bits reserved() returns are those RFC 793 reserves; RFC 3540
   * and RFC 3168 have since given three of them to NS, CWR and ECE, which
   * reserved() therefore includes.
   */
  lemma {:induction false} ReservedHoldsNewerFlags(f: Fragment)
    requires 14 <= f.len
    ensures Reserved(f) == (f.At(12) as nat % 16 / 2) * 8 + 4 * Bit(FlagNs(f)) + 2 * Bit(FlagCwr(f)) + Bit(FlagEce(f))
  {
    var h := f.At(12) as nat;
    var l := f.At(13) as nat;
    assert h % 16 == (h % 16 / 2) * 2 + h % 2;
    assert l / 0x40 == 2 * (l / 0x80) + l / 0x40 % 2;
  }

  function WindowSize(f: Fragment): (n: nat)
    requires 16 <= f.len
    ensures n == Char2Word(f.At(14), f.At(15))
  {
    Be16(f, 14)
  }

  function Checksum(f: Fragment): (n: nat)
    requires 18 <= f.len
    ensures n == Char2Word(f.At(16), f.At(17))
  {
    Be16(f, 16)
  }

  /** pointer_urg(): bytes 18 and 19. */
  function UrgentPointer(f: Fragment): (n: nat)
    requires 20 <= f.len
    ensures n == Char2Word(f.At(18), f.At(19))
  {
    Be16(f, 18)
  }

  /** The switch of port_name(): the well-known ports it names. */
  const SERVICES: map<nat, string> := map[
    20 := "FTP", 21 := "FTP", 22 := "SSH", 23 := "telnet", 25 := "SMTP", 53 := "DNS",
    67 := "DHCP", 68 := "DHCP", 69 := "TFTP", 80 := "HTTP", 110 := "POP3",
    137 := "NetBIOS", 150 := "NetBIOS", 389 := "LDAP", 546 := "DHCP", 547 := "DHCP"
  ]

  /** port_name(): the service of a listed port; otherwise "unknown" below 1024 and "ephemeral" from 1024. */
  function PortName(port: nat): (s: string)
    ensures port in SERVICES ==> s == SERVICES[port]
    ensures s == "unknown" <==> port !in SERVICES && port < 1024
    ensures s == "ephemeral" <==> port !in SERVICES && 1024 <= port
  {
    if port in SERVICES then SERVICES[port]
    else if port < 1024 then "unknown"
    else "ephemeral"
  }

  /** The fields of a header without options. */
  datatype Header = Header(source: nat, destination: nat, sequence: nat, ack: nat, offset: nat,
                           ns: bool, flags: byte, window: nat, checksum: nat, urgent: nat)

  ghost predicate WellFormed(h: Header)
  {
    && h.source < 0x1_0000 && h.destination < 0x1_0000 && h.window < 0x1_0000
    && h.checksum < 0x1_0000 && h.urgent < 0x1_0000
    && h.sequence < 0x1_0000_0000 && h.ack < 0x1_0000_0000 && h.offset < 16
  }

  /**
   * The 20 bytes of a header: byte 12 holds the data offset and the NS flag
   * (its three other nibble bits left zero), byte 13 the eight flags CWR to FIN.
   */
  function Encode(h: Header): (s: seq<byte>)
    requires WellFormed(h)
    ensures |s| == 20
  {
    Word16Bytes(h.source) + Word16Bytes(h.destination) + Word32Bytes(h.sequence) + Word32Bytes(h.ack)
      + [(h.offset * 16 + Bit(h.ns)) as byte, h.flags]
      + Word16Bytes(h.window) + Word16Bytes(h.checksum) + Word16Bytes(h.urgent)
  }

  /** The ports, the sequence and acknowledgment numbers, the window, checksum and urgent pointer read back. */
  lemma {:induction false} DecodeEncodedWords(h: Header, options: seq<byte>)
    requires WellFormed(h)
    ensures var f := Whole(Encode(h) + options);
            && SourcePort(f) == h.source && DestinationPort(f) == h.destination
            && SequenceNumber(f) == h.sequence && AckNumber(f) == h.ack
            && WindowSize(f) == h.window && Checksum(f) == h.checksum && UrgentPointer(f) == h.urgent
  {
    var s := Encode(h) + options;
    var p, q := Word16Bytes(h.source), Word16Bytes(h.destination);
    var n, a := Word32Bytes(h.sequence), Word32Bytes(h.ack);
    var w, c, u := Word16Bytes(h.window), Word16Bytes(h.checksum), Word16Bytes(h.urgent);
    assert s == p + q + n + a + [(h.offset * 16 + Bit(h.ns)) as byte, h.flags] + w + c + u + options;
    assert s[0..2] == p && s[2..4] == q && s[4..8] == n && s[8..12] == a by {
      assert s == p + q + n + a + s[12..];
    }
    assert s[14..16] == w && s[16..18] == c && s[18..20] == u by {
      assert s[14..] == w + c + u + options;
    }
    ReadBack16(s, 0, h.source);
    ReadBack16(s, 2, h.destination);
    ReadBack32(s, 4, h.sequence);
    ReadBack32(s, 8, h.ack);
    ReadBack16(s, 14, h.window);
    ReadBack16(s, 16, h.checksum);
    ReadBack16(s, 18, h.urgent);
  }

  /** The data offset, the header length, the NS flag and the flags byte read back. */
  lemma {:induction false} DecodeEncodedControl(h: Header, options: seq<byte>)
    requires WellFormed(h)
    ensures var f := Whole(Encode(h) + options);
            && Offset(f) == h.offset && HeaderLength(f) == 4 * h.offset
            && (FlagNs(f) <==> h.ns) && f.At(13) == h.flags
            && f.At(12) as nat % 16 == Bit(h.ns)
  {
    var e := Encode(h);
    var front := Word16Bytes(h.source) + Word16Bytes(h.destination) + Word32Bytes(h.sequence) + Word32Bytes(h.ack);
    assert |front| == 12;
    assert e[12] as nat == h.offset * 16 + Bit(h.ns) && e[13] == h.flags;
    var f := Whole(e + options);
    assert f.At(12) == e[12] && f.At(13) == e[13];
    OffsetByte(f.At(12), h.offset, h.ns);
  }

  /** Byte 12 of an encoded header: the offset nibble above the NS bit. */
  lemma OffsetByte(b: byte, offset: nat, ns: bool)
    requires offset < 16 && b as nat == offset * 16 + Bit(ns)
    ensures b as nat / 16 == offset && b as nat % 16 == Bit(ns) && (b % 2 == 1 <==> ns)
  {
  }

  /** The reserved bits of an encoded header: the NS flag, then the CWR and ECE flags. */
  lemma {:induction false} DecodeEncodedReserved(h: Header, options: seq<byte>)
    requires WellFormed(h)
    ensures Reserved(Whole(Encode(h) + options)) == 4 * Bit(h.ns) + h.flags as nat / 0x40
  {
    DecodeEncodedControl(h, options);
  }
}
