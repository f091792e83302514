/**
 * UDPSegment (udpsegment.cpp): the header of RFC 768 and the TFTP
 * datagram it carries.
 */
module UdpSegment {
  import opened Outcome
  import opened Octets
  import TcpSegment

  /** header_length(): always 8. */
  const HEADER_LENGTH: nat := 8

  function SourcePort(f: Fragment): (p: nat)
    requires 2 <= f.len
    ensures p < 0x1_0000 && p == Char2Word(f.At(0), f.At(1))
  {
    Be16(f, 0)
  }

  function DestinationPort(f: Fragment): (p: nat)
    requires 4 <= f.len
    ensures p < 0x1_0000 && p == Char2Word(f.At(2), f.At(3))
  {
    Be16(f, 2)
  }

  /** len(): the length field, bytes 4 and 5. */
  function Length(f: Fragment): (n: nat)
    requires 6 <= f.len
    ensures n < 0x1_0000 && n == Char2Word(f.At(4), f.At(5))
  {
    Be16(f, 4)
  }

  function Checksum(f: Fragment): (n: nat)
    requires 8 <= f.len
    ensures n < 0x1_0000 && n == Char2Word(f.At(6), f.At(7))
  {
    Be16(f, 6)
  }

  /**
   * tftp(): a borrowed view of the bytes after the 8-byte header. It
   * cannot fail on a segment holding its header; a shorter view would make
   * length() - header_length() wrap around, and is Truncated here.
   */
  function Tftp(f: Fragment): (r: Result<Fragment>)
    ensures r.Ok? <==> HEADER_LENGTH <= f.len
    ensures r.Err? ==> r.failure == Truncated
    ensures r.Ok? ==> r.value.len == f.len - 8 && r.value.Bytes() == f.Bytes()[8..]
    ensures r.Ok? && 8 < f.len ==> r.value.ptr == Into(f.ptr.block, f.ptr.at + 8)
    ensures r.Ok? && 8 == f.len ==> r.value.ptr == Null
  {
    Payload(f, HEADER_LENGTH)
  }

  /** The switch of port_name(), which lists the same ports as the TCP one. */
  const SERVICES: map<nat, string> := map[
    20 := "FTP", 21 := "FTP", 22 := "SSH", 23 := "telnet", 25 := "SMTP", 53 := "DNS",
    67 := "DHCP", 68 := "DHCP", 69 := "TFTP", 80 := "HTTP", 110 := "POP3",
    137 := "NetBIOS", 150 := "NetBIOS", 389 := "LDAP", 546 := "DHCP", 547 := "DHCP"
  ]

  /** port_name(): the service of a listed port; otherwise "unknown" below 1024 and "ephemeral" from 1024. */
  function PortName(port: nat): (s: string)
    ensures port in SERVICES ==> s == SERVICES[port]
    ensures s == "unknown" <==> port !in SERVICES && port < 1024
    ensures s == "ephemeral" <==> port !in SERVICES && 1024 <= port
  {
    if port in SERVICES then SERVICES[port]
    else if port < 1024 then "unknown"
    else "ephemeral"
  }

  /** The UDP and TCP port names agree on every port. */
  lemma PortNamesAgree(port: nat)
    ensures PortName(port) == TcpSegment.PortName(port)
  {
    assert SERVICES == TcpSegment.SERVICES;
  }

  /** A header followed by its payload. */
  function Encode(source: nat, destination: nat, length: nat, checksum: nat, payload: seq<byte>): (s: seq<byte>)
    requires source < 0x1_0000 && destination < 0x1_0000 && length < 0x1_0000 && checksum < 0x1_0000
    ensures |s| == 8 + |payload|
  {
    Word16Bytes(source) + Word16Bytes(destination) + Word16Bytes(length) + Word16Bytes(checksum) + payload
  }

  /** Every field reads back, and tftp() gives back the payload. */
  lemma {:induction false} DecodeEncoded(source: nat, destination: nat, length: nat, checksum: nat, payload: seq<byte>)
    requires source < 0x1_0000 && destination < 0x1_0000 && length < 0x1_0000 && checksum < 0x1_0000
    ensures var f := Whole(Encode(source, destination, length, checksum, payload));
            && SourcePort(f) == source && DestinationPort(f) == destination
            && Length(f) == length && Checksum(f) == checksum
            && Tftp(f).Ok? && Tftp(f).value.Bytes() == payload
  {
    var e := Encode(source, destination, length, checksum, payload);
    var f := Whole(e);
    var p, q, l, c := Word16Bytes(source), Word16Bytes(destination), Word16Bytes(length), Word16Bytes(checksum);
    assert e[0..2] == p && e[2..4] == q && e[4..6] == l && e[6..8] == c && e[8..] == payload;
    assert forall k :: 0 <= k < 8 ==> f.At(k) == e[k];
  }
}
