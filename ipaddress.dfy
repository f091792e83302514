/** IPAddress (ipaddress.cpp): a four-byte view holding an IPv4 address. */
module IpAddress {
  import opened Octets
  import ByteOrder
  import Dotted
  import MacAddress

  /** IPADR_LEN. */
  const IPADR_LEN: nat := 4

  /** IPAddress(false, s): the four bytes at position k of f, borrowed. */
  function Make(f: Fragment, k: nat): (a: Fragment)
    requires k + IPADR_LEN <= f.len
    ensures a.len == IPADR_LEN && HeaderLength(a) == IPADR_LEN
    ensures a.Bytes() == f.Bytes()[k..k + IPADR_LEN]
    ensures a.ptr == Into(f.ptr.block, f.ptr.at + k)
  {
    Sub(f, k, IPADR_LEN)
  }

  /** header_length(). */
  function HeaderLength(a: Fragment): nat {
    IPADR_LEN
  }

  /** The loop of valid() from byte i on: it stops with true at the first byte other than 0x00 and 0xFF. */
  function ValidFrom(s: seq<byte>, i: nat): bool
    requires i <= |s|
    decreases |s| - i
  {
    if i == |s| then false
    else if s[i] != 0x00 && s[i] != 0xFF then true
    else ValidFrom(s, i + 1)
  }

  lemma {:induction false} ValidFromMeaning(s: seq<byte>, i: nat)
    requires i <= |s|
    ensures ValidFrom(s, i) <==> exists k :: i <= k < |s| && s[k] != 0x00 && s[k] != 0xFF
    decreases |s| - i
  {
    if i < |s| {
      ValidFromMeaning(s, i + 1);
    }
  }

  /** valid() on the bytes of an address. */
  function ValidBytes(s: seq<byte>): (r: bool)
    ensures r <==> exists k :: 0 <= k < |s| && s[k] != 0x00 && s[k] != 0xFF
  {
    ValidFromMeaning(s, 0);
    ValidFrom(s, 0)
  }

  /**
   * valid(): true exactly when some byte is neither 0x00 nor 0xFF, so an
   * address made only of 0x00 and 0xFF bytes (the all-zero and the
   * broadcast address among them) is not valid.
   */
  function Valid(a: Fragment): (r: bool)
    ensures r <==> exists k :: 0 <= k < a.len && a.At(k) != 0x00 && a.At(k) != 0xFF
  {
    assert forall k :: 0 <= k < a.len ==> a.At(k) == a.Bytes()[k];
    ValidBytes(a.Bytes())
  }

  /**
   * The two valid() tests differ: on bytes where the MAC test holds the
   * IP test holds too, but 10.0.0.1 passes the IP test and fails the MAC
   * test, which rejects any single 0x00 or 0xFF byte.
   */
  lemma {:induction false} ValidityAsymmetry(s: seq<byte>)
    requires |s| > 0
    ensures MacAddress.ValidBytes(s) ==> ValidBytes(s)
    ensures ValidBytes([10, 0, 0, 1]) && !MacAddress.ValidBytes([10, 0, 0, 1])
  {
    assert [10, 0, 0, 1][0] == 10 as byte;
    assert [10, 0, 0, 1][1] == 0 as byte;
    if MacAddress.ValidBytes(s) {
      assert s[0] != 0x00 && s[0] != 0xFF;
    }
  }

  /** operator==. */
  function Equal(a: Fragment, b: Fragment): (r: bool)
    ensures r <==> a.len == b.len && a.Bytes() == b.Bytes()
  {
    ByteOrder.Same(a.Bytes(), b.Bytes())
  }

  /** operator<, the order of the set of requested addresses in the ARP-spoof tracker. */
  function Less(a: Fragment, b: Fragment): (r: bool)
    ensures r <==> ByteOrder.Lex(a.Bytes(), b.Bytes())
  {
    ByteOrder.Less(a.Bytes(), b.Bytes())
  }

  /** A decimal digit. */
  function DecDigit(d: nat): (c: char)
    requires d < 10
    ensures '0' <= c <= '9'
  {
    (48 + d) as char
  }

  /** The value of a string of decimal digits, most significant first. */
  function DecimalValue(r: string): nat
    decreases |r|
  {
    if |r| == 0 then 0
    else DecimalValue(r[..|r| - 1]) * 10 + (if '0' <= r[|r| - 1] <= '9' then r[|r| - 1] as nat - 48 else 0)
  }

  /** "%d" of a byte: one to three digits, without a leading zero. */
  function Decimal(b: byte): (r: string)
    ensures 1 <= |r| <= 3
    ensures forall k :: 0 <= k < |r| ==> '0' <= r[k] <= '9'
    ensures |r| > 1 ==> r[0] != '0'
    ensures DecimalValue(r) == b as nat
  {
    var n := b as nat;
    if n < 10 then
      assert DecimalValue([DecDigit(n)]) == DecimalValue([]) * 10 + n;
      [DecDigit(n)]
    else if n < 100 then
      var r := [DecDigit(n / 10), DecDigit(n % 10)];
      assert r[..1] == [DecDigit(n / 10)];
      assert DecimalValue(r[..1]) == n / 10;
      r
    else
      var r := [DecDigit(n / 100), DecDigit(n / 10 % 10), DecDigit(n % 10)];
      assert r[..2][..1] == [DecDigit(n / 100)];
      assert r[..2] == [DecDigit(n / 100), DecDigit(n / 10 % 10)];
      assert DecimalValue(r[..2][..1]) == n / 100;
      assert DecimalValue(r[..2]) == n / 10;
      r
  }

  /** The printer: the bytes in decimal, separated by '.'. */
  function Render(a: Fragment): (r: string)
    ensures |r| == 0 <==> a.len == 0
    ensures forall k :: 0 <= k < |r| ==> r[k] == '.' || '0' <= r[k] <= '9'
  {
    DecimalSeparable();
    Dotted.JoinEmpty(a.Bytes(), Decimal);
    Dotted.JoinAlphabet(a.Bytes(), Decimal, c => '0' <= c <= '9');
    Dotted.Join(a.Bytes(), Decimal)
  }

  lemma DecimalSeparable()
    ensures Dotted.Separable(Decimal)
  {
    forall x: byte, y: byte | Decimal(x) == Decimal(y)
      ensures x == y
    {
      assert DecimalValue(Decimal(x)) == DecimalValue(Decimal(y));
    }
  }

  /** The printed form determines the address. */
  lemma {:induction false} RenderInjective(a: Fragment, b: Fragment)
    requires Render(a) == Render(b)
    ensures Equal(a, b)
  {
    DecimalSeparable();
    Dotted.JoinInjective(a.Bytes(), b.Bytes(), Decimal);
  }

  /** 192.168.0.1 prints as "192.168.0.1". */
  lemma RenderExample()
    ensures Dotted.Join([192, 168, 0, 1], Decimal) == "192.168.0.1"
  {
    var s: seq<byte> := [192, 168, 0, 1];
    assert s[1..][1..][1..] == [1];
    assert s[1..][1..] == [0, 1];
    assert s[1..] == [168, 0, 1];
  }
}
