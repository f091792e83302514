/** MacAddress (macaddress.cpp): a six-byte view naming an Ethernet interface. */
module MacAddress {
  import opened Octets
  import ByteOrder
  import Dotted

  /** MAC_LEN. */
  const MAC_LEN: nat := 6

  /** MacAddress(false, s): the six bytes at position k of f, borrowed. */
  function Make(f: Fragment, k: nat): (a: Fragment)
    requires k + MAC_LEN <= f.len
    ensures a.len == MAC_LEN && HeaderLength(a) == MAC_LEN
    ensures a.Bytes() == f.Bytes()[k..k + MAC_LEN]
    ensures a.ptr == Into(f.ptr.block, f.ptr.at + k)
  {
    Sub(f, k, MAC_LEN)
  }

  /** header_length(). */
  function HeaderLength(a: Fragment): nat {
    MAC_LEN
  }

  /** The loop of valid() from byte i on: it stops with false at the first 0x00 or 0xFF byte. */
  function ValidFrom(s: seq<byte>, i: nat): bool
    requires i <= |s|
    decreases |s| - i
  {
    if i == |s| then true
    else if s[i] == 0x00 || s[i] == 0xFF then false
    else ValidFrom(s, i + 1)
  }

  lemma {:induction false} ValidFromMeaning(s: seq<byte>, i: nat)
    requires i <= |s|
    ensures ValidFrom(s, i) <==> forall k :: i <= k < |s| ==> s[k] != 0x00 && s[k] != 0xFF
    decreases |s| - i
  {
    if i < |s| {
      ValidFromMeaning(s, i + 1);
    }
  }

  /** valid() on the bytes of an address. */
  function ValidBytes(s: seq<byte>): (r: bool)
    ensures r <==> forall k :: 0 <= k < |s| ==> s[k] != 0x00 && s[k] != 0xFF
  {
    ValidFromMeaning(s, 0);
    ValidFrom(s, 0)
  }

  /** valid(): false exactly when some byte is 0x00 or 0xFF. */
  function Valid(a: Fragment): (r: bool)
    ensures !r <==> exists k :: 0 <= k < a.len && (a.At(k) == 0x00 || a.At(k) == 0xFF)
  {
    assert forall k :: 0 <= k < a.len ==> a.At(k) == a.Bytes()[k];
    ValidBytes(a.Bytes())
  }

  /** operator==. */
  function Equal(a: Fragment, b: Fragment): (r: bool)
    ensures r <==> a.len == b.len && a.Bytes() == b.Bytes()
  {
    ByteOrder.Same(a.Bytes(), b.Bytes())
  }

  /** operator<. */
  function Less(a: Fragment, b: Fragment): (r: bool)
    ensures r <==> ByteOrder.Lex(a.Bytes(), b.Bytes())
  {
    ByteOrder.Less(a.Bytes(), b.Bytes())
  }

  const HEX_DIGITS := "0123456789abcdef"

  /** A lower-case hexadecimal digit. */
  function HexDigit(d: nat): (c: char)
    requires d < 16
    ensures c in HEX_DIGITS
  {
    if d < 10 then (48 + d) as char else (87 + d) as char
  }

  /** The value of a hexadecimal digit; 0 for any other character. */
  function HexValue(c: char): (d: nat)
    ensures d < 16
  {
    if '0' <= c <= '9' then c as nat - 48
    else if 'a' <= c <= 'f' then c as nat - 87
    else 0
  }

  /** "%.2x": two lower-case hexadecimal digits. */
  function Hex2(b: byte): (r: string)
    ensures |r| == 2
    ensures r[0] in HEX_DIGITS && r[1] in HEX_DIGITS
    ensures HexValue(r[0]) * 16 + HexValue(r[1]) == b as nat
  {
    [HexDigit(b as nat / 16), HexDigit(b as nat % 16)]
  }

  /** The printer: each byte as two hexadecimal digits, separated by '.'. */
  function Render(a: Fragment): (r: string)
    ensures |r| == 0 <==> a.len == 0
    ensures forall k :: 0 <= k < |r| ==> r[k] == '.' || r[k] in HEX_DIGITS
  {
    Hex2Separable();
    Dotted.JoinEmpty(a.Bytes(), Hex2);
    Dotted.JoinAlphabet(a.Bytes(), Hex2, c => c in HEX_DIGITS);
    Dotted.Join(a.Bytes(), Hex2)
  }

  lemma Hex2Separable()
    ensures Dotted.Separable(Hex2)
  {
    forall x: byte, k | 0 <= k < |Hex2(x)|
      ensures Hex2(x)[k] != '.'
    {
      assert Hex2(x)[k] in "0123456789abcdef";
    }
  }

  /** A six-byte address prints as xx.xx.xx.xx.xx.xx, byte i at positions 3i and 3i+1. */
  lemma {:induction false} RenderLayout(a: Fragment)
    requires a.len == MAC_LEN
    ensures |Render(a)| == 17
    ensures forall i :: 0 <= i < 5 ==> Render(a)[3 * i .. 3 * i + 3] == Hex2(a.At(i)) + "."
    ensures Render(a)[15..] == Hex2(a.At(5))
  {
    Dotted.JoinPairs(a.Bytes(), Hex2);
  }

  /** The printed form determines the address. */
  lemma {:induction false} RenderInjective(a: Fragment, b: Fragment)
    requires Render(a) == Render(b)
    ensures Equal(a, b)
  {
    Hex2Separable();
    Dotted.JoinInjective(a.Bytes(), b.Bytes(), Hex2);
  }
}
