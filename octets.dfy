/**
 * Bytes, big-endian words and byte views: the pure part of
 * DatagramFragment (char2word, char4word, length(), data()).
 *
 * A byte is an integer in 0..255. A shift right by k of a byte is written
 * as division by 2^k and a mask of the k low bits as the remainder modulo
 * 2^k; module BitOps proves that each form used equals the C operator.
 */
module Octets {
  import opened Outcome

  newtype byte = x: int | 0 <= x < 256

  /** char2word: the big-endian value of two bytes. */
  function Char2Word(hi: byte, lo: byte): (w: nat)
    ensures w < 0x1_0000
    ensures w / 0x100 == hi as nat && w % 0x100 == lo as nat
  {
    hi as nat * 0x100 + lo as nat
  }

  /** char4word: the big-endian value of four bytes, folded one byte at a time. */
  function Char4Word(p0: byte, p1: byte, p2: byte, p3: byte): (w: nat)
    ensures w < 0x1_0000_0000
    ensures w / 0x100_0000 == p0 as nat
    ensures w / 0x1_0000 % 0x100 == p1 as nat
    ensures w / 0x100 % 0x100 == p2 as nat
    ensures w % 0x100 == p3 as nat
  {
    var r0 := p0 as nat;
    var r1 := r0 * 0x100 + p1 as nat;
    var r2 := r1 * 0x100 + p2 as nat;
    var r3 := r2 * 0x100 + p3 as nat;
    assert r3 == r0 * 0x100_0000 + (p1 as nat * 0x1_0000 + p2 as nat * 0x100 + p3 as nat);
    assert r3 / 0x1_0000 == r0 * 0x100 + p1 as nat;
    assert r3 / 0x100 == r1 * 0x100 + p2 as nat;
    r3
  }

  /** The two bytes whose char2word is w. */
  function Word16Bytes(w: nat): (s: seq<byte>)
    requires w < 0x1_0000
    ensures |s| == 2 && Char2Word(s[0], s[1]) == w
  {
    [(w / 0x100) as byte, (w % 0x100) as byte]
  }

  /** The four bytes whose char4word is w. */
  function Word32Bytes(w: nat): (s: seq<byte>)
    requires w < 0x1_0000_0000
    ensures |s| == 4 && Char4Word(s[0], s[1], s[2], s[3]) == w
  {
    Word32Split(w);
    [(w / 0x100_0000) as byte, (w / 0x1_0000 % 0x100) as byte,
     (w / 0x100 % 0x100) as byte, (w % 0x100) as byte]
  }

  lemma {:induction false} Word32Split(w: nat)
    requires w < 0x1_0000_0000
    ensures w / 0x100_0000 < 0x100
    ensures w == (w / 0x100_0000) * 0x100_0000 + (w / 0x1_0000 % 0x100) * 0x1_0000
                 + (w / 0x100 % 0x100) * 0x100 + w % 0x100
  {
    var a, b := w / 0x100, w % 0x100;
    var c, d := a / 0x100, a % 0x100;
    var e, g := c / 0x100, c % 0x100;
    assert w / 0x1_0000 == c;
    assert w / 0x100_0000 == e;
  }

  /** The bytes of a word determine it: char2word is injective. */
  lemma Char2WordInjective(a0: byte, a1: byte, b0: byte, b1: byte)
    requires Char2Word(a0, a1) == Char2Word(b0, b1)
    ensures a0 == b0 && a1 == b1
  {
  }

  /** char4word followed by the encoder gives back the four bytes. */
  lemma {:induction false} Char4WordRoundTrip(p0: byte, p1: byte, p2: byte, p3: byte)
    ensures Word32Bytes(Char4Word(p0, p1, p2, p3)) == [p0, p1, p2, p3]
  {
    var w := Char4Word(p0, p1, p2, p3);
    assert (w / 0x100_0000) as byte == p0;
  }

  /** char2word(p) & 0x0FFF: the low nibble of the first byte, then the second byte. */
  lemma {:induction false} Low12(hi: byte, lo: byte)
    ensures Char2Word(hi, lo) % 0x1000 == (hi as nat % 16) * 0x100 + lo as nat
  {
    var h := hi as nat;
    var r := (h % 16) * 0x100 + lo as nat;
    assert Char2Word(hi, lo) == (h / 16) * 0x1000 + r;
    SplitMod4096(h / 16, r);
  }

  /** (char2word(p) & 0x0FC0) >> 6: the low nibble of the first byte, then the top two bits of the second. */
  lemma {:induction false} Middle6(hi: byte, lo: byte)
    ensures Char2Word(hi, lo) % 0x1000 / 0x40 == (hi as nat % 16) * 4 + lo as nat / 0x40
  {
    Low12(hi, lo);
    var l := lo as nat;
    var q := (hi as nat % 16) * 4 + l / 0x40;
    assert (hi as nat % 16) * 0x100 + l == q * 0x40 + l % 0x40;
    SplitDiv64(q, l % 0x40);
  }

  lemma SplitMod4096(q: nat, r: nat)
    requires r < 0x1000
    ensures (q * 0x1000 + r) % 0x1000 == r
  {
  }

  lemma SplitDiv64(q: nat, r: nat)
    requires r < 0x40
    ensures (q * 0x40 + r) / 0x40 == q
  {
  }

  /** A pointer into a data block: NULL, or position at of the block. */
  datatype Ptr = Null | Into(block: seq<byte>, at: nat)

  /** The pair (p_data, p_len) of a DatagramFragment. */
  datatype View = View(ptr: Ptr, len: nat) {
    predicate Valid() {
      match ptr
      case Null => len == 0
      case Into(block, at) => at + len <= |block|
    }

    /** The len bytes the view covers. */
    function Bytes(): (s: seq<byte>)
      requires Valid()
      ensures |s| == len
    {
      match ptr
      case Null => []
      case Into(block, at) => block[at..at + len]
    }

    /** p_data[k]. */
    function At(k: nat): (b: byte)
      requires Valid() && k < len
      ensures b == Bytes()[k]
    {
      ptr.block[ptr.at + k]
    }
  }

  type Fragment = v: View | v.Valid() witness View(Null, 0)

  /** A view over a whole block, as the Datagram that holds it passes it on. */
  function Whole(s: seq<byte>): (f: Fragment)
    ensures f.len == |s| && f.Bytes() == s
  {
    View(Into(s, 0), |s|)
  }

  /** char2word(p_data + k). */
  function Be16(f: Fragment, k: nat): (w: nat)
    requires k + 2 <= f.len
    ensures w < 0x1_0000
  {
    Char2Word(f.At(k), f.At(k + 1))
  }

  /** char4word(p_data + k). */
  function Be32(f: Fragment, k: nat): (w: nat)
    requires k + 4 <= f.len
    ensures w < 0x1_0000_0000
  {
    Char4Word(f.At(k), f.At(k + 1), f.At(k + 2), f.At(k + 3))
  }

  /** A word the encoder wrote at position k of a block reads back. */
  lemma ReadBack16(s: seq<byte>, k: nat, w: nat)
    requires w < 0x1_0000 && k + 2 <= |s| && s[k..k + 2] == Word16Bytes(w)
    ensures Be16(Whole(s), k) == w
  {
    assert s[k] == s[k..k + 2][0] && s[k + 1] == s[k..k + 2][1];
  }

  lemma ReadBack32(s: seq<byte>, k: nat, w: nat)
    requires w < 0x1_0000_0000 && k + 4 <= |s| && s[k..k + 4] == Word32Bytes(w)
    ensures Be32(Whole(s), k) == w
  {
    var t := s[k..k + 4];
    assert s[k] == t[0] && s[k + 1] == t[1] && s[k + 2] == t[2] && s[k + 3] == t[3];
  }

  /** A borrowed view of the n bytes at position k, sharing the data block. */
  function Sub(f: Fragment, k: nat, n: nat): (v: Fragment)
    requires 0 < n && k + n <= f.len
    ensures v.len == n && v.Bytes() == f.Bytes()[k..k + n]
    ensures v.ptr == Into(f.ptr.block, f.ptr.at + k)
  {
    var v := View(Into(f.ptr.block, f.ptr.at + k), n);
    assert forall i :: 0 <= i < n ==> v.Bytes()[i] == f.Bytes()[k + i];
    v
  }

  /**
   * data(): the position just past a header of hl bytes, or NULL when no
   * byte follows the header.
   */
  function Data(f: Fragment, hl: nat): (p: Ptr)
    ensures p.Into? <==> hl < f.len
    ensures p.Into? ==> p.block == f.ptr.block && p.at == f.ptr.at + hl
  {
    if hl < f.len then Into(f.ptr.block, f.ptr.at + hl) else Null
  }

  /**
   * The view an upper layer is built on: Next(false, data(),
   * length() - header_length()). The subtraction cannot underflow here:
   * a header longer than the view is Truncated.
   */
  function Payload(f: Fragment, hl: nat): (r: Result<Fragment>)
    ensures r.Ok? <==> hl <= f.len
    ensures r.Err? ==> r.failure == Truncated
    ensures r.Ok? ==> r.value.len == f.len - hl && r.value.Bytes() == f.Bytes()[hl..]
    ensures r.Ok? && hl < f.len ==> r.value.ptr == Into(f.ptr.block, f.ptr.at + hl)
    ensures r.Ok? && hl == f.len ==> r.value.ptr == Null
  {
    if hl <= f.len then Ok(View(Data(f, hl), f.len - hl)) else Err(Truncated)
  }
}
