/**
 * The options of an IPv4 header (count_options() and option_header() of
 * ippacket.cpp), and the walk section 3.1 of RFC 791 describes.
 */
module IpOptions {
  import opened Outcome
  import opened Octets
  import IpPacket

  /** The class, number and length option_header() reports for one option. */
  datatype IpOption = IpOption(optClass: nat, number: nat, length: nat)

  /*
   * The walks read the bytes of the packet view, s = f.Bytes(), as the
   * source reads them through p_data.
   */

  /** The type byte at p is there, and so is the length byte it calls for. */
  predicate Readable(s: seq<byte>, p: nat) {
    p < |s| && (s[p] % 32 >= 2 ==> p + 1 < |s|)
  }

  /** The option whose type byte is at p: class (b & 0x60) >> 5, number b & 0x1F, length p[1] or 0. */
  function OptionAt(s: seq<byte>, p: nat): (o: IpOption)
    requires Readable(s, p)
    ensures o.optClass < 4 && o.number < 32 && o.length < 256
    ensures o.optClass * 32 + o.number == s[p] as nat % 128
    ensures o.number < 2 ==> o.length == 0
    ensures o.number >= 2 ==> o.length == s[p + 1] as nat
  {
    var b := s[p] as nat;
    ClassAndNumber(b);
    IpOption(b / 32 % 4, b % 32, if b % 32 < 2 then 0 else s[p + 1] as nat)
  }

  lemma ClassAndNumber(b: nat)
    ensures b / 32 % 4 * 32 + b % 32 == b % 128
  {
    var q := b / 128;
    var r := b % 128;
    assert b == q * 128 + r;
    assert b / 32 == q * 4 + r / 32;
  }

  /**
   * The advance of the source: one byte for options 0 and 1, otherwise the
   * length byte plus two. It always moves forward, by at most 257 bytes,
   * and for an option with a proper length octet it lands two bytes past
   * where RFC 791 puts the next option.
   */
  function Step(s: seq<byte>, p: nat): (q: nat)
    requires Readable(s, p)
    ensures p < q <= p + 257
    ensures s[p] % 32 >= 2 && s[p + 1] >= 2 ==> q == StepRfc791(s, p) + 2
  {
    if s[p] % 32 < 2 then p + 1 else p + s[p + 1] as nat + 2
  }

  /**
   * The options from position p of a header of hl bytes, as the loop of
   * count_options() visits them: it stops at the end of the header or at
   * a zero type byte. A byte it would read past the view is Truncated.
   */
  function Walk(s: seq<byte>, hl: nat, p: nat): (r: Result<seq<IpOption>>)
    ensures r.Err? ==> r.failure == Truncated
    decreases if p < hl then hl - p else 0
  {
    if hl <= p then Ok([])
    else if |s| <= p then Err(Truncated)
    else if s[p] == 0 then Ok([])
    else if !Readable(s, p) then Err(Truncated)
    else
      var rest :- Walk(s, hl, Step(s, p));
      Ok([OptionAt(s, p)] + rest)
  }

  /** The option list of a packet: none when the header is the plain 20 bytes. */
  function Options(f: Fragment): (r: Result<seq<IpOption>>)
    ensures r.Err? ==> r.failure == Truncated
  {
    if f.ptr.Into? && f.len == 0 then Err(Truncated)
    else if IpPacket.HeaderLength(f) == 20 then Ok([])
    else Walk(f.Bytes(), IpPacket.HeaderLength(f), 20)
  }

  /** Each option takes at least one byte, so a walk from p finds at most hl - p options. */
  lemma {:induction false} WalkBound(s: seq<byte>, hl: nat, p: nat)
    requires Walk(s, hl, p).Ok?
    ensures p <= hl ==> |Walk(s, hl, p).value| <= hl - p
    ensures hl <= p ==> Walk(s, hl, p).value == []
    decreases if p < hl then hl - p else 0
  {
    if p < hl && p < |s| && s[p] != 0 {
      WalkBound(s, hl, Step(s, p));
    }
  }

  /** count_options() counts at most header_length() - 20 options, and none when the IHL is 5 or less. */
  lemma {:induction false} OptionCountBound(f: Fragment)
    requires Options(f).Ok?
    ensures 20 <= IpPacket.HeaderLength(f) ==> |Options(f).value| <= IpPacket.HeaderLength(f) - 20
    ensures IpPacket.HeaderLength(f) <= 20 ==> Options(f).value == []
  {
    if IpPacket.HeaderLength(f) != 20 {
      WalkBound(f.Bytes(), IpPacket.HeaderLength(f), 20);
    }
  }

  /** count_options(). */
  method CountOptions(f: Fragment) returns (r: Result<nat>)
    ensures r.Ok? <==> Options(f).Ok?
    ensures r.Ok? ==> r.value == |Options(f).value|
    ensures r.Err? ==> r.failure == Truncated
  {
    if f.ptr.Into? && f.len == 0 {
      return Err(Truncated);
    }
    var hl := IpPacket.HeaderLength(f);
    var cnt := 0;
    if hl == 20 {
      return Ok(cnt);
    }
    var s := f.Bytes();
    var p := 20;
    while p < hl
      invariant Walk(s, hl, 20).Ok? <==> Walk(s, hl, p).Ok?
      invariant Walk(s, hl, p).Ok? ==> |Walk(s, hl, 20).value| == cnt + |Walk(s, hl, p).value|
      decreases if p < hl then hl - p else 0
    {
      if |s| <= p {
        return Err(Truncated);
      }
      var b := s[p];
      if b == 0 {
        break;
      }
      var number := b % 32;
      if number < 2 {
        p := p + 1;
      } else {
        if |s| <= p + 1 {
          return Err(Truncated);
        }
        p := p + s[p + 1] as nat + 2;
      }
      cnt := cnt + 1;
    }
    return Ok(cnt);
  }

  /**
   * option_header(idx, class, number, len): false (None) unless idx is
   * below count_options(); otherwise the walk is replayed idx + 1 times
   * and the last option visited is reported.
   */
  method OptionHeader(f: Fragment, idx: nat) returns (r: Result<Option<IpOption>>)
    ensures Options(f).Err? ==> r == Err(Truncated)
    ensures Options(f).Ok? ==> r.Ok? && (r.value.Some? <==> idx < |Options(f).value|)
    ensures Options(f).Ok? && idx < |Options(f).value| ==> r.value == Some(Options(f).value[idx])
  {
    var count :- CountOptions(f);
    if idx >= count {
      return Ok(None);
    }
    var hl := IpPacket.HeaderLength(f);
    var s := f.Bytes();
    ghost var all := Options(f).value;
    assert Walk(s, hl, 20) == Ok(all[0..]);
    var p := 20;
    WalkAdvance(s, hl, p, all, 0);
    var opt := OptionAt(s, p);
    p := Step(s, p);
    var remaining := idx;
    ghost var j := 0;
    while remaining > 0
      invariant j + remaining == idx
      invariant opt == all[j]
      invariant Walk(s, hl, p) == Ok(all[j + 1..])
    {
      WalkAdvance(s, hl, p, all, j + 1);
      remaining := remaining - 1;
      j := j + 1;
      opt := OptionAt(s, p);
      p := Step(s, p);
    }
    return Ok(Some(opt));
  }

  /** A walk from p that is to find the options of all from k on finds all[k] at p. */
  lemma WalkAdvance(s: seq<byte>, hl: nat, p: nat, all: seq<IpOption>, k: nat)
    requires k < |all| && Walk(s, hl, p) == Ok(all[k..])
    ensures Readable(s, p) && OptionAt(s, p) == all[k]
    ensures Walk(s, hl, Step(s, p)) == Ok(all[k + 1..])
  {
    assert all[k..][1..] == all[k + 1..];
  }

  /* Options as section 3.1 of RFC 791 lays them out. */

  /**
   * The advance section 3.1 of RFC 791 calls for: the length octet counts
   * the type octet, itself and the data, so the next option starts that
   * many bytes on. A length below 2 is taken as 2 so the walk moves on.
   */
  function StepRfc791(s: seq<byte>, p: nat): (q: nat)
    requires Readable(s, p)
    ensures p < q
  {
    if s[p] % 32 < 2 then p + 1
    else if s[p + 1] < 2 then p + 2
    else p + s[p + 1] as nat
  }

  /** The walk of Walk with the advance of RFC 791. */
  function WalkRfc791(s: seq<byte>, hl: nat, p: nat): (r: Result<seq<IpOption>>)
    ensures r.Err? ==> r.failure == Truncated
    decreases if p < hl then hl - p else 0
  {
    if hl <= p then Ok([])
    else if |s| <= p then Err(Truncated)
    else if s[p] == 0 then Ok([])
    else if !Readable(s, p) then Err(Truncated)
    else
      var rest :- WalkRfc791(s, hl, StepRfc791(s, p));
      Ok([OptionAt(s, p)] + rest)
  }

  /** The option list of a packet, with the advance of RFC 791. */
  function OptionsRfc791(f: Fragment): (r: Result<seq<IpOption>>)
    ensures r.Err? ==> r.failure == Truncated
  {
    if f.ptr.Into? && f.len == 0 then Err(Truncated)
    else if IpPacket.HeaderLength(f) == 20 then Ok([])
    else WalkRfc791(f.Bytes(), IpPacket.HeaderLength(f), 20)
  }

  /** An option as it is sent: its type octet and, for numbers 2 and up, its data. */
  datatype Field = Field(kind: byte, data: seq<byte>)

  ghost predicate WellFormed(o: Field) {
    o.kind != 0 && (o.kind % 32 < 2 ==> o.data == []) && |o.data| + 2 < 256
  }

  /** The octets of one option: type, then length and data for numbers 2 and up. */
  function EncodeField(o: Field): (s: seq<byte>)
    requires WellFormed(o)
    ensures 0 < |s| && s[0] == o.kind
  {
    if o.kind % 32 < 2 then [o.kind] else [o.kind, (|o.data| + 2) as byte] + o.data
  }

  function EncodeFields(os: seq<Field>): seq<byte>
    requires forall i :: 0 <= i < |os| ==> WellFormed(os[i])
  {
    if |os| == 0 then [] else EncodeField(os[0]) + EncodeFields(os[1..])
  }

  /** What option_header() should report for an option. */
  function Describe(o: Field): IpOption {
    var b := o.kind as nat;
    IpOption(b / 32 % 4, b % 32, if b % 32 < 2 then 0 else |o.data| + 2)
  }

  function DescribeAll(os: seq<Field>): (r: seq<IpOption>)
    ensures |r| == |os|
    ensures forall i :: 0 <= i < |os| ==> r[i] == Describe(os[i])
  {
    if |os| == 0 then [] else [Describe(os[0])] + DescribeAll(os[1..])
  }

  /**
   * The RFC 791 walk reads back any list of well-formed options placed at
   * p, whether the header ends right after them or an End of Option List
   * octet follows.
   */
  lemma {:induction false} WalkRfc791Encoded(s: seq<byte>, hl: nat, p: nat, os: seq<Field>)
    requires forall i :: 0 <= i < |os| ==> WellFormed(os[i])
    requires p + |EncodeFields(os)| <= hl <= |s|
    requires s[p..p + |EncodeFields(os)|] == EncodeFields(os)
    requires p + |EncodeFields(os)| < hl ==> s[p + |EncodeFields(os)|] == 0
    ensures WalkRfc791(s, hl, p) == Ok(DescribeAll(os))
    decreases |os|
  {
    var e := EncodeFields(os);
    if |os| > 0 {
      var o := os[0];
      var h := EncodeField(o);
      var t := EncodeFields(os[1..]);
      assert e == h + t;
      SliceSplit(s, p, h, t);
      FieldRead(s, p, o);
      var q := p + |h|;
      WalkRfc791Encoded(s, hl, q, os[1..]);
      var rest := DescribeAll(os[1..]);
      assert StepRfc791(s, p) == q;
      assert WalkRfc791(s, hl, p) == Ok([Describe(o)] + rest);
      assert DescribeAll(os) == [Describe(o)] + rest;
    }
  }

  lemma SliceSplit(s: seq<byte>, p: nat, h: seq<byte>, t: seq<byte>)
    requires p + |h| + |t| <= |s| && s[p..p + |h| + |t|] == h + t
    ensures s[p..p + |h|] == h && s[p + |h|..p + |h| + |t|] == t
  {
    var w := s[p..p + |h| + |t|];
    assert s[p..p + |h|] == w[..|h|] && w[..|h|] == h;
    assert s[p + |h|..p + |h| + |t|] == w[|h|..] && w[|h|..] == t;
  }

  /** One well-formed option placed at p is read as Describe says and skipped whole. */
  lemma FieldRead(s: seq<byte>, p: nat, o: Field)
    requires WellFormed(o) && p + |EncodeField(o)| <= |s|
    requires s[p..p + |EncodeField(o)|] == EncodeField(o)
    ensures Readable(s, p) && s[p] != 0
    ensures StepRfc791(s, p) == p + |EncodeField(o)|
    ensures OptionAt(s, p) == Describe(o)
  {
    var h := EncodeField(o);
    assert s[p] == h[0] == o.kind;
    if o.kind % 32 >= 2 {
      assert s[p + 1] == h[1] == (|o.data| + 2) as byte;
    }
  }

  /** The bytes of an IHL-7 header: Router Alert (type 0x94, length 4), three No Operation options, End of Option List. */
  const ROUTER_ALERT: seq<byte> :=
    [0x47, 0, 0, 28, 0, 0, 0, 0, 64, 17, 0, 0, 10, 0, 0, 1, 10, 0, 0, 2,
     0x94, 0x04, 0x00, 0x00, 0x01, 0x01, 0x01, 0x00]

  /**
   * On that header the source skips 2 + 4 bytes past the Router Alert,
   * lands on the last No Operation and finds two options; RFC 791 finds
   * the Router Alert and three No Operation options.
   */
  lemma RouterAlertMiscounted()
    ensures Options(Whole(ROUTER_ALERT)) == Ok([IpOption(0, 20, 4), IpOption(0, 1, 0)])
    ensures OptionsRfc791(Whole(ROUTER_ALERT)) ==
              Ok([IpOption(0, 20, 4), IpOption(0, 1, 0), IpOption(0, 1, 0), IpOption(0, 1, 0)])
  {
    RouterAlertHeaderLength();
    RouterAlertAsWritten();
    RouterAlertRfc791();
  }

  lemma RouterAlertHeaderLength()
    ensures IpPacket.HeaderLength(Whole(ROUTER_ALERT)) == 28
  {
    assert Whole(ROUTER_ALERT).At(0) == 0x47;
  }

  lemma RouterAlertAsWritten()
    ensures Walk(ROUTER_ALERT, 28, 20) == Ok([IpOption(0, 20, 4), IpOption(0, 1, 0)])
  {
    var s := ROUTER_ALERT;
    var ra, nop := IpOption(0, 20, 4), IpOption(0, 1, 0);
    assert OptionAt(s, 20) == ra && Step(s, 20) == 26;
    assert OptionAt(s, 26) == nop && Step(s, 26) == 27;
    assert Walk(s, 28, 27) == Ok([]);
    assert [nop] + [] == [nop] && [ra] + [nop] == [ra, nop];
    assert Walk(s, 28, 26) == Ok([nop]);
  }

  lemma RouterAlertRfc791()
    ensures WalkRfc791(ROUTER_ALERT, 28, 20) ==
              Ok([IpOption(0, 20, 4), IpOption(0, 1, 0), IpOption(0, 1, 0), IpOption(0, 1, 0)])
  {
    var s := ROUTER_ALERT;
    var ra, nop := IpOption(0, 20, 4), IpOption(0, 1, 0);
    assert OptionAt(s, 20) == ra && StepRfc791(s, 20) == 24;
    assert OptionAt(s, 24) == nop && OptionAt(s, 25) == nop && OptionAt(s, 26) == nop;
    assert StepRfc791(s, 24) == 25 && StepRfc791(s, 25) == 26 && StepRfc791(s, 26) == 27;
    assert [nop] + [] == [nop] && [nop] + [nop] == [nop, nop] && [nop] + [nop, nop] == [nop, nop, nop];
    assert [ra] + [nop, nop, nop] == [ra, nop, nop, nop];
    assert WalkRfc791(s, 28, 27) == Ok([]);
    assert WalkRfc791(s, 28, 26) == Ok([nop]);
    assert WalkRfc791(s, 28, 25) == Ok([nop, nop]);
    assert WalkRfc791(s, 28, 24) == Ok([nop, nop, nop]);
  }
}
