/**
 * The dot-separated rendering both address printers use: each byte
 * formatted, with a '.' after every byte but the last
 * (the `if (i < length()-1)` of macaddress.cpp and ipaddress.cpp).
 */
module Dotted {
  import opened Octets

  function Join(s: seq<byte>, fmt: byte -> string): string
    decreases |s|
  {
    if |s| == 0 then ""
    else if |s| == 1 then fmt(s[0])
    else fmt(s[0]) + "." + Join(s[1..], fmt)
  }

  /** A format whose renderings are non-empty, contain no '.', and tell bytes apart. */
  ghost predicate Separable(fmt: byte -> string) {
    && (forall x :: |fmt(x)| > 0)
    && (forall x, k :: 0 <= k < |fmt(x)| ==> fmt(x)[k] != '.')
    && (forall x, y :: fmt(x) == fmt(y) ==> x == y)
  }

  /** The position of the first '.' of x, or |x| when there is none. */
  function FirstDot(x: string): (n: nat)
    ensures n <= |x|
  {
    if |x| == 0 || x[0] == '.' then 0 else 1 + FirstDot(x[1..])
  }

  lemma {:induction false} FirstDotAfterWord(u: string, v: string)
    requires forall k :: 0 <= k < |u| ==> u[k] != '.'
    requires v == [] || v[0] == '.'
    ensures FirstDot(u + v) == |u|
    decreases |u|
  {
    if |u| > 0 {
      assert (u + v)[1..] == u[1..] + v;
      FirstDotAfterWord(u[1..], v);
    }
  }

  /** Two dot-free words followed by nothing or by a '.' split a string the same way. */
  lemma {:induction false} SplitAtDot(u: string, v: string, u': string, v': string)
    requires forall k :: 0 <= k < |u| ==> u[k] != '.'
    requires forall k :: 0 <= k < |u'| ==> u'[k] != '.'
    requires v == [] || v[0] == '.'
    requires v' == [] || v'[0] == '.'
    requires u + v == u' + v'
    ensures u == u' && v == v'
  {
    FirstDotAfterWord(u, v);
    FirstDotAfterWord(u', v');
    assert u == (u + v)[..|u|] && u' == (u' + v')[..|u'|];
  }

  lemma JoinEmpty(s: seq<byte>, fmt: byte -> string)
    requires Separable(fmt)
    ensures |Join(s, fmt)| == 0 <==> |s| == 0
  {
    if |s| > 0 {
      assert |fmt(s[0])| > 0;
    }
  }

  /** Every character of the rendering is a '.' or a character the format can print. */
  lemma {:induction false} JoinAlphabet(s: seq<byte>, fmt: byte -> string, ok: char -> bool)
    requires forall x, k :: 0 <= k < |fmt(x)| ==> ok(fmt(x)[k])
    ensures forall k :: 0 <= k < |Join(s, fmt)| ==> Join(s, fmt)[k] == '.' || ok(Join(s, fmt)[k])
    decreases |s|
  {
    if |s| > 1 {
      JoinAlphabet(s[1..], fmt, ok);
      var h, r := fmt(s[0]), Join(s[1..], fmt);
      var j := Join(s, fmt);
      assert j == h + "." + r;
      forall k | 0 <= k < |j|
        ensures j[k] == '.' || ok(j[k])
      {
        if k < |h| {
          assert j[k] == h[k];
        } else if k > |h| {
          assert j[k] == r[k - |h| - 1];
        }
      }
    }
  }

  /** With a separable format, the rendering determines the bytes. */
  lemma {:induction false} JoinInjective(s: seq<byte>, t: seq<byte>, fmt: byte -> string)
    requires Separable(fmt)
    requires Join(s, fmt) == Join(t, fmt)
    ensures s == t
    decreases |s|
  {
    JoinEmpty(s, fmt);
    JoinEmpty(t, fmt);
    if |s| > 0 {
      var v := if |s| == 1 then "" else "." + Join(s[1..], fmt);
      var v' := if |t| == 1 then "" else "." + Join(t[1..], fmt);
      assert Join(s, fmt) == fmt(s[0]) + v;
      assert Join(t, fmt) == fmt(t[0]) + v';
      SplitAtDot(fmt(s[0]), v, fmt(t[0]), v');
      if |s| > 1 {
        assert Join(s[1..], fmt) == v[1..] == v'[1..] == Join(t[1..], fmt);
        JoinInjective(s[1..], t[1..], fmt);
        assert s == [s[0]] + s[1..] && t == [t[0]] + t[1..];
      }
    }
  }

  /**
   * With a two-character format, byte i occupies positions 3*i and
   * 3*i + 1, and a '.' follows every byte but the last.
   */
  lemma {:induction false} JoinPairs(s: seq<byte>, fmt: byte -> string)
    requires |s| > 0
    requires forall x :: |fmt(x)| == 2
    ensures |Join(s, fmt)| == 3 * |s| - 1
    ensures forall i :: 0 <= i < |s| - 1 ==> Join(s, fmt)[3 * i .. 3 * i + 3] == fmt(s[i]) + "."
    ensures Join(s, fmt)[3 * |s| - 3 ..] == fmt(s[|s| - 1])
    decreases |s|
  {
    if |s| > 1 {
      var r := Join(s[1..], fmt);
      JoinPairs(s[1..], fmt);
      var j := Join(s, fmt);
      assert j == fmt(s[0]) + "." + r;
      forall i | 0 <= i < |s| - 1
        ensures j[3 * i .. 3 * i + 3] == fmt(s[i]) + "."
      {
        if i > 0 {
          assert j[3 * i .. 3 * i + 3] == r[3 * (i - 1) .. 3 * (i - 1) + 3];
          assert s[1..][i - 1] == s[i];
        }
      }
      assert j[3 * |s| - 3 ..] == r[3 * (|s| - 1) - 3 ..];
    }
  }
}
