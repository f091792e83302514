/**
 * The byte-level comparisons shared by MacAddress and IPAddress
 * (operator== and operator<), as the scans the source runs, with their
 * meaning: equality and lexicographic order with a proper prefix first.
 */
module ByteOrder {
  import opened Octets

  /** The first k bytes of a and b agree. */
  ghost predicate Agree(a: seq<byte>, b: seq<byte>, k: nat)
    requires k <= |a| && k <= |b|
  {
    forall i :: 0 <= i < k ==> a[i] == b[i]
  }

  /** Lexicographic order: a smaller byte at the first difference, or a proper prefix. */
  ghost predicate Lex(a: seq<byte>, b: seq<byte>) {
    || (exists k :: 0 <= k < |a| && k < |b| && Agree(a, b, k) && a[k] < b[k])
    || (|a| < |b| && Agree(a, b, |a|))
  }

  /** The loop of operator== from index i on, once the lengths are known equal. */
  function SameFrom(a: seq<byte>, b: seq<byte>, i: nat): bool
    requires |a| == |b| && i <= |a|
    decreases |a| - i
  {
    if i == |a| then true
    else if a[i] != b[i] then false
    else SameFrom(a, b, i + 1)
  }

  lemma {:induction false} SameFromAgrees(a: seq<byte>, b: seq<byte>, i: nat)
    requires |a| == |b| && i <= |a| && Agree(a, b, i)
    ensures SameFrom(a, b, i) <==> a == b
    decreases |a| - i
  {
    if i == |a| {
      assert forall k :: 0 <= k < |a| ==> a[k] == b[k];
    } else if a[i] != b[i] {
    } else {
      SameFromAgrees(a, b, i + 1);
    }
  }

  /** operator==: different lengths are unequal; otherwise the bytes are compared in order. */
  function Same(a: seq<byte>, b: seq<byte>): (r: bool)
    ensures r <==> a == b
  {
    if |a| != |b| then false
    else
      SameFromAgrees(a, b, 0);
      SameFrom(a, b, 0)
  }

  /**
   * The loop of operator< from index i on: the first differing byte
   * among the first min(|a|, |b|) decides; otherwise the shorter is less.
   */
  function LessFrom(a: seq<byte>, b: seq<byte>, i: nat): bool
    requires i <= |a| && i <= |b|
    decreases |a| - i
  {
    if i == |a| || i == |b| then |a| < |b|
    else if a[i] < b[i] then true
    else if a[i] > b[i] then false
    else LessFrom(a, b, i + 1)
  }

  lemma {:induction false} LessFromIsLex(a: seq<byte>, b: seq<byte>, i: nat)
    requires i <= |a| && i <= |b| && Agree(a, b, i)
    ensures LessFrom(a, b, i) <==> Lex(a, b)
    decreases |a| - i
  {
    if i == |a| || i == |b| {
      if |a| < |b| {
        assert Agree(a, b, |a|);
      }
      assert !exists k :: 0 <= k < |a| && k < |b| && Agree(a, b, k) && a[k] < b[k];
    } else if a[i] < b[i] {
      assert Agree(a, b, i) && a[i] < b[i];
    } else if a[i] > b[i] {
      assert forall k :: i < k <= |a| && k <= |b| ==> !Agree(a, b, k);
    } else {
      LessFromIsLex(a, b, i + 1);
    }
  }

  /** operator<. */
  function Less(a: seq<byte>, b: seq<byte>): (r: bool)
    ensures r <==> Lex(a, b)
  {
    LessFromIsLex(a, b, 0);
    LessFrom(a, b, 0)
  }

  lemma {:induction false} LessFromTransitive(a: seq<byte>, b: seq<byte>, c: seq<byte>, i: nat)
    requires i <= |a| && i <= |b| && i <= |c|
    requires Agree(a, b, i) && Agree(b, c, i)
    requires LessFrom(a, b, i) && LessFrom(b, c, i)
    ensures LessFrom(a, c, i)
    decreases |a| - i
  {
    if i < |a| && i < |b| && i < |c| && a[i] == b[i] && b[i] == c[i] {
      LessFromTransitive(a, b, c, i + 1);
    }
  }

  lemma {:induction false} LessFromTotal(a: seq<byte>, b: seq<byte>, i: nat)
    requires i <= |a| && i <= |b| && Agree(a, b, i)
    ensures a == b || LessFrom(a, b, i) || LessFrom(b, a, i)
    decreases |a| - i
  {
    if i == |a| || i == |b| {
      if |a| == |b| {
        assert forall k :: 0 <= k < |a| ==> a[k] == b[k];
      }
    } else if a[i] == b[i] {
      LessFromTotal(a, b, i + 1);
    }
  }

  /** operator< is transitive. */
  lemma {:induction false} LessTransitive(a: seq<byte>, b: seq<byte>, c: seq<byte>)
    requires Less(a, b) && Less(b, c)
    ensures Less(a, c)
  {
    LessFromTransitive(a, b, c, 0);
  }

  /**
   * Exactly one of a < b, b < a and a == b holds, for any two byte
   * strings: operator< is a strict total order, and two addresses that
   * are not less than each other are equal, as a set key needs.
   */
  lemma {:induction false} LessTrichotomy(a: seq<byte>, b: seq<byte>)
    ensures a == b ==> !Less(a, b) && !Less(b, a)
    ensures a != b ==> (Less(a, b) <==> !Less(b, a))
  {
    LessFromTotal(a, b, 0);
  }
}
