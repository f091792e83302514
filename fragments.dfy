/**
 * DatagramFragment: a byte range that either owns its data block or
 * borrows the block of another object (datagramfragment.cpp).
 * The pointer p_data is the pair (data, off): position off of the array
 * data, or NULL when data is null.
 */
module Fragments {
  import opened Octets

  /** memcpy into a new block: the n bytes of src from position at. */
  method CopyOf(src: array<byte>, at: nat, n: nat) returns (block: array<byte>)
    requires at + n <= src.Length
    ensures fresh(block) && block[..] == src[at..at + n]
  {
    block := new byte[n];
    forall i | 0 <= i < n {
      block[i] := src[at + i];
    }
  }

  class DatagramFragment {
    var data: array?<byte>
    var off: nat
    var len: nat
    var owned: bool

    /** The block covers the range; an owned block is exactly the range. */
    ghost predicate Valid()
      reads this
    {
      && (data == null ==> off == 0 && len == 0)
      && (data != null ==> off + len <= data.Length)
      && (owned && data != null ==> off == 0 && data.Length == len)
    }

    /** The len bytes starting at p_data. */
    ghost function Contents(): seq<byte>
      requires Valid()
      reads this, data
    {
      if data == null then [] else data[off..off + len]
    }

    /** The fragment as a value, for the pure decoders. */
    function View(): (v: Fragment)
      requires Valid()
      reads this, data
      ensures v.len == len && v.Bytes() == Contents()
      ensures v.ptr.Null? <==> data == null
    {
      if data == null then Octets.View(Null, 0) else Octets.View(Into(data[..], off), len)
    }

    /** length(). */
    function Length(): (n: nat)
      requires Valid()
      reads this, data
      ensures n == |Contents()|
    {
      len
    }

    /** DatagramFragment(owned): no data block. */
    constructor Empty(owned: bool)
      ensures Valid() && data == null && len == 0 && this.owned == owned
      ensures Contents() == []
    {
      data := null;
      off := 0;
      len := 0;
      this.owned := owned;
    }

    /**
     * DatagramFragment(owned, s, l) with s = position at of block src:
     * an owned fragment copies the l bytes into a block of its own, a
     * borrowed one points into src.
     */
    constructor (owned: bool, src: array?<byte>, at: nat, l: nat)
      requires src == null ==> at == 0 && l == 0
      requires src != null ==> at + l <= src.Length
      ensures Valid() && this.owned == owned && len == l
      ensures Contents() == if src == null then [] else src[at..at + l]
      ensures owned ==> data != null && fresh(data)
      ensures !owned ==> data == src && off == at
    {
      this.owned := owned;
      len := l;
      if owned {
        var block := new byte[0];
        if src != null {
          block := CopyOf(src, at, l);
        }
        data := block;
        off := 0;
      } else {
        data := src;
        off := at;
      }
    }

    /** The copy constructor: ownership of d, then the assignment from d. */
    constructor Copy(d: DatagramFragment)
      requires d.Valid()
      ensures Valid() && Contents() == d.Contents() && len == d.len
      ensures owned == d.owned
      ensures d.owned ==> data == null || fresh(data)
      ensures d.owned && (d.data == null || d.len == 0) ==> data == null
      ensures !d.owned ==> data == d.data && off == d.off
    {
      owned := d.owned;
      if d.owned {
        if d.data != null && d.len != 0 {
          var block := CopyOf(d.data, 0, d.len);
          data := block;
          off := 0;
          len := d.len;
        } else {
          data := null;
          off := 0;
          len := 0;
        }
      } else {
        data := d.data;
        off := d.off;
        len := d.len;
        owned := false;
      }
    }

    /**
     * operator=(const DatagramFragment&). Assigning an owned fragment
     * gives a private copy of its bytes (or no block at all when it is
     * empty); assigning a borrowed one shares its block. Assigning a
     * fragment to itself changes nothing.
     */
    method Assign(d: DatagramFragment)
      requires Valid() && d.Valid()
      modifies this
      ensures Valid()
      ensures d == this ==> unchanged(this)
      ensures d != this ==> len == d.len && Contents() == d.Contents() && owned == d.owned
      ensures d != this && d.owned ==> data == null || fresh(data)
      ensures d != this && d.owned && (d.data == null || d.len == 0) ==> data == null
      ensures d != this && !d.owned ==> data == d.data && off == d.off
    {
      if d == this {
        return;
      }
      if d.owned {
        owned := true;
        if d.data != null && d.len != 0 {
          data := CopyOf(d.data, 0, d.len);
          off := 0;
          len := d.len;
        } else {
          data := null;
          off := 0;
          len := 0;
        }
      } else {
        data := d.data;
        off := d.off;
        len := d.len;
        owned := false;
      }
    }

    /**
     * operator=(const unsigned char*): copies the first len bytes of s
     * over the covered range and leaves the rest of the block (shared
     * with its owner when borrowed), the length and the ownership alone.
     * Without a block nothing happens.
     */
    method Overwrite(s: seq<byte>)
      requires Valid()
      requires data != null ==> len <= |s|
      modifies data
      ensures Valid() && unchanged(this)
      ensures Contents() == if data == null then [] else s[..len]
      ensures data != null ==> data[..off] == old(data[..off]) && data[off + len..] == old(data[off + len..])
    {
      if data == null {
        return;
      }
      var i := 0;
      while i < len
        invariant 0 <= i <= len
        invariant data[off..off + i] == s[..i]
        invariant forall k :: 0 <= k < data.Length && !(off <= k < off + i) ==> data[k] == old(data[k])
      {
        data[off + i] := s[i];
        i := i + 1;
      }
      assert data[off..off + len] == s[..len];
    }

    /** operator==: the same length and the same bytes. */
    method Equals(d: DatagramFragment) returns (eq: bool)
      requires Valid() && d.Valid()
      ensures eq <==> len == d.len && Contents() == d.Contents()
    {
      if len != d.len {
        return false;
      }
      if len == 0 {
        return true;
      }
      ghost var mine, theirs := Contents(), d.Contents();
      var i := 0;
      while i < len
        invariant 0 <= i <= len
        invariant forall k :: 0 <= k < i ==> mine[k] == theirs[k]
      {
        assert mine[i] == data[off + i] && theirs[i] == d.data[d.off + i];
        if data[off + i] != d.data[d.off + i] {
          return false;
        }
        i := i + 1;
      }
      assert mine == theirs;
      return true;
    }
  }
}
