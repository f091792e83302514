/**
 * Datagram: the captured packet, which always owns its bytes
 * (datagram.cpp), and the borrowed Ethernet view over them.
 */
module Datagrams {
  import opened Octets
  import opened Fragments

  class Datagram {
    var data: array?<byte>
    var len: nat

    ghost predicate Valid()
      reads this
    {
      && (data == null ==> len == 0)
      && (data != null ==> data.Length == len)
    }

    ghost function Contents(): seq<byte>
      requires Valid()
      reads this, data
    {
      if data == null then [] else data[..]
    }

    /** Datagram(): no bytes. */
    constructor Empty()
      ensures Valid() && data == null && len == 0 && Contents() == []
    {
      data := null;
      len := 0;
    }

    /** Datagram(pkt, l): a private copy of the first l captured bytes. */
    constructor (pkt: seq<byte>, l: nat)
      requires l <= |pkt|
      ensures Valid() && data != null && fresh(data)
      ensures len == l && Contents() == pkt[..l]
    {
      var block := new byte[l];
      var i := 0;
      while i < l
        invariant 0 <= i <= l
        invariant block[..i] == pkt[..i]
      {
        block[i] := pkt[i];
        i := i + 1;
      }
      data := block;
      len := l;
    }

    /** length(). */
    function Length(): (n: nat)
      requires Valid()
      reads this, data
      ensures n == |Contents()|
    {
      len
    }

    /**
     * operator=(const unsigned char*): the first length() bytes of s
     * replace the bytes in place; the length stays. Without a block
     * nothing happens.
     */
    method Overwrite(s: seq<byte>)
      requires Valid()
      requires data != null ==> len <= |s|
      modifies data
      ensures Valid() && unchanged(this)
      ensures Contents() == if data == null then [] else s[..len]
    {
      if data == null {
        return;
      }
      var i := 0;
      while i < len
        invariant 0 <= i <= len
        invariant data[..i] == s[..i]
      {
        data[i] := s[i];
        i := i + 1;
      }
    }

    /**
     * ethernet(): a borrowed fragment over the whole block, with the same
     * length and no copy; writes through it reach this datagram.
     */
    method Ethernet() returns (f: DatagramFragment)
      requires Valid()
      ensures fresh(f) && f.Valid() && !f.owned
      ensures f.data == data && f.off == 0 && f.len == len
      ensures f.Contents() == Contents()
    {
      f := new DatagramFragment(false, data, 0, len);
    }

    /** The frame the decoders see: the bytes of the Ethernet view. */
    function Frame(): (v: Fragment)
      requires Valid()
      reads this, data
      ensures v.len == len && v.Bytes() == Contents()
      ensures v.ptr.Null? <==> data == null
    {
      if data == null then View(Null, 0) else View(Into(data[..], 0), len)
    }
  }

  /** Overwriting through the borrowed Ethernet view changes the datagram's own bytes. */
  method EthernetAliases(pkt: Datagram, s: seq<byte>)
    requires pkt.Valid() && pkt.data != null && pkt.len <= |s|
    modifies pkt.data
    ensures pkt.Valid() && pkt.Contents() == s[..pkt.len]
  {
    var f := pkt.Ethernet();
    f.Overwrite(s);
    assert f.data[..] == f.data[0..0 + f.len];
  }
}
