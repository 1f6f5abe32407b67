/**
 The output buffer of the serializer, which grows towards lower addresses
 (class Buffer of include/protocache/utils.h and src/utils.cc).

 A position is a distance from the end, so it stays valid when the storage is
 reallocated.
 */
module Buffers {
  import opened Words

  class Buffer {
    var data: array<u32>   // storage; the length is size_
    var off: nat           // start of the used part

    ghost predicate Valid()
      reads this
    {
      off <= data.Length
    }

    ghost function Contents(): (s: seq<u32>)
      reads this, data
      requires Valid()
    {
      data[off..]
    }

    constructor ()
      ensures Valid() && Contents() == [] && fresh(data)
    {
      data := new u32[0];
      off := 0;
    }

    function Size(): nat
      reads this
      requires Valid()
    {
      data.Length - off
    }

    /** Index in the storage of position `size`. */
    function At(size: nat): nat
      reads this
      requires Valid() && size <= data.Length
    {
      data.Length - size
    }

    /** DoExpand: moves the used part to the end of a larger storage. */
    method Grow(delta: nat)
      requires Valid() && off < delta
      modifies this
      ensures Valid() && fresh(data)
      ensures Size() == old(Size()) + delta && Contents()[delta..] == old(Contents())
    {
      if data.Length == 0 {
        var size := if delta > 8 then delta else 8;
        data := new u32[size];
        off := size - delta;
        return;
      }
      var size := if data.Length >= 256 * 1024 then data.Length * 3 / 2 else data.Length * 2;
      size := if size > data.Length + delta then size else data.Length + delta;
      var bigger := new u32[size];
      var used := data.Length - off;
      var start := size - used;
      ghost var before := data[off..];
      forall i | start <= i < size { bigger[i] := data[off + i - start]; }
      assert bigger[start..] == before;
      data := bigger;
      off := start - delta;
      assert data[off..][delta..] == data[start..];
    }

    /** Makes room for `delta` words in front; their values are unspecified. */
    method Expand(delta: nat)
      requires Valid()
      modifies this
      ensures Valid() && (data == old(data) || fresh(data))
      ensures data == old(data) ==> off == old(off) - delta
      ensures Size() == old(Size()) + delta && Contents()[delta..] == old(Contents())
    {
      if off >= delta {
        ghost var before := data[off..];
        off := off - delta;
        assert data[off..][delta..] == before;
      } else {
        Grow(delta);
      }
    }

    /** Drops `delta` words from the front. */
    method Shrink(delta: nat)
      requires Valid() && delta <= Size()
      modifies this`off
      ensures Valid() && Contents() == old(Contents())[delta..]
    {
      ghost var before := data[off..];
      off := off + delta;
      assert data[off..] == before[delta..];
    }

    /** Stores one word at index `i` from the front. */
    method Poke(i: nat, v: u32)
      requires Valid() && i < Size()
      modifies data
      ensures Valid() && Contents() == old(Contents())[i := v]
    {
      ghost var before := data[off..];
      data[off + i] := v;
      assert data[off..] == before[i := v];
    }

    method Put(v: u32)
      requires Valid()
      modifies this, data
      ensures Valid() && (data == old(data) || fresh(data))
      ensures Contents() == [v] + old(Contents())
    {
      ghost var before := Contents();
      Expand(1);
      assert Contents() == [Contents()[0]] + before;
      Poke(0, v);
    }

    /** Puts a block of words in front. */
    method PutAll(words: seq<u32>)
      requires Valid()
      modifies this, data
      ensures Valid() && (data == old(data) || fresh(data))
      ensures Contents() == words + old(Contents())
    {
      ghost var before := Contents();
      Expand(|words|);
      ghost var wide := Contents();
      forall i | off <= i < off + |words| { data[i] := words[i - off]; }
      ghost var after := data[off..];
      assert forall i | |words| <= i < |after| :: after[i] == wide[i] == wide[|words|..][i - |words|];
      assert after == words + before;
    }
  }
}
