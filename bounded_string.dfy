/** `heapless::String<N>`: a byte buffer of fixed capacity whose appends fail
    as a whole, leaving the buffer as it was. */
module Heapless {
  import opened ByteText

  class BoundedString {
    /** N of `String<N>`. */
    const capacity: nat
    /** The backing storage; only its first `len` bytes are the string. */
    const data: array<Byte>
    var len: nat

    ghost predicate Valid()
      reads this
    {
      data.Length == capacity && len <= capacity
    }

    /** `as_bytes()`. */
    function Bytes(): (s: seq<Byte>)
      reads this, data
      requires Valid()
      ensures |s| == len <= capacity
    {
      data[..len]
    }

    /** `String::<N>::new()`. */
    constructor (n: nat)
      ensures Valid() && capacity == n && fresh(data)
      ensures Bytes() == []
    {
      capacity := n;
      data := new Byte[n](_ => 0);
      len := 0;
    }

    /** `push_str`: the whole of `s` is appended when it fits, otherwise
        nothing is and `Err` is returned. */
    method PushStr(s: seq<Byte>) returns (ok: bool)
      requires Valid()
      modifies this, data
      ensures Valid()
      ensures ok <==> old(len) + |s| <= capacity
      ensures Bytes() == if ok then old(Bytes()) + s else old(Bytes())
    {
      if len + |s| > capacity {
        return false;
      }
      var m := 0;
      while m < |s|
        invariant 0 <= m <= |s|
        invariant len == old(len)
        invariant data[..len] == old(Bytes())
        invariant forall k :: 0 <= k < m ==> data[len + k] == s[k]
      {
        data[len + m] := s[m];
        m := m + 1;
      }
      assert data[..len + |s|] == data[..len] + s;
      len := len + |s|;
      ok := true;
    }

    /** `write_fmt` (what `write!`/`writeln!` expand to): the rendered pieces
        are pushed in turn and the first one that does not fit ends the write
        with `Err`, keeping the pieces pushed before it. */
    method WriteFmt(pieces: seq<seq<Byte>>) returns (ok: bool)
      requires Valid()
      modifies this, data
      ensures Valid()
      ensures ok <==> old(len) + |Flatten(pieces)| <= capacity
      ensures ok ==> Bytes() == old(Bytes()) + Flatten(pieces)
      ensures !ok ==> old(Bytes()) <= Bytes() <= old(Bytes()) + Flatten(pieces)
    {
      var k := 0;
      while k < |pieces|
        invariant 0 <= k <= |pieces|
        invariant Valid()
        invariant Bytes() == old(Bytes()) + Flatten(pieces[..k])
      {
        FlattenSnoc(pieces, k);
        var pushed := PushStr(pieces[k]);
        if !pushed {
          FlattenPrefix(pieces, k);
          return false;
        }
        k := k + 1;
      }
      assert pieces[..k] == pieces;
      ok := true;
    }

    /** `truncate(0)`: the length drops to zero, the storage is not cleared. */
    method Clear()
      requires Valid()
      modifies this
      ensures Valid() && Bytes() == []
    {
      len := 0;
    }
  }
}
