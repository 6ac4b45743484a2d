/** The append-only writer and the bounds-checked cursor the codec works on. */
module Buffers {
  import opened Base
  import opened Wire

  class BufferWriter {
    var data: Bytes

    constructor ()
      ensures data == []
    {
      data := [];
    }

    method WriteRaw(src: Bytes)
      modifies this
      ensures data == old(data) + src
    {
      data := data + src;
    }

    method WriteByte(b: byte)
      modifies this
      ensures data == old(data) + [b]
    {
      data := data + [b];
    }

    /** Moves the bytes out. */
    method Take() returns (bytes: Bytes)
      modifies this
      ensures bytes == old(data) && data == []
    {
      bytes, data := data, [];
    }
  }

  /** A cursor over a buffer whose size fits the machine's 64-bit sizes. */
  class BufferReader {
    const data: Bytes
    var pos: nat

    ghost predicate Valid()
      reads this
    {
      pos <= |data| < TWO_64
    }

    /** The bytes not read yet. */
    ghost function Unread(): (s: Bytes)
      reads this
      requires Valid()
      ensures |s| == |data| - pos
    {
      data[pos..]
    }

    constructor (bytes: Bytes)
      requires |bytes| < TWO_64
      ensures Valid() && data == bytes && pos == 0 && Unread() == bytes
    {
      data, pos := bytes, 0;
      new;
      assert data[0..] == bytes;
    }

    method Remaining() returns (n: nat)
      requires Valid()
      ensures n == |Unread()|
    {
      n := |data| - pos;
    }

    /** The next `n` bytes, consumed; on failure the cursor stays where it is. */
    method Borrow(n: nat) returns (r: Result<Bytes>)
      requires Valid()
      modifies this
      ensures Valid() && Agrees(Take(n, old(Unread())), r, Unread())
      ensures r.Ok? ==> pos == old(pos) + n
      ensures r.Err? ==> pos == old(pos)
    {
      if n > |data| - pos {
        return Err(Error(DecodeError));
      }
      ghost var before := Unread();
      r := Ok(data[pos..pos + n]);
      pos := pos + n;
      assert r.value == before[..n] && Unread() == before[n..];
    }

    /** Copies `dst.Length` bytes out. */
    method ReadRaw(dst: array<byte>) returns (r: Result<()>)
      requires Valid()
      modifies this, dst
      ensures Valid()
      ensures dst.Length <= |old(Unread())| ==>
                r == Ok(()) && dst[..] == old(Unread())[..dst.Length] && Unread() == old(Unread())[dst.Length..]
      ensures dst.Length > |old(Unread())| ==>
                r == Err(Error(DecodeError)) && pos == old(pos) && dst[..] == old(dst[..])
    {
      if dst.Length > |data| - pos {
        return Err(Error(DecodeError));
      }
      forall i | 0 <= i < dst.Length {
        dst[i] := data[pos + i];
      }
      pos := pos + dst.Length;
      r := Ok(());
    }
  }
}
