/** The codec's readers and writers, each proved to do what the wire grammar says. */
module Codec {
  import opened Base
  import opened BigEndian
  import opened Wire
  import opened Utf8
  import opened Buffers

  // ---- Encode -----------------------------------------------------------------

  method WriteU16(w: BufferWriter, v: u16)
    modifies w
    ensures w.data == old(w.data) + Encode(SHORT, v)
  {
    EncodeByShifts(v);
    w.WriteByte(v / 0x100 % 0x100);
    w.WriteByte(v % 0x100);
  }

  method WriteI16(w: BufferWriter, v: int)
    requires -0x8000 <= v < 0x8000
    modifies w
    ensures w.data == old(w.data) + Encode(SHORT, v % TWO_16)
  {
    WriteU16(w, v % TWO_16);
  }

  method WriteU32(w: BufferWriter, v: u32)
    modifies w
    ensures w.data == old(w.data) + Encode(WORD, v)
  {
    EncodeByShifts(v);
    w.WriteByte(v / 0x100_0000 % 0x100);
    w.WriteByte(v / 0x1_0000 % 0x100);
    w.WriteByte(v / 0x100 % 0x100);
    w.WriteByte(v % 0x100);
  }

  method WriteI32(w: BufferWriter, v: int)
    requires -0x8000_0000 <= v < 0x8000_0000
    modifies w
    ensures w.data == old(w.data) + Encode(WORD, v % TWO_32)
  {
    WriteU32(w, v % TWO_32);
  }

  method WriteU64(w: BufferWriter, v: u64)
    modifies w
    ensures w.data == old(w.data) + Encode(LONG, v)
  {
    var i := 7;
    assert Encode(8, v)[..0] == [];
    while i >= 0
      invariant -1 <= i <= 7
      invariant w.data == old(w.data) + Encode(8, v)[..7 - i]
    {
      EncodePrefix(8, i, v);
      EncodePrefix(8, 7, v);
      var byteAt := v / Pow256(i) % 0x100;
      assert Encode(8, v)[..8 - i] == Encode(8, v)[..7 - i] + [byteAt] by {
        LastOfEncode(8 - i, v / Pow256(i));
        assert Encode(8, v)[7 - i] == Encode(8, v)[..8 - i][7 - i];
      }
      w.WriteByte(byteAt);
      i := i - 1;
    }
    assert Encode(8, v)[..8] == Encode(8, v);
  }

  lemma LastOfEncode(n: nat, v: nat)
    requires n > 0
    ensures Encode(n, v)[n - 1] == v % 256
  {}

  /** Writes a string; one longer than 32767 bytes is cut there. */
  method WriteString(w: BufferWriter, s: Bytes)
    modifies w
    ensures w.data == old(w.data) + EncodeText(s)
  {
    hide Encode;
    if |s| > INT16_MAX {
      WriteI16(w, INT16_MAX);
      w.WriteRaw(s[..INT16_MAX]);
      return;
    }
    WriteI16(w, |s|);
    if s != [] {
      w.WriteRaw(s);
    }
    assert s[..|s|] == s;
  }

  method WriteBytesRaw(w: BufferWriter, b: Bytes)
    modifies w
    ensures w.data == old(w.data) + EncodeBlob(Some(b))
  {
    hide Encode;
    SignedBits(|b|);
    WriteI32(w, ToI32(ToU32(|b|)));
    if |b| > 0 {
      w.WriteRaw(b);
    }
  }

  method WriteBytes(w: BufferWriter, b: Option<Bytes>)
    modifies w
    ensures w.data == old(w.data) + EncodeBlob(b)
  {
    hide Encode;
    if b.None? {
      WriteI32(w, -1);
      return;
    }
    WriteBytesRaw(w, b.value);
  }

  /** `n` is the size of a container, narrowed to an int32 by the caller. */
  method WriteArrayPrefix(w: BufferWriter, n: nat)
    modifies w
    ensures w.data == old(w.data) + EncodeCount(n)
  {
    hide Encode;
    SignedBits(n);
    WriteI32(w, ToI32(ToU32(n)));
  }

  // ---- Decode -----------------------------------------------------------------

  lemma ValueOfTwo(b: Bytes)
    requires |b| == 2
    ensures Value(b) == b[0] as int * 0x100 + b[1]
  {
    assert b[..1][..0] == [];
    assert Value(b[..1]) == 256 * Value(b[..1][..0]) + b[..1][0];
  }

  lemma ValueOfFour(b: Bytes)
    requires |b| == 4
    ensures Value(b) == b[0] as int * 0x100_0000 + b[1] as int * 0x1_0000 + b[2] as int * 0x100 + b[3]
  {
    assert b[..3][..2] == b[..2];
    ValueOfTwo(b[..2]);
    assert Value(b[..3]) == 256 * Value(b[..2]) + b[2];
    assert Value(b) == 256 * Value(b[..3]) + b[3];
  }

  method ReadU16(r: BufferReader) returns (res: Result<u16>)
    requires r.Valid()
    modifies r
    ensures r.Valid() && Agrees(ParseUInt(SHORT, old(r.Unread())), res, r.Unread())
  {
    var buf := new byte[2];
    var _ :- r.ReadRaw(buf);
    ValueOfTwo(buf[..]);
    Widths();
    res := Ok(buf[0] as int * 0x100 + buf[1]);
  }

  method ReadU32(r: BufferReader) returns (res: Result<u32>)
    requires r.Valid()
    modifies r
    ensures r.Valid() && Agrees(ParseUInt(WORD, old(r.Unread())), res, r.Unread())
  {
    var buf := new byte[4];
    var _ :- r.ReadRaw(buf);
    ValueOfFour(buf[..]);
    res := Ok(buf[0] as int * 0x100_0000 + buf[1] as int * 0x1_0000 + buf[2] as int * 0x100 + buf[3]);
  }

  /** What the shift loops compute: one more byte behind a value, and a byte out of it. */
  lemma EightMoreBits(v: bv64, b: bv64)
    requires b < 0x100
    ensures (v << 8) | b == v * 0x100 + b
    ensures v >> 8 == v / 0x100
  {
  }

  method ReadU64(r: BufferReader) returns (res: Result<u64>)
    requires r.Valid()
    modifies r
    ensures r.Valid() && Agrees(ParseUInt(LONG, old(r.Unread())), res, r.Unread())
  {
    var buf := new byte[8];
    var _ :- r.ReadRaw(buf);
    ghost var bytes := buf[..];
    Widths();
    var v: int := 0;
    for i := 0 to 8
      modifies {}
      invariant buf[..] == bytes && v == Value(buf[..i]) < Pow256(i)
    {
      ValueBound(buf[..i + 1]);
      assert buf[..i + 1][..i] == buf[..i];
      PowGrows(i, 7);
      v := v * 0x100 % TWO_64 + buf[i];
    }
    assert v == Value(buf[..]) by { assert buf[..8] == buf[..]; }
    res := Ok(v);
  }

  lemma {:induction false} PowGrows(i: nat, j: nat)
    requires i <= j
    ensures Pow256(i) <= Pow256(j)
    decreases j
  {
    if i < j { PowGrows(i, j - 1); }
  }

  method ReadString(r: BufferReader) returns (res: Result<Option<Bytes>>)
    requires r.Valid()
    modifies r
    ensures r.Valid() && Agrees(ParseNullableText(old(r.Unread())), res, r.Unread())
  {
    hide Value, Pow256, IsText, Encodes;
    var raw :- ReadU16(r);
    var len := ToI16(raw);
    if len == -1 {
      return Ok(None);
    }
    if len < 0 {
      return Err(Error(DecodeError));
    }
    var p :- r.Borrow(len);
    if |p| > 0 {
      var valid := IsValidUtf8(p);
      if !valid {
        return Err(Error(DecodeError));
      }
    }
    res := Ok(Some(p));
  }

  method ReadStringRequired(r: BufferReader) returns (res: Result<Bytes>)
    requires r.Valid()
    modifies r
    ensures r.Valid() && Agrees(ParseText(old(r.Unread())), res, r.Unread())
  {
    hide ParseNullableText;
    var s :- ReadString(r);
    if s.None? {
      return Err(Error(DecodeError));
    }
    res := Ok(s.value);
  }

  method ReadBytes(r: BufferReader) returns (res: Result<Option<Bytes>>)
    requires r.Valid()
    modifies r
    ensures r.Valid() && Agrees(ParseBlob(old(r.Unread())), res, r.Unread())
  {
    hide Value, Pow256;
    var raw :- ReadU32(r);
    var len := ToI32(raw);
    if len == -1 {
      return Ok(None);
    }
    if len < 0 {
      return Err(Error(DecodeError));
    }
    var p :- r.Borrow(len);
    res := Ok(Some(p));
  }

  method ReadArrayPrefix(r: BufferReader) returns (res: Result<nat>)
    requires r.Valid()
    modifies r
    ensures r.Valid() && Agrees(ParseCount(old(r.Unread())), res, r.Unread())
  {
    hide Value, Pow256;
    var raw :- ReadU32(r);
    if ToI32(raw) < 0 {
      return Err(Error(DecodeError));
    }
    res := Ok(raw);
  }
}
