/**
 UTF-8 as RFC 3629 defines it, and the client's validator loop proved to decide it.
 */
module Utf8 {
  import opened Base

  /** Unicode scalar values: no surrogates, nothing above U+10FFFF (section 3 of RFC 3629). */
  type Scalar = c: int | 0 <= c < 0xD800 || 0xDFFF < c <= 0x10FFFF

  predicate Trailing(b: byte) { 0x80 <= b < 0xC0 }

  /** The bits an octet carries above its mark. */
  function Payload(b: byte, mark: int): int { b as int - mark }

  /** The table of section 3 of RFC 3629: the octets `e` carry the bits of `c`, in the shortest form. */
  predicate Spells(e: Bytes, c: Scalar) {
    if c < 0x80 then |e| == 1 && e[0] == c
    else if c < 0x800 then
      && |e| == 2 && 0xC0 <= e[0] < 0xE0 && Trailing(e[1])
      && c == Payload(e[0], 0xC0) * 0x40 + Payload(e[1], 0x80)
    else if c < 0x1_0000 then
      && |e| == 3 && 0xE0 <= e[0] < 0xF0 && Trailing(e[1]) && Trailing(e[2])
      && c == Payload(e[0], 0xE0) * 0x1000 + Payload(e[1], 0x80) * 0x40 + Payload(e[2], 0x80)
    else
      && |e| == 4 && 0xF0 <= e[0] < 0xF8 && Trailing(e[1]) && Trailing(e[2]) && Trailing(e[3])
      && c == Payload(e[0], 0xF0) * 0x4_0000 + Payload(e[1], 0x80) * 0x1000
              + Payload(e[2], 0x80) * 0x40 + Payload(e[3], 0x80)
  }

  /** How many octets spell a scalar (the ranges of section 3 of RFC 3629). */
  function Width(c: Scalar): (n: nat)
    ensures 1 <= n <= 4
    ensures forall e :: Spells(e, c) ==> |e| == n
  {
    if c < 0x80 then 1 else if c < 0x800 then 2 else if c < 0x1_0000 then 3 else 4
  }

  /** `s` is the concatenation of octet sequences that spell the scalars `cs`, in order. */
  predicate Encodes(s: Bytes, cs: seq<Scalar>)
    decreases |cs|
  {
    if cs == [] then s == []
    else
      var n := Width(cs[0]);
      n <= |s| && Spells(s[..n], cs[0]) && Encodes(s[n..], cs[1..])
  }

  /** The scalar spelt by the first octets of `s`, if there is one. */
  function Head(s: Bytes): (c: Option<Scalar>)
    requires s != []
  {
    var b0 := s[0];
    if b0 < 0x80 then Some(b0)
    else if 0xC0 <= b0 < 0xE0 then
      if |s| < 2 || !Trailing(s[1]) then None else
      var cp := Payload(b0, 0xC0) * 0x40 + Payload(s[1], 0x80);
      if cp < 0x80 then None else Some(cp)
    else if 0xE0 <= b0 < 0xF0 then
      if |s| < 3 || !Trailing(s[1]) || !Trailing(s[2]) then None else
      var cp := Payload(b0, 0xE0) * 0x1000 + Payload(s[1], 0x80) * 0x40 + Payload(s[2], 0x80);
      if cp < 0x800 || 0xD800 <= cp <= 0xDFFF then None else Some(cp)
    else if 0xF0 <= b0 < 0xF8 then
      if |s| < 4 || !Trailing(s[1]) || !Trailing(s[2]) || !Trailing(s[3]) then None else
      var cp := Payload(b0, 0xF0) * 0x4_0000 + Payload(s[1], 0x80) * 0x1000
                + Payload(s[2], 0x80) * 0x40 + Payload(s[3], 0x80);
      if cp < 0x1_0000 || 0x10_FFFF < cp then None else Some(cp)
    else None
  }

  /** `s` can be taken apart, head by head, until nothing is left. */
  predicate IsText(s: Bytes)
    decreases |s|
  {
    s == []
    || (Head(s).Some? && Width(Head(s).value) <= |s| && IsText(s[Width(Head(s).value)..]))
  }

  /** A head that is found is there: its octets spell it. */
  lemma HeadSpells(s: Bytes)
    requires s != [] && Head(s).Some?
    ensures var c := Head(s).value; Width(c) <= |s| && Spells(s[..Width(c)], c)
  {}

  /** A buffer that starts with octets spelling a scalar has that scalar as its head. */
  lemma HeadOfSpelled(s: Bytes, c: Scalar)
    requires Width(c) <= |s| && Spells(s[..Width(c)], c)
    ensures Head(s) == Some(c)
  {}

  /** Every scalar has a spelling, so the encoding is total. */
  lemma SpellingExists(c: Scalar)
    ensures exists e :: Spells(e, c)
  {
    var (q1, r0) := (c / 0x40, c % 0x40);
    var (q2, r1) := (q1 / 0x40, q1 % 0x40);
    var (q3, r2) := (q2 / 0x40, q2 % 0x40);
    if c < 0x80 {
      assert Spells([c], c);
    } else if c < 0x800 {
      assert Spells([0xC0 + q1, 0x80 + r0], c);
    } else if c < 0x1_0000 {
      assert Spells([0xE0 + q2, 0x80 + r1, 0x80 + r0], c);
    } else {
      assert Spells([0xF0 + q3, 0x80 + r2, 0x80 + r1, 0x80 + r0], c);
    }
  }

  /** No buffer spells two texts. */
  lemma {:induction false} DecodingIsUnique(s: Bytes, cs: seq<Scalar>, ds: seq<Scalar>)
    requires Encodes(s, cs) && Encodes(s, ds)
    ensures cs == ds
    decreases |cs|
  {
    if cs != [] && ds != [] {
      HeadOfSpelled(s, cs[0]);
      HeadOfSpelled(s, ds[0]);
      DecodingIsUnique(s[Width(cs[0])..], cs[1..], ds[1..]);
    }
  }

  lemma SpellingIsUnique(e: Bytes, f: Bytes, c: Scalar)
    requires Spells(e, c) && Spells(f, c)
    ensures e == f
  {
  }

  /** Every sequence of scalars has an encoding. */
  lemma {:induction false} EncodingExists(cs: seq<Scalar>) returns (s: Bytes)
    ensures Encodes(s, cs)
  {
    if cs == [] {
      s := [];
    } else {
      var c := cs[0];
      SpellingExists(c);
      var e: Bytes :| Spells(e, c);
      var rest := EncodingExists(cs[1..]);
      s := e + rest;
      hide Spells;
      assert s[..Width(c)] == e && s[Width(c)..] == rest;
    }
  }

  /** And no two. */
  lemma {:induction false} EncodingIsUnique(s: Bytes, t: Bytes, cs: seq<Scalar>)
    requires Encodes(s, cs) && Encodes(t, cs)
    ensures s == t
    decreases |cs|
  {
    hide Spells;
    if cs != [] {
      var n := Width(cs[0]);
      SpellingIsUnique(s[..n], t[..n], cs[0]);
      EncodingIsUnique(s[n..], t[n..], cs[1..]);
      assert s == s[..n] + s[n..] && t == t[..n] + t[n..];
    }
  }

  lemma {:induction false} EncodingIsText(s: Bytes, cs: seq<Scalar>)
    requires Encodes(s, cs)
    ensures IsText(s)
    decreases |cs|
  {
    if cs != [] {
      HeadOfSpelled(s, cs[0]);
      EncodingIsText(s[Width(cs[0])..], cs[1..]);
    }
  }

  lemma {:induction false} TextHasScalars(s: Bytes)
    requires IsText(s)
    ensures exists cs: seq<Scalar> :: Encodes(s, cs)
    decreases |s|
  {
    if s == [] {
      assert Encodes(s, []);
    } else {
      HeadSpells(s);
      var c := Head(s).value;
      TextHasScalars(s[Width(c)..]);
      var cs: seq<Scalar> :| Encodes(s[Width(c)..], cs);
      assert ([c] + cs)[1..] == cs;
      assert Encodes(s, [c] + cs);
    }
  }

  /** A buffer is text exactly when it is the encoding of some scalars. */
  lemma TextIsEncoding(s: Bytes)
    ensures IsText(s) <==> exists cs: seq<Scalar> :: Encodes(s, cs)
  {
    if IsText(s) {
      TextHasScalars(s);
    }
    if exists cs: seq<Scalar> :: Encodes(s, cs) {
      var cs: seq<Scalar> :| Encodes(s, cs);
      EncodingIsText(s, cs);
    }
  }

  /** Inside a spelling every octet but the first is a trailing one, and no proper part is text. */
  lemma InsideScalar(s: Bytes, k: nat)
    requires s != [] && Head(s).Some? && 0 < k < Width(Head(s).value)
    ensures k < |s| && Trailing(s[k]) && !IsText(s[..k])
  {
    HeadSpells(s);
    if Head(s[..k]).Some? { HeadSpells(s[..k]); }
  }

  /** Cutting behind the head leaves the head. */
  lemma HeadOfPrefix(s: Bytes, k: nat)
    requires s != [] && Head(s).Some? && Width(Head(s).value) <= k <= |s|
    ensures Head(s[..k]) == Head(s)
  {
    HeadSpells(s);
    var c := Head(s).value;
    assert s[..k][..Width(c)] == s[..Width(c)];
    HeadOfSpelled(s[..k], c);
  }

  lemma TextBehindHead(s: Bytes)
    requires s != []
    ensures IsText(s) ==> Head(s).Some?
    ensures Head(s).Some? ==> Width(Head(s).value) <= |s|
    ensures Head(s).Some? ==> (IsText(s) <==> IsText(s[Width(Head(s).value)..]))
  {
    if Head(s).Some? { HeadSpells(s); }
  }

  /** Cutting a text short leaves a text exactly when the cut falls before a leading octet. */
  lemma {:induction false} CutIsText(s: Bytes, k: nat)
    requires IsText(s) && k < |s|
    ensures IsText(s[..k]) <==> !Trailing(s[k])
    decreases |s|
  {
    assert IsText([]);
    hide Head, Spells, Width, IsText;
    TextBehindHead(s);
    var n := Width(Head(s).value);
    if k == 0 {
      assert s[..k] == [];
      LeadIsNotTrailing(s);
    } else if k < n {
      InsideScalar(s, k);
    } else {
      HeadOfPrefix(s, k);
      TextBehindHead(s[..k]);
      assert s[..k][n..] == s[n..][..k - n];
      CutIsText(s[n..], k - n);
    }
  }

  lemma LeadIsNotTrailing(s: Bytes)
    requires s != [] && Head(s).Some?
    ensures !Trailing(s[0])
  {}

  // ---- The masks the validator applies to single bytes -----------------------

  /** The bits of a byte. */
  function BitsOf(b: byte): (v: bv8)
    ensures v as int == b
  {
    if b == 0 then 0 else Successor(BitsOf(b - 1)); BitsOf(b - 1) + 1
  }

  lemma Successor(v: bv8)
    requires v < 255
    ensures (v + 1) as int == v as int + 1
  {}

  lemma HighMasks(v: bv8)
    ensures v & 0xC0 == 0x80 <==> 0x80 <= v as int < 0xC0
    ensures v & 0xE0 == 0xC0 <==> 0xC0 <= v as int < 0xE0
    ensures v & 0xF0 == 0xE0 <==> 0xE0 <= v as int < 0xF0
    ensures v & 0xF8 == 0xF0 <==> 0xF0 <= v as int < 0xF8
  {}

  lemma LowMask6(v: bv8)
    requires 0x80 <= v as int < 0xC0
    ensures (v & 0x3F) as int == v as int - 0x80
  {}

  lemma LowMask5(v: bv8)
    requires 0xC0 <= v as int < 0xE0
    ensures (v & 0x1F) as int == v as int - 0xC0
  {}

  lemma LowMask4(v: bv8)
    requires 0xE0 <= v as int < 0xF0
    ensures (v & 0x0F) as int == v as int - 0xE0
  {}

  lemma LowMask3(v: bv8)
    requires 0xF0 <= v as int < 0xF8
    ensures (v & 0x07) as int == v as int - 0xF0
  {}

  method IsContinuation(b: byte) returns (yes: bool)
    ensures yes <==> Trailing(b)
  {
    hide BitsOf;
    var v := BitsOf(b);
    HighMasks(v);
    yes := v & 0xC0 == 0x80;
  }

  /** Which multi-byte form the lead byte `b` announces: its length, or 0. */
  method LeadOf(b: byte) returns (n: nat)
    ensures n == if 0xC0 <= b < 0xE0 then 2 else if 0xE0 <= b < 0xF0 then 3 else if 0xF0 <= b < 0xF8 then 4 else 0
  {
    hide BitsOf;
    var v := BitsOf(b);
    HighMasks(v);
    if v & 0xE0 == 0xC0 { return 2; }
    if v & 0xF0 == 0xE0 { return 3; }
    if v & 0xF8 == 0xF0 { return 4; }
    return 0;
  }

  /** What the shifts of the decoder compute: six more bits behind a code point. */
  lemma SixMoreBits(a: bv32, b: bv32)
    requires a < 0x400_0000 && b < 0x40
    ensures (a << 6) | b == a * 0x40 + b
  {
  }

  method CodePoint2(b0: byte, b1: byte) returns (cp: int)
    requires 0xC0 <= b0 < 0xE0 && Trailing(b1)
    ensures cp == Payload(b0, 0xC0) * 0x40 + Payload(b1, 0x80)
  {
    hide BitsOf;
    var v0, v1 := BitsOf(b0), BitsOf(b1);
    LowMask5(v0); LowMask6(v1);
    cp := (v0 & 0x1F) as int * 0x40 + (v1 & 0x3F) as int;
  }

  method CodePoint3(b0: byte, b1: byte, b2: byte) returns (cp: int)
    requires 0xE0 <= b0 < 0xF0 && Trailing(b1) && Trailing(b2)
    ensures cp == Payload(b0, 0xE0) * 0x1000 + Payload(b1, 0x80) * 0x40 + Payload(b2, 0x80)
  {
    hide BitsOf;
    var v0, v1, v2 := BitsOf(b0), BitsOf(b1), BitsOf(b2);
    LowMask4(v0); LowMask6(v1); LowMask6(v2);
    cp := (v0 & 0x0F) as int * 0x1000 + (v1 & 0x3F) as int * 0x40 + (v2 & 0x3F) as int;
  }

  method CodePoint4(b0: byte, b1: byte, b2: byte, b3: byte) returns (cp: int)
    requires 0xF0 <= b0 < 0xF8 && Trailing(b1) && Trailing(b2) && Trailing(b3)
    ensures cp == Payload(b0, 0xF0) * 0x4_0000 + Payload(b1, 0x80) * 0x1000
                  + Payload(b2, 0x80) * 0x40 + Payload(b3, 0x80)
  {
    hide BitsOf;
    var v0, v1, v2, v3 := BitsOf(b0), BitsOf(b1), BitsOf(b2), BitsOf(b3);
    LowMask3(v0); LowMask6(v1); LowMask6(v2); LowMask6(v3);
    cp := (v0 & 0x07) as int * 0x4_0000 + (v1 & 0x3F) as int * 0x1000
          + (v2 & 0x3F) as int * 0x40 + (v3 & 0x3F) as int;
  }

  /** The validator: decides whether `data` is UTF-8, without ever reading past its end. */
  method IsValidUtf8(data: Bytes) returns (valid: bool)
    ensures valid <==> IsText(data)
    ensures valid <==> exists cs: seq<Scalar> :: Encodes(data, cs)
  {
    TextIsEncoding(data);
    var n := |data|;
    var i := 0;
    while i < n
      invariant 0 <= i <= n
      invariant IsText(data) <==> IsText(data[i..])
    {
      ghost var s := data[i..];
      if Head(s).Some? { HeadSpells(s); }
      var b0 := data[i];
      if b0 < 0x80 {
        assert s[1..] == data[i + 1..];
        i := i + 1;
        continue;
      }
      var form := LeadOf(b0);
      if form == 2 {
        if i + 1 >= n { return false; }
        var b1 := data[i + 1];
        var ok1 := IsContinuation(b1);
        if !ok1 { return false; }
        var cp := CodePoint2(b0, b1);
        if cp < 0x80 { return false; }
        assert s[2..] == data[i + 2..];
        i := i + 2;
        continue;
      }
      if form == 3 {
        if i + 2 >= n { return false; }
        var b1, b2 := data[i + 1], data[i + 2];
        var ok1 := IsContinuation(b1);
        var ok2 := IsContinuation(b2);
        if !ok1 || !ok2 { return false; }
        var cp := CodePoint3(b0, b1, b2);
        if cp < 0x800 { return false; }
        if 0xD800 <= cp <= 0xDFFF { return false; }
        assert s[3..] == data[i + 3..];
        i := i + 3;
        continue;
      }
      if form == 4 {
        if i + 3 >= n { return false; }
        var b1, b2, b3 := data[i + 1], data[i + 2], data[i + 3];
        var ok1 := IsContinuation(b1);
        var ok2 := IsContinuation(b2);
        var ok3 := IsContinuation(b3);
        if !ok1 || !ok2 || !ok3 { return false; }
        var cp := CodePoint4(b0, b1, b2, b3);
        if cp < 0x1_0000 { return false; }
        if cp > 0x10_FFFF { return false; }
        assert s[4..] == data[i + 4..];
        i := i + 4;
        continue;
      }
      return false;
    }
    assert data[n..] == [];
    return true;
  }

  /** The euro sign and the last scalar are text; a surrogate, what lies above, and overlong forms are not. */
  lemma Vectors()
    ensures IsText([0xE2, 0x82, 0xAC]) && IsText([0xF4, 0x8F, 0xBF, 0xBF]) && IsText([0xC2, 0x80])
    ensures !IsText([0xED, 0xA0, 0x80]) && !IsText([0xF4, 0x90, 0x80, 0x80]) && !IsText([0x80])
    ensures !IsText([0xC0, 0x80]) && !IsText([0xE0, 0x80, 0x80]) && !IsText([0xF0, 0x80, 0x80, 0x80])
  {
    assert IsText([]);
    assert Head([0xE2, 0x82, 0xAC]) == Some(0x20AC);
    assert Head([0xF4, 0x8F, 0xBF, 0xBF]) == Some(0x10_FFFF);
    assert Head([0xC2, 0x80]) == Some(0x80);
  }
}
