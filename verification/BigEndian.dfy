/** Network byte order: fixed-width encodings, their values, and two's-complement views. */
module BigEndian {
  import opened Base

  function Pow256(n: nat): (p: nat)
    ensures p > 0
  {
    if n == 0 then 1 else 256 * Pow256(n - 1)
  }

  /** The low `n` bytes of `v`, most significant first. */
  function Encode(n: nat, v: nat): (s: Bytes)
    ensures |s| == n
  {
    if n == 0 then [] else Encode(n - 1, v / 256) + [v % 256]
  }

  function Value(s: Bytes): nat {
    if s == [] then 0 else 256 * Value(s[..|s| - 1]) + s[|s| - 1]
  }

  lemma {:induction false} ValueBound(s: Bytes)
    ensures Value(s) < Pow256(|s|)
  {
    if s != [] {
      ValueBound(s[..|s| - 1]);
    }
  }

  lemma {:induction false} ValueOfEncode(n: nat, v: nat)
    requires v < Pow256(n)
    ensures Value(Encode(n, v)) == v
  {
    if n > 0 {
      ValueOfEncode(n - 1, v / 256);
      assert Encode(n, v)[..n - 1] == Encode(n - 1, v / 256);
    }
  }

  lemma {:induction false} EncodeOfValue(s: Bytes)
    ensures Encode(|s|, Value(s)) == s
  {
    if s != [] {
      EncodeOfValue(s[..|s| - 1]);
      assert Value(s) / 256 == Value(s[..|s| - 1]);
    }
  }

  /** The bytes of the two short widths, as shifts and masks compute them. */
  lemma EncodeByShifts(v: nat)
    ensures Encode(2, v) == [v / 0x100 % 0x100, v % 0x100]
    ensures Encode(4, v) == [v / 0x100_0000 % 0x100, v / 0x1_0000 % 0x100, v / 0x100 % 0x100, v % 0x100]
  {
    assert Encode(1, v / 0x100) == Encode(0, v / 0x100 / 0x100) + [v / 0x100 % 0x100];
    var q := v / 0x1_0000;
    assert v / 0x100 / 0x100 == q && q / 0x100 == v / 0x100_0000;
    assert Encode(1, q / 0x100) == Encode(0, q / 0x100 / 0x100) + [q / 0x100 % 0x100];
    assert Encode(2, q) == Encode(1, q / 0x100) + [q % 0x100];
    assert Encode(3, v / 0x100) == Encode(2, q) + [v / 0x100 % 0x100];
    assert Encode(4, v) == Encode(3, v / 0x100) + [v % 0x100];
  }

  /** The leading bytes of an encoding are the encoding of the high part. */
  lemma {:induction false} EncodePrefix(n: nat, k: nat, v: nat)
    requires k < n
    ensures Encode(n, v)[..n - k] == Encode(n - k, v / Pow256(k))
  {
    if k > 0 {
      EncodePrefix(n - 1, k - 1, v / 256);
      assert Encode(n, v)[..n - k] == Encode(n - 1, v / 256)[..n - 1 - (k - 1)];
      DivideTwice(v, Pow256(k - 1));
    }
  }

  lemma DivideTwice(v: nat, p: nat)
    requires p > 0
    ensures v / 256 / p == v / (256 * p)
  {
    var q, r := v / 256, v % 256;
    var q', r' := q / p, q % p;
    assert v == 256 * (q' * p + r') + r == q' * (256 * p) + (256 * r' + r);
    DivisionUnique(v, 256 * p, q', 256 * r' + r);
  }

  lemma MulMonotone(a: nat, b: nat, d: nat)
    requires a <= b
    ensures a * d <= b * d
  {
    assert b * d == a * d + (b - a) * d;
  }

  lemma NotBelow(a: nat, b: nat, d: nat, r: nat)
    requires r < d && b * d <= a * d + r
    ensures b <= a
  {
    if a < b {
      MulMonotone(a + 1, b, d);
    }
  }

  lemma DivisionUnique(v: nat, d: nat, q: nat, r: nat)
    requires r < d && v == q * d + r
    ensures v / d == q
  {
    NotBelow(q, v / d, d, r);
    NotBelow(v / d, q, d, v % d);
  }

  /** What a narrowing conversion to an unsigned 32-bit integer keeps. */
  function ToU32(n: nat): u32 { n % TWO_32 }

  function ToI16(v: u16): int { if v < 0x8000 then v else v - TWO_16 }

  function ToI32(v: u32): int { if v < 0x8000_0000 then v else v - TWO_32 }

  /** Narrowing, reading as signed and converting back gives the same 32 bits. */
  lemma SignedBits(n: nat)
    ensures -0x8000_0000 <= ToI32(ToU32(n)) < 0x8000_0000 && ToI32(ToU32(n)) % TWO_32 == ToU32(n)
  {}
}
