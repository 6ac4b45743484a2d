/**
 The wire grammar of the protocol: for every field kind an encoding, a parser of the unread
 bytes, and the theorem that the parser accepts exactly the encodings of well-formed values.
 */
module Wire {
  import opened Base
  import opened BigEndian
  import opened Utf8

  // Field widths in bytes.
  const SHORT: nat := 2
  const WORD: nat := 4
  const LONG: nat := 8

  const INT16_MAX: nat := 0x7FFF
  const INT32_MAX: nat := 0x7FFF_FFFF

  // ---- Primitives -------------------------------------------------------------

  /** The next `n` bytes, or a truncation error. */
  function Take(n: nat, s: Bytes): Parse<Bytes> {
    if n > |s| then Fail(DecodeError) else Done(s[..n], s[n..])
  }

  function ParseUInt(n: nat, s: Bytes): (p: Parse<nat>)
    ensures p.Done? ==> p.value < Pow256(n) && |p.rest| == |s| - n
  {
    var (bytes, rest) :- Take(n, s);
    ValueBound(bytes);
    Done(Value(bytes), rest)
  }

  lemma UIntExact(n: nat, s: Bytes, v: nat, rest: Bytes)
    ensures ParseUInt(n, s) == Done(v, rest) <==> v < Pow256(n) && s == Encode(n, v) + rest
  {
    if n <= |s| {
      EncodeOfValue(s[..n]);
      assert s == s[..n] + s[n..];
    }
    if v < Pow256(n) && s == Encode(n, v) + rest {
      ValueOfEncode(n, v);
      assert s[..n] == Encode(n, v) && s[n..] == rest;
    }
  }

  lemma Widths()
    ensures Pow256(SHORT) == TWO_16 && Pow256(WORD) == TWO_32 && Pow256(LONG) == TWO_64
  {
    assert Pow256(1) == 256;
    assert Pow256(3) == 256 * Pow256(2);
    assert Pow256(4) == 256 * Pow256(3);
    assert Pow256(5) == 256 * Pow256(4);
    assert Pow256(6) == 256 * Pow256(5);
    assert Pow256(7) == 256 * Pow256(6);
  }

  // ---- Strings ------------------------------------------------------------------

  /** A string as written: one longer than an int16 allows is silently cut. */
  function EncodeText(t: Bytes): Bytes {
    var n := if |t| > INT16_MAX then INT16_MAX else |t|;
    Encode(SHORT, n) + t[..n]
  }

  /** A string on the wire; None is the null marker. */
  function ParseNullableText(s: Bytes): Parse<Option<Bytes>> {
    var (len, s1) :- ParseUInt(SHORT, s);
    Widths();
    if ToI16(len) == -1 then Done(None, s1)
    else if ToI16(len) < 0 then Fail(DecodeError)
    else
      var (t, s2) :- Take(ToI16(len), s1);
      if t != [] && !IsText(t) then Fail(DecodeError) else Done(Some(t), s2)
  }

  function ParseText(s: Bytes): Parse<Bytes> {
    var (t, rest) :- ParseNullableText(s);
    if t.None? then Fail(DecodeError) else Done(t.value, rest)
  }

  predicate ValidText(t: Bytes) { |t| <= INT16_MAX && IsText(t) }

  /** A length prefix is read off whatever it announces. */
  lemma FramedPrefix(w: nat, p: Bytes, rest: Bytes)
    requires |p| < Pow256(w)
    ensures ParseUInt(w, Encode(w, |p|) + p + rest) == Done(|p|, p + rest)
  {
    hide *;
    assert Encode(w, |p|) + p + rest == Encode(w, |p|) + (p + rest);
    UIntExact(w, Encode(w, |p|) + (p + rest), |p|, p + rest);
  }

  lemma TakeFront(p: Bytes, rest: Bytes)
    ensures Take(|p|, p + rest) == Done(p, rest)
  {
    assert (p + rest)[..|p|] == p && (p + rest)[|p|..] == rest;
  }

  lemma TextAfterPrefix(s: Bytes, p: Bytes, rest: Bytes)
    requires |p| <= 0x7FFF && ParseUInt(SHORT, s) == Done(|p|, p + rest)
    ensures ParseText(s) == if IsText(p) then Done(p, rest) else Fail(DecodeError)
  {
    assert IsText([]);
    hide Value, Encode, Pow256, IsText;
    Widths();
    TakeFront(p, rest);
  }

  /** A length prefix and that many bytes read back as a string, if they are text. */
  lemma FramedText(p: Bytes, rest: Bytes)
    requires |p| <= 0x7FFF
    ensures ParseText(Encode(SHORT, |p|) + p + rest) == if IsText(p) then Done(p, rest) else Fail(DecodeError)
  {
    assert |p| < Pow256(SHORT) by { Widths(); }
    hide *;
    FramedPrefix(SHORT, p, rest);
    TextAfterPrefix(Encode(SHORT, |p|) + p + rest, p, rest);
  }

  lemma TextCanonical(s: Bytes)
    requires ParseText(s).Done?
    ensures var p := ParseText(s); ValidText(p.value) && s == EncodeText(p.value) + p.rest
  {
    assert IsText([]);
    hide Value, Encode, Pow256, IsText;
    Widths();
    var len := ParseUInt(SHORT, s);
    UIntExact(SHORT, s, len.value, len.rest);
    var p := ParseText(s);
    assert len.rest == p.value + p.rest;
    assert p.value[..|p.value|] == p.value;
  }

  lemma TextRoundTrip(t: Bytes, rest: Bytes)
    requires ValidText(t)
    ensures ParseText(EncodeText(t) + rest) == Done(t, rest)
  {
    hide Value, Encode, Pow256;
    FramedText(t, rest);
    assert t[..|t|] == t;
  }

  /** What is read back of a string of any length and content. */
  lemma TextReadBack(t: Bytes, rest: Bytes)
    ensures |t| <= INT16_MAX ==>
              ParseText(EncodeText(t) + rest) == if IsText(t) then Done(t, rest) else Fail(DecodeError)
    ensures |t| > INT16_MAX && IsText(t) ==>
              ParseText(EncodeText(t) + rest)
              == if Trailing(t[INT16_MAX]) then Fail(DecodeError) else Done(t[..INT16_MAX], rest)
  {
    hide Value, Encode, Pow256, ParseText, IsText;
    if |t| <= INT16_MAX {
      FramedText(t, rest);
      assert t[..|t|] == t;
    } else {
      FramedText(t[..INT16_MAX], rest);
      if IsText(t) { CutIsText(t, INT16_MAX); }
    }
  }

  // ---- Byte strings ---------------------------------------------------------------

  /** `bytes` as written; the length goes through a 32-bit conversion. */
  function EncodeBlob(b: Option<Bytes>): Bytes {
    match b
    case None => Encode(WORD, TWO_32 - 1)
    case Some(v) => Encode(WORD, ToU32(|v|)) + v
  }

  function ParseBlob(s: Bytes): Parse<Option<Bytes>> {
    var (len, s1) :- ParseUInt(WORD, s);
    Widths();
    if ToI32(len) == -1 then Done(None, s1)
    else if ToI32(len) < 0 then Fail(DecodeError)
    else
      var (v, s2) :- Take(ToI32(len), s1);
      Done(Some(v), s2)
  }

  predicate ValidBlob(b: Option<Bytes>) { b.Some? ==> |b.value| <= INT32_MAX }

  lemma BlobCanonical(s: Bytes)
    requires ParseBlob(s).Done?
    ensures var p := ParseBlob(s); ValidBlob(p.value) && s == EncodeBlob(p.value) + p.rest
  {
    hide Value, Encode, Pow256;
    Widths();
    var len := ParseUInt(WORD, s);
    UIntExact(WORD, s, len.value, len.rest);
    var p := ParseBlob(s);
    if p.value.Some? {
      assert len.rest == p.value.value + p.rest;
    }
  }

  lemma BlobRoundTrip(b: Option<Bytes>, rest: Bytes)
    requires ValidBlob(b)
    ensures ParseBlob(EncodeBlob(b) + rest) == Done(b, rest)
  {
    hide Value, Encode, Pow256;
    var s := EncodeBlob(b) + rest;
    if b.Some? {
      var v := b.value;
      Widths();
      FramedPrefix(WORD, v, rest);
      TakeFront(v, rest);
    } else {
      assert ParseUInt(WORD, s) == Done(TWO_32 - 1, rest) by {
        Widths();
        UIntExact(WORD, s, TWO_32 - 1, rest);
      }
    }
  }

  // ---- Arrays -----------------------------------------------------------------------

  datatype KeyValue = KeyValue(key: Bytes, value: Bytes)

  function EncodeCount(n: nat): Bytes { Encode(WORD, ToU32(n)) }

  function ParseCount(s: Bytes): (p: Parse<nat>)
    ensures p.Done? ==> p.value <= INT32_MAX
  {
    var (n, rest) :- ParseUInt(WORD, s);
    Widths();
    if ToI32(n) < 0 then Fail(DecodeError) else Done(n, rest)
  }

  lemma CountCanonical(s: Bytes)
    requires ParseCount(s).Done?
    ensures var p := ParseCount(s); s == EncodeCount(p.value) + p.rest
  {
    hide Value, Encode, Pow256;
    Widths();
    var p := ParseCount(s);
    UIntExact(WORD, s, p.value, p.rest);
  }

  lemma CountRoundTrip(n: nat, rest: Bytes)
    requires n <= INT32_MAX
    ensures ParseCount(EncodeCount(n) + rest) == Done(n, rest)
  {
    hide Value, Encode, Pow256;
    Widths();
    UIntExact(WORD, EncodeCount(n) + rest, n, rest);
  }

  function EncodeTextSeq(ts: seq<Bytes>): Bytes {
    if ts == [] then [] else EncodeText(ts[0]) + EncodeTextSeq(ts[1..])
  }

  function ParseTextSeq(n: nat, s: Bytes): (p: Parse<seq<Bytes>>)
    ensures p.Done? ==> |p.value| == n
  {
    if n == 0 then Done([], s)
    else
      var (t, s1) :- ParseText(s);
      var (ts, s2) :- ParseTextSeq(n - 1, s1);
      Done([t] + ts, s2)
  }

  predicate ValidTexts(ts: seq<Bytes>) { forall i | 0 <= i < |ts| :: ValidText(ts[i]) }

  lemma {:induction false} TextSeqCanonical(n: nat, s: Bytes)
    requires ParseTextSeq(n, s).Done?
    ensures var p := ParseTextSeq(n, s); ValidTexts(p.value) && s == EncodeTextSeq(p.value) + p.rest
  {
    hide ParseText, EncodeText, IsText;
    if n > 0 {
      var p, head := ParseTextSeq(n, s), ParseText(s);
      TextCanonical(s);
      TextSeqCanonical(n - 1, head.rest);
      assert p.value[1..] == ParseTextSeq(n - 1, head.rest).value;
    }
  }

  lemma {:induction false} TextSeqRoundTrip(ts: seq<Bytes>, rest: Bytes)
    requires ValidTexts(ts)
    ensures ParseTextSeq(|ts|, EncodeTextSeq(ts) + rest) == Done(ts, rest)
  {
    hide ParseText, EncodeText, IsText;
    if ts != [] {
      var tail := EncodeTextSeq(ts[1..]) + rest;
      assert EncodeTextSeq(ts) + rest == EncodeText(ts[0]) + tail;
      TextRoundTrip(ts[0], tail);
      TextSeqRoundTrip(ts[1..], rest);
      assert ts == [ts[0]] + ts[1..];
    }
  }

  function EncodePairSeq(kvs: seq<KeyValue>): Bytes {
    if kvs == [] then []
    else EncodeText(kvs[0].key) + EncodeText(kvs[0].value) + EncodePairSeq(kvs[1..])
  }

  function ParsePair(s: Bytes): Parse<KeyValue> {
    var (k, s1) :- ParseText(s);
    var (v, s2) :- ParseText(s1);
    Done(KeyValue(k, v), s2)
  }

  function ParsePairSeq(n: nat, s: Bytes): (p: Parse<seq<KeyValue>>)
    ensures p.Done? ==> |p.value| == n
  {
    if n == 0 then Done([], s)
    else
      var (kv, s1) :- ParsePair(s);
      var (kvs, s2) :- ParsePairSeq(n - 1, s1);
      Done([kv] + kvs, s2)
  }

  predicate ValidPair(kv: KeyValue) { ValidText(kv.key) && ValidText(kv.value) }

  predicate ValidPairs(kvs: seq<KeyValue>) { forall i | 0 <= i < |kvs| :: ValidPair(kvs[i]) }

  lemma PairCanonical(s: Bytes)
    requires ParsePair(s).Done?
    ensures var p := ParsePair(s);
            ValidPair(p.value) && s == EncodeText(p.value.key) + EncodeText(p.value.value) + p.rest
  {
    hide ParseText, EncodeText, IsText;
    TextCanonical(s);
    TextCanonical(ParseText(s).rest);
  }

  lemma PairRoundTrip(kv: KeyValue, rest: Bytes)
    requires ValidPair(kv)
    ensures ParsePair(EncodeText(kv.key) + EncodeText(kv.value) + rest) == Done(kv, rest)
  {
    hide ParseText, EncodeText, IsText;
    var tail := EncodeText(kv.value) + rest;
    assert EncodeText(kv.key) + EncodeText(kv.value) + rest == EncodeText(kv.key) + tail;
    TextRoundTrip(kv.key, tail);
    TextRoundTrip(kv.value, rest);
  }

  lemma {:induction false} PairSeqCanonical(n: nat, s: Bytes)
    requires ParsePairSeq(n, s).Done?
    ensures var p := ParsePairSeq(n, s); ValidPairs(p.value) && s == EncodePairSeq(p.value) + p.rest
  {
    hide ParsePair, EncodeText, IsText;
    if n > 0 {
      var p, head := ParsePairSeq(n, s), ParsePair(s);
      PairCanonical(s);
      PairSeqCanonical(n - 1, head.rest);
      assert p.value[1..] == ParsePairSeq(n - 1, head.rest).value;
    }
  }

  lemma {:induction false} PairSeqRoundTrip(kvs: seq<KeyValue>, rest: Bytes)
    requires ValidPairs(kvs)
    ensures ParsePairSeq(|kvs|, EncodePairSeq(kvs) + rest) == Done(kvs, rest)
  {
    hide ParsePair, EncodeText, IsText;
    if kvs != [] {
      var tail := EncodePairSeq(kvs[1..]) + rest;
      assert EncodePairSeq(kvs) + rest == EncodeText(kvs[0].key) + EncodeText(kvs[0].value) + tail;
      PairRoundTrip(kvs[0], tail);
      PairSeqRoundTrip(kvs[1..], rest);
      assert kvs == [kvs[0]] + kvs[1..];
    }
  }

  // ---- Counted arrays -----------------------------------------------------------------

  function EncodeTexts(ts: seq<Bytes>): Bytes { EncodeCount(|ts|) + EncodeTextSeq(ts) }

  function ParseTexts(s: Bytes): Parse<seq<Bytes>> {
    var (n, s1) :- ParseCount(s);
    ParseTextSeq(n, s1)
  }

  function EncodePairs(kvs: seq<KeyValue>): Bytes { EncodeCount(|kvs|) + EncodePairSeq(kvs) }

  function ParsePairs(s: Bytes): Parse<seq<KeyValue>> {
    var (n, s1) :- ParseCount(s);
    ParsePairSeq(n, s1)
  }

  lemma TextsCanonical(s: Bytes)
    requires ParseTexts(s).Done?
    ensures var p := ParseTexts(s);
            |p.value| <= INT32_MAX && ValidTexts(p.value) && s == EncodeTexts(p.value) + p.rest
  {
    hide ParseCount, EncodeCount, ParseTextSeq, EncodeTextSeq, ValidTexts;
    var n := ParseCount(s);
    CountCanonical(s);
    TextSeqCanonical(n.value, n.rest);
  }

  lemma TextsRoundTrip(ts: seq<Bytes>, rest: Bytes)
    requires |ts| <= INT32_MAX && ValidTexts(ts)
    ensures ParseTexts(EncodeTexts(ts) + rest) == Done(ts, rest)
  {
    hide ParseCount, EncodeCount, ParseTextSeq, EncodeTextSeq, ValidTexts;
    assert EncodeTexts(ts) + rest == EncodeCount(|ts|) + (EncodeTextSeq(ts) + rest);
    CountRoundTrip(|ts|, EncodeTextSeq(ts) + rest);
    TextSeqRoundTrip(ts, rest);
  }

  lemma PairsCanonical(s: Bytes)
    requires ParsePairs(s).Done?
    ensures var p := ParsePairs(s);
            |p.value| <= INT32_MAX && ValidPairs(p.value) && s == EncodePairs(p.value) + p.rest
  {
    hide ParseCount, EncodeCount, ParsePairSeq, EncodePairSeq, ValidPairs;
    var n := ParseCount(s);
    CountCanonical(s);
    PairSeqCanonical(n.value, n.rest);
  }

  lemma PairsRoundTrip(kvs: seq<KeyValue>, rest: Bytes)
    requires |kvs| <= INT32_MAX && ValidPairs(kvs)
    ensures ParsePairs(EncodePairs(kvs) + rest) == Done(kvs, rest)
  {
    hide ParseCount, EncodeCount, ParsePairSeq, EncodePairSeq, ValidPairs;
    assert EncodePairs(kvs) + rest == EncodeCount(|kvs|) + (EncodePairSeq(kvs) + rest);
    CountRoundTrip(|kvs|, EncodePairSeq(kvs) + rest);
    PairSeqRoundTrip(kvs, rest);
  }

  lemma {:induction false} PairSeqSize(kvs: seq<KeyValue>)
    ensures |EncodePairSeq(kvs)| >= 4 * |kvs|
  {
    if kvs != [] {
      PairSeqSize(kvs[1..]);
    }
  }

  /** A count is never read that the bytes behind it cannot hold: `c` pairs take 4 + 4c bytes. */
  lemma PairsConsume(s: Bytes)
    requires ParsePairs(s).Done?
    ensures |s| - |ParsePairs(s).rest| >= 4 + 4 * |ParsePairs(s).value|
  {
    hide ParsePairs, ValidPairs, EncodePairSeq;
    PairsCanonical(s);
    PairSeqSize(ParsePairs(s).value);
  }
}
