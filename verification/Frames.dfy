/** The frame envelope: its grammar, its encoders, and the reader proved to parse exactly it. */
module Frames {
  import opened Base
  import opened BigEndian
  import opened Wire
  import opened Buffers
  import Codec

  const RESPONSE_BIT: u16 := 0x8000

  predicate IsResponse(key: u16) { key >= RESPONSE_BIT }

  /** Sets the response bit. */
  function ResponseOf(key: u16): u16 { if IsResponse(key) then key else key + RESPONSE_BIT }

  /** Clears the response bit. */
  function RequestOf(key: u16): u16 { key % RESPONSE_BIT }

  datatype IncomingFrame = IncomingFrame(key: u16, version: u16, body: Bytes, correlationId: Option<u32>)

  // ---- The grammar --------------------------------------------------------------

  function HeaderBytes(key: u16, version: u16): Bytes { Encode(SHORT, key) + Encode(SHORT, version) }

  function Correlation(cid: Option<u32>): Bytes {
    if cid.Some? then Encode(WORD, cid.value) else []
  }

  function Payload(key: u16, version: u16, cid: Option<u32>, body: Bytes): Bytes {
    HeaderBytes(key, version) + (Correlation(cid) + body)
  }

  /** A size field, narrowed to 32 bits, and the payload. */
  function Envelope(payload: Bytes): Bytes { Encode(WORD, ToU32(|payload|)) + payload }

  function EncodeFrame(f: IncomingFrame): Bytes {
    Envelope(Payload(f.key, f.version, f.correlationId, f.body))
  }

  /** Responses carry a correlation id, one-way frames do not, and the size fits its field. */
  predicate WellFormed(f: IncomingFrame) {
    && (IsResponse(f.key) <==> f.correlationId.Some?)
    && |Payload(f.key, f.version, f.correlationId, f.body)| < TWO_32
  }

  function ParsePayload(p: Bytes): Parse<IncomingFrame> {
    var (key, p1) :- ParseUInt(SHORT, p);
    var (version, p2) :- ParseUInt(SHORT, p1);
    Widths();
    if IsResponse(key) then
      var (cid, body) :- ParseUInt(WORD, p2);
      Done(IncomingFrame(key, version, body, Some(cid)), [])
    else
      Done(IncomingFrame(key, version, p2, None), [])
  }

  /** A frame is a size field and that many payload bytes, and the payload is read by itself. */
  function ParseFrame(s: Bytes): (p: Parse<IncomingFrame>)
    ensures p.Done? ==> |p.rest| < |s|
  {
    var (size, s1) :- ParseUInt(WORD, s);
    if size < 4 then Fail(ProtocolViolation)
    else
      var (payload, rest) :- Take(size, s1);
      var (f, _) :- ParsePayload(payload);
      Done(f, rest)
  }

  lemma PayloadCanonical(p: Bytes)
    requires ParsePayload(p).Done?
    ensures var f := ParsePayload(p).value;
            && p == Payload(f.key, f.version, f.correlationId, f.body)
            && (IsResponse(f.key) <==> f.correlationId.Some?)
  {
    hide Value, Encode, Pow256;
    Widths();
    var k := ParseUInt(SHORT, p);
    UIntExact(SHORT, p, k.value, k.rest);
    var v := ParseUInt(SHORT, k.rest);
    UIntExact(SHORT, k.rest, v.value, v.rest);
    if IsResponse(k.value) {
      var c := ParseUInt(WORD, v.rest);
      UIntExact(WORD, v.rest, c.value, c.rest);
    }
  }

  lemma PayloadRoundTrip(f: IncomingFrame)
    requires IsResponse(f.key) <==> f.correlationId.Some?
    ensures ParsePayload(Payload(f.key, f.version, f.correlationId, f.body)) == Done(f, [])
  {
    hide Value, Encode, Pow256;
    Widths();
    var tail := Correlation(f.correlationId) + f.body;
    var p := Payload(f.key, f.version, f.correlationId, f.body);
    assert p == Encode(SHORT, f.key) + (Encode(SHORT, f.version) + tail);
    UIntExact(SHORT, p, f.key, Encode(SHORT, f.version) + tail);
    UIntExact(SHORT, Encode(SHORT, f.version) + tail, f.version, tail);
    if f.correlationId.Some? {
      UIntExact(WORD, tail, f.correlationId.value, f.body);
    } else {
      assert tail == f.body;
    }
  }

  lemma FrameCanonical(s: Bytes)
    requires ParseFrame(s).Done?
    ensures var p := ParseFrame(s); WellFormed(p.value) && s == EncodeFrame(p.value) + p.rest
  {
    hide Value, Encode, Pow256, ParsePayload, Payload;
    Widths();
    var size := ParseUInt(WORD, s);
    UIntExact(WORD, s, size.value, size.rest);
    var payload := size.rest[..size.value];
    PayloadCanonical(payload);
    assert size.rest == payload + size.rest[size.value..];
  }

  lemma FrameRoundTrip(f: IncomingFrame, rest: Bytes)
    requires WellFormed(f)
    ensures ParseFrame(EncodeFrame(f) + rest) == Done(f, rest)
  {
    var payload := Payload(f.key, f.version, f.correlationId, f.body);
    assert 4 <= |payload| < TWO_32;
    assert |payload| < Pow256(WORD) by { Widths(); }
    assert EncodeFrame(f) == Encode(WORD, |payload|) + payload;
    hide Value, Encode, Pow256, ParsePayload, Payload, EncodeFrame, WellFormed, ParseUInt;
    PayloadRoundTrip(f);
    FramedPrefix(WORD, payload, rest);
    TakeFront(payload, rest);
  }

  /** The parser accepts exactly the encodings of well-formed frames. */
  lemma FrameExact(s: Bytes, f: IncomingFrame, rest: Bytes)
    ensures ParseFrame(s) == Done(f, rest) <==> WellFormed(f) && s == EncodeFrame(f) + rest
  {
    hide ParseFrame, EncodeFrame, WellFormed;
    if ParseFrame(s).Done? { FrameCanonical(s); }
    if WellFormed(f) { FrameRoundTrip(f, rest); }
  }

  // ---- Streams of frames ----------------------------------------------------------

  function EncodeAll(fs: seq<IncomingFrame>): Bytes {
    if fs == [] then [] else EncodeFrame(fs[0]) + EncodeAll(fs[1..])
  }

  /** Every frame at the front of `s`, in order, up to the first that cannot be parsed. */
  function ParseAll(s: Bytes): seq<IncomingFrame>
    decreases |s|
  {
    match ParseFrame(s)
    case Fail(_) => []
    case Done(f, rest) => [f] + ParseAll(rest)
  }

  /** Any concatenation of well-formed frames is read back frame by frame. */
  lemma {:induction false} StreamRoundTrip(fs: seq<IncomingFrame>, tail: Bytes)
    requires forall f | f in fs :: WellFormed(f)
    ensures ParseAll(EncodeAll(fs) + tail) == fs + ParseAll(tail)
  {
    hide ParseFrame, EncodeFrame, WellFormed, ParsePayload, Payload;
    if fs == [] {
      assert EncodeAll(fs) + tail == tail;
    } else {
      var s := EncodeAll(fs[1..]) + tail;
      assert EncodeAll(fs) + tail == EncodeFrame(fs[0]) + s;
      FrameRoundTrip(fs[0], s);
      assert ParseAll(EncodeAll(fs) + tail) == [fs[0]] + ParseAll(s);
      StreamRoundTrip(fs[1..], tail);
      assert fs == [fs[0]] + fs[1..];
    }
  }

  // ---- The envelope's code ----------------------------------------------------------

  method EncodeRequestFrame(key: u16, version: u16, cid: u32, body: Bytes) returns (frame: Bytes)
    ensures frame == Envelope(Payload(key, version, Some(cid), body))
  {
    hide Encode;
    var w := new BufferWriter();
    w.WriteRaw([]);
    var inner := new BufferWriter();
    Codec.WriteU16(inner, key);
    Codec.WriteU16(inner, version);
    Codec.WriteU32(inner, cid);
    if body != [] {
      inner.WriteRaw(body);
    }
    var innerBytes := inner.Take();
    assert innerBytes == Payload(key, version, Some(cid), body);
    Codec.WriteU32(w, ToU32(|innerBytes|));
    w.WriteRaw(innerBytes);
    frame := w.Take();
  }

  method EncodeOnewayFrame(key: u16, version: u16, body: Bytes) returns (frame: Bytes)
    ensures frame == Envelope(Payload(key, version, None, body))
  {
    hide Encode;
    var inner := new BufferWriter();
    Codec.WriteU16(inner, key);
    Codec.WriteU16(inner, version);
    if body != [] {
      inner.WriteRaw(body);
    }
    var innerBytes := inner.Take();
    assert innerBytes == Payload(key, version, None, body);
    var w := new BufferWriter();
    Codec.WriteU32(w, ToU32(|innerBytes|));
    w.WriteRaw(innerBytes);
    frame := w.Take();
  }

  lemma UIntOfPrefix(n: nat, s: Bytes, k: nat)
    requires n <= k <= |s|
    ensures ParseUInt(n, s).Done? && ParseUInt(n, s).rest == s[n..]
    ensures ParseUInt(n, s[..k]) == Done(ParseUInt(n, s).value, s[n..k])
  {
    assert s[..k][..n] == s[..n] && s[..k][n..] == s[n..k];
  }

  datatype Header = Header(key: u16, version: u16, correlationId: Option<u32>)

  /** Key, version and, behind a response key, the correlation id, read off a whole buffer. */
  function ParseHeader(s: Bytes): Parse<Header> {
    var (key, s1) :- ParseUInt(SHORT, s);
    var (version, s2) :- ParseUInt(SHORT, s1);
    Widths();
    if IsResponse(key) then
      var (cid, s3) :- ParseUInt(WORD, s2);
      Done(Header(key, version, Some(cid)), s3)
    else
      Done(Header(key, version, None), s2)
  }

  /** What a header read off the whole buffer means for the payload at its front. */
  lemma PayloadFromHeader(s: Bytes, size: nat)
    requires 4 <= size <= |s|
    ensures match ParseHeader(s)
            case Fail(kind) => ParsePayload(s[..size]) == Fail(DecodeError) && kind == DecodeError
            case Done(h, rest) =>
              var n := |s| - |rest|;
              && 4 <= n <= 8 && n <= |s| && rest == s[n..]
              && ParsePayload(s[..size])
                 == if size < n then Fail(DecodeError)
                    else Done(IncomingFrame(h.key, h.version, s[n..size], h.correlationId), [])
  {
    hide Value, Pow256;
    Widths();
    UIntOfPrefix(SHORT, s, size);
    UIntOfPrefix(SHORT, s[2..], size - 2);
    assert s[2..][2..] == s[4..] && s[2..][..size - 2] == s[2..size] && s[2..][2..size - 2] == s[4..size];
    if size >= 8 {
      UIntOfPrefix(WORD, s[4..], size - 4);
    }
    if |s| >= 8 {
      assert s[4..][4..] == s[8..];
      assert size >= 8 ==> s[4..][..size - 4] == s[4..size] && s[4..][4..size - 4] == s[8..size];
    }
  }

  /** A response too short for its correlation id is rejected, whatever bytes follow it. */
  lemma ShortResponse(key: u16, version: u16, size: u32, rest: Bytes)
    requires IsResponse(key) && 4 <= size < 8
    ensures ParseFrame(Encode(WORD, size) + HeaderBytes(key, version) + rest) == Fail(DecodeError)
  {
    hide Encode, Value, Pow256;
    Widths();
    var s := Encode(WORD, size) + HeaderBytes(key, version) + rest;
    var behind := Encode(SHORT, key) + (Encode(SHORT, version) + rest);
    assert s == Encode(WORD, size) + behind;
    UIntExact(WORD, s, size, behind);
    if size <= |behind| {
      var p, tail := behind[..size], rest[..size - 4];
      assert p == Encode(SHORT, key) + (Encode(SHORT, version) + tail);
      UIntExact(SHORT, p, key, Encode(SHORT, version) + tail);
      UIntExact(SHORT, Encode(SHORT, version) + tail, version, tail);
    }
  }

  /**
   Reads one frame. The cursor runs over the whole buffer, not over the frame alone, and the
   body length is computed in 64-bit arithmetic that wraps when the header overran the frame.
   */
  method ReadFrameAuto(r: BufferReader) returns (res: Result<IncomingFrame>)
    requires r.Valid()
    modifies r
    ensures r.Valid() && Agrees(ParseFrame(old(r.Unread())), res, r.Unread())
    ensures res.Ok? ==> r.pos == old(r.pos) + |EncodeFrame(res.value)|
  {
    ghost var s := r.Unread();
    if ParseFrame(s).Done? { FrameCanonical(s); }
    hide Value, Pow256, Encode, ParsePayload, EncodeFrame, WellFormed;
    var declared :- Codec.ReadU32(r);
    if declared < 4 {
      return Err(Error(ProtocolViolation));
    }
    var remaining := r.Remaining();
    if declared > remaining {
      return Err(Error(DecodeError));
    }
    res := ReadPayload(r, declared);
  }

  /**
   The part behind the size field. The cursor runs over the whole buffer, not over the frame
   alone, and the body length is computed in 64-bit arithmetic that wraps when the header
   overran the frame.
   */
  method ReadPayload(r: BufferReader, declared: u32) returns (res: Result<IncomingFrame>)
    requires r.Valid() && 4 <= declared <= |r.Unread()|
    modifies r
    ensures r.Valid()
    ensures match ParsePayload(old(r.Unread())[..declared])
            case Done(f, _) => res == Ok(f) && r.Unread() == old(r.Unread())[declared..]
            case Fail(kind) => res == Err(Error(kind))
  {
    ghost var s := r.Unread();
    PayloadFromHeader(s, declared);
    hide ParsePayload, ParseHeader, SizeMinus;
    var start := r.pos;
    var h :- ReadHeader(r);
    var consumed := r.pos - start;
    var bodyLength := SizeMinus(declared, consumed);
    var body :- r.Borrow(bodyLength);
    assert body == s[consumed..declared] && r.Unread() == s[declared..];
    res := Ok(IncomingFrame(h.key, h.version, body, h.correlationId));
  }

  /** Subtraction of unsigned 64-bit sizes, which wraps below zero. */
  function SizeMinus(a: nat, b: nat): (d: nat)
    requires a < TWO_64 && b < TWO_64
    ensures d == if a >= b then a - b else TWO_64 - (b - a)
  {
    (a - b) % TWO_64
  }

  method ReadHeader(r: BufferReader) returns (res: Result<Header>)
    requires r.Valid()
    modifies r
    ensures r.Valid() && Agrees(ParseHeader(old(r.Unread())), res, r.Unread())
  {
    hide ParseUInt;
    var key :- Codec.ReadU16(r);
    var version :- Codec.ReadU16(r);
    var cid: Option<u32> := None;
    if IsResponse(key) {
      var c :- Codec.ReadU32(r);
      cid := Some(c);
    }
    res := Ok(Header(key, version, cid));
  }

  /** May a frame of `size` bytes be sent under the limit `frameMax`, where 0 is no limit? */
  predicate Fits(size: nat, frameMax: u32) { frameMax == 0 || size <= frameMax }

  method CheckOutboundFrameSize(size: nat, frameMax: u32) returns (r: Result<()>)
    ensures r == if Fits(size, frameMax) then Ok(()) else Err(Error(ProtocolViolation))
  {
    if frameMax == 0 {
      return Ok(());
    }
    if size > frameMax {
      return Err(Error(ProtocolViolation));
    }
    r := Ok(());
  }
}
