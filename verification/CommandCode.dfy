/**
 The code of the command structs: every `encode_body` and `decode_body`, proved to write and to
 read the body that the grammar assigns to the command's key.
 */
module CommandCode {
  import opened Base
  import opened BigEndian
  import opened Wire
  import opened Frames
  import opened Buffers
  import opened Commands
  import Codec

  // ---- Array helpers --------------------------------------------------------------

  method EncodeKvArray(w: BufferWriter, kvs: seq<KeyValue>)
    modifies w
    ensures w.data == old(w.data) + EncodePairs(kvs)
  {
    hide EncodeText, EncodeCount;
    Codec.WriteArrayPrefix(w, |kvs|);
    ghost var all := w.data + EncodePairSeq(kvs);
    for i := 0 to |kvs|
      invariant w.data + EncodePairSeq(kvs[i..]) == all
    {
      assert kvs[i..][1..] == kvs[i + 1..];
      Codec.WriteString(w, kvs[i].key);
      Codec.WriteString(w, kvs[i].value);
    }
    assert kvs[|kvs|..] == [];
    assert all == old(w.data) + EncodePairs(kvs);
  }

  method EncodeStrings(w: BufferWriter, ts: seq<Bytes>)
    modifies w
    ensures w.data == old(w.data) + EncodeTexts(ts)
  {
    hide EncodeText, EncodeCount;
    Codec.WriteArrayPrefix(w, |ts|);
    ghost var all := w.data + EncodeTextSeq(ts);
    for i := 0 to |ts|
      invariant w.data + EncodeTextSeq(ts[i..]) == all
    {
      assert ts[i..][1..] == ts[i + 1..];
      Codec.WriteString(w, ts[i]);
    }
    assert ts[|ts|..] == [];
    assert all == old(w.data) + EncodeTexts(ts);
  }

  /** What is still to be parsed, behind the elements collected so far. */
  ghost function Behind<T>(out: seq<T>, p: Parse<seq<T>>): Parse<seq<T>> {
    match p
    case Done(v, rest) => Done(out + v, rest)
    case Fail(kind) => Fail(kind)
  }

  method DecodeKvArray(r: BufferReader) returns (res: Result<seq<KeyValue>>)
    requires r.Valid()
    modifies r
    ensures r.Valid() && Agrees(ParsePairs(old(r.Unread())), res, r.Unread())
  {
    hide ParseText, ParseCount;
    ghost var whole := ParsePairs(r.Unread());
    var count :- Codec.ReadArrayPrefix(r);
    var out: seq<KeyValue> := [];
    assert forall t: seq<KeyValue> :: out + t == t;
    for i := 0 to count
      invariant r.Valid()
      invariant whole == Behind(out, ParsePairSeq(count - i, r.Unread()))
    {
      var k :- Codec.ReadStringRequired(r);
      var v :- Codec.ReadStringRequired(r);
      ghost var before := out;
      out := out + [KeyValue(k, v)];
      assert forall t: seq<KeyValue> :: before + ([KeyValue(k, v)] + t) == out + t;
    }
    assert out + [] == out;
    res := Ok(out);
  }

  method DecodeStrings(r: BufferReader) returns (res: Result<seq<Bytes>>)
    requires r.Valid()
    modifies r
    ensures r.Valid() && Agrees(ParseTexts(old(r.Unread())), res, r.Unread())
  {
    hide ParseText, ParseCount;
    ghost var whole := ParseTexts(r.Unread());
    var count :- Codec.ReadArrayPrefix(r);
    var out: seq<Bytes> := [];
    assert forall t: seq<Bytes> :: out + t == t;
    for i := 0 to count
      invariant r.Valid()
      invariant whole == Behind(out, ParseTextSeq(count - i, r.Unread()))
    {
      var s :- Codec.ReadStringRequired(r);
      ghost var before := out;
      out := out + [s];
      assert forall t: seq<Bytes> :: before + ([s] + t) == out + t;
    }
    assert out + [] == out;
    res := Ok(out);
  }

  // ---- Encoders -------------------------------------------------------------------

  /** The structs of commands/handshake.hpp; the others are those of commands/lifecycle.hpp. */
  predicate IsHandshake(c: Command) {
    || c.PeerPropertiesRequest? || c.PeerPropertiesResponse? || c.SaslHandshakeRequest? || c.SaslHandshakeResponse?
    || c.SaslAuthenticateRequest? || c.SaslAuthenticateResponse? || c.Tune? || c.OpenRequest? || c.OpenResponse?
    || c.CloseRequest? || c.CloseResponse? || c.Heartbeat?
  }

  method EncodeHandshake(c: Command, w: BufferWriter)
    requires IsHandshake(c)
    modifies w
    ensures w.data == old(w.data) + EncodeBody(c)
  {
    hide Encode, EncodeText, EncodeBlob, EncodePairs, EncodeTexts, EncodeItems;
    ghost var pre := w.data;
    match c
    case PeerPropertiesRequest(properties) =>
      EncodeKvArray(w, properties);
      AppendOne(pre, Pairs(properties));
    case PeerPropertiesResponse(code, properties) =>
      Codec.WriteU16(w, code);
      EncodeKvArray(w, properties);
      AppendTwo(pre, UInt(SHORT, code), Pairs(properties));
    case SaslHandshakeRequest =>
      AppendNone(pre);
    case SaslHandshakeResponse(code, mechanisms) =>
      Codec.WriteU16(w, code);
      EncodeStrings(w, mechanisms);
      AppendTwo(pre, UInt(SHORT, code), Texts(mechanisms));
    case SaslAuthenticateRequest(mechanism, opaqueData) =>
      Codec.WriteString(w, mechanism);
      Codec.WriteBytesRaw(w, opaqueData);
      AppendTwo(pre, Text(mechanism), Blob(Some(opaqueData)));
    case SaslAuthenticateResponse(code, challenge) =>
      Codec.WriteU16(w, code);
      Codec.WriteBytes(w, challenge);
      AppendTwo(pre, UInt(SHORT, code), Blob(challenge));
    case Tune(frameMax, heartbeat) =>
      Codec.WriteU32(w, frameMax);
      Codec.WriteU32(w, heartbeat);
      AppendTwo(pre, UInt(WORD, frameMax), UInt(WORD, heartbeat));
    case OpenRequest(virtualHost) =>
      Codec.WriteString(w, virtualHost);
      AppendOne(pre, Text(virtualHost));
    case OpenResponse(code, properties) =>
      Codec.WriteU16(w, code);
      EncodeKvArray(w, properties);
      AppendTwo(pre, UInt(SHORT, code), Pairs(properties));
    case CloseRequest(code, reason) =>
      Codec.WriteU16(w, code);
      Codec.WriteString(w, reason);
      AppendTwo(pre, UInt(SHORT, code), Text(reason));
    case CloseResponse(code) =>
      Codec.WriteU16(w, code);
      AppendOne(pre, UInt(SHORT, code));
    case Heartbeat =>
      AppendNone(pre);
  }

  method EncodeLifecycle(c: Command, w: BufferWriter)
    requires !IsHandshake(c)
    modifies w
    ensures w.data == old(w.data) + EncodeBody(c)
  {
    hide Encode, EncodeText, EncodeBlob, EncodePairs, EncodeTexts, EncodeItems;
    ghost var pre := w.data;
    match c
    case CreateRequest(stream, properties) =>
      Codec.WriteString(w, stream);
      EncodeKvArray(w, properties);
      AppendTwo(pre, Text(stream), Pairs(properties));
    case CreateResponse(code) =>
      Codec.WriteU16(w, code);
      AppendOne(pre, UInt(SHORT, code));
    case DeleteRequest(stream) =>
      Codec.WriteString(w, stream);
      AppendOne(pre, Text(stream));
    case DeleteResponse(code) =>
      Codec.WriteU16(w, code);
      AppendOne(pre, UInt(SHORT, code));
    case StoreOffset(reference, stream, offset) =>
      Codec.WriteString(w, reference);
      Codec.WriteString(w, stream);
      Codec.WriteU64(w, offset);
      AppendThree(pre, Text(reference), Text(stream), UInt(LONG, offset));
    case QueryOffsetRequest(reference, stream) =>
      Codec.WriteString(w, reference);
      Codec.WriteString(w, stream);
      AppendTwo(pre, Text(reference), Text(stream));
    case QueryOffsetResponse(code, offset) =>
      Codec.WriteU16(w, code);
      Codec.WriteU64(w, offset);
      AppendTwo(pre, UInt(SHORT, code), UInt(LONG, offset));
    case QueryPublisherRequest(reference, stream) =>
      Codec.WriteString(w, reference);
      Codec.WriteString(w, stream);
      AppendTwo(pre, Text(reference), Text(stream));
    case QueryPublisherResponse(code, offset) =>
      Codec.WriteU16(w, code);
      Codec.WriteU64(w, offset);
      AppendTwo(pre, UInt(SHORT, code), UInt(LONG, offset));
  }

  lemma AppendNone(pre: Bytes)
    ensures pre == pre + EncodeItems([])
  {}

  // ---- Decoders -------------------------------------------------------------------

  method DecodePeerPropertiesRequest(r: BufferReader) returns (res: Result<Command>)
    requires r.Valid()
    modifies r
    ensures r.Valid() && Agrees(ParseBody(PEER_PROPERTIES, old(r.Unread())), res, r.Unread())
  {
    hide ParseItems, ParsePairs;
    UnrollOne(PairsField, r.Unread());
    var kvs :- DecodeKvArray(r);
    res := Ok(PeerPropertiesRequest(kvs));
  }

  method DecodePeerPropertiesResponse(r: BufferReader) returns (res: Result<Command>)
    requires r.Valid()
    modifies r
    ensures r.Valid() && Agrees(ParseBody(ResponseOf(PEER_PROPERTIES), old(r.Unread())), res, r.Unread())
  {
    hide ParseItems, ParsePairs, ParseUInt;
    UnrollTwo(UIntField(SHORT), PairsField, r.Unread());
    var code :- Codec.ReadU16(r);
    var kvs :- DecodeKvArray(r);
    res := Ok(PeerPropertiesResponse(code, kvs));
  }

  /** SaslHandshakeRequest and Heartbeat, which have no fields. */
  method DecodeEmpty(key: u16, r: BufferReader) returns (res: Result<Command>)
    requires r.Valid() && (key == SASL_HANDSHAKE || key == HEARTBEAT)
    modifies r
    ensures r.Valid() && Agrees(ParseBody(key, old(r.Unread())), res, r.Unread())
  {
    assert ParseItems([], r.Unread()) == Done([], r.Unread());
    hide ParseItems;
    res := Ok(if key == SASL_HANDSHAKE then SaslHandshakeRequest else Heartbeat);
  }

  method DecodeSaslHandshakeResponse(r: BufferReader) returns (res: Result<Command>)
    requires r.Valid()
    modifies r
    ensures r.Valid() && Agrees(ParseBody(ResponseOf(SASL_HANDSHAKE), old(r.Unread())), res, r.Unread())
  {
    hide ParseItems, ParseTexts, ParseUInt;
    UnrollTwo(UIntField(SHORT), TextsField, r.Unread());
    var code :- Codec.ReadU16(r);
    var mechanisms :- DecodeStrings(r);
    res := Ok(SaslHandshakeResponse(code, mechanisms));
  }

  method DecodeSaslAuthenticateRequest(r: BufferReader) returns (res: Result<Command>)
    requires r.Valid()
    modifies r
    ensures r.Valid() && Agrees(ParseBody(SASL_AUTHENTICATE, old(r.Unread())), res, r.Unread())
  {
    hide ParseBlob, ParseItems, ParseText;
    UnrollTwo(TextField, BlobField, r.Unread());
    var mechanism :- Codec.ReadStringRequired(r);
    var data :- Codec.ReadBytes(r);
    res := Ok(SaslAuthenticateRequest(mechanism, if data.Some? then data.value else []));
  }

  method DecodeSaslAuthenticateResponse(r: BufferReader) returns (res: Result<Command>)
    requires r.Valid()
    modifies r
    ensures r.Valid() && Agrees(ParseBody(ResponseOf(SASL_AUTHENTICATE), old(r.Unread())), res, r.Unread())
  {
    hide ParseBlob, ParseItems, ParseUInt;
    UnrollTwo(UIntField(SHORT), BlobField, r.Unread());
    var code :- Codec.ReadU16(r);
    var left := r.Remaining();
    if left == 0 {
      assert r.Unread() == [];
      return Ok(SaslAuthenticateResponse(code, None));
    }
    var data :- Codec.ReadBytes(r);
    res := Ok(SaslAuthenticateResponse(code, data));
  }

  method DecodeTune(r: BufferReader) returns (res: Result<Command>)
    requires r.Valid()
    modifies r
    ensures r.Valid() && Agrees(ParseBody(TUNE, old(r.Unread())), res, r.Unread())
  {
    hide ParseItems, ParseUInt;
    UnrollTwo(UIntField(WORD), UIntField(WORD), r.Unread());
    var frameMax :- Codec.ReadU32(r);
    var heartbeat :- Codec.ReadU32(r);
    res := Ok(Tune(frameMax, heartbeat));
  }

  method DecodeOpenResponse(r: BufferReader) returns (res: Result<Command>)
    requires r.Valid()
    modifies r
    ensures r.Valid() && Agrees(ParseBody(ResponseOf(OPEN), old(r.Unread())), res, r.Unread())
  {
    hide ParseItems, ParsePairs, ParseUInt;
    UnrollTwo(UIntField(SHORT), PairsField, r.Unread());
    var code :- Codec.ReadU16(r);
    var left := r.Remaining();
    if left == 0 {
      assert r.Unread() == [];
      return Ok(OpenResponse(code, []));
    }
    var kvs :- DecodeKvArray(r);
    res := Ok(OpenResponse(code, kvs));
  }

  method DecodeCloseRequest(r: BufferReader) returns (res: Result<Command>)
    requires r.Valid()
    modifies r
    ensures r.Valid() && Agrees(ParseBody(CLOSE, old(r.Unread())), res, r.Unread())
  {
    hide ParseItems, ParseText, ParseUInt;
    UnrollTwo(UIntField(SHORT), TextField, r.Unread());
    var code :- Codec.ReadU16(r);
    var reason :- Codec.ReadStringRequired(r);
    res := Ok(CloseRequest(code, reason));
  }

  method DecodeCreateRequest(r: BufferReader) returns (res: Result<Command>)
    requires r.Valid()
    modifies r
    ensures r.Valid() && Agrees(ParseBody(CREATE, old(r.Unread())), res, r.Unread())
  {
    hide ParseItems, ParsePairs, ParseText;
    UnrollTwo(TextField, PairsField, r.Unread());
    var stream :- Codec.ReadStringRequired(r);
    var args :- DecodeKvArray(r);
    res := Ok(CreateRequest(stream, args));
  }

  /** OpenRequest and DeleteRequest, which are one string. */
  method DecodeName(key: u16, r: BufferReader) returns (res: Result<Command>)
    requires r.Valid() && (key == OPEN || key == DELETE)
    modifies r
    ensures r.Valid() && Agrees(ParseBody(key, old(r.Unread())), res, r.Unread())
  {
    hide ParseItems, ParseText;
    UnrollOne(TextField, r.Unread());
    var name :- Codec.ReadStringRequired(r);
    res := Ok(if key == OPEN then OpenRequest(name) else DeleteRequest(name));
  }

  /** CloseResponse, CreateResponse and DeleteResponse, which are a response code. */
  method DecodeCode(key: u16, r: BufferReader) returns (res: Result<Command>)
    requires r.Valid() && (key == ResponseOf(CLOSE) || key == ResponseOf(CREATE) || key == ResponseOf(DELETE))
    modifies r
    ensures r.Valid() && Agrees(ParseBody(key, old(r.Unread())), res, r.Unread())
  {
    hide ParseItems, ParseUInt;
    UnrollOne(UIntField(SHORT), r.Unread());
    var code :- Codec.ReadU16(r);
    res := Ok(if key == ResponseOf(CLOSE) then CloseResponse(code)
              else if key == ResponseOf(CREATE) then CreateResponse(code) else DeleteResponse(code));
  }

  method DecodeStoreOffset(r: BufferReader) returns (res: Result<Command>)
    requires r.Valid()
    modifies r
    ensures r.Valid() && Agrees(ParseBody(STORE_OFFSET, old(r.Unread())), res, r.Unread())
  {
    hide ParseItems, ParseText, ParseUInt;
    UnrollThree(TextField, TextField, UIntField(LONG), r.Unread());
    var reference :- Codec.ReadStringRequired(r);
    var stream :- Codec.ReadStringRequired(r);
    var offset :- Codec.ReadU64(r);
    res := Ok(StoreOffset(reference, stream, offset));
  }

  /** QueryOffsetRequest and QueryPublisherRequest. */
  method DecodeReferenceAndStream(key: u16, r: BufferReader) returns (res: Result<Command>)
    requires r.Valid() && (key == QUERY_OFFSET || key == QUERY_PUBLISHER)
    modifies r
    ensures r.Valid() && Agrees(ParseBody(key, old(r.Unread())), res, r.Unread())
  {
    hide ParseItems, ParseText;
    UnrollTwo(TextField, TextField, r.Unread());
    var reference :- Codec.ReadStringRequired(r);
    var stream :- Codec.ReadStringRequired(r);
    res := Ok(if key == QUERY_OFFSET then QueryOffsetRequest(reference, stream)
              else QueryPublisherRequest(reference, stream));
  }

  /** QueryOffsetResponse and QueryPublisherResponse. */
  method DecodeCodeAndCount(key: u16, r: BufferReader) returns (res: Result<Command>)
    requires r.Valid() && (key == ResponseOf(QUERY_OFFSET) || key == ResponseOf(QUERY_PUBLISHER))
    modifies r
    ensures r.Valid() && Agrees(ParseBody(key, old(r.Unread())), res, r.Unread())
  {
    hide ParseItems, ParseUInt;
    UnrollTwo(UIntField(SHORT), UIntField(LONG), r.Unread());
    var code :- Codec.ReadU16(r);
    var n :- Codec.ReadU64(r);
    res := Ok(if key == ResponseOf(QUERY_OFFSET) then QueryOffsetResponse(code, n)
              else QueryPublisherResponse(code, n));
  }
}
