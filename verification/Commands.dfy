/**
 The bodies of the 21 command structs as a grammar: which fields a command key announces, how
 they are laid out, and the theorem that decoding inverts encoding, with its exact exceptions.
 */
module Commands {
  import opened Base
  import opened BigEndian
  import opened Wire
  import opened Frames

  const QUERY_PUBLISHER: u16 := 0x0005
  const STORE_OFFSET: u16 := 0x000A
  const QUERY_OFFSET: u16 := 0x000B
  const CREATE: u16 := 0x000D
  const DELETE: u16 := 0x000E
  const METADATA_UPDATE: u16 := 0x0010
  const PEER_PROPERTIES: u16 := 0x0011
  const SASL_HANDSHAKE: u16 := 0x0012
  const SASL_AUTHENTICATE: u16 := 0x0013
  const TUNE: u16 := 0x0014
  const OPEN: u16 := 0x0015
  const CLOSE: u16 := 0x0016
  const HEARTBEAT: u16 := 0x0017

  datatype Command =
    | PeerPropertiesRequest(properties: seq<KeyValue>)
    | PeerPropertiesResponse(code: u16, properties: seq<KeyValue>)
    | SaslHandshakeRequest
    | SaslHandshakeResponse(code: u16, mechanisms: seq<Bytes>)
    | SaslAuthenticateRequest(mechanism: Bytes, opaqueData: Bytes)
    | SaslAuthenticateResponse(code: u16, challenge: Option<Bytes>)
    | Tune(frameMax: u32, heartbeat: u32)
    | OpenRequest(virtualHost: Bytes)
    | OpenResponse(code: u16, properties: seq<KeyValue>)
    | CloseRequest(code: u16, reason: Bytes)
    | CloseResponse(code: u16)
    | Heartbeat
    | CreateRequest(stream: Bytes, properties: seq<KeyValue>)
    | CreateResponse(code: u16)
    | DeleteRequest(stream: Bytes)
    | DeleteResponse(code: u16)
    | StoreOffset(reference: Bytes, stream: Bytes, offset: u64)
    | QueryOffsetRequest(reference: Bytes, stream: Bytes)
    | QueryOffsetResponse(code: u16, offset: u64)
    | QueryPublisherRequest(reference: Bytes, stream: Bytes)
    | QueryPublisherResponse(code: u16, offset: u64)

  function KeyOf(c: Command): u16 {
    match c
    case PeerPropertiesRequest(_) => PEER_PROPERTIES
    case PeerPropertiesResponse(_, _) => ResponseOf(PEER_PROPERTIES)
    case SaslHandshakeRequest => SASL_HANDSHAKE
    case SaslHandshakeResponse(_, _) => ResponseOf(SASL_HANDSHAKE)
    case SaslAuthenticateRequest(_, _) => SASL_AUTHENTICATE
    case SaslAuthenticateResponse(_, _) => ResponseOf(SASL_AUTHENTICATE)
    case Tune(_, _) => TUNE
    case OpenRequest(_) => OPEN
    case OpenResponse(_, _) => ResponseOf(OPEN)
    case CloseRequest(_, _) => CLOSE
    case CloseResponse(_) => ResponseOf(CLOSE)
    case Heartbeat => HEARTBEAT
    case CreateRequest(_, _) => CREATE
    case CreateResponse(_) => ResponseOf(CREATE)
    case DeleteRequest(_) => DELETE
    case DeleteResponse(_) => ResponseOf(DELETE)
    case StoreOffset(_, _, _) => STORE_OFFSET
    case QueryOffsetRequest(_, _) => QUERY_OFFSET
    case QueryOffsetResponse(_, _) => ResponseOf(QUERY_OFFSET)
    case QueryPublisherRequest(_, _) => QUERY_PUBLISHER
    case QueryPublisherResponse(_, _) => ResponseOf(QUERY_PUBLISHER)
  }

  // ---- Fields ---------------------------------------------------------------------

  datatype Field = UIntField(width: nat) | TextField | BlobField | TextsField | PairsField

  datatype Item =
    | UInt(width: nat, n: nat)
    | Text(t: Bytes)
    | Blob(b: Option<Bytes>)
    | Texts(ts: seq<Bytes>)
    | Pairs(kvs: seq<KeyValue>)

  function FieldOf(i: Item): Field {
    match i
    case UInt(w, _) => UIntField(w)
    case Text(_) => TextField
    case Blob(_) => BlobField
    case Texts(_) => TextsField
    case Pairs(_) => PairsField
  }

  /** What a value must meet for its encoding to be read back. */
  predicate ValidItem(i: Item) {
    match i
    case UInt(w, n) => n < Pow256(w)
    case Text(t) => ValidText(t)
    case Blob(b) => ValidBlob(b)
    case Texts(ts) => |ts| <= INT32_MAX && ValidTexts(ts)
    case Pairs(kvs) => |kvs| <= INT32_MAX && ValidPairs(kvs)
  }

  function EncodeItem(i: Item): Bytes {
    match i
    case UInt(w, n) => Encode(w, n)
    case Text(t) => EncodeText(t)
    case Blob(b) => EncodeBlob(b)
    case Texts(ts) => EncodeTexts(ts)
    case Pairs(kvs) => EncodePairs(kvs)
  }

  function ParseItem(f: Field, s: Bytes): (p: Parse<Item>)
    ensures p.Done? ==> FieldOf(p.value) == f
  {
    match f
    case UIntField(w) => var (n, rest) :- ParseUInt(w, s); Done(UInt(w, n), rest)
    case TextField => var (t, rest) :- ParseText(s); Done(Text(t), rest)
    case BlobField => var (b, rest) :- ParseBlob(s); Done(Blob(b), rest)
    case TextsField => var (ts, rest) :- ParseTexts(s); Done(Texts(ts), rest)
    case PairsField => var (kvs, rest) :- ParsePairs(s); Done(Pairs(kvs), rest)
  }

  lemma ItemCanonical(f: Field, s: Bytes)
    requires ParseItem(f, s).Done?
    ensures var p := ParseItem(f, s); ValidItem(p.value) && s == EncodeItem(p.value) + p.rest
  {
    hide Encode, Value, Pow256, ParseText, EncodeText, ParseBlob, EncodeBlob, ParseTexts, EncodeTexts,
         ParsePairs, EncodePairs, ValidTexts, ValidPairs, ValidText, ValidBlob;
    match f
    case UIntField(w) =>
      var p := ParseUInt(w, s);
      UIntExact(w, s, p.value, p.rest);
    case TextField => TextCanonical(s);
    case BlobField => BlobCanonical(s);
    case TextsField => TextsCanonical(s);
    case PairsField => PairsCanonical(s);
  }

  lemma ItemRoundTrip(i: Item, rest: Bytes)
    requires ValidItem(i)
    ensures ParseItem(FieldOf(i), EncodeItem(i) + rest) == Done(i, rest)
  {
    hide Encode, Value, Pow256, ParseText, EncodeText, ParseBlob, EncodeBlob, ParseTexts, EncodeTexts,
         ParsePairs, EncodePairs, ValidTexts, ValidPairs, ValidText, ValidBlob;
    match i
    case UInt(w, n) => UIntExact(w, EncodeItem(i) + rest, n, rest);
    case Text(t) => TextRoundTrip(t, rest);
    case Blob(b) => BlobRoundTrip(b, rest);
    case Texts(ts) => TextsRoundTrip(ts, rest);
    case Pairs(kvs) => PairsRoundTrip(kvs, rest);
  }

  // ---- Field lists ----------------------------------------------------------------

  predicate FitsLayout(items: seq<Item>, layout: seq<Field>) {
    |items| == |layout| && forall i | 0 <= i < |items| :: FieldOf(items[i]) == layout[i]
  }

  predicate ValidItems(items: seq<Item>) { forall i | 0 <= i < |items| :: ValidItem(items[i]) }

  function EncodeItems(items: seq<Item>): Bytes {
    if items == [] then [] else EncodeItem(items[0]) + EncodeItems(items[1..])
  }

  function ParseItems(layout: seq<Field>, s: Bytes): (p: Parse<seq<Item>>)
    ensures p.Done? ==> FitsLayout(p.value, layout)
  {
    if layout == [] then Done([], s)
    else
      var (i, s1) :- ParseItem(layout[0], s);
      var (items, s2) :- ParseItems(layout[1..], s1);
      Done([i] + items, s2)
  }

  lemma {:induction false} ItemsCanonical(layout: seq<Field>, s: Bytes)
    requires ParseItems(layout, s).Done?
    ensures var p := ParseItems(layout, s); ValidItems(p.value) && s == EncodeItems(p.value) + p.rest
  {
    hide ParseItem, EncodeItem, ValidItem, FieldOf, FitsLayout;
    if layout != [] {
      var p, head := ParseItems(layout, s), ParseItem(layout[0], s);
      ItemCanonical(layout[0], s);
      ItemsCanonical(layout[1..], head.rest);
      assert p.value[1..] == ParseItems(layout[1..], head.rest).value;
    }
  }

  lemma {:induction false} ItemsRoundTrip(items: seq<Item>, layout: seq<Field>, rest: Bytes)
    requires ValidItems(items) && FitsLayout(items, layout)
    ensures ParseItems(layout, EncodeItems(items) + rest) == Done(items, rest)
  {
    hide ParseItem, EncodeItem, ValidItem, FieldOf;
    if items != [] {
      var tail := EncodeItems(items[1..]) + rest;
      assert EncodeItems(items) + rest == EncodeItem(items[0]) + tail;
      ItemRoundTrip(items[0], tail);
      ItemsRoundTrip(items[1..], layout[1..], rest);
      assert items == [items[0]] + items[1..];
    }
  }

  // ---- Commands -------------------------------------------------------------------

  predicate IsCommandKey(key: u16) {
    || key in {QUERY_PUBLISHER, QUERY_OFFSET, CREATE, DELETE, PEER_PROPERTIES, SASL_HANDSHAKE, SASL_AUTHENTICATE,
               OPEN, CLOSE}
    || key in {STORE_OFFSET, TUNE, HEARTBEAT}
    || key in {ResponseOf(QUERY_PUBLISHER), ResponseOf(QUERY_OFFSET), ResponseOf(CREATE), ResponseOf(DELETE),
               ResponseOf(PEER_PROPERTIES), ResponseOf(SASL_HANDSHAKE), ResponseOf(SASL_AUTHENTICATE),
               ResponseOf(OPEN), ResponseOf(CLOSE)}
  }

  /** The fields behind a command key, as the protocol lists them. */
  function Layout(key: u16): seq<Field>
    requires IsCommandKey(key)
  {
    if key == PEER_PROPERTIES then [PairsField]
    else if key == ResponseOf(PEER_PROPERTIES) || key == ResponseOf(OPEN) then [UIntField(SHORT), PairsField]
    else if key == SASL_HANDSHAKE || key == HEARTBEAT then []
    else if key == ResponseOf(SASL_HANDSHAKE) then [UIntField(SHORT), TextsField]
    else if key == SASL_AUTHENTICATE then [TextField, BlobField]
    else if key == ResponseOf(SASL_AUTHENTICATE) then [UIntField(SHORT), BlobField]
    else if key == TUNE then [UIntField(WORD), UIntField(WORD)]
    else if key == OPEN || key == DELETE then [TextField]
    else if key == CLOSE then [UIntField(SHORT), TextField]
    else if key == ResponseOf(CLOSE) || key == ResponseOf(CREATE) || key == ResponseOf(DELETE) then [UIntField(SHORT)]
    else if key == CREATE then [TextField, PairsField]
    else if key == STORE_OFFSET then [TextField, TextField, UIntField(LONG)]
    else if key == QUERY_OFFSET || key == QUERY_PUBLISHER then [TextField, TextField]
    else [UIntField(SHORT), UIntField(LONG)]
  }

  function Items(c: Command): seq<Item> {
    match c
    case PeerPropertiesRequest(kvs) => [Pairs(kvs)]
    case PeerPropertiesResponse(code, kvs) => [UInt(SHORT, code), Pairs(kvs)]
    case SaslHandshakeRequest => []
    case SaslHandshakeResponse(code, ms) => [UInt(SHORT, code), Texts(ms)]
    case SaslAuthenticateRequest(m, data) => [Text(m), Blob(Some(data))]
    case SaslAuthenticateResponse(code, data) => [UInt(SHORT, code), Blob(data)]
    case Tune(fm, hb) => [UInt(WORD, fm), UInt(WORD, hb)]
    case OpenRequest(vh) => [Text(vh)]
    case OpenResponse(code, kvs) => [UInt(SHORT, code), Pairs(kvs)]
    case CloseRequest(code, reason) => [UInt(SHORT, code), Text(reason)]
    case CloseResponse(code) => [UInt(SHORT, code)]
    case Heartbeat => []
    case CreateRequest(st, args) => [Text(st), Pairs(args)]
    case CreateResponse(code) => [UInt(SHORT, code)]
    case DeleteRequest(st) => [Text(st)]
    case DeleteResponse(code) => [UInt(SHORT, code)]
    case StoreOffset(r, st, o) => [Text(r), Text(st), UInt(LONG, o)]
    case QueryOffsetRequest(r, st) => [Text(r), Text(st)]
    case QueryOffsetResponse(code, o) => [UInt(SHORT, code), UInt(LONG, o)]
    case QueryPublisherRequest(r, st) => [Text(r), Text(st)]
    case QueryPublisherResponse(code, o) => [UInt(SHORT, code), UInt(LONG, o)]
  }

  /** Integers within their widths: all that building a command needs of its items. */
  predicate Ranged(items: seq<Item>) {
    forall i | 0 <= i < |items| :: items[i].UInt? ==>
      items[i].n < if items[i].width == SHORT then TWO_16 else if items[i].width == WORD then TWO_32 else TWO_64
  }

  lemma ValidIsRanged(key: u16, items: seq<Item>)
    requires IsCommandKey(key) && FitsLayout(items, Layout(key)) && ValidItems(items)
    ensures Ranged(items)
  {
    hide Pow256, ValidText, ValidBlob, ValidTexts, ValidPairs;
    Widths();
    assert forall i | 0 <= i < |items| :: items[i].UInt? ==> Layout(key)[i] == UIntField(items[i].width);
  }

  /** The command a field list spells; a null payload is taken for an empty one. */
  function FromItems(key: u16, items: seq<Item>): (c: Command)
    requires IsCommandKey(key) && FitsLayout(items, Layout(key)) && Ranged(items)
  {
    if key == PEER_PROPERTIES then PeerPropertiesRequest(items[0].kvs)
    else if key == ResponseOf(PEER_PROPERTIES) then PeerPropertiesResponse(items[0].n, items[1].kvs)
    else if key == SASL_HANDSHAKE then SaslHandshakeRequest
    else if key == ResponseOf(SASL_HANDSHAKE) then SaslHandshakeResponse(items[0].n, items[1].ts)
    else if key == SASL_AUTHENTICATE then
      SaslAuthenticateRequest(items[0].t, if items[1].b.Some? then items[1].b.value else [])
    else if key == ResponseOf(SASL_AUTHENTICATE) then SaslAuthenticateResponse(items[0].n, items[1].b)
    else if key == TUNE then Tune(items[0].n, items[1].n)
    else if key == OPEN then OpenRequest(items[0].t)
    else if key == ResponseOf(OPEN) then OpenResponse(items[0].n, items[1].kvs)
    else if key == CLOSE then CloseRequest(items[0].n, items[1].t)
    else if key == ResponseOf(CLOSE) then CloseResponse(items[0].n)
    else if key == HEARTBEAT then Heartbeat
    else if key == CREATE then CreateRequest(items[0].t, items[1].kvs)
    else if key == ResponseOf(CREATE) then CreateResponse(items[0].n)
    else if key == DELETE then DeleteRequest(items[0].t)
    else if key == ResponseOf(DELETE) then DeleteResponse(items[0].n)
    else if key == STORE_OFFSET then StoreOffset(items[0].t, items[1].t, items[2].n)
    else if key == QUERY_OFFSET then QueryOffsetRequest(items[0].t, items[1].t)
    else if key == ResponseOf(QUERY_OFFSET) then QueryOffsetResponse(items[0].n, items[1].n)
    else if key == QUERY_PUBLISHER then QueryPublisherRequest(items[0].t, items[1].t)
    else QueryPublisherResponse(items[0].n, items[1].n)
  }

  lemma FromItemsSpells(key: u16, items: seq<Item>)
    requires IsCommandKey(key) && FitsLayout(items, Layout(key)) && Ranged(items)
    ensures KeyOf(FromItems(key, items)) == key
    ensures key != SASL_AUTHENTICATE ==> Items(FromItems(key, items)) == items
    ensures key == SASL_AUTHENTICATE ==>
              FromItems(key, items)
              == SaslAuthenticateRequest(items[0].t, if items[1].b.Some? then items[1].b.value else [])
  {}

  lemma ItemsFit(c: Command)
    ensures IsCommandKey(KeyOf(c)) && FitsLayout(Items(c), Layout(KeyOf(c))) && Ranged(Items(c))
  {}

  lemma ItemsSpell(c: Command)
    ensures IsCommandKey(KeyOf(c)) && FitsLayout(Items(c), Layout(KeyOf(c))) && Ranged(Items(c))
    ensures FromItems(KeyOf(c), Items(c)) == c
  {
    ItemsFit(c);
    hide Layout, Ranged, FitsLayout, IsCommandKey;
  }

  predicate ValidCommand(c: Command) { ValidItems(Items(c)) }

  function EncodeBody(c: Command): Bytes { EncodeItems(Items(c)) }

  /** Responses whose last field some brokers leave out. */
  predicate OptionalTail(key: u16) { key == ResponseOf(SASL_AUTHENTICATE) || key == ResponseOf(OPEN) }

  function WithoutTail(key: u16, code: u16): Command
    requires OptionalTail(key)
  {
    if key == ResponseOf(OPEN) then OpenResponse(code, []) else SaslAuthenticateResponse(code, None)
  }

  /** The body is nothing but the response code of a response with an optional tail. */
  predicate TailAbsent(key: u16, s: Bytes) { OptionalTail(key) && |s| == 2 }

  function ParseBody(key: u16, s: Bytes): Parse<Command>
    requires IsCommandKey(key)
  {
    if TailAbsent(key, s) then
      var (code, rest) :- ParseUInt(SHORT, s);
      Widths();
      Done(WithoutTail(key, code), rest)
    else
      var (items, rest) :- ParseItems(Layout(key), s);
      ItemsCanonical(Layout(key), s);
      ValidIsRanged(key, items);
      Done(FromItems(key, items), rest)
  }

  /** Encodings that are accepted besides the one the encoder writes. */
  predicate AlsoEncodes(s: Bytes, c: Command, rest: Bytes) {
    match c
    case SaslAuthenticateRequest(m, data) =>
      data == [] && s == EncodeItems([Text(m), Blob(None)]) + rest
    case SaslAuthenticateResponse(code, challenge) => challenge.None? && s == Encode(SHORT, code) && rest == []
    case OpenResponse(code, kvs) => kvs == [] && s == Encode(SHORT, code) && rest == []
    case _ => false
  }

  lemma BodyRoundTrip(c: Command, rest: Bytes)
    requires ValidCommand(c)
    ensures ParseBody(KeyOf(c), EncodeBody(c) + rest) == Done(c, rest)
  {
    var key, s := KeyOf(c), EncodeBody(c) + rest;
    ItemsSpell(c);
    if OptionalTail(key) {
      TailIsWritten(c, rest);
    }
    hide ParseItems, EncodeItems, ValidItems, FromItems, Items, Layout, KeyOf;
    ItemsRoundTrip(Items(c), Layout(key), rest);
  }

  lemma TailIsWritten(c: Command, rest: Bytes)
    requires OptionalTail(KeyOf(c))
    ensures |EncodeBody(c) + rest| > 2
  {
    hide Encode, EncodePairSeq;
    var items := Items(c);
    assert EncodeItems(items) == EncodeItem(items[0]) + EncodeItems(items[1..]);
    assert EncodeItems(items[1..]) == EncodeItem(items[1]) + EncodeItems(items[1..][1..]);
    assert |EncodeItem(items[1])| >= 4;
  }

  lemma BodyCanonical(key: u16, s: Bytes)
    requires IsCommandKey(key) && ParseBody(key, s).Done?
    ensures var p := ParseBody(key, s);
            && KeyOf(p.value) == key && ValidCommand(p.value)
            && (s == EncodeBody(p.value) + p.rest || AlsoEncodes(s, p.value, p.rest))
  {
    var p := ParseBody(key, s);
    if TailAbsent(key, s) {
      TailAbsentCanonical(key, s);
    } else {
      var q := ParseItems(Layout(key), s);
      ItemsCanonical(Layout(key), s);
      ValidIsRanged(key, q.value);
      FromItemsSpells(key, q.value);
      if key == SASL_AUTHENTICATE {
        var items := q.value;
        assert items == [Text(items[0].t), Blob(items[1].b)];
        assert ValidItem(items[0]);
        assert ValidItem(Blob(Some(p.value.opaqueData)));
      }
    }
  }

  lemma TailAbsentCanonical(key: u16, s: Bytes)
    requires TailAbsent(key, s)
    ensures var p := ParseBody(key, s);
            && p.Done? && KeyOf(p.value) == key && ValidCommand(p.value) && AlsoEncodes(s, p.value, p.rest)
  {
    hide Value, Encode;
    Widths();
    var code := ParseUInt(SHORT, s);
    assert code.Done? && code.rest == [];
    UIntExact(SHORT, s, code.value, code.rest);
    assert s == Encode(SHORT, code.value);
    assert ValidItem(UInt(SHORT, code.value)) && ValidItem(Blob(None)) && ValidItem(Pairs([]));
  }

  /** Every accepted body, and the command it is read as: all encodings, and no others. */
  lemma BodyExact(key: u16, s: Bytes, c: Command, rest: Bytes)
    requires IsCommandKey(key)
    ensures ParseBody(key, s) == Done(c, rest)
            <==> KeyOf(c) == key && ValidCommand(c) && (s == EncodeBody(c) + rest || AlsoEncodes(s, c, rest))
  {
    if ParseBody(key, s).Done? { BodyCanonical(key, s); }
    if KeyOf(c) == key && ValidCommand(c) {
      if s == EncodeBody(c) + rest { BodyRoundTrip(c, rest); }
      if AlsoEncodes(s, c, rest) { AlternativeIsRead(c, s, rest); }
    }
  }

  lemma AlternativeIsRead(c: Command, s: Bytes, rest: Bytes)
    requires ValidCommand(c) && AlsoEncodes(s, c, rest)
    ensures ParseBody(KeyOf(c), s) == Done(c, rest)
  {
    assert ValidBlob(None);
    hide Value, Encode, Pow256, ValidText, ValidPairs, ValidBlob;
    ItemsSpell(c);
    if c.SaslAuthenticateRequest? {
      var items := [Text(c.mechanism), Blob(None)];
      assert ValidItem(Items(c)[0]);
      ItemsRoundTrip(items, Layout(SASL_AUTHENTICATE), rest);
    } else {
      Widths();
      assert s == Encode(SHORT, c.code) + [];
      UIntExact(SHORT, s, c.code, []);
    }
  }

  // ---- Field lists of fixed length, unrolled ----------------------------------------

  lemma AppendOne(pre: Bytes, a: Item)
    ensures pre + EncodeItem(a) == pre + EncodeItems([a])
  {
    hide EncodeItem;
    assert [a][1..] == [];
  }

  lemma AppendTwo(pre: Bytes, a: Item, b: Item)
    ensures pre + EncodeItem(a) + EncodeItem(b) == pre + EncodeItems([a, b])
  {
    hide EncodeItem;
    assert [a, b][1..] == [b];
    AppendOne(EncodeItem(a), b);
    AppendOne(pre + EncodeItem(a), b);
  }

  lemma AppendThree(pre: Bytes, a: Item, b: Item, c: Item)
    ensures pre + EncodeItem(a) + EncodeItem(b) + EncodeItem(c) == pre + EncodeItems([a, b, c])
  {
    hide EncodeItem;
    assert [a, b, c][1..] == [b, c];
    AppendTwo(EncodeItem(a), b, c);
    AppendTwo(pre + EncodeItem(a), b, c);
  }

  function ParseOne(f: Field, s: Bytes): Parse<seq<Item>> {
    var (a, s1) :- ParseItem(f, s);
    Done([a], s1)
  }

  function ParseTwo(f: Field, g: Field, s: Bytes): Parse<seq<Item>> {
    var (a, s1) :- ParseItem(f, s);
    var (b, s2) :- ParseItem(g, s1);
    Done([a, b], s2)
  }

  function ParseThree(f: Field, g: Field, h: Field, s: Bytes): Parse<seq<Item>> {
    var (a, s1) :- ParseItem(f, s);
    var (b, s2) :- ParseItem(g, s1);
    var (c, s3) :- ParseItem(h, s2);
    Done([a, b, c], s3)
  }

  lemma UnrollOne(f: Field, s: Bytes)
    ensures ParseItems([f], s) == ParseOne(f, s)
  {
    hide ParseItem;
    assert [f][1..] == [];
    assert ParseItem(f, s).Done? ==> [ParseItem(f, s).value] + [] == [ParseItem(f, s).value];
  }

  lemma UnrollTwo(f: Field, g: Field, s: Bytes)
    ensures ParseItems([f, g], s) == ParseTwo(f, g, s)
  {
    hide ParseItem;
    assert [f, g][1..] == [g];
    if ParseItem(f, s).Done? {
      var (a, s1) := (ParseItem(f, s).value, ParseItem(f, s).rest);
      UnrollOne(g, s1);
      assert forall b :: [a] + [b] == [a, b];
    }
  }

  lemma UnrollThree(f: Field, g: Field, h: Field, s: Bytes)
    ensures ParseItems([f, g, h], s) == ParseThree(f, g, h, s)
  {
    hide ParseItem;
    assert [f, g, h][1..] == [g, h];
    if ParseItem(f, s).Done? {
      var (a, s1) := (ParseItem(f, s).value, ParseItem(f, s).rest);
      UnrollTwo(g, h, s1);
      assert forall b, c :: [a] + [b, c] == [a, b, c];
    }
  }
}
