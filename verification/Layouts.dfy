/**
 The bytes on the wire, written out: what every frame and every command looks like, independently
 of the grammars that read them back.
 */
module Layouts {
  import opened Base
  import opened BigEndian
  import opened Wire
  import opened Frames
  import opened Commands

  function Two(v: nat): Bytes { [v / 0x100 % 0x100, v % 0x100] }

  function Four(v: nat): Bytes { Two(v / 0x1_0000) + Two(v) }

  function Eight(v: nat): Bytes { Four(v / 0x1_0000_0000) + Four(v) }

  lemma WordLaid(v: nat)
    ensures Encode(2, v) == Two(v) && Encode(4, v) == Four(v)
  {
    EncodeByShifts(v);
    hide Encode;
    assert v / 0x100_0000 == v / 0x1_0000 / 0x100;
  }

  lemma LongLaid(v: nat)
    ensures Encode(8, v) == Eight(v)
  {
    WordLaid(v);
    WordLaid(v / 0x1_0000_0000);
    EncodePrefix(8, 4, v);
    EncodeSuffix(4, 4, v);
    assert Pow256(WORD) == 0x1_0000_0000 by { Widths(); }
    hide Encode, Pow256, Four;
    assert Encode(8, v) == Encode(8, v)[..4] + Encode(8, v)[4..];
  }

  lemma NumbersLaid(v: nat)
    ensures Encode(SHORT, v) == Two(v) && Encode(WORD, v) == Four(v) && Encode(LONG, v) == Eight(v)
  {
    hide Encode, Four, Two, Eight;
    WordLaid(v);
    LongLaid(v);
  }

  /** The trailing bytes of an encoding are the encoding of the low part. */
  lemma {:induction false} EncodeSuffix(n: nat, k: nat, v: nat)
    ensures Encode(n + k, v)[n..] == Encode(k, v)
  {
    if k > 0 {
      EncodeSuffix(n, k - 1, v / 256);
      assert Encode(n + k, v)[n..] == Encode(n + k - 1, v / 256)[n..] + [v % 256];
    }
  }

  /** Strings of up to 32767 bytes, and payloads that fit an int32. */
  predicate Short(t: Bytes) { |t| <= 0x7FFF }

  function TextBytes(t: Bytes): Bytes { Two(|t|) + t }

  lemma TextLaid(t: Bytes)
    requires Short(t)
    ensures EncodeText(t) == TextBytes(t)
  {
    NumbersLaid(|t|);
    assert t[..|t|] == t;
  }

  lemma NullLaid()
    ensures Encode(4, TWO_32 - 1) == [0xFF, 0xFF, 0xFF, 0xFF]
  {
    EncodeByShifts(TWO_32 - 1);
    hide Encode;
  }

  /** The null marker is all ones, a payload carries its length. */
  lemma BlobLaid(v: Bytes)
    requires |v| <= INT32_MAX
    ensures EncodeBlob(None) == [0xFF, 0xFF, 0xFF, 0xFF] && EncodeBlob(Some(v)) == Four(|v|) + v
  {
    assert ToU32(|v|) == |v|;
    hide Encode, Two, Four, Eight;
    NumbersLaid(|v|);
    NullLaid();
  }

  function Concat(parts: seq<Bytes>): Bytes { if parts == [] then [] else parts[0] + Concat(parts[1..]) }

  /** A key and behind it the value. */
  function PairBytes(kv: KeyValue): Bytes { TextBytes(kv.key) + TextBytes(kv.value) }

  /** A count, then the elements in order. */
  lemma {:induction false} TextSeqLaid(ts: seq<Bytes>)
    requires forall t | t in ts :: Short(t)
    ensures EncodeTextSeq(ts) == Concat(seq(|ts|, i requires 0 <= i < |ts| => TextBytes(ts[i])))
  {
    if ts != [] {
      var parts := seq(|ts|, i requires 0 <= i < |ts| => TextBytes(ts[i]));
      TextSeqLaid(ts[1..]);
      TextLaid(ts[0]);
      assert parts[1..] == seq(|ts[1..]|, i requires 0 <= i < |ts[1..]| => TextBytes(ts[1..][i]));
    }
  }

  lemma {:induction false} PairSeqLaid(kvs: seq<KeyValue>)
    requires forall kv | kv in kvs :: Short(kv.key) && Short(kv.value)
    ensures EncodePairSeq(kvs) == Concat(seq(|kvs|, i requires 0 <= i < |kvs| => PairBytes(kvs[i])))
  {
    if kvs != [] {
      var parts := seq(|kvs|, i requires 0 <= i < |kvs| => PairBytes(kvs[i]));
      PairSeqLaid(kvs[1..]);
      TextLaid(kvs[0].key);
      TextLaid(kvs[0].value);
      assert parts[1..] == seq(|kvs[1..]|, i requires 0 <= i < |kvs[1..]| => PairBytes(kvs[1..][i]));
    }
  }

  function TextsBytes(ts: seq<Bytes>): Bytes {
    Four(|ts|) + Concat(seq(|ts|, i requires 0 <= i < |ts| => TextBytes(ts[i])))
  }

  function PairsBytes(kvs: seq<KeyValue>): Bytes {
    Four(|kvs|) + Concat(seq(|kvs|, i requires 0 <= i < |kvs| => PairBytes(kvs[i])))
  }

  function BlobBytes(b: Option<Bytes>): Bytes {
    if b.None? then [0xFF, 0xFF, 0xFF, 0xFF] else Four(|b.value|) + b.value
  }

  lemma ItemLaid(i: Item)
    requires ValidItem(i)
    ensures i.UInt? && i.width == 2 ==> EncodeItem(i) == Two(i.n)
    ensures i.UInt? && i.width == 4 ==> EncodeItem(i) == Four(i.n)
    ensures i.UInt? && i.width == 8 ==> EncodeItem(i) == Eight(i.n)
    ensures i.Text? ==> EncodeItem(i) == TextBytes(i.t)
    ensures i.Blob? ==> EncodeItem(i) == BlobBytes(i.b)
    ensures i.Texts? ==> EncodeItem(i) == TextsBytes(i.ts)
    ensures i.Pairs? ==> EncodeItem(i) == PairsBytes(i.kvs)
  {
    hide Encode, Pow256, Two, Four, Eight, TextBytes, PairBytes, EncodeTextSeq, EncodePairSeq, EncodeText, Concat;
    match i
    case UInt(_, n) => NumbersLaid(n);
    case Text(t) => TextLaid(t);
    case Blob(b) => BlobLaid(if b.Some? then b.value else []);
    case Texts(ts) => NumbersLaid(|ts|); TextSeqLaid(ts);
    case Pairs(kvs) => NumbersLaid(|kvs|); PairSeqLaid(kvs);
  }

  /** The key of every command and the fields of its body, in the order in which they are written. */
  lemma BodyLaid(c: Command)
    requires ValidCommand(c)
    ensures match c
            case PeerPropertiesRequest(kvs) => KeyOf(c) == 0x0011 && EncodeBody(c) == PairsBytes(kvs)
            case PeerPropertiesResponse(code, kvs) => KeyOf(c) == 0x8011 && EncodeBody(c) == Two(code) + PairsBytes(kvs)
            case SaslHandshakeRequest => KeyOf(c) == 0x0012 && EncodeBody(c) == []
            case SaslHandshakeResponse(code, ms) => KeyOf(c) == 0x8012 && EncodeBody(c) == Two(code) + TextsBytes(ms)
            case SaslAuthenticateRequest(m, data) =>
              KeyOf(c) == 0x0013 && EncodeBody(c) == TextBytes(m) + BlobBytes(Some(data))
            case SaslAuthenticateResponse(code, data) =>
              KeyOf(c) == 0x8013 && EncodeBody(c) == Two(code) + BlobBytes(data)
            case Tune(fm, hb) => KeyOf(c) == 0x0014 && EncodeBody(c) == Four(fm) + Four(hb)
            case OpenRequest(vh) => KeyOf(c) == 0x0015 && EncodeBody(c) == TextBytes(vh)
            case OpenResponse(code, kvs) => KeyOf(c) == 0x8015 && EncodeBody(c) == Two(code) + PairsBytes(kvs)
            case CloseRequest(code, reason) => KeyOf(c) == 0x0016 && EncodeBody(c) == Two(code) + TextBytes(reason)
            case CloseResponse(code) => KeyOf(c) == 0x8016 && EncodeBody(c) == Two(code)
            case Heartbeat => KeyOf(c) == 0x0017 && EncodeBody(c) == []
            case CreateRequest(st, args) => KeyOf(c) == 0x000D && EncodeBody(c) == TextBytes(st) + PairsBytes(args)
            case CreateResponse(code) => KeyOf(c) == 0x800D && EncodeBody(c) == Two(code)
            case DeleteRequest(st) => KeyOf(c) == 0x000E && EncodeBody(c) == TextBytes(st)
            case DeleteResponse(code) => KeyOf(c) == 0x800E && EncodeBody(c) == Two(code)
            case StoreOffset(r, st, o) =>
              KeyOf(c) == 0x000A && EncodeBody(c) == TextBytes(r) + (TextBytes(st) + Eight(o))
            case QueryOffsetRequest(r, st) => KeyOf(c) == 0x000B && EncodeBody(c) == TextBytes(r) + TextBytes(st)
            case QueryOffsetResponse(code, o) => KeyOf(c) == 0x800B && EncodeBody(c) == Two(code) + Eight(o)
            case QueryPublisherRequest(r, st) => KeyOf(c) == 0x0005 && EncodeBody(c) == TextBytes(r) + TextBytes(st)
            case QueryPublisherResponse(code, o) => KeyOf(c) == 0x8005 && EncodeBody(c) == Two(code) + Eight(o)
  {
    var items := Items(c);
    hide EncodeItem, ValidItem, Two, Four, Eight, TextBytes, BlobBytes, TextsBytes, PairsBytes, Pow256;
    forall i | 0 <= i < |items| { ItemLaid(items[i]); }
    ItemsInOrder(items);
  }

  lemma ItemsInOrder(items: seq<Item>)
    requires |items| <= 3
    ensures EncodeItems(items)
            == if |items| == 0 then [] else if |items| == 1 then EncodeItem(items[0])
               else if |items| == 2 then EncodeItem(items[0]) + EncodeItem(items[1])
               else EncodeItem(items[0]) + (EncodeItem(items[1]) + EncodeItem(items[2]))
  {
    hide EncodeItem;
    if |items| == 1 {
      assert items == [items[0]];
      AppendOne([], items[0]);
    } else if |items| == 2 {
      assert items == [items[0], items[1]];
      AppendTwo([], items[0], items[1]);
    } else if |items| == 3 {
      assert items == [items[0], items[1], items[2]];
      AppendThree([], items[0], items[1], items[2]);
    }
  }

  lemma EnvelopeLaid(payload: Bytes)
    requires |payload| < TWO_32
    ensures Envelope(payload) == Four(|payload|) + payload
  {
    assert ToU32(|payload|) == |payload|;
    hide Encode, Two, Four, Eight, ToU32;
    NumbersLaid(|payload|);
  }

  lemma PayloadLaid(key: u16, version: u16, cid: Option<u32>, body: Bytes)
    ensures Payload(key, version, cid, body)
            == Two(key) + Two(version) + ((if cid.Some? then Four(cid.value) else []) + body)
  {
    hide Encode, Two, Four, Eight;
    NumbersLaid(key);
    NumbersLaid(version);
    if cid.Some? { NumbersLaid(cid.value); }
  }

  lemma RequestLaid(key: u16, version: u16, cid: u32, body: Bytes)
    requires |body| + 8 < TWO_32
    ensures Envelope(Payload(key, version, Some(cid), body))
            == Four(|body| + 8) + Two(key) + Two(version) + Four(cid) + body
  {
    var p := Payload(key, version, Some(cid), body);
    PayloadLaid(key, version, Some(cid), body);
    assert |p| == |body| + 8;
    hide Envelope, Payload, Two, Four, Eight;
    EnvelopeLaid(p);
    Flatten(Four(|body| + 8), Two(key), Two(version), Four(cid), body);
  }

  lemma OnewayLaid(key: u16, version: u16, body: Bytes)
    requires |body| + 4 < TWO_32
    ensures Envelope(Payload(key, version, None, body)) == Four(|body| + 4) + Two(key) + Two(version) + body
  {
    var p := Payload(key, version, None, body);
    PayloadLaid(key, version, None, body);
    assert |p| == |body| + 4;
    hide Envelope, Payload, Two, Four, Eight;
    EnvelopeLaid(p);
    Flatten(Four(|body| + 4), Two(key), Two(version), [], body);
  }

  /** A frame: its size without the size field, key, version, the correlation id if there is one, the body. */
  lemma FrameLaid(key: u16, version: u16, cid: u32, body: Bytes)
    requires |body| + 8 < TWO_32
    ensures Envelope(Payload(key, version, Some(cid), body))
            == Four(|body| + 8) + Two(key) + Two(version) + Four(cid) + body
    ensures Envelope(Payload(key, version, None, body)) == Four(|body| + 4) + Two(key) + Two(version) + body
  {
    hide Envelope, Payload, Two, Four, Eight;
    RequestLaid(key, version, cid, body);
    OnewayLaid(key, version, body);
  }

  lemma Flatten(a: Bytes, b: Bytes, c: Bytes, d: Bytes, e: Bytes)
    ensures a + ((b + c) + (d + e)) == a + b + c + d + e
    ensures d == [] ==> a + b + c + d + e == a + b + c + e
  {
    Regroup(a + b + c, d, e);
    Regroup(a, b + c, d + e);
    Regroup(a, b, c);
  }
}
