/**
 What a handshake says on the wire: the frames a successful one was answered with, byte by byte
 where they matter, what the refusals mean, and what the client's own requests carry.
 */
module Exchanges {
  import opened Base
  import opened BigEndian
  import opened Wire
  import opened Frames
  import opened Commands
  import opened Handshakes
  import opened Layouts
  import opened Sockets

  /** The body of the frame starts with this response code. */
  predicate Coded(read: Result<IncomingFrame>, code: u16) {
    read.Ok? && |read.value.body| >= 2
    && read.value.body[0] == code / 0x100 && read.value.body[1] == code % 0x100
  }

  lemma CodeInFront(c: Command, code: u16, s: Bytes, rest: Bytes)
    requires CodeOf(c) == Some(code) && (s == EncodeBody(c) + rest || AlsoEncodes(s, c, rest))
    ensures |s| >= 2 && s[0] == code / 0x100 && s[1] == code % 0x100
  {
    NumbersLaid(code);
    hide Encode, Four, Eight, EncodePairs, EncodeTexts, EncodeBlob;
    var items := Items(c);
    assert |items| <= 2 && items[0] == UInt(SHORT, code);
    ItemsInOrder(items);
    if s == EncodeBody(c) + rest {
      assert EncodeItem(items[0]) <= s;
    }
  }

  lemma RepliesWith(read: Result<IncomingFrame>, key: u16, cid: u32, code: u16)
    requires IsReplyKey(key) && Replies(read, key, cid, code)
    ensures read.Ok? && Fitting(read.value, key, cid) && Coded(read, code)
  {
    hide ParseBody, EncodeBody, AlsoEncodes;
    var f := read.value;
    BodyCanonical(key, f.body);
    CodeInFront(ParseBody(key, f.body).value, code, f.body, ParseBody(key, f.body).rest);
  }

  lemma OffersWith(inbox: seq<Result<IncomingFrame>>)
    requires OffersPlain(inbox)
    ensures Replies(At(inbox, 1), ResponseOf(SASL_HANDSHAKE), CidOf(1), OK)
  {
    hide Reply;
  }

  /**
   The frames a successful handshake of `n` rounds was answered with: each under its own key and
   id, and the response codes 1 and, in all rounds of authentication but the last, 10.
   */
  lemma SuccessfulRun(
      cfg: Config, inbox: seq<Result<IncomingFrame>>, faults: seq<Option<StreamError>>, n: nat)
    requires Succeeds(cfg, inbox, faults, n)
    ensures n >= 1 && |inbox| >= n + 4 && forall i | 0 <= i < n + 4 :: InPlace(inbox, i, n)
    ensures Answers(inbox, 0, 0x8011, 1, 1) && Answers(inbox, 1, 0x8012, 2, 1)
    ensures exists ms :: Ascii("PLAIN") in ms && OffersInBody(inbox[1].value.body, ms)
    ensures forall i: nat | 2 <= i < n + 2 && i + 1 < TWO_32 :: AnswersRound(inbox, i, n)
    ensures inbox[n + 2].Ok? && inbox[n + 2].value.key == 0x0014
    ensures n + 3 < TWO_32 ==> Answers(inbox, n + 3, 0x8015, n + 3, 1)
  {
    hide Succeeds, InPlace, Answers, AnswersRound;
    GreetingRead(cfg, inbox, faults, n);
    PlainIsOffered(cfg, inbox, faults, n);
    OpenRead(cfg, inbox, faults, n);
    forall i: nat | 2 <= i < n + 2
      ensures InPlace(inbox, i, n) && (i + 1 < TWO_32 ==> AnswersRound(inbox, i, n))
    {
      RoundRead(cfg, inbox, faults, n, i);
    }
    forall i | 0 <= i < n + 4
      ensures InPlace(inbox, i, n)
    {
      assert i == 0 || i == 1 || 2 <= i < n + 2 || i == n + 2 || i == n + 3;
    }
  }

  lemma GreetingRead(cfg: Config, inbox: seq<Result<IncomingFrame>>, faults: seq<Option<StreamError>>, n: nat)
    requires Succeeds(cfg, inbox, faults, n)
    ensures InPlace(inbox, 0, n) && Answers(inbox, 0, 0x8011, 1, 1)
    ensures InPlace(inbox, 1, n) && Answers(inbox, 1, 0x8012, 2, 1)
  {
    IdAt(0);
    IdAt(1);
    hide Replies, Counter, Reply, Coded, Fits, RequestBytes, AllWritable, Authenticates, Tunes;
    RepliesWith(At(inbox, 0), ResponseOf(PEER_PROPERTIES), CidOf(0), OK);
    OffersWith(inbox);
    RepliesWith(At(inbox, 1), ResponseOf(SASL_HANDSHAKE), CidOf(1), OK);
  }

  /** The body starts with the code 1 and then this list of mechanisms. */
  predicate OffersInBody(body: Bytes, mechanisms: seq<Bytes>) {
    |mechanisms| <= INT32_MAX && ValidTexts(mechanisms) && Two(1) + TextsBytes(mechanisms) <= body
  }

  lemma PlainIsOffered(cfg: Config, inbox: seq<Result<IncomingFrame>>, faults: seq<Option<StreamError>>, n: nat)
    requires Succeeds(cfg, inbox, faults, n) && Answers(inbox, 1, 0x8012, 2, 1)
    ensures exists ms :: Ascii("PLAIN") in ms && OffersInBody(inbox[1].value.body, ms)
  {
    hide ParseBody, EncodeBody, Counter, PeerAccepted, Authenticates, Tunes, Replies, AllWritable, Fits;
    var c := Reply(At(inbox, 1), ResponseOf(SASL_HANDSHAKE), CidOf(1)).value;
    var body := inbox[1].value.body;
    BodyCanonical(ResponseOf(SASL_HANDSHAKE), body);
    BodyLaid(c);
    assert ValidItem(Items(c)[1]);
    assert Ascii("PLAIN") in c.mechanisms && OffersInBody(body, c.mechanisms);
  }

  lemma RoundRead(cfg: Config, inbox: seq<Result<IncomingFrame>>, faults: seq<Option<StreamError>>, n: nat, i: nat)
    requires Succeeds(cfg, inbox, faults, n) && 2 <= i < n + 2
    ensures InPlace(inbox, i, n) && (i + 1 < TWO_32 ==> AnswersRound(inbox, i, n))
  {
    IdAt(i);
    hide Replies, Counter, Reply, Coded, Fits, RequestBytes, AllWritable, Tunes, OffersPlain;
    var code := if i == n + 1 then OK else SASL_CHALLENGE;
    assert Round(inbox, i - 2, code);
    RepliesWith(At(inbox, i), ResponseOf(SASL_AUTHENTICATE), CidOf(i), code);
  }

  lemma IdBelowWrap(k: nat)
    ensures k + 1 < TWO_32 ==> CidOf(k) == k + 1
  {
  }

  lemma OpenRead(cfg: Config, inbox: seq<Result<IncomingFrame>>, faults: seq<Option<StreamError>>, n: nat)
    requires Succeeds(cfg, inbox, faults, n)
    ensures n >= 1 && InPlace(inbox, n + 2, n) && InPlace(inbox, n + 3, n) && |inbox| >= n + 4
    ensures inbox[n + 2].Ok? && inbox[n + 2].value.key == 0x0014
    ensures n + 3 < TWO_32 ==> Answers(inbox, n + 3, 0x8015, n + 3, 1)
  {
    OpenPlace(n);
    IdBelowWrap(n + 2);
    assert n >= 1;
    hide Replies, Counter, Reply, Coded, Fits, RequestBytes, AllWritable, PeerAccepted, OffersPlain, Authenticates,
         Place;
    TuneRead(inbox, n);
    RepliesWith(At(inbox, n + 3), ResponseOf(OPEN), CidOf(n + 2), OK);
  }

  /** The i-th frame has this key, this id and this response code. */
  predicate Answers(inbox: seq<Result<IncomingFrame>>, i: nat, key: u16, cid: u32, code: u16) {
    && i < |inbox| && inbox[i].Ok? && inbox[i].value.key == key && inbox[i].value.correlationId == Some(cid)
    && Coded(inbox[i], code)
  }

  predicate AnswersRound(inbox: seq<Result<IncomingFrame>>, i: nat, n: nat) {
    i + 1 < TWO_32 && Answers(inbox, i, 0x8013, i + 1, if i == n + 1 then 1 else 10)
  }

  lemma TuneRead(inbox: seq<Result<IncomingFrame>>, n: nat)
    requires Tunes(inbox, n)
    ensures At(inbox, n + 2).Ok? && At(inbox, n + 2).value.key == TUNE
  {
    hide ParseBody;
  }

  // ---- And the other way round --------------------------------------------------------------

  /** The i-th frame is this response under this key and id; trailing bytes do not matter. */
  predicate Says(inbox: seq<Result<IncomingFrame>>, i: nat, key: u16, cid: Option<u32>, c: Command) {
    && i < |inbox| && inbox[i].Ok? && inbox[i].value.key == key
    && (cid.Some? ==> inbox[i].value.correlationId == cid)
    && ValidCommand(c) && EncodeBody(c) <= inbox[i].value.body
  }

  ghost predicate SaysInRound(inbox: seq<Result<IncomingFrame>>, i: nat, code: u16) {
    i + 1 < TWO_32 && exists challenge :: Says(inbox, i, 0x8013, Some(i + 1), SaslAuthenticateResponse(code, challenge))
  }

  lemma SaidIsRead(inbox: seq<Result<IncomingFrame>>, i: nat, key: u16, cid: u32, c: Command)
    requires IsReplyKey(key) && KeyOf(c) == key && Says(inbox, i, key, if cid == 0 then None else Some(cid), c)
    ensures Reply(At(inbox, i), key, cid) == Ok(c)
  {
    hide ParseBody, EncodeBody, ValidCommand;
    var body := inbox[i].value.body;
    BodyRoundTrip(c, body[|EncodeBody(c)|..]);
    assert body == EncodeBody(c) + body[|EncodeBody(c)|..];
  }

  lemma SaidInRound(inbox: seq<Result<IncomingFrame>>, i: nat, code: u16)
    requires i >= 2 && SaysInRound(inbox, i, code)
    ensures Round(inbox, i - 2, code)
  {
    IdBelowWrap(i);
    hide Reply, Says, Counter;
    var challenge :| Says(inbox, i, 0x8013, Some(i + 1), SaslAuthenticateResponse(code, challenge));
    SaidIsRead(inbox, i, 0x8013, i + 1, SaslAuthenticateResponse(code, challenge));
  }

  /**
   A server that accepts the client, offers PLAIN, asks again n - 1 times, accepts the credentials,
   tunes, and opens the vhost makes the handshake succeed, if the connection takes every frame and
   the last of them fits the lower limit.
   */
  lemma CooperativeServer(
      cfg: Config, inbox: seq<Result<IncomingFrame>>, faults: seq<Option<StreamError>>, n: nat,
      peer: seq<KeyValue>, mechanisms: seq<Bytes>, limit: u32, beat: u32, properties: seq<KeyValue>)
    requires 1 <= n && n + 3 < TWO_32
    requires Says(inbox, 0, 0x8011, Some(1), PeerPropertiesResponse(1, peer))
    requires Says(inbox, 1, 0x8012, Some(2), SaslHandshakeResponse(1, mechanisms)) && Ascii("PLAIN") in mechanisms
    requires forall i | 2 <= i < n + 1 :: SaysInRound(inbox, i, 10)
    requires SaysInRound(inbox, n + 1, 1)
    requires Says(inbox, n + 2, 0x0014, None, Tune(limit, beat))
    requires Says(inbox, n + 3, 0x8015, Some(n + 3), OpenResponse(1, properties))
    requires AllWritable(faults, n + 4)
    requires var size := |RequestBytes(OpenRequest(cfg.virtualHost), n + 3)| - 4;
             (limit == 0 || size <= limit) && (cfg.frameMax == 0 || size <= cfg.frameMax)
    ensures Succeeds(cfg, inbox, faults, n)
  {
    IdBelowWrap(n + 2);
    SaidGreeting(inbox, peer, mechanisms);
    SaidRounds(inbox, n);
    SaidOpening(inbox, n, limit, beat, properties);
    hide Reply, Says, SaysInRound, Counter, RequestBytes, AllWritable, Authenticates, PeerAccepted, OffersPlain,
         Replies, NegotiateFrameMax, NegotiateHeartbeat;
    var size := |RequestBytes(OpenRequest(cfg.virtualHost), n + 3)| - 4;
    FrameMaxIsBoth(limit, cfg.frameMax, size);
    assert Fits(size, NegotiateFrameMax(limit, cfg.frameMax));
    hide Fits;
    assert Tunes(inbox, n) && Tuned(cfg, inbox, n).frameMax == NegotiateFrameMax(limit, cfg.frameMax);
    hide Tunes, Tuned;
  }

  lemma SaidGreeting(inbox: seq<Result<IncomingFrame>>, peer: seq<KeyValue>, mechanisms: seq<Bytes>)
    requires Says(inbox, 0, 0x8011, Some(1), PeerPropertiesResponse(1, peer))
    requires Says(inbox, 1, 0x8012, Some(2), SaslHandshakeResponse(1, mechanisms)) && Ascii("PLAIN") in mechanisms
    ensures PeerAccepted(inbox) && OffersPlain(inbox)
  {
    IdBelowWrap(0);
    IdBelowWrap(1);
    hide Reply, Says, Counter;
    SaidIsRead(inbox, 0, 0x8011, 1, PeerPropertiesResponse(1, peer));
    SaidIsRead(inbox, 1, 0x8012, 2, SaslHandshakeResponse(1, mechanisms));
  }

  lemma SaidRounds(inbox: seq<Result<IncomingFrame>>, n: nat)
    requires 1 <= n && SaysInRound(inbox, n + 1, 1) && forall i | 2 <= i < n + 1 :: SaysInRound(inbox, i, 10)
    ensures Authenticates(inbox, n)
  {
    hide Round, SaysInRound;
    SaidInRound(inbox, n + 1, 1);
    forall i: nat | i < n - 1
      ensures Round(inbox, i, SASL_CHALLENGE)
    {
      var next := i + 2;
      assert SaysInRound(inbox, next, 10);
      SaidInRound(inbox, next, 10);
    }
  }

  lemma SaidOpening(inbox: seq<Result<IncomingFrame>>, n: nat, limit: u32, beat: u32, properties: seq<KeyValue>)
    requires n + 3 < TWO_32
    requires Says(inbox, n + 2, 0x0014, None, Tune(limit, beat))
    requires Says(inbox, n + 3, 0x8015, Some(n + 3), OpenResponse(1, properties))
    ensures Reply(At(inbox, n + 2), TUNE, 0) == Ok(Tune(limit, beat))
    ensures Replies(At(inbox, n + 3), ResponseOf(OPEN), CidOf(n + 2), OK)
  {
    IdBelowWrap(n + 2);
    hide Reply, Says, Counter;
    SaidIsRead(inbox, n + 2, 0x0014, 0, Tune(limit, beat));
    SaidIsRead(inbox, n + 3, 0x8015, n + 3, OpenResponse(1, properties));
  }

  /**
   What is negotiated, against the two words of the server's Tune and the configuration: the lower
   limit where 0 is none, and the lower heartbeat unless the client asks for 0.
   */
  lemma Negotiated(cfg: Config, inbox: seq<Result<IncomingFrame>>, n: nat) returns (limit: u32, beat: u32)
    requires Tunes(inbox, n)
    ensures Four(limit) + Four(beat) <= inbox[n + 2].value.body
    ensures Tuned(cfg, inbox, n).frameMax
            == if limit == 0 then cfg.frameMax
               else if cfg.frameMax == 0 || limit <= cfg.frameMax then limit else cfg.frameMax
    ensures Tuned(cfg, inbox, n).heartbeat
            == if cfg.heartbeat == 0 || beat <= cfg.heartbeat then beat else cfg.heartbeat
  {
    hide ParseBody, EncodeBody;
    TuneRead(inbox, n);
    var f := inbox[n + 2].value;
    var p := ParseBody(TUNE, f.body);
    limit, beat := p.value.frameMax, p.value.heartbeat;
    BodyCanonical(TUNE, f.body);
    BodyLaid(p.value);
  }

  /** The refusals the client tells apart; any other code is passed on. */
  lemma Refusals(code: u16)
    ensures MapResponseCode(0x08) == MapResponseCode(0x0B) == StreamError(AuthenticationFailed, None)
    ensures MapResponseCode(0x07) == StreamError(SaslMechanismNotSupported, None)
    ensures MapResponseCode(0x0C) == MapResponseCode(0x10) == StreamError(VirtualHostAccessDenied, None)
    ensures code !in {0x07, 0x08, 0x0B, 0x0C, 0x10} ==> MapResponseCode(code) == StreamError(ServerError, Some(code))
  {
  }

  /** A handshake refused in its last round of authentication fails as the code says. */
  lemma RefusedRound(inbox: seq<Result<IncomingFrame>>, faults: seq<Option<StreamError>>, n: nat, code: u16)
    requires n >= 1 && Round(inbox, n - 1, code) && code != SASL_CHALLENGE
    ensures AuthenticationError(inbox, faults, n) == MapResponseCode(code)
    ensures code in {0x08, 0x0B} ==> AuthenticationError(inbox, faults, n).kind == AuthenticationFailed
  {
    hide Reply, Counter;
    assert !Round(inbox, n - 1, SASL_CHALLENGE);
  }

  /** The body of an authentication request: the mechanism PLAIN, and NUL user NUL password. */
  lemma PlainBody(cfg: Config)
    requires |cfg.username| + |cfg.password| + 2 <= INT32_MAX
    ensures EncodeBody(Credentials(cfg))
            == ([0, 5, 0x50, 0x4C, 0x41, 0x49, 0x4E])
               + (Four(|cfg.username| + |cfg.password| + 2) + ([0] + cfg.username + [0] + cfg.password))
  {
    var c := Credentials(cfg);
    assert Ascii("PLAIN") == [0x50, 0x4C, 0x41, 0x49, 0x4E];
    assert TextBytes(Ascii("PLAIN")) == [0, 5, 0x50, 0x4C, 0x41, 0x49, 0x4E];
    BlobLaid(c.opaqueData);
    TextLaid(c.mechanism);
    ItemsInOrder(Items(c));
  }

  /** What the first request tells the server about the client. */
  lemma ClientIdentity(cfg: Config)
    ensures |ClientProperties(cfg)| == if cfg.connectionName == [] then 3 else 4
    ensures var p := ClientProperties(cfg);
            && p[0] == KeyValue(Ascii("product"), Ascii("rabbitmq-stream-cpp-client"))
            && p[1] == KeyValue(Ascii("version"), Ascii("0.1.0"))
            && p[2] == KeyValue(Ascii("platform"), Ascii("C++17/POSIX"))
            && (|p| == 4 ==> p[3] == KeyValue(Ascii("connection_name"), cfg.connectionName))
  {
  }

  // ---- A handshake over a socket ------------------------------------------------------------

  /** The results of the first `n` read_frames over a stream and a script. */
  function Reads(unread: Bytes, recvs: seq<RecvEvent>, n: nat): seq<Result<IncomingFrame>>
    decreases n
  {
    if n == 0 then []
    else
      var next := NextFrame(unread, recvs);
      [next.result] + Reads(next.unread, next.recvs, n - 1)
  }

  /** What goes wrong with the write_alls of frames of these sizes over a script. */
  function Writes(sizes: seq<nat>, sends: seq<SendEvent>): seq<Option<StreamError>> {
    if sizes == [] then []
    else
      var p := Push(sizes[0], sends);
      [if p.failure.None? then None else Some(Error(p.failure.value))] + Writes(sizes[1..], p.sends)
  }

  /** Signals change neither what a handshake reads nor which of its writes fail, and how. */
  lemma {:induction false} HandshakeUndisturbed(
      unread: Bytes, recvs: seq<RecvEvent>, n: nat, sizes: seq<nat>, sends: seq<SendEvent>)
    ensures Reads(unread, Undisturbed(recvs), n) == Reads(unread, recvs, n)
    ensures Writes(sizes, WithoutSignals(sends)) == Writes(sizes, sends)
    decreases n + |sizes|
  {
    if n > 0 {
      var next := NextFrame(unread, recvs);
      FrameUndisturbed(unread, recvs);
      HandshakeUndisturbed(next.unread, next.recvs, n - 1, sizes, sends);
    } else if sizes != [] {
      PushUndisturbed(sizes[0], sends);
      HandshakeUndisturbed(unread, recvs, 0, sizes[1..], Push(sizes[0], sends).sends);
    }
  }

  /** How many sends of a script accept something. */
  function Offers(sends: seq<SendEvent>): nat {
    if sends == [] then 0 else (if sends[0].Accept? then 1 else 0) + Offers(sends[1..])
  }

  lemma {:induction false} PushCalmly(need: nat, sends: seq<SendEvent>, more: nat)
    requires (forall e | e in sends :: Willing(e)) && Offers(sends) >= need + more
    ensures var p := Push(need, sends);
            && p.failure.None? && (forall e | e in p.sends :: Willing(e)) && Offers(p.sends) >= more
    decreases |sends|
  {
    if need > 0 {
      assert sends[0] in sends;
      var m := if sends[0].Accept? then Moved(sends[0].limit, need, need) else 0;
      PushCalmly(need - m, sends[1..], more);
    }
  }

  function Sum(sizes: seq<nat>): nat { if sizes == [] then 0 else sizes[0] + Sum(sizes[1..]) }

  /** If no send fails and one accepts something for every byte, no write of a handshake fails. */
  lemma {:induction false} CalmWrites(sizes: seq<nat>, sends: seq<SendEvent>)
    requires (forall e | e in sends :: Willing(e)) && Offers(sends) >= Sum(sizes)
    ensures AllWritable(Writes(sizes, sends), |sizes|)
  {
    if sizes != [] {
      PushCalmly(sizes[0], sends, Sum(sizes[1..]));
      var tail := Writes(sizes[1..], Push(sizes[0], sends).sends);
      CalmWrites(sizes[1..], Push(sizes[0], sends).sends);
      forall i: nat | i < |sizes|
        ensures Writable(Writes(sizes, sends), i)
      {
        assert i > 0 ==> Writable(tail, i - 1);
      }
    }
  }
}
