/**
 The five-step handshake against an arbitrary server: what is sent, in which order and under
 which ids, when it succeeds, and what is negotiated.
 */
module Handshakes {
  import opened Base
  import opened BigEndian
  import opened Buffers
  import opened Frames
  import opened Commands
  import CommandCode
  import Wire

  /** The part of the connection configuration the handshake reads; texts are bytes. */
  datatype Config = Config(
    connectionName: Bytes, username: Bytes, password: Bytes, virtualHost: Bytes, frameMax: u32, heartbeat: u32)

  datatype HandshakeResult = HandshakeResult(
    frameMax: u32, heartbeat: u32, serverProperties: seq<Wire.KeyValue>, connectionProperties: seq<Wire.KeyValue>)

  const OK: u16 := 0x01
  const SASL_MECHANISM_NOT_SUPPORTED: u16 := 0x07
  const AUTHENTICATION_FAILURE: u16 := 0x08
  const SASL_CHALLENGE: u16 := 0x0A
  const SASL_AUTHENTICATION_FAILURE_LOOPBACK: u16 := 0x0B
  const VIRTUAL_HOST_ACCESS_FAILURE: u16 := 0x0C
  const ACCESS_REFUSED: u16 := 0x10

  const VERSION: u16 := 1

  function MapResponseCode(code: u16): StreamError {
    if code == AUTHENTICATION_FAILURE || code == SASL_AUTHENTICATION_FAILURE_LOOPBACK then Error(AuthenticationFailed)
    else if code == SASL_MECHANISM_NOT_SUPPORTED then Error(SaslMechanismNotSupported)
    else if code == VIRTUAL_HOST_ACCESS_FAILURE || code == ACCESS_REFUSED then Error(VirtualHostAccessDenied)
    else StreamError(ServerError, Some(code))
  }

  // ---- Negotiation ------------------------------------------------------------------

  function NegotiateFrameMax(server: u32, requested: u32): u32 {
    if requested == 0 then server else if server == 0 then requested else Min(server, requested)
  }

  function NegotiateHeartbeat(server: u32, requested: u32): u32 {
    if requested == 0 then server else Min(server, requested)
  }

  /** The minimum with 0 as infinity: a frame fits the negotiated limit iff it fits both. */
  lemma FrameMaxIsBoth(server: u32, requested: u32, size: nat)
    ensures Fits(size, NegotiateFrameMax(server, requested)) <==> Fits(size, server) && Fits(size, requested)
  {
  }

  /** "The lower of both, and 0 on either side disables" is kept unless only the client asks for 0. */
  lemma HeartbeatExactly(server: u32, requested: u32)
    ensures NegotiateHeartbeat(server, requested) <= server
    ensures requested != 0 ==> NegotiateHeartbeat(server, requested) <= requested
    ensures NegotiateHeartbeat(server, requested) == Min(server, requested) <==> requested != 0 || server == 0
  {
  }

  /** The client cannot switch heartbeats off: 0 against 60 yields 60. */
  lemma ZeroIsIgnored()
    ensures NegotiateHeartbeat(60, 0) == 60 && Min(60, 0) == 0
  {
  }

  // ---- The connection -----------------------------------------------------------------

  /** What the i-th read_frame returns; a connection that has nothing more to say is closed. */
  function At(inbox: seq<Result<IncomingFrame>>, i: nat): Result<IncomingFrame> {
    if i < |inbox| then inbox[i] else Err(Error(ConnectionClosed))
  }

  /** Does the i-th write_all succeed? */
  predicate Writable(faults: seq<Option<StreamError>>, i: nat) { i >= |faults| || faults[i].None? }

  /** The error of a write that fails. */
  function Fault(faults: seq<Option<StreamError>>, i: nat): StreamError {
    if i < |faults| && faults[i].Some? then faults[i].value else Error(IoError)
  }

  ghost predicate AllWritable(faults: seq<Option<StreamError>>, n: nat) { forall i: nat | i < n :: Writable(faults, i) }

  class Link {
    const inbox: seq<Result<IncomingFrame>>
    const faults: seq<Option<StreamError>>
    var received: nat
    var attempted: nat
    var sent: seq<Bytes>                // the frames written completely

    ghost predicate Valid()
    {
      forall i | 0 <= i < |inbox| && inbox[i].Ok? :: WellFormed(inbox[i].value)
    }

    constructor (inbox: seq<Result<IncomingFrame>>, faults: seq<Option<StreamError>>)
      ensures this.inbox == inbox && this.faults == faults && received == 0 && attempted == 0 && sent == []
    {
      this.inbox, this.faults, received, attempted, sent := inbox, faults, 0, 0, [];
    }

    method ReadFrame() returns (r: Result<IncomingFrame>)
      modifies this`received
      ensures r == At(inbox, old(received)) && received == old(received) + 1
    {
      r := At(inbox, received);
      received := received + 1;
    }

    method WriteAll(frame: Bytes) returns (r: Result<()>)
      modifies this`attempted, this`sent
      ensures attempted == old(attempted) + 1
      ensures r == if Writable(faults, old(attempted)) then Ok(()) else Err(Fault(faults, old(attempted)))
      ensures sent == old(sent) + if r.Ok? then [frame] else []
    {
      var i := attempted;
      attempted := attempted + 1;
      if i < |faults| && faults[i].Some? {
        return Err(faults[i].value);
      }
      sent := sent + [frame];
      r := Ok(());
    }
  }

  // ---- One exchange -------------------------------------------------------------------

  function RequestBytes(c: Command, cid: u32): Bytes { Envelope(Payload(KeyOf(c), VERSION, Some(cid), EncodeBody(c))) }

  function OnewayBytes(c: Command): Bytes { Envelope(Payload(KeyOf(c), VERSION, None, EncodeBody(c))) }

  /** The request that opens the vhost "/" fits a limit of 11 bytes, or none. */
  lemma SmallestOpen(cid: u32, frameMax: u32)
    ensures Fits(|RequestBytes(OpenRequest(Ascii("/")), cid)| - 4, frameMax) <==> frameMax == 0 || 11 <= frameMax
  {
    var vhost := Ascii("/");
    AppendOne([], Text(vhost));
    assert |Wire.EncodeText(vhost)| == 3;
    assert |EncodeBody(OpenRequest(vhost))| == 3;
  }

  method SendRequest(link: Link, c: Command, cid: u32, frameMax: u32) returns (r: Result<()>)
    requires CommandCode.IsHandshake(c)
    modifies link`attempted, link`sent
    ensures r == if !Fits(|RequestBytes(c, cid)| - 4, frameMax) then Err(Error(ProtocolViolation))
                 else if Writable(link.faults, old(link.attempted)) then Ok(())
                 else Err(Fault(link.faults, old(link.attempted)))
    ensures r.Ok? ==> link.attempted == old(link.attempted) + 1
    ensures link.sent == old(link.sent) + if r.Ok? then [RequestBytes(c, cid)] else []
  {
    hide EncodeBody, Encode;
    var body := new BufferWriter();
    CommandCode.EncodeHandshake(c, body);
    var bytes := body.Take();
    assert bytes == EncodeBody(c);
    var frame := EncodeRequestFrame(KeyOf(c), VERSION, cid, bytes);
    var checked := CheckOutboundFrameSize(|frame| - 4, frameMax);
    if checked.Err? {
      return checked;
    }
    r := link.WriteAll(frame);
  }

  method SendOneway(link: Link, c: Command) returns (r: Result<()>)
    requires CommandCode.IsHandshake(c)
    modifies link`attempted, link`sent
    ensures r == if Writable(link.faults, old(link.attempted)) then Ok(())
                 else Err(Fault(link.faults, old(link.attempted)))
    ensures link.attempted == old(link.attempted) + 1
    ensures link.sent == old(link.sent) + if r.Ok? then [OnewayBytes(c)] else []
  {
    hide EncodeBody, Encode;
    var body := new BufferWriter();
    CommandCode.EncodeHandshake(c, body);
    var bytes := body.Take();
    assert bytes == EncodeBody(c);
    var frame := EncodeOnewayFrame(KeyOf(c), VERSION, bytes);
    r := link.WriteAll(frame);
  }

  predicate IsReplyKey(key: u16) {
    || key == ResponseOf(PEER_PROPERTIES) || key == ResponseOf(SASL_HANDSHAKE) || key == ResponseOf(SASL_AUTHENTICATE)
    || key == ResponseOf(OPEN) || key == TUNE
  }

  /** What the client makes of a read: the right key, the right id unless it is 0, a body that decodes. */
  function Reply(read: Result<IncomingFrame>, key: u16, cid: u32): Result<Command>
    requires IsReplyKey(key)
  {
    match read
    case Err(e) => Err(e)
    case Ok(f) =>
      if f.key != key then Err(Error(ProtocolViolation))
      else if cid != 0 && f.correlationId != Some(cid) then Err(Error(ProtocolViolation))
      else
        match ParseBody(key, f.body)
        case Done(c, _) => Ok(c)
        case Fail(kind) => Err(Error(kind))
  }

  /** A frame under this key and, unless it is 0, this id. */
  predicate Fitting(f: IncomingFrame, key: u16, cid: u32) {
    f.key == key && (cid != 0 ==> f.correlationId == Some(cid))
  }

  /** Only a fitting frame is taken, and any other one is a protocol violation. */
  predicate Matched(read: Result<IncomingFrame>, key: u16, cid: u32, r: Result<Command>) {
    && (r.Ok? ==> read.Ok? && Fitting(read.value, key, cid))
    && (read.Ok? && !Fitting(read.value, key, cid) ==> r == Err(Error(ProtocolViolation)))
  }

  /** recv_response; with `cid` 0 it is recv_oneway. */
  method Receive(link: Link, key: u16, cid: u32) returns (r: Result<Command>)
    requires link.Valid() && IsReplyKey(key)
    modifies link`received
    ensures link.received == old(link.received) + 1
    ensures r == Reply(At(link.inbox, old(link.received)), key, cid)
    ensures r.Ok? ==> KeyOf(r.value) == key && old(link.received) < |link.inbox|
    ensures Matched(At(link.inbox, old(link.received)), key, cid, r)
  {
    var read := link.ReadFrame();
    if read.Err? {
      return Err(read.error);
    }
    assert WellFormed(read.value);
    if read.value.key != key {
      return Err(Error(ProtocolViolation));
    }
    if cid != 0 && (read.value.correlationId.None? || read.value.correlationId.value != cid) {
      return Err(Error(ProtocolViolation));
    }
    r := Decode(key, read.value.body);
  }

  method Decode(key: u16, body: Bytes) returns (r: Result<Command>)
    requires IsReplyKey(key) && |body| < TWO_64
    ensures r == match ParseBody(key, body) case Done(c, _) => Ok(c) case Fail(kind) => Err(Error(kind))
    ensures r.Ok? ==> KeyOf(r.value) == key
  {
    if ParseBody(key, body).Done? { BodyCanonical(key, body); }
    hide ParseBody;
    var br := new BufferReader(body);
    if key == TUNE {
      r := CommandCode.DecodeTune(br);
    } else if key == ResponseOf(PEER_PROPERTIES) {
      r := CommandCode.DecodePeerPropertiesResponse(br);
    } else if key == ResponseOf(SASL_HANDSHAKE) {
      r := CommandCode.DecodeSaslHandshakeResponse(br);
    } else if key == ResponseOf(SASL_AUTHENTICATE) {
      r := CommandCode.DecodeSaslAuthenticateResponse(br);
    } else {
      r := CommandCode.DecodeOpenResponse(br);
    }
  }

  /** What becomes of a request of `size` bytes whose reply would be `reply`. */
  function Asked(size: nat, frameMax: u32, faults: seq<Option<StreamError>>, i: nat, reply: Result<Command>)
    : Result<Command>
  {
    if !Fits(size, frameMax) then Err(Error(ProtocolViolation))
    else if !Writable(faults, i) then Err(Fault(faults, i))
    else reply
  }

  /** One request and its reply. */
  method Exchange(link: Link, c: Command, cid: u32, frameMax: u32, key: u16) returns (r: Result<Command>)
    requires link.Valid() && CommandCode.IsHandshake(c) && IsReplyKey(key)
    modifies link`attempted, link`sent, link`received
    ensures r == Asked(|RequestBytes(c, cid)| - 4, frameMax, link.faults, old(link.attempted),
                       Reply(At(link.inbox, old(link.received)), key, cid))
    ensures r.Ok? ==> KeyOf(r.value) == key
    ensures link.sent == old(link.sent)
              + if Fits(|RequestBytes(c, cid)| - 4, frameMax) && Writable(link.faults, old(link.attempted))
                then [RequestBytes(c, cid)] else []
    ensures r.Ok? ==> link.attempted == old(link.attempted) + 1
    ensures r.Ok? ==> link.received == old(link.received) + 1 <= |link.inbox|
    ensures link.received
            == old(link.received)
               + if Fits(|RequestBytes(c, cid)| - 4, frameMax) && Writable(link.faults, old(link.attempted)) then 1
                 else 0
    ensures link.received > old(link.received) ==> Matched(At(link.inbox, old(link.received)), key, cid, r)
  {
    hide RequestBytes, Reply, Fits, Matched;
    var _ :- SendRequest(link, c, cid, frameMax);
    r := Receive(link, key, cid);
  }

  // ---- The script ---------------------------------------------------------------------

  /** The id of the k-th correlated request: a 32-bit counter that starts at 1. */
  function CidOf(k: nat): u32 { Counter(1, k) }

  function ClientProperties(cfg: Config): seq<Wire.KeyValue> {
    [Wire.KeyValue(Ascii("product"), Ascii("rabbitmq-stream-cpp-client")),
     Wire.KeyValue(Ascii("version"), Ascii("0.1.0")),
     Wire.KeyValue(Ascii("platform"), Ascii("C++17/POSIX"))]
    + if cfg.connectionName == [] then [] else [Wire.KeyValue(Ascii("connection_name"), cfg.connectionName)]
  }

  function PeerRequest(cfg: Config): Command { PeerPropertiesRequest(ClientProperties(cfg)) }

  function Credentials(cfg: Config): Command {
    SaslAuthenticateRequest(Ascii("PLAIN"), [0] + cfg.username + [0] + cfg.password)
  }

  function Negotiate(cfg: Config, server: Command): Command
    requires server.Tune?
  {
    Tune(NegotiateFrameMax(server.frameMax, cfg.frameMax), NegotiateHeartbeat(server.heartbeat, cfg.heartbeat))
  }

  /** The authentication requests of `n` rounds, under consecutive ids from 3 on. */
  function Attempts(cfg: Config, n: nat): (frames: seq<Bytes>)
    ensures |frames| == n
  {
    if n == 0 then [] else Attempts(cfg, n - 1) + [RequestBytes(Credentials(cfg), CidOf(n + 1))]
  }

  /** PeerProperties, SaslHandshake, `n` times SaslAuthenticate. */
  function Opening(cfg: Config, n: nat): seq<Bytes> {
    [RequestBytes(PeerRequest(cfg), CidOf(0)), RequestBytes(SaslHandshakeRequest, CidOf(1))] + Attempts(cfg, n)
  }

  /** Everything the client sends in a handshake of `n` rounds: the opening, Tune, and Open. */
  function Script(cfg: Config, n: nat, tune: Command): seq<Bytes> {
    Opening(cfg, n) + [OnewayBytes(tune), RequestBytes(OpenRequest(cfg.virtualHost), CidOf(n + 2))]
  }

  lemma {:induction false} AttemptAt(cfg: Config, n: nat, j: nat)
    requires j < n
    ensures Attempts(cfg, n)[j] == RequestBytes(Credentials(cfg), CidOf(j + 2))
  {
    hide RequestBytes, Counter, Credentials;
    if j < n - 1 {
      AttemptAt(cfg, n - 1, j);
    }
  }

  /** The correlated requests of a script carry the ids 1, 2, 3, ... in order, up to the wrap. */
  lemma ConsecutiveIds(cfg: Config, n: nat, tune: Command, k: nat)
    requires k < n + 3
    ensures var s := Script(cfg, n, tune);
            |s| == n + 4 && exists c :: (if k < n + 2 then s[k] else s[k + 1]) == RequestBytes(c, CidOf(k))
    ensures k + 1 < TWO_32 ==> CidOf(k) == k + 1
  {
    hide RequestBytes, OnewayBytes, Credentials, PeerRequest;
    assert k + 1 < TWO_32 ==> CidOf(k) == k + 1;
    hide Counter;
    if 2 <= k < n + 2 {
      AttemptAt(cfg, n, k - 2);
      assert Script(cfg, n, tune)[k] == Attempts(cfg, n)[k - 2];
    }
  }

  function CodeOf(c: Command): Option<u16> {
    match c
    case PeerPropertiesResponse(code, _) => Some(code)
    case SaslHandshakeResponse(code, _) => Some(code)
    case SaslAuthenticateResponse(code, _) => Some(code)
    case OpenResponse(code, _) => Some(code)
    case _ => None
  }

  function PropertiesOf(r: Result<Command>): seq<Wire.KeyValue> {
    match r
    case Ok(PeerPropertiesResponse(_, kvs)) => kvs
    case Ok(OpenResponse(_, kvs)) => kvs
    case _ => []
  }

  /** The read is a reply under this key and id with this response code. */
  predicate Replies(read: Result<IncomingFrame>, key: u16, cid: u32, code: u16)
    requires IsReplyKey(key)
  {
    var r := Reply(read, key, cid);
    r.Ok? && CodeOf(r.value) == Some(code)
  }

  /** The frame with which the i-th read of a handshake of `n` rounds must answer: key and id, 0 for any id. */
  function Place(i: nat, n: nat): (u16, u32) {
    if i == 0 then (0x8011, 1)
    else if i == 1 then (0x8012, 2)
    else if i < n + 2 then (0x8013, (i + 1) % TWO_32)
    else if i == n + 2 then (0x0014, 0)
    else (0x8015, (n + 3) % TWO_32)
  }

  predicate InPlace(inbox: seq<Result<IncomingFrame>>, i: nat, n: nat) {
    i < |inbox| && inbox[i].Ok? && Fitting(inbox[i].value, Place(i, n).0, Place(i, n).1)
  }

  /**
   Of the frames read, all are in place if there was no error, and all but the last if there was;
   and a last one that is out of place is a protocol violation.
   */
  ghost predicate Obeyed(inbox: seq<Result<IncomingFrame>>, received: nat, n: nat, error: Option<StreamError>) {
    && (forall i | 0 <= i < received && (error.None? || i < received - 1) :: InPlace(inbox, i, n))
    && (error.Some? && 0 < received <= |inbox| && inbox[received - 1].Ok? && !InPlace(inbox, received - 1, n) ==>
          error == Some(Error(ProtocolViolation)))
  }

  function ErrorOf<T>(r: Result<T>): Option<StreamError> { if r.Ok? then None else Some(r.error) }

  /** However many rounds from `k` on there will be. */
  ghost predicate ObeyedFrom(inbox: seq<Result<IncomingFrame>>, received: nat, k: nat, error: Option<StreamError>) {
    forall n: nat | n >= k :: Obeyed(inbox, received, n, error)
  }

  lemma ObeyedOneMore(inbox: seq<Result<IncomingFrame>>, i: nat, n: nat, key: u16, cid: u32, r: Result<Command>)
    requires Obeyed(inbox, i, n, None) && (key, cid) == Place(i, n) && Matched(At(inbox, i), key, cid, r)
    ensures Obeyed(inbox, i + 1, n, ErrorOf(r))
  {
  }

  lemma ObeyedSoFar(inbox: seq<Result<IncomingFrame>>, i: nat, k: nat, error: StreamError)
    requires ObeyedFrom(inbox, i, k, None)
    ensures ObeyedFrom(inbox, i, k, Some(error))
  {
    forall n: nat | n >= k
      ensures Obeyed(inbox, i, n, Some(error))
    {
      assert Obeyed(inbox, i, n, None);
    }
  }

  lemma NothingRead(inbox: seq<Result<IncomingFrame>>)
    ensures ObeyedFrom(inbox, 0, 0, None)
  {
  }

  lemma ObeyedLonger(inbox: seq<Result<IncomingFrame>>, i: nat, k: nat)
    requires ObeyedFrom(inbox, i, k, None)
    ensures ObeyedFrom(inbox, i, k + 1, None)
  {
    hide Obeyed;
  }

  lemma IdAt(k: nat)
    ensures CidOf(k) == (k + 1) % TWO_32
  {
  }

  /** A read that belongs to the place in every handshake of enough rounds. */
  lemma ObeyedFromOneMore(inbox: seq<Result<IncomingFrame>>, i: nat, k: nat, key: u16, cid: u32, r: Result<Command>)
    requires ObeyedFrom(inbox, i, k, None) && Matched(At(inbox, i), key, cid, r)
    requires i < k + 2 && (key, cid) == Place(i, k)
    ensures ObeyedFrom(inbox, i + 1, k, ErrorOf(r))
  {
    hide Obeyed, Matched;
    var next, error := i + 1, ErrorOf(r);
    forall n: nat | n >= k
      ensures Obeyed(inbox, next, n, error)
    {
      ObeyedOneMore(inbox, i, n, key, cid, r);
    }
  }

  predicate PeerAccepted(inbox: seq<Result<IncomingFrame>>) {
    Replies(At(inbox, 0), ResponseOf(PEER_PROPERTIES), CidOf(0), OK)
  }

  predicate OffersPlain(inbox: seq<Result<IncomingFrame>>) {
    var r := Reply(At(inbox, 1), ResponseOf(SASL_HANDSHAKE), CidOf(1));
    r.Ok? && r.value.SaslHandshakeResponse? && r.value.code == OK && Ascii("PLAIN") in r.value.mechanisms
  }

  /** The code of the reply to the i-th authentication request. */
  predicate Round(inbox: seq<Result<IncomingFrame>>, i: nat, code: u16) {
    Replies(At(inbox, i + 2), ResponseOf(SASL_AUTHENTICATE), CidOf(i + 2), code)
  }

  /** Authentication takes exactly `n` rounds: a challenge in all but the last. */
  ghost predicate Authenticates(inbox: seq<Result<IncomingFrame>>, n: nat) {
    n >= 1 && Round(inbox, n - 1, OK) && forall i: nat | i < n - 1 :: Round(inbox, i, SASL_CHALLENGE)
  }

  predicate Tunes(inbox: seq<Result<IncomingFrame>>, n: nat) {
    var r := Reply(At(inbox, n + 2), TUNE, 0);
    r.Ok? && r.value.Tune?
  }

  function Tuned(cfg: Config, inbox: seq<Result<IncomingFrame>>, n: nat): Command
    requires Tunes(inbox, n)
  {
    Negotiate(cfg, Reply(At(inbox, n + 2), TUNE, 0).value)
  }

  /** The server plays along in a handshake of `n` rounds and the connection takes every frame. */
  ghost predicate Succeeds(cfg: Config, inbox: seq<Result<IncomingFrame>>, faults: seq<Option<StreamError>>, n: nat) {
    && PeerAccepted(inbox) && OffersPlain(inbox) && Authenticates(inbox, n) && Tunes(inbox, n)
    && Replies(At(inbox, n + 3), ResponseOf(OPEN), CidOf(n + 2), OK)
    && AllWritable(faults, n + 4)
    && Fits(|RequestBytes(OpenRequest(cfg.virtualHost), CidOf(n + 2))| - 4, Tuned(cfg, inbox, n).frameMax)
  }

  /** The error a reply, or its absence, leads to. */
  function Refusal(r: Result<Command>): StreamError {
    match r
    case Err(e) => e
    case Ok(c) => if CodeOf(c).Some? then MapResponseCode(CodeOf(c).value) else Error(ProtocolViolation)
  }

  /** Why steps 1 and 2 fail, when they do. */
  function GreetingError(inbox: seq<Result<IncomingFrame>>, faults: seq<Option<StreamError>>): StreamError {
    var peer := Reply(At(inbox, 0), ResponseOf(PEER_PROPERTIES), CidOf(0));
    var sasl := Reply(At(inbox, 1), ResponseOf(SASL_HANDSHAKE), CidOf(1));
    if !Writable(faults, 0) then Fault(faults, 0)
    else if !PeerAccepted(inbox) then Refusal(peer)
    else if !Writable(faults, 1) then Fault(faults, 1)
    else if !Replies(At(inbox, 1), ResponseOf(SASL_HANDSHAKE), CidOf(1), OK) then Refusal(sasl)
    else Error(SaslMechanismNotSupported)
  }

  /** Why authentication fails when `n` requests were sent: the last reply, or the next write. */
  function AuthenticationError(inbox: seq<Result<IncomingFrame>>, faults: seq<Option<StreamError>>, n: nat)
    : StreamError
  {
    if n > 0 && !Round(inbox, n - 1, SASL_CHALLENGE) then
      Refusal(Reply(At(inbox, n + 1), ResponseOf(SASL_AUTHENTICATE), CidOf(n + 1)))
    else Fault(faults, n + 2)
  }

  /** Why steps 4 and 5 fail after `n` rounds, when they do. */
  function OpeningError(cfg: Config, inbox: seq<Result<IncomingFrame>>, faults: seq<Option<StreamError>>, n: nat)
    : StreamError
  {
    if !Tunes(inbox, n) then Refusal(Reply(At(inbox, n + 2), TUNE, 0))
    else if !Writable(faults, n + 2) then Fault(faults, n + 2)
    else
      var size := |RequestBytes(OpenRequest(cfg.virtualHost), CidOf(n + 2))| - 4;
      Refusal(Asked(size, Tuned(cfg, inbox, n).frameMax, faults, n + 3,
                    Reply(At(inbox, n + 3), ResponseOf(OPEN), CidOf(n + 2))))
  }

  /** The first `k` frames of a handshake of `n` rounds were each earned by the replies before them. */
  ghost predicate Earned(inbox: seq<Result<IncomingFrame>>, n: nat, k: nat) {
    && (k >= 2 ==> PeerAccepted(inbox))
    && (k >= 3 ==> OffersPlain(inbox))
    && (forall i: nat | i < n && i + 3 < k :: Round(inbox, i, SASL_CHALLENGE) || (i == n - 1 && Round(inbox, i, OK)))
    && (k > n + 2 ==> n >= 1 && Authenticates(inbox, n) && Tunes(inbox, n))
  }

  lemma OneCode(inbox: seq<Result<IncomingFrame>>, i: nat)
    ensures !(Round(inbox, i, OK) && Round(inbox, i, SASL_CHALLENGE))
  {
    hide Reply, Counter;
  }

  lemma NotLonger(inbox: seq<Result<IncomingFrame>>, m: nat, n: nat)
    requires Authenticates(inbox, m) && m < n
    ensures !Authenticates(inbox, n)
  {
    OneCode(inbox, m - 1);
    hide Round;
  }

  /** Authentication takes one number of rounds at most. */
  lemma OneOutcome(inbox: seq<Result<IncomingFrame>>, m: nat, n: nat)
    requires Authenticates(inbox, m) && Authenticates(inbox, n)
    ensures m == n
  {
    hide Authenticates;
    if m < n { NotLonger(inbox, m, n); }
    if n < m { NotLonger(inbox, n, m); }
  }

  /** After `k` challenges, the reply in round `k` decides. */
  lemma OneMoreRound(inbox: seq<Result<IncomingFrame>>, n: nat, k: nat)
    requires Authenticates(inbox, n) && forall i: nat | i < k :: Round(inbox, i, SASL_CHALLENGE)
    ensures k < n && (Round(inbox, k, OK) || Round(inbox, k, SASL_CHALLENGE))
  {
    OneCode(inbox, n - 1);
    hide Round;
  }

  /**
   The challenge loop. It ends because every round consumes a frame, and authentication succeeds
   iff some number of rounds does and the connection takes their frames.
   */
  method Authenticate(link: Link, cfg: Config, first: u32) returns (r: Result<u32>, ghost rounds: nat)
    requires link.Valid() && link.received == 2 && link.attempted == 2 && first == CidOf(2)
    requires AllWritable(link.faults, 2) && ObeyedFrom(link.inbox, 2, 0, None)
    modifies link`attempted, link`sent, link`received
    ensures ObeyedFrom(link.inbox, link.received, rounds, ErrorOf(r)) && link.received <= rounds + 2
    ensures link.sent == old(link.sent) + Attempts(cfg, rounds)
    ensures forall i: nat | i + 1 < rounds :: Round(link.inbox, i, SASL_CHALLENGE)
    ensures r.Ok? ==> Authenticates(link.inbox, rounds) && r.value == CidOf(rounds + 2)
    ensures r.Ok? ==> AllWritable(link.faults, rounds + 2)
    ensures r.Ok? ==> link.received == rounds + 2 && link.attempted == rounds + 2
    ensures r.Err? ==> forall n: nat | Authenticates(link.inbox, n) :: !AllWritable(link.faults, n + 2)
    ensures r.Err? ==> r.error == AuthenticationError(link.inbox, link.faults, rounds)
  {
    hide Reply, RequestBytes, Counter, Increment, ObeyedFrom, Matched;
    var request := Credentials(cfg);
    var cid := first;
    rounds := 0;
    while true
      invariant cid == CidOf(rounds + 2) && link.received == rounds + 2 && link.attempted == rounds + 2
      invariant link.sent == old(link.sent) + Attempts(cfg, rounds)
      invariant forall i: nat | i < rounds :: Round(link.inbox, i, SASL_CHALLENGE)
      invariant AllWritable(link.faults, rounds + 2)
      invariant ObeyedFrom(link.inbox, link.received, rounds, None)
      decreases |link.inbox| - link.received
    {
      CounterSteps(1, rounds + 2);
      var writable := Writable(link.faults, link.attempted);
      var reply := Exchange(link, request, cid, 0, ResponseOf(SASL_AUTHENTICATE));
      ghost var k := rounds;
      ObeyedLonger(link.inbox, k + 2, k);
      forall n: nat | Authenticates(link.inbox, n)
        ensures k < n && (Round(link.inbox, k, OK) || Round(link.inbox, k, SASL_CHALLENGE))
      {
        OneMoreRound(link.inbox, n, k);
      }
      if writable {
        rounds := rounds + 1;
        IdAt(k + 2);
        ObeyedFromOneMore(link.inbox, k + 2, rounds, ResponseOf(SASL_AUTHENTICATE), CidOf(k + 2), reply);
      } else {
        ObeyedSoFar(link.inbox, k + 2, k, reply.error);
      }
      if reply.Err? {
        return Err(reply.error), rounds;
      }
      cid := Increment(cid);
      if reply.value.code == OK {
        return Ok(cid), rounds;
      }
      if reply.value.code != SASL_CHALLENGE {
        ObeyedSoFar(link.inbox, link.received, rounds, MapResponseCode(reply.value.code));
        return Err(MapResponseCode(reply.value.code)), rounds;
      }
    }
  }

  /** Offers of the server's SaslHandshake, looked through one by one. */
  method OffersMechanism(mechanisms: seq<Bytes>, wanted: Bytes) returns (found: bool)
    ensures found <==> wanted in mechanisms
  {
    found := false;
    for i := 0 to |mechanisms|
      invariant wanted !in mechanisms[..i]
    {
      if mechanisms[i] == wanted {
        return true;
      }
    }
  }

  /** Steps 1 and 2: PeerProperties and SaslHandshake. */
  method Greet(link: Link, cfg: Config) returns (r: Result<seq<Wire.KeyValue>>, cid: u32)
    requires link.Valid() && link.received == 0 && link.attempted == 0 && link.sent == []
    modifies link`attempted, link`sent, link`received
    ensures r.Ok? <==> PeerAccepted(link.inbox) && OffersPlain(link.inbox) && AllWritable(link.faults, 2)
    ensures r.Ok? ==> link.received == 2 && link.attempted == 2 && link.sent == Opening(cfg, 0) && cid == CidOf(2)
    ensures r.Ok? ==> r.value == PropertiesOf(Reply(At(link.inbox, 0), ResponseOf(PEER_PROPERTIES), CidOf(0)))
    ensures r.Err? ==> r.error == GreetingError(link.inbox, link.faults)
    ensures link.sent <= Opening(cfg, 0) && (|link.sent| >= 2 ==> PeerAccepted(link.inbox))
    ensures link.received <= 2 && ObeyedFrom(link.inbox, link.received, 0, ErrorOf(r))
  {
    hide Reply, RequestBytes, Counter, Increment, ClientProperties, Ascii, ObeyedFrom, Matched;
    cid := 1;
    CounterSteps(1, 0);
    CounterSteps(1, 1);
    IdAt(1);
    var peer := Exchange(link, PeerRequest(cfg), cid, 0, ResponseOf(PEER_PROPERTIES));
    NothingRead(link.inbox);
    if link.received == 1 {
      ObeyedFromOneMore(link.inbox, 0, 0, ResponseOf(PEER_PROPERTIES), 1, peer);
    } else {
      ObeyedSoFar(link.inbox, 0, 0, peer.error);
    }
    if peer.Err? {
      return Err(peer.error), cid;
    }
    cid := Increment(cid);
    if peer.value.code != OK {
      ObeyedSoFar(link.inbox, 1, 0, MapResponseCode(peer.value.code));
      return Err(MapResponseCode(peer.value.code)), cid;
    }
    var sasl := Exchange(link, SaslHandshakeRequest, cid, 0, ResponseOf(SASL_HANDSHAKE));
    if link.received == 2 {
      assert cid == 2;
      ObeyedFromOneMore(link.inbox, 1, 0, ResponseOf(SASL_HANDSHAKE), 2, sasl);
    } else {
      ObeyedSoFar(link.inbox, 1, 0, sasl.error);
    }
    if sasl.Err? {
      return Err(sasl.error), cid;
    }
    cid := Increment(cid);
    if sasl.value.code != OK {
      ObeyedSoFar(link.inbox, 2, 0, MapResponseCode(sasl.value.code));
      return Err(MapResponseCode(sasl.value.code)), cid;
    }
    var plain := OffersMechanism(sasl.value.mechanisms, Ascii("PLAIN"));
    if !plain {
      ObeyedSoFar(link.inbox, 2, 0, Error(SaslMechanismNotSupported));
      return Err(Error(SaslMechanismNotSupported)), cid;
    }
    r := Ok(peer.value.properties);
  }

  lemma OpenPlace(n: nat)
    ensures Place(n + 2, n) == (TUNE, 0) && Place(n + 3, n) == (ResponseOf(OPEN), CidOf(n + 2))
  {
    IdAt(n + 2);
    hide Counter;
  }

  lemma AllBut(inbox: seq<Result<IncomingFrame>>, i: nat, n: nat, error: StreamError)
    requires Obeyed(inbox, i, n, None)
    ensures Obeyed(inbox, i, n, Some(error))
  {
  }

  /** Step 4: the server's Tune is answered with what is negotiated. */
  method AnswerTune(link: Link, cfg: Config, ghost n: nat) returns (r: Result<Command>, ghost tune: Command)
    requires link.Valid() && link.received == n + 2 && link.attempted == n + 2 && ObeyedFrom(link.inbox, n + 2, n, None)
    modifies link`attempted, link`sent, link`received
    ensures Obeyed(link.inbox, n + 3, n, ErrorOf(r)) && link.received == n + 3
    ensures r.Ok? <==> Tunes(link.inbox, n) && Writable(link.faults, n + 2)
    ensures tune.Tune? && (r.Ok? ==> link.attempted == n + 3 && r.value == tune == Tuned(cfg, link.inbox, n))
    ensures r.Err? ==> r.error == if Tunes(link.inbox, n) then Fault(link.faults, n + 2)
                                  else Refusal(Reply(At(link.inbox, n + 2), TUNE, 0))
    ensures link.sent == old(link.sent) + if r.Ok? then [OnewayBytes(tune)] else []
  {
    hide Reply, RequestBytes, OnewayBytes, Counter, Fits, Obeyed, Matched, Place;
    tune := Tune(0, 0);
    var server := Receive(link, TUNE, 0);
    assert Obeyed(link.inbox, n + 2, n, None);
    OpenPlace(n);
    ObeyedOneMore(link.inbox, n + 2, n, TUNE, 0, server);
    if server.Err? {
      return Err(server.error), tune;
    }
    var frameMax := server.value.frameMax;
    if cfg.frameMax != 0 {
      if frameMax == 0 {
        frameMax := cfg.frameMax;
      } else {
        frameMax := Min(frameMax, cfg.frameMax);
      }
    }
    var heartbeat := server.value.heartbeat;
    if cfg.heartbeat != 0 {
      heartbeat := Min(heartbeat, cfg.heartbeat);
    }
    var answer := Tune(frameMax, heartbeat);
    assert answer == Tuned(cfg, link.inbox, n);
    tune := answer;
    var tuned := SendOneway(link, answer);
    if tuned.Err? {
      AllBut(link.inbox, n + 3, n, tuned.error);
      return Err(tuned.error), tune;
    }
    r := Ok(answer);
  }

  /** Steps 4 and 5: Tune and Open, behind `n` rounds of authentication. */
  method Finish(link: Link, cfg: Config, cid: u32, serverProperties: seq<Wire.KeyValue>, ghost n: nat)
    returns (r: Result<HandshakeResult>, ghost tune: Command)
    requires link.Valid() && link.received == n + 2 && link.attempted == n + 2 && cid == CidOf(n + 2)
    requires AllWritable(link.faults, n + 2) && ObeyedFrom(link.inbox, n + 2, n, None)
    modifies link`attempted, link`sent, link`received
    ensures Obeyed(link.inbox, link.received, n, ErrorOf(r)) && n + 2 <= link.received <= n + 4
    ensures r.Ok? ==> link.received == n + 4
    ensures r.Ok? <==> Tunes(link.inbox, n)
                       && Replies(At(link.inbox, n + 3), ResponseOf(OPEN), CidOf(n + 2), OK)
                       && AllWritable(link.faults, n + 4)
                       && Fits(|RequestBytes(OpenRequest(cfg.virtualHost), CidOf(n + 2))| - 4,
                               Tuned(cfg, link.inbox, n).frameMax)
    ensures tune.Tune? && (r.Ok? ==> tune == Tuned(cfg, link.inbox, n))
    ensures r.Err? ==> r.error == OpeningError(cfg, link.inbox, link.faults, n)
    ensures r.Ok? ==> r.value == HandshakeResult(tune.frameMax, tune.heartbeat, serverProperties,
                        PropertiesOf(Reply(At(link.inbox, n + 3), ResponseOf(OPEN), CidOf(n + 2))))
    ensures r.Ok? ==> link.sent == old(link.sent) + [OnewayBytes(tune), RequestBytes(OpenRequest(cfg.virtualHost), cid)]
    ensures old(link.sent) <= link.sent
    ensures link.sent <= old(link.sent) + [OnewayBytes(tune), RequestBytes(OpenRequest(cfg.virtualHost), cid)]
    ensures link.sent != old(link.sent) ==> Tunes(link.inbox, n) && tune == Tuned(cfg, link.inbox, n)
    ensures |link.sent| == |old(link.sent)| + 2 ==>
              Fits(|RequestBytes(OpenRequest(cfg.virtualHost), CidOf(n + 2))| - 4, tune.frameMax)
  {
    hide Reply, RequestBytes, OnewayBytes, Counter, Fits, Obeyed, Matched, Place;
    var tuned;
    tuned, tune := AnswerTune(link, cfg, n);
    if tuned.Err? {
      return Err(tuned.error), tune;
    }
    var frameMax, heartbeat := tuned.value.frameMax, tuned.value.heartbeat;
    var open := Exchange(link, OpenRequest(cfg.virtualHost), cid, frameMax, ResponseOf(OPEN));
    if link.received == n + 4 {
      OpenPlace(n);
      ObeyedOneMore(link.inbox, n + 3, n, ResponseOf(OPEN), cid, open);
    } else {
      AllBut(link.inbox, n + 3, n, open.error);
    }
    if open.Err? {
      return Err(open.error), tune;
    }
    if open.value.code != OK {
      AllBut(link.inbox, n + 4, n, MapResponseCode(open.value.code));
      return Err(MapResponseCode(open.value.code)), tune;
    }
    r := Ok(HandshakeResult(frameMax, heartbeat, serverProperties, open.value.properties));
  }

  /**
   A run against any server succeeds iff the server plays along for some number of rounds and the
   connection takes every frame. What is sent is always the beginning of one script, every frame of
   it earned by the replies before it; a successful run sends the whole script and returns what
   was negotiated.
   */
  method RunHandshake(link: Link, cfg: Config)
    returns (r: Result<HandshakeResult>, ghost rounds: nat, ghost tune: Command)
    requires link.Valid() && link.received == 0 && link.attempted == 0 && link.sent == []
    modifies link`attempted, link`sent, link`received
    ensures Obeyed(link.inbox, link.received, rounds, ErrorOf(r)) && link.received <= rounds + 4
    ensures r.Ok? ==> link.received == rounds + 4
    ensures r.Ok? <==> exists n :: Succeeds(cfg, link.inbox, link.faults, n)
    ensures r.Ok? ==> Succeeds(cfg, link.inbox, link.faults, rounds) && tune == Tuned(cfg, link.inbox, rounds)
    ensures r.Ok? ==> link.sent == Script(cfg, rounds, tune)
    ensures r.Ok? ==> r.value == HandshakeResult(tune.frameMax, tune.heartbeat,
                        PropertiesOf(Reply(At(link.inbox, 0), ResponseOf(PEER_PROPERTIES), CidOf(0))),
                        PropertiesOf(Reply(At(link.inbox, rounds + 3), ResponseOf(OPEN), CidOf(rounds + 2))))
    ensures r.Err? ==>
              r.error
              == if !PeerAccepted(link.inbox) || !OffersPlain(link.inbox) || !AllWritable(link.faults, 2)
                 then GreetingError(link.inbox, link.faults)
                 else if !Authenticates(link.inbox, rounds) || !AllWritable(link.faults, rounds + 2)
                 then AuthenticationError(link.inbox, link.faults, rounds)
                 else OpeningError(cfg, link.inbox, link.faults, rounds)
    ensures link.sent <= Script(cfg, rounds, tune) && Earned(link.inbox, rounds, |link.sent|)
    ensures |link.sent| > rounds + 2 ==> Tunes(link.inbox, rounds) && tune == Tuned(cfg, link.inbox, rounds)
    ensures tune.Tune? && (|link.sent| == rounds + 4 ==>
              Fits(|RequestBytes(OpenRequest(cfg.virtualHost), CidOf(rounds + 2))| - 4, tune.frameMax))
  {
    hide Reply, RequestBytes, OnewayBytes, Counter, Fits, PeerAccepted, OffersPlain, Round, Tunes, Replies, Obeyed;
    rounds, tune := 0, Tune(0, 0);
    var greeted, cid := Greet(link, cfg);
    if greeted.Err? {
      return Err(greeted.error), rounds, tune;
    }
    var authenticated;
    authenticated, rounds := Authenticate(link, cfg, cid);
    if authenticated.Err? {
      return Err(authenticated.error), rounds, tune;
    }
    r, tune := Finish(link, cfg, authenticated.value, greeted.value, rounds);
    forall n: nat | Succeeds(cfg, link.inbox, link.faults, n)
      ensures n == rounds && r.Ok?
    {
      OneOutcome(link.inbox, n, rounds);
    }
    assert r.Ok? ==> Succeeds(cfg, link.inbox, link.faults, rounds);
  }
}
