/**
 Lives of a client that show what the code does not keep: an id handed out again while its request
 is outstanding, an answer to another command, a frame beyond the negotiated limit.
 */
module Scenarios {
  import opened Base
  import opened Frames
  import opened Dispatchers
  import opened Correlation
  import Commands
  import L = Lifecycle

  /** Some life of a client comes to this state. */
  ghost predicate Lived(l: L.Life) { exists ls, acts :: L.Run(ls, acts) && ls[|acts|] == l }

  lemma Live(l: L.Life, a: L.Act, m: L.Life)
    requires Lived(l) && L.Next(l, a, m)
    ensures Lived(m)
  {
    var ls, acts :| L.Run(ls, acts) && ls[|acts|] == l;
    hide L.Run, L.Next;
    var ls', acts' := L.ExtendAny(ls, acts, a, m);
  }

  /** The shared table of a client is in a state of the correlation protocol. */
  lemma LivedReachable(l: L.Life)
    requires Lived(l)
    ensures Reachable(l.corr)
  {
    var ls, acts :| L.Run(ls, acts) && ls[|acts|] == l;
    hide L.Run, L.Next, Next, Initial;
    assert |ls| == |acts| + 1 by { RunLength(ls, acts); }
    var cs, steps, at := L.RefinesCorrelation(ls, acts, |acts|);
    assert Run(cs, steps) && cs[|steps|] == l.corr;
  }

  lemma RunLength(ls: seq<L.Life>, acts: seq<L.Act>)
    requires L.Run(ls, acts)
    ensures |ls| == |acts| + 1
  {
  }

  lemma LiveConnect(l: L.Life, m: L.Life)
    requires Lived(l) && L.ConnectNext(l, true, m)
    ensures Lived(m)
  {
    hide Lived, L.ConnectNext;
    Live(l, L.Connect(true), m);
  }

  lemma LiveCaller(l: L.Life, s: Step, d: Corr) returns (m: L.Life)
    requires Lived(l) && Next(l.corr, s, d)
    requires (s.Allocate? && s.kind.SendAndWait?) || s.Register? || s.CheckSize? || s.Write? || s.Collect?
    requires s.call in l.admitted && (s.Register? ==> s.deadline <= l.now + l.timeout)
    requires s.Collect? ==> s.outcome.Some?
    ensures Lived(m) && m == l.(corr := d)
  {
    hide Lived, Next;
    m := l.(corr := d);
    Live(l, L.Caller(s), m);
  }

  lemma LiveIo(l: L.Life, r: L.ReadResult, s: Step, m: L.Life)
    requires Lived(l) && L.IoNext(l, r, s, m)
    ensures Lived(m)
  {
    hide Lived, L.IoNext;
    Live(l, L.Io(r, s), m);
  }

  lemma LiveClose(l: L.Life, s: Step, m: L.Life)
    requires Lived(l) && L.CloseNext(l, s, m)
    ensures Lived(m)
  {
    hide Lived, L.CloseNext;
    Live(l, L.Close(s), m);
  }

  // ---- An open client -------------------------------------------------------------------

  /** request_timeout of every client here: a little over 99 days. */
  const PATIENCE: nat := 2 * TWO_32

  function Fresh(frameMax: u32): Corr { Corr(frameMax, 100, 0, map[], [], Ledger([], map[], {}, map[], [], [])) }

  /** Open without heartbeats, the I/O thread at its loop head with everything read dispatched. */
  ghost predicate Idle(l: L.Life) {
    && l.hb == 0 && l.timeout == PATIENCE && l.state == L.Open && l.io == L.Head && !l.stopIo
    && l.read == |l.corr.ledger.dispatched| && l.corr.ledger.taken == map[] && l.corr.frameMax == 0
  }

  function Unconnected(inbound: seq<IncomingFrame>, frameMax: u32): L.Life {
    L.Life(0, PATIENCE, inbound, Fresh(frameMax), L.Disconnected, false, false, false, 0, 0, 0, 0, {}, 0, 0,
           L.NoConnect, L.NoClose, L.NoIo, L.NoBeat, 0, None, [])
  }

  lemma Starts(inbound: seq<IncomingFrame>, frameMax: u32)
    ensures Lived(Unconnected(inbound, frameMax))
  {
    var l, none: seq<L.Act> := Unconnected(inbound, frameMax), [];
    assert L.Start(l);
    hide L.Start, L.Next;
    assert L.Run([l], none) && [l][|none|] == l;
  }

  lemma Handshaken(inbound: seq<IncomingFrame>, frameMax: u32) returns (l: L.Life)
    ensures Lived(l)
    ensures l == Unconnected(inbound, frameMax).(state := L.Open, connects := 1, connect := L.SetOpen)
  {
    hide L.IoNext, L.CloseNext, L.BeatNext, L.CallerNext, L.AdmitNext, L.CloseGateNext, Lived;
    Starts(inbound, frameMax);
    var l0 := Unconnected(inbound, frameMax);
    var l1 := l0.(state := L.Connecting, connects := 1, connect := L.Handshaking);
    Live(l0, L.ConnectGate, l1);
    l := l1.(state := L.Open, connect := L.SetOpen);
    LiveConnect(l1, l);
  }

  /** A client whose connect has returned, and what the server will send to it. */
  lemma OpenClient(inbound: seq<IncomingFrame>, frameMax: u32) returns (l: L.Life)
    ensures Lived(l)
    ensures l == Unconnected(inbound, frameMax).(state := L.Open, connects := 1, connect := L.ConnectDone,
                                                 io := L.Head, trace := [L.OpenedAt(0)])
  {
    var l2 := Handshaken(inbound, frameMax);
    hide Lived;
    var l3 := l2.(connect := L.SetClock, trace := [L.OpenedAt(0)]);
    LiveConnect(l2, l3);
    var l4 := l3.(connect := L.StopLowered);
    LiveConnect(l3, l4);
    var l5 := l4.(connect := L.FiredLowered);
    LiveConnect(l4, l5);
    var l6 := l5.(connect := L.IoRunning, io := L.Head);
    LiveConnect(l5, l6);
    l := l6.(connect := L.ConnectDone);
    LiveConnect(l6, l);
  }

  // ---- A request and its answer -----------------------------------------------------------

  function Sending(c: Corr, request: Request, pc: Pc): Call
  { Call(SendAndWait, request, c.allocations, c.nextCid, pc) }

  /** What sending one more request does to the protocol. */
  function Asked(c: Corr, n: CallId, request: Request, deadline: Time, sent: seq<Sent>): Corr {
    c.(nextCid := Increment(c.nextCid), allocations := c.allocations + 1, sent := sent,
       calls := c.calls[n := Sending(c, request, Waiting(|c.ledger.entries|))],
       ledger := Enter(c.ledger, Registration(n, c.nextCid, deadline)))
  }

  lemma Admitted(l: L.Life, n: CallId) returns (m: L.Life)
    requires Lived(l) && l.state == L.Open && n !in l.admitted && n !in l.corr.calls
    ensures Lived(m) && m == l.(admitted := l.admitted + {n})
  {
    hide Lived, L.IoNext, L.CloseNext, L.BeatNext, L.CallerNext, L.ConnectNext;
    m := l.(admitted := l.admitted + {n});
    Live(l, L.RequireOpen(n), m);
  }

  /** A call of send_and_wait, up to the wait for its promise. */
  lemma Sends(l: L.Life, n: CallId, request: Request) returns (m: L.Life)
    requires Lived(l) && Idle(l) && n !in l.admitted && n !in l.corr.calls
    ensures Lived(m) && Idle(m)
    ensures m == l.(admitted := l.admitted + {n},
                    corr := Asked(l.corr, n, request, l.now + l.timeout, m.corr.sent))
  {
    hide Lived, Enter, Increment, FrameOf;
    var c, e, deadline := l.corr, |l.corr.ledger.entries|, l.now + l.timeout;
    var l1 := Admitted(l, n);
    var c1 := c.(nextCid := Increment(c.nextCid), allocations := c.allocations + 1,
                 calls := c.calls[n := Sending(c, request, Allocated)]);
    var l2 := LiveCaller(l1, Allocate(n, SendAndWait, request), c1);
    var c2 := Move(c1, n, Registered(e)).(ledger := Enter(c.ledger, Registration(n, c.nextCid, deadline)));
    var l3 := LiveCaller(l2, Register(n, deadline), c2);
    var c3 := Move(c2, n, SizeChecked(e));
    var l4 := LiveCaller(l3, CheckSize(n), c3);
    var c4 := Move(c3, n, Waiting(e)).(sent := c3.sent + [Sent(n, FrameOf(c3.calls[n]))]);
    m := LiveCaller(l4, Write(n, None), c4);
    assert c4.calls == c.calls[n := Sending(c, request, Waiting(e))];
    EnterTakes(c.ledger, Registration(n, c.nextCid, deadline));
  }

  /** A client that has sent its first request. */
  lemma FirstAsked(inbound: seq<IncomingFrame>, request: Request) returns (m: L.Life)
    ensures Lived(m) && Idle(m) && m.inbound == inbound && m.now == 0 && m.read == 0 && m.admitted == {0}
    ensures m.corr.allocations == 1 && m.corr.nextCid == 101
    ensures m.corr.calls == map[0 := Call(SendAndWait, request, 0, 100, Waiting(0))]
    ensures m.corr.ledger == Ledger([Registration(0, 100, PATIENCE)], map[100 := Slot(0, PATIENCE)], {}, map[], [], [])
  {
    var l := OpenClient(inbound, 0);
    FirstEntry();
    hide Lived, FrameOf, Next, Target, Enter;
    m := Sends(l, 0, request);
  }

  lemma FirstEntry()
    ensures Enter(Fresh(0).ledger, Registration(0, 100, PATIENCE))
            == Ledger([Registration(0, 100, PATIENCE)], map[100 := Slot(0, PATIENCE)], {}, map[], [], [])
  {
  }

  lemma EnterTakes(b: Ledger, r: Registration)
    ensures Enter(b, r).taken == b.taken && Enter(b, r).dispatched == b.dispatched
  {
  }

  /** The I/O thread reads the next frame. */
  lemma Reads(l: L.Life) returns (m: L.Life)
    requires Lived(l) && Idle(l) && l.read < |l.inbound|
    ensures Lived(m) && m == l.(io := L.Got(l.inbound[l.read]), read := l.read + 1)
  {
    hide Lived, Next;
    var l1 := l.(io := L.Reading);
    LiveIo(l, L.ReadOk, Expire(0), l1);
    m := l1.(io := L.Got(l.inbound[l.read]), read := l.read + 1);
    LiveIo(l1, L.ReadOk, Expire(0), m);
  }

  /** The I/O thread stamps the frame and takes the clock for its reap. */
  lemma Stamps(l: L.Life, frame: IncomingFrame) returns (m: L.Life)
    requires Lived(l) && l.io == L.Got(frame)
    ensures Lived(m)
    ensures m == l.(io := L.Due(l.now, Some(frame)), lastInbound := l.now, trace := l.trace + [L.FrameAt(l.now)])
  {
    hide Lived, Next;
    var l1 := l.(io := L.Timed(frame), lastInbound := l.now, trace := l.trace + [L.FrameAt(l.now)]);
    LiveIo(l, L.ReadOk, Expire(0), l1);
    m := l1.(io := L.Due(l.now, Some(frame)));
    LiveIo(l1, L.ReadOk, Expire(0), m);
  }

  /** A reap before every deadline takes nothing. */
  lemma NothingDue(c: Corr, now: Time)
    requires forall cid | cid in c.ledger.pending :: now < c.ledger.pending[cid].deadline
    ensures Next(c, Expire(now), c)
  {
    var b := c.ledger;
    assert Expired(b.pending, now) == {} && EntriesAt(b.pending, {}) == {};
    assert Take(b, {}, Taken(IoThread, TimedOut)) == b;
  }

  /** What dispatching a response to the pending entry `e` does. */
  function Given(c: Corr, frame: IncomingFrame, cid: u32, e: EntryId): Corr {
    var b := c.ledger;
    c.(ledger := b.(pending := b.pending - {cid}, dispatched := b.dispatched + [frame],
                    log := b.log + [Resolution(e, Answered(frame, |b.dispatched|))]))
  }

  /** The protocol steps of a delivery. */
  lemma Matches(c: Corr, frame: IncomingFrame, cid: u32) returns (t: Corr)
    requires c.ledger.taken == map[] && Target(frame) == Some(cid) && cid in c.ledger.pending
    ensures var e := c.ledger.pending[cid].promise;
            && Next(c, Match(frame), t) && !L.NoneTaken(t, IoThread)
            && Next(t, Settle(IoThread, e), Given(c, frame, cid, e))
  {
    var e := c.ledger.pending[cid].promise;
    t := c.(ledger := TakeMatch(c.ledger, frame));
    assert t.ledger.taken == map[e := Taken(IoThread, Answered(frame, |c.ledger.dispatched|))];
    assert Fulfil(t.ledger, e).taken == map[];
  }

  /** The I/O thread reaps before every deadline. */
  lemma Reaps(l: L.Life, frame: IncomingFrame) returns (m: L.Life)
    requires Lived(l) && l.io == L.Due(l.now, Some(frame))
    requires forall c | c in l.corr.ledger.pending :: l.now < l.corr.ledger.pending[c].deadline
    ensures Lived(m) && m == l.(io := L.Reaped(l.now, |l.corr.ledger.entries|, Some(frame)))
  {
    NothingDue(l.corr, l.now);
    hide Lived, Next, L.NoneTaken;
    m := l.(io := L.Reaped(l.now, |l.corr.ledger.entries|, Some(frame)));
    LiveIo(l, L.ReadOk, Expire(l.now), m);
  }

  /** The I/O thread dispatches the frame it read. */
  lemma Delivers(l: L.Life, frame: IncomingFrame, t: Corr) returns (m: L.Life)
    requires Lived(l) && l.io.Reaped? && l.io.next == Some(frame) && L.NoneTaken(l.corr, IoThread)
    requires Next(l.corr, Match(frame), t)
    ensures Lived(m) && m == l.(corr := t, io := L.Delivering)
  {
    hide Lived, Next, L.NoneTaken;
    m := l.(io := L.Delivering, corr := t);
    LiveIo(l, L.ReadOk, Match(frame), m);
  }

  /** The I/O thread sets a promise it took, which was the last one. */
  lemma Settles(l: L.Life, e: EntryId, d: Corr) returns (m: L.Life)
    requires Lived(l) && l.io.Delivering? && !L.NoneTaken(l.corr, IoThread)
    requires Next(l.corr, Settle(IoThread, e), d) && L.NoneTaken(d, IoThread)
    ensures Lived(m) && m == l.(corr := d, io := L.Head)
  {
    hide Lived, Next, L.NoneTaken;
    var l1 := l.(corr := d);
    LiveIo(l, L.ReadOk, Settle(IoThread, e), l1);
    m := l1.(io := L.Head);
    LiveIo(l1, L.ReadOk, Expire(0), m);
  }

  /** The I/O thread reads the next frame, reaps nothing, and answers the request under its id. */
  lemma Receives(l: L.Life, frame: IncomingFrame, cid: u32, e: EntryId) returns (m: L.Life)
    requires Lived(l) && Idle(l) && l.read < |l.inbound| && l.inbound[l.read] == frame
    requires Target(frame) == Some(cid) && cid in l.corr.ledger.pending && l.corr.ledger.pending[cid].promise == e
    requires forall c | c in l.corr.ledger.pending :: l.now < l.corr.ledger.pending[c].deadline
    ensures Lived(m) && Idle(m)
    ensures m == l.(corr := Given(l.corr, frame, cid, e), read := l.read + 1, lastInbound := l.now, trace := m.trace)
  {
    hide Lived, Next;
    var l1 := Reads(l);
    var l2 := Stamps(l1, frame);
    var l3 := Reaps(l2, frame);
    var t := Matches(l.corr, frame, cid);
    var l4 := Delivers(l3, frame, t);
    m := Settles(l4, e, Given(l.corr, frame, cid, e));
  }

  /** The call returns what its promise was set to last. */
  lemma Returns(l: L.Life, n: CallId, e: EntryId, o: Outcome) returns (m: L.Life)
    requires Lived(l) && n in l.admitted && n in l.corr.calls
    requires l.corr.calls[n].kind.SendAndWait? && l.corr.calls[n].pc == Waiting(e) && e !in l.corr.ledger.broken
    requires l.corr.ledger.log != [] && l.corr.ledger.log[|l.corr.ledger.log| - 1] == Resolution(e, o)
    ensures Lived(m) && m == l.(corr := Move(l.corr, n, Returned(e, ReplyOf(o))))
  {
    hide Lived;
    assert Resolution(e, o) in l.corr.ledger.log;
    m := LiveCaller(l, Collect(n, Some(o)), Move(l.corr, n, Returned(e, ReplyOf(o))));
  }

  // ---- Answered by another command ----------------------------------------------------------

  /**
   Matching looks at the correlation id alone: some client asks to create a stream and gets the
   response to a request to delete one as its answer.
   */
  lemma AnsweredByAnotherCommand() returns (l: L.Life, k: CallId)
    ensures Lived(l) && k in l.corr.calls && l.corr.calls[k].request.key == Commands.CREATE
    ensures l.corr.calls[k].pc.Returned? && l.corr.calls[k].pc.reply.Answer?
    ensures l.corr.calls[k].pc.reply.frame.key == ResponseOf(Commands.DELETE)
  {
    var asked, deleted := Commands.CreateRequest(Ascii("s"), []), Commands.DeleteResponse(1);
    var frame := IncomingFrame(ResponseOf(Commands.DELETE), 1, Commands.EncodeBody(deleted), Some(100));
    k := 0;
    hide Lived, Commands.EncodeBody;
    var l1 := FirstAsked([frame], Request(Commands.CREATE, 1, Commands.EncodeBody(asked)));
    var l2 := Receives(l1, frame, 100, 0);
    l := Returns(l2, k, 0, Answered(frame, 0));
  }

  // ---- The frame of close -------------------------------------------------------------------

  /**
   "Outgoing frames larger than the limit are rejected" is not kept: with a negotiated limit of
   20, which lets the request that opens the vhost "/" through, close sends a frame of 38 bytes.
   */
  lemma CloseBreaksLimit() returns (l: L.Life)
    ensures Lived(l) && l.state == L.Closing && l.corr.frameMax == 20
    ensures |l.corr.sent| == 1 && |l.corr.sent[0].frame| == 38 && !WithinLimit(l.corr.sent[0].frame, 20)
    ensures Reachable(l.corr)
  {
    var l1 := OpenClient([], 20);
    hide Lived, FrameOf, ClosingRequest;
    var l2 := l1.(state := L.Closing, closing := true, closes := 1, close := L.Entered,
                  trace := l1.trace + [L.ClosePassed(false)]);
    CloseGate(l1, l2);
    l := SendsClose(l2);
    LivedReachable(l);
  }

  /** close, from its gate to the wait for its response. */
  lemma SendsClose(l: L.Life) returns (m: L.Life)
    requires Lived(l) && l.close == L.Entered && l.admitted == {} && l.corr == Fresh(20) && 10 <= l.now + l.timeout
    ensures Lived(m) && m == l.(close := L.SentClose(0), corr := m.corr)
    ensures m.corr.frameMax == 20 && |m.corr.sent| == 1 && |m.corr.sent[0].frame| == 38
  {
    hide Lived, FrameOf, ClosingRequest, Enter;
    var c, request := l.corr, ClosingRequest();
    var c1 := c.(nextCid := 101, allocations := 1, calls := map[0 := Call(CloseRequest, request, 0, 100, Allocated)]);
    var l1 := ClosesWith(l, Allocate(0, CloseRequest, request), c1);
    var c2 := Move(c1, 0, Registered(0)).(ledger := Enter(c.ledger, Registration(0, 100, 10)));
    var l2 := ClosesWith(l1, Register(0, 10), c2);
    var c3 := Move(c2, 0, Waiting(0)).(sent := [Sent(0, FrameOf(c2.calls[0]))]);
    m := ClosesWith(l2, Write(0, None), c3);
    ClosingSize(c2.calls[0]);
  }

  /** A step of close on the shared table. */
  lemma ClosesWith(l: L.Life, s: Step, d: Corr) returns (m: L.Life)
    requires Lived(l) && (l.close.Entered? || l.close.HasId? || l.close.HasEntry?)
    requires L.CloseStep(l, s) && Next(l.corr, s, d)
    ensures Lived(m) && m == l.(corr := d, close := L.CloseTarget(l.close, if s.Allocate? then s.call else 0, false))
  {
    hide Lived, Next;
    m := l.(corr := d, close := L.CloseTarget(l.close, if s.Allocate? then s.call else 0, false));
    LiveClose(l, s, m);
  }

  lemma CloseGate(l: L.Life, m: L.Life)
    requires Lived(l) && L.CloseGateNext(l, m)
    ensures Lived(m)
  {
    hide Lived, L.CloseGateNext;
    Live(l, L.CloseGate, m);
  }

  // ---- Ids are reused under outstanding requests ------------------------------------------
  // One request a millisecond: the first stays unanswered, the others are answered at once.

  function ResponseTo(cid: u32): IncomingFrame { IncomingFrame(RESPONSE_BIT, 1, [], Some(cid)) }

  function Responses(): seq<IncomingFrame> { seq(TWO_32 - 1, i requires 0 <= i => ResponseTo(Cid(i + 1))) }

  /** After `n` requests the first alone is pending; the others were sent, answered and have returned. */
  ghost predicate Lonely(l: L.Life, n: nat) {
    var c := l.corr;
    && Lived(l) && Idle(l) && l.inbound == Responses() && l.read == n - 1 && l.now == n
    && c.allocations == n && c.nextCid == Cid(n)
    && c.ledger.pending == map[100 := Slot(0, PATIENCE)] && c.ledger.broken == {}
    && c.ledger.entries != [] && c.ledger.entries[0] == Registration(0, 100, PATIENCE)
    && (forall e | 0 <= e < |c.ledger.entries| :: PATIENCE <= c.ledger.entries[e].deadline)
    && (forall k | k in l.admitted :: k < n)
    && (forall k | k in c.calls :: k < n && (k > 0 ==> c.calls[k].pc.Returned? && c.calls[k].pc.reply.Answer?))
  }

  lemma Ticks(l: L.Life) returns (m: L.Life)
    requires Lived(l)
    ensures Lived(m) && m == l.(now := l.now + 1)
  {
    hide Lived, L.IoNext, L.CloseNext, L.BeatNext, L.CallerNext, L.ConnectNext;
    m := l.(now := l.now + 1);
    Live(l, L.Tick(1), m);
  }

  /** The n-th request is sent and answered, and waits to return. */
  lemma Exchange(l: L.Life, n: nat, cid: u32, e: EntryId) returns (m: L.Life)
    requires Lonely(l, n) && 1 <= n < TWO_32 && cid == l.corr.nextCid && cid != 100 && e == |l.corr.ledger.entries|
    ensures Lived(m) && Idle(m)
    ensures var c, b := l.corr, l.corr.ledger;
            m == l.(admitted := l.admitted + {n}, read := n, lastInbound := m.lastInbound, trace := m.trace,
                    corr := c.(nextCid := Increment(cid), allocations := n + 1, sent := m.corr.sent,
                               calls := c.calls[n := Sending(c, Request(0, 1, []), Waiting(e))],
                               ledger := b.(entries := b.entries + [Registration(n, cid, l.now + PATIENCE)],
                                            dispatched := m.corr.ledger.dispatched, log := m.corr.ledger.log)))
    ensures m.corr.ledger.log == l.corr.ledger.log + [Resolution(e, Answered(ResponseTo(cid), n - 1))]
  {
    hide Lived, Counter, Increment;
    var b := Sends(l, n, Request(0, 1, []));
    assert b.corr.ledger.pending == map[100 := Slot(0, PATIENCE), cid := Slot(e, l.now + PATIENCE)];
    assert l.inbound[l.read] == ResponseTo(cid);
    m := Receives(b, ResponseTo(cid), cid, e);
    assert m.corr.ledger.pending == map[100 := Slot(0, PATIENCE)];
  }

  lemma Round(l: L.Life, n: nat) returns (m: L.Life)
    requires Lonely(l, n) && 1 <= n < TWO_32
    ensures Lonely(m, n + 1)
  {
    DifferentIds(0, n);
    CounterSteps(100, n);
    CounterSteps(100, 0);
    hide Lived, Counter, Increment;
    var cid, e := l.corr.nextCid, |l.corr.ledger.entries|;
    var b := Exchange(l, n, cid, e);
    var t := Returns(b, n, e, Answered(ResponseTo(cid), n - 1));
    m := Ticks(t);
  }

  lemma {:induction false} Rounds(n: nat) returns (l: L.Life)
    requires 1 <= n <= TWO_32
    ensures Lonely(l, n)
  {
    hide Lonely;
    if n == 1 {
      l := FirstRequest();
    } else {
      var b := Rounds(n - 1);
      l := Round(b, n - 1);
    }
  }

  lemma FirstRequest() returns (l: L.Life)
    ensures Lonely(l, 1)
  {
    CounterSteps(100, 0);
    hide Lived, Counter, Increment, Responses;
    var l0 := FirstAsked(Responses(), Request(0, 1, []));
    l := Ticks(l0);
  }

  /**
   "Never reuse the id of an outstanding request" is not kept: some client has a single request
   pending, every other was answered, no deadline has passed, and the counter, wrapped around,
   hands out the pending id again; that call's promise is broken from the start.
   */
  lemma IdsAreReused() returns (l: L.Life, k: CallId)
    ensures Lived(l) && l.corr.ledger.pending.Keys == {100} && IsPending(l.corr.ledger, 0)
    ensures forall e | 0 <= e < |l.corr.ledger.entries| :: l.now < l.corr.ledger.entries[e].deadline
    ensures forall j | j in l.corr.calls && j > 0 && j != k ::
              l.corr.calls[j].pc.Returned? && l.corr.calls[j].pc.reply.Answer?
    ensures k in l.corr.calls && k != l.corr.ledger.entries[0].call && l.corr.calls[k].cid == 100
    ensures l.corr.calls[k].pc.Waiting? && l.corr.calls[k].pc.entry in l.corr.ledger.broken
  {
    var b := Rounds(TWO_32);
    SameId(0, TWO_32);
    CounterSteps(100, 0);
    hide Lived, Counter, Increment, Responses, FrameOf;
    k := TWO_32;
    l := Sends(b, k, Request(0, 1, []));
    assert l.corr.ledger.entries == b.corr.ledger.entries + [Registration(k, 100, b.now + PATIENCE)];
  }
}
