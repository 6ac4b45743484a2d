/**
 Any number of threads inside send_and_wait, the request that close sends, and the threads that
 resolve promises, as a transition system. One step is one critical section or one atomic
 operation. The history (every registration, every promise set, every frame dispatched or
 sent) is part of the state, and the properties hold of every state of every run.
 */
module Correlation {
  import opened Base
  import opened Frames
  import opened Dispatchers
  import opened BigEndian
  import Commands
  import Wire

  type CallId = nat       // one call of send_and_wait, or the request of one call of close
  type EntryId = nat      // the position of a registration in the order of registrations

  datatype Kind = SendAndWait | CloseRequest

  datatype Request = Request(key: u16, version: u16, body: Bytes)

  /** What a call of send_and_wait returns; close ignores what became of its request. */
  datatype Reply = Answer(frame: IncomingFrame) | Failure(kind: ErrorKind) | Throws | Ignored

  /** How far a call has come. */
  datatype Pc =
    | Allocated
    | Registered(entry: EntryId)
    | SizeChecked(entry: EntryId)
    | Waiting(entry: EntryId)
    | Returned(entry: EntryId, reply: Reply)

  /** `alloc` counts the allocations before this one; the correlation id is what it wraps to. */
  datatype Call = Call(kind: Kind, request: Request, alloc: nat, cid: u32, pc: Pc)

  /** What a promise is set to; an answer also names the frame's position among those dispatched. */
  datatype Outcome = Answered(frame: IncomingFrame, at: nat) | TimedOut | Failed(kind: ErrorKind)

  datatype Resolver = IoThread | CloserThread

  /** An entry moved out of the table by a thread that has not set its promise yet. */
  datatype Taken = Taken(who: Resolver, outcome: Outcome)

  datatype Registration = Registration(call: CallId, cid: u32, deadline: Time)
  datatype Resolution = Resolution(entry: EntryId, outcome: Outcome)
  datatype Sent = Sent(call: CallId, frame: Bytes)

  /** The dispatcher's table with the history of everything that went through it. */
  datatype Ledger = Ledger(
    entries: seq<Registration>,        // every registration, in order
    pending: Table<EntryId>,           // pending_
    broken: set<EntryId>,              // registrations that found their id occupied
    taken: map<EntryId, Taken>,
    log: seq<Resolution>,              // every set_value, in order
    dispatched: seq<IncomingFrame>)    // every frame handed to dispatch, in order

  datatype Corr = Corr(
    frameMax: u32,
    nextCid: u32,                      // next_app_cid_
    allocations: nat,                  // how many ids were handed out
    calls: map<CallId, Call>,
    sent: seq<Sent>,                   // every frame handed to write_all, in order
    ledger: Ledger)

  // ---- The dispatcher's critical sections -----------------------------------------------

  /** register_pending */
  function Enter(b: Ledger, r: Registration): Ledger {
    var e := |b.entries|;
    b.(entries := b.entries + [r],
       pending := Emplace(b.pending, r.cid, Slot(e, r.deadline)),
       broken := b.broken + if r.cid in b.pending then {e} else {})
  }

  /** The locked part of dispatch. */
  function TakeMatch(b: Ledger, frame: IncomingFrame): Ledger {
    var logged := b.(dispatched := b.dispatched + [frame]);
    var cid := Target(frame);
    if cid.Some? && cid.value in b.pending then
      var e := b.pending[cid.value].promise;
      logged.(pending := b.pending - {cid.value},
              taken := b.taken[e := Taken(IoThread, Answered(frame, |b.dispatched|))])
    else logged
  }

  ghost function EntriesAt(t: Table<EntryId>, cids: set<u32>): set<EntryId> {
    set cid | cid in cids && cid in t :: t[cid].promise
  }

  /** Moves the entries pending under `cids` to a thread that will give them one outcome. */
  ghost function Take(b: Ledger, cids: set<u32>, t: Taken): Ledger {
    b.(pending := b.pending - cids, taken := b.taken + map e | e in EntriesAt(b.pending, cids) :: t)
  }

  /** set_value on an entry taken before. */
  function Fulfil(b: Ledger, e: EntryId): Ledger
    requires e in b.taken
  {
    b.(taken := b.taken - {e}, log := b.log + [Resolution(e, b.taken[e].outcome)])
  }

  // ---- Steps ------------------------------------------------------------------------

  datatype Step =
    | Allocate(call: CallId, kind: Kind, request: Request)
    | Register(call: CallId, deadline: Time)
    | CheckSize(call: CallId)
    | Write(call: CallId, failure: Option<ErrorKind>)
    | Collect(call: CallId, outcome: Option<Outcome>)
    | Match(frame: IncomingFrame)
    | Expire(now: Time)
    | TakeAll(who: Resolver, reason: ErrorKind)
    | Settle(who: Resolver, entry: EntryId)

  /** The id of the n-th allocation: a 32-bit counter that starts at 100. */
  function Cid(n: nat): u32 { Counter(100, n) }

  function FrameOf(call: Call): Bytes {
    Envelope(Payload(call.request.key, call.request.version, Some(call.cid), call.request.body))
  }

  /** What close asks for; send_and_wait is given its request. */
  function ClosingRequest(): Request {
    Request(Commands.CLOSE, 1, Commands.EncodeBody(Commands.CloseRequest(0x01, Ascii("client requested close"))))
  }

  function EntryOf(call: Call): Option<EntryId> {
    if call.pc.Allocated? then None else Some(call.pc.entry)
  }

  function ReplyOf(outcome: Outcome): Reply {
    match outcome
    case Answered(frame, _) => Answer(frame)
    case TimedOut => Failure(RequestTimeout)
    case Failed(kind) => Failure(kind)
  }

  function Move(c: Corr, k: CallId, pc: Pc): Corr
    requires k in c.calls
  {
    c.(calls := c.calls[k := c.calls[k].(pc := pc)])
  }

  ghost predicate Next(c: Corr, s: Step, d: Corr) {
    match s
    case Allocate(k, kind, request) =>
      && k !in c.calls && (kind.CloseRequest? ==> request == ClosingRequest())
      && d == c.(nextCid := Increment(c.nextCid), allocations := c.allocations + 1,
                 calls := c.calls[k := Call(kind, request, c.allocations, c.nextCid, Allocated)])
    case Register(k, deadline) =>
      && k in c.calls && c.calls[k].pc.Allocated?
      && var e, cid := |c.ledger.entries|, c.calls[k].cid;
         d == Move(c, k, Registered(e)).(ledger := Enter(c.ledger, Registration(k, cid, deadline)))
    case CheckSize(k) =>
      && k in c.calls && c.calls[k].kind.SendAndWait? && c.calls[k].pc.Registered?
      && var e := c.calls[k].pc.entry;
         d == Move(c, k, if Fits(|FrameOf(c.calls[k])| - 4, c.frameMax) then SizeChecked(e)
                         else Returned(e, Failure(ProtocolViolation)))
    case Write(k, failure) =>
      && k in c.calls && (failure.Some? ==> failure.value in {IoError, ConnectionClosed})
      && (c.calls[k].pc.SizeChecked? || (c.calls[k].pc.Registered? && c.calls[k].kind.CloseRequest?))
      && var e := c.calls[k].pc.entry;
         d == Move(c, k, if failure.Some? && c.calls[k].kind.SendAndWait? then Returned(e, Failure(failure.value))
                         else Waiting(e)).(sent := c.sent + [Sent(k, FrameOf(c.calls[k]))])
    case Collect(k, outcome) =>
      && k in c.calls && c.calls[k].pc.Waiting?
      && var e := c.calls[k].pc.entry;
         && (if outcome.Some? then Resolution(e, outcome.value) in c.ledger.log else Unresolved(c.ledger, e))
         && d == Move(c, k, Returned(e,
                   if c.calls[k].kind.CloseRequest? then Ignored
                   else if e in c.ledger.broken then Throws
                   else if outcome.Some? then ReplyOf(outcome.value) else Failure(RequestTimeout)))
    case Match(frame) => d == c.(ledger := TakeMatch(c.ledger, frame))
    case Expire(now) =>
      d == c.(ledger := Take(c.ledger, Expired(c.ledger.pending, now), Taken(IoThread, TimedOut)))
    case TakeAll(who, reason) =>
      d == c.(ledger := Take(c.ledger, c.ledger.pending.Keys, Taken(who, Failed(reason))))
    case Settle(who, e) =>
      && e in c.ledger.taken && c.ledger.taken[e].who == who
      && d == c.(ledger := Fulfil(c.ledger, e))
  }

  ghost predicate Initial(c: Corr) {
    && c.nextCid == 100 && c.allocations == 0 && c.calls == map[] && c.sent == []
    && c.ledger == Ledger([], map[], {}, map[], [], [])
  }

  // ---- The ledger's invariants --------------------------------------------------------

  ghost predicate Unresolved(b: Ledger, e: EntryId) {
    forall i | 0 <= i < |b.log| :: b.log[i].entry != e
  }

  ghost predicate IsPending(b: Ledger, e: EntryId) {
    && e < |b.entries| && b.entries[e].cid in b.pending
    && b.pending[b.entries[e].cid] == Slot(e, b.entries[e].deadline)
  }

  /** The table holds registrations under their own ids, and no promise has been set twice. */
  ghost predicate Sound(b: Ledger) {
    && (forall cid | cid in b.pending ::
          var e := b.pending[cid].promise; e < |b.entries| && b.entries[e].cid == cid && IsPending(b, e))
    && (forall e | e in b.taken :: e < |b.entries|)
    && (forall e | e in b.broken :: e < |b.entries|)
    && (forall i | 0 <= i < |b.log| :: b.log[i].entry < |b.entries|)
    && (forall i, j | 0 <= i < j < |b.log| :: b.log[i].entry != b.log[j].entry)
  }

  predicate ExactlyOne(p: bool, q: bool, r: bool, s: bool) {
    (p || q || r || s) && !(p && q) && !(p && r) && !(p && s) && !(q && r) && !(q && s) && !(r && s)
  }

  /** Every registration is in exactly one place. */
  ghost predicate Partitioned(b: Ledger) {
    forall e | 0 <= e < |b.entries| ::
      ExactlyOne(IsPending(b, e), e in b.taken, !Unresolved(b, e), e in b.broken)
  }

  /** `o` is, or is about to become, the value of the promise of `e`. */
  ghost predicate Decided(b: Ledger, e: EntryId, o: Outcome) {
    (e in b.taken && b.taken[e].outcome == o) || Resolution(e, o) in b.log
  }

  /** An answer is a dispatched response under the entry's own id, and answers nothing else. */
  ghost predicate Answers(b: Ledger) {
    && (forall e: nat, o | Decided(b, e, o) && o.Answered? ::
          && o.at < |b.dispatched| && b.dispatched[o.at] == o.frame
          && e < |b.entries| && Target(o.frame) == Some(b.entries[e].cid))
    && (forall e: nat, o, f: nat, p | Decided(b, e, o) && Decided(b, f, p) && o.Answered? && p.Answered? ::
          o.at == p.at ==> e == f)
  }

  /** What a registration changes, entry by entry. */
  lemma EnterEffect(b: Ledger, r: Registration)
    requires Sound(b)
    ensures var d, n := Enter(b, r), |b.entries|;
            && (forall e: nat | e < n :: d.entries[e] == b.entries[e] && (IsPending(d, e) <==> IsPending(b, e)))
            && (forall e: nat :: Unresolved(d, e) <==> Unresolved(b, e))
            && (IsPending(d, n) <==> r.cid !in b.pending) && Unresolved(d, n)
  {
    var d := Enter(b, r);
    assert d.entries[|b.entries|] == r;
  }

  lemma EnterKeeps(b: Ledger, r: Registration)
    requires Sound(b) && Partitioned(b)
    ensures Sound(Enter(b, r)) && Partitioned(Enter(b, r))
  {
    EnterEffect(b, r);
    var d, n := Enter(b, r), |b.entries|;
    hide IsPending, Unresolved;
    forall cid | cid in d.pending
      ensures var e := d.pending[cid].promise; e <= n && d.entries[e].cid == cid && IsPending(d, e)
    {
      assert cid != r.cid ==> cid in b.pending && d.pending[cid] == b.pending[cid];
    }
  }

  /** What a dispatch changes, entry by entry. */
  lemma TakeMatchEffect(b: Ledger, frame: IncomingFrame)
    requires Sound(b)
    ensures var d := TakeMatch(b, frame);
            && (forall e: nat | e < |b.entries| ::
                  && (IsPending(d, e) <==> IsPending(b, e) && Some(b.entries[e].cid) != Target(frame))
                  && (e in d.taken <==> e in b.taken || (IsPending(b, e) && Some(b.entries[e].cid) == Target(frame))))
            && (forall e: nat :: Unresolved(d, e) <==> Unresolved(b, e))
            && (forall e | e in d.taken :: e < |b.entries|)
  {
  }

  lemma TakeMatchSound(b: Ledger, frame: IncomingFrame)
    requires Sound(b)
    ensures Sound(TakeMatch(b, frame))
  {
    var d := TakeMatch(b, frame);
    TakeMatchEffect(b, frame);
    hide IsPending, Unresolved;
    assert forall cid | cid in d.pending ::
             cid in b.pending && d.pending[cid] == b.pending[cid] && Some(cid) != Target(frame);
  }

  lemma TakeMatchKeeps(b: Ledger, frame: IncomingFrame)
    requires Sound(b) && Partitioned(b)
    ensures Sound(TakeMatch(b, frame)) && Partitioned(TakeMatch(b, frame))
  {
    TakeMatchSound(b, frame);
    TakeMatchEffect(b, frame);
    hide IsPending, Unresolved, Sound;
  }

  lemma TakeKeeps(b: Ledger, cids: set<u32>, t: Taken)
    requires Sound(b) && Partitioned(b)
    ensures Sound(Take(b, cids, t)) && Partitioned(Take(b, cids, t))
  {
    var d := Take(b, cids, t);
    forall e | 0 <= e < |b.entries|
      ensures IsPending(d, e) <==> IsPending(b, e) && b.entries[e].cid !in cids
      ensures Unresolved(d, e) <==> Unresolved(b, e)
      ensures e in d.taken <==> e in b.taken || (IsPending(b, e) && b.entries[e].cid in cids)
    {
    }
  }

  lemma FulfilKeeps(b: Ledger, e: EntryId)
    requires Sound(b) && Partitioned(b) && e in b.taken
    ensures Sound(Fulfil(b, e)) && Partitioned(Fulfil(b, e))
  {
    var d := Fulfil(b, e);
    forall f | 0 <= f < |b.entries|
      ensures IsPending(d, f) <==> IsPending(b, f)
      ensures Unresolved(d, f) <==> Unresolved(b, f) && f != e
    {
      assert d.log[|b.log|].entry == e;
      if Unresolved(d, f) {
        forall i | 0 <= i < |b.log| ensures b.log[i].entry != f { assert d.log[i] == b.log[i]; }
      }
    }
  }

  lemma EnterAnswers(b: Ledger, r: Registration)
    requires Answers(b)
    ensures Answers(Enter(b, r))
  {
    var d := Enter(b, r);
    assert forall e: nat, o :: Decided(d, e, o) <==> Decided(b, e, o);
  }

  lemma TakeMatchAnswers(b: Ledger, frame: IncomingFrame)
    requires Sound(b) && Partitioned(b) && Answers(b)
    ensures Answers(TakeMatch(b, frame))
  {
    var d := TakeMatch(b, frame);
    forall e: nat, o | Decided(d, e, o)
      ensures Decided(b, e, o)
              || (o == Answered(frame, |b.dispatched|) && IsPending(b, e) && Some(b.entries[e].cid) == Target(frame))
    {
    }
  }

  lemma TakeAnswers(b: Ledger, cids: set<u32>, t: Taken)
    requires Answers(b) && !t.outcome.Answered?
    ensures Answers(Take(b, cids, t))
  {
    var d := Take(b, cids, t);
    assert forall e: nat, o | Decided(d, e, o) && o.Answered? :: Decided(b, e, o);
  }

  lemma FulfilAnswers(b: Ledger, e: EntryId)
    requires Answers(b) && e in b.taken
    ensures Answers(Fulfil(b, e))
  {
    var d := Fulfil(b, e);
    assert forall f: nat, o | Decided(d, f, o) :: Decided(b, f, o);
  }

  // ---- The callers' invariants --------------------------------------------------------

  /** Every call has its own allocation, and the id that allocation wraps to. */
  ghost predicate Numbered(c: Corr) {
    && c.nextCid == Cid(c.allocations)
    && (forall k | k in c.calls :: c.calls[k].alloc < c.allocations && c.calls[k].cid == Cid(c.calls[k].alloc))
    && (forall j, k | j in c.calls && k in c.calls && c.calls[j].alloc == c.calls[k].alloc :: j == k)
  }

  /** Registrations and the calls past registration are in one-to-one correspondence. */
  ghost predicate Owned(c: Corr) {
    && (forall e | 0 <= e < |c.ledger.entries| ::
          var k := c.ledger.entries[e].call;
          k in c.calls && EntryOf(c.calls[k]) == Some(e) && c.calls[k].cid == c.ledger.entries[e].cid)
    && (forall k | k in c.calls && EntryOf(c.calls[k]).Some? ::
          var e := EntryOf(c.calls[k]).value;
          e < |c.ledger.entries| && c.ledger.entries[e].call == k)
  }

  /** The promise of `e` has been given to its caller as an answer with this frame. */
  ghost predicate AnsweredWith(b: Ledger, e: EntryId, frame: IncomingFrame) {
    exists i | 0 <= i < |b.log| :: b.log[i].entry == e && b.log[i].outcome.Answered? && b.log[i].outcome.frame == frame
  }

  /** A call that returns a frame returns what its promise was set to; it throws on a broken one. */
  ghost predicate Replied(c: Corr) {
    forall k | k in c.calls && c.calls[k].pc.Returned? ::
      && (c.calls[k].pc.reply.Answer? ==> AnsweredWith(c.ledger, c.calls[k].pc.entry, c.calls[k].pc.reply.frame))
      && (c.calls[k].pc.reply.Throws? ==> c.calls[k].pc.entry in c.ledger.broken)
  }

  /** Every call sent its own frame, once, and never one that is too large unless it is close. */
  ghost predicate SentRight(c: Corr) {
    && (forall k | k in c.calls && c.calls[k].kind.CloseRequest? :: c.calls[k].request == ClosingRequest())
    && (forall k | k in c.calls && c.calls[k].pc.SizeChecked? :: Fits(|FrameOf(c.calls[k])| - 4, c.frameMax))
    && (forall i | 0 <= i < |c.sent| ::
          var k := c.sent[i].call;
          && k in c.calls && c.sent[i].frame == FrameOf(c.calls[k])
          && (c.calls[k].pc.Waiting? || c.calls[k].pc.Returned?)
          && (c.calls[k].kind.SendAndWait? ==> Fits(|c.sent[i].frame| - 4, c.frameMax)))
    && (forall i, j | 0 <= i < j < |c.sent| :: c.sent[i].call != c.sent[j].call)
  }

  ghost predicate Inv(c: Corr) {
    && Numbered(c) && Owned(c) && Replied(c) && SentRight(c)
    && Sound(c.ledger) && Partitioned(c.ledger) && Answers(c.ledger)
  }

  lemma NextLedger(c: Corr, s: Step, d: Corr)
    requires Sound(c.ledger) && Partitioned(c.ledger) && Answers(c.ledger) && Next(c, s, d)
    ensures Sound(d.ledger) && Partitioned(d.ledger) && Answers(d.ledger)
  {
    hide Sound, Partitioned, Answers, FrameOf, Enter, TakeMatch, Take, Fulfil, Fits;
    match s
    case Register(k, deadline) =>
      var r := Registration(k, c.calls[k].cid, deadline);
      EnterKeeps(c.ledger, r);
      EnterAnswers(c.ledger, r);
    case Match(frame) =>
      TakeMatchKeeps(c.ledger, frame);
      TakeMatchAnswers(c.ledger, frame);
    case Expire(now) =>
      TakeKeeps(c.ledger, Expired(c.ledger.pending, now), Taken(IoThread, TimedOut));
      TakeAnswers(c.ledger, Expired(c.ledger.pending, now), Taken(IoThread, TimedOut));
    case TakeAll(who, reason) =>
      TakeKeeps(c.ledger, c.ledger.pending.Keys, Taken(who, Failed(reason)));
      TakeAnswers(c.ledger, c.ledger.pending.Keys, Taken(who, Failed(reason)));
    case Settle(_, e) =>
      FulfilKeeps(c.ledger, e);
      FulfilAnswers(c.ledger, e);
    case _ =>
  }

  /** No step changes the allocation or the id of a call, and only an allocation adds one. */
  lemma CallsKept(c: Corr, s: Step, d: Corr)
    requires Next(c, s, d)
    ensures forall k | k in c.calls ::
              k in d.calls && d.calls[k].alloc == c.calls[k].alloc && d.calls[k].cid == c.calls[k].cid
    ensures forall k | k in d.calls && k !in c.calls ::
              && s.Allocate? && k == s.call && d.calls[k].pc.Allocated?
              && d.calls[k].alloc == c.allocations && d.calls[k].cid == c.nextCid
    ensures if s.Allocate? then d.allocations == c.allocations + 1 && d.nextCid == Increment(c.nextCid)
            else d.allocations == c.allocations && d.nextCid == c.nextCid
  {
    hide FrameOf, Enter, TakeMatch, Take, Fulfil, Fits, Increment;
  }

  lemma NextNumbered(c: Corr, s: Step, d: Corr)
    requires Numbered(c) && Next(c, s, d)
    ensures Numbered(d)
  {
    CallsKept(c, s, d);
    CounterSteps(100, c.allocations);
    hide Next, Increment, Counter;
  }

  /** History is only added to, and only a registration adds an entry. */
  lemma HistoryGrows(c: Corr, s: Step, d: Corr)
    requires Next(c, s, d)
    ensures c.ledger.entries <= d.ledger.entries && c.ledger.log <= d.ledger.log
    ensures c.ledger.dispatched <= d.ledger.dispatched && c.sent <= d.sent
    ensures !s.Register? ==> d.ledger.entries == c.ledger.entries
    ensures !s.Settle? ==> d.ledger.log == c.ledger.log
    ensures c.ledger.broken <= d.ledger.broken
  {
    hide FrameOf, Fits;
  }

  lemma RegisterOwned(c: Corr, k: CallId, deadline: Time, d: Corr)
    requires Owned(c) && Next(c, Register(k, deadline), d)
    ensures Owned(d)
  {
    var e := |c.ledger.entries|;
    assert d.ledger.entries == c.ledger.entries + [Registration(k, c.calls[k].cid, deadline)];
    assert d.calls[k].cid == c.calls[k].cid && EntryOf(d.calls[k]) == Some(e);
    hide Next;
    assert EntryOf(c.calls[k]) == None;
    assert forall j | j in c.calls && j != k :: j in d.calls && d.calls[j] == c.calls[j];
  }

  lemma NextOwned(c: Corr, s: Step, d: Corr)
    requires Owned(c) && Next(c, s, d)
    ensures Owned(d)
  {
    if s.Register? {
      RegisterOwned(c, s.call, s.deadline, d);
    } else {
      HistoryGrows(c, s, d);
      CallsKept(c, s, d);
      EntriesKept(c, s, d);
      hide Next, EntryOf;
    }
  }

  /** Only a registration gives a call an entry. */
  lemma EntriesKept(c: Corr, s: Step, d: Corr)
    requires Next(c, s, d) && !s.Register?
    ensures forall k | k in c.calls && k in d.calls :: EntryOf(d.calls[k]) == EntryOf(c.calls[k])
    ensures forall k | k in d.calls && k !in c.calls :: EntryOf(d.calls[k]) == None
  {
    hide FrameOf, Enter, TakeMatch, Take, Fulfil, Fits, Increment;
  }

  lemma NextReplied(c: Corr, s: Step, d: Corr)
    requires Replied(c) && Next(c, s, d)
    ensures Replied(d)
  {
    HistoryGrows(c, s, d);
    hide FrameOf, Fits, Enter, TakeMatch, Take, Fulfil;
    forall k | k in d.calls && d.calls[k].pc.Returned? && d.calls[k].pc.reply.Answer?
      ensures AnsweredWith(d.ledger, d.calls[k].pc.entry, d.calls[k].pc.reply.frame)
    {
      if s.Collect? && s.call == k {
        var e := d.calls[k].pc.entry;
        var i :| 0 <= i < |c.ledger.log| && c.ledger.log[i] == Resolution(e, s.outcome.value);
        assert d.ledger.log[i] == c.ledger.log[i];
      } else {
        assert AnsweredWith(c.ledger, c.calls[k].pc.entry, c.calls[k].pc.reply.frame);
      }
    }
  }

  lemma NextSent(c: Corr, s: Step, d: Corr)
    requires SentRight(c) && Next(c, s, d)
    ensures SentRight(d)
  {
    hide Fits, Increment, Enter, TakeMatch, Take, Fulfil, Envelope, Payload, ClosingRequest;
  }

  // ---- Runs -----------------------------------------------------------------------------

  ghost predicate Run(cs: seq<Corr>, steps: seq<Step>) {
    && |cs| == |steps| + 1 && Initial(cs[0])
    && forall i | 0 <= i < |steps| :: Next(cs[i], steps[i], cs[i + 1])
  }

  ghost predicate Reachable(c: Corr) {
    exists cs, steps :: Run(cs, steps) && cs[|steps|] == c
  }

  lemma NextKeeps(c: Corr, s: Step, d: Corr)
    requires Inv(c) && Next(c, s, d)
    ensures Inv(d)
  {
    NextLedger(c, s, d);
    NextNumbered(c, s, d);
    NextOwned(c, s, d);
    NextReplied(c, s, d);
    NextSent(c, s, d);
  }

  lemma {:induction false} EveryStateHolds(cs: seq<Corr>, steps: seq<Step>, i: nat)
    requires Run(cs, steps) && i < |cs|
    ensures Inv(cs[i])
  {
    if i == 0 {
      hide Counter;
      CounterSteps(100, 0);
    } else {
      hide Inv, Next;
      EveryStateHolds(cs, steps, i - 1);
      NextKeeps(cs[i - 1], steps[i - 1], cs[i]);
    }
  }

  lemma StepAt(cs: seq<Corr>, steps: seq<Step>, i: nat)
    requires Run(cs, steps) && i < |steps|
    ensures |cs| == |steps| + 1 && Next(cs[i], steps[i], cs[i + 1])
  {
    hide Next, Initial;
  }

  lemma {:induction false} HistoryOnlyGrows(cs: seq<Corr>, steps: seq<Step>, i: nat, j: nat)
    requires Run(cs, steps) && i <= j < |cs|
    ensures cs[i].ledger.entries <= cs[j].ledger.entries && cs[i].ledger.log <= cs[j].ledger.log
    ensures cs[i].ledger.dispatched <= cs[j].ledger.dispatched && cs[i].ledger.broken <= cs[j].ledger.broken
  {
    hide Next, Initial;
    if i < j {
      HistoryOnlyGrows(cs, steps, i, j - 1);
      var b, c, d := cs[i], cs[j - 1], cs[j];
      StepAt(cs, steps, j - 1);
      hide Next, Run;
      HistoryGrows(c, steps[j - 1], d);
      PrefixOfPrefix(b.ledger.entries, c.ledger.entries, d.ledger.entries);
      PrefixOfPrefix(b.ledger.log, c.ledger.log, d.ledger.log);
      PrefixOfPrefix(b.ledger.dispatched, c.ledger.dispatched, d.ledger.dispatched);
    }
  }

  lemma PrefixOfPrefix<T>(r: seq<T>, s: seq<T>, t: seq<T>)
    requires r <= s <= t
    ensures r <= t
  {
  }

  lemma ReachableHolds(c: Corr)
    requires Reachable(c)
    ensures Inv(c)
  {
    hide Inv, Next, Initial;
    var cs, steps :| Run(cs, steps) && cs[|steps|] == c;
    EveryStateHolds(cs, steps, |steps|);
  }

  // ---- Theorems -------------------------------------------------------------------------

  /**
   In every interleaving a registration is in exactly one place at any time, and its promise is
   set at most once over the whole run, to an outcome that then never changes.
   */
  lemma SetAtMostOnce(cs: seq<Corr>, steps: seq<Step>, i: nat, j: nat, e: EntryId, o: Outcome, p: Outcome)
    requires Run(cs, steps) && i <= j < |cs| && e < |cs[i].ledger.entries|
    ensures var b := cs[i].ledger;
            ExactlyOne(IsPending(b, e), e in b.taken, !Unresolved(b, e), e in b.broken)
    ensures forall m, n | 0 <= m < n < |cs[j].ledger.log| :: cs[j].ledger.log[m].entry != cs[j].ledger.log[n].entry
    ensures Resolution(e, o) in cs[i].ledger.log ==> Resolution(e, o) in cs[j].ledger.log
    ensures Resolution(e, o) in cs[i].ledger.log && Resolution(e, p) in cs[j].ledger.log ==> o == p
  {
    hide Next, Numbered, Owned, Replied, SentRight, Answers;
    EveryStateHolds(cs, steps, i);
    EveryStateHolds(cs, steps, j);
    HistoryOnlyGrows(cs, steps, i, j);
    var log := cs[j].ledger.log;
    if Resolution(e, o) in cs[i].ledger.log && Resolution(e, p) in log {
      var m :| 0 <= m < |cs[i].ledger.log| && cs[i].ledger.log[m] == Resolution(e, o);
      var n :| 0 <= n < |log| && log[n] == Resolution(e, p);
      assert log[m] == Resolution(e, o);
      assert m == n;
    }
  }

  /** The promise of call `k` was set to the frame dispatched at position `at`. */
  ghost predicate AnsweredFrom(c: Corr, k: CallId, at: nat) {
    && k in c.calls && c.calls[k].pc.Returned? && c.calls[k].pc.reply.Answer?
    && Resolution(c.calls[k].pc.entry, Answered(c.calls[k].pc.reply.frame, at)) in c.ledger.log
  }

  /**
   A call that returns a frame returns one that was dispatched as a response under the very id
   the call was given, and no other call is answered from that frame.
   */
  lemma OwnAnswer(c: Corr, k: CallId) returns (at: nat)
    requires Reachable(c)
    requires k in c.calls && c.calls[k].pc.Returned? && c.calls[k].pc.reply.Answer?
    ensures AnsweredFrom(c, k, at) && at < |c.ledger.dispatched|
    ensures c.ledger.dispatched[at] == c.calls[k].pc.reply.frame
    ensures Target(c.ledger.dispatched[at]) == Some(c.calls[k].cid)
    ensures forall j | AnsweredFrom(c, j, at) :: j == k
  {
    ReachableHolds(c);
    hide Numbered, SentRight, Sound, Partitioned, Reachable;
    var b, e, frame := c.ledger, c.calls[k].pc.entry, c.calls[k].pc.reply.frame;
    assert AnsweredWith(b, e, frame);
    var i :| 0 <= i < |b.log| && b.log[i].entry == e && b.log[i].outcome.Answered? && b.log[i].outcome.frame == frame;
    at := b.log[i].outcome.at;
    assert b.log[i] == Resolution(e, Answered(frame, at));
    assert Decided(b, e, Answered(frame, at));
    assert EntryOf(c.calls[k]) == Some(e);
    forall j | AnsweredFrom(c, j, at)
      ensures j == k
    {
      assert Decided(b, c.calls[j].pc.entry, Answered(c.calls[j].pc.reply.frame, at));
      assert EntryOf(c.calls[j]) == Some(e);
    }
  }

  /** Two allocations fewer than 2^32 apart wrap to different ids. */
  lemma DifferentIds(m: nat, n: nat)
    requires m < n < m + TWO_32
    ensures Cid(m) != Cid(n)
  {
  }

  lemma AnswerId(c: Corr, k: CallId, at: nat)
    requires Inv(c) && AnsweredFrom(c, k, at) && at < |c.ledger.dispatched|
    ensures Target(c.ledger.dispatched[at]) == Some(c.calls[k].cid)
  {
    hide SentRight, Sound, Partitioned, Counter, Numbered, Replied;
    var e := c.calls[k].pc.entry;
    assert Decided(c.ledger, e, Answered(c.calls[k].pc.reply.frame, at));
    assert EntryOf(c.calls[k]) == Some(e);
  }

  /**
   A call that was given the id of the frame another call is answered with was allocated a
   multiple of 2^32 allocations before or after it.
   */
  lemma OwnRequest(c: Corr, k: CallId, at: nat, j: CallId)
    requires Reachable(c) && AnsweredFrom(c, k, at) && at < |c.ledger.dispatched|
    requires j in c.calls && j != k && Target(c.ledger.dispatched[at]) == Some(c.calls[j].cid)
    ensures var m, n := c.calls[j].alloc, c.calls[k].alloc;
            (m - n) % TWO_32 == 0 && (n + TWO_32 <= m || m + TWO_32 <= n)
  {
    ReachableHolds(c);
    AnswerId(c, k, at);
    hide SentRight, Sound, Partitioned, Owned, Replied, Answers, Counter, Reachable, AnsweredFrom;
    var m, n := c.calls[j].alloc, c.calls[k].alloc;
    SameId(m, n);
    if m < n {
      if n < m + TWO_32 { DifferentIds(m, n); }
    } else {
      if m < n + TWO_32 { DifferentIds(n, m); }
    }
  }

  /** As long as ids have not wrapped around, no other call was ever given the id of the answer. */
  lemma OwnRequestBeforeWrap(c: Corr, k: CallId, at: nat, j: CallId)
    requires Reachable(c) && c.allocations <= TWO_32
    requires AnsweredFrom(c, k, at) && at < |c.ledger.dispatched|
    requires j in c.calls && Target(c.ledger.dispatched[at]) == Some(c.calls[j].cid)
    ensures j == k
  {
    ReachableHolds(c);
    hide Reachable, SentRight, Sound, Partitioned, Owned, Replied, Answers, Counter;
    if j != k {
      OwnRequest(c, k, at, j);
    }
  }

  /** The allocation behind an entry. */
  function AllocationOf(c: Corr, e: EntryId): nat {
    if e < |c.ledger.entries| && c.ledger.entries[e].call in c.calls then c.calls[c.ledger.entries[e].call].alloc else 0
  }

  /** An id is held from its allocation until its entry leaves the table. */
  ghost predicate Window(c: Corr) {
    && (forall k | k in c.calls && c.calls[k].pc.Allocated? :: c.allocations - c.calls[k].alloc <= TWO_32)
    && (forall e: nat | IsPending(c.ledger, e) :: c.allocations - AllocationOf(c, e) <= TWO_32)
  }

  lemma SameId(m: nat, n: nat)
    ensures Cid(m) == Cid(n) <==> (m - n) % TWO_32 == 0
  {
  }

  /** An entry is registered under the id its call was given. */
  lemma IdOf(c: Corr, e: EntryId)
    requires Numbered(c) && Owned(c) && e < |c.ledger.entries|
    ensures c.ledger.entries[e].cid == Cid(AllocationOf(c, e)) && AllocationOf(c, e) < c.allocations
  {
    hide Counter;
  }

  lemma SameIdAs(c: Corr, e: EntryId, k: CallId)
    requires Numbered(c) && Owned(c) && e < |c.ledger.entries| && k in c.calls
    ensures c.ledger.entries[e].cid == c.calls[k].cid <==> (AllocationOf(c, e) - c.calls[k].alloc) % TWO_32 == 0
  {
    hide Counter;
    IdOf(c, e);
    SameId(AllocationOf(c, e), c.calls[k].alloc);
  }

  lemma OccupiedExactly(c: Corr, k: CallId)
    requires Inv(c) && k in c.calls
    ensures c.calls[k].cid in c.ledger.pending
       <==> exists e :: IsPending(c.ledger, e) && (AllocationOf(c, e) - c.calls[k].alloc) % TWO_32 == 0
  {
    var b, cid := c.ledger, c.calls[k].cid;
    hide Counter, Numbered, Owned, SentRight, Answers, Partitioned, Replied, AllocationOf;
    if cid in b.pending {
      var e := b.pending[cid].promise;
      assert IsPending(b, e);
      SameIdAs(c, e, k);
    }
    forall e: nat | IsPending(b, e)
      ensures (AllocationOf(c, e) - c.calls[k].alloc) % TWO_32 == 0 ==> cid in b.pending
    {
      SameIdAs(c, e, k);
    }
  }

  /** A registration finds its id occupied exactly when a pending id is a multiple of 2^32 older. */
  lemma BrokenExactly(c: Corr, k: CallId, deadline: Time, d: Corr)
    requires Reachable(c) && Next(c, Register(k, deadline), d)
    ensures |c.ledger.entries| in d.ledger.broken
       <==> exists e :: IsPending(c.ledger, e) && (AllocationOf(c, e) - c.calls[k].alloc) % TWO_32 == 0
  {
    ReachableHolds(c);
    OccupiedExactly(c, k);
    hide Reachable, Counter, Numbered, Owned, SentRight, Answers, Partitioned, Replied, IsPending, AllocationOf;
    assert |c.ledger.entries| in d.ledger.broken <==> c.calls[k].cid in c.ledger.pending;
  }

  /** Inside the window the next registration inserts. */
  lemma WindowInserts(c: Corr, s: Step, d: Corr)
    requires Inv(c) && Window(c) && Next(c, s, d)
    ensures d.ledger.broken == c.ledger.broken
  {
    if s.Register? {
      var k := s.call;
      var cid := c.calls[k].cid;
      if cid in c.ledger.pending {
        var e := c.ledger.pending[cid].promise;
        hide Next, Counter, SentRight, Answers, Partitioned, Replied;
        assert IsPending(c.ledger, e);
        var j := c.ledger.entries[e].call;
        assert EntryOf(c.calls[j]) == Some(e) && j != k;
        var m, n := c.calls[j].alloc, c.calls[k].alloc;
        if m < n { DifferentIds(m, n); } else { DifferentIds(n, m); }
        assert false;
      }
    } else {
      hide FrameOf, Fits;
    }
  }

  /**
   Across any number of counter wraps: as long as fewer than 2^32 allocations separate the oldest
   held id from the newest, every registration inserts, so that no call ever throws.
   */
  lemma {:induction false} FreshIds(cs: seq<Corr>, steps: seq<Step>, i: nat)
    requires Run(cs, steps) && i < |cs| && forall j | 0 <= j < i :: Window(cs[j])
    ensures cs[i].ledger.broken == {}
    ensures forall k | k in cs[i].calls && cs[i].calls[k].pc.Returned? :: !cs[i].calls[k].pc.reply.Throws?
  {
    hide Next, Window, Numbered, Owned, SentRight, Sound, Partitioned, Answers;
    EveryStateHolds(cs, steps, i);
    if i > 0 {
      EveryStateHolds(cs, steps, i - 1);
      FreshIds(cs, steps, i - 1);
      WindowInserts(cs[i - 1], steps[i - 1], cs[i]);
    }
  }

  /** A response to a request that timed out or failed is dispatched without any effect. */
  lemma LateResponse(c: Corr, e: EntryId, frame: IncomingFrame, d: Corr)
    requires Reachable(c) && Window(c) && e < |c.ledger.entries| && !IsPending(c.ledger, e)
    requires c.allocations - AllocationOf(c, e) <= TWO_32
    requires Target(frame) == Some(c.ledger.entries[e].cid) && Next(c, Match(frame), d)
    ensures d == c.(ledger := c.ledger.(dispatched := c.ledger.dispatched + [frame]))
  {
    ReachableHolds(c);
    hide Reachable;
    var cid := c.ledger.entries[e].cid;
    if cid in c.ledger.pending {
      hide Next, Counter, SentRight, Answers, Partitioned, Replied;
      var f := c.ledger.pending[cid].promise;
      assert IsPending(c.ledger, f) && f != e;
      var m, n := AllocationOf(c, f), AllocationOf(c, e);
      assert c.ledger.entries[f].call != c.ledger.entries[e].call;
      if m < n { DifferentIds(m, n); } else { DifferentIds(n, m); }
      assert false;
    }
  }

  // ---- The limit on frames ----------------------------------------------------------------

  /** Every frame of send_and_wait respects the limit; each call sends one frame, under its id. */
  lemma SendsFit(c: Corr, i: nat)
    requires Reachable(c) && i < |c.sent|
    ensures var k := c.sent[i].call; k in c.calls && c.sent[i].frame == FrameOf(c.calls[k])
    ensures c.calls[c.sent[i].call].kind.SendAndWait? ==> Fits(|c.sent[i].frame| - 4, c.frameMax)
    ensures forall j | 0 <= j < |c.sent| && j != i :: c.sent[j].call != c.sent[i].call
  {
    ReachableHolds(c);
    hide Reachable, FrameOf, Numbered, Owned, Replied, Sound, Partitioned, Answers;
  }

  /** The request of close takes 34 bytes behind the size field. */
  lemma ClosingSize(call: Call)
    requires call.request == ClosingRequest()
    ensures |FrameOf(call)| == 38
  {
    var reason := Ascii("client requested close");
    assert |reason| == 22;
    Commands.AppendTwo([], Commands.UInt(Wire.SHORT, 0x01), Commands.Text(reason));
    assert |Wire.EncodeText(reason)| == 24 && |Encode(Wire.SHORT, 0x01)| == 2;
    assert |call.request.body| == 26;
  }

  /** What follows the size field of a frame is within a limit, where 0 is no limit. */
  predicate WithinLimit(frame: Bytes, frameMax: u32) { frameMax == 0 || |frame| <= 4 + frameMax }

  /** The frame sent i-th is the one close sends. */
  ghost predicate IsClosing(c: Corr, i: nat) {
    i < |c.sent| && c.sent[i].call in c.calls && c.calls[c.sent[i].call].kind.CloseRequest?
  }

  /**
   "Outgoing frames larger than the limit are rejected" holds of a connection exactly when there is
   no limit, the limit leaves room for the request of close, or close has not sent it.
   */
  lemma LimitKeptExactly(c: Corr)
    requires Reachable(c)
    ensures (forall i | 0 <= i < |c.sent| :: WithinLimit(c.sent[i].frame, c.frameMax))
       <==> c.frameMax == 0 || 34 <= c.frameMax || forall i: nat :: !IsClosing(c, i)
  {
    ReachableHolds(c);
    hide Reachable, FrameOf, Numbered, Owned, Replied, Sound, Partitioned, Answers, ClosingRequest;
    forall i: nat | IsClosing(c, i)
      ensures |c.sent[i].frame| == 38
    {
      ClosingSize(c.calls[c.sent[i].call]);
    }
    forall i: nat | i < |c.sent| && !IsClosing(c, i)
      ensures WithinLimit(c.sent[i].frame, c.frameMax)
    {
    }
  }
}
