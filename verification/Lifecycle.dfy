/**
 The life of a client: connect, close, the callers, the I/O thread and the heartbeat thread as a
 transition system over the correlation protocol. One step is one critical section, one atomic
 operation, or one action on a thread's own variables; every interleaving is a run.
 */
module Lifecycle {
  import opened Base
  import opened Frames
  import opened Dispatchers
  import opened Correlation
  import Heartbeats

  datatype ConnState = Disconnected | Connecting | Open | Closing | Closed

  function Rank(s: ConnState): nat {
    match s
    case Disconnected => 0
    case Connecting => 1
    case Open => 2
    case Closing => 3
    case Closed => 4
  }

  datatype CloseReason = PeerClosedSocket | HeartbeatTimeout | ReadError

  /** The call of connect that passed its gate. */
  datatype ConnectPc =
    | NoConnect | Handshaking | SetOpen | SetClock | StopLowered | FiredLowered | IoRunning | ConnectDone | GaveUp

  /** The call of close that passed its gate. */
  datatype ClosePc =
    | NoClose | Entered | HasId(call: CallId) | HasEntry(call: CallId) | SentClose(call: CallId) | Waited
    | StopRaised | SocketShut | IoJoined | BeatJoined | FailingRest | CloseDone

  /** The I/O thread; `next` is the frame it read and has not dispatched yet. */
  datatype IoPc =
    | NoIo | Head | Reading | Woke
    | Got(frame: IncomingFrame) | Timed(frame: IncomingFrame)
    | Due(at: Time, next: Option<IncomingFrame>)
    | Reaped(at: Time, mark: nat, next: Option<IncomingFrame>)
    | Delivering
    | Dead | Broke(kind: ErrorKind) | FailingAll(reason: CloseReason) | Sampling(reason: CloseReason)
    | Notifying(reason: CloseReason) | Leaving | Exited

  datatype BeatPc = NoBeat | BeatTest | BeatDue | BeatEnded

  /** What read_frame returned. */
  datatype ReadResult = ReadOk | ReadTimeout | ReadFailed(kind: ErrorKind)

  /** History of the moments the properties speak of. `committed`: was the I/O thread past its last check? */
  datatype Event =
    | OpenedAt(at: Time) | FrameAt(at: Time) | FoundDead(at: Time)
    | Sampled(closing: bool) | Notified(reason: CloseReason) | ClosePassed(committed: bool)

  datatype Life = Life(
    hb: nat,                               // the negotiated heartbeat, in seconds
    timeout: nat,                          // request_timeout
    inbound: seq<IncomingFrame>,           // the frames the server will send
    corr: Corr,
    state: ConnState,
    closing: bool,
    stopIo: bool,
    fired: bool,                           // unexpected_fired_
    now: Time,
    lastInbound: Time,
    read: nat,                             // how many frames were read
    beats: nat,                            // how many heartbeats were sent
    admitted: set<CallId>,                 // calls that found the connection open
    connects: nat,                         // how many calls of connect passed their gate
    closes: nat,                           // how many calls of close passed theirs
    connect: ConnectPc,
    close: ClosePc,
    io: IoPc,
    beat: BeatPc,
    mark: nat,                             // registrations when close took the table
    ioMark: Option<nat>,                   // registrations when the I/O thread took it, if it did
    trace: seq<Event>)

  datatype Act =
    | Tick(elapsed: nat)
    | ConnectGate
    | Connect(ok: bool)
    | CloseGate
    | Close(step: Step)
    | RequireOpen(call: CallId)
    | Caller(step: Step)
    | Io(result: ReadResult, step: Step)
    | Beat

  // ---- Steps ------------------------------------------------------------------------------

  ghost predicate NoneTaken(c: Corr, who: Resolver) {
    forall e | e in c.ledger.taken :: c.ledger.taken[e].who != who
  }

  /** After the last check before the callback: nothing can hold it back any more. */
  predicate Committed(io: IoPc) {
    io.Dead? || io == FailingAll(HeartbeatTimeout) || io.Notifying?
  }

  /** No data for more than twice the heartbeat. */
  predicate Silent(l: Life) { Heartbeats.Dead(l.hb, l.lastInbound, l.now) }

  /** A wait that ends without a result ends when the deadline has come; a broken promise is waited for no longer. */
  predicate Patient(l: Life, s: Step) {
    s.Collect? && s.outcome.None? && s.call in l.corr.calls && l.corr.calls[s.call].pc.Waiting? ==>
      var e := l.corr.calls[s.call].pc.entry;
      e < |l.corr.ledger.entries| && e !in l.corr.ledger.broken ==> l.corr.ledger.entries[e].deadline <= l.now
  }

  /** connect, past its gate; `ok` is how the TCP connect and the handshake end. */
  function ConnectTarget(pc: ConnectPc, ok: bool): ConnectPc {
    match pc
    case NoConnect => NoConnect
    case Handshaking => if ok then SetOpen else GaveUp
    case SetOpen => SetClock
    case SetClock => StopLowered
    case StopLowered => FiredLowered
    case FiredLowered => IoRunning
    case IoRunning => ConnectDone
    case ConnectDone => ConnectDone
    case GaveUp => GaveUp
  }

  ghost predicate ConnectNext(l: Life, ok: bool, m: Life) {
    var pc := l.connect;
    m == l.(connect := ConnectTarget(pc, ok),
            state := if !pc.Handshaking? then l.state else if ok then Open else Closed,
            closing := l.closing && !(pc.Handshaking? && ok),
            lastInbound := if pc.SetOpen? then l.now else l.lastInbound,
            trace := if pc.SetOpen? then l.trace + [OpenedAt(l.now)] else l.trace,
            stopIo := l.stopIo && !pc.SetClock?,
            fired := l.fired && !pc.StopLowered?,
            io := if pc.FiredLowered? then Head else l.io,
            beat := if pc.IoRunning? && l.hb > 0 then BeatTest else l.beat)
  }

  /** close, past its gate; `idle` says that it has set every promise it took. */
  function CloseTarget(pc: ClosePc, call: CallId, idle: bool): ClosePc {
    match pc
    case NoClose => NoClose
    case Entered => HasId(call)
    case HasId(k) => HasEntry(k)
    case HasEntry(k) => SentClose(k)
    case SentClose(k) => Waited
    case Waited => StopRaised
    case StopRaised => SocketShut
    case SocketShut => IoJoined
    case IoJoined => BeatJoined
    case BeatJoined => FailingRest
    case FailingRest => if idle then CloseDone else FailingRest
    case CloseDone => CloseDone
  }

  /** A join waits for a thread that was started. */
  predicate CloseReady(l: Life) {
    match l.close
    case NoClose => false
    case SocketShut => l.io.NoIo? || l.io.Exited?
    case IoJoined => l.beat.NoBeat? || l.beat.BeatEnded?
    case CloseDone => false
    case _ => true
  }

  /** The operation of close on the shared table, if the coming step is one. */
  ghost predicate CloseStep(l: Life, s: Step) {
    match l.close
    case Entered => s.Allocate? && s.kind.CloseRequest? && s.call !in l.admitted
    case HasId(k) => s.Register? && s.call == k && s.deadline <= l.now + l.timeout
    case HasEntry(k) => s.Write? && s.call == k
    case SentClose(k) => s.Collect? && s.call == k && Patient(l, s)
    case BeatJoined => s == TakeAll(CloserThread, ConnectionClosed)
    case FailingRest => !NoneTaken(l.corr, CloserThread) && s.Settle? && s.who.CloserThread?
    case _ => false
  }

  predicate CloseUsesTable(pc: ClosePc, idle: bool) {
    pc.Entered? || pc.HasId? || pc.HasEntry? || pc.SentClose? || pc.BeatJoined? || (pc.FailingRest? && !idle)
  }

  ghost predicate CloseNext(l: Life, s: Step, m: Life) {
    var pc, idle := l.close, NoneTaken(l.corr, CloserThread);
    && CloseReady(l)
    && (if CloseUsesTable(pc, idle) then CloseStep(l, s) && Correlation.Next(l.corr, s, m.corr) else m.corr == l.corr)
    && m == l.(corr := m.corr,
               close := CloseTarget(pc, if s.Allocate? then s.call else 0, idle),
               stopIo := l.stopIo || pc.Waited?,
               mark := if pc.BeatJoined? then |l.corr.ledger.entries| else l.mark,
               state := if pc.FailingRest? && idle then Closed else l.state)
  }

  /** The I/O thread's next control point; `idle` says that it has set every promise it took. */
  function IoTarget(l: Life, r: ReadResult, idle: bool): IoPc {
    match l.io
    case NoIo => NoIo
    case Head => if l.stopIo then Leaving else Reading
    case Reading =>
      (match r
       case ReadOk => if l.read < |l.inbound| then Got(l.inbound[l.read]) else Reading
       case ReadTimeout => Woke
       case ReadFailed(kind) => Broke(kind))
    case Woke => if Silent(l) then Dead else Due(l.now, None)
    case Got(frame) => Timed(frame)
    case Timed(frame) => Due(l.now, Some(frame))
    case Due(at, next) => Reaped(at, |l.corr.ledger.entries|, next)
    case Reaped(_, _, next) => if !idle then l.io else if next.Some? then Delivering else Head
    case Delivering => if idle then Head else Delivering
    case Dead => FailingAll(HeartbeatTimeout)
    case Broke(kind) => FailingAll(if kind.ConnectionClosed? then PeerClosedSocket else ReadError)
    case FailingAll(reason) =>
      if !idle then l.io else if reason.HeartbeatTimeout? then Notifying(reason) else Sampling(reason)
    case Sampling(reason) => if l.closing then Leaving else Notifying(reason)
    case Notifying(_) => Leaving
    case Leaving => Exited
    case Exited => Exited
  }

  predicate IoReady(l: Life, r: ReadResult) {
    && !l.io.NoIo? && !l.io.Exited?
    && (l.io.Reading? && r.ReadOk? ==> l.read < |l.inbound|)
    && (l.io.Reading? && r.ReadFailed? ==> r.kind != RequestTimeout)
  }

  function IoEvents(l: Life): seq<Event> {
    match l.io
    case Woke => if Silent(l) then [FoundDead(l.now)] else []
    case Got(_) => [FrameAt(l.now)]
    case Sampling(_) => [Sampled(l.closing)]
    case Notifying(reason) => if l.fired then [] else [Notified(reason)]
    case _ => []
  }

  /** The operation of the I/O thread on the shared table, if the coming step is one. */
  predicate IoStep(l: Life, s: Step, idle: bool) {
    match l.io
    case Due(at, _) => s == Expire(at)
    case Reaped(_, _, next) => if idle then next.Some? && s == Match(next.value) else s.Settle? && s.who.IoThread?
    case Delivering => !idle && s.Settle? && s.who.IoThread?
    case Dead => s == TakeAll(IoThread, ConnectionClosed)
    case Broke(kind) => s == TakeAll(IoThread, kind)
    case FailingAll(_) => !idle && s.Settle? && s.who.IoThread?
    case _ => false
  }

  predicate IoUsesTable(io: IoPc, idle: bool) {
    || io.Due? || io.Dead? || io.Broke? || (io.Reaped? && (!idle || io.next.Some?))
    || ((io.Delivering? || io.FailingAll?) && !idle)
  }

  ghost predicate IoNext(l: Life, r: ReadResult, s: Step, m: Life) {
    var idle := NoneTaken(l.corr, IoThread);
    && IoReady(l, r)
    && (if IoUsesTable(l.io, idle) then IoStep(l, s, idle) && Correlation.Next(l.corr, s, m.corr) else m.corr == l.corr)
    && m == l.(corr := m.corr,
               io := IoTarget(l, r, idle),
               ioMark := if l.io.Dead? || l.io.Broke? then Some(|l.corr.ledger.entries|) else l.ioMark,
               trace := l.trace + IoEvents(l),
               read := if l.io.Reading? && r.ReadOk? then l.read + 1 else l.read,
               lastInbound := if l.io.Got? then l.now else l.lastInbound,
               fired := l.fired || l.io.Notifying?,
               state := if l.io.Leaving? && !l.state.Closing? then Closed else l.state)
  }

  ghost predicate BeatNext(l: Life, m: Life) {
    match l.beat
    case NoBeat => false
    case BeatTest => m == l.(beat := if l.stopIo then BeatEnded else BeatDue)
    case BeatDue => m == l.(beats := l.beats + 1, beat := BeatTest) || m == l.(beat := BeatTest)
    case BeatEnded => false
  }

  ghost predicate CallerNext(l: Life, s: Step, m: Life) {
    && m == l.(corr := m.corr) && Correlation.Next(l.corr, s, m.corr)
    && match s
       case Allocate(k, kind, _) => k in l.admitted && kind.SendAndWait?
       case Register(k, deadline) => k in l.admitted && deadline <= l.now + l.timeout
       case CheckSize(k) => k in l.admitted
       case Write(k, _) => k in l.admitted
       case Collect(k, _) => k in l.admitted && Patient(l, s)
       case _ => false
  }

  ghost predicate ConnectGateNext(l: Life, m: Life) {
    m == if l.state.Disconnected? then l.(state := Connecting, connects := l.connects + 1, connect := Handshaking)
         else l
  }

  ghost predicate CloseGateNext(l: Life, m: Life) {
    m == if l.state.Open? then l.(state := Closing, closing := true, closes := l.closes + 1, close := Entered,
                                  trace := l.trace + [ClosePassed(Committed(l.io))])
         else l
  }

  /** require_open, at the start of every public operation. */
  ghost predicate AdmitNext(l: Life, k: CallId, m: Life) {
    && k !in l.admitted && k !in l.corr.calls
    && m == if l.state.Open? then l.(admitted := l.admitted + {k}) else l
  }

  ghost predicate Next(l: Life, a: Act, m: Life) {
    match a
    case Tick(elapsed) => m == l.(now := l.now + elapsed)
    case ConnectGate => ConnectGateNext(l, m)
    case Connect(ok) => ConnectNext(l, ok, m)
    case CloseGate => CloseGateNext(l, m)
    case Close(s) => CloseNext(l, s, m)
    case RequireOpen(k) => AdmitNext(l, k, m)
    case Caller(s) => CallerNext(l, s, m)
    case Io(r, s) => IoNext(l, r, s, m)
    case Beat => BeatNext(l, m)
  }

  ghost predicate Start(l: Life) {
    && Correlation.Initial(l.corr) && l.state == Disconnected && !l.closing && !l.stopIo && !l.fired
    && l.lastInbound <= l.now && l.read == 0 && l.beats == 0 && l.admitted == {}
    && l.connects == 0 && l.closes == 0 && l.connect == NoConnect && l.close == NoClose
    && l.io == NoIo && l.beat == NoBeat && l.mark == 0 && l.ioMark == None
    && l.trace == []
  }

  // ---- Invariants -------------------------------------------------------------------------

  predicate ConnectFits(l: Life) {
    match l.connect
    case NoConnect => l.state == Disconnected && l.io == NoIo && l.beat == NoBeat && l.close == NoClose
    case Handshaking => l.state == Connecting && l.io == NoIo && l.beat == NoBeat && l.close == NoClose
    case GaveUp => l.state == Closed && l.io == NoIo && l.beat == NoBeat && l.close == NoClose
    case IoRunning => Rank(l.state) >= 2 && l.io != NoIo && l.beat == NoBeat
    case ConnectDone => Rank(l.state) >= 2 && l.io != NoIo && (l.beat == NoBeat <==> l.hb == 0)
    case _ => Rank(l.state) >= 2 && l.io == NoIo && l.beat == NoBeat
  }

  /** At most one call of connect and one of close ever pass, and the state says where they are. */
  predicate Gates(l: Life) {
    && l.connects == (if l.connect.NoConnect? then 0 else 1)
    && l.closes == (if l.close.NoClose? then 0 else 1)
    && ConnectFits(l)
    && (l.close != NoClose ==> l.state == if l.close.CloseDone? then Closed else Closing)
    && (l.state == Closing ==> l.close != NoClose)
    && (l.state == Open ==> l.close == NoClose && l.io != Exited)
    && (l.closing <==> l.close != NoClose)
    && !(l.io.Sampling? && l.io.reason.HeartbeatTimeout?)
  }

  /** Is there such an event between two positions of a trace? */
  ghost predicate NotifiedIn(tr: seq<Event>, lo: nat, hi: nat) { exists i :: lo <= i < hi <= |tr| && tr[i].Notified? }

  ghost predicate DeadIn(tr: seq<Event>, lo: nat, hi: nat) { exists i :: lo <= i < hi <= |tr| && tr[i].FoundDead? }

  ghost predicate OpenSampleIn(tr: seq<Event>, lo: nat, hi: nat) {
    exists i :: lo <= i < hi <= |tr| && tr[i] == Sampled(false)
  }

  ghost predicate CloseIn(tr: seq<Event>, lo: nat, hi: nat) { exists i :: lo <= i < hi <= |tr| && tr[i].ClosePassed? }

  /** How far the I/O thread is from the callback. */
  datatype Stage = Working | Condemned | Cleared | Gone

  function StageOf(io: IoPc): Stage {
    match io
    case Dead => Condemned
    case FailingAll(reason) => if reason.HeartbeatTimeout? then Condemned else Working
    case Notifying(reason) => if reason.HeartbeatTimeout? then Condemned else Cleared
    case Leaving => Gone
    case Exited => Gone
    case _ => Working
  }

  /** The events a stage allows, and the stage behind them. */
  predicate Moves(st: Stage, fired: bool, closing: bool, events: seq<Event>, next: Stage) {
    if events == [] then next == st || (next == Gone && (st == Working || fired))
    else
      && |events| == 1
      && match events[0]
         case OpenedAt(_) => next == st
         case FrameAt(_) => next == st
         case ClosePassed(committed) => next == st && !closing && committed == (st.Condemned? || st.Cleared?)
         case FoundDead(_) => st == Working && next == Condemned
         case Sampled(c) => st == Working && c == closing && next == if c then Gone else Cleared
         case Notified(reason) =>
           !fired && next == Gone && st == if reason.HeartbeatTimeout? then Condemned else Cleared
  }

  /** The callback is dispatched at most once, and only after the check that justifies it. */
  ghost predicate Told(st: Stage, fired: bool, tr: seq<Event>) {
    && (forall i, j | 0 <= i < j < |tr| && tr[i].Notified? :: !tr[j].Notified?)
    && (NotifiedIn(tr, 0, |tr|) || fired ==> st == Gone)
    && (st.Condemned? || st.Cleared? || NotifiedIn(tr, 0, |tr|) <==> DeadIn(tr, 0, |tr|) || OpenSampleIn(tr, 0, |tr|))
    && (st.Condemned? ==> DeadIn(tr, 0, |tr|))
    && (st.Cleared? ==> OpenSampleIn(tr, 0, |tr|))
    && (forall i | 0 <= i < |tr| && tr[i].Notified? ::
          if tr[i].reason.HeartbeatTimeout? then DeadIn(tr, 0, i) else OpenSampleIn(tr, 0, i))
  }

  /** What passing close's gate means for the callback. */
  ghost predicate Quiet(st: Stage, closing: bool, tr: seq<Event>) {
    && (closing <==> CloseIn(tr, 0, |tr|))
    && (forall i, j | 0 <= j < i < |tr| && tr[j].ClosePassed? :: tr[i] != Sampled(false))
    && (forall g | 0 <= g < |tr| && tr[g].ClosePassed? ::
          st.Condemned? || st.Cleared? || NotifiedIn(tr, g, |tr|) <==> tr[g].committed || DeadIn(tr, g, |tr|))
  }

  predicate Sign(e: Event) { e.OpenedAt? || e.FrameAt? }

  /** A heartbeat timeout lies more than two heartbeats behind every earlier sign of life. */
  ghost predicate Clocked(l: Life) {
    var tr := l.trace;
    && l.lastInbound <= l.now
    && (forall i | 0 <= i < |tr| && Sign(tr[i]) :: tr[i].at <= l.lastInbound)
    && (forall i | 0 <= i < |tr| && tr[i].FoundDead? :: l.hb > 0)
    && (forall i, j | 0 <= i < j < |tr| && Sign(tr[i]) && tr[j].FoundDead? :: tr[j].at - tr[i].at > 2000 * l.hb)
  }

  function Holding(io: IoPc): Option<IncomingFrame> {
    match io
    case Got(frame) => Some(frame)
    case Timed(frame) => Some(frame)
    case Due(_, next) => next
    case Reaped(_, _, next) => next
    case _ => None
  }

  /** The frames dispatched are the first frames of the stream, one may be on its way. */
  ghost predicate InOrder(l: Life) {
    var n := |l.corr.ledger.dispatched|;
    && l.read <= |l.inbound| && n <= l.read && l.corr.ledger.dispatched == l.inbound[..n]
    && (if Holding(l.io).Some? then l.read == n + 1 && l.inbound[n] == Holding(l.io).value else l.read == n)
  }

  /** Only a thread in the middle of resolving has entries in hand. */
  ghost predicate Hands(l: Life) {
    && (NoneTaken(l.corr, IoThread) || l.io.Reaped? || l.io.Delivering? || l.io.FailingAll?)
    && (NoneTaken(l.corr, CloserThread) || l.close.FailingRest?)
  }

  /** Between reap and dispatch, what was registered before the reap is not due. */
  ghost predicate NotDue(l: Life) {
    l.io.Reaped? ==>
      && l.io.mark <= |l.corr.ledger.entries|
      && forall cid | cid in l.corr.ledger.pending ::
           l.corr.ledger.pending[cid].promise >= l.io.mark || l.corr.ledger.pending[cid].deadline > l.io.at
  }

  /** What a step of the correlation protocol means here. */
  lemma CorrEffect(c: Corr, s: Step, d: Corr)
    requires Correlation.Next(c, s, d)
    ensures d.ledger.dispatched == c.ledger.dispatched + if s.Match? then [s.frame] else []
    ensures c.ledger.entries <= d.ledger.entries
    ensures forall cid | cid in d.ledger.pending ::
              (cid in c.ledger.pending && d.ledger.pending[cid] == c.ledger.pending[cid])
              || (s.Register? && d.ledger.pending[cid].promise == |c.ledger.entries|)
    ensures s.TakeAll? ==> d.ledger.pending == map[]
    ensures s.Expire? ==> forall cid | cid in d.ledger.pending :: d.ledger.pending[cid].deadline > s.now
    ensures !s.Match? && !s.Expire? && !s.TakeAll? ==> forall e | e in d.ledger.taken :: e in c.ledger.taken
    ensures c.ledger.log <= d.ledger.log && (!s.Settle? ==> d.ledger.log == c.ledger.log)
    ensures forall i | |c.ledger.log| <= i < |d.ledger.log| :: d.ledger.log[i].entry in c.ledger.taken
    ensures forall who | NoneTaken(c, who) ::
              NoneTaken(d, who) || (s.TakeAll? && who == s.who) || ((s.Match? || s.Expire?) && who == IoThread)
  {
    hide FrameOf, Fits;
  }

  lemma ConnectGates(l: Life, ok: bool, m: Life)
    requires Gates(l) && ConnectNext(l, ok, m)
    ensures Gates(m)
  {
  }

  lemma CloseGates(l: Life, s: Step, m: Life)
    requires Gates(l) && CloseNext(l, s, m)
    ensures Gates(m)
  {
    hide Correlation.Next, NoneTaken;
  }

  lemma IoGates(l: Life, r: ReadResult, s: Step, m: Life)
    requires Gates(l) && IoNext(l, r, s, m)
    ensures Gates(m)
  {
    hide Correlation.Next, NoneTaken, Committed, Silent, IoEvents, IoStep;
  }

  lemma NextGates(l: Life, a: Act, m: Life)
    requires Gates(l) && Next(l, a, m)
    ensures Gates(m)
  {
    hide Correlation.Next, ConnectNext, CloseNext, IoNext, Committed;
    match a
    case Connect(ok) => ConnectGates(l, ok, m);
    case Close(s) => CloseGates(l, s, m);
    case Io(r, s) => IoGates(l, r, s, m);
    case _ =>
  }

  /** What one more event changes. */
  lemma Appends(tr: seq<Event>, e: Event, ts: seq<Event>)
    requires ts == tr + [e]
    ensures forall lo: nat, hi: nat | hi <= |tr| :: NotifiedIn(ts, lo, hi) == NotifiedIn(tr, lo, hi)
    ensures forall lo: nat, hi: nat | hi <= |tr| :: DeadIn(ts, lo, hi) == DeadIn(tr, lo, hi)
    ensures forall lo: nat, hi: nat | hi <= |tr| :: OpenSampleIn(ts, lo, hi) == OpenSampleIn(tr, lo, hi)
    ensures forall lo: nat | lo <= |tr| :: NotifiedIn(ts, lo, |ts|) <==> NotifiedIn(tr, lo, |tr|) || e.Notified?
    ensures forall lo: nat | lo <= |tr| :: DeadIn(ts, lo, |ts|) <==> DeadIn(tr, lo, |tr|) || e.FoundDead?
    ensures forall lo: nat | lo <= |tr| ::
              OpenSampleIn(ts, lo, |ts|) <==> OpenSampleIn(tr, lo, |tr|) || e == Sampled(false)
    ensures forall lo: nat | lo <= |tr| :: CloseIn(ts, lo, |ts|) <==> CloseIn(tr, lo, |tr|) || e.ClosePassed?
  {
    assert ts[|tr|] == e && forall i {:trigger tr[i]} {:trigger ts[i]} | 0 <= i < |tr| :: ts[i] == tr[i];
  }

  lemma ToldMoves(st: Stage, fired: bool, closing: bool, tr: seq<Event>, es: seq<Event>, next: Stage)
    requires Told(st, fired, tr) && Moves(st, fired, closing, es, next)
    ensures Told(next, fired, tr + es)
  {
    if es == [] {
      assert tr + es == tr;
    } else {
      assert es == [es[0]];
      Appends(tr, es[0], tr + es);
      hide NotifiedIn, DeadIn, OpenSampleIn, CloseIn;
    }
  }

  lemma QuietMoves(st: Stage, fired: bool, closing: bool, tr: seq<Event>, es: seq<Event>, next: Stage)
    requires Told(st, fired, tr) && Quiet(st, closing, tr) && Moves(st, fired, closing, es, next)
    ensures Quiet(next, closing || (es != [] && es[0].ClosePassed?), tr + es)
  {
    if es == [] {
      assert tr + es == tr;
    } else {
      assert es == [es[0]];
      Appends(tr, es[0], tr + es);
      NoneBeyond(tr);
      NoneBeyond(tr + es);
      hide NotifiedIn, DeadIn, OpenSampleIn, CloseIn;
    }
  }

  lemma NoneBeyond(tr: seq<Event>)
    ensures forall i | 0 <= i < |tr| && tr[i].ClosePassed? :: CloseIn(tr, 0, |tr|)
    ensures forall n: nat | n + 1 == |tr| && tr[n].ClosePassed? :: !NotifiedIn(tr, n, |tr|) && !DeadIn(tr, n, |tr|)
  {
  }

  lemma ConnectMoves(l: Life, ok: bool, m: Life) returns (events: seq<Event>)
    requires Gates(l) && ConnectNext(l, ok, m)
    ensures m.trace == l.trace + events && Moves(StageOf(l.io), l.fired, l.closing, events, StageOf(m.io))
    ensures events != [] ==> !events[0].ClosePassed?
    ensures m.closing == l.closing && (m.fired ==> l.fired)
  {
    hide ConnectTarget;
    events := if l.connect.SetOpen? then [OpenedAt(l.now)] else [];
  }

  /** What the threads other than connect and the I/O thread, and the gates, leave alone. */
  lemma OthersFrame(l: Life, a: Act, m: Life)
    requires Next(l, a, m) && !a.Io? && !a.Connect? && !a.CloseGate?
    ensures m.trace == l.trace && m.io == l.io && m.fired == l.fired && m.closing == l.closing
    ensures m.hb == l.hb && m.inbound == l.inbound && m.read == l.read
    ensures m.lastInbound == l.lastInbound && m.now >= l.now
  {
    hide Correlation.Next, CloseReady, CloseStep, CloseUsesTable, CloseTarget, NoneTaken;
  }

  /** Every step moves the stage as its event allows. */
  lemma NextMoves(l: Life, a: Act, m: Life) returns (events: seq<Event>)
    requires Gates(l) && Next(l, a, m)
    ensures m.trace == l.trace + events && Moves(StageOf(l.io), l.fired, l.closing, events, StageOf(m.io))
    ensures m.closing == (l.closing || (events != [] && events[0].ClosePassed?))
    ensures m.fired ==> l.fired || StageOf(m.io) == Gone
  {
    hide ConnectNext, IoNext, CloseNext, BeatNext, CallerNext, IoEvents;
    events := [];
    match a
    case Io(r, s) =>
      IoMoves(l, r, s, m);
      events := IoEvents(l);
    case Connect(ok) => events := ConnectMoves(l, ok, m);
    case CloseGate =>
      if l.state.Open? {
        events := [ClosePassed(Committed(l.io))];
      } else {
        assert m.trace == l.trace + [];
      }
    case _ =>
      OthersFrame(l, a, m);
      assert m.trace == l.trace + [];
  }

  lemma IoMoves(l: Life, r: ReadResult, s: Step, m: Life)
    requires IoNext(l, r, s, m) && !(l.io.Sampling? && l.io.reason.HeartbeatTimeout?)
    ensures Moves(StageOf(l.io), l.fired, l.closing, IoEvents(l), StageOf(m.io))
    ensures IoEvents(l) != [] ==> !IoEvents(l)[0].ClosePassed?
    ensures m.fired ==> l.fired || StageOf(m.io) == Gone
    ensures m.trace == l.trace + IoEvents(l) && m.closing == l.closing
  {
    hide Correlation.Next, NoneTaken, IoStep, Silent;
  }

  /** Time and the events that carry it. */
  lemma ClockedMoves(l: Life, events: seq<Event>, m: Life)
    requires Clocked(l) && m.trace == l.trace + events && |events| <= 1
    requires m.hb == l.hb && l.lastInbound <= m.lastInbound <= m.now
    requires events != [] && Sign(events[0]) ==> events[0].at <= m.lastInbound
    requires events != [] && events[0].FoundDead? ==> l.hb > 0 && events[0].at - l.lastInbound > 2000 * l.hb
    ensures Clocked(m)
  {
    if events == [] {
      assert m.trace == l.trace;
    } else {
      var n := |l.trace|;
      assert m.trace[n] == events[0] && forall i | 0 <= i < n :: m.trace[i] == l.trace[i];
    }
  }

  lemma IoClocked(l: Life, r: ReadResult, s: Step, m: Life)
    requires Clocked(l) && IoNext(l, r, s, m)
    ensures Clocked(m)
  {
    hide Correlation.Next, NoneTaken, IoStep, IoTarget, IoUsesTable;
    ClockedMoves(l, IoEvents(l), m);
  }

  lemma NextClocked(l: Life, a: Act, m: Life)
    requires Clocked(l) && Next(l, a, m)
    ensures Clocked(m)
  {
    hide IoNext, CloseNext, BeatNext, CallerNext, ConnectTarget;
    match a
    case Io(r, s) => IoClocked(l, r, s, m);
    case Connect(ok) => ClockedMoves(l, if l.connect.SetOpen? then [OpenedAt(l.now)] else [], m);
    case CloseGate => ClockedMoves(l, if l.state.Open? then [ClosePassed(Committed(l.io))] else [], m);
    case _ =>
      OthersFrame(l, a, m);
      ClockedMoves(l, [], m);
  }

  /** The operation on the shared table that a step contains, if any, and whose it can be. */
  lemma NextCorr(l: Life, a: Act, m: Life) returns (s: Option<Step>)
    requires Next(l, a, m)
    ensures s.None? ==> m.corr == l.corr
    ensures s.Some? ==> Correlation.Next(l.corr, s.value, m.corr)
    ensures s.Some? && a.Io? ==> s == Some(a.step) && IoStep(l, a.step, NoneTaken(l.corr, IoThread))
    ensures s.None? && a.Io? ==> !IoUsesTable(l.io, NoneTaken(l.corr, IoThread))
    ensures s.Some? && a.Close? ==> s == Some(a.step) && CloseStep(l, a.step)
    ensures s.Some? && !a.Io? && !a.Close? ==>
              && a.Caller? && s.value == a.step
              && !s.value.Match? && !s.value.Expire? && !s.value.TakeAll? && !s.value.Settle?
  {
    hide Correlation.Next, CloseReady, CloseTarget, CloseStep, NoneTaken,
         IoEvents, IoTarget, IoReady, IoUsesTable, IoStep;
    match a
    case Io(_, step) => s := if IoUsesTable(l.io, NoneTaken(l.corr, IoThread)) then Some(step) else None;
    case Close(step) => s := if CloseUsesTable(l.close, NoneTaken(l.corr, CloserThread)) then Some(step) else None;
    case Caller(step) => s := Some(step);
    case _ => s := None;
  }

  /** What every thread but the I/O thread leaves alone. */
  lemma NotIoFrame(l: Life, a: Act, m: Life)
    requires Gates(l) && Next(l, a, m) && !a.Io?
    ensures m.io == l.io || (l.io == NoIo && m.io == Head)
    ensures m.inbound == l.inbound && m.read == l.read
  {
    hide ConnectTarget;
    match a
    case Connect(_) =>
    case CloseGate =>
    case _ =>
      OthersFrame(l, a, m);
      hide Next;
  }

  lemma IoInOrder(l: Life, r: ReadResult, s: Step, m: Life)
    requires InOrder(l) && IoNext(l, r, s, m)
    ensures InOrder(m)
  {
    hide Correlation.Next, NoneTaken, IoEvents, Silent;
    if IoUsesTable(l.io, NoneTaken(l.corr, IoThread)) {
      CorrEffect(l.corr, s, m.corr);
    }
  }

  lemma NextInOrder(l: Life, a: Act, m: Life)
    requires Gates(l) && InOrder(l) && Next(l, a, m)
    ensures InOrder(m)
  {
    var s := NextCorr(l, a, m);
    if s.Some? {
      CorrEffect(l.corr, s.value, m.corr);
    }
    if a.Io? {
      IoInOrder(l, a.result, a.step, m);
    } else {
      NotIoFrame(l, a, m);
      hide Next, IoStep, NoneTaken, Gates;
    }
  }

  lemma IoHands(l: Life, r: ReadResult, s: Step, m: Life)
    requires Hands(l) && IoNext(l, r, s, m)
    ensures Hands(m)
  {
    hide Correlation.Next, NoneTaken, IoEvents, Silent;
    if IoUsesTable(l.io, NoneTaken(l.corr, IoThread)) {
      CorrEffect(l.corr, s, m.corr);
    }
  }

  lemma NextHands(l: Life, a: Act, m: Life)
    requires Gates(l) && Hands(l) && Next(l, a, m)
    ensures Hands(m)
  {
    var s := NextCorr(l, a, m);
    if s.Some? {
      CorrEffect(l.corr, s.value, m.corr);
    }
    if a.Io? {
      IoHands(l, a.result, a.step, m);
    } else {
      NotIoFrame(l, a, m);
      hide Correlation.Next, ConnectTarget, IoNext, CloseReady, NoneTaken, IoStep;
    }
  }

  lemma IoNotDue(l: Life, r: ReadResult, s: Step, m: Life)
    requires NotDue(l) && IoNext(l, r, s, m)
    ensures NotDue(m)
  {
    hide Correlation.Next, NoneTaken, IoEvents, Silent;
    if IoUsesTable(l.io, NoneTaken(l.corr, IoThread)) {
      CorrEffect(l.corr, s, m.corr);
    }
  }

  lemma NextNotDue(l: Life, a: Act, m: Life)
    requires Gates(l) && NotDue(l) && Next(l, a, m)
    ensures NotDue(m)
  {
    var s := NextCorr(l, a, m);
    if s.Some? {
      CorrEffect(l.corr, s.value, m.corr);
    }
    if a.Io? {
      IoNotDue(l, a.result, a.step, m);
    } else {
      NotIoFrame(l, a, m);
      hide Next, IoStep, NoneTaken, Gates;
    }
  }

  // ---- The discipline between connect and close -----------------------------------------------

  /** connect and close are not called concurrently: close starts when connect has returned. */
  predicate Serial(l: Life, a: Act) {
    a.CloseGate? ==> l.connect.NoConnect? || l.connect.ConnectDone? || l.connect.GaveUp?
  }

  /** connect has started the threads there are to start. */
  predicate Started(l: Life) { l.io != NoIo && (l.hb == 0 || l.beat != NoBeat) }

  /** close has not joined any thread yet. */
  predicate BeforeJoins(pc: ClosePc) {
    !pc.IoJoined? && !pc.BeatJoined? && !pc.FailingRest? && !pc.CloseDone?
  }

  /** Which threads close has seen end, when they were started before it joined them. */
  predicate Joined(l: Life) {
    && Started(l)
    && (l.close.IoJoined? || l.close.BeatJoined? || l.close.FailingRest? || l.close.CloseDone? ==> l.io == Exited)
    && (l.close.BeatJoined? || l.close.FailingRest? || l.close.CloseDone? ==> l.beat in {NoBeat, BeatEnded})
  }

  /** Once close has taken the table, what came before is out of it and nothing later is resolved. */
  ghost predicate Drained(l: Life) {
    var b := l.corr.ledger;
    && (l.close.FailingRest? || l.close.CloseDone? ==>
          && l.mark <= |b.entries|
          && (forall cid | cid in b.pending :: b.pending[cid].promise >= l.mark)
          && (forall e | e in b.taken :: e < l.mark)
          && (forall i | 0 <= i < |b.log| :: b.log[i].entry < l.mark))
    && (l.close.CloseDone? ==> NoneTaken(l.corr, CloserThread))
  }

  ghost predicate Ended(l: Life) { Joined(l) && Drained(l) }

  /** Taking the whole table, what is taken or set was registered before. */
  lemma TakeKeepsEntries(c: Corr, s: Step, d: Corr)
    requires Sound(c.ledger) && Correlation.Next(c, s, d) && s.TakeAll?
    ensures d.ledger.entries == c.ledger.entries && d.ledger.log == c.ledger.log
    ensures forall e | e in d.ledger.taken :: e < |c.ledger.entries|
    ensures forall i | 0 <= i < |c.ledger.log| :: c.ledger.log[i].entry < |c.ledger.entries|
  {
  }

  lemma CloseJoined(l: Life, s: Step, m: Life)
    requires Gates(l) && Joined(l) && CloseNext(l, s, m)
    ensures Joined(m)
  {
    hide Correlation.Next, NoneTaken, CloseStep, CloseUsesTable;
  }

  lemma CloseDrained(l: Life, s: Step, m: Life)
    requires Drained(l) && Sound(l.corr.ledger) && CloseNext(l, s, m)
    ensures Drained(m)
  {
    if l.close.BeatJoined? {
      TakeKeepsEntries(l.corr, s, m.corr);
    }
    hide Correlation.Next, NoneTaken, Sound;
    if CloseUsesTable(l.close, NoneTaken(l.corr, CloserThread)) {
      CorrEffect(l.corr, s, m.corr);
    }
  }

  lemma IoStarted(l: Life, r: ReadResult, s: Step, m: Life)
    requires IoNext(l, r, s, m)
    ensures l.io != NoIo && l.io != Exited && m.io != NoIo && m.beat == l.beat && m.hb == l.hb && m.close == l.close
  {
    hide Correlation.Next, NoneTaken, IoEvents, IoStep;
  }

  lemma IoEnded(l: Life, r: ReadResult, s: Step, m: Life)
    requires Ended(l) && IoNext(l, r, s, m)
    ensures Ended(m)
  {
    IoStarted(l, r, s, m);
    hide Correlation.Next, NoneTaken, IoEvents, IoTarget;
    if IoUsesTable(l.io, NoneTaken(l.corr, IoThread)) {
      CorrEffect(l.corr, s, m.corr);
    }
  }

  lemma OthersJoined(l: Life, a: Act, m: Life)
    requires Gates(l) && Joined(l) && Next(l, a, m) && !a.Io? && !a.Close?
    ensures Joined(m) && m.mark == l.mark
    ensures m.close == l.close || (l.close.NoClose? && m.close.Entered?)
  {
    hide Correlation.Next, IoNext, CloseNext, ConnectNext;
    if a.Connect? {
      ConnectJoined(l, a.ok, m);
    }
  }

  lemma ConnectJoined(l: Life, ok: bool, m: Life)
    requires Gates(l) && Joined(l) && ConnectNext(l, ok, m)
    ensures Joined(m) && m.mark == l.mark && m.close == l.close
  {
  }

  lemma NextEnded(l: Life, a: Act, m: Life)
    requires Gates(l) && Ended(l) && Sound(l.corr.ledger) && Next(l, a, m)
    ensures Ended(m)
  {
    hide Gates, Joined, Sound, Correlation.Next, CloseNext, IoNext, IoStep, NoneTaken;
    match a
    case Close(s) =>
      CloseJoined(l, s, m);
      CloseDrained(l, s, m);
    case Io(r, s) => IoEnded(l, r, s, m);
    case _ =>
      OthersJoined(l, a, m);
      OthersDrained(l, a, m);
  }

  lemma OthersDrained(l: Life, a: Act, m: Life)
    requires Drained(l) && Next(l, a, m) && !a.Io? && !a.Close? && m.mark == l.mark
    requires m.close == l.close || (l.close.NoClose? && m.close.Entered?)
    ensures Drained(m)
  {
    var s := NextCorr(l, a, m);
    if s.Some? {
      CorrEffect(l.corr, s.value, m.corr);
    }
    hide Next, NoneTaken, IoStep, CloseStep;
  }

  // ---- When the I/O thread ends by itself ------------------------------------------------------

  predicate CloseTook(pc: ClosePc) { pc.FailingRest? || pc.CloseDone? }

  /** Behind the I/O thread's fail_all_pending. */
  predicate PastFailing(io: IoPc) { io.FailingAll? || io.Sampling? || io.Notifying? || io.Leaving? || io.Exited? }

  /** Once the I/O thread has taken the table, it resolves what came before and nothing later. */
  ghost predicate IoDrained(l: Life) {
    var b := l.corr.ledger;
    l.ioMark.Some? ==>
      && PastFailing(l.io) && l.ioMark.value <= |b.entries|
      && (forall cid | cid in b.pending :: b.pending[cid].promise >= l.ioMark.value)
      && (!CloseTook(l.close) ==>
            && (forall e | e in b.taken :: e < l.ioMark.value)
            && (forall i | 0 <= i < |b.log| :: b.log[i].entry < l.ioMark.value))
  }

  lemma IoIoDrained(l: Life, r: ReadResult, s: Step, m: Life)
    requires IoDrained(l) && Sound(l.corr.ledger) && IoNext(l, r, s, m)
    ensures IoDrained(m)
  {
    if l.io.Dead? || l.io.Broke? {
      TakeKeepsEntries(l.corr, s, m.corr);
    }
    hide Correlation.Next, NoneTaken, IoEvents, Sound, Silent;
    if IoUsesTable(l.io, NoneTaken(l.corr, IoThread)) {
      CorrEffect(l.corr, s, m.corr);
    }
  }

  lemma NextIoDrained(l: Life, a: Act, m: Life)
    requires Gates(l) && IoDrained(l) && Sound(l.corr.ledger) && Next(l, a, m)
    ensures IoDrained(m)
  {
    hide Sound, Correlation.Next;
    if a.Io? {
      IoIoDrained(l, a.result, a.step, m);
    } else {
      var s := NextCorr(l, a, m);
      if s.Some? {
        CorrEffect(l.corr, s.value, m.corr);
      }
      NotIoFrame(l, a, m);
      KeepsIoMark(l, a, m);
      hide Next, NoneTaken, IoStep, Gates;
    }
  }

  lemma KeepsIoMark(l: Life, a: Act, m: Life)
    requires Next(l, a, m) && !a.Io?
    ensures m.ioMark == l.ioMark && (CloseTook(l.close) ==> CloseTook(m.close) || a.CloseGate?)
    ensures a.Close? && l.close.BeatJoined? ==> CloseTook(m.close)
  {
    hide Correlation.Next, ConnectTarget, NoneTaken, CloseStep;
  }

  // ---- Runs ---------------------------------------------------------------------------------

  ghost predicate Run(ls: seq<Life>, acts: seq<Act>) {
    && |ls| == |acts| + 1 && Start(ls[0])
    && forall i | 0 <= i < |acts| :: Next(ls[i], acts[i], ls[i + 1])
  }

  ghost predicate SerialRun(ls: seq<Life>, acts: seq<Act>) {
    Run(ls, acts) && forall i | 0 <= i < |acts| :: Serial(ls[i], acts[i])
  }

  ghost predicate LifeInv(l: Life) {
    && Correlation.Inv(l.corr) && Gates(l) && Told(StageOf(l.io), l.fired, l.trace)
    && Quiet(StageOf(l.io), l.closing, l.trace) && Clocked(l) && InOrder(l) && Hands(l) && NotDue(l)
  }

  lemma NextTold(l: Life, a: Act, m: Life)
    requires Gates(l) && Next(l, a, m)
    requires Told(StageOf(l.io), l.fired, l.trace) && Quiet(StageOf(l.io), l.closing, l.trace)
    ensures Told(StageOf(m.io), m.fired, m.trace) && Quiet(StageOf(m.io), m.closing, m.trace)
  {
    var events := NextMoves(l, a, m);
    ToldMoves(StageOf(l.io), l.fired, l.closing, l.trace, events, StageOf(m.io));
    QuietMoves(StageOf(l.io), l.fired, l.closing, l.trace, events, StageOf(m.io));
    hide Next, Gates, Moves, Quiet;
  }

  lemma NextLife(l: Life, a: Act, m: Life)
    requires LifeInv(l) && Next(l, a, m)
    ensures LifeInv(m)
  {
    hide Next, Gates, Told, Quiet, Clocked, InOrder, Hands, NotDue, Correlation.Next, Correlation.Inv;
    var s := NextCorr(l, a, m);
    if s.Some? {
      NextKeeps(l.corr, s.value, m.corr);
    }
    NextGates(l, a, m);
    NextTold(l, a, m);
    NextClocked(l, a, m);
    NextInOrder(l, a, m);
    NextHands(l, a, m);
    NextNotDue(l, a, m);
  }

  lemma StartLife(l: Life)
    requires Start(l)
    ensures LifeInv(l)
  {
    CounterSteps(100, 0);
    hide Counter;
  }

  lemma {:induction false} EveryState(ls: seq<Life>, acts: seq<Act>, i: nat)
    requires Run(ls, acts) && i < |ls|
    ensures LifeInv(ls[i])
  {
    hide Next, LifeInv, Start;
    if i == 0 {
      StartLife(ls[0]);
    } else {
      EveryState(ls, acts, i - 1);
      NextLife(ls[i - 1], acts[i - 1], ls[i]);
    }
  }

  lemma GatesOf(l: Life)
    requires LifeInv(l)
    ensures Gates(l) && Sound(l.corr.ledger)
  {
    hide Gates, Sound, Partitioned, Answers, Correlation.Numbered, Correlation.Owned, Replied, SentRight,
         Told, Quiet, Clocked, InOrder, Hands, NotDue;
  }

  /** From a state on in which the threads are started and close has not joined them. */
  lemma {:induction false} EveryLaterState(ls: seq<Life>, acts: seq<Act>, k: nat, i: nat)
    requires Run(ls, acts) && k <= i < |ls| && Started(ls[k]) && BeforeJoins(ls[k].close)
    ensures LifeInv(ls[i]) && Ended(ls[i])
  {
    hide Next, Start, LifeInv, Gates, Sound;
    EveryState(ls, acts, i);
    if i > k {
      hide Joined, Drained;
      EveryState(ls, acts, i - 1);
      GatesOf(ls[i - 1]);
      EveryLaterState(ls, acts, k, i - 1);
      NextEnded(ls[i - 1], acts[i - 1], ls[i]);
    }
  }

  /** When close starts after connect has returned, the threads were started before it joined them. */
  lemma {:induction false} SerialStarts(ls: seq<Life>, acts: seq<Act>, i: nat) returns (k: nat)
    requires SerialRun(ls, acts) && i < |ls| && ls[i].close != NoClose
    ensures k <= i && Started(ls[k]) && BeforeJoins(ls[k].close)
  {
    hide Start, LifeInv, Next, Serial, Gates;
    assert i > 0 by { StartsUnclosed(ls, acts); }
    if ls[i - 1].close != NoClose {
      k := SerialStarts(ls, acts, i - 1);
    } else {
      k := i;
      var l, a, m := ls[i - 1], acts[i - 1], ls[i];
      EveryState(ls, acts, i - 1);
      GatesOf(l);
      ClosePasses(l, a, m);
    }
  }

  lemma StartsUnclosed(ls: seq<Life>, acts: seq<Act>)
    requires Run(ls, acts)
    ensures ls[0].close == NoClose
  {
  }

  /** Only its gate makes close begin, and in the Open state. */
  lemma ClosePasses(l: Life, a: Act, m: Life)
    requires Gates(l) && Next(l, a, m) && Serial(l, a) && l.close == NoClose && m.close != NoClose
    ensures Started(m) && BeforeJoins(m.close)
  {
    hide Correlation.Next, CloseStep, IoStep;
  }

  // ---- Theorems -----------------------------------------------------------------------------

  /**
   Every life is a run of the correlation protocol: `at` says where in that run each state of the
   life is, in order and without a gap.
   */
  ghost predicate Traces(ls: seq<Life>, n: nat, cs: seq<Corr>, steps: seq<Step>, at: seq<nat>) {
    && Correlation.Run(cs, steps) && |at| == n + 1 <= |ls| && at[n] == |steps|
    && (forall i | 0 <= i <= n :: at[i] < |cs| && cs[at[i]] == ls[i].corr)
    && (forall i, j | 0 <= i <= j <= n :: at[i] <= at[j])
    && (forall k: nat | k < |cs| :: k in at)
  }

  lemma {:induction false} RefinesCorrelation(ls: seq<Life>, acts: seq<Act>, n: nat)
    returns (cs: seq<Corr>, steps: seq<Step>, at: seq<nat>)
    requires Run(ls, acts) && n < |ls|
    ensures Traces(ls, n, cs, steps, at)
  {
    if n == 0 {
      cs, steps, at := [ls[0].corr], [], [0];
      hide Next, Correlation.Next;
    } else {
      cs, steps, at := RefinesCorrelation(ls, acts, n - 1);
      var s := NextCorr(ls[n - 1], acts[n - 1], ls[n]);
      hide Run, Next, Correlation.Next, IoStep, CloseStep;
      if s.Some? {
        TracesStep(ls, n, cs, steps, at, s.value);
        cs, steps, at := cs + [ls[n].corr], steps + [s.value], at + [|steps| + 1];
      } else {
        TracesStutter(ls, n, cs, steps, at);
        at := at + [|steps|];
      }
    }
  }

  lemma TracesStep(ls: seq<Life>, n: nat, cs: seq<Corr>, steps: seq<Step>, at: seq<nat>, s: Step)
    requires 0 < n < |ls| && Traces(ls, n - 1, cs, steps, at) && Correlation.Next(ls[n - 1].corr, s, ls[n].corr)
    ensures Traces(ls, n, cs + [ls[n].corr], steps + [s], at + [|steps| + 1])
  {
    var ds, more, at' := cs + [ls[n].corr], steps + [s], at + [|steps| + 1];
    hide Correlation.Next;
    forall i | 0 <= i < |more|
      ensures Correlation.Next(ds[i], more[i], ds[i + 1])
    {
      assert i < |steps| ==> Correlation.Next(cs[i], steps[i], cs[i + 1]);
    }
    forall k: nat | k < |ds|
      ensures k in at'
    {
      assert k == |steps| + 1 || k in at;
    }
  }

  lemma TracesStutter(ls: seq<Life>, n: nat, cs: seq<Corr>, steps: seq<Step>, at: seq<nat>)
    requires 0 < n < |ls| && Traces(ls, n - 1, cs, steps, at) && ls[n].corr == ls[n - 1].corr
    ensures Traces(ls, n, cs, steps, at + [|steps|])
  {
    hide Correlation.Run;
  }

  /** Over a whole life: while no held id is more than 2^32 allocations old, every registration inserts. */
  lemma FreshIdsInLife(ls: seq<Life>, acts: seq<Act>, n: nat)
    requires Run(ls, acts) && n < |ls| && forall i | 0 <= i < n :: Window(ls[i].corr)
    ensures ls[n].corr.ledger.broken == {}
    ensures forall k | k in ls[n].corr.calls && ls[n].corr.calls[k].pc.Returned? ::
              !ls[n].corr.calls[k].pc.reply.Throws?
  {
    var cs, steps, at := RefinesCorrelation(ls, acts, n);
    hide Run, Correlation.Run, Window;
    forall k | 0 <= k < at[n]
      ensures Window(cs[k])
    {
      assert k in at;
      var i :| 0 <= i < |at| && at[i] == k;
    }
    FreshIds(cs, steps, at[n]);
  }

  /**
   Over a whole life: at any time a registration is in exactly one place, its promise is set at
   most once, and what it was set to never changes.
   */
  lemma SetAtMostOnceInLife(ls: seq<Life>, acts: seq<Act>, i: nat, j: nat, e: EntryId, o: Outcome, p: Outcome)
    requires Run(ls, acts) && i <= j < |ls| && e < |ls[i].corr.ledger.entries|
    ensures var b := ls[i].corr.ledger;
            ExactlyOne(IsPending(b, e), e in b.taken, !Unresolved(b, e), e in b.broken)
    ensures var log := ls[j].corr.ledger.log; forall m, n | 0 <= m < n < |log| :: log[m].entry != log[n].entry
    ensures Resolution(e, o) in ls[i].corr.ledger.log ==> Resolution(e, o) in ls[j].corr.ledger.log
    ensures Resolution(e, o) in ls[i].corr.ledger.log && Resolution(e, p) in ls[j].corr.ledger.log ==> o == p
  {
    var cs, steps, at := RefinesCorrelation(ls, acts, j);
    hide Run, Correlation.Run;
    SetAtMostOnce(cs, steps, at[i], at[j], e, o, p);
  }

  lemma RankRises(l: Life, a: Act, m: Life)
    requires Gates(l) && Next(l, a, m)
    ensures Rank(l.state) <= Rank(m.state)
  {
    hide Correlation.Next, ConnectTarget, CloseTarget, IoTarget, IoEvents, NoneTaken;
  }

  /**
   In every interleaving the state only moves forward, connect and close pass their gates at most
   once each, and the callback is dispatched at most once, although connect resets its flag.
   */
  lemma {:induction false} OneWay(ls: seq<Life>, acts: seq<Act>, i: nat, j: nat)
    requires Run(ls, acts) && i <= j < |ls|
    ensures Rank(ls[i].state) <= Rank(ls[j].state)
    ensures ls[j].connects <= 1 && ls[j].closes <= 1
    ensures forall m, n | 0 <= m < n < |ls[j].trace| && ls[j].trace[m].Notified? :: !ls[j].trace[n].Notified?
  {
    hide Next, Start, Quiet, Clocked, InOrder, Hands, NotDue, Correlation.Inv;
    EveryState(ls, acts, j);
    if i < j {
      OneWay(ls, acts, i, j - 1);
      EveryState(ls, acts, j - 1);
      RankRises(ls[j - 1], acts[j - 1], ls[j]);
    }
  }

  /**
   The callback is dispatched for a read error only behind a sample of closing_ that was false,
   and close had not passed its gate by then; for a heartbeat timeout only behind that finding.
   */
  lemma CallbackIsJustified(ls: seq<Life>, acts: seq<Act>, i: nat, n: nat)
    requires Run(ls, acts) && i < |ls| && n < |ls[i].trace| && ls[i].trace[n].Notified?
    ensures ls[i].trace[n].reason.HeartbeatTimeout? ==> exists s :: 0 <= s < n && ls[i].trace[s].FoundDead?
    ensures !ls[i].trace[n].reason.HeartbeatTimeout? ==>
              exists s :: 0 <= s < n && ls[i].trace[s] == Sampled(false)
                          && forall g | 0 <= g < s :: !ls[i].trace[g].ClosePassed?
  {
    hide Next, Start, Gates, Clocked, InOrder, Hands, NotDue, Correlation.Inv;
    EveryState(ls, acts, i);
    var tr := ls[i].trace;
    if tr[n].reason.HeartbeatTimeout? {
      assert DeadIn(tr, 0, n);
    } else {
      assert OpenSampleIn(tr, 0, n);
      var s :| 0 <= s < n && tr[s] == Sampled(false);
      assert forall g | 0 <= g < s :: !tr[g].ClosePassed?;
    }
  }

  /**
   "Not on graceful close()" holds exactly when the I/O thread was not past its last check when
   close passed its gate, and does not find the heartbeat dead afterwards.
   */
  lemma QuietCloseExactly(ls: seq<Life>, acts: seq<Act>, i: nat, g: nat)
    requires Run(ls, acts) && i < |ls| && ls[i].io.Exited?
    requires g < |ls[i].trace| && ls[i].trace[g].ClosePassed?
    ensures NotifiedIn(ls[i].trace, g, |ls[i].trace|)
       <==> ls[i].trace[g].committed || DeadIn(ls[i].trace, g, |ls[i].trace|)
    ensures ls[i].hb == 0 ==> !DeadIn(ls[i].trace, g, |ls[i].trace|)
  {
    hide Next, Start, Gates, InOrder, Hands, NotDue, Correlation.Inv;
    EveryState(ls, acts, i);
  }

  /** Once the I/O thread has ended, the callback was dispatched iff a check justified it. */
  lemma CallbackExactly(ls: seq<Life>, acts: seq<Act>, i: nat)
    requires Run(ls, acts) && i < |ls| && ls[i].io.Exited?
    ensures var tr := ls[i].trace;
            NotifiedIn(tr, 0, |tr|) <==> DeadIn(tr, 0, |tr|) || OpenSampleIn(tr, 0, |tr|)
  {
    hide Next, Start, Gates, InOrder, Hands, NotDue, Correlation.Inv, Clocked, Quiet;
    EveryState(ls, acts, i);
  }

  /** No heartbeat timeout is found within two heartbeats of opening or of an inbound frame. */
  lemma NeverDeadEarly(ls: seq<Life>, acts: seq<Act>, i: nat, s: nat, n: nat)
    requires Run(ls, acts) && i < |ls| && s < n < |ls[i].trace|
    requires Sign(ls[i].trace[s]) && ls[i].trace[n].FoundDead?
    ensures ls[i].hb > 0 && ls[i].trace[n].at - ls[i].trace[s].at > 2000 * ls[i].hb
  {
    hide Next, Start, Gates, InOrder, Hands, NotDue, Correlation.Inv, Told, Quiet;
    EveryState(ls, acts, i);
  }

  /** What was dispatched is an initial segment of what the server sent, in order. */
  lemma DispatchedInOrder(ls: seq<Life>, acts: seq<Act>, i: nat)
    requires Run(ls, acts) && i < |ls|
    ensures ls[i].corr.ledger.dispatched <= ls[i].inbound
    ensures |ls[i].corr.ledger.dispatched| <= ls[i].read <= |ls[i].corr.ledger.dispatched| + 1
  {
    hide Next, Start, Gates, Hands, NotDue, Correlation.Inv, Told, Quiet, Clocked;
    EveryState(ls, acts, i);
  }

  /**
   What a call returns as an answer is one of the server's frames, a response under the id the call
   was given, and it answers no other call.
   */
  lemma AnswerIsServers(ls: seq<Life>, acts: seq<Act>, i: nat, k: CallId) returns (at: nat)
    requires Run(ls, acts) && i < |ls|
    requires k in ls[i].corr.calls && ls[i].corr.calls[k].pc.Returned? && ls[i].corr.calls[k].pc.reply.Answer?
    ensures at < |ls[i].inbound| && ls[i].inbound[at] == ls[i].corr.calls[k].pc.reply.frame
    ensures Target(ls[i].inbound[at]) == Some(ls[i].corr.calls[k].cid)
    ensures AnsweredFrom(ls[i].corr, k, at) && forall j | AnsweredFrom(ls[i].corr, j, at) :: j == k
  {
    var cs, steps, where := RefinesCorrelation(ls, acts, i);
    assert Correlation.Run(cs, steps) && cs[|steps|] == ls[i].corr;
    hide Run, Correlation.Run, AnsweredFrom;
    at := OwnAnswer(ls[i].corr, k);
    DispatchedInOrder(ls, acts, i);
  }

  /**
   A request registered before the reap of an I/O pass is not answered by that pass once its
   deadline has been reached at the time the reap looked at.
   */
  lemma AnsweredInTime(ls: seq<Life>, acts: seq<Act>, i: nat, e: EntryId)
    requires Run(ls, acts) && i + 1 < |ls| && ls[i].io.Reaped? && e < ls[i].io.mark
    requires acts[i].Io? && acts[i].step.Match?
    requires IsPending(ls[i].corr.ledger, e) && !IsPending(ls[i + 1].corr.ledger, e)
    ensures ls[i].corr.ledger.entries[e].deadline > ls[i].io.at
  {
    hide Next, Start, Gates, Hands, Correlation.Inv, Told, Quiet, Clocked, InOrder;
    EveryState(ls, acts, i);
  }

  lemma Frozen(l: Life, a: Act, m: Life)
    requires Gates(l) && Ended(l) && Hands(l) && l.close.CloseDone? && Next(l, a, m)
    ensures m.close == l.close && m.state == l.state && m.mark == l.mark && m.trace == l.trace
    ensures m.read == l.read && m.beats == l.beats
    ensures m.corr.ledger.log == l.corr.ledger.log && m.corr.ledger.dispatched == l.corr.ledger.dispatched
  {
    var s := NextCorr(l, a, m);
    if s.Some? {
      CorrEffect(l.corr, s.value, m.corr);
    }
    hide Correlation.Next, NoneTaken;
  }

  lemma NobodyHolds(c: Corr)
    requires NoneTaken(c, IoThread) && NoneTaken(c, CloserThread)
    ensures c.ledger.taken == map[]
  {
    forall e | e in c.ledger.taken
      ensures c.ledger.taken[e].who.IoThread? || c.ledger.taken[e].who.CloserThread?
    {
    }
  }

  lemma EverythingResolved(l: Life, e: EntryId)
    requires LifeInv(l) && Ended(l) && l.close.CloseDone?
    requires e < |l.corr.ledger.entries| && e !in l.corr.ledger.broken
    ensures !Unresolved(l.corr.ledger, e) <==> e < l.mark
  {
    hide Told, Quiet, Clocked, InOrder, NotDue, Correlation.Numbered, Correlation.Owned, Replied, SentRight, Answers;
    var b := l.corr.ledger;
    NobodyHolds(l.corr);
    assert ExactlyOne(IsPending(b, e), e in b.taken, !Unresolved(b, e), e in b.broken);
  }

  /**
   `m` is as close left the client at `l`: the state is Closed, the I/O and heartbeat threads have
   ended, nothing was read, dispatched, notified or resolved since, and exactly the requests
   registered before close failed the rest are resolved.
   */
  ghost predicate ClosedSince(l: Life, m: Life) {
    && m.close.CloseDone? && m.state == Closed && m.io == Exited && m.beat in {NoBeat, BeatEnded}
    && m.trace == l.trace && m.read == l.read && m.beats == l.beats && m.mark == l.mark
    && m.corr.ledger.log == l.corr.ledger.log && m.corr.ledger.dispatched == l.corr.ledger.dispatched
    && forall e: nat | e < |m.corr.ledger.entries| && e !in m.corr.ledger.broken ::
         e < l.mark <==> !Unresolved(m.corr.ledger, e)
  }

  /**
   Whenever close returned ok, and connect had started the threads before close joined them, that
   state of things lasts: a request registered later is never resolved, and only its caller's own
   wait ends it.
   */
  lemma {:induction false} CloseOk(ls: seq<Life>, acts: seq<Act>, k: nat, i: nat, j: nat)
    requires Run(ls, acts) && k <= i <= j < |ls|
    requires Started(ls[k]) && BeforeJoins(ls[k].close) && ls[i].close.CloseDone?
    ensures ClosedSince(ls[i], ls[j])
  {
    hide Next, Start, LifeInv, Joined, Drained, Unresolved;
    EveryLaterState(ls, acts, k, j);
    if i < j {
      CloseOk(ls, acts, k, i, j - 1);
      EveryLaterState(ls, acts, k, j - 1);
      FrozenAt(ls[j - 1], acts[j - 1], ls[j]);
    }
    ClosedAt(ls[j]);
    forall e: nat | e < |ls[j].corr.ledger.entries| && e !in ls[j].corr.ledger.broken
      ensures e < ls[j].mark <==> !Unresolved(ls[j].corr.ledger, e)
    {
      EverythingResolved(ls[j], e);
    }
  }

  /** All of this holds when connect and close are not called concurrently, as the class demands. */
  lemma CloseOkSerial(ls: seq<Life>, acts: seq<Act>, i: nat, j: nat)
    requires SerialRun(ls, acts) && i <= j < |ls| && ls[i].close.CloseDone?
    ensures ClosedSince(ls[i], ls[j])
  {
    var k := SerialStarts(ls, acts, i);
    hide Next, Start, Serial, ClosedSince;
    CloseOk(ls, acts, k, i, j);
  }

  lemma {:induction false} EveryIoState(ls: seq<Life>, acts: seq<Act>, i: nat)
    requires Run(ls, acts) && i < |ls|
    ensures LifeInv(ls[i]) && IoDrained(ls[i])
  {
    hide Next, LifeInv, Gates, Sound;
    EveryState(ls, acts, i);
    if i > 0 {
      hide IoDrained, Start;
      EveryState(ls, acts, i - 1);
      GatesOf(ls[i - 1]);
      EveryIoState(ls, acts, i - 1);
      NextIoDrained(ls[i - 1], acts[i - 1], ls[i]);
    }
  }

  /**
   When the I/O thread has ended by itself, on a dead heartbeat or a failed read: exactly the
   requests registered before its own fail_all_pending are resolved, until close takes the rest.
   */
  lemma ExitResolves(ls: seq<Life>, acts: seq<Act>, i: nat, e: EntryId)
    requires Run(ls, acts) && i < |ls| && ls[i].io.Exited? && ls[i].ioMark.Some? && !CloseTook(ls[i].close)
    requires e < |ls[i].corr.ledger.entries| && e !in ls[i].corr.ledger.broken
    ensures !Unresolved(ls[i].corr.ledger, e) <==> e < ls[i].ioMark.value
  {
    hide Next, Start, Gates, Told, Quiet, Clocked, InOrder, NotDue;
    EveryIoState(ls, acts, i);
    hide Correlation.Numbered, Correlation.Owned, Replied, SentRight, Answers, Run;
    var b := ls[i].corr.ledger;
    NobodyHolds(ls[i].corr);
    assert ExactlyOne(IsPending(b, e), e in b.taken, !Unresolved(b, e), e in b.broken);
  }

  /** The stop flag is up, and the heartbeat thread ends, only once close raises it. */
  predicate Unstopped(l: Life) {
    (l.close.NoClose? || l.close.Entered? || l.close.HasId? || l.close.HasEntry? || l.close.SentClose?
     || l.close.Waited?) ==> !l.stopIo && l.beat != BeatEnded
  }

  lemma NextUnstopped(l: Life, a: Act, m: Life)
    requires Gates(l) && Unstopped(l) && Next(l, a, m)
    ensures Unstopped(m)
    ensures l.io.Exited? && l.close.NoClose? ==> m.io.Exited? && m.close.NoClose?
  {
    hide Correlation.Next, CloseStep, IoStep, NoneTaken, Committed, IoEvents;
  }

  lemma {:induction false} EveryUnstopped(ls: seq<Life>, acts: seq<Act>, i: nat)
    requires Run(ls, acts) && i < |ls|
    ensures Gates(ls[i]) && Unstopped(ls[i])
  {
    hide Next, LifeInv, Gates;
    EveryState(ls, acts, i);
    GatesOf(ls[i]);
    if i > 0 {
      hide Unstopped, Start;
      EveryUnstopped(ls, acts, i - 1);
      NextUnstopped(ls[i - 1], acts[i - 1], ls[i]);
    }
  }

  /**
   When the I/O thread has ended by itself before close began, close can never begin any more and
   the stop flag stays down, so that the heartbeat thread, if there is one, never ends.
   */
  lemma {:induction false} BeatNeverEnds(ls: seq<Life>, acts: seq<Act>, i: nat, j: nat)
    requires Run(ls, acts) && i <= j < |ls| && ls[i].io.Exited? && ls[i].close.NoClose?
    ensures ls[j].io.Exited? && ls[j].state == Closed && ls[j].close.NoClose? && !ls[j].stopIo
    ensures ls[j].hb > 0 && ls[j].connect.ConnectDone? ==> ls[j].beat.BeatTest? || ls[j].beat.BeatDue?
  {
    hide Next, Start;
    EveryUnstopped(ls, acts, j);
    if i < j {
      hide Gates, Unstopped;
      EveryUnstopped(ls, acts, j - 1);
      BeatNeverEnds(ls, acts, i, j - 1);
      NextUnstopped(ls[j - 1], acts[j - 1], ls[j]);
    }
    ExitedIsClosed(ls[j]);
  }

  lemma ExitedIsClosed(l: Life)
    requires Gates(l) && Unstopped(l) && l.io.Exited? && l.close.NoClose?
    ensures l.state == Closed && !l.stopIo
    ensures l.hb > 0 && l.connect.ConnectDone? ==> l.beat.BeatTest? || l.beat.BeatDue?
  {
  }

  lemma FrozenAt(l: Life, a: Act, m: Life)
    requires LifeInv(l) && Ended(l) && l.close.CloseDone? && Next(l, a, m)
    ensures m.close == l.close && m.state == l.state && m.mark == l.mark && m.trace == l.trace
    ensures m.read == l.read && m.beats == l.beats
    ensures m.corr.ledger.log == l.corr.ledger.log && m.corr.ledger.dispatched == l.corr.ledger.dispatched
  {
    hide Gates, Ended, Hands, Next, Correlation.Inv, Told, Quiet, Clocked, InOrder, NotDue;
    Frozen(l, a, m);
  }

  lemma ClosedAt(l: Life)
    requires LifeInv(l) && Ended(l) && l.close.CloseDone?
    ensures l.state == Closed && l.io == Exited && l.beat in {NoBeat, BeatEnded}
  {
    hide Correlation.Inv, Told, Quiet, Clocked, InOrder, NotDue, Hands, Drained;
  }

  // ---- A graceful close that notifies -----------------------------------------------------------

  lemma ExtendRun(ls: seq<Life>, acts: seq<Act>, a: Act, m: Life) returns (ls': seq<Life>, acts': seq<Act>)
    requires SerialRun(ls, acts) && Next(ls[|acts|], a, m) && Serial(ls[|acts|], a)
    ensures SerialRun(ls', acts') && ls'[|acts'|] == m
  {
    ls', acts' := ls + [m], acts + [a];
    hide Next, Start, Serial;
    forall i | 0 <= i < |acts'|
      ensures Next(ls'[i], acts'[i], ls'[i + 1]) && Serial(ls'[i], acts'[i])
    {
      if i < |acts| {
        assert Next(ls[i], acts[i], ls[i + 1]) && Serial(ls[i], acts[i]);
      }
    }
  }

  lemma ExtendConnect(ls: seq<Life>, acts: seq<Act>, m: Life) returns (ls': seq<Life>, acts': seq<Act>)
    requires SerialRun(ls, acts) && ConnectNext(ls[|acts|], true, m)
    ensures SerialRun(ls', acts') && ls'[|acts'|] == m
  {
    hide ConnectNext, SerialRun;
    ls', acts' := ExtendRun(ls, acts, Connect(true), m);
  }

  lemma ExtendClose(ls: seq<Life>, acts: seq<Act>, m: Life) returns (ls': seq<Life>, acts': seq<Act>)
    requires SerialRun(ls, acts) && CloseGateNext(ls[|acts|], m) && ls[|acts|].connect == ConnectDone
    ensures SerialRun(ls', acts') && ls'[|acts'|] == m
  {
    hide CloseGateNext, SerialRun;
    ls', acts' := ExtendRun(ls, acts, CloseGate, m);
  }

  lemma ExtendIo(ls: seq<Life>, acts: seq<Act>, r: ReadResult, s: Step, m: Life)
    returns (ls': seq<Life>, acts': seq<Act>)
    requires SerialRun(ls, acts) && IoNext(ls[|acts|], r, s, m)
    ensures SerialRun(ls', acts') && ls'[|acts'|] == m
  {
    hide IoNext, SerialRun;
    ls', acts' := ExtendRun(ls, acts, Io(r, s), m);
  }

  lemma OneState(l: Life)
    requires Start(l)
    ensures SerialRun([l], [])
  {
  }

  function FreshTable(): Corr { Corr(0, 100, 0, map[], [], Ledger([], map[], {}, map[], [], [])) }

  /** The history of a callback behind close's gate. */
  function Story(n: nat): seq<Event>
    requires n <= 4
  {
    [OpenedAt(0), ClosePassed(false), FoundDead(2001), Notified(HeartbeatTimeout)][..n]
  }

  /** A client about to start its I/O thread, with a heartbeat of one second. */
  lemma Opening() returns (ls: seq<Life>, acts: seq<Act>, l: Life)
    ensures SerialRun(ls, acts) && ls[|acts|] == l
    ensures l.hb == 1 && l.timeout == 5 && l.state == Open && l.connect == SetClock && l.close == NoClose
    ensures !l.fired && !l.closing
    ensures l.io == NoIo && l.beat == NoBeat && l.admitted == {} && l.now == 0 && l.lastInbound == 0
    ensures l.corr == FreshTable() && l.trace == Story(1)
  {
    var corr := FreshTable();
    var l0 := Life(1, 5, [], corr, Disconnected, false, false, false, 0, 0, 0, 0, {}, 0, 0,
                   NoConnect, NoClose, NoIo, NoBeat, 0, None, []);
    ls, acts := [l0], [];
    OneState(l0);
    hide SerialRun, Start, IoNext, CloseNext, BeatNext, CallerNext, AdmitNext, CloseGateNext, ConnectNext;
    var l1 := l0.(state := Connecting, connects := 1, connect := Handshaking);
    ls, acts := ExtendRun(ls, acts, ConnectGate, l1);
    ls, acts, l := HandshakeDone(ls, acts, l1);
  }

  lemma HandshakeDone(ls: seq<Life>, acts: seq<Act>, l1: Life) returns (ls': seq<Life>, acts': seq<Act>, l: Life)
    requires SerialRun(ls, acts) && ls[|acts|] == l1
    requires l1.connect == Handshaking && l1.trace == [] && l1.now == 0
    ensures SerialRun(ls', acts') && ls'[|acts'|] == l
    ensures l == l1.(state := Open, closing := false, connect := SetClock, lastInbound := 0, trace := Story(1))
  {
    hide SerialRun, Next;
    var l2 := l1.(state := Open, closing := false, connect := SetOpen);
    ls', acts' := ExtendConnect(ls, acts, l2);
    l := l2.(connect := SetClock, lastInbound := 0, trace := Story(1));
    ls', acts' := ExtendConnect(ls', acts', l);
  }

  lemma Connected() returns (ls: seq<Life>, acts: seq<Act>, l: Life)
    ensures SerialRun(ls, acts) && ls[|acts|] == l
    ensures l.hb == 1 && l.state == Open && l.connect == ConnectDone && l.io == Head
    ensures !l.stopIo && !l.fired && !l.closing
    ensures l.now == 0 && l.lastInbound == 0 && l.trace == Story(1)
    ensures l.corr.ledger == Ledger([], map[], {}, map[], [], [])
  {
    var l3;
    ls, acts, l3 := Opening();
    hide SerialRun, Next;
    var l4 := l3.(connect := StopLowered, stopIo := false);
    ls, acts := ExtendConnect(ls, acts, l4);
    var l5 := l4.(connect := FiredLowered);
    ls, acts := ExtendConnect(ls, acts, l5);
    var l6 := l5.(connect := IoRunning, io := Head);
    ls, acts := ExtendConnect(ls, acts, l6);
    l := l6.(connect := ConnectDone, beat := BeatTest);
    ls, acts := ExtendConnect(ls, acts, l);
  }

  /** close passes its gate, and two seconds later the I/O thread wakes up. */
  lemma ClosingAndSilent() returns (ls: seq<Life>, acts: seq<Act>, l: Life)
    ensures SerialRun(ls, acts) && ls[|acts|] == l
    ensures l.hb == 1 && l.io == Woke && l.closing && !l.fired
    ensures l.now == 2001 && l.lastInbound == 0 && l.trace == Story(2)
    ensures l.corr.ledger == Ledger([], map[], {}, map[], [], [])
  {
    var l0;
    ls, acts, l0 := Connected();
    hide SerialRun, CloseNext, BeatNext, CallerNext, AdmitNext, ConnectNext, ConnectGateNext;
    var idle := Settle(IoThread, 0);
    var l1 := l0.(state := Closing, closing := true, closes := l0.closes + 1, close := Entered, trace := Story(2));
    ls, acts := ExtendClose(ls, acts, l1);
    var l2 := l1.(now := 2001);
    ls, acts := ExtendRun(ls, acts, Tick(2001), l2);
    var l3 := l2.(io := Reading);
    ls, acts := ExtendIo(ls, acts, ReadTimeout, idle, l3);
    l := l3.(io := Woke);
    ls, acts := ExtendIo(ls, acts, ReadTimeout, idle, l);
  }

  lemma TakeNothing(c: Corr, kind: ErrorKind)
    requires c.ledger == Ledger([], map[], {}, map[], [], [])
    ensures Correlation.Next(c, TakeAll(IoThread, kind), c)
    ensures NoneTaken(c, IoThread)
  {
    assert EntriesAt(c.ledger.pending, c.ledger.pending.Keys) == {};
    assert Take(c.ledger, c.ledger.pending.Keys, Taken(IoThread, Failed(kind))) == c.ledger;
  }

  lemma DeadWhileClosing() returns (ls: seq<Life>, acts: seq<Act>, l: Life)
    ensures SerialRun(ls, acts) && ls[|acts|] == l
    ensures l.io == FailingAll(HeartbeatTimeout) && l.closing && !l.fired && l.trace == Story(3)
    ensures NoneTaken(l.corr, IoThread)
  {
    var l4;
    ls, acts, l4 := ClosingAndSilent();
    hide SerialRun, Next, Correlation.Next;
    var l5 := l4.(io := Dead, trace := Story(3));
    ls, acts := ExtendIo(ls, acts, ReadTimeout, Settle(IoThread, 0), l5);
    TakeNothing(l5.corr, ConnectionClosed);
    l := l5.(io := FailingAll(HeartbeatTimeout), ioMark := Some(|l5.corr.ledger.entries|));
    ls, acts := ExtendIo(ls, acts, ReadTimeout, TakeAll(IoThread, ConnectionClosed), l);
  }

  /**
   "The callback never fires on a graceful close" fails: close passes its gate on a healthy
   connection, and while it waits the I/O thread finds the heartbeat dead and notifies.
   */
  lemma CloseMayNotify() returns (ls: seq<Life>, acts: seq<Act>)
    ensures SerialRun(ls, acts) && ls[|acts|].closing
    ensures var tr := ls[|acts|].trace; 1 < |tr| && tr[1] == ClosePassed(false) && NotifiedIn(tr, 1, |tr|)
  {
    var l6;
    ls, acts, l6 := DeadWhileClosing();
    hide SerialRun, Next, NoneTaken;
    var l7 := l6.(io := Notifying(HeartbeatTimeout));
    ls, acts := ExtendIo(ls, acts, ReadTimeout, Settle(IoThread, 0), l7);
    var l8 := l7.(io := Leaving, fired := true, trace := Story(4));
    ls, acts := ExtendIo(ls, acts, ReadTimeout, Settle(IoThread, 0), l8);
    assert l8.trace[3].Notified?;
  }

  /** The history of a callback that was decided before close passed its gate. */
  function Race(n: nat): seq<Event>
    requires n <= 4
  {
    [OpenedAt(0), Sampled(false), ClosePassed(true), Notified(ReadError)][..n]
  }

  lemma ReadFails() returns (ls: seq<Life>, acts: seq<Act>, l: Life)
    ensures SerialRun(ls, acts) && ls[|acts|] == l
    ensures l.io == FailingAll(ReadError) && l.state == Open && l.connect == ConnectDone
    ensures !l.closing && !l.fired && l.trace == Race(1) && NoneTaken(l.corr, IoThread)
  {
    var l0;
    ls, acts, l0 := Connected();
    hide SerialRun, Next, Correlation.Next;
    assert l0.trace == Race(1);
    var l1 := l0.(io := Reading);
    ls, acts := ExtendIo(ls, acts, ReadTimeout, Settle(IoThread, 0), l1);
    var l2 := l1.(io := Broke(ErrorKind.IoError));
    ls, acts := ExtendIo(ls, acts, ReadFailed(ErrorKind.IoError), Settle(IoThread, 0), l2);
    ls, acts, l := FailsNothing(ls, acts, l2);
  }

  lemma FailsNothing(ls: seq<Life>, acts: seq<Act>, l: Life) returns (ls': seq<Life>, acts': seq<Act>, m: Life)
    requires SerialRun(ls, acts) && ls[|acts|] == l && l.io == Broke(ErrorKind.IoError)
    requires l.corr.ledger == Ledger([], map[], {}, map[], [], [])
    ensures SerialRun(ls', acts') && ls'[|acts'|] == m && NoneTaken(m.corr, IoThread)
    ensures m == l.(io := FailingAll(ReadError), ioMark := m.ioMark)
  {
    hide SerialRun, Next, Correlation.Next;
    TakeNothing(l.corr, ErrorKind.IoError);
    m := l.(io := FailingAll(ReadError), ioMark := Some(|l.corr.ledger.entries|));
    ls', acts' := ExtendIo(ls, acts, ReadTimeout, TakeAll(IoThread, ErrorKind.IoError), m);
  }

  /** The other way to fail: closing_ is sampled, then close passes its gate, then the callback goes out. */
  lemma SampleThenClose() returns (ls: seq<Life>, acts: seq<Act>)
    ensures SerialRun(ls, acts) && ls[|acts|].closing
    ensures var tr := ls[|acts|].trace; 2 < |tr| && tr[2] == ClosePassed(true) && NotifiedIn(tr, 2, |tr|)
  {
    var l3;
    ls, acts, l3 := ReadFails();
    hide SerialRun, NoneTaken, Next;
    var l5 := l3.(io := Notifying(ReadError), trace := Race(2));
    ls, acts := SamplesOpen(ls, acts, l3, l5);
    var l6 := l5.(state := Closing, closing := true, closes := l5.closes + 1, close := Entered, trace := Race(3));
    ls, acts := ExtendClose(ls, acts, l6);
    ls, acts := NotifiesBehind(ls, acts, l6);
  }

  lemma SamplesOpen(ls: seq<Life>, acts: seq<Act>, l: Life, m: Life) returns (ls': seq<Life>, acts': seq<Act>)
    requires SerialRun(ls, acts) && ls[|acts|] == l && l.io == FailingAll(ReadError) && NoneTaken(l.corr, IoThread)
    requires !l.closing && l.trace == Race(1) && m == l.(io := Notifying(ReadError), trace := Race(2))
    ensures SerialRun(ls', acts') && ls'[|acts'|] == m
  {
    hide SerialRun, NoneTaken, Next;
    var l1 := l.(io := Sampling(ReadError));
    ls', acts' := ExtendIo(ls, acts, ReadTimeout, Settle(IoThread, 0), l1);
    ls', acts' := ExtendIo(ls', acts', ReadTimeout, Settle(IoThread, 0), m);
  }

  lemma NotifiesBehind(ls: seq<Life>, acts: seq<Act>, l: Life) returns (ls': seq<Life>, acts': seq<Act>)
    requires SerialRun(ls, acts) && ls[|acts|] == l && l.io == Notifying(ReadError) && l.closing && !l.fired
    requires l.trace == Race(3)
    ensures SerialRun(ls', acts') && ls'[|acts'|].closing
    ensures var tr := ls'[|acts'|].trace; 2 < |tr| && tr[2] == ClosePassed(true) && NotifiedIn(tr, 2, |tr|)
  {
    hide SerialRun, NoneTaken, Next;
    var m := l.(io := Leaving, fired := true, trace := Race(4));
    ls', acts' := ExtendIo(ls, acts, ReadTimeout, Settle(IoThread, 0), m);
    assert m.trace[3].Notified?;
  }

  // ---- Why close must not run beside connect ----------------------------------------------------

  lemma ExtendAny(ls: seq<Life>, acts: seq<Act>, a: Act, m: Life) returns (ls': seq<Life>, acts': seq<Act>)
    requires Run(ls, acts) && Next(ls[|acts|], a, m)
    ensures Run(ls', acts') && ls'[|acts'|] == m
  {
    ls', acts' := ls + [m], acts + [a];
    hide Next, Start;
    forall i | 0 <= i < |acts'|
      ensures Next(ls'[i], acts'[i], ls'[i + 1])
    {
      assert i < |acts| ==> Next(ls[i], acts[i], ls[i + 1]);
    }
  }

  lemma CloseStepTo(ls: seq<Life>, acts: seq<Act>, s: Step, m: Life) returns (ls': seq<Life>, acts': seq<Act>)
    requires Run(ls, acts) && CloseNext(ls[|acts|], s, m)
    ensures Run(ls', acts') && ls'[|acts'|] == m
  {
    hide CloseNext, Run;
    ls', acts' := ExtendAny(ls, acts, Close(s), m);
  }

  lemma ConnectStepTo(ls: seq<Life>, acts: seq<Act>, m: Life) returns (ls': seq<Life>, acts': seq<Act>)
    requires Run(ls, acts) && ConnectNext(ls[|acts|], true, m)
    ensures Run(ls', acts') && ls'[|acts'|] == m
  {
    hide ConnectNext, Run;
    ls', acts' := ExtendAny(ls, acts, Connect(true), m);
  }

  function ClosingCall(pc: Pc): Call { Call(CloseRequest, ClosingRequest(), 0, 100, pc) }

  /** The shared table while close sends its request, gives up waiting, and fails what is pending. */
  function TableAt(n: nat): Corr {
    var empty := Ledger([], map[], {}, map[], [], []);
    var entered := Enter(empty, Registration(0, 100, 5));
    var sent := [Sent(0, FrameOf(ClosingCall(Allocated)))];
    match n
    case 0 => FreshTable()
    case 1 => Corr(0, 101, 1, map[0 := ClosingCall(Allocated)], [], empty)
    case 2 => Corr(0, 101, 1, map[0 := ClosingCall(Registered(0))], [], entered)
    case 3 => Corr(0, 101, 1, map[0 := ClosingCall(Waiting(0))], sent, entered)
    case _ =>
      var lost := Failed(ConnectionClosed);
      var ledger := if n == 4 then entered
                    else if n == 5 then entered.(pending := map[], taken := map[0 := Taken(CloserThread, lost)])
                    else entered.(pending := map[], log := [Resolution(0, lost)]);
      Corr(0, 101, 1, map[0 := ClosingCall(Returned(0, Ignored))], sent, ledger)
  }

  lemma TableSteps()
    ensures Correlation.Next(TableAt(0), Allocate(0, CloseRequest, ClosingRequest()), TableAt(1))
    ensures Correlation.Next(TableAt(1), Register(0, 5), TableAt(2))
    ensures Correlation.Next(TableAt(2), Write(0, None), TableAt(3))
    ensures Correlation.Next(TableAt(3), Collect(0, None), TableAt(4))
  {
    hide FrameOf;
    assert FrameOf(ClosingCall(Registered(0))) == FrameOf(ClosingCall(Allocated)) by { SameFrame(); }
    assert TableAt(2) == Move(TableAt(1), 0, Registered(0)).(ledger := TableAt(2).ledger);
  }

  lemma TableTaken()
    ensures Correlation.Next(TableAt(4), TakeAll(CloserThread, ConnectionClosed), TableAt(5))
  {
    hide FrameOf;
    var b := TableAt(4).ledger;
    assert b.pending == map[100 := Slot(0, 5)] && b.taken == map[];
    assert EntriesAt(b.pending, b.pending.Keys) == {0};
    assert Take(b, b.pending.Keys, Taken(CloserThread, Failed(ConnectionClosed)))
        == b.(pending := map[], taken := map[0 := Taken(CloserThread, Failed(ConnectionClosed))]);
  }

  lemma TableSettled()
    ensures Correlation.Next(TableAt(5), Settle(CloserThread, 0), TableAt(6))
    ensures !NoneTaken(TableAt(5), CloserThread) && NoneTaken(TableAt(6), CloserThread)
  {
    hide FrameOf;
    var b := TableAt(5).ledger;
    assert b.taken - {0} == map[];
    assert 0 in b.taken && b.taken[0].who == CloserThread;
    assert TableAt(6).ledger == Fulfil(b, 0);
  }

  lemma SameFrame()
    ensures FrameOf(ClosingCall(Registered(0))) == FrameOf(ClosingCall(Allocated))
  {
  }

  /** close gives up waiting while connect has not started the threads yet. */
  lemma EarlyClose() returns (ls: seq<Life>, acts: seq<Act>, l: Life)
    ensures Run(ls, acts) && ls[|acts|] == l
    ensures l.connect == SetClock && l.close == Waited && l.io == NoIo && l.beat == NoBeat
    ensures l.corr == TableAt(4)
  {
    var l0;
    ls, acts, l0 := Opening();
    assert l0.corr == TableAt(0);
    hide Correlation.Next, TableAt;
    var l1 := l0.(state := Closing, closing := true, closes := l0.closes + 1, close := Entered,
                  trace := l0.trace + [ClosePassed(false)]);
    assert CloseGateNext(l0, l1);
    hide CloseNext, ConnectNext, IoNext, CallerNext, BeatNext;
    ls, acts := ExtendAny(ls, acts, CloseGate, l1);
    var l2 := l1.(now := 5);
    ls, acts := ExtendAny(ls, acts, Tick(5), l2);
    ls, acts, l := GiveUpWaiting(ls, acts, l2);
  }

  lemma GiveUpWaiting(ls: seq<Life>, acts: seq<Act>, l1: Life) returns (ls': seq<Life>, acts': seq<Act>, l: Life)
    requires Run(ls, acts) && ls[|acts|] == l1
    requires l1.close == Entered && l1.corr == TableAt(0) && l1.admitted == {} && l1.now >= 5
    ensures Run(ls', acts') && ls'[|acts'|] == l
    ensures l == l1.(corr := TableAt(4), close := Waited)
  {
    TableSteps();
    hide Run, Next, Correlation.Next, TableAt, NoneTaken, Patient;
    var l2 := l1.(corr := TableAt(1), close := HasId(0));
    ls', acts' := CloseStepTo(ls, acts, Allocate(0, CloseRequest, ClosingRequest()), l2);
    var l3 := l2.(corr := TableAt(2), close := HasEntry(0));
    ls', acts' := CloseStepTo(ls', acts', Register(0, 5), l3);
    var l4 := l3.(corr := TableAt(3), close := SentClose(0));
    ls', acts' := CloseStepTo(ls', acts', Write(0, None), l4);
    l := l4.(corr := TableAt(4), close := Waited);
    ls', acts' := WaitEnds(ls', acts', l4, l);
  }

  lemma WaitEnds(ls: seq<Life>, acts: seq<Act>, l: Life, m: Life) returns (ls': seq<Life>, acts': seq<Act>)
    requires Run(ls, acts) && ls[|acts|] == l && l.close == SentClose(0) && l.corr == TableAt(3) && l.now >= 5
    requires m == l.(corr := TableAt(4), close := Waited)
    ensures Run(ls', acts') && ls'[|acts'|] == m
  {
    TableSteps();
    assert TableAt(3).ledger.entries == [Registration(0, 100, 5)];
    hide Run, Next, Correlation.Next, TableAt, NoneTaken;
    ls', acts' := CloseStepTo(ls, acts, Collect(0, None), m);
  }

  lemma JoinNothing(ls: seq<Life>, acts: seq<Act>, l1: Life) returns (ls': seq<Life>, acts': seq<Act>, l: Life)
    requires Run(ls, acts) && ls[|acts|] == l1
    requires l1.close == Waited && l1.io == NoIo && l1.beat == NoBeat
    ensures Run(ls', acts') && ls'[|acts'|] == l
    ensures l == l1.(close := BeatJoined, stopIo := true)
  {
    hide Run, Next, NoneTaken;
    var idle := Settle(CloserThread, 0);
    var l2 := l1.(close := StopRaised, stopIo := true);
    ls', acts' := CloseStepTo(ls, acts, idle, l2);
    var l3 := l2.(close := SocketShut);
    ls', acts' := CloseStepTo(ls', acts', idle, l3);
    var l4 := l3.(close := IoJoined);
    ls', acts' := CloseStepTo(ls', acts', idle, l4);
    l := l4.(close := BeatJoined);
    ls', acts' := CloseStepTo(ls', acts', idle, l);
  }

  lemma FinishClosing(ls: seq<Life>, acts: seq<Act>, l5: Life) returns (ls': seq<Life>, acts': seq<Act>, l: Life)
    requires Run(ls, acts) && ls[|acts|] == l5
    requires l5.close == BeatJoined && l5.corr == TableAt(4)
    ensures Run(ls', acts') && ls'[|acts'|] == l
    ensures l == l5.(corr := TableAt(6), close := CloseDone, state := Closed, mark := l.mark)
  {
    TableTaken();
    TableSettled();
    hide Run, Next, Correlation.Next, TableAt, NoneTaken;
    var l6 := l5.(close := FailingRest, corr := TableAt(5), mark := |TableAt(4).ledger.entries|);
    ls', acts' := CloseStepTo(ls, acts, TakeAll(CloserThread, ConnectionClosed), l6);
    var l7 := l6.(corr := TableAt(6));
    ls', acts' := CloseStepTo(ls', acts', Settle(CloserThread, 0), l7);
    l := l7.(close := CloseDone, state := Closed);
    ls', acts' := CloseStepTo(ls', acts', Settle(CloserThread, 0), l);
  }

  /**
   Called beside connect, close can return ok before connect has started the threads: the state is
   Closed, the stop flag is down again, and the I/O thread enters its loop.
   */
  lemma CloseBesideConnect() returns (ls: seq<Life>, acts: seq<Act>)
    ensures Run(ls, acts)
    ensures var l := ls[|acts|]; l.close == CloseDone && l.state == Closed && l.io == Head && !l.stopIo
  {
    var l0, l1;
    ls, acts, l0 := EarlyClose();
    hide Run, Next, TableAt;
    ls, acts, l1 := JoinNothing(ls, acts, l0);
    ls, acts, l1 := FinishClosing(ls, acts, l1);
    var l2 := l1.(connect := StopLowered, stopIo := false);
    ls, acts := ConnectStepTo(ls, acts, l2);
    var l3 := l2.(connect := FiredLowered, fired := false);
    ls, acts := ConnectStepTo(ls, acts, l3);
    var l4 := l3.(connect := IoRunning, io := Head);
    ls, acts := ConnectStepTo(ls, acts, l4);
  }
}
