/**
 Why a call ends as it does: what send_and_wait returns for every outcome, and where a failure
 comes from, over all runs of the protocol and all lives of a client.
 */
module Outcomes {
  import opened Base
  import opened Frames
  import opened Dispatchers
  import opened Correlation
  import L = Lifecycle

  // ---- One call -----------------------------------------------------------------------------

  /** close goes on whatever has become of its request. */
  lemma CloseIgnores(c: Corr, k: CallId, outcome: Option<Outcome>, d: Corr)
    requires Next(c, Collect(k, outcome), d) && c.calls[k].kind.CloseRequest?
    ensures d == c.(calls := c.calls[k := c.calls[k].(pc := Returned(c.calls[k].pc.entry, Ignored))])
  {
  }

  /**
   What a call that waits returns: an exception if its promise is broken, the frame it was answered
   with, the error it was failed with, and a timeout if it was reaped or its own wait ran out.
   */
  lemma CollectReturns(c: Corr, k: CallId, outcome: Option<Outcome>, d: Corr)
    requires Next(c, Collect(k, outcome), d) && c.calls[k].kind.SendAndWait?
    ensures var e := c.calls[k].pc.entry;
            && d.calls[k].pc.Returned? && d.calls[k].pc.entry == e
            && var reply := d.calls[k].pc.reply;
               if e in c.ledger.broken then reply == Throws
               else match outcome
                    case None => reply == Failure(RequestTimeout) && Unresolved(c.ledger, e)
                    case Some(TimedOut) => reply == Failure(RequestTimeout)
                    case Some(Failed(kind)) => reply == Failure(kind)
                    case Some(Answered(frame, _)) => reply == Answer(frame)
    ensures d == c.(calls := c.calls[k := c.calls[k].(pc := d.calls[k].pc)])
  {
  }

  /** The step at which call `k` fails with this kind, and why. */
  ghost predicate FailsAt(c: Corr, s: Step, k: CallId, kind: ErrorKind) {
    k in c.calls && !c.calls[k].pc.Returned?
    && match s
       case CheckSize(j) => j == k && kind == ProtocolViolation && !WithinLimit(FrameOf(c.calls[k]), c.frameMax)
       case Write(j, failure) => j == k && failure == Some(kind) && (kind == IoError || kind == ConnectionClosed)
       case Collect(j, outcome) =>
         && j == k && c.calls[k].pc.Waiting? && c.calls[k].pc.entry !in c.ledger.broken
         && (match outcome
             case None => kind == RequestTimeout && Unresolved(c.ledger, c.calls[k].pc.entry)
             case Some(TimedOut) => kind == RequestTimeout && Resolution(c.calls[k].pc.entry, TimedOut) in c.ledger.log
             case Some(Failed(q)) => kind == q && Resolution(c.calls[k].pc.entry, Failed(q)) in c.ledger.log
             case Some(Answered(_, _)) => false)
       case _ => false
  }

  predicate FailedWith(c: Corr, k: CallId, kind: ErrorKind) {
    k in c.calls && c.calls[k].kind.SendAndWait? && c.calls[k].pc.Returned? && c.calls[k].pc.reply == Failure(kind)
  }

  /** A failure is there already, or this step is where it comes from. */
  lemma FailureStep(c: Corr, s: Step, d: Corr, k: CallId, kind: ErrorKind)
    requires Next(c, s, d) && FailedWith(d, k, kind)
    ensures FailedWith(c, k, kind) || FailsAt(c, s, k, kind)
  {
    hide Enter, TakeMatch, Take, Fulfil, Increment, ClosingRequest;
  }

  /**
   Over a whole run: every failure of a call is that of its size check, that of its write, what
   its promise was failed with, or a timeout.
   */
  lemma {:induction false} WhyFailed(cs: seq<Corr>, steps: seq<Step>, n: nat, k: CallId, kind: ErrorKind)
    returns (i: nat)
    requires Run(cs, steps) && n < |cs| && FailedWith(cs[n], k, kind)
    ensures i < n && FailsAt(cs[i], steps[i], k, kind)
  {
    hide Next, FailsAt;
    assert n > 0;
    FailureStep(cs[n - 1], steps[n - 1], cs[n], k, kind);
    if FailedWith(cs[n - 1], k, kind) {
      i := WhyFailed(cs, steps, n - 1, k, kind);
    } else {
      i := n - 1;
    }
  }

  /** No call loses its frame: one that waits, or has returned from its wait, has sent it. */
  ghost predicate HasSent(c: Corr, k: CallId) { exists i | 0 <= i < |c.sent| :: c.sent[i].call == k }

  ghost predicate WaitersSent(c: Corr) {
    forall k | k in c.calls ::
      && (c.calls[k].pc.Waiting? ==> HasSent(c, k))
      && (c.calls[k].pc.Returned? && (c.calls[k].kind.CloseRequest? || !c.calls[k].pc.reply.Failure?) ==>
            HasSent(c, k))
      && (!c.calls[k].pc.Waiting? && !c.calls[k].pc.Returned? ==> !HasSent(c, k))
  }

  lemma SentStep(c: Corr, s: Step, d: Corr)
    requires Next(c, s, d) && WaitersSent(c)
    requires forall i | 0 <= i < |c.sent| :: c.sent[i].call in c.calls
    ensures WaitersSent(d)
    ensures forall i | 0 <= i < |d.sent| :: d.sent[i].call in d.calls
  {
    hide Enter, TakeMatch, Take, Fulfil, Increment, ClosingRequest, FrameOf, HasSent, Fits;
    forall k | k in d.calls
      ensures HasSent(d, k) <==> HasSent(c, k) || (s.Write? && s.call == k)
      ensures HasSent(c, k) ==> k in c.calls
    {
      SentBy(c, s, d, k);
    }
  }

  lemma SentBy(c: Corr, s: Step, d: Corr, k: CallId)
    requires Next(c, s, d) && forall i | 0 <= i < |c.sent| :: c.sent[i].call in c.calls
    ensures HasSent(d, k) <==> HasSent(c, k) || (s.Write? && s.call == k)
    ensures HasSent(c, k) ==> k in c.calls
  {
    hide Enter, TakeMatch, Take, Fulfil, Increment, ClosingRequest, FrameOf, Fits;
    if s.Write? && s.call == k {
      assert d.sent[|c.sent|].call == k;
    }
    if HasSent(c, k) {
      var i :| 0 <= i < |c.sent| && c.sent[i].call == k;
      assert d.sent[i] == c.sent[i];
    }
  }

  /**
   In every run the frame of a call goes out after its promise is registered and before it waits:
   a call that waits, was answered, or threw has sent it, one that has not come so far has not.
   */
  lemma {:induction false} SentBeforeWaiting(cs: seq<Corr>, steps: seq<Step>, n: nat)
    requires Run(cs, steps) && n < |cs|
    ensures WaitersSent(cs[n]) && forall i | 0 <= i < |cs[n].sent| :: cs[n].sent[i].call in cs[n].calls
  {
    if n > 0 {
      hide Next, WaitersSent;
      SentBeforeWaiting(cs, steps, n - 1);
      SentStep(cs[n - 1], steps[n - 1], cs[n]);
    }
  }

  // ---- Lives --------------------------------------------------------------------------------

  lemma SentInLife(ls: seq<L.Life>, acts: seq<L.Act>, n: nat)
    requires L.Run(ls, acts) && n < |ls|
    ensures WaitersSent(ls[n].corr)
  {
    var cs, steps, at := L.RefinesCorrelation(ls, acts, n);
    hide L.Run, Run, WaitersSent;
    SentBeforeWaiting(cs, steps, at[n]);
  }

  lemma {:induction false} WhyFailedInLife(
      ls: seq<L.Life>, acts: seq<L.Act>, n: nat, k: CallId, kind: ErrorKind) returns (i: nat)
    requires L.Run(ls, acts) && n < |ls| && FailedWith(ls[n].corr, k, kind)
    ensures i < n && (acts[i].Caller? || acts[i].Close?) && FailsAt(ls[i].corr, acts[i].step, k, kind)
    ensures kind == RequestTimeout && acts[i].step == Collect(k, None) ==> DueBy(ls[i], ls[i].corr.calls[k].pc.entry)
  {
    hide L.Next, FailsAt, FailedWith, L.LifeInv, Owned, DueBy;
    assert n > 0 by { StartsWithout(ls, acts, k, kind); }
    var l, a, m := ls[n - 1], acts[n - 1], ls[n];
    if FailedWith(l.corr, k, kind) {
      i := WhyFailedInLife(ls, acts, n - 1, k, kind);
    } else {
      i := n - 1;
      L.EveryState(ls, acts, i);
      OwnedOf(l);
      FailureInLife(l, a, m, k, kind);
    }
  }

  /** The deadline of the entry has come. */
  predicate DueBy(l: L.Life, e: EntryId) { e < |l.corr.ledger.entries| && l.corr.ledger.entries[e].deadline <= l.now }

  lemma StartsWithout(ls: seq<L.Life>, acts: seq<L.Act>, k: CallId, kind: ErrorKind)
    requires L.Run(ls, acts)
    ensures !FailedWith(ls[0].corr, k, kind)
  {
  }

  lemma FailureInLife(l: L.Life, a: L.Act, m: L.Life, k: CallId, kind: ErrorKind)
    requires Owned(l.corr) && L.Next(l, a, m) && FailedWith(m.corr, k, kind) && !FailedWith(l.corr, k, kind)
    ensures (a.Caller? || a.Close?) && FailsAt(l.corr, a.step, k, kind)
    ensures a.step == Collect(k, None) ==> DueBy(l, l.corr.calls[k].pc.entry)
  {
    var s := L.NextCorr(l, a, m);
    PatientStep(l, a, m);
    if s.Some? {
      FailureStep(l.corr, s.value, m.corr, k, kind);
      hide L.Next, Next;
      if a.step == Collect(k, None) {
        WaitOver(l, a.step, k);
      }
    }
  }

  lemma WaitOver(l: L.Life, s: Step, k: CallId)
    requires Owned(l.corr) && s == Collect(k, None) && L.Patient(l, s)
    requires k in l.corr.calls && l.corr.calls[k].pc.Waiting? && l.corr.calls[k].pc.entry !in l.corr.ledger.broken
    ensures DueBy(l, l.corr.calls[k].pc.entry)
  {
    assert EntryOf(l.corr.calls[k]).Some?;
  }

  lemma PatientStep(l: L.Life, a: L.Act, m: L.Life)
    requires L.Next(l, a, m)
    ensures (a.Caller? && a.step.Collect?) || (a.Close? && L.CloseStep(l, a.step)) ==> L.Patient(l, a.step)
  {
    hide Next, L.ConnectNext, L.IoNext, L.BeatNext, L.CloseNext;
  }

  lemma OwnedOf(l: L.Life)
    requires L.LifeInv(l)
    ensures Owned(l.corr) && Sound(l.corr.ledger)
  {
    hide Numbered, Replied, SentRight, Sound, Partitioned, Answers, L.Gates, Owned;
  }

  // ---- Where outcomes come from -------------------------------------------------------------

  /** What a step makes of an outcome that was not decided before. */
  lemma DecidedStep(c: Corr, s: Step, d: Corr, e: EntryId, o: Outcome)
    requires Next(c, s, d) && Sound(c.ledger) && Decided(d.ledger, e, o)
    ensures || Decided(c.ledger, e, o)
            || (s.Match? && o.Answered?)
            || (s.Expire? && o == TimedOut && e < |c.ledger.entries| && c.ledger.entries[e].deadline <= s.now)
            || (s.TakeAll? && o == Failed(s.reason))
  {
    hide FrameOf, Increment, ClosingRequest;
    var b := c.ledger;
    match s
    case Expire(now) =>
      if cid :| cid in Expired(b.pending, now) && cid in b.pending && b.pending[cid].promise == e {
        assert IsPending(b, e);
      }
    case Settle(_, f) =>
      assert d.ledger.log == b.log + [Resolution(f, b.taken[f].outcome)];
    case _ =>
  }

  /** What explains that a promise is failed with this kind. */
  ghost predicate Loses(l: L.Life, a: L.Act, kind: ErrorKind) {
    || (a.Io? && l.io.Reading? && a.result == L.ReadFailed(kind))
    || (kind == ConnectionClosed && a.Io? && l.io.Woke? && L.Silent(l))
    || (kind == ConnectionClosed && a.Close? && l.close.BeatJoined?)
  }

  ghost predicate LostBefore(ls: seq<L.Life>, acts: seq<L.Act>, n: nat, kind: ErrorKind) {
    exists i :: 0 <= i < n <= |acts| && i < |ls| && Loses(ls[i], acts[i], kind)
  }

  /** Timeouts of promises are due, and every other failure is of a known kind. */
  ghost predicate Explained(l: L.Life, known: iset<ErrorKind>) {
    && (forall e: nat | Decided(l.corr.ledger, e, TimedOut) :: DueBy(l, e))
    && (forall e: nat, kind | Decided(l.corr.ledger, e, Failed(kind)) :: kind in known)
    && ThreadExplained(l, known)
  }

  predicate ThreadExplained(l: L.Life, known: iset<ErrorKind>) {
    && (l.io.Due? ==> l.io.at <= l.now)
    && (l.io.Broke? ==> l.io.kind in known)
    && (l.io.Dead? ==> ConnectionClosed in known)
  }

  lemma ThreadStep(l: L.Life, a: L.Act, m: L.Life, known: iset<ErrorKind>, more: iset<ErrorKind>)
    requires L.Gates(l) && ThreadExplained(l, known) && L.Next(l, a, m)
    requires forall kind | kind in known || Loses(l, a, kind) :: kind in more
    ensures ThreadExplained(m, more) && l.now <= m.now
  {
    if a.Io? {
      IoThreadStep(l, a.result, a.step, m, known, more);
    } else {
      L.NotIoFrame(l, a, m);
      NowRises(l, a, m);
    }
  }

  lemma NowRises(l: L.Life, a: L.Act, m: L.Life)
    requires L.Next(l, a, m)
    ensures l.now <= m.now
  {
    hide Next, L.CloseStep, L.IoStep, L.NoneTaken, L.IoEvents, L.IoTarget, L.CloseTarget, L.ConnectTarget;
  }

  lemma IoThreadStep(l: L.Life, r: L.ReadResult, s: Step, m: L.Life, known: iset<ErrorKind>, more: iset<ErrorKind>)
    requires ThreadExplained(l, known) && L.IoNext(l, r, s, m)
    requires forall kind | kind in known || Loses(l, L.Io(r, s), kind) :: kind in more
    ensures ThreadExplained(m, more) && l.now <= m.now
  {
    hide Next, L.IoStep, L.NoneTaken, L.IoEvents, L.Silent;
    assert l.io.Reading? && r.ReadFailed? ==> Loses(l, L.Io(r, s), r.kind);
    assert l.io.Woke? && L.Silent(l) ==> Loses(l, L.Io(r, s), ConnectionClosed);
    hide Loses;
  }

  /** Who times out entries, and who fails them all. */
  lemma Resolvers(l: L.Life, a: L.Act, m: L.Life, s: Step, known: iset<ErrorKind>, more: iset<ErrorKind>)
    requires ThreadExplained(l, known) && L.Next(l, a, m) && Next(l.corr, s, m.corr)
    requires forall kind | kind in known || Loses(l, a, kind) :: kind in more
    requires a.Io? ==> a.step == s && L.IoStep(l, s, L.NoneTaken(l.corr, IoThread))
    requires a.Close? ==> a.step == s && L.CloseStep(l, s)
    requires !a.Io? && !a.Close? ==> !s.Expire? && !s.TakeAll?
    ensures s.Expire? ==> s.now <= l.now
    ensures s.TakeAll? ==> s.reason in more
  {
    hide Next, L.Next, L.NoneTaken, L.Silent, L.Patient;
    if a.Close? && s.TakeAll? {
      assert Loses(l, a, ConnectionClosed);
    }
  }

  lemma ExplainedStep(l: L.Life, a: L.Act, m: L.Life, known: iset<ErrorKind>, more: iset<ErrorKind>)
    requires L.Gates(l) && Sound(l.corr.ledger) && Explained(l, known) && L.Next(l, a, m)
    requires forall kind | kind in known || Loses(l, a, kind) :: kind in more
    ensures Explained(m, more)
  {
    ThreadStep(l, a, m, known, more);
    var s := L.NextCorr(l, a, m);
    if s.Some? {
      var step := s.value;
      Resolvers(l, a, m, step, known, more);
      HistoryGrows(l.corr, step, m.corr);
      hide L.Next, L.Gates, L.IoStep, L.CloseStep, Next, Loses, ThreadExplained, Decided, Sound;
      forall e: nat, o | Decided(m.corr.ledger, e, o)
        ensures o == TimedOut ==> DueBy(m, e)
        ensures o.Failed? ==> o.kind in more
      {
        DecidedStep(l.corr, step, m.corr, e, o);
      }
    }
  }

  ghost function Losses(ls: seq<L.Life>, acts: seq<L.Act>, n: nat): iset<ErrorKind> {
    iset kind: ErrorKind | LostBefore(ls, acts, n, kind)
  }

  lemma {:induction false} EveryExplained(ls: seq<L.Life>, acts: seq<L.Act>, n: nat)
    requires L.Run(ls, acts) && n < |ls|
    ensures Explained(ls[n], Losses(ls, acts, n))
  {
    hide L.Next, L.LifeInv, L.Gates, Sound, Loses;
    if n == 0 {
      NothingDecided(ls, acts);
    } else {
      hide Explained, L.Start;
      EveryExplained(ls, acts, n - 1);
      L.EveryState(ls, acts, n - 1);
      L.GatesOf(ls[n - 1]);
      ExplainedStep(ls[n - 1], acts[n - 1], ls[n], Losses(ls, acts, n - 1), Losses(ls, acts, n));
    }
  }

  lemma NothingDecided(ls: seq<L.Life>, acts: seq<L.Act>)
    requires L.Run(ls, acts)
    ensures forall known :: Explained(ls[0], known)
  {
  }

  /**
   Over a whole life: a promise is timed out only when its deadline has come, and failed only with
   the kind of a read that failed before, or with ConnectionClosed after the heartbeat was found
   dead or when close takes the rest.
   */
  lemma WhyResolved(ls: seq<L.Life>, acts: seq<L.Act>, n: nat, e: EntryId)
    requires L.Run(ls, acts) && n < |ls|
    ensures Resolution(e, TimedOut) in ls[n].corr.ledger.log ==> DueBy(ls[n], e)
    ensures forall kind | Resolution(e, Failed(kind)) in ls[n].corr.ledger.log :: LostBefore(ls, acts, n, kind)
  {
    hide L.Run, LostBefore, ThreadExplained;
    EveryExplained(ls, acts, n);
    var b := ls[n].corr.ledger;
    assert forall o | Resolution(e, o) in b.log :: Decided(b, e, o);
  }

  /**
   Over a whole life: a call that failed was too large for the negotiated limit, or its write failed
   with this very kind, or its deadline had come, or its promise was failed with what a read had
   failed with, or with ConnectionClosed by a dead heartbeat or by close.
   */
  lemma WhyCallFailed(ls: seq<L.Life>, acts: seq<L.Act>, n: nat, k: CallId, kind: ErrorKind) returns (i: nat)
    requires L.Run(ls, acts) && n < |ls| && FailedWith(ls[n].corr, k, kind)
    ensures i < n && k in ls[i].corr.calls && (acts[i].Caller? || acts[i].Close?)
    ensures var call := ls[i].corr.calls[k];
            match acts[i].step
            case CheckSize(j) => j == k && kind == ProtocolViolation && !WithinLimit(FrameOf(call), ls[i].corr.frameMax)
            case Write(j, failure) => j == k && failure == Some(kind)
            case Collect(j, outcome) =>
              && j == k && call.pc.Waiting?
              && if kind == RequestTimeout then DueBy(ls[i], call.pc.entry) else LostBefore(ls, acts, i, kind)
            case _ => false
  {
    i := WhyFailedInLife(ls, acts, n, k, kind);
    hide L.Run, LostBefore, FrameOf;
    var s := acts[i].step;
    if s.Collect? && s.outcome.Some? {
      WhyResolved(ls, acts, i, ls[i].corr.calls[k].pc.entry);
      if kind == RequestTimeout && s.outcome.value.Failed? {
        NeverTimeout(ls, acts, i);
      }
    }
  }

  /** Nothing is failed with a timeout: a read that times out is no failed read. */
  lemma NeverTimeout(ls: seq<L.Life>, acts: seq<L.Act>, n: nat)
    requires L.Run(ls, acts) && n < |ls|
    ensures !LostBefore(ls, acts, n, RequestTimeout)
  {
    forall i | 0 <= i < n
      ensures !Loses(ls[i], acts[i], RequestTimeout)
    {
      assert L.Next(ls[i], acts[i], ls[i + 1]);
      NoTimeoutRead(ls[i], acts[i], ls[i + 1]);
    }
  }

  lemma NoTimeoutRead(l: L.Life, a: L.Act, m: L.Life)
    requires L.Next(l, a, m)
    ensures !Loses(l, a, RequestTimeout)
  {
    hide Next, L.IoTarget, L.IoEvents, L.IoStep, L.CloseNext, L.ConnectNext, L.CallerNext, L.BeatNext, L.NoneTaken;
  }

  // ---- Deadlines ----------------------------------------------------------------------------

  lemma NewEntry(l: L.Life, a: L.Act, m: L.Life)
    requires L.Next(l, a, m)
    ensures m.timeout == l.timeout && l.corr.ledger.entries <= m.corr.ledger.entries
    ensures forall e | |l.corr.ledger.entries| <= e < |m.corr.ledger.entries| ::
              m.corr.ledger.entries[e].deadline <= l.now + l.timeout
  {
    var s := L.NextCorr(l, a, m);
    SameTimeout(l, a, m);
    if s.Some? {
      RegisterInTime(l, a, m, s.value);
      HistoryGrows(l.corr, s.value, m.corr);
      if s.value.Register? { EntryOfStep(l.corr, s.value, m.corr); }
    }
  }

  lemma EntryOfStep(c: Corr, s: Step, d: Corr)
    requires Next(c, s, d) && s.Register?
    ensures |d.ledger.entries| == |c.ledger.entries| + 1
    ensures d.ledger.entries[|c.ledger.entries|].deadline == s.deadline
  {
  }

  lemma SameTimeout(l: L.Life, a: L.Act, m: L.Life)
    requires L.Next(l, a, m)
    ensures m.timeout == l.timeout
  {
    hide Next, L.CloseStep, L.IoStep, L.NoneTaken, L.IoEvents, L.IoTarget, L.CloseTarget, L.ConnectTarget, L.Patient;
  }

  lemma RegisterInTime(l: L.Life, a: L.Act, m: L.Life, s: Step)
    requires L.Next(l, a, m) && (a.Caller? || a.Close? || a.Io?) && a.step == s
    requires a.Close? ==> L.CloseStep(l, s)
    requires a.Io? ==> L.IoStep(l, s, L.NoneTaken(l.corr, IoThread))
    ensures s.Register? ==> s.deadline <= l.now + l.timeout
  {
    hide Next, L.CloseNext, L.IoNext, L.ConnectNext, L.BeatNext, L.Patient;
  }

  /** No deadline is further ahead than the request timeout. */
  lemma {:induction false} DeadlinesAreNear(ls: seq<L.Life>, acts: seq<L.Act>, n: nat, e: EntryId)
    requires L.Run(ls, acts) && n < |ls| && e < |ls[n].corr.ledger.entries|
    ensures ls[n].corr.ledger.entries[e].deadline <= ls[n].now + ls[n].timeout
  {
    hide L.Next;
    if n > 0 {
      NewEntry(ls[n - 1], acts[n - 1], ls[n]);
      NowRises(ls[n - 1], acts[n - 1], ls[n]);
      if e < |ls[n - 1].corr.ledger.entries| {
        DeadlinesAreNear(ls, acts, n - 1, e);
      }
    }
  }

  /** No request of the first `mark` is pending that was due at `at`. */
  ghost predicate ReapedSince(l: L.Life, at: Time, mark: nat) {
    forall cid | cid in l.corr.ledger.pending ::
      l.corr.ledger.pending[cid].promise >= mark || l.corr.ledger.pending[cid].deadline > at
  }

  /** The I/O thread is in a pass and has not reaped yet. */
  predicate BeforeReap(io: L.IoPc, at: Time) {
    io.Woke? || io.Got? || io.Timed? || io.Dead? || (io.Due? && io.at >= at)
  }

  lemma ReapStep(l: L.Life, a: L.Act, m: L.Life, at: Time, mark: nat)
    requires L.Gates(l) && L.Next(l, a, m) && at <= l.now && mark <= |l.corr.ledger.entries|
    requires ReapedSince(l, at, mark) || BeforeReap(l.io, at)
    ensures ReapedSince(m, at, mark) || BeforeReap(m.io, at)
  {
    var s := L.NextCorr(l, a, m);
    if s.Some? {
      L.CorrEffect(l.corr, s.value, m.corr);
    }
    if a.Io? {
      PassStep(l, a.result, a.step, m, at);
    } else {
      L.NotIoFrame(l, a, m);
    }
    hide L.Next, Next, L.Gates;
  }

  /** What the I/O thread does in the part of a pass that comes before the reap. */
  lemma PassStep(l: L.Life, r: L.ReadResult, s: Step, m: L.Life, at: Time)
    requires L.IoNext(l, r, s, m) && at <= l.now
    ensures BeforeReap(l.io, at) ==>
              || BeforeReap(m.io, at)
              || (l.io.Due? && s.Expire? && s.now >= at && Next(l.corr, s, m.corr))
              || (l.io.Dead? && s.TakeAll? && Next(l.corr, s, m.corr))
    ensures l.io.Due? || l.io.Dead? ==> L.IoUsesTable(l.io, L.NoneTaken(l.corr, IoThread))
  {
    hide Next, L.NoneTaken, L.IoEvents, L.Silent;
  }

  /**
   Every pass of the I/O thread reaps, with a frame or without: when it is back at its loop head, no
   request is pending that was registered and due when it had read, or had woken up.
   */
  lemma EveryPassReaps(ls: seq<L.Life>, acts: seq<L.Act>, i: nat, j: nat)
    requires L.Run(ls, acts) && i < j < |ls| && (ls[i].io.Woke? || ls[i].io.Got?) && ls[j].io.Head?
    ensures ReapedSince(ls[j], ls[i].now, |ls[i].corr.ledger.entries|)
  {
    hide L.Run, ReapedSince;
    ReapsLater(ls, acts, i, j);
  }

  lemma {:induction false} ReapsLater(ls: seq<L.Life>, acts: seq<L.Act>, i: nat, j: nat)
    requires L.Run(ls, acts) && i <= j < |ls| && (ls[i].io.Woke? || ls[i].io.Got?)
    ensures var at, mark := ls[i].now, |ls[i].corr.ledger.entries|;
            && at <= ls[j].now && mark <= |ls[j].corr.ledger.entries|
            && (ReapedSince(ls[j], at, mark) || BeforeReap(ls[j].io, at))
  {
    hide L.Next, L.LifeInv, L.Gates, ReapedSince, Sound;
    if i < j {
      ReapsLater(ls, acts, i, j - 1);
      L.EveryState(ls, acts, j - 1);
      L.GatesOf(ls[j - 1]);
      NewEntry(ls[j - 1], acts[j - 1], ls[j]);
      NowRises(ls[j - 1], acts[j - 1], ls[j]);
      ReapStep(ls[j - 1], acts[j - 1], ls[j], ls[i].now, |ls[i].corr.ledger.entries|);
    }
  }

  // ---- The reason of the callback -----------------------------------------------------------

  /** A read failed, with an end of the stream if `peer`, otherwise with another error. */
  ghost predicate BrokeBefore(ls: seq<L.Life>, acts: seq<L.Act>, n: nat, peer: bool) {
    exists i :: 0 <= i < n <= |acts| && i < |ls| && ReadBreaks(ls[i], acts[i], peer)
  }

  predicate ReadBreaks(l: L.Life, a: L.Act, peer: bool) {
    a.Io? && l.io.Reading? && a.result.ReadFailed? && (a.result.kind == ConnectionClosed <==> peer)
  }

  /** The reason the I/O thread has in mind, if it is about a read. */
  function ReasonOf(io: L.IoPc): Option<L.CloseReason> {
    match io
    case Broke(kind) => Some(if kind == ConnectionClosed then L.PeerClosedSocket else L.ReadError)
    case FailingAll(reason) => Some(reason)
    case Sampling(reason) => Some(reason)
    case Notifying(reason) => Some(reason)
    case _ => None
  }

  predicate Known(reason: L.CloseReason, peer: bool, other: bool) {
    (reason == L.PeerClosedSocket ==> peer) && (reason == L.ReadError ==> other)
  }

  /** No other reason is in mind or has been given than those known. */
  ghost predicate Honest(l: L.Life, peer: bool, other: bool) {
    && (ReasonOf(l.io).Some? ==> Known(ReasonOf(l.io).value, peer, other))
    && (forall i | 0 <= i < |l.trace| && l.trace[i].Notified? :: Known(l.trace[i].reason, peer, other))
  }

  lemma HonestStep(l: L.Life, a: L.Act, m: L.Life, peer: bool, other: bool, peer': bool, other': bool)
    requires L.Gates(l) && Honest(l, peer, other) && L.Next(l, a, m)
    requires (peer || ReadBreaks(l, a, true) ==> peer') && (other || ReadBreaks(l, a, false) ==> other')
    ensures Honest(m, peer', other')
  {
    if a.Io? {
      IoHonest(l, a.result, a.step, m, peer, other, peer', other');
    } else {
      L.NotIoFrame(l, a, m);
      NothingTold(l, a, m);
    }
  }

  lemma NothingTold(l: L.Life, a: L.Act, m: L.Life)
    requires L.Next(l, a, m) && !a.Io?
    ensures l.trace <= m.trace && forall i | |l.trace| <= i < |m.trace| :: !m.trace[i].Notified?
  {
    hide L.CloseNext, L.IoNext, L.BeatNext, L.CallerNext, L.AdmitNext, L.ConnectTarget;
    if !a.Connect? && !a.CloseGate? {
      L.OthersFrame(l, a, m);
    }
  }

  lemma IoHonest(l: L.Life, r: L.ReadResult, s: Step, m: L.Life, peer: bool, other: bool, peer': bool, other': bool)
    requires Honest(l, peer, other) && L.IoNext(l, r, s, m)
    requires (peer || ReadBreaks(l, L.Io(r, s), true) ==> peer')
    requires (other || ReadBreaks(l, L.Io(r, s), false) ==> other')
    ensures Honest(m, peer', other')
  {
    hide Next, L.IoStep, L.NoneTaken, L.Silent;
  }

  lemma {:induction false} EveryHonest(ls: seq<L.Life>, acts: seq<L.Act>, n: nat)
    requires L.Run(ls, acts) && n < |ls|
    ensures Honest(ls[n], BrokeBefore(ls, acts, n, true), BrokeBefore(ls, acts, n, false))
  {
    hide L.Next, L.LifeInv, L.Gates, Sound, ReadBreaks;
    if n > 0 {
      hide Honest, L.Start;
      EveryHonest(ls, acts, n - 1);
      L.EveryState(ls, acts, n - 1);
      L.GatesOf(ls[n - 1]);
      HonestStep(ls[n - 1], acts[n - 1], ls[n],
                 BrokeBefore(ls, acts, n - 1, true), BrokeBefore(ls, acts, n - 1, false),
                 BrokeBefore(ls, acts, n, true), BrokeBefore(ls, acts, n, false));
    }
  }

  /**
   In every life the callback tells a peer that closed the socket from any other read error: a read
   has met the end of the stream in the first case, and another error in the second.
   */
  lemma ReasonIsTrue(ls: seq<L.Life>, acts: seq<L.Act>, n: nat, i: nat)
    requires L.Run(ls, acts) && n < |ls| && i < |ls[n].trace|
    ensures ls[n].trace[i] == L.Notified(L.PeerClosedSocket) ==> BrokeBefore(ls, acts, n, true)
    ensures ls[n].trace[i] == L.Notified(L.ReadError) ==> BrokeBefore(ls, acts, n, false)
  {
    hide L.Run, BrokeBefore;
    EveryHonest(ls, acts, n);
  }
}
