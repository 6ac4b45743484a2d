/**
 Who may use a connection, and what close does to it: require_open over whole lives, the request
 close sends, and the stop flag it raises.
 */
module Admissions {
  import opened Base
  import opened Frames
  import opened Dispatchers
  import opened Correlation
  import opened Outcomes
  import L = Lifecycle

  // ---- require_open -------------------------------------------------------------------------

  /** In the Open state the call is let in, in any other state it is refused and nothing changes. */
  lemma AdmissionExactly(l: L.Life, k: CallId, m: L.Life)
    requires L.Next(l, L.RequireOpen(k), m)
    ensures if l.state == L.Open then k in m.admitted && m == l.(admitted := m.admitted) else m == l
    ensures k !in l.admitted && m.admitted <= l.admitted + {k}
  {
    hide L.IoNext, L.CloseNext, L.BeatNext, L.CallerNext, L.ConnectNext;
  }

  /** Only require_open lets a call in, and only in the Open state. */
  lemma AdmittedStep(l: L.Life, a: L.Act, m: L.Life)
    requires L.Next(l, a, m)
    ensures l.admitted <= m.admitted
    ensures forall k | k in m.admitted && k !in l.admitted :: a == L.RequireOpen(k) && l.state == L.Open
  {
    hide Next, L.CloseStep, L.IoStep, L.NoneTaken, L.IoEvents, L.IoTarget, L.CloseTarget, L.ConnectTarget;
  }

  lemma {:induction false} AdmittedWhileOpen(ls: seq<L.Life>, acts: seq<L.Act>, j: nat, k: CallId) returns (i: nat)
    requires L.Run(ls, acts) && j < |ls| && k in ls[j].admitted
    ensures i < j && acts[i] == L.RequireOpen(k) && ls[i].state == L.Open && k !in ls[i].admitted
  {
    hide L.Next;
    assert j > 0;
    AdmittedStep(ls[j - 1], acts[j - 1], ls[j]);
    if k in ls[j - 1].admitted {
      i := AdmittedWhileOpen(ls, acts, j - 1, k);
    } else {
      i := j - 1;
    }
  }

  /** Once the connection is Closing or Closed, no call is let in any more. */
  lemma {:induction false} NoneAdmittedBehind(ls: seq<L.Life>, acts: seq<L.Act>, i: nat, j: nat)
    requires L.Run(ls, acts) && i <= j < |ls| && (ls[i].state == L.Closing || ls[i].state == L.Closed)
    ensures ls[j].admitted == ls[i].admitted
  {
    hide L.Next;
    if i < j {
      NoneAdmittedBehind(ls, acts, i, j - 1);
      AdmittedStep(ls[j - 1], acts[j - 1], ls[j]);
      L.OneWay(ls, acts, i, j - 1);
    }
  }

  // ---- Whose the calls are ------------------------------------------------------------------

  predicate AboutCall(s: Step) { s.Allocate? || s.Register? || s.CheckSize? || s.Write? || s.Collect? }

  /** A step is about one call at most, whose kind it does not change; only an allocation makes a call. */
  lemma CallStep(c: Corr, s: Step, d: Corr)
    requires Next(c, s, d)
    ensures if AboutCall(s) then s.call in d.calls && d.calls == c.calls[s.call := d.calls[s.call]]
            else d.calls == c.calls
    ensures AboutCall(s) ==>
              var call := d.calls[s.call];
              && (if s.Allocate? then s.call !in c.calls && call.kind == s.kind && call.pc.Allocated?
                  else s.call in c.calls && call.kind == c.calls[s.call].kind)
              && (s.Register? ==> call.pc.Registered?)
              && (s.Write? && call.kind.CloseRequest? ==> call.pc.Waiting?)
              && (s.Collect? ==> call.pc.Returned?)
  {
    hide FrameOf, Enter, TakeMatch, Take, Fulfil, Increment, ClosingRequest;
  }

  /** The calls of send_and_wait are those that were let in. */
  predicate Let(calls: map<CallId, Call>, admitted: set<CallId>) {
    forall k | k in calls :: calls[k].kind.SendAndWait? <==> k in admitted
  }

  predicate IsClosing(calls: map<CallId, Call>, k: CallId) { k in calls && calls[k].kind.CloseRequest? }

  ghost predicate Lone(calls: map<CallId, Call>) { forall j, k | IsClosing(calls, j) && IsClosing(calls, k) :: j == k }

  /** close has one request of its own, and has come as far with it as its control point says. */
  ghost predicate ClosingAt(calls: map<CallId, Call>, close: L.ClosePc) {
    match close
    case NoClose => forall k :: !IsClosing(calls, k)
    case Entered => forall k :: !IsClosing(calls, k)
    case HasId(k) => IsClosing(calls, k) && calls[k].pc.Allocated?
    case HasEntry(k) => IsClosing(calls, k) && calls[k].pc.Registered?
    case SentClose(k) => IsClosing(calls, k) && calls[k].pc.Waiting?
    case _ => exists k :: IsClosing(calls, k) && calls[k].pc.Returned?
  }

  ghost predicate Calls(l: L.Life) {
    Let(l.corr.calls, l.admitted) && Lone(l.corr.calls) && ClosingAt(l.corr.calls, l.close)
  }

  /** A call that was let in moves. */
  lemma GuestMoves(calls: map<CallId, Call>, admitted: set<CallId>, close: L.ClosePc, k: CallId, call: Call)
    requires Let(calls, admitted) && Lone(calls) && ClosingAt(calls, close) && k in admitted && call.kind.SendAndWait?
    ensures Let(calls[k := call], admitted) && Lone(calls[k := call]) && ClosingAt(calls[k := call], close)
  {
    var more := calls[k := call];
    forall j
      ensures IsClosing(more, j) <==> IsClosing(calls, j)
      ensures IsClosing(calls, j) ==> more[j] == calls[j]
    {
    }
    forall i, j | IsClosing(more, i) && IsClosing(more, j)
      ensures i == j
    {
      assert IsClosing(calls, i) && IsClosing(calls, j);
    }
    if j :| IsClosing(calls, j) && calls[j].pc.Returned? {
      assert IsClosing(more, j) && more[j].pc.Returned?;
    }
  }

  /** The request of close moves, from one control point of close to the next. */
  lemma HostMoves(calls: map<CallId, Call>, admitted: set<CallId>, close: L.ClosePc, k: CallId, call: Call,
                  next: L.ClosePc)
    requires Let(calls, admitted) && Lone(calls) && ClosingAt(calls, close) && k !in admitted && call.kind.CloseRequest?
    requires match close
             case Entered => k !in calls && call.pc.Allocated? && next == L.HasId(k)
             case HasId(j) => j == k && call.pc.Registered? && next == L.HasEntry(k)
             case HasEntry(j) => j == k && call.pc.Waiting? && next == L.SentClose(k)
             case SentClose(j) => j == k && call.pc.Returned? && next == L.Waited
             case _ => false
    ensures Let(calls[k := call], admitted) && Lone(calls[k := call]) && ClosingAt(calls[k := call], next)
  {
    var more := calls[k := call];
    assert IsClosing(more, k);
    forall j | IsClosing(more, j)
      ensures j == k
    {
      assert j != k ==> IsClosing(calls, j);
    }
  }

  lemma NextCalls(l: L.Life, a: L.Act, m: L.Life)
    requires Calls(l) && L.Gates(l) && L.Next(l, a, m)
    ensures Calls(m)
  {
    AdmittedStep(l, a, m);
    if a.Close? {
      CloseCalls(l, a.step, m);
    } else {
      OthersCalls(l, a, m);
    }
  }

  /** A step of close is about its own request. */
  lemma CloseStepAbout(l: L.Life, s: Step, m: L.Life)
    requires L.CloseNext(l, s, m)
    ensures m.admitted == l.admitted
    ensures m.corr == l.corr || (Next(l.corr, s, m.corr) && L.CloseStep(l, s))
    ensures L.CloseUsesTable(l.close, L.NoneTaken(l.corr, CloserThread)) ==>
              L.CloseStep(l, s) && Next(l.corr, s, m.corr)
    ensures m.close == L.CloseTarget(l.close, if s.Allocate? then s.call else 0, L.NoneTaken(l.corr, CloserThread))
  {
    hide Next, L.NoneTaken, L.CloseStep;
  }

  lemma CloseCalls(l: L.Life, s: Step, m: L.Life)
    requires Calls(l) && L.CloseNext(l, s, m)
    ensures Calls(m)
  {
    CloseStepAbout(l, s, m);
    hide L.CloseNext, L.NoneTaken, Next;
    var c := l.corr;
    if m.corr != c || L.CloseUsesTable(l.close, L.NoneTaken(c, CloserThread)) {
      CallStep(c, s, m.corr);
      if AboutCall(s) {
        assert Let(c.calls, l.admitted) && ClosingAt(c.calls, l.close);
        hide Lone, ClosingAt;
        if !s.Allocate? { OwnRequestOnly(l, s); }
        HostMoves(c.calls, l.admitted, l.close, s.call, m.corr.calls[s.call], m.close);
      }
    }
  }

  lemma OwnRequestOnly(l: L.Life, s: Step)
    requires Calls(l) && L.CloseStep(l, s) && AboutCall(s) && !s.Allocate?
    ensures IsClosing(l.corr.calls, s.call) && s.call !in l.admitted
  {
  }

  /** A step of anybody else leaves close and its request alone. */
  lemma OthersCalls(l: L.Life, a: L.Act, m: L.Life)
    requires Calls(l) && L.Gates(l) && L.Next(l, a, m) && !a.Close?
    requires forall k | k in m.admitted && k !in l.admitted :: a == L.RequireOpen(k)
    requires l.admitted <= m.admitted
    ensures Calls(m)
  {
    var s := L.NextCorr(l, a, m);
    if s.Some? {
      CallStep(l.corr, s.value, m.corr);
      CallerOnly(l, a, m, s.value);
    }
    NewcomerIsNew(l, a, m);
    CloseKept(l, a, m);
    hide L.Next, Next, L.Gates, L.IoStep;
    if s.Some? && AboutCall(s.value) {
      var k := s.value.call;
      hide Let, Lone, ClosingAt;
      GuestMoves(l.corr.calls, l.admitted, l.close, k, m.corr.calls[k]);
    }
  }

  lemma NewcomerIsNew(l: L.Life, a: L.Act, m: L.Life)
    requires L.Next(l, a, m)
    ensures a.RequireOpen? ==> a.call !in l.corr.calls && m.corr == l.corr
  {
    hide L.IoNext, L.CloseNext, L.BeatNext, L.CallerNext, L.ConnectNext;
  }

  /** The steps of callers are about calls that were let in. */
  lemma CallerOnly(l: L.Life, a: L.Act, m: L.Life, s: Step)
    requires L.Next(l, a, m) && !a.Close? && (a.Caller? || a.Io?) && a.step == s
    requires a.Io? ==> L.IoStep(l, s, L.NoneTaken(l.corr, IoThread))
    ensures s.Register? || s.CheckSize? || s.Write? || s.Collect? ==> s.call in l.admitted
    ensures s.Allocate? ==> s.call in l.admitted && s.kind.SendAndWait? && m.admitted == l.admitted
  {
    hide Next, L.IoNext, L.CloseNext, L.BeatNext, L.ConnectNext;
  }

  lemma CloseKept(l: L.Life, a: L.Act, m: L.Life)
    requires L.Gates(l) && L.Next(l, a, m) && !a.Close?
    ensures m.close == l.close || (l.close.NoClose? && m.close.Entered? && m.corr == l.corr)
  {
    hide Next, L.CloseNext, L.CloseStep, L.IoStep, L.NoneTaken, L.IoEvents, L.IoTarget, L.ConnectTarget;
  }

  lemma {:induction false} EveryCalls(ls: seq<L.Life>, acts: seq<L.Act>, i: nat)
    requires L.Run(ls, acts) && i < |ls|
    ensures Calls(ls[i]) && L.Gates(ls[i]) && Inv(ls[i].corr)
  {
    hide L.Next, L.LifeInv, L.Gates;
    L.EveryState(ls, acts, i);
    L.GatesOf(ls[i]);
    assert Inv(ls[i].corr) by { InvOf(ls[i]); }
    if i > 0 {
      hide Calls, L.Start;
      EveryCalls(ls, acts, i - 1);
      NextCalls(ls[i - 1], acts[i - 1], ls[i]);
    }
  }

  lemma InvOf(l: L.Life)
    requires L.LifeInv(l)
    ensures Inv(l.corr)
  {
    hide Inv, L.Gates;
  }

  /** Every call of send_and_wait passed require_open, before, and found the connection open. */
  lemma CalledWhileOpen(ls: seq<L.Life>, acts: seq<L.Act>, j: nat, k: CallId) returns (i: nat)
    requires L.Run(ls, acts) && j < |ls| && k in ls[j].corr.calls && ls[j].corr.calls[k].kind.SendAndWait?
    ensures i < j && acts[i] == L.RequireOpen(k) && ls[i].state == L.Open && k !in ls[i].admitted
  {
    EveryCalls(ls, acts, j);
    hide L.Run, L.Gates, Inv;
    i := AdmittedWhileOpen(ls, acts, j, k);
  }

  lemma {:induction false} NeverClosing(ls: seq<L.Life>, acts: seq<L.Act>, j: nat)
    requires L.Run(ls, acts) && j < |ls| && forall i | 0 <= i < j :: ls[i].state != L.Open
    ensures ls[j].close.NoClose?
  {
    hide L.Next;
    if j > 0 {
      NeverClosing(ls, acts, j - 1);
      NotClosing(ls[j - 1], acts[j - 1], ls[j]);
    }
  }

  lemma NotClosing(l: L.Life, a: L.Act, m: L.Life)
    requires L.Next(l, a, m) && l.close.NoClose? && l.state != L.Open
    ensures m.close.NoClose?
  {
    hide Next, L.CloseStep, L.IoStep, L.NoneTaken, L.IoEvents, L.IoTarget, L.ConnectTarget;
  }

  /** A client that has never been open has let nobody in, has no request, and has sent none. */
  lemma NothingUnlessOpen(ls: seq<L.Life>, acts: seq<L.Act>, j: nat)
    requires L.Run(ls, acts) && j < |ls| && forall i | 0 <= i < j :: ls[i].state != L.Open
    ensures ls[j].admitted == {} && ls[j].corr.calls == map[] && ls[j].corr.sent == []
  {
    NeverClosing(ls, acts, j);
    EveryCalls(ls, acts, j);
    hide L.Gates;
    var calls, admitted := ls[j].corr.calls, ls[j].admitted;
    assert forall k | k in calls :: IsClosing(calls, k) || k in admitted;
    if k :| k in admitted {
      var i := AdmittedWhileOpen(ls, acts, j, k);
      assert false;
    }
    hide L.Run;
    assert calls.Keys == {};
    if ls[j].corr.sent != [] {
      var k := SomebodySent(ls[j].corr);
    }
  }

  lemma SomebodySent(c: Corr) returns (k: CallId)
    requires Inv(c) && c.sent != []
    ensures k in c.calls
  {
    hide Numbered, Owned, Replied, Sound, Partitioned, FrameOf;
    k := c.sent[0].call;
  }

  // ---- What close does ----------------------------------------------------------------------

  /** close has sent its request, once, as soon as it waits for the answer, and not before. */
  lemma CloseSends(ls: seq<L.Life>, acts: seq<L.Act>, j: nat)
    requires L.Run(ls, acts) && j < |ls|
    ensures (exists k :: IsClosing(ls[j].corr.calls, k) && HasSent(ls[j].corr, k))
       <==> ls[j].close !in {L.NoClose, L.Entered} && !ls[j].close.HasId? && !ls[j].close.HasEntry?
    ensures Lone(ls[j].corr.calls)
  {
    EveryCalls(ls, acts, j);
    SentInLife(ls, acts, j);
    hide L.Run, L.Gates, Inv, HasSent, Let;
  }

  /** After close has raised the stop flag. */
  predicate PastStop(pc: L.ClosePc) {
    pc.StopRaised? || pc.SocketShut? || pc.IoJoined? || pc.BeatJoined? || pc.FailingRest? || pc.CloseDone?
  }

  /** connect has returned when close begins, so that nobody lowers the flag again. */
  predicate Steady(l: L.Life) {
    (!l.close.NoClose? ==> l.connect.ConnectDone?) && (PastStop(l.close) ==> l.stopIo)
  }

  lemma SteadyStep(l: L.Life, a: L.Act, m: L.Life)
    requires L.Gates(l) && Steady(l) && L.Next(l, a, m) && L.Serial(l, a)
    ensures Steady(m)
  {
    hide Next, L.CloseStep, L.IoStep, L.NoneTaken, L.IoEvents, L.IoTarget;
  }

  lemma {:induction false} EverySteady(ls: seq<L.Life>, acts: seq<L.Act>, i: nat)
    requires L.SerialRun(ls, acts) && i < |ls|
    ensures Steady(ls[i]) && L.Gates(ls[i])
  {
    hide L.Next, L.LifeInv, L.Gates;
    L.EveryState(ls, acts, i);
    L.GatesOf(ls[i]);
    if i > 0 {
      hide Steady, L.Start, L.Serial;
      EverySteady(ls, acts, i - 1);
      SteadyStep(ls[i - 1], acts[i - 1], ls[i]);
    }
  }

  predicate AtRest(io: L.IoPc) { io.Head? || io.Leaving? || io.Exited? }

  lemma RestStep(l: L.Life, a: L.Act, m: L.Life)
    requires L.Gates(l) && Steady(l) && PastStop(l.close) && AtRest(l.io) && L.Next(l, a, m)
    ensures AtRest(m.io) && m.read == l.read && PastStop(m.close)
    ensures !l.beat.BeatDue? ==> !m.beat.BeatDue? && m.beats == l.beats
  {
    hide Next, L.CloseStep, L.IoStep, L.NoneTaken, L.IoEvents;
  }

  /**
   When connect and close are not called concurrently: from the moment on at which close has raised
   the stop flag and the I/O thread is at its loop head, it reads nothing more, and the heartbeat
   thread, unless it is about to send, sends nothing more.
   */
  lemma {:induction false} StopIsHeard(ls: seq<L.Life>, acts: seq<L.Act>, i: nat, j: nat)
    requires L.SerialRun(ls, acts) && i <= j < |ls| && PastStop(ls[i].close) && AtRest(ls[i].io)
    ensures ls[i].stopIo && ls[j].stopIo && PastStop(ls[j].close)
    ensures AtRest(ls[j].io) && ls[j].read == ls[i].read
    ensures !ls[i].beat.BeatDue? ==> !ls[j].beat.BeatDue? && ls[j].beats == ls[i].beats
  {
    hide L.Next, L.Gates, L.Start, L.Serial, AtRest;
    EverySteady(ls, acts, i);
    EverySteady(ls, acts, j);
    if i < j {
      hide Steady, PastStop;
      EverySteady(ls, acts, j - 1);
      StopIsHeard(ls, acts, i, j - 1);
      RestStep(ls[j - 1], acts[j - 1], ls[j]);
    }
  }
}
