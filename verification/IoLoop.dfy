/**
 io_loop run by itself: the socket's reader and the dispatcher under the loop of the I/O thread.
 A pass of the loop is recorded with the clock reading it acted on, and what becomes of a
 request is a function of the passes.
 */
module IoLoops {
  import opened Base
  import opened Frames
  import opened Sockets
  import opened Dispatchers
  import Heartbeats

  /** The steady clock: it never goes back, and `steps` says how far each reading moves it. */
  class Clock {
    var now: Time
    var steps: seq<nat>

    constructor (now: Time, steps: seq<nat>)
      ensures this.now == now && this.steps == steps
    {
      this.now, this.steps := now, steps;
    }

    method Now() returns (t: Time)
      modifies this
      ensures t == now == old(now) + (if old(steps) == [] then 0 else old(steps)[0])
      ensures steps == if old(steps) == [] then [] else old(steps)[1..]
    {
      if steps != [] {
        now, steps := now + steps[0], steps[1..];
      }
      t := now;
    }
  }

  // ---- Passes -------------------------------------------------------------------------

  /** One pass of the loop; `at` is the clock reading it compared deadlines with. */
  datatype Pass =
    | Woke(at: Time)                                          // nothing read, heartbeat alive
    | Delivered(frame: IncomingFrame, seen: Time, at: Time)   // a frame, stamped at `seen`
    | Died(at: Time)                                          // nothing read, heartbeat dead
    | Broke(error: StreamError)                               // the read failed

  /** Why the loop was left. */
  datatype Exit = Stopped | HeartbeatTimeout | PeerClosedSocket | ReadError(kind: ErrorKind)

  predicate Goes(p: Pass) { p.Woke? || p.Delivered? }

  predicate Wakeup(p: Pass) { p.Woke? || p.Died? }

  /** How the loop is left after a pass that ends it. */
  function ExitOf(p: Pass): Exit {
    match p
    case Died(_) => HeartbeatTimeout
    case Broke(error) => if error.kind == ConnectionClosed then PeerClosedSocket else ReadError(error.kind)
    case _ => Stopped
  }

  /** What a pass does to the promise of a request that is pending under `cid`. */
  function Effect(cid: u32, deadline: Time, p: Pass): PromiseState {
    match p
    case Woke(at) => if deadline <= at then Value(Err(Error(RequestTimeout))) else Unset
    case Delivered(frame, _, at) =>
      if deadline <= at then Value(Err(Error(RequestTimeout)))
      else if Target(frame) == Some(cid) then Value(Ok(frame)) else Unset
    case Died(_) => Value(Err(Error(ConnectionClosed)))
    case Broke(error) => Value(Err(error))
  }

  /** The first pass that sets the promise decides. */
  function Outcome(cid: u32, deadline: Time, passes: seq<Pass>): PromiseState {
    if passes == [] then Unset
    else
      var n := |passes| - 1;
      var before := Outcome(cid, deadline, passes[..n]);
      if before != Unset then before else Effect(cid, deadline, passes[n])
  }

  function FramesOf(passes: seq<Pass>): seq<IncomingFrame> {
    if passes == [] then []
    else
      var n := |passes| - 1;
      FramesOf(passes[..n]) + if passes[n].Delivered? then [passes[n].frame] else []
  }

  /** When the last frame of the passes was stamped, if there was one. */
  function LastSeen(start: Time, passes: seq<Pass>): Time {
    if passes == [] then start
    else
      var n := |passes| - 1;
      if passes[n].Delivered? then passes[n].seen else LastSeen(start, passes[..n])
  }

  /** The heartbeat is found dead when it is, and only then. */
  predicate Judged(hb: nat, lastInbound: Time, p: Pass) {
    && (p.Woke? ==> !Heartbeats.Dead(hb, lastInbound, p.at))
    && (p.Died? ==> Heartbeats.Dead(hb, lastInbound, p.at))
    && (p.Broke? ==> p.error.kind != RequestTimeout && p.error.serverCode == None)
  }

  /** A record of passes between two clock readings: in order of time, each wakeup judged rightly. */
  ghost predicate Chronicle(hb: nat, lastInbound: Time, start: Time, passes: seq<Pass>) {
    && (forall k | 0 <= k < |passes| :: Judged(hb, LastSeen(lastInbound, passes[..k]), passes[k]))
    && (forall k | 0 <= k < |passes| && !passes[k].Broke? :: start <= passes[k].at)
    && (forall j, k | 0 <= j < k < |passes| && !passes[j].Broke? && !passes[k].Broke? :: passes[j].at <= passes[k].at)
    && (forall k | 0 <= k < |passes| - 1 :: Goes(passes[k]))
  }

  /** Nothing before pass `k` sets the promise. */
  ghost predicate Untouched(cid: u32, deadline: Time, passes: seq<Pass>, k: nat) {
    k <= |passes| && forall j | 0 <= j < k :: Effect(cid, deadline, passes[j]) == Unset
  }

  lemma {:induction false} FirstEffect(cid: u32, deadline: Time, passes: seq<Pass>) returns (k: nat)
    ensures Untouched(cid, deadline, passes, k)
    ensures Outcome(cid, deadline, passes) == if k < |passes| then Effect(cid, deadline, passes[k]) else Unset
    ensures k < |passes| ==> Outcome(cid, deadline, passes) != Unset
  {
    hide Effect;
    if passes == [] {
      k := 0;
    } else {
      var n := |passes| - 1;
      k := FirstEffect(cid, deadline, passes[..n]);
      assert forall j | 0 <= j < n :: passes[..n][j] == passes[j];
      if k == n && Effect(cid, deadline, passes[n]) == Unset {
        k := n + 1;
      }
    }
  }

  /** Pass `k` is the first to read a frame under the id, it is this frame, and the deadline is ahead. */
  ghost predicate AnswersAt(passes: seq<Pass>, k: nat, cid: u32, deadline: Time, frame: IncomingFrame) {
    && k < |passes| && passes[k].Delivered? && passes[k].frame == frame && Target(frame) == Some(cid)
    && deadline > passes[k].at
    && forall j | 0 <= j < k && passes[j].Delivered? :: Target(passes[j].frame) != Some(cid)
  }

  /** A request is answered by the first frame under its id, if its deadline is then ahead, and by nothing else. */
  lemma AnsweredExactly(
      hb: nat, lastInbound: Time, start: Time, passes: seq<Pass>, cid: u32, deadline: Time, frame: IncomingFrame)
    requires Chronicle(hb, lastInbound, start, passes)
    ensures Outcome(cid, deadline, passes) == Value(Ok(frame))
       <==> exists k :: AnswersAt(passes, k, cid, deadline, frame)
  {
    var first := FirstEffect(cid, deadline, passes);
    hide Outcome, LastSeen, Judged;
    if Outcome(cid, deadline, passes) == Value(Ok(frame)) {
      assert AnswersAt(passes, first, cid, deadline, frame);
    }
    forall k: nat | AnswersAt(passes, k, cid, deadline, frame)
      ensures k == first
    {
      assert Effect(cid, deadline, passes[k]) == Value(Ok(frame));
      forall j | 0 <= j < k
        ensures Effect(cid, deadline, passes[j]) == Unset
      {
        assert Goes(passes[j]) && passes[j].at <= passes[k].at;
      }
    }
  }

  /** Pass `k` is the first to look at the clock at or behind the deadline, and no frame came under the id before. */
  ghost predicate TimesOutAt(passes: seq<Pass>, k: nat, cid: u32, deadline: Time) {
    && k < |passes| && (passes[k].Woke? || passes[k].Delivered?) && deadline <= passes[k].at
    && forall j | 0 <= j < k && !passes[j].Broke? ::
         passes[j].at < deadline && (passes[j].Delivered? ==> Target(passes[j].frame) != Some(cid))
  }

  /** A request is timed out by the first pass that finds it due, unless it was answered before. */
  lemma TimedOutExactly(
      hb: nat, lastInbound: Time, start: Time, passes: seq<Pass>, cid: u32, deadline: Time)
    requires Chronicle(hb, lastInbound, start, passes)
    ensures Outcome(cid, deadline, passes) == Value(Err(Error(RequestTimeout)))
       <==> exists k :: TimesOutAt(passes, k, cid, deadline)
  {
    var first := FirstEffect(cid, deadline, passes);
    if first < |passes| { JudgedAt(hb, lastInbound, start, passes, first); }
    hide Outcome, LastSeen;
    if Outcome(cid, deadline, passes) == Value(Err(Error(RequestTimeout))) {
      assert forall j | 0 <= j < first :: Goes(passes[j]);
      assert TimesOutAt(passes, first, cid, deadline);
    }
    forall k: nat | TimesOutAt(passes, k, cid, deadline)
      ensures k == first
    {
      assert Effect(cid, deadline, passes[k]) == Value(Err(Error(RequestTimeout)));
      assert forall j | 0 <= j < k :: Goes(passes[j]) && Effect(cid, deadline, passes[j]) == Unset;
    }
  }

  /** What one more pass adds. */
  lemma OneMorePass(passes: seq<Pass>, p: Pass, lastInbound: Time)
    ensures forall cid, deadline ::
              Outcome(cid, deadline, passes + [p])
              == if Outcome(cid, deadline, passes) != Unset then Outcome(cid, deadline, passes)
                 else Effect(cid, deadline, p)
    ensures FramesOf(passes + [p]) == FramesOf(passes) + if p.Delivered? then [p.frame] else []
    ensures LastSeen(lastInbound, passes + [p]) == if p.Delivered? then p.seen else LastSeen(lastInbound, passes)
  {
    assert (passes + [p])[..|passes|] == passes;
  }

  /** The loop goes on after these passes, none of which looked at the clock later than this. */
  ghost predicate Going(passes: seq<Pass>, now: Time) {
    && (forall k | 0 <= k < |passes| :: Goes(passes[k]) && passes[k].at <= now)
    && (passes != [] ==> passes[|passes| - 1].at == now)
  }

  lemma ChronicleGrows(hb: nat, lastInbound: Time, start: Time, passes: seq<Pass>, now: Time, p: Pass)
    requires Chronicle(hb, lastInbound, start, passes) && Going(passes, now)
    requires start <= now && (!p.Broke? ==> now <= p.at)
    requires Judged(hb, LastSeen(lastInbound, passes), p)
    ensures Chronicle(hb, lastInbound, start, passes + [p])
    ensures Goes(p) ==> Going(passes + [p], p.at)
  {
    var all, n := passes + [p], |passes|;
    hide LastSeen, Judged;
    assert all[..n] == passes;
    assert forall k | 0 <= k < n :: all[..k] == passes[..k] && all[k] == passes[k];
  }

  // ---- What the passes do to the loop's own state -------------------------------------

  /** What a pass can change besides the promises. */
  datatype View = View(lastInbound: Time, now: Time, unread: Bytes, dispatched: seq<IncomingFrame>)

  ghost predicate Passed(hb: nat, before: View, p: Pass, after: View) {
    && Judged(hb, before.lastInbound, p) && before.now <= after.now && (!p.Broke? ==> p.at == after.now)
    && after.lastInbound == (if p.Delivered? then p.seen else before.lastInbound)
    && after.dispatched == before.dispatched + (if p.Delivered? then [p.frame] else [])
    && (p.Delivered? ==> before.now <= p.seen <= p.at && ParseFrame(before.unread) == Done(p.frame, after.unread))
    && (Wakeup(p) ==> after.unread == before.unread)
    && (p.Broke? && p.error.kind in {ProtocolViolation, DecodeError} ==> ParseFrame(before.unread).Fail?)
  }

  /** After passes that let the loop go on. */
  ghost predicate SoFar(hb: nat, first: View, passes: seq<Pass>, v: View) {
    && Chronicle(hb, first.lastInbound, first.now, passes) && Going(passes, v.now) && first.now <= v.now
    && v.lastInbound == LastSeen(first.lastInbound, passes)
    && v.dispatched == first.dispatched + FramesOf(passes)
    && ParseAll(first.unread) == FramesOf(passes) + ParseAll(v.unread)
  }

  /**
   What a finished loop tells: its passes are a chronicle, the frames dispatched are the first of
   the stream, and what is unread is the rest of it, unless the read failed for another reason
   than the bytes.
   */
  ghost predicate Tells(hb: nat, first: View, passes: seq<Pass>, v: View) {
    && Chronicle(hb, first.lastInbound, first.now, passes)
    && v.lastInbound == LastSeen(first.lastInbound, passes)
    && (passes != [] && !passes[|passes| - 1].Broke? ==> v.now == passes[|passes| - 1].at)
    && (forall k | 0 <= k < |passes| && !passes[k].Broke? :: passes[k].at <= v.now)
    && v.dispatched == first.dispatched + FramesOf(passes)
    && FramesOf(passes) <= ParseAll(first.unread)
    && (passes == [] || !passes[|passes| - 1].Broke? ==>
          ParseAll(first.unread) == FramesOf(passes) + ParseAll(v.unread))
    && (passes != [] && passes[|passes| - 1].Broke?
        && passes[|passes| - 1].error.kind in {ProtocolViolation, DecodeError} ==>
          FramesOf(passes) == ParseAll(first.unread))
  }

  lemma FirstLook(hb: nat, first: View)
    ensures SoFar(hb, first, [], first)
  {
  }

  lemma GoesOn(hb: nat, first: View, passes: seq<Pass>, v: View, p: Pass, u: View)
    requires SoFar(hb, first, passes, v) && Passed(hb, v, p, u) && Goes(p)
    ensures SoFar(hb, first, passes + [p], u)
  {
    assert ParseAll(v.unread) == (if p.Delivered? then [p.frame] else []) + ParseAll(u.unread) by {
      hide ParseFrame, Judged, Chronicle, Going, LastSeen, FramesOf;
    }
    hide ParseFrame, ParseAll, Judged;
    ChronicleGrows(hb, first.lastInbound, first.now, passes, v.now, p);
    OneMorePass(passes, p, first.lastInbound);
    hide Chronicle, Going, LastSeen, FramesOf, Outcome, Effect;
    var more := if p.Delivered? then [p.frame] else [];
    Regroup(FramesOf(passes), more, ParseAll(u.unread));
    Regroup(first.dispatched, FramesOf(passes), more);
  }

  lemma PassedAt(hb: nat, v: View, p: Pass, u: View)
    requires Passed(hb, v, p, u)
    ensures !p.Broke? ==> p.at == u.now
  {
  }

  lemma TellsWhen(hb: nat, first: View, passes: seq<Pass>, v: View)
    requires Tells(hb, first, passes, v)
    ensures Chronicle(hb, first.lastInbound, first.now, passes)
    ensures forall k | 0 <= k < |passes| && !passes[k].Broke? :: passes[k].at <= v.now
  {
  }

  lemma Stops(hb: nat, first: View, passes: seq<Pass>, v: View)
    requires SoFar(hb, first, passes, v)
    ensures Tells(hb, first, passes, v)
  {
    hide ParseAll, FramesOf, LastSeen, Chronicle;
  }

  lemma LookedBefore(passes: seq<Pass>, p: Pass, now: Time, end: Time)
    requires Going(passes, now) && now <= end && (!p.Broke? ==> p.at == end)
    ensures forall k | 0 <= k <= |passes| && !(passes + [p])[k].Broke? :: (passes + [p])[k].at <= end
  {
  }

  lemma Finishes(hb: nat, first: View, passes: seq<Pass>, v: View, p: Pass, u: View)
    requires SoFar(hb, first, passes, v) && Passed(hb, v, p, u) && !Goes(p)
    ensures Tells(hb, first, passes + [p], u)
  {
    hide ParseFrame, Judged;
    ChronicleGrows(hb, first.lastInbound, first.now, passes, v.now, p);
    OneMorePass(passes, p, first.lastInbound);
    LookedBefore(passes, p, v.now, u.now);
    hide Chronicle, Going, LastSeen, FramesOf, Outcome, Effect;
  }

  // ---- Silence ------------------------------------------------------------------------

  /** The clock readings of `n` wakeups from pass `i` on. */
  function Times(passes: seq<Pass>, i: nat, n: nat): seq<Time>
    requires i + n <= |passes| && forall k | i <= k < i + n :: Wakeup(passes[k])
  {
    seq(n, j requires 0 <= j < n => assert Wakeup(passes[i + j]); passes[i + j].at)
  }

  /** The passes from `i` on, `n` of them, read nothing, and each wait took half a heartbeat. */
  ghost predicate Silence(hb: nat, lastInbound: Time, passes: seq<Pass>, i: nat, n: nat, slack: nat) {
    && i + n <= |passes| && (forall k | i <= k < i + n :: Wakeup(passes[k]))
    && Heartbeats.Waits(Times(passes, i, n), LastSeen(lastInbound, passes[..i]), hb, slack)
  }

  lemma {:induction false} SeenBefore(hb: nat, lastInbound: Time, passes: seq<Pass>, i: nat, n: nat, slack: nat, k: nat)
    requires Silence(hb, lastInbound, passes, i, n, slack) && i <= k <= i + n
    ensures LastSeen(lastInbound, passes[..k]) == LastSeen(lastInbound, passes[..i])
  {
    if i < k {
      SeenBefore(hb, lastInbound, passes, i, n, slack, k - 1);
      assert passes[..k][..k - 1] == passes[..k - 1];
    }
  }

  lemma JudgedAt(hb: nat, lastInbound: Time, start: Time, passes: seq<Pass>, k: nat)
    requires Chronicle(hb, lastInbound, start, passes) && k < |passes|
    ensures Judged(hb, LastSeen(lastInbound, passes[..k]), passes[k])
  {
    hide Judged, LastSeen;
  }

  lemma TimesAt(passes: seq<Pass>, i: nat, n: nat, k: nat)
    requires i + n <= |passes| && i <= k < i + n && forall j | i <= j < i + n :: Wakeup(passes[j])
    ensures Wakeup(passes[k]) && Times(passes, i, n)[k - i] == passes[k].at
  {
  }

  /** In silence every wakeup is judged by the frame stamped before it. */
  lemma JudgedInSilence(hb: nat, lastInbound: Time, start: Time, passes: seq<Pass>, i: nat, n: nat, slack: nat, k: nat)
    requires Chronicle(hb, lastInbound, start, passes) && Silence(hb, lastInbound, passes, i, n, slack)
    requires i <= k < i + n
    ensures Wakeup(passes[k]) && Times(passes, i, n)[k - i] == passes[k].at
    ensures passes[k].Died? <==> Heartbeats.Dead(hb, LastSeen(lastInbound, passes[..i]), passes[k].at)
  {
    SeenBefore(hb, lastInbound, passes, i, n, slack, k);
    JudgedAt(hb, lastInbound, start, passes, k);
    TimesAt(passes, i, n, k);
    hide LastSeen, Heartbeats.Waits, Heartbeats.Dead, Chronicle, Silence, Times;
  }

  /**
   In any run, wherever five waits in a row end without a byte, one of them finds the heartbeat
   dead: later than two heartbeats after the last frame was stamped, and no later than two and a
   half plus five times the lateness of a wakeup.
   */
  lemma SilenceEnds(hb: nat, lastInbound: Time, start: Time, passes: seq<Pass>, i: nat, n: nat, slack: nat)
    requires hb > 0 && Chronicle(hb, lastInbound, start, passes) && Silence(hb, lastInbound, passes, i, n, slack)
    ensures n >= 5 ==> exists k :: i <= k < i + 5 && passes[k].Died?
    ensures forall k | i <= k < i + n && k < i + 5 && passes[k].Died? ::
              2000 * hb < passes[k].at - LastSeen(lastInbound, passes[..i]) <= 2500 * hb + 5 * slack
  {
    var seen, w := LastSeen(lastInbound, passes[..i]), Times(passes, i, n);
    hide LastSeen, Heartbeats.Waits, Heartbeats.Dead, Chronicle;
    if n >= 5 {
      var k := Heartbeats.RaisedByFive(w, seen, hb, slack);
      JudgedInSilence(hb, lastInbound, start, passes, i, n, slack, i + k);
    }
    forall k | i <= k < i + n && k < i + 5 && passes[k].Died?
      ensures 2000 * hb < passes[k].at - seen <= 2500 * hb + 5 * slack
    {
      JudgedInSilence(hb, lastInbound, start, passes, i, n, slack, k);
      Heartbeats.FoundInTime(w, seen, hb, slack, k - i);
    }
  }

  predicate AllBlock(recvs: seq<RecvEvent>, n: nat) {
    n <= |recvs| && forall k | 0 <= k < n :: recvs[k].WouldBlock?
  }

  /** What the clock shows after `n` more readings. */
  function Reading(now: Time, steps: seq<nat>, n: nat): Time {
    if n == 0 then now else Reading(now, steps, n - 1) + if n <= |steps| then steps[n - 1] else 0
  }

  function Readings(now: Time, steps: seq<nat>, n: nat): seq<Time> {
    seq(n, k requires 0 <= k < n => Reading(now, steps, k + 1))
  }

  /** The next five recv calls run out of time, half a heartbeat and at most `slack` after each other. */
  ghost predicate SilentAhead(hb: nat, v: View, recvs: seq<RecvEvent>, steps: seq<nat>, slack: nat) {
    AllBlock(recvs, 5) && Heartbeats.Waits(Readings(v.now, steps, 5), v.lastInbound, hb, slack)
  }

  /** While recv runs out of time, every pass is a wakeup at the next reading of the clock. */
  ghost predicate FollowsScript(first: View, recvs: seq<RecvEvent>, steps: seq<nat>, passes: seq<Pass>) {
    forall k: nat | k < |passes| && AllBlock(recvs, k + 1) ::
      Wakeup(passes[k]) && passes[k].at == Reading(first.now, steps, k + 1)
  }

  /** What a recv that runs out of time makes of a pass, of the coming recvs and of the clock. */
  ghost predicate Waited(recvs: seq<RecvEvent>, now: Time, steps: seq<nat>, p: Pass,
                         recvs': seq<RecvEvent>, now': Time, steps': seq<nat>) {
    recvs != [] && recvs[0].WouldBlock? ==>
      && Wakeup(p) && recvs' == recvs[1..] && now' == now + (if steps == [] then 0 else steps[0])
      && steps' == if steps == [] then [] else steps[1..]
  }

  ghost predicate OnScript(first: View, recvs: seq<RecvEvent>, steps: seq<nat>, passes: seq<Pass>,
                           coming: seq<RecvEvent>, now: Time, left: seq<nat>) {
    var n := |passes|;
    && FollowsScript(first, recvs, steps, passes)
    && (AllBlock(recvs, n) ==>
          && coming == recvs[n..] && now == Reading(first.now, steps, n)
          && left == if n <= |steps| then steps[n..] else [])
  }

  lemma FirstOnScript(first: View, recvs: seq<RecvEvent>, steps: seq<nat>)
    ensures OnScript(first, recvs, steps, [], recvs, first.now, steps)
  {
  }

  lemma StaysOnScript(first: View, recvs: seq<RecvEvent>, steps: seq<nat>, passes: seq<Pass>,
                      coming: seq<RecvEvent>, now: Time, left: seq<nat>, p: Pass,
                      coming': seq<RecvEvent>, now': Time, left': seq<nat>)
    requires OnScript(first, recvs, steps, passes, coming, now, left)
    requires Waited(coming, now, left, p, coming', now', left') && (!p.Broke? ==> p.at == now')
    ensures OnScript(first, recvs, steps, passes + [p], coming', now', left')
  {
    var n := |passes|;
    if AllBlock(recvs, n + 1) {
      assert AllBlock(recvs, n) && coming[0] == recvs[n];
      assert now' == Reading(first.now, steps, n + 1);
    }
    hide Reading;
  }

  lemma SilentStart(hb: nat, first: View, recvs: seq<RecvEvent>, steps: seq<nat>, passes: seq<Pass>, n: nat, slack: nat)
    requires FollowsScript(first, recvs, steps, passes) && SilentAhead(hb, first, recvs, steps, slack)
    requires n <= 5 && n <= |passes|
    ensures Silence(hb, first.lastInbound, passes, 0, n, slack)
  {
    hide Reading;
    forall k | 0 <= k < n
      ensures Wakeup(passes[k]) && passes[k].at == Reading(first.now, steps, k + 1)
    {
      assert AllBlock(recvs, k + 1);
    }
    var w, r := Times(passes, 0, n), Readings(first.now, steps, 5);
    assert w == r[..n];
    assert passes[..0] == [];
    forall k | 0 <= k < n
      ensures Heartbeats.Since(w, first.lastInbound, k) == Heartbeats.Since(r, first.lastInbound, k) && w[k] == r[k]
    {
    }
  }

  /** A loop that meets five waits in silence ends, with the heartbeat timeout, in time. */
  lemma SilentRun(hb: nat, first: View, recvs: seq<RecvEvent>, steps: seq<nat>, passes: seq<Pass>, v: View, slack: nat)
    requires hb > 0 && Tells(hb, first, passes, v)
    requires |passes| >= 5 || (passes != [] && !Goes(passes[|passes| - 1]))
    requires FollowsScript(first, recvs, steps, passes) && SilentAhead(hb, first, recvs, steps, slack)
    ensures passes != [] && passes[|passes| - 1].Died? && v.lastInbound == first.lastInbound
    ensures 2000 * hb < v.now - v.lastInbound <= 2500 * hb + 5 * slack
  {
    var n := if |passes| < 5 then |passes| else 5;
    SilentStart(hb, first, recvs, steps, passes, n, slack);
    SilenceEnds(hb, first.lastInbound, first.now, passes, 0, n, slack);
    SeenBefore(hb, first.lastInbound, passes, 0, n, slack, n);
    assert passes[..0] == [] && LastSeen(first.lastInbound, []) == first.lastInbound;
    hide LastSeen, FollowsScript, SilentAhead, FramesOf, Judged, ParseAll;
    if n == 5 {
      var k :| 0 <= k < 5 && passes[k].Died?;
      assert !Goes(passes[k]);
      assert k == |passes| - 1;
    } else {
      assert Wakeup(passes[n - 1]);
    }
    assert passes[..n] == passes;
  }

  // ---- What the scripts make of the loop ----------------------------------------------------

  /** Everything a pass depends on: the bytes to come, the scripts of recv and clock, and the last stamp. */
  datatype Inputs = Inputs(unread: Bytes, recvs: seq<RecvEvent>, now: Time, steps: seq<nat>, lastInbound: Time)

  function Look(s: Inputs): Inputs {
    if s.steps == [] then s else s.(now := s.now + s.steps[0], steps := s.steps[1..])
  }

  /** A pass, and the inputs it leaves. */
  datatype Turn = Turn(pass: Pass, left: Inputs)

  /** The passes of a loop, and the inputs they leave. */
  datatype Course = Course(passes: seq<Pass>, left: Inputs)

  /** The pass the loop makes. */
  function NextPass(hb: nat, s: Inputs): Turn {
    var n := NextFrame(s.unread, s.recvs);
    var t := s.(unread := n.unread, recvs := n.recvs);
    match n.result
    case Ok(frame) =>
      var seen := Look(t);
      var at := Look(seen);
      Turn(Delivered(frame, seen.now, at.now), at.(lastInbound := seen.now))
    case Err(e) =>
      if e.kind == RequestTimeout then
        var at := Look(t);
        Turn(if Heartbeats.Dead(hb, s.lastInbound, at.now) then Died(at.now) else Woke(at.now), at)
      else Turn(Broke(e), t)
  }

  /** The course a loop of at most `rounds` passes takes behind the passes made before. */
  function Takes(hb: nat, before: seq<Pass>, s: Inputs, rounds: nat): Course
    decreases rounds
  {
    if rounds == 0 then Course(before, s)
    else
      var turn := NextPass(hb, s);
      if Goes(turn.pass) then Takes(hb, before + [turn.pass], turn.left, rounds - 1)
      else Course(before + [turn.pass], turn.left)
  }

  /** The same inputs without the signals. */
  function Calmed(s: Inputs): Inputs { s.(recvs := Undisturbed(s.recvs)) }

  lemma PassUndisturbed(hb: nat, s: Inputs)
    ensures NextPass(hb, Calmed(s)) == Turn(NextPass(hb, s).pass, Calmed(NextPass(hb, s).left))
  {
    FrameUndisturbed(s.unread, s.recvs);
    hide Undisturbed, NextFrame, Heartbeats.Dead;
  }

  /** Signals change nothing: not what is dispatched, not when, not how the loop ends. */
  lemma {:induction false} SignalsChangeNothing(hb: nat, before: seq<Pass>, s: Inputs, rounds: nat)
    ensures var course := Takes(hb, before, s, rounds);
            Takes(hb, before, Calmed(s), rounds) == Course(course.passes, Calmed(course.left))
    decreases rounds
  {
    hide *;
    if rounds == 0 {
      TakesNone(hb, before, s);
      TakesNone(hb, before, Calmed(s));
    } else {
      PassUndisturbed(hb, s);
      TakesOne(hb, before, s, rounds);
      TakesOne(hb, before, Calmed(s), rounds);
      var turn := NextPass(hb, s);
      if Goes(turn.pass) {
        SignalsChangeNothing(hb, before + [turn.pass], turn.left, rounds - 1);
      }
    }
  }

  /** An event a loop goes on after. */
  predicate Harmless(e: RecvEvent) { e.Data? || e.Interrupted? || e.WouldBlock? }

  /**
   The loop was left as the last of its `c` recvs says: an end of the stream is a closed peer, a
   fault and a wait that expires inside a frame are errors, a wait that expires between frames can
   be a dead heartbeat, and with data only the bytes can be wrong.
   */
  predicate LeftOn(recvs: seq<RecvEvent>, c: nat, left: seq<RecvEvent>, unread: Bytes, exit: Exit) {
    && c <= |recvs| && left == recvs[c..] && (forall i | 0 <= i < c - 1 :: Harmless(recvs[i]))
    && if c == 0 then exit == Stopped || (left == [] && exit == PeerClosedSocket)
       else
         match recvs[c - 1]
         case Data(_) =>
           || exit == Stopped || exit == ReadError(ProtocolViolation) || exit == ReadError(DecodeError)
           || ((unread == [] || left == []) && exit == PeerClosedSocket)
         case Interrupted => left == [] && exit == PeerClosedSocket
         case WouldBlock =>
           || exit == Stopped || exit == HeartbeatTimeout || exit == ReadError(IoError)
           || (left == [] && exit == PeerClosedSocket)
         case Eof => exit == PeerClosedSocket
         case Fault => exit == ReadError(IoError)
  }

  function ExitAfter(passes: seq<Pass>): Exit { if passes == [] then Stopped else ExitOf(passes[|passes| - 1]) }

  /** The events of a pass behind which the loop goes on: the last of them brought data or ran out of time. */
  predicate Leads(recvs: seq<RecvEvent>, c: nat, left: seq<RecvEvent>) {
    && 0 < c <= |recvs| && left == recvs[c..] && (recvs[c - 1].Data? || recvs[c - 1].WouldBlock?)
    && forall i | 0 <= i < c :: Harmless(recvs[i])
  }

  lemma PassLeaves(hb: nat, s: Inputs) returns (c: nat)
    ensures var turn := NextPass(hb, s);
            && LeftOn(s.recvs, c, turn.left.recvs, turn.left.unread, ExitOf(turn.pass))
            && (Goes(turn.pass) ==> Leads(s.recvs, c, turn.left.recvs))
  {
    FrameReads(s.unread, s.recvs);
    hide NextFrame, ParseFrame;
    var n := NextFrame(s.unread, s.recvs);
    if n.result.Err? && n.result.error.kind !in {ProtocolViolation, DecodeError} {
      c := FrameFails(s.unread, s.recvs);
    } else {
      c := FramePasses(s.unread, s.recvs);
    }
  }

  lemma LeftLater(recvs: seq<RecvEvent>, b: nat, behind: seq<RecvEvent>, c: nat, left: seq<RecvEvent>, unread: Bytes,
                  exit: Exit)
    requires Leads(recvs, b, behind) && LeftOn(behind, c, left, unread, exit)
    ensures LeftOn(recvs, b + c, left, unread, exit)
  {
    assert forall i | b <= i < b + c :: recvs[i] == recvs[b..][i - b];
  }

  lemma TakesOne(hb: nat, before: seq<Pass>, s: Inputs, rounds: nat)
    requires rounds > 0
    ensures var turn := NextPass(hb, s);
            Takes(hb, before, s, rounds)
            == if Goes(turn.pass) then Takes(hb, before + [turn.pass], turn.left, rounds - 1)
               else Course(before + [turn.pass], turn.left)
  {
  }

  lemma TakesNone(hb: nat, before: seq<Pass>, s: Inputs)
    ensures Takes(hb, before, s, 0) == Course(before, s)
  {
  }

  lemma LastOf(before: seq<Pass>, p: Pass)
    ensures (before + [p])[|before + [p]| - 1] == p && ExitAfter(before + [p]) == ExitOf(p)
  {
  }

  lemma NothingLeft(hb: nat, before: seq<Pass>, s: Inputs)
    requires before != [] ==> Goes(before[|before| - 1])
    ensures LeftOn(s.recvs, 0, Takes(hb, before, s, 0).left.recvs, s.unread, ExitAfter(Takes(hb, before, s, 0).passes))
    ensures Takes(hb, before, s, 0).left == s
  {
  }

  lemma {:induction false} CourseLeaves(hb: nat, before: seq<Pass>, s: Inputs, rounds: nat) returns (c: nat)
    requires before != [] ==> Goes(before[|before| - 1])
    ensures var course := Takes(hb, before, s, rounds);
            LeftOn(s.recvs, c, course.left.recvs, course.left.unread, ExitAfter(course.passes))
    decreases rounds
  {
    c := 0;
    if rounds == 0 {
      NothingLeft(hb, before, s);
    } else {
      hide *;
      var turn := NextPass(hb, s);
      var p, t := turn.pass, turn.left;
      c := PassLeaves(hb, s);
      TakesOne(hb, before, s, rounds);
      LastOf(before, p);
      if Goes(p) {
        var more := CourseLeaves(hb, before + [p], t, rounds - 1);
        var course := Takes(hb, before + [p], t, rounds - 1);
        LeftLater(s.recvs, c, t.recvs, more, course.left.recvs, course.left.unread, ExitAfter(course.passes));
        c := c + more;
      }
    }
  }

  /** What a pass changes, seen from outside. */
  lemma PassedBy(hb: nat, s: Inputs, dispatched: seq<IncomingFrame>)
    ensures var p, t := NextPass(hb, s).pass, NextPass(hb, s).left;
            && Passed(hb, View(s.lastInbound, s.now, s.unread, dispatched), p,
                      View(t.lastInbound, t.now, t.unread, dispatched + if p.Delivered? then [p.frame] else []))
            && Waited(s.recvs, s.now, s.steps, p, t.recvs, t.now, t.steps)
  {
    FrameReads(s.unread, s.recvs);
    if s.recvs != [] && s.recvs[0].WouldBlock? {
      assert NextFrame(s.unread, s.recvs) == FrameRead(Err(Error(RequestTimeout)), s.unread, s.recvs[1..]);
    }
    hide NextFrame, ParseFrame;
  }

  /**
   A request of a loop that was left: answered under its id, timed out when it was due, or failed
   with ConnectionClosed, or with the error of the read if that was another one.
   */
  predicate Settled(state: PromiseState, cid: u32, deadline: Time, now: Time, exit: Exit) {
    match state
    case Value(Ok(frame)) => Target(frame) == Some(cid)
    case Value(Err(e)) =>
      (e == Error(RequestTimeout) && deadline <= now)
      || (match exit
          case ReadError(kind) => e == Error(kind)
          case _ => e == Error(ConnectionClosed))
    case _ => false
  }

  lemma ExitSettles(
      hb: nat, lastInbound: Time, start: Time, passes: seq<Pass>, now: Time, cid: u32, deadline: Time, exit: Exit)
    requires Chronicle(hb, lastInbound, start, passes) && exit == ExitAfter(passes) && exit != Stopped
    requires forall k | 0 <= k < |passes| && !passes[k].Broke? :: passes[k].at <= now
    ensures Outcome(cid, deadline, passes) != Unset
    ensures Settled(Outcome(cid, deadline, passes), cid, deadline, now, exit)
  {
    var k := FirstEffect(cid, deadline, passes);
    var n := |passes| - 1;
    JudgedAt(hb, lastInbound, start, passes, n);
    assert passes[n].Broke? ==> passes[n].error.serverCode == None;
    hide Outcome, LastSeen, Judged;
    assert !Goes(passes[n]) && Effect(cid, deadline, passes[n]) != Unset;
    assert k < n ==> Goes(passes[k]);
  }

  // ---- The loop -----------------------------------------------------------------------

  /** The promises of a table are as a pass leaves them, and `left` is what is still pending. */
  ghost predicate Leaves(table: Table<Promise>, p: Pass, left: Table<Promise>)
    reads set cid | cid in table :: table[cid].promise
  {
    && (forall cid | cid in table :: table[cid].promise.state == Effect(cid, table[cid].deadline, p))
    && (forall cid :: cid in left <==> cid in table && Effect(cid, table[cid].deadline, p) == Unset)
    && (forall cid | cid in left :: left[cid] == table[cid])
  }

  /** The promises of a table are as the passes leave them, and `left` is what is still pending. */
  ghost predicate Accounts(table: Table<Promise>, passes: seq<Pass>, left: Table<Promise>)
    reads set cid | cid in table :: table[cid].promise
  {
    && (forall cid | cid in table :: table[cid].promise.state == Outcome(cid, table[cid].deadline, passes))
    && (forall cid :: cid in left <==> cid in table && Outcome(cid, table[cid].deadline, passes) == Unset)
    && (forall cid | cid in left :: left[cid] == table[cid])
  }

  lemma FirstAccount(table: Table<Promise>)
    requires forall cid | cid in table :: table[cid].promise.state == Unset
    ensures Accounts(table, [], table)
  {
  }

  lemma AccountsGrow(table: Table<Promise>, passes: seq<Pass>, left: Table<Promise>, p: Pass, now: Table<Promise>)
    requires forall cid | cid in table && cid !in left ::
               table[cid].promise.state == Outcome(cid, table[cid].deadline, passes) != Unset
    requires forall cid | cid in left ::
               cid in table && left[cid] == table[cid] && Outcome(cid, table[cid].deadline, passes) == Unset
    requires Leaves(left, p, now)
    ensures Accounts(table, passes + [p], now)
  {
    OneMorePass(passes, p, 0);
    hide Outcome, Effect;
  }

  /** A reap and then a dispatch make the pass of a frame. */
  lemma ReapedAndGiven(table: Table<Promise>, left: Table<Promise>, frame: IncomingFrame, seen: Time, now: Time,
                       end: Table<Promise>)
    requires forall cid | cid in table && cid !in left ::
               table[cid].deadline <= now && table[cid].promise.state == Value(Err(Error(RequestTimeout)))
    requires forall cid | cid in left ::
               && cid in table && left[cid] == table[cid] && table[cid].deadline > now
               && left[cid].promise.state == if Target(frame) == Some(cid) then Value(Ok(frame)) else Unset
    requires end == if Target(frame).Some? then left - {Target(frame).value} else left
    ensures Leaves(table, Delivered(frame, seen, now), end)
  {
  }

  class IoLoop {
    const socket: Socket
    const dispatcher: Dispatcher
    const clock: Clock
    const hb: nat
    var lastInbound: Time

    constructor (socket: Socket, dispatcher: Dispatcher, clock: Clock, hb: nat)
      ensures this.socket == socket && this.dispatcher == dispatcher && this.clock == clock && this.hb == hb
      ensures lastInbound == clock.now
    {
      this.socket, this.dispatcher, this.clock, this.hb := socket, dispatcher, clock, hb;
      lastInbound := clock.now;
    }

    /** The wait for a frame ran out: check the heartbeat, then reap. */
    method Wake() returns (exit: Option<Exit>)
      requires dispatcher.Valid()
      modifies clock, dispatcher`pending, dispatcher.Promises()
      ensures dispatcher.Valid() && dispatcher.Promises() <= old(dispatcher.Promises())
      ensures Ins() == Look(old(Ins()))
      ensures exit == if Heartbeats.Dead(hb, lastInbound, clock.now) then Some(HeartbeatTimeout) else None
      ensures Leaves(old(dispatcher.pending), if exit.Some? then Died(clock.now) else Woke(clock.now),
                     dispatcher.pending)
    {
      var now := clock.Now();
      if hb > 0 && now - lastInbound > 2000 * hb {
        dispatcher.FailAllPending(Error(ConnectionClosed));
        return Some(HeartbeatTimeout);
      }
      var _ := dispatcher.ReapExpired(now);
      exit := None;
    }

    /** A frame was read: stamp it, reap, and dispatch it. */
    method Deliver(frame: IncomingFrame)
      requires dispatcher.Valid()
      modifies this`lastInbound, clock, dispatcher`pending, dispatcher`handled, dispatcher`dispatched,
               dispatcher.Promises()
      ensures dispatcher.Valid() && dispatcher.Promises() <= old(dispatcher.Promises())
      ensures var seen := Look(old(Ins())); Ins() == Look(seen).(lastInbound := seen.now)
      ensures dispatcher.dispatched == old(dispatcher.dispatched) + [frame]
      ensures Leaves(old(dispatcher.pending), Delivered(frame, lastInbound, clock.now), dispatcher.pending)
    {
      lastInbound := clock.Now();
      var now := clock.Now();
      ReapAndGive(frame, lastInbound, now);
    }

    method ReapAndGive(frame: IncomingFrame, ghost seen: Time, now: Time)
      requires dispatcher.Valid()
      modifies dispatcher`pending, dispatcher`handled, dispatcher`dispatched, dispatcher.Promises()
      ensures dispatcher.Valid() && dispatcher.Promises() <= old(dispatcher.Promises())
      ensures dispatcher.dispatched == old(dispatcher.dispatched) + [frame]
      ensures Leaves(old(dispatcher.pending), Delivered(frame, seen, now), dispatcher.pending)
    {
      ghost var table := dispatcher.pending;
      Reap(now);
      ghost var left := dispatcher.pending;
      Give(frame);
      ReapedAndGiven(table, left, frame, seen, now, dispatcher.pending);
    }

    /** The reap of a pass, seen from the requests. */
    method Reap(now: Time)
      requires dispatcher.Valid()
      modifies dispatcher`pending, dispatcher.Promises()
      ensures dispatcher.Valid() && dispatcher.Promises() <= old(dispatcher.Promises())
      ensures Leaves(old(dispatcher.pending), Woke(now), dispatcher.pending)
    {
      var _ := dispatcher.ReapExpired(now);
    }

    /** The dispatch of a pass, seen from the requests. */
    method Give(frame: IncomingFrame)
      requires dispatcher.Valid()
      modifies dispatcher`pending, dispatcher`handled, dispatcher`dispatched, dispatcher.Promises()
      ensures dispatcher.Valid() && dispatcher.Promises() <= old(dispatcher.Promises())
      ensures dispatcher.dispatched == old(dispatcher.dispatched) + [frame]
      ensures dispatcher.pending == if Target(frame).Some? then old(dispatcher.pending) - {Target(frame).value}
                                    else old(dispatcher.pending)
      ensures forall cid | cid in old(dispatcher.pending) ::
                old(dispatcher.pending)[cid].promise.state
                == if Target(frame) == Some(cid) then Value(Ok(frame)) else Unset
    {
      var _ := dispatcher.Dispatch(frame);
    }

    ghost function Ins(): Inputs
      reads this, socket, clock
    {
      Inputs(socket.inbound, socket.recvs, clock.now, clock.steps, lastInbound)
    }

    ghost function See(): View
      reads this, socket, clock, dispatcher
    {
      View(lastInbound, clock.now, socket.inbound, dispatcher.dispatched)
    }

    /** One pass of the loop, after the passes that made of `table` what is pending now. */
    method Round(ghost table: Table<Promise>, ghost passes: seq<Pass>) returns (exit: Option<Exit>, ghost pass: Pass)
      requires dispatcher.Valid() && Accounts(table, passes, dispatcher.pending)
      modifies this`lastInbound, socket`inbound, socket`recvs, clock, dispatcher`pending, dispatcher`handled,
               dispatcher`dispatched, dispatcher.Promises()
      ensures dispatcher.Valid() && dispatcher.Promises() <= old(dispatcher.Promises())
      ensures exit == if Goes(pass) then None else Some(ExitOf(pass))
      ensures NextPass(hb, old(Ins())) == Turn(pass, Ins())
      ensures Passed(hb, old(See()), pass, See())
      ensures Accounts(table, passes + [pass], dispatcher.pending)
      ensures Waited(old(socket.recvs), old(clock.now), old(clock.steps), pass, socket.recvs, clock.now, clock.steps)
    {
      ghost var left := dispatcher.pending;
      assert forall cid | cid in table && cid !in left :: table[cid].promise !in dispatcher.Promises();
      PassedBy(hb, Ins(), dispatcher.dispatched);
      hide NextPass, Passed, Waited;
      exit, pass := Act();
      AccountsGrow(table, passes, left, pass, dispatcher.pending);
    }

    /** The body of the loop. */
    method Act() returns (exit: Option<Exit>, ghost pass: Pass)
      requires dispatcher.Valid()
      modifies this`lastInbound, socket`inbound, socket`recvs, clock, dispatcher`pending, dispatcher`handled,
               dispatcher`dispatched, dispatcher.Promises()
      ensures dispatcher.Valid() && dispatcher.Promises() <= old(dispatcher.Promises())
      ensures exit == if Goes(pass) then None else Some(ExitOf(pass))
      ensures NextPass(hb, old(Ins())) == Turn(pass, Ins())
      ensures dispatcher.dispatched == old(dispatcher.dispatched) + if pass.Delivered? then [pass.frame] else []
      ensures Leaves(old(dispatcher.pending), pass, dispatcher.pending)
    {
      hide ParseFrame, NextFrame, Leaves;
      var frame := socket.ReadFrame();
      if frame.Ok? {
        Deliver(frame.value);
        return None, Delivered(frame.value, lastInbound, clock.now);
      }
      if frame.error.kind == RequestTimeout {
        exit := Wake();
        pass := if exit.Some? then Died(clock.now) else Woke(clock.now);
        return;
      }
      FailAll(frame.error);
      pass := Broke(frame.error);
      exit := Some(if frame.error.kind == ConnectionClosed then PeerClosedSocket else ReadError(frame.error.kind));
    }

    /** A failed read, seen from the requests. */
    method FailAll(error: StreamError)
      requires dispatcher.Valid()
      modifies dispatcher`pending, dispatcher.Promises()
      ensures dispatcher.Valid() && dispatcher.Promises() == {}
      ensures Leaves(old(dispatcher.pending), Broke(error), dispatcher.pending)
    {
      dispatcher.FailAllPending(error);
    }

    /**
     The loop test finds the stop flag lowered `rounds` times. Whatever the kernel does, the passes
     tell what was dispatched and why the loop was left, and every promise is as they leave it.
     */
    method Run(rounds: nat) returns (exit: Exit, ghost passes: seq<Pass>)
      requires dispatcher.Valid()
      modifies this`lastInbound, socket`inbound, socket`recvs, clock, dispatcher`pending, dispatcher`handled,
               dispatcher`dispatched, dispatcher.Promises()
      ensures dispatcher.Valid()
      ensures Tells(hb, old(See()), passes, See())
      ensures Accounts(old(dispatcher.pending), passes, dispatcher.pending)
      ensures exit == if passes == [] then Stopped else ExitOf(passes[|passes| - 1])
      ensures |passes| <= rounds && (exit == Stopped ==> |passes| == rounds)
      ensures Takes(hb, [], old(Ins()), rounds) == Course(passes, Ins())
      ensures exists c :: LeftOn(old(socket.recvs), c, socket.recvs, socket.inbound, exit)
      ensures exit != Stopped ==> dispatcher.pending == map[]
      ensures exit != Stopped ==> forall cid | cid in old(dispatcher.pending) ::
                var slot := old(dispatcher.pending)[cid];
                Settled(slot.promise.state, cid, slot.deadline, clock.now, exit)
      ensures FollowsScript(old(See()), old(socket.recvs), old(clock.steps), passes)
      ensures forall slack: nat | hb > 0 && rounds >= 5
                                  && SilentAhead(hb, old(See()), old(socket.recvs), old(clock.steps), slack) ::
                && exit == HeartbeatTimeout && lastInbound == old(lastInbound)
                && 2000 * hb < clock.now - lastInbound <= 2500 * hb + 5 * slack
    {
      hide Takes, LeftOn, Tells, FollowsScript, Settled, Outcome, Effect;
      ghost var c := CourseLeaves(hb, [], Ins(), rounds);
      exit, passes := Loop(rounds);
      assert LeftOn(old(socket.recvs), c, socket.recvs, socket.inbound, exit);
      if exit != Stopped {
        TellsWhen(hb, old(See()), passes, See());
        forall cid, deadline
          ensures Outcome(cid, deadline, passes) != Unset
          ensures Settled(Outcome(cid, deadline, passes), cid, deadline, clock.now, exit)
        {
          ExitSettles(hb, old(lastInbound), old(clock.now), passes, clock.now, cid, deadline, exit);
        }
        assert dispatcher.pending.Keys == {};
      }
      forall slack: nat | hb > 0 && rounds >= 5
                          && SilentAhead(hb, old(See()), old(socket.recvs), old(clock.steps), slack)
        ensures exit == HeartbeatTimeout && lastInbound == old(lastInbound)
        ensures 2000 * hb < clock.now - lastInbound <= 2500 * hb + 5 * slack
      {
        SilentRun(hb, old(See()), old(socket.recvs), old(clock.steps), passes, See(), slack);
      }
    }

    /** The loop itself. */
    method Loop(rounds: nat) returns (exit: Exit, ghost passes: seq<Pass>)
      requires dispatcher.Valid()
      modifies this`lastInbound, socket`inbound, socket`recvs, clock, dispatcher`pending, dispatcher`handled,
               dispatcher`dispatched, dispatcher.Promises()
      ensures dispatcher.Valid()
      ensures Tells(hb, old(See()), passes, See())
      ensures Accounts(old(dispatcher.pending), passes, dispatcher.pending)
      ensures exit == if passes == [] then Stopped else ExitOf(passes[|passes| - 1])
      ensures |passes| <= rounds && (exit == Stopped ==> |passes| == rounds)
      ensures OnScript(old(See()), old(socket.recvs), old(clock.steps), passes, socket.recvs, clock.now, clock.steps)
      ensures Takes(hb, [], old(Ins()), rounds) == Course(passes, Ins())
    {
      hide NextPass, Takes;
      hide Passed, SoFar, Tells, Accounts, Waited, OnScript, Dispatcher.Promises;
      hide ParseAll, ParseFrame, Effect, Outcome, FramesOf, LastSeen, Chronicle, Going, FollowsScript, AllBlock,
           Reading;
      passes := [];
      exit := Stopped;
      var round := 0;
      ghost var table, first, recvs, steps := dispatcher.pending, See(), socket.recvs, clock.steps;
      FirstLook(hb, first);
      FirstAccount(table);
      FirstOnScript(first, recvs, steps);
      while round < rounds
        invariant |passes| == round <= rounds && (passes != [] ==> Goes(passes[|passes| - 1]))
        invariant dispatcher.Valid() && dispatcher.Promises() <= old(dispatcher.Promises())
        invariant SoFar(hb, first, passes, See()) && Accounts(table, passes, dispatcher.pending)
        invariant OnScript(first, recvs, steps, passes, socket.recvs, clock.now, clock.steps)
        invariant Takes(hb, [], old(Ins()), rounds) == Takes(hb, passes, Ins(), rounds - round)
      {
        ghost var ins, n := Ins(), rounds - round;
        ghost var before, v, coming, left := passes, See(), socket.recvs, clock.steps;
        var leave, pass := Round(table, before);
        PassedAt(hb, v, pass, See());
        StaysOnScript(first, recvs, steps, before, coming, v.now, left, pass, socket.recvs, clock.now, clock.steps);
        passes := before + [pass];
        TakesOne(hb, before, ins, n);
        if leave.Some? {
          Finishes(hb, first, before, v, pass, See());
          return leave.value, passes;
        }
        GoesOn(hb, first, before, v, pass, See());
        round := round + 1;
      }
      TakesNone(hb, passes, Ins());
      Stops(hb, first, passes, See());
    }
  }
}
