/**
 Any number of threads inside write_all. One step is taking the lock, one send, or leaving; the
 wire is shown to carry whole buffers in the order in which the lock was taken.
 */
module WriteLocks {
  import opened Base
  import opened BigEndian
  import opened Wire
  import opened Frames

  type Thread = nat

  /** The thread inside the lock, its buffer and how much of it the kernel has accepted. */
  datatype Writing = Writing(thread: Thread, data: Bytes, sent: nat)

  /** What one call of write_all left on the wire. */
  datatype Written = Whole(data: Bytes) | Partial(data: Bytes, sent: nat)

  datatype Writers = Writers(holder: Option<Writing>, wire: Bytes, done: seq<Written>)

  datatype Step =
    | Lock(thread: Thread, data: Bytes)
    | Send(thread: Thread, accepted: nat)
    | Interrupt(thread: Thread)
    | Finish(thread: Thread)
    | GiveUp(thread: Thread)

  ghost predicate Next(w: Writers, s: Step, v: Writers) {
    match s
    case Lock(t, data) => w.holder.None? && v == w.(holder := Some(Writing(t, data, 0)))
    case Send(t, n) =>
      && w.holder.Some? && w.holder.value.thread == t
      && var h := w.holder.value;
         && h.sent < |h.data| && 0 < n <= |h.data| - h.sent
         && v == w.(holder := Some(h.(sent := h.sent + n)), wire := w.wire + h.data[h.sent..h.sent + n])
    case Interrupt(t) =>
      w.holder.Some? && w.holder.value.thread == t && w.holder.value.sent < |w.holder.value.data| && v == w
    case Finish(t) =>
      && w.holder.Some? && w.holder.value.thread == t && w.holder.value.sent == |w.holder.value.data|
      && v == w.(holder := None, done := w.done + [Whole(w.holder.value.data)])
    case GiveUp(t) =>
      && w.holder.Some? && w.holder.value.thread == t && w.holder.value.sent < |w.holder.value.data|
      && v == w.(holder := None, done := w.done + [Partial(w.holder.value.data, w.holder.value.sent)])
  }

  ghost predicate Run(ws: seq<Writers>, steps: seq<Step>) {
    && |ws| == |steps| + 1 && ws[0] == Writers(None, [], [])
    && forall i | 0 <= i < |steps| :: Next(ws[i], steps[i], ws[i + 1])
  }

  /** The bytes of a finished call; a failed one left a proper prefix of its buffer. */
  function BytesOf(w: Written): Bytes {
    match w
    case Whole(data) => data
    case Partial(data, sent) => if sent < |data| then data[..sent] else data
  }

  function Concat(done: seq<Written>): Bytes {
    if done == [] then [] else Concat(done[..|done| - 1]) + BytesOf(done[|done| - 1])
  }

  function DataOf(done: seq<Written>): seq<Bytes> { seq(|done|, i requires 0 <= i < |done| => done[i].data) }

  /** The buffers of the steps that took the lock, in order. */
  function Locked(steps: seq<Step>): seq<Bytes> {
    if steps == [] then []
    else
      var n := |steps| - 1;
      Locked(steps[..n]) + if steps[n].Lock? then [steps[n].data] else []
  }

  ghost predicate Inv(w: Writers, steps: seq<Step>) {
    && Locked(steps) == DataOf(w.done) + (if w.holder.Some? then [w.holder.value.data] else [])
    && (w.holder.None? ==> w.wire == Concat(w.done))
    && (w.holder.Some? ==>
          var h := w.holder.value; h.sent <= |h.data| && w.wire == Concat(w.done) + h.data[..h.sent])
    && (forall i | 0 <= i < |w.done| && w.done[i].Partial? ::
          w.done[i].sent < |w.done[i].data| && exists t :: GiveUp(t) in steps)
  }

  lemma ConcatOneMore(done: seq<Written>, w: Written)
    ensures Concat(done + [w]) == Concat(done) + BytesOf(w)
  {
    assert (done + [w])[..|done|] == done;
  }

  lemma NextKeeps(w: Writers, steps: seq<Step>, s: Step, v: Writers)
    requires Inv(w, steps) && Next(w, s, v)
    ensures Inv(v, steps + [s])
  {
    hide Concat;
    assert (steps + [s])[..|steps|] == steps;
    assert forall t | GiveUp(t) in steps :: GiveUp(t) in steps + [s];
    hide Locked;
    match s
    case Lock(_, data) => assert data[..0] == [];
    case Send(_, n) =>
      var h := w.holder.value;
      Regroup(Concat(w.done), h.data[..h.sent], h.data[h.sent..h.sent + n]);
      assert h.data[..h.sent + n] == h.data[..h.sent] + h.data[h.sent..h.sent + n];
    case Interrupt(_) =>
    case Finish(_) =>
      var h := w.holder.value;
      assert h.data[..h.sent] == h.data;
      ConcatOneMore(w.done, Whole(h.data));
    case GiveUp(t) =>
      var h := w.holder.value;
      ConcatOneMore(w.done, Partial(h.data, h.sent));
      assert GiveUp(t) in steps + [s];
  }

  /**
   With any number of writers and any pattern of partial sends the wire is what the finished calls
   left and then a part of the holder's buffer, and these are the buffers of the calls in the
   order in which they took the lock. A failed call left a proper prefix.
   */
  lemma {:induction false} NeverInterleaved(ws: seq<Writers>, steps: seq<Step>, i: nat)
    requires Run(ws, steps) && i < |ws|
    ensures Inv(ws[i], steps[..i])
  {
    if i == 0 {
    } else {
      hide Next, Inv;
      NeverInterleaved(ws, steps, i - 1);
      NextKeeps(ws[i - 1], steps[..i - 1], steps[i - 1], ws[i]);
      assert steps[..i] == steps[..i - 1] + [steps[i - 1]];
    }
  }

  // ---- What the peer sees --------------------------------------------------------------

  /** The payloads of a stream of frames, told apart by their size fields alone. */
  function Split(s: Bytes): seq<Bytes>
    decreases |s|
  {
    match ParseUInt(WORD, s)
    case Fail(_) => []
    case Done(size, rest) => if size > |rest| then [] else [rest[..size]] + Split(rest[size..])
  }

  /** The payloads of frames, without their size fields. */
  function Payloads(frames: seq<Bytes>): seq<Bytes> {
    if frames == [] then []
    else [if |frames[0]| >= 4 then frames[0][4..] else []] + Payloads(frames[1..])
  }

  /** A buffer that encode_request_frame or encode_oneway_frame made. */
  ghost predicate IsFrame(data: Bytes) { exists p: Bytes :: |p| < TWO_32 && data == Envelope(p) }

  lemma {:induction false} ConcatFront(done: seq<Written>)
    requires done != []
    ensures Concat(done) == BytesOf(done[0]) + Concat(done[1..])
  {
    var n := |done| - 1;
    if n == 0 {
      assert done[..0] == [] && done[1..] == [];
    } else {
      ConcatFront(done[..n]);
      assert done[..n][1..] == done[1..][..n - 1];
      assert done[1..][n - 1] == done[n];
      Regroup(BytesOf(done[0]), Concat(done[1..n]), BytesOf(done[n]));
      hide BytesOf;
    }
  }

  lemma SplitFront(data: Bytes, rest: Bytes)
    requires IsFrame(data)
    ensures |data| >= 4 && Split(data + rest) == [data[4..]] + Split(rest)
  {
    hide Encode, Value, Pow256, ParseUInt, Split;
    Widths();
    var p: Bytes :| |p| < TWO_32 && data == Envelope(p);
    assert data == Encode(WORD, |p|) + p && data[4..] == p;
    FramedPrefix(WORD, p, rest);
    SplitStep(data + rest, p, rest);
  }

  lemma SplitStep(s: Bytes, p: Bytes, rest: Bytes)
    requires ParseUInt(WORD, s) == Done(|p|, p + rest)
    ensures Split(s) == [p] + Split(rest)
  {
    hide ParseUInt;
    assert (p + rest)[..|p|] == p && (p + rest)[|p|..] == rest;
  }

  /** The beginning of a frame is no frame yet. */
  lemma PartIsNoFrame(data: Bytes, n: nat)
    requires IsFrame(data) && n < |data|
    ensures Split(data[..n]) == []
  {
    hide Encode, Value, Pow256;
    Widths();
    var p: Bytes :| |p| < TWO_32 && data == Envelope(p);
    if n >= 4 {
      assert data == Encode(WORD, |p|) + p + [];
      FramedPrefix(WORD, p, []);
      UIntOfPrefix(WORD, data, n);
    }
  }

  lemma {:induction false} WholeFramesSplit(done: seq<Written>, tail: Bytes)
    requires forall i | 0 <= i < |done| :: done[i].Whole? && IsFrame(done[i].data)
    ensures Split(Concat(done) + tail) == Payloads(DataOf(done)) + Split(tail)
  {
    hide Split, IsFrame;
    if done == [] {
      assert Concat(done) + tail == tail;
    } else {
      var first, rest := done[0].data, done[1..];
      ConcatFront(done);
      Regroup(first, Concat(rest), tail);
      SplitFront(first, Concat(rest) + tail);
      WholeFramesSplit(rest, tail);
      assert DataOf(done)[1..] == DataOf(rest) && DataOf(done)[0] == first;
      Regroup([first[4..]], Payloads(DataOf(rest)), Split(tail));
    }
  }

  /** How many buffers have been put on the wire completely. */
  function Complete(w: Writers): nat {
    |w.done| + if w.holder.Some? && w.holder.value.sent == |w.holder.value.data| then 1 else 0
  }

  /**
   As long as no write failed: a peer that cuts the wire by size fields alone sees exactly the frames
   written so far, in the order in which their writers took the lock, and nothing of the frame
   being written.
   */
  lemma PeerSeesFrames(ws: seq<Writers>, steps: seq<Step>, i: nat)
    requires Run(ws, steps) && i < |ws|
    requires forall t :: GiveUp(t) !in steps[..i]
    requires forall data | data in Locked(steps[..i]) :: IsFrame(data)
    ensures var frames, n := Locked(steps[..i]), Complete(ws[i]);
            |frames| - 1 <= n <= |frames| && Split(ws[i].wire) == Payloads(frames[..n])
  {
    NeverInterleaved(ws, steps, i);
    var w, frames := ws[i], Locked(steps[..i]);
    hide Run, Locked, Concat, Split, IsFrame, Payloads;
    assert frames[..|w.done|] == DataOf(w.done);
    forall k | 0 <= k < |w.done|
      ensures w.done[k].Whole? && IsFrame(w.done[k].data)
    {
      assert w.done[k].data == frames[k];
    }
    if w.holder.None? {
      WholeFramesSplit(w.done, []);
      assert Concat(w.done) + [] == w.wire && frames == DataOf(w.done) && frames[..|frames|] == frames;
      EmptySplit();
    } else {
      var h := w.holder.value;
      assert frames[|w.done|] == h.data;
      if h.sent == |h.data| {
        assert h.data[..h.sent] == h.data;
        var all := w.done + [Whole(h.data)];
        assert DataOf(all) == frames && frames[..|frames|] == frames;
        ConcatOneMore(w.done, Whole(h.data));
        WholeFramesSplit(all, []);
        assert Concat(all) + [] == w.wire;
        EmptySplit();
      } else {
        WholeFramesSplit(w.done, h.data[..h.sent]);
        PartIsNoFrame(h.data, h.sent);
      }
    }
  }

  lemma EmptySplit()
    ensures Split([]) == []
  {
  }
}
