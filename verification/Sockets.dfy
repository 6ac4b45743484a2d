/**
 Partial reads and writes: the kernel is a script that decides what each recv and send does, and
 the loops over it are proved to move whole buffers and to parse the inbound bytes frame by frame.
 */
module Sockets {
  import opened Base
  import opened BigEndian
  import opened Wire
  import opened Buffers
  import opened Frames
  import Codec

  /** What one recv does: deliver at most `limit` bytes (one at least), or fail. */
  datatype RecvEvent = Data(limit: nat) | Interrupted | WouldBlock | Eof | Fault

  /** What one send does: accept at most `limit` bytes (one at least), or fail. */
  datatype SendEvent = Accept(limit: nat) | SendInterrupted | SendsNothing | SendFault

  datatype Errno = EINTR | EAGAIN | OTHER

  /** The return value of recv: bytes, zero, or minus one with an errno. */
  datatype Received = Chunk(bytes: Bytes) | Closed | Failed(errno: Errno)

  datatype TimeoutMode = ReturnTimeout | TreatAsError

  /** How many of the `left` bytes one call moves when asked for `n` and limited by the kernel. */
  function Moved(limit: nat, n: nat, left: nat): (m: nat)
    requires n > 0 && left > 0
    ensures 1 <= m <= n && m <= left
  {
    Min(Min(if limit == 0 then 1 else limit, n), left)
  }

  // ---- What a script makes of a read ------------------------------------------------------

  /** How a read ended: the kind of its failure, if it failed, the bytes not received, the coming recvs. */
  datatype Filled = Filled(failure: Option<ErrorKind>, unread: Bytes, recvs: seq<RecvEvent>)

  /** A read of `need` bytes; `started` says that some have arrived before. */
  function Fill(unread: Bytes, recvs: seq<RecvEvent>, need: nat, started: bool, mode: TimeoutMode): (f: Filled)
    ensures f.failure.None? ==> need <= |unread| && f.unread == unread[need..]
    ensures f.failure.Some? ==> f.failure.value in {RequestTimeout, ConnectionClosed, IoError}
    decreases |recvs|
  {
    if need == 0 then Filled(None, unread, recvs)
    else if recvs == [] then Filled(Some(ConnectionClosed), unread, [])
    else
      match recvs[0]
      case Data(limit) =>
        if unread == [] then Filled(Some(ConnectionClosed), unread, recvs[1..])
        else
          var m := Moved(limit, need, |unread|);
          Fill(unread[m..], recvs[1..], need - m, true, mode)
      case Interrupted => Fill(unread, recvs[1..], need, started, mode)
      case WouldBlock =>
        Filled(Some(if mode.ReturnTimeout? && !started then RequestTimeout else IoError), unread, recvs[1..])
      case Eof => Filled(Some(ConnectionClosed), unread, recvs[1..])
      case Fault => Filled(Some(IoError), unread, recvs[1..])
  }

  /** The first recv of a read. */
  lemma FillStep(unread: Bytes, recvs: seq<RecvEvent>, need: nat, started: bool, mode: TimeoutMode)
    ensures var f := Fill(unread, recvs, need, started, mode);
            if need == 0 then f == Filled(None, unread, recvs)
            else if recvs == [] then f == Filled(Some(ConnectionClosed), unread, [])
            else match recvs[0]
                 case Data(limit) =>
                   if unread == [] then f == Filled(Some(ConnectionClosed), unread, recvs[1..])
                   else
                     var m := Moved(limit, need, |unread|);
                     f == Fill(unread[m..], recvs[1..], need - m, true, mode)
                 case Interrupted => f == Fill(unread, recvs[1..], need, started, mode)
                 case WouldBlock => f == Filled(Some(Expiry(mode, if started then 1 else 0)), unread, recvs[1..])
                 case Eof => f == Filled(Some(ConnectionClosed), unread, recvs[1..])
                 case Fault => f == Filled(Some(IoError), unread, recvs[1..])
  {
  }

  /** An event a read goes on after. */
  predicate Calm(e: RecvEvent) { e.Data? || e.Interrupted? }

  /** How many bytes the data events of a script can deliver. */
  function Capacity(recvs: seq<RecvEvent>): nat {
    if recvs == [] then 0
    else
      (match recvs[0]
       case Data(limit) => if limit == 0 then 1 else limit
       case _ => 0) + Capacity(recvs[1..])
  }

  /** The first `c` events let a read of `need` bytes go on until it is done. */
  ghost predicate Delivers(recvs: seq<RecvEvent>, need: nat, c: nat) {
    c <= |recvs| && (forall i | 0 <= i < c :: Calm(recvs[i])) && need <= Capacity(recvs[..c])
  }

  lemma DeliversFrom(recvs: seq<RecvEvent>, tail: seq<RecvEvent>, need: nat, m: nat, more: nat)
    requires recvs != [] && Calm(recvs[0]) && need > 0 && need == m + more && tail == recvs[1..]
    requires recvs[0].Data? ==> m == Min(if recvs[0].limit == 0 then 1 else recvs[0].limit, need)
    requires recvs[0].Interrupted? ==> m == 0
    ensures (exists c :: Delivers(recvs, need, c)) <==> exists c :: Delivers(tail, more, c)
  {
    forall c: nat | Delivers(tail, more, c)
      ensures Delivers(recvs, need, c + 1)
    {
      assert recvs[..c + 1][1..] == tail[..c];
    }
    forall c: nat | Delivers(recvs, need, c)
      ensures c > 0 && Delivers(tail, more, c - 1)
    {
      assert recvs[..c][1..] == tail[..c - 1];
    }
  }

  /** A read succeeds exactly when the peer has sent enough and the script delivers it. */
  lemma {:induction false} FillsExactly(
      unread: Bytes, recvs: seq<RecvEvent>, need: nat, started: bool, mode: TimeoutMode)
    ensures Fill(unread, recvs, need, started, mode).failure.None?
       <==> need <= |unread| && exists c :: Delivers(recvs, need, c)
    decreases |recvs|
  {
    if need == 0 {
      assert Delivers(recvs, 0, 0);
    } else if recvs != [] && Calm(recvs[0]) && (recvs[0].Data? ==> unread != []) {
      var tail := recvs[1..];
      var m := if recvs[0].Interrupted? then 0 else Moved(recvs[0].limit, need, |unread|);
      FillsExactly(unread[m..], tail, need - m, started || m > 0, mode);
      if need <= |unread| {
        DeliversFrom(recvs, tail, need, m, need - m);
      }
    }
  }

  /** What a wait that expires is, `k` bytes into a read. */
  function Expiry(mode: TimeoutMode, k: nat): ErrorKind {
    if mode.ReturnTimeout? && k == 0 then RequestTimeout else IoError
  }

  /**
   How a read that failed ended: `c` recvs were made, the last of them was the first that a read
   does not go on after, and the failure is what it says, or the script or the bytes have run out.
   An expired wait is an `expiry`.
   */
  predicate EndsOn(
      recvs: seq<RecvEvent>, c: nat, left: seq<RecvEvent>, unread: Bytes, expiry: ErrorKind, kind: ErrorKind)
  {
    && c <= |recvs| && left == recvs[c..] && (forall i | 0 <= i < c - 1 :: Calm(recvs[i]))
    && if c == 0 then left == [] && kind == ConnectionClosed
       else
         match recvs[c - 1]
         case Data(_) => (unread == [] || left == []) && kind == ConnectionClosed
         case Interrupted => left == [] && kind == ConnectionClosed
         case WouldBlock => kind == expiry
         case Eof => kind == ConnectionClosed
         case Fault => kind == IoError
  }

  ghost predicate Ends(
      recvs: seq<RecvEvent>, left: seq<RecvEvent>, unread: Bytes, expiry: ErrorKind, kind: ErrorKind)
  {
    exists c :: EndsOn(recvs, c, left, unread, expiry, kind)
  }

  lemma EndsLater(recvs: seq<RecvEvent>, tail: seq<RecvEvent>, c: nat, left: seq<RecvEvent>, unread: Bytes,
                  expiry: ErrorKind, kind: ErrorKind)
    requires recvs != [] && Calm(recvs[0]) && tail == recvs[1..] && EndsOn(tail, c, left, unread, expiry, kind)
    ensures EndsOn(recvs, c + 1, left, unread, expiry, kind)
  {
    assert forall i | 0 <= i < c :: recvs[i + 1] == tail[i];
  }

  /** A read that fails has taken fewer bytes than it should, and ended on the event that made it fail. */
  lemma {:induction false} FillFails(
      unread: Bytes, recvs: seq<RecvEvent>, need: nat, started: bool, mode: TimeoutMode) returns (k: nat, c: nat)
    requires Fill(unread, recvs, need, started, mode).failure.Some?
    ensures var f := Fill(unread, recvs, need, started, mode);
            && k < need && k <= |unread| && f.unread == unread[k..]
            && EndsOn(recvs, c, f.recvs, f.unread, Expiry(mode, if started then 1 else k), f.failure.value)
    decreases |recvs|
  {
    FillStep(unread, recvs, need, started, mode);
    hide Moved, Fill;
    k, c := 0, 0;
    var f := Fill(unread, recvs, need, started, mode);
    if recvs != [] {
      var tail := recvs[1..];
      if Calm(recvs[0]) && (recvs[0].Data? ==> unread != []) {
        var m := if recvs[0].Interrupted? then 0 else Moved(recvs[0].limit, need, |unread|);
        k, c := FillFails(unread[m..], tail, need - m, started || m > 0, mode);
        EndsLater(recvs, tail, c, f.recvs, f.unread, Expiry(mode, if started then 1 else m + k), f.failure.value);
        k, c := m + k, c + 1;
      } else {
        c := 1;
      }
    }
  }

  /** A read that succeeds has gone on after every event. */
  lemma {:induction false} FillPasses(
      unread: Bytes, recvs: seq<RecvEvent>, need: nat, started: bool, mode: TimeoutMode) returns (c: nat)
    requires Fill(unread, recvs, need, started, mode).failure.None?
    ensures c <= |recvs| && (need > 0 ==> c > 0 && recvs[c - 1].Data?) && forall i | 0 <= i < c :: Calm(recvs[i])
    ensures Fill(unread, recvs, need, started, mode).recvs == recvs[c..]
    decreases |recvs|
  {
    hide Moved;
    c := 0;
    if need > 0 {
      var tail := recvs[1..];
      var m := if recvs[0].Interrupted? then 0 else Moved(recvs[0].limit, need, |unread|);
      c := FillPasses(unread[m..], tail, need - m, started || m > 0, mode);
      assert forall i | 0 <= i < c :: recvs[i + 1] == tail[i];
      c := c + 1;
    }
  }

  /** A script without the signals. */
  function Undisturbed(recvs: seq<RecvEvent>): seq<RecvEvent> {
    if recvs == [] then []
    else (if recvs[0].Interrupted? then [] else [recvs[0]]) + Undisturbed(recvs[1..])
  }

  /** Signals change nothing. */
  lemma {:induction false} FillUndisturbed(
      unread: Bytes, recvs: seq<RecvEvent>, need: nat, started: bool, mode: TimeoutMode)
    ensures var f := Fill(unread, recvs, need, started, mode);
            Fill(unread, Undisturbed(recvs), need, started, mode) == f.(recvs := Undisturbed(f.recvs))
    decreases |recvs|
  {
    if need > 0 && recvs != [] {
      var tail, calm := recvs[1..], Undisturbed(recvs);
      FillStep(unread, recvs, need, started, mode);
      FillStep(unread, calm, need, started, mode);
      hide Fill, Moved;
      assert if recvs[0].Interrupted? then calm == Undisturbed(tail)
             else calm[0] == recvs[0] && calm[1..] == Undisturbed(tail);
      if recvs[0].Interrupted? {
        FillUndisturbed(unread, tail, need, started, mode);
      } else if recvs[0].Data? && unread != [] {
        var m := Moved(recvs[0].limit, need, |unread|);
        FillUndisturbed(unread[m..], tail, need - m, true, mode);
      }
    }
  }

  /** How many data events there are in a script. */
  function Deliveries(recvs: seq<RecvEvent>): nat {
    if recvs == [] then 0 else (if recvs[0].Data? then 1 else 0) + Deliveries(recvs[1..])
  }

  /** With a data event for every byte a read succeeds, and the others are left for what follows. */
  lemma {:induction false} FillsCalmly(
      unread: Bytes, calm: seq<RecvEvent>, rest: seq<RecvEvent>, need: nat, more: nat, started: bool,
      mode: TimeoutMode) returns (left: seq<RecvEvent>)
    requires (forall e | e in calm :: Calm(e)) && Deliveries(calm) >= need + more && need <= |unread|
    ensures var f := Fill(unread, calm + rest, need, started, mode); f.failure.None? && f.recvs == left + rest
    ensures (forall e | e in left :: Calm(e)) && Deliveries(left) >= more
    decreases |calm|
  {
    left := calm;
    if need > 0 {
      assert calm[0] in calm && (calm + rest)[1..] == calm[1..] + rest;
      hide Moved;
      var m := if calm[0].Interrupted? then 0 else Moved(calm[0].limit, need, |unread|);
      left := FillsCalmly(unread[m..], calm[1..], rest, need - m, more, started || m > 0, mode);
    }
  }

  lemma EndsBehind(recvs: seq<RecvEvent>, b: nat, c: nat, left: seq<RecvEvent>, unread: Bytes, expiry: ErrorKind,
                   kind: ErrorKind)
    requires b <= |recvs| && forall i | 0 <= i < b :: Calm(recvs[i])
    requires EndsOn(recvs[b..], c, left, unread, expiry, kind)
    ensures EndsOn(recvs, b + c, left, unread, expiry, kind)
  {
    assert forall i | b <= i < b + c :: recvs[i] == recvs[b..][i - b];
  }

  // ---- What a script makes of a frame -------------------------------------------------------

  datatype FrameRead = FrameRead(result: Result<IncomingFrame>, unread: Bytes, recvs: seq<RecvEvent>)

  /** The size field, then as many bytes as it says, then the grammar on what was read. */
  function NextFrame(unread: Bytes, recvs: seq<RecvEvent>): FrameRead {
    var size := Fill(unread, recvs, 4, false, ReturnTimeout);
    if size.failure.Some? then FrameRead(Err(Error(size.failure.value)), size.unread, size.recvs)
    else
      var declared := Value(unread[..4]);
      if declared < 4 then FrameRead(Err(Error(ProtocolViolation)), size.unread, size.recvs)
      else
        var body := Fill(size.unread, size.recvs, declared, false, TreatAsError);
        if body.failure.Some? then FrameRead(Err(Error(body.failure.value)), body.unread, body.recvs)
        else
          match ParseFrame(unread[..4 + declared])
          case Done(f, _) => FrameRead(Ok(f), body.unread, body.recvs)
          case Fail(kind) => FrameRead(Err(Error(kind)), body.unread, body.recvs)
  }

  /** What a failed read of a frame ended on, if it did not fail on the bytes. */
  lemma FrameFails(unread: Bytes, recvs: seq<RecvEvent>) returns (c: nat)
    requires NextFrame(unread, recvs).result.Err?
    requires NextFrame(unread, recvs).result.error.kind !in {ProtocolViolation, DecodeError}
    ensures var n := NextFrame(unread, recvs);
            EndsOn(recvs, c, n.recvs, n.unread, if n.unread == unread then RequestTimeout else IoError,
                   n.result.error.kind)
  {
    hide Fill, EndsOn, ParseFrame, Value;
    var size := Fill(unread, recvs, 4, false, ReturnTimeout);
    if size.failure.Some? {
      var k;
      k, c := FillFails(unread, recvs, 4, false, ReturnTimeout);
    } else {
      var declared := Value(unread[..4]);
      var b := FillPasses(unread, recvs, 4, false, ReturnTimeout);
      ParseFails(unread[..4 + (if declared <= |unread| - 4 then declared else 0)]);
      var body := Fill(size.unread, size.recvs, declared, false, TreatAsError);
      if body.failure.Some? {
        var k;
        k, c := FillFails(size.unread, size.recvs, declared, false, TreatAsError);
        EndsBehind(recvs, b, c, body.recvs, body.unread, IoError, body.failure.value);
        c := b + c;
      }
    }
  }

  lemma ParseFails(s: Bytes)
    ensures ParseFrame(s).Fail? ==> ParseFrame(s).kind in {ProtocolViolation, DecodeError}
  {
    hide Value, Pow256, ParsePayload;
    Widths();
    if ParseUInt(WORD, s).Done? {
      var p := ParseUInt(WORD, s);
      if p.value <= |p.rest| { PayloadFails(p.rest[..p.value]); }
    }
  }

  /** What the read of a frame goes over that does not end on a failed recv: the last event brought data. */
  lemma FramePasses(unread: Bytes, recvs: seq<RecvEvent>) returns (c: nat)
    requires NextFrame(unread, recvs).result.Err? ==>
               NextFrame(unread, recvs).result.error.kind in {ProtocolViolation, DecodeError}
    ensures 0 < c <= |recvs| && recvs[c - 1].Data? && NextFrame(unread, recvs).recvs == recvs[c..]
    ensures forall i | 0 <= i < c :: Calm(recvs[i])
  {
    hide Fill, ParseFrame, Value;
    var size := Fill(unread, recvs, 4, false, ReturnTimeout);
    c := FillPasses(unread, recvs, 4, false, ReturnTimeout);
    var declared := Value(unread[..4]);
    if declared >= 4 {
      var b := FillPasses(size.unread, size.recvs, declared, false, TreatAsError);
      assert forall i | c <= i < c + b :: recvs[i] == size.recvs[i - c];
      c := c + b;
    }
  }

  /** The result is what the grammar reads at the front of the stream. */
  lemma FrameReads(unread: Bytes, recvs: seq<RecvEvent>)
    ensures var n := NextFrame(unread, recvs);
            match n.result
            case Ok(f) => ParseFrame(unread) == Done(f, n.unread)
            case Err(e) =>
              && (e.kind in {ProtocolViolation, DecodeError} ==> ParseFrame(unread) == Fail(e.kind))
              && (e.kind == RequestTimeout ==> n.unread == unread)
              && e.serverCode == None
              && e.kind in {RequestTimeout, ConnectionClosed, IoError, ProtocolViolation, DecodeError}
  {
    if Fill(unread, recvs, 4, false, ReturnTimeout).failure.None? {
      assert ParseUInt(WORD, unread) == Done(Value(unread[..4]), unread[4..]);
    } else {
      TimeoutAtOnce(unread, recvs);
    }
    hide Value, Pow256, Fill, ParsePayload;
    var size := Fill(unread, recvs, 4, false, ReturnTimeout);
    if size.failure.None? && Value(unread[..4]) >= 4 {
      var declared := Value(unread[..4]);
      NoTimeout(size.unread, size.recvs, declared, false, TreatAsError);
      if declared <= |unread| - 4 {
        FrameInFront(unread, declared, unread[..4 + declared]);
        assert unread[4..][declared..] == unread[4 + declared..];
      }
    }
  }

  /** A read that treats an expired wait as an error, or has started, does not time out. */
  lemma {:induction false} NoTimeout(unread: Bytes, recvs: seq<RecvEvent>, need: nat, started: bool, mode: TimeoutMode)
    requires started || mode.TreatAsError?
    ensures Fill(unread, recvs, need, started, mode).failure != Some(RequestTimeout)
    decreases |recvs|
  {
    if need > 0 && recvs != [] {
      var m := if recvs[0].Data? && unread != [] then Moved(recvs[0].limit, need, |unread|) else 0;
      NoTimeout(unread[m..], recvs[1..], need - m, started || m > 0, mode);
    }
  }

  lemma {:induction false} TimeoutAtOnce(unread: Bytes, recvs: seq<RecvEvent>)
    ensures Fill(unread, recvs, 4, false, ReturnTimeout).failure == Some(RequestTimeout) ==>
              Fill(unread, recvs, 4, false, ReturnTimeout).unread == unread
    decreases |recvs|
  {
    if recvs != [] {
      if recvs[0].Data? && unread != [] {
        var m := Moved(recvs[0].limit, 4, |unread|);
        NoTimeout(unread[m..], recvs[1..], 4 - m, true, ReturnTimeout);
      } else if recvs[0].Interrupted? {
        TimeoutAtOnce(unread, recvs[1..]);
      }
    }
  }

  /** A frame that has arrived is read, if there is a data event for every byte of it. */
  lemma WholeFrame(unread: Bytes, calm: seq<RecvEvent>, rest: seq<RecvEvent>)
    requires ParseFrame(unread).Done? && forall e | e in calm :: Calm(e)
    requires Deliveries(calm) >= |unread| - |ParseFrame(unread).rest|
    ensures var p, n := ParseFrame(unread), NextFrame(unread, calm + rest);
            n.result == Ok(p.value) && n.unread == p.rest
  {
    var declared := Value(unread[..4]);
    assert ParseUInt(WORD, unread) == Done(declared, unread[4..]);
    hide Value, Pow256, Fill, ParsePayload;
    var p := ParseFrame(unread);
    assert |unread| - |p.rest| == 4 + declared;
    var left := FillsCalmly(unread, calm, rest, 4, declared, false, ReturnTimeout);
    var last := FillsCalmly(unread[4..], left, rest, declared, 0, false, TreatAsError);
    FrameInFront(unread, declared, unread[..4 + declared]);
    assert unread[4..][declared..] == unread[4 + declared..];
  }

  /** Signals change nothing. */
  lemma FrameUndisturbed(unread: Bytes, recvs: seq<RecvEvent>)
    ensures var n := NextFrame(unread, recvs);
            NextFrame(unread, Undisturbed(recvs)) == n.(recvs := Undisturbed(n.recvs))
  {
    hide Fill, Undisturbed, ParseFrame, Value;
    FillUndisturbed(unread, recvs, 4, false, ReturnTimeout);
    var size := Fill(unread, recvs, 4, false, ReturnTimeout);
    if size.failure.None? && Value(unread[..4]) >= 4 {
      FillUndisturbed(size.unread, size.recvs, Value(unread[..4]), false, TreatAsError);
    }
  }

  // ---- What a script makes of a write -------------------------------------------------------

  /** How a write ended: the kind of its failure, if it failed, the bytes not written, the coming sends. */
  datatype Pushed = Pushed(failure: Option<ErrorKind>, unsent: nat, sends: seq<SendEvent>)

  /** A write of `need` bytes. */
  function Push(need: nat, sends: seq<SendEvent>): (p: Pushed)
    ensures p.failure.None? <==> p.unsent == 0
    ensures p.failure.Some? ==> p.failure.value in {ConnectionClosed, IoError}
    decreases |sends|
  {
    if need == 0 then Pushed(None, 0, sends)
    else if sends == [] then Pushed(Some(ConnectionClosed), need, [])
    else
      match sends[0]
      case Accept(limit) => Push(need - Moved(limit, need, need), sends[1..])
      case SendInterrupted => Push(need, sends[1..])
      case SendsNothing => Pushed(Some(ConnectionClosed), need, sends[1..])
      case SendFault => Pushed(Some(IoError), need, sends[1..])
  }

  /** An event a write goes on after. */
  predicate Willing(e: SendEvent) { e.Accept? || e.SendInterrupted? }

  /** How many bytes the accepting events of a script can take. */
  function Room(sends: seq<SendEvent>): nat {
    if sends == [] then 0
    else
      (match sends[0]
       case Accept(limit) => if limit == 0 then 1 else limit
       case _ => 0) + Room(sends[1..])
  }

  /** The first `c` events let a write of `need` bytes go on until it is done. */
  ghost predicate Accepts(sends: seq<SendEvent>, need: nat, c: nat) {
    c <= |sends| && (forall i | 0 <= i < c :: Willing(sends[i])) && need <= Room(sends[..c])
  }

  lemma AcceptsFrom(sends: seq<SendEvent>, tail: seq<SendEvent>, need: nat, m: nat, more: nat)
    requires sends != [] && Willing(sends[0]) && need > 0 && need == m + more && tail == sends[1..]
    requires sends[0].Accept? ==> m == Min(if sends[0].limit == 0 then 1 else sends[0].limit, need)
    requires sends[0].SendInterrupted? ==> m == 0
    ensures (exists c :: Accepts(sends, need, c)) <==> exists c :: Accepts(tail, more, c)
  {
    forall c: nat | Accepts(tail, more, c)
      ensures Accepts(sends, need, c + 1)
    {
      assert sends[..c + 1][1..] == tail[..c];
    }
    forall c: nat | Accepts(sends, need, c)
      ensures c > 0 && Accepts(tail, more, c - 1)
    {
      assert sends[..c][1..] == tail[..c - 1];
    }
  }

  /** A write succeeds exactly when the script accepts every byte before it does anything else. */
  lemma {:induction false} PushesExactly(need: nat, sends: seq<SendEvent>)
    ensures Push(need, sends).failure.None? <==> exists c :: Accepts(sends, need, c)
    decreases |sends|
  {
    if need == 0 {
      assert Accepts(sends, 0, 0);
    } else if sends != [] && Willing(sends[0]) {
      var m := if sends[0].SendInterrupted? then 0 else Moved(sends[0].limit, need, need);
      PushesExactly(need - m, sends[1..]);
      AcceptsFrom(sends, sends[1..], need, m, need - m);
    }
  }

  /** How a write that failed ended: on the first event a write does not go on after, or with the script. */
  predicate StopsOn(sends: seq<SendEvent>, c: nat, left: seq<SendEvent>, kind: ErrorKind) {
    && c <= |sends| && left == sends[c..] && (forall i | 0 <= i < c - 1 :: Willing(sends[i]))
    && if c == 0 || Willing(sends[c - 1]) then left == [] && kind == ConnectionClosed
       else kind == if sends[c - 1].SendFault? then IoError else ConnectionClosed
  }

  lemma {:induction false} PushFails(need: nat, sends: seq<SendEvent>) returns (c: nat)
    requires Push(need, sends).failure.Some?
    ensures StopsOn(sends, c, Push(need, sends).sends, Push(need, sends).failure.value)
    decreases |sends|
  {
    hide Moved;
    c := 0;
    if sends != [] {
      if Willing(sends[0]) {
        var m := if sends[0].SendInterrupted? then 0 else Moved(sends[0].limit, need, need);
        c := PushFails(need - m, sends[1..]);
        assert forall i | 0 <= i < c :: sends[i + 1] == sends[1..][i];
      }
      c := c + 1;
    }
  }

  function WithoutSignals(sends: seq<SendEvent>): seq<SendEvent> {
    if sends == [] then []
    else (if sends[0].SendInterrupted? then [] else [sends[0]]) + WithoutSignals(sends[1..])
  }

  /** Signals change nothing. */
  lemma {:induction false} PushUndisturbed(need: nat, sends: seq<SendEvent>)
    ensures var p := Push(need, sends);
            Push(need, WithoutSignals(sends)) == p.(sends := WithoutSignals(p.sends))
    decreases |sends|
  {
    if need > 0 && sends != [] {
      var tail, calm := sends[1..], WithoutSignals(sends);
      assert if sends[0].SendInterrupted? then calm == WithoutSignals(tail)
             else calm[0] == sends[0] && calm[1..] == WithoutSignals(tail);
      if sends[0].SendInterrupted? {
        PushUndisturbed(need, tail);
      } else if sends[0].Accept? {
        PushUndisturbed(need - Moved(sends[0].limit, need, need), tail);
      }
    }
  }

  class Socket {
    var inbound: Bytes            // bytes of the peer not received yet
    var recvs: seq<RecvEvent>     // what the coming recv calls do
    var outbound: Bytes           // bytes put on the wire
    var sends: seq<SendEvent>     // what the coming send calls do

    constructor (inbound: Bytes, recvs: seq<RecvEvent>, sends: seq<SendEvent>)
      ensures this.inbound == inbound && this.recvs == recvs && outbound == [] && this.sends == sends
    {
      this.inbound, this.recvs, outbound, this.sends := inbound, recvs, [], sends;
    }

    /** A peer whose bytes or script have run out has closed the connection. */
    method Recv(n: nat) returns (r: Received)
      requires n > 0
      modifies this`inbound, this`recvs
      ensures recvs == if old(recvs) == [] then [] else old(recvs)[1..]
      ensures old(recvs) == [] ==> r == Closed
      ensures old(recvs) != [] ==>
                match old(recvs)[0]
                case Data(limit) =>
                  if old(inbound) == [] then r == Closed
                  else r == Chunk(old(inbound)[..Moved(limit, n, |old(inbound)|)])
                case Interrupted => r == Failed(EINTR)
                case WouldBlock => r == Failed(EAGAIN)
                case Eof => r == Closed
                case Fault => r == Failed(OTHER)
      ensures inbound == if r.Chunk? then old(inbound)[|r.bytes|..] else old(inbound)
    {
      if recvs == [] {
        return Closed;
      }
      var event := recvs[0];
      recvs := recvs[1..];
      match event
      case Data(limit) =>
        if inbound == [] {
          return Closed;
        }
        var m := Moved(limit, n, |inbound|);
        r := Chunk(inbound[..m]);
        inbound := inbound[m..];
      case Interrupted => r := Failed(EINTR);
      case WouldBlock => r := Failed(EAGAIN);
      case Eof => r := Closed;
      case Fault => r := Failed(OTHER);
    }

    /** The kernel's copy into the caller's buffer. */
    static method Store(dst: array<byte>, offset: nat, bytes: Bytes)
      requires offset + |bytes| <= dst.Length
      modifies dst
      ensures dst[..offset + |bytes|] == old(dst[..offset]) + bytes
    {
      forall i | 0 <= i < |bytes| {
        dst[offset + i] := bytes[i];
      }
    }

    /**
     Fills `dst`, or fails having taken fewer bytes off the stream. It does what the script says,
     and fails exactly when the peer has not sent enough or the script does not deliver it.
     Only a wait that expires before the first byte is a timeout.
     */
    method ReadExact(dst: array<byte>, mode: TimeoutMode) returns (r: Result<()>)
      modifies this`inbound, this`recvs, dst
      ensures Fill(old(inbound), old(recvs), dst.Length, false, mode)
              == Filled(if r.Ok? then None else Some(r.error.kind), inbound, recvs)
      ensures r.Ok? <==> dst.Length <= |old(inbound)| && exists c :: Delivers(old(recvs), dst.Length, c)
      ensures r.Ok? ==> old(inbound) == dst[..] + inbound
      ensures r.Err? ==> r.error.serverCode == None
      ensures r.Err? ==> exists k: nat | k < dst.Length && k <= |old(inbound)| ::
                && inbound == old(inbound)[k..]
                && Ends(old(recvs), recvs, inbound, Expiry(mode, k), r.error.kind)
    {
      hide Moved, EndsOn, Delivers;
      FillsExactly(inbound, recvs, dst.Length, false, mode);
      r := ReadFully(dst, mode);
      if r.Err? {
        var k, c := FillFails(old(inbound), old(recvs), dst.Length, false, mode);
      }
    }

    /** The loop of ReadExact. */
    method ReadFully(dst: array<byte>, mode: TimeoutMode) returns (r: Result<()>)
      modifies this`inbound, this`recvs, dst
      ensures Fill(old(inbound), old(recvs), dst.Length, false, mode)
              == Filled(if r.Ok? then None else Some(r.error.kind), inbound, recvs)
      ensures r.Ok? ==> old(inbound) == dst[..] + inbound
      ensures r.Err? ==> r.error.serverCode == None
    {
      hide Moved, Fill;
      var received := 0;
      var n := dst.Length;
      while received < n
        invariant 0 <= received <= n && old(inbound) == dst[..received] + inbound
        invariant Fill(old(inbound), old(recvs), n, false, mode)
                  == Fill(inbound, recvs, n - received, received > 0, mode)
        decreases |recvs|, n - received
      {
        var got := RecvInto(dst, received, mode);
        if got.Chunk? {
          received := received + |got.bytes|;
          continue;
        }
        if got.Closed? {
          return Err(Error(ConnectionClosed));
        }
        if got.errno == EINTR {
          continue;
        }
        if got.errno == EAGAIN && mode.ReturnTimeout? && received == 0 {
          return Err(Error(RequestTimeout));
        }
        return Err(Error(IoError));
      }
      FillStep(inbound, recvs, 0, n > 0, mode);
      assert dst[..] == dst[..n];
      r := Ok(());
    }

    /** One recv behind the bytes that have arrived. */
    method RecvInto(dst: array<byte>, offset: nat, ghost mode: TimeoutMode) returns (got: Received)
      requires offset < dst.Length
      modifies this`inbound, this`recvs, dst
      ensures got.Chunk? ==> |got.bytes| <= dst.Length - offset && |recvs| < |old(recvs)|
      ensures got.Chunk? ==> dst[..offset + |got.bytes|] + inbound == old(dst[..offset]) + old(inbound)
      ensures !got.Chunk? ==> dst[..offset] == old(dst[..offset]) && inbound == old(inbound)
      ensures got == Failed(EINTR) ==> |recvs| < |old(recvs)|
      ensures var need, started := dst.Length - offset, offset > 0;
              Fill(old(inbound), old(recvs), need, started, mode)
              == match got
                 case Chunk(bytes) => Fill(inbound, recvs, need - |bytes|, true, mode)
                 case Closed => Filled(Some(ConnectionClosed), inbound, recvs)
                 case Failed(EINTR) => Fill(inbound, recvs, need, started, mode)
                 case Failed(EAGAIN) =>
                   Filled(Some(if mode.ReturnTimeout? && offset == 0 then RequestTimeout else IoError), inbound, recvs)
                 case Failed(OTHER) => Filled(Some(IoError), inbound, recvs)
      ensures got.Chunk? ==> got.bytes != []
    {
      hide Moved, Fill;
      FillStep(inbound, recvs, dst.Length - offset, offset > 0, mode);
      ghost var stream := inbound;
      got := Recv(dst.Length - offset);
      if got.Chunk? {
        Regroup(dst[..offset], got.bytes, inbound);
        assert stream == got.bytes + inbound;
        Store(dst, offset, got.bytes);
      }
    }

    /** The kinds of error that reading a frame can end in. */
    static predicate ReadFailure(kind: ErrorKind) {
      kind in {RequestTimeout, ConnectionClosed, IoError, ProtocolViolation, DecodeError}
    }

    /**
     Reads one frame: the result is what the frame grammar reads at the front of the stream, or
     the error of the recv that it ended on. A timeout leaves the stream untouched, so it only
     happens between frames.
     */
    method ReadFrame() returns (r: Result<IncomingFrame>)
      modifies this`inbound, this`recvs
      ensures NextFrame(old(inbound), old(recvs)) == FrameRead(r, inbound, recvs)
      ensures r.Ok? ==> ParseFrame(old(inbound)) == Done(r.value, inbound)
      ensures r.Err? ==> r.error.serverCode == None && ReadFailure(r.error.kind)
      ensures r.Err? && r.error.kind in {ProtocolViolation, DecodeError} ==>
                ParseFrame(old(inbound)) == Fail(r.error.kind)
      ensures r.Err? && r.error.kind !in {ProtocolViolation, DecodeError} ==>
                Ends(old(recvs), recvs, inbound, if inbound == old(inbound) then RequestTimeout else IoError,
                     r.error.kind)
    {
      hide ParsePayload, EncodeFrame, WellFormed, Fill, EndsOn, Delivers;
      ghost var stream, script := inbound, recvs;
      var sizeBuf := new byte[4];
      var sizeRead := ReadExact(sizeBuf, ReturnTimeout);
      if sizeRead.Err? {
        ghost var c := FrameFails(stream, script);
        return Err(sizeRead.error);
      }
      Codec.ValueOfFour(sizeBuf[..]);
      var declared := sizeBuf[0] as int * 0x100_0000 + sizeBuf[1] as int * 0x1_0000
                      + sizeBuf[2] as int * 0x100 + sizeBuf[3];
      ghost var behind := inbound;
      assert stream[..4] == sizeBuf[..] && stream[4..] == behind && stream == sizeBuf[..] + behind;
      assert ParseUInt(WORD, stream) == Done(declared, behind);
      hide Value, Pow256, ParseUInt;
      if declared < 4 {
        return Err(Error(ProtocolViolation));
      }
      r := ReadRest(sizeBuf[..], declared);
      if r.Err? && r.error.kind !in {ProtocolViolation, DecodeError} {
        ghost var c := FrameFails(stream, script);
      }
    }

    /** The part of a frame behind its size field, whose bytes `prefix` were read before. */
    method ReadRest(prefix: Bytes, declared: u32) returns (r: Result<IncomingFrame>)
      requires |prefix| == 4 && 4 <= declared && ParseUInt(WORD, prefix + inbound) == Done(declared, inbound)
      modifies this`inbound, this`recvs
      ensures var body, stream := Fill(old(inbound), old(recvs), declared, false, TreatAsError), prefix + old(inbound);
              && body.unread == inbound && body.recvs == recvs
              && r == if body.failure.Some? then Err(Error(body.failure.value))
                      else
                        match ParseFrame(stream[..4 + declared])
                        case Done(f, _) => Ok(f)
                        case Fail(kind) => Err(Error(kind))
      ensures r.Ok? ==> ParseFrame(prefix + old(inbound)) == Done(r.value, inbound)
      ensures r.Err? ==>
                || r.error.kind in {ConnectionClosed, IoError}
                || (r.error.kind == DecodeError && ParseFrame(prefix + old(inbound)) == Fail(DecodeError))
    {
      ghost var stream, behind := prefix + inbound, inbound;
      hide Value, Pow256, ParseUInt, ParsePayload, EncodeFrame, WellFormed, Fill, Delivers;
      var body := new byte[declared];
      var bodyRead := ReadExact(body, TreatAsError);
      if bodyRead.Err? {
        return Err(bodyRead.error);
      }
      var fullFrame := prefix + body[..];
      assert stream[4..] == behind && fullFrame == stream[..4 + declared];
      FrameInFront(stream, declared, fullFrame);
      assert behind[declared..] == inbound;
      var br := new BufferReader(fullFrame);
      r := ReadFrameAuto(br);
    }

    /**
     Writes all of `data`, or fails having written a proper prefix of it. It does what the script
     says, and fails exactly when the script does something else before it has accepted every byte.
     */
    method WriteAll(data: Bytes) returns (r: Result<()>)
      modifies this`outbound, this`sends
      ensures var p := Push(|data|, old(sends));
              && p.failure == (if r.Ok? then None else Some(r.error.kind)) && p.sends == sends
              && |outbound| == |old(outbound)| + |data| - p.unsent
      ensures r.Ok? <==> exists c :: Accepts(old(sends), |data|, c)
      ensures r.Ok? ==> outbound == old(outbound) + data
      ensures r.Err? ==> exists k: nat | k < |data| :: outbound == old(outbound) + data[..k]
      ensures r.Err? ==> r.error.serverCode == None && exists c :: StopsOn(old(sends), c, sends, r.error.kind)
    {
      hide Accepts, StopsOn;
      PushesExactly(|data|, sends);
      r := WriteFully(data);
      if r.Err? {
        ghost var c := PushFails(|data|, old(sends));
      }
    }

    /** The loop of WriteAll. */
    method WriteFully(data: Bytes) returns (r: Result<()>)
      modifies this`outbound, this`sends
      ensures var p := Push(|data|, old(sends));
              && p.failure == (if r.Ok? then None else Some(r.error.kind)) && p.sends == sends
              && |outbound| == |old(outbound)| + |data| - p.unsent
      ensures r.Ok? ==> outbound == old(outbound) + data
      ensures r.Err? ==> r.error.serverCode == None
      ensures r.Err? ==> exists k: nat | k < |data| :: outbound == old(outbound) + data[..k]
    {
      hide Moved;
      var sent := 0;
      assert data[..0] == [];
      while sent < |data|
        invariant 0 <= sent <= |data|
        invariant outbound == old(outbound) + data[..sent]
        invariant Push(|data|, old(sends)) == Push(|data| - sent, sends)
        decreases |sends|, |data| - sent
      {
        var n := Send(data[sent..]);
        if n < 0 {
          if n == -1 {
            continue;
          }
          return Err(Error(IoError));
        }
        if n == 0 {
          return Err(Error(ConnectionClosed));
        }
        assert data[..sent + n] == data[..sent] + data[sent..][..n];
        sent := sent + n;
      }
      assert data[..sent] == data;
      r := Ok(());
    }

    /** send: the number of bytes accepted, 0, -1 for EINTR, or -2 for any other error. */
    method Send(data: Bytes) returns (n: int)
      requires data != []
      modifies this`outbound, this`sends
      ensures old(sends) == [] ==> n == 0 && sends == []
      ensures old(sends) != [] ==> sends == old(sends)[1..]
      ensures old(sends) != [] ==>
                n == match old(sends)[0]
                     case Accept(limit) => Moved(limit, |data|, |data|)
                     case SendInterrupted => -1
                     case SendsNothing => 0
                     case SendFault => -2
      ensures outbound == if n > 0 then old(outbound) + data[..n] else old(outbound)
    {
      if sends == [] {
        return 0;
      }
      var event := sends[0];
      sends := sends[1..];
      match event
      case Accept(limit) =>
        n := Moved(limit, |data|, |data|);
        outbound := outbound + data[..n];
      case SendInterrupted => n := -1;
      case SendsNothing => n := 0;
      case SendFault => n := -2;
    }
  }

  /** A frame cut out of a stream parses as the stream does. */
  lemma FrameInFront(stream: Bytes, declared: nat, full: Bytes)
    requires 4 <= declared && 4 + declared <= |stream| && full == stream[..4 + declared]
    requires ParseUInt(WORD, stream) == Done(declared, stream[4..])
    ensures match ParseFrame(full)
            case Fail(kind) => ParseFrame(stream) == Fail(kind) && kind == DecodeError
            case Done(f, rest) => ParseFrame(stream) == Done(f, stream[4 + declared..])
  {
    hide Value, Pow256, ParsePayload;
    UIntOfPrefix(WORD, stream, 4 + declared);
    assert stream[4..4 + declared][..declared] == stream[4..][..declared];
    assert stream[4..][declared..] == stream[4 + declared..];
    PayloadFails(stream[4..][..declared]);
  }

  lemma PayloadFails(p: Bytes)
    ensures ParsePayload(p).Fail? ==> ParsePayload(p).kind == DecodeError
  {
    hide Value, Pow256;
  }
}
