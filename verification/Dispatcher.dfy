/**
 The pending-request table and the dispatcher that owns it. The table operations are functions,
 so that the methods of the dispatcher and the steps of the concurrent protocol are both stated
 through them.
 */
module Dispatchers {
  import opened Base
  import opened Frames
  import opened Commands

  /** A reading of the steady clock, in milliseconds. */
  type Time = int

  /** A pending entry: the promise to fulfil, whatever stands for it, and its deadline. */
  datatype Slot<P> = Slot(promise: P, deadline: Time)

  type Table<P> = map<u32, Slot<P>>

  /** An occupied correlation id keeps its entry. */
  function Emplace<P>(t: Table<P>, cid: u32, s: Slot<P>): Table<P> { if cid in t then t else t[cid := s] }

  /** The correlation id a frame is matched on: only responses are matched at all. */
  function Target(frame: IncomingFrame): Option<u32> {
    if IsResponse(frame.key) then frame.correlationId else None
  }

  /** The ids whose deadline has been reached. */
  function Expired<P>(t: Table<P>, now: Time): set<u32> { set cid | cid in t && t[cid].deadline <= now }

  function Unexpired<P>(t: Table<P>, now: Time): Table<P> { t - Expired(t, now) }

  // ---- Promises -------------------------------------------------------------------

  datatype PromiseState = Unset | Value(result: Result<IncomingFrame>) | Broken

  /** A write-once cell; setting it a second time is an error of the caller. */
  class Promise {
    var state: PromiseState

    constructor ()
      ensures state == Unset
    {
      state := Unset;
    }

    method SetValue(result: Result<IncomingFrame>)
      requires state == Unset
      modifies this
      ensures state == Value(result)
    {
      state := Value(result);
    }

    /** Destruction: a promise that was never set is broken. */
    method Drop()
      modifies this
      ensures state == if old(state) == Unset then Broken else old(state)
    {
      if state == Unset {
        state := Broken;
      }
    }
  }

  /** No promise is in the table twice. */
  ghost predicate Distinct(t: Table<Promise>) {
    forall c, d | c in t && d in t && t[c].promise == t[d].promise :: c == d
  }

  // ---- The dispatcher -------------------------------------------------------------

  class Dispatcher {
    var nextId: u32
    var pending: Table<Promise>
    var onHeartbeat: bool                 // is a handler registered?
    var onMetadataUpdate: bool
    var handled: seq<IncomingFrame>       // the frames handed to the one-way handlers
    ghost var dispatched: seq<IncomingFrame>   // every frame Dispatch was called with

    ghost function Promises(): set<Promise>
      reads this
    {
      set cid | cid in pending :: pending[cid].promise
    }

    /** Every pending promise is unset and pending under one id only. */
    ghost predicate Valid()
      reads this, Promises()
    {
      && (forall cid | cid in pending :: pending[cid].promise.state == Unset)
      && Distinct(pending)
    }

    constructor ()
      ensures Valid() && nextId == 1 && pending == map[] && handled == [] && dispatched == []
      ensures !onHeartbeat && !onMetadataUpdate
    {
      nextId, pending, handled, dispatched := 1, map[], [], [];
      onHeartbeat, onMetadataUpdate := false, false;
    }

    method NextCorrelationId() returns (id: u32)
      modifies this`nextId
      ensures id == old(nextId) && nextId == (old(nextId) + 1) % TWO_32
    {
      id := nextId;
      nextId := Increment(id);
    }

    /** A taken id keeps its entry; the new promise is then destroyed unset. */
    method RegisterPending(cid: u32, deadline: Time) returns (p: Promise)
      requires Valid()
      modifies this`pending
      ensures Valid() && fresh(p)
      ensures pending == Emplace(old(pending), cid, Slot(p, deadline))
      ensures p.state == if cid in old(pending) then Broken else Unset
      ensures forall q | q in old(Promises()) :: q.state == old(q.state)
    {
      p := new Promise();
      if cid in pending {
        p.Drop();
      } else {
        pending := pending[cid := Slot(p, deadline)];
      }
    }

    /**
     Answers the one entry the frame is matched on, whatever command it was sent for, and
     leaves every other entry alone; a response without an entry changes nothing.
     */
    method Dispatch(frame: IncomingFrame) returns (accepted: bool)
      requires Valid()
      modifies this`pending, this`handled, this`dispatched, Promises()
      ensures Valid() && dispatched == old(dispatched) + [frame]
      ensures match Target(frame)
              case Some(cid) =>
                && handled == old(handled) && accepted == (cid in old(pending))
                && pending == old(pending) - {cid}
                && (cid in old(pending) ==> old(pending)[cid].promise.state == Value(Ok(frame)))
              case None =>
                && pending == old(pending)
                && (accepted <==> !IsResponse(frame.key) && HasHandler(RequestOf(frame.key)))
                && handled == old(handled) + (if accepted then [frame] else [])
      ensures forall cid | cid in pending :: pending[cid].promise.state == old(pending[cid].promise.state)
      ensures !IsResponse(frame.key) ==> pending == old(pending)
    {
      dispatched := dispatched + [frame];
      if IsResponse(frame.key) {
        if frame.correlationId.None? {
          return false;
        }
        var cid := frame.correlationId.value;
        if cid !in pending {
          return false;
        }
        var entry := pending[cid];
        pending := pending - {cid};
        entry.promise.SetValue(Ok(frame));
        return true;
      }
      var kind := RequestOf(frame.key);
      if kind == HEARTBEAT && onHeartbeat {
        handled := handled + [frame];
        return true;
      }
      if kind == METADATA_UPDATE && onMetadataUpdate {
        handled := handled + [frame];
        return true;
      }
      accepted := false;
    }

    predicate HasHandler(kind: u16)
      reads this
    {
      (kind == HEARTBEAT && onHeartbeat) || (kind == METADATA_UPDATE && onMetadataUpdate)
    }

    /** Empties the table and resolves everything that was in it, in any order. */
    method FailAllPending(err: StreamError)
      requires Valid()
      modifies this`pending, Promises()
      ensures Valid() && pending == map[]
      ensures forall p | p in old(Promises()) :: p.state == Value(Err(err))
    {
      var taken := pending;
      pending := map[];
      Settle(taken, Err(err));
    }

    /** Sets every promise of a table nobody else can reach, in any order. */
    static method Settle(table: Table<Promise>, result: Result<IncomingFrame>)
      requires Distinct(table) && forall cid | cid in table :: table[cid].promise.state == Unset
      modifies set cid | cid in table :: table[cid].promise
      ensures forall cid | cid in table :: table[cid].promise.state == Value(result)
    {
      var unset := table.Keys;
      while unset != {}
        invariant unset <= table.Keys
        invariant forall cid | cid in table && cid !in unset :: table[cid].promise.state == Value(result)
        invariant forall cid | cid in unset :: table[cid].promise.state == Unset
      {
        var cid :| cid in unset;
        unset := unset - {cid};
        table[cid].promise.SetValue(result);
      }
    }

    /**
     Removes exactly the entries whose deadline has been reached, in any order of iteration,
     times their promises out, and counts them.
     */
    method ReapExpired(now: Time) returns (reaped: nat)
      requires Valid()
      modifies this`pending, Promises()
      ensures Valid() && pending == Unexpired(old(pending), now)
      ensures reaped == |Expired(old(pending), now)|
      ensures forall cid | cid in old(pending) ::
                old(pending)[cid].promise.state
                == if cid in Expired(old(pending), now) then Value(Err(Error(RequestTimeout))) else Unset
    {
      var expired := TakeExpired(now);
      assert expired.Keys == Expired(old(pending), now);
      Settle(expired, Err(Error(RequestTimeout)));
      reaped := |expired|;
    }

    /** The locked half of the reaper: moves the due entries out of the table. */
    method TakeExpired(now: Time) returns (expired: Table<Promise>)
      modifies this`pending
      ensures pending == Unexpired(old(pending), now)
      ensures expired.Keys == Expired(old(pending), now)
      ensures forall cid | cid in expired :: expired[cid] == old(pending)[cid]
    {
      ghost var before := pending;
      expired := map[];
      var unvisited := pending.Keys;
      while unvisited != {}
        invariant unvisited <= before.Keys
        invariant forall c :: c in pending <==> c in before && (c in unvisited || before[c].deadline > now)
        invariant forall c | c in pending :: pending[c] == before[c]
        invariant forall c :: c in expired <==> c in before && c !in unvisited && before[c].deadline <= now
        invariant forall c | c in expired :: expired[c] == before[c]
      {
        var cid :| cid in unvisited;
        unvisited := unvisited - {cid};
        if now >= pending[cid].deadline {
          expired := expired[cid := pending[cid]];
          pending := pending - {cid};
        }
      }
    }
  }
}
