/** When the I/O thread declares the connection dead. */
module Heartbeats {
  import opened Dispatchers

  /** No inbound frame for more than two heartbeats of `hb` seconds; never when heartbeats are off. */
  predicate Dead(hb: nat, lastInbound: Time, now: Time) { hb > 0 && now - lastInbound > 2000 * hb }

  /** When the k-th wait began. */
  function Since(wakeups: seq<Time>, start: Time, k: nat): Time
    requires k <= |wakeups|
  {
    if k == 0 then start else wakeups[k - 1]
  }

  /** recv waits half a heartbeat, and wakes up at most `slack` late. */
  ghost predicate Waits(wakeups: seq<Time>, start: Time, hb: nat, slack: nat) {
    forall k | 0 <= k < |wakeups| :: 500 * hb <= wakeups[k] - Since(wakeups, start, k) <= 500 * hb + slack
  }

  lemma {:induction false} WakesBetween(wakeups: seq<Time>, start: Time, hb: nat, slack: nat, k: nat)
    requires Waits(wakeups, start, hb, slack) && k < |wakeups|
    ensures (k + 1) * (500 * hb) <= wakeups[k] - start <= (k + 1) * (500 * hb + slack)
  {
    var lo, hi := 500 * hb, 500 * hb + slack;
    assert lo <= wakeups[k] - Since(wakeups, start, k) <= hi;
    if k > 0 {
      WakesBetween(wakeups, start, hb, slack, k - 1);
      OneMore(k, lo);
      OneMore(k, hi);
    }
  }

  lemma OneMore(k: nat, x: nat)
    ensures (k + 1) * x == k * x + x
  {
  }

  /** A wakeup among the first five that finds the connection dead does so in time. */
  lemma FoundInTime(wakeups: seq<Time>, start: Time, hb: nat, slack: nat, k: nat)
    requires Waits(wakeups, start, hb, slack) && k < |wakeups| && k < 5 && Dead(hb, start, wakeups[k])
    ensures 2000 * hb < wakeups[k] - start <= 2500 * hb + 5 * slack
  {
    WakesBetween(wakeups, start, hb, slack, k);
    var hi := 500 * hb + slack;
    assert (k + 1) * hi <= 5 * hi;
  }

  /** After five waits in silence the connection has been found dead, by the first wakeup that could. */
  lemma RaisedByFive(wakeups: seq<Time>, start: Time, hb: nat, slack: nat) returns (k: nat)
    requires hb > 0 && |wakeups| >= 5 && Waits(wakeups, start, hb, slack)
    ensures k < 5 && Dead(hb, start, wakeups[k])
    ensures forall j | 0 <= j < k :: !Dead(hb, start, wakeups[j])
  {
    k := 0;
    WakesBetween(wakeups, start, hb, slack, 4);
    while !Dead(hb, start, wakeups[k])
      invariant k <= 4 && forall j | 0 <= j < k :: !Dead(hb, start, wakeups[j])
      decreases 4 - k
    {
      k := k + 1;
    }
  }
}
