/**
 The repeating timers Brewlet schedules at launch and invalidates at teardown. Only each
 timer's period, the poll it triggers and its valid flag are modelled.
 */
module Timers {

  /** The refresh a timer triggers when it fires. */
  datatype Poll = CheckOutdated | UpdateInfo | UpdateAnalytics

  datatype Timer = Timer(period: nat, repeats: bool, fires: Poll, valid: bool)

  const Hourly: nat := 60 * 60
  const Daily: nat := Hourly * 24

  /** A freshly scheduled repeating timer. */
  function Scheduled(period: nat, fires: Poll): Timer {
    Timer(period, true, fires, true)
  }

  /**
   `setupTimers`: appends three valid repeating timers, the outdated check and the info
   refresh every hour and the analytics refresh every day; earlier timers stay as they were.
   */
  function SetupTimers(timers: seq<Timer>): (r: seq<Timer>)
    ensures |r| == |timers| + 3
    ensures r[..|timers|] == timers
    ensures forall i :: |timers| <= i < |r| ==> r[i].valid && r[i].repeats
    ensures r[|timers|].fires == CheckOutdated && r[|timers|].period == 3600
    ensures r[|timers| + 1].fires == UpdateInfo && r[|timers| + 1].period == 3600
    ensures r[|timers| + 2].fires == UpdateAnalytics && r[|timers| + 2].period == 86400
  {
    timers + [Scheduled(Hourly, CheckOutdated), Scheduled(Hourly, UpdateInfo), Scheduled(Daily, UpdateAnalytics)]
  }

  /** The number of timers in `timers` that are valid and trigger `poll`. */
  function ActiveFor(timers: seq<Timer>, poll: Poll): nat
    decreases |timers|
  {
    if |timers| == 0 then 0
    else ActiveFor(timers[..|timers| - 1], poll) + (if timers[|timers| - 1].valid && timers[|timers| - 1].fires == poll then 1 else 0)
  }

  /** Starting from no timers, setup leaves exactly one active timer per poll. */
  lemma OneTimerPerPoll(poll: Poll)
    ensures ActiveFor(SetupTimers([]), poll) == 1
  {
    var r := SetupTimers([]);
    assert r[..1][..0] == [];
    assert r[..2][..1] == r[..1];
    assert r[..|r| - 1] == r[..2];
    assert ActiveFor(r[..1], poll) == (if poll == CheckOutdated then 1 else 0);
    assert ActiveFor(r[..2], poll) == (if poll == UpdateAnalytics then 0 else 1);
  }

  /** `timer.invalidate()`. */
  function Invalidate(t: Timer): (r: Timer)
    ensures !r.valid
    ensures r.period == t.period && r.repeats == t.repeats && r.fires == t.fires
  {
    t.(valid := false)
  }

  /**
   `applicationWillTerminate`: every timer ends invalid; valid ones are invalidated and
   already invalid ones are left untouched, so a second teardown changes nothing.
   */
  method TearDown(timers: seq<Timer>) returns (r: seq<Timer>)
    ensures |r| == |timers|
    ensures forall i :: 0 <= i < |r| ==> !r[i].valid
    ensures forall i :: 0 <= i < |r| ==> r[i] == Invalidate(timers[i])
    ensures forall i :: 0 <= i < |r| && !timers[i].valid ==> r[i] == timers[i]
    ensures (forall i :: 0 <= i < |timers| ==> !timers[i].valid) ==> r == timers
  {
    r := [];
    for i := 0 to |timers|
      invariant |r| == i
      invariant forall k :: 0 <= k < i ==> r[k] == Invalidate(timers[k])
      invariant forall k :: 0 <= k < i && !timers[k].valid ==> r[k] == timers[k]
    {
      if timers[i].valid {
        r := r + [Invalidate(timers[i])];
      } else {
        r := r + [timers[i]];
      }
    }
  }

  /** After teardown no timer is active for any poll. */
  lemma {:induction false} NoneActiveAfterInvalidation(timers: seq<Timer>, poll: Poll)
    requires forall i :: 0 <= i < |timers| ==> !timers[i].valid
    ensures ActiveFor(timers, poll) == 0
    decreases |timers|
  {
    if |timers| > 0 {
      NoneActiveAfterInvalidation(timers[..|timers| - 1], poll);
    }
  }
}
