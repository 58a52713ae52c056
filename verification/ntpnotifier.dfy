/** The drift watchdog: a loop that predicts what the wall clock will read
    after each sleep and signals a local-time change when the reading strays
    from the prediction by more than a second. One loop iteration is a pure
    step from the prediction and a clock reading; the sleep itself is only
    reported. */
module NtpNotifier {

  /** Sleep after a detected change, in milliseconds (`daemon_sleep`). */
  const DAEMON_SLEEP: nat := 60000

  /** Sleep between ordinary checks (`daemon_interval`). */
  const DAEMON_INTERVAL: nat := 1000

  /** Tolerated drift between prediction and reading (`daemon_precision`). */
  const DAEMON_PRECISION: nat := 1000

  /** The outcome of one iteration: the prediction for the next reading,
      whether `signalLocaltimeChanged` was emitted, and how long the loop
      sleeps. */
  datatype Iteration = Iteration(predicted: int, notify: bool, sleep: nat)

  function Abs(x: int): nat { if x < 0 then -x else x }

  /** One pass of the loop body in `run`: compare the reading with the
      prediction; on a strict excess of the tolerance in either direction,
      re-anchor the prediction at the reading, notify and take the long
      sleep; otherwise take the short one. The prediction then advances by
      the sleep, not by measured time. */
  function Step(predicted: int, now: int): (it: Iteration)
    ensures it.notify <==> Abs(now - predicted) > DAEMON_PRECISION
    ensures it.sleep == (if it.notify then DAEMON_SLEEP else DAEMON_INTERVAL)
    ensures it.notify ==> it.predicted == now + DAEMON_SLEEP
    ensures !it.notify ==> it.predicted == predicted + DAEMON_INTERVAL
  {
    var drift := now - predicted;
    var fired := drift < -(DAEMON_PRECISION as int) || drift > DAEMON_PRECISION;
    var base := if fired then now else predicted;
    var sleep := if fired then DAEMON_SLEEP else DAEMON_INTERVAL;
    Iteration(base + sleep, fired, sleep)
  }

  /** The iterations of one run given the clock reading each one takes. */
  function Run(predicted: int, nows: seq<int>): (its: seq<Iteration>)
    ensures |its| == |nows|
    ensures |nows| > 0 ==> its[0] == Step(predicted, nows[0])
    ensures forall k :: 0 < k < |nows| ==> its[k] == Step(its[k - 1].predicted, nows[k])
    decreases |nows|
  {
    if |nows| == 0 then []
    else
      var it := Step(predicted, nows[0]);
      var rest := Run(it.predicted, nows[1..]);
      assert forall k :: 0 < k < |nows| ==> ([it] + rest)[k] == rest[k - 1];
      [it] + rest
  }

  /** `run` resets the prediction to 0 before its loop. */
  function RunFromStart(nows: seq<int>): (its: seq<Iteration>)
    ensures |its| == |nows|
    ensures |nows| > 0 && Abs(nows[0]) > DAEMON_PRECISION ==> its[0].notify && its[0].sleep == DAEMON_SLEEP
  {
    Run(0, nows)
  }

  /** The clock advances between readings by exactly the sleep taken. */
  ghost predicate FollowsSleeps(nows: seq<int>, its: seq<Iteration>)
    requires |its| == |nows|
  {
    forall k :: 0 < k < |nows| ==> nows[k] == nows[k - 1] + its[k - 1].sleep
  }

  /** What the next iteration sees after a sleep the clock follows exactly:
      no drift after a notification, the same drift otherwise. */
  lemma NextDrift(predicted: int, now: int)
    ensures var it := Step(predicted, now);
      (now + it.sleep) - it.predicted == (if it.notify then 0 else now - predicted)
  {
  }

  /** A run whose clock follows its sleeps and starts within the tolerance
      never notifies. */
  lemma {:induction false} SteadyNeverFires(predicted: int, nows: seq<int>)
    requires |nows| > 0 ==> Abs(nows[0] - predicted) <= DAEMON_PRECISION
    requires FollowsSleeps(nows, Run(predicted, nows))
    ensures forall k :: 0 <= k < |nows| ==> !Run(predicted, nows)[k].notify
    decreases |nows|
  {
    if |nows| > 0 {
      var its := Run(predicted, nows);
      var it := Step(predicted, nows[0]);
      var rest := Run(it.predicted, nows[1..]);
      assert its == [it] + rest;
      assert FollowsSleeps(nows[1..], rest) by {
        forall k | 0 < k < |nows[1..]|
          ensures nows[1..][k] == nows[1..][k - 1] + rest[k - 1].sleep
        {
          assert its[k + 1] == rest[k] && its[k] == rest[k - 1];
        }
      }
      if |nows| > 1 {
        NextDrift(predicted, nows[0]);
        assert nows[1] == nows[0] + it.sleep by {
          assert its[0] == it;
        }
      }
      SteadyNeverFires(it.predicted, nows[1..]);
      forall k | 0 <= k < |nows|
        ensures !its[k].notify
      {
        if k > 0 {
          assert its[k] == rest[k - 1];
        }
      }
    }
  }

  /** Under a clock that follows the sleeps, only the first iteration of a
      run can notify: a notification re-anchors the prediction, and
      otherwise the drift it tolerated stays the same. */
  lemma OnlyFirstFires(predicted: int, nows: seq<int>)
    requires FollowsSleeps(nows, Run(predicted, nows))
    ensures forall k :: 1 <= k < |nows| ==> !Run(predicted, nows)[k].notify
  {
    if |nows| > 1 {
      var its := Run(predicted, nows);
      var it := Step(predicted, nows[0]);
      var rest := Run(it.predicted, nows[1..]);
      assert its == [it] + rest;
      NextDrift(predicted, nows[0]);
      assert nows[1] == nows[0] + it.sleep by {
        assert its[0] == it;
      }
      assert FollowsSleeps(nows[1..], rest) by {
        forall k | 0 < k < |nows[1..]|
          ensures nows[1..][k] == nows[1..][k - 1] + rest[k - 1].sleep
        {
          assert its[k + 1] == rest[k] && its[k] == rest[k - 1];
        }
      }
      SteadyNeverFires(it.predicted, nows[1..]);
      forall k | 1 <= k < |nows|
        ensures !its[k].notify
      {
        assert its[k] == rest[k - 1];
      }
    }
  }

  /** The first iteration of a run compares the clock with 0, so it fires for
      any reading more than a second from the epoch; exactly one second does
      not fire. */
  lemma FirstIteration(now: int)
    ensures now > DAEMON_PRECISION ==> RunFromStart([now])[0].notify
    ensures !RunFromStart([1000])[0].notify && !RunFromStart([-1000])[0].notify
    ensures RunFromStart([1001])[0].notify
  {
  }

  /** A clock jump of 5000 ms against a steady prediction fires, re-anchors
      at the new reading and takes the long sleep; a drift of exactly 1000 ms
      does not. */
  lemma JumpExample(predicted: int)
    ensures Step(predicted, predicted + 5000) == Iteration(predicted + 5000 + DAEMON_SLEEP, true, DAEMON_SLEEP)
    ensures Step(predicted, predicted + 1000) == Iteration(predicted + DAEMON_INTERVAL, false, DAEMON_INTERVAL)
    ensures Step(predicted, predicted - 1001).notify
  {
  }
}
