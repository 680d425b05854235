/** waitOnSingleTarget (waitfor.go, and the identical loop in main.go): probe
    once, and while the probe fails and the deadline is still ahead, log the
    failure, sleep one second and probe again.

    Time and the world are parameters. A `Waiter` answers the k-th probe
    (counting from 0) for a name and target. The clock is the sequence of times
    the loop reads: `clock[0]` when it computes the deadline, `clock[k]` at the
    k-th evaluation of the loop condition, right after the k-th probe.
 */
module Retry {
  import opened Errors
  import opened Config

  /** Waiter.Wait, as the outcome of the k-th call for a name and target. */
  type Waiter = (string, TargetConfig, nat) -> Outcome

  /** The loop's result: the returned error, the lines it logged in order, and
      how many probes it made. */
  datatype Run = Run(err: Outcome, logs: seq<string>, probes: nat)

  function ErrorLog(name: string, reason: string): string {
    "error while waiting for " + name + ": " + reason
  }

  function FinishedLog(name: string): string {
    "finished waiting for " + name
  }

  function TimedOut(name: string, reason: string): string {
    "timed out waiting for " + name + ": " + reason
  }

  /** The message waitfor_test.go expects for a target named "type 2" whose
      waiter fails with "an error". */
  lemma TimedOutMessageExample()
    ensures TimedOut("type 2", "an error") == "timed out waiting for type 2: an error"
  {
  }

  /** The clock readings reach the deadline: time keeps passing, so a loop that
      keeps failing reads a time at or past the deadline at some point. */
  predicate ReachesDeadline(clock: seq<int>, timeout: int) {
    |clock| >= 2 && clock[|clock| - 1] >= clock[0] + timeout
  }

  /** The text of a failed probe (a successful one has none). */
  function Reason(o: Outcome): string {
    if o.Fail? then o.error else ""
  }

  /** Every probe before the n-th failed and was followed by a check of the
      clock that found the deadline still ahead. */
  predicate RetriedBefore(name: string, target: TargetConfig, waiter: Waiter, clock: seq<int>, end: int, n: nat)
    requires n <= |clock|
  {
    forall j :: 0 <= j < n - 1 ==> waiter(name, target, j).Fail? && clock[j + 1] < end
  }

  /** The first n - 1 lines are the "error while waiting" lines of the first
      n - 1 probes. */
  predicate LoggedRetries(name: string, target: TargetConfig, waiter: Waiter, logs: seq<string>, n: nat)
    requires n - 1 <= |logs|
  {
    forall j :: 0 <= j < n - 1 ==> logs[j] == ErrorLog(name, Reason(waiter(name, target, j)))
  }

  /** The loop after `k` probes, `logs` logged so far. */
  function Loop(name: string, target: TargetConfig, waiter: Waiter, clock: seq<int>,
                end: int, k: nat, logs: seq<string>): (r: Run)
    requires 1 <= k < |clock| && clock[|clock| - 1] >= end
    requires |logs| == k - 1
    requires LoggedRetries(name, target, waiter, logs, k)
    requires RetriedBefore(name, target, waiter, clock, end, k)
    ensures k <= r.probes < |clock|
    ensures RetriedBefore(name, target, waiter, clock, end, r.probes)
    ensures r.err.Pass? <==> waiter(name, target, r.probes - 1).Pass?
    ensures r.err.Fail? ==>
              clock[r.probes] >= end && r.err.error == TimedOut(name, waiter(name, target, r.probes - 1).error)
    ensures |r.logs| == r.probes - 1 + (if r.err.Pass? then 1 else 0)
    ensures LoggedRetries(name, target, waiter, r.logs, r.probes)
    ensures r.err.Pass? ==> r.logs[r.probes - 1] == FinishedLog(name)
    decreases |clock| - k
  {
    var err := waiter(name, target, k - 1);
    if err.Fail? && end > clock[k] then
      var logs' := logs + [ErrorLog(name, err.error)];
      assert LoggedRetries(name, target, waiter, logs', k + 1) by {
        assert forall j :: 0 <= j < k - 1 ==> logs'[j] == logs[j];
      }
      Loop(name, target, waiter, clock, end, k + 1, logs')
    else if err.Fail? then
      Run(Fail(TimedOut(name, err.error)), logs, k)
    else
      var logs' := logs + [FinishedLog(name)];
      assert LoggedRetries(name, target, waiter, logs', k) by {
        assert forall j :: 0 <= j < k - 1 ==> logs'[j] == logs[j];
      }
      Run(Pass, logs', k)
  }

  /** waitOnSingleTarget. The deadline is `clock[0] + target.timeout`. The
      result describes the whole run: every probe but the last failed and was
      followed by a condition check before the deadline; the last one either
      passed (success, "finished" logged) or failed at a check at or past the
      deadline (the "timed out" error wrapping that last failure). Each retry
      is preceded by exactly one "error while waiting" line. */
  function WaitOnSingleTarget(name: string, target: TargetConfig, waiter: Waiter, clock: seq<int>): (r: Run)
    requires ReachesDeadline(clock, target.timeout)
    ensures 1 <= r.probes < |clock|
    ensures forall j :: 0 <= j < r.probes - 1 ==>
              waiter(name, target, j).Fail? && clock[j + 1] < clock[0] + target.timeout
    ensures r.err.Pass? <==> waiter(name, target, r.probes - 1).Pass?
    ensures r.err.Fail? ==>
              && clock[r.probes] >= clock[0] + target.timeout
              && r.err.error == TimedOut(name, waiter(name, target, r.probes - 1).error)
    ensures |r.logs| == r.probes - 1 + (if r.err.Pass? then 1 else 0)
    ensures forall j :: 0 <= j < r.probes - 1 ==> r.logs[j] == ErrorLog(name, waiter(name, target, j).error)
    ensures r.err.Pass? ==> r.logs[r.probes - 1] == FinishedLog(name)
  {
    var r := Loop(name, target, waiter, clock, clock[0] + target.timeout, 1, []);
    assert forall j :: 0 <= j < r.probes - 1 ==> Reason(waiter(name, target, j)) == waiter(name, target, j).error;
    r
  }

  /** No "error while waiting" line can be mistaken for the "finished" line. */
  lemma ErrorLogIsNotFinished(name: string, reason: string)
    ensures ErrorLog(name, reason) != FinishedLog(name)
  {
    assert ErrorLog(name, reason)[0] == 'e';
    assert FinishedLog(name)[0] == 'f';
  }

  /** "finished waiting for <name>" is logged exactly when the loop succeeds,
      and then exactly once, as the last line. */
  lemma FinishedLoggedIffSuccess(name: string, target: TargetConfig, waiter: Waiter, clock: seq<int>)
    requires ReachesDeadline(clock, target.timeout)
    ensures var r := WaitOnSingleTarget(name, target, waiter, clock);
            (FinishedLog(name) in r.logs <==> r.err.Pass?)
            && (r.err.Pass? ==>
                  && r.logs[|r.logs| - 1] == FinishedLog(name)
                  && forall j :: 0 <= j < |r.logs| - 1 ==> r.logs[j] != FinishedLog(name))
  {
    var r := WaitOnSingleTarget(name, target, waiter, clock);
    forall j | 0 <= j < r.probes - 1 ensures r.logs[j] != FinishedLog(name) {
      ErrorLogIsNotFinished(name, waiter(name, target, j).error);
    }
  }

  /** A first probe that succeeds ends the loop at once with a single
      "finished" line. */
  lemma ImmediateSuccess(name: string, target: TargetConfig, waiter: Waiter, clock: seq<int>)
    requires ReachesDeadline(clock, target.timeout)
    requires waiter(name, target, 0).Pass?
    ensures WaitOnSingleTarget(name, target, waiter, clock) == Run(Pass, [FinishedLog(name)], 1)
  {
    var r := WaitOnSingleTarget(name, target, waiter, clock);
    assert r.probes == 1;
    assert r.logs == [FinishedLog(name)];
  }

  /** A waiter that fails k times and then succeeds, with every check after
      those failures still before the deadline, makes the loop succeed after
      exactly k retries, each announced by its error line. */
  lemma SucceedsAfterFailures(name: string, target: TargetConfig, waiter: Waiter, clock: seq<int>, k: nat)
    requires ReachesDeadline(clock, target.timeout)
    requires forall j :: 0 <= j < k ==> waiter(name, target, j).Fail?
    requires waiter(name, target, k).Pass?
    requires k < |clock|
    requires forall j :: 1 <= j <= k ==> clock[j] < clock[0] + target.timeout
    ensures var r := WaitOnSingleTarget(name, target, waiter, clock);
            r.err == Pass && r.probes == k + 1 && |r.logs| == k + 1
            && (forall j :: 0 <= j < k ==> r.logs[j] == ErrorLog(name, waiter(name, target, j).error))
            && r.logs[k] == FinishedLog(name)
  {
    var r := WaitOnSingleTarget(name, target, waiter, clock);
  }

  /** A waiter that never succeeds times out, only once a clock reading has
      reached the deadline, and never logs "finished". */
  lemma AlwaysFailingTimesOut(name: string, target: TargetConfig, waiter: Waiter, clock: seq<int>)
    requires ReachesDeadline(clock, target.timeout)
    requires forall j :: 0 <= j < |clock| ==> waiter(name, target, j).Fail?
    ensures var r := WaitOnSingleTarget(name, target, waiter, clock);
            && r.err.Fail?
            && r.err.error == TimedOut(name, waiter(name, target, r.probes - 1).error)
            && clock[r.probes] >= clock[0] + target.timeout
            && FinishedLog(name) !in r.logs
  {
    FinishedLoggedIffSuccess(name, target, waiter, clock);
  }

  /** With a clock that does not run backwards, a zero or negative timeout
      allows no retry: one probe, then its verdict. */
  lemma NoBudgetMeansOneProbe(name: string, target: TargetConfig, waiter: Waiter, clock: seq<int>)
    requires ReachesDeadline(clock, target.timeout)
    requires target.timeout <= 0 && clock[1] >= clock[0]
    ensures WaitOnSingleTarget(name, target, waiter, clock).probes == 1
  {
  }
}
