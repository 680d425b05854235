/** DNSWaiter.Wait (waitfor.go): resolve the target once, then, while less
    than the timeout has elapsed, log the last result, sleep, resolve again and
    succeed as soon as the new list is not Equals the initial one.

    The resolver and the clock are parameters. `lookups[0]` is the initial
    lookup and `lookups[i]` the i-th re-lookup; each carries the addresses the
    resolver returned and the error it reported, which the waiter ignores.
    `clock[0]` is the start time and `clock[i]` the time read after the i-th
    re-lookup.
 */
module Dns {
  import opened Errors
  import opened Config
  import opened IpList

  /** One answer of the DNS lookup function: ([]net.IP, error). */
  datatype Lookup = Lookup(addrs: seq<Addr>, err: Option<string>)

  /** The result of one Wait: the error, how many re-lookups it made, and the
      lines it logged. */
  datatype DnsRun = DnsRun(err: Outcome, relookups: nat, logs: seq<string>)

  function GotLog(l: seq<Addr>): string {
    "got DNS result " + ToString(l)
  }

  function DnsTimedOut(name: string): string {
    "timed out waiting for DNS update to " + name
  }

  /** The clock readings reach the timeout, and there is a lookup for every
      reading. */
  predicate Covers(lookups: seq<Lookup>, clock: seq<int>, timeout: int) {
    |clock| >= 1 && |lookups| >= |clock| && clock[|clock| - 1] - clock[0] >= timeout
  }

  /** The polling loop after `i` re-lookups, on the renderings of the lookups:
      `seen[j]` is what `String()` gives for the j-th answer, so Equals on two
      answers is equality of their renderings. */
  function Poll(name: string, timeout: int, seen: seq<string>, clock: seq<int>, i: nat, logs: seq<string>): (r: DnsRun)
    requires |clock| >= 1 && |seen| >= |clock| && clock[|clock| - 1] - clock[0] >= timeout
    requires i < |clock| && |logs| == i
    requires forall j :: 0 <= j < i ==> logs[j] == "got DNS result " + seen[j]
    requires forall j :: 0 <= j < i ==> clock[j] - clock[0] < timeout
    requires forall j :: 1 <= j <= i ==> seen[j] == seen[0]
    ensures i <= r.relookups < |clock|
    ensures forall j :: 0 <= j < r.relookups ==> clock[j] - clock[0] < timeout
    ensures forall j :: 1 <= j < r.relookups ==> seen[j] == seen[0]
    ensures r.err.Pass? ==> r.relookups > 0 && seen[r.relookups] != seen[0]
    ensures r.err.Fail? ==>
              && r.err.error == DnsTimedOut(name)
              && clock[r.relookups] - clock[0] >= timeout
              && seen[r.relookups] == seen[0]
    ensures |r.logs| == r.relookups
    ensures forall j :: 0 <= j < r.relookups ==> r.logs[j] == "got DNS result " + seen[j]
    decreases |clock| - i
  {
    if clock[i] - clock[0] < timeout then
      var logs' := logs + ["got DNS result " + seen[i]];
      if seen[0] != seen[i + 1] then DnsRun(Pass, i + 1, logs')
      else Poll(name, timeout, seen, clock, i + 1, logs')
    else
      DnsRun(Fail(DnsTimedOut(name)), i, logs)
  }

  /** The renderings of the answers, in order. */
  function Renderings(lookups: seq<Lookup>): (seen: seq<string>)
    ensures |seen| == |lookups|
    ensures forall j :: 0 <= j < |lookups| ==> seen[j] == ToString(lookups[j].addrs)
  {
    seq(|lookups|, j requires 0 <= j < |lookups| => ToString(lookups[j].addrs))
  }

  /** DNSWaiter.Wait for a target named `name`. It succeeds at the first
      re-lookup whose list is not Equals the initial one, provided every
      earlier check of the elapsed time was below the timeout; it fails with
      the "timed out waiting for DNS update" error once the elapsed time
      reaches the timeout with no change seen. */
  function Wait(name: string, target: TargetConfig, lookups: seq<Lookup>, clock: seq<int>): (r: DnsRun)
    requires Covers(lookups, clock, target.timeout)
    ensures r.relookups < |clock|
    ensures forall j :: 0 <= j < r.relookups ==> clock[j] - clock[0] < target.timeout
    ensures forall j :: 1 <= j < r.relookups ==> Equals(lookups[0].addrs, lookups[j].addrs)
    ensures r.err.Pass? ==> r.relookups > 0 && !Equals(lookups[0].addrs, lookups[r.relookups].addrs)
    ensures r.err.Fail? ==>
              && r.err.error == DnsTimedOut(name)
              && clock[r.relookups] - clock[0] >= target.timeout
              && Equals(lookups[0].addrs, lookups[r.relookups].addrs)
    ensures |r.logs| == r.relookups
    ensures forall j :: 0 <= j < r.relookups ==> r.logs[j] == GotLog(lookups[j].addrs)
  {
    Poll(name, target.timeout, Renderings(lookups), clock, 0, [])
  }

  /** With no time budget there is no re-lookup, only the timeout error. */
  lemma NoBudgetTimesOut(name: string, target: TargetConfig, lookups: seq<Lookup>, clock: seq<int>)
    requires Covers(lookups, clock, target.timeout)
    requires target.timeout <= 0
    ensures Wait(name, target, lookups, clock) == DnsRun(Fail(DnsTimedOut(name)), 0, [])
  {
  }

  /** Lookup errors are ignored: only the returned addresses matter. */
  lemma IgnoresLookupErrors(name: string, target: TargetConfig, lookups: seq<Lookup>, other: seq<Lookup>, clock: seq<int>)
    requires Covers(lookups, clock, target.timeout)
    requires |other| == |lookups|
    requires forall i :: 0 <= i < |lookups| ==> other[i].addrs == lookups[i].addrs
    ensures Wait(name, target, other, clock) == Wait(name, target, lookups, clock)
  {
    assert Renderings(other) == Renderings(lookups);
  }

  /** Answers that only reorder the initial addresses never end the wait:
      it times out. */
  lemma ReorderingTimesOut(name: string, target: TargetConfig, lookups: seq<Lookup>, clock: seq<int>)
    requires Covers(lookups, clock, target.timeout)
    requires forall i :: 0 <= i < |lookups| ==> multiset(lookups[i].addrs) == multiset(lookups[0].addrs)
    ensures Wait(name, target, lookups, clock).err == Fail(DnsTimedOut(name))
  {
    var r := Wait(name, target, lookups, clock);
    assert Equals(lookups[0].addrs, lookups[r.relookups].addrs);
  }

  /** On the renderings: the first one that differs from the initial one, if
      reached before the timeout, ends the loop successfully. */
  lemma PollStopsAtFirstDifference(name: string, timeout: int, seen: seq<string>, clock: seq<int>, k: nat)
    requires |clock| >= 1 && |seen| >= |clock| && clock[|clock| - 1] - clock[0] >= timeout
    requires 1 <= k < |clock|
    requires forall j :: 0 <= j < k ==> clock[j] - clock[0] < timeout
    requires forall j :: 1 <= j < k ==> seen[j] == seen[0]
    requires seen[k] != seen[0]
    ensures Poll(name, timeout, seen, clock, 0, []).err == Pass
    ensures Poll(name, timeout, seen, clock, 0, []).relookups == k
  {
  }

  /** The first re-lookup that really changes the addresses (adds, removes,
      substitutes or duplicates one), if checked before the timeout, ends the
      wait successfully right there. */
  lemma FirstChangeSucceeds(name: string, target: TargetConfig, lookups: seq<Lookup>, clock: seq<int>, k: nat)
    requires Covers(lookups, clock, target.timeout)
    requires 1 <= k < |clock|
    requires forall j :: 0 <= j < k ==> clock[j] - clock[0] < target.timeout
    requires forall j :: 1 <= j < k ==> multiset(lookups[j].addrs) == multiset(lookups[0].addrs)
    requires WellFormed(lookups[0].addrs) && WellFormed(lookups[k].addrs)
    requires multiset(lookups[k].addrs) != multiset(lookups[0].addrs)
    ensures Wait(name, target, lookups, clock).err == Pass
    ensures Wait(name, target, lookups, clock).relookups == k
  {
    var seen := Renderings(lookups);
    assert !Equals(lookups[0].addrs, lookups[k].addrs);
    forall j | 1 <= j < k ensures seen[j] == seen[0] {
      assert Equals(lookups[0].addrs, lookups[j].addrs);
    }
    PollStopsAtFirstDifference(name, target.timeout, seen, clock, k);
  }

  /** Answers {A,B,C}, {A,B,C}, {D,E,F}: the wait succeeds at the second
      re-lookup, the first that changed. */
  lemma ChangedAnswerExample()
    ensures var abc, def := Lookup(["A", "B", "C"], None), Lookup(["D", "E", "F"], None);
            var r := Wait("host", TargetConfig("dns", "host", 10, 0, ""), [abc, abc, def], [0, 1, 10]);
            r.err == Pass && r.relookups == 2
  {
    var abc, def := Lookup(["A", "B", "C"], None), Lookup(["D", "E", "F"], None);
    assert "A" in multiset(abc.addrs) && "A" !in multiset(def.addrs);
    FirstChangeSucceeds("host", TargetConfig("dns", "host", 10, 0, ""), [abc, abc, def], [0, 1, 10], 2);
  }

  /** Answers that permute A, B and C never count as a change: the wait
      times out although the sequences differ. */
  lemma PermutedAnswersExample()
    ensures var lookups := [Lookup(["A", "B", "C"], None), Lookup(["C", "A", "B"], None), Lookup(["B", "C", "A"], None)];
            Wait("host", TargetConfig("dns", "host", 10, 0, ""), lookups, [0, 1, 10]).err == Fail(DnsTimedOut("host"))
  {
    var lookups := [Lookup(["A", "B", "C"], None), Lookup(["C", "A", "B"], None), Lookup(["B", "C", "A"], None)];
    assert multiset(lookups[1].addrs) == multiset(lookups[0].addrs);
    assert multiset(lookups[2].addrs) == multiset(lookups[0].addrs);
    ReorderingTimesOut("host", TargetConfig("dns", "host", 10, 0, ""), lookups, [0, 1, 10]);
  }
}
