/** waitOnTargets and WaitOn (waitfor.go): pick each target's waiter by its
    type, run the retry loop for every target, and report the first error.

    Concurrency is not modelled. The goroutines errgroup starts are replaced
    by two orders over the target names: `order` is the order in which Go's
    map range visits the targets (it decides which unknown type is reported),
    and `done` is the order in which the per-target loops finish (errgroup
    keeps the first error returned, so it decides which failure is reported).
    Both are parameters because Go leaves them unspecified. Each target has
    its own clock trace.
 */
module Orchestrator {
  import opened Errors
  import opened Text
  import opened Config
  import opened Retry

  /** `order` lists every key of the map exactly once. */
  ghost predicate IsEnumeration(order: seq<string>, keys: set<string>) {
    && (forall i, j :: 0 <= i < j < |order| ==> order[i] != order[j])
    && (forall k :: k in keys <==> k in order)
  }

  function UnknownType(kind: string): string {
    "unknown target type " + kind
  }

  /** The position, from `i` on, of the first target in `order` whose type has
      no waiter. */
  function FirstUnknown(targets: map<string, TargetConfig>, known: set<string>, order: seq<string>, i: nat): (r: Option<nat>)
    requires forall j :: 0 <= j < |order| ==> order[j] in targets
    requires i <= |order|
    ensures r.None? ==> forall j :: i <= j < |order| ==> targets[order[j]].kind in known
    ensures r.Some? ==>
              && i <= r.value < |order|
              && targets[order[r.value]].kind !in known
              && forall j :: i <= j < r.value ==> targets[order[j]].kind in known
    decreases |order| - i
  {
    if i == |order| then None
    else if targets[order[i]].kind !in known then Some(i)
    else FirstUnknown(targets, known, order, i + 1)
  }

  /** eg.Wait from the i-th loop to finish on. */
  function CollectFrom(done: seq<string>, results: map<string, Outcome>, i: nat): (r: Outcome)
    requires forall j :: 0 <= j < |done| ==> done[j] in results
    requires i <= |done|
    ensures r.Pass? <==> forall j :: i <= j < |done| ==> results[done[j]].Pass?
    ensures r.Fail? ==>
              exists k :: i <= k < |done| && results[done[k]] == r
                          && forall j :: i <= j < k ==> results[done[j]].Pass?
    decreases |done| - i
  {
    if i == |done| then Pass
    else if results[done[i]].Fail? then results[done[i]]
    else CollectFrom(done, results, i + 1)
  }

  /** eg.Wait: the first error in completion order, or success. */
  function Collect(done: seq<string>, results: map<string, Outcome>): (r: Outcome)
    requires forall j :: 0 <= j < |done| ==> done[j] in results
    ensures r.Pass? <==> forall j :: 0 <= j < |done| ==> results[done[j]].Pass?
    ensures r.Fail? ==>
              exists i :: 0 <= i < |done| && results[done[i]] == r
                          && forall j :: 0 <= j < i ==> results[done[j]].Pass?
  {
    CollectFrom(done, results, 0)
  }

  /** Every target has a clock trace that reaches its deadline. */
  predicate ClocksCover(targets: map<string, TargetConfig>, clocks: map<string, seq<int>>) {
    forall n :: n in targets ==> n in clocks && ReachesDeadline(clocks[n], targets[n].timeout)
  }

  /** The retry loop of one target, run with the waiter registered for its type. */
  function Single(name: string, targets: map<string, TargetConfig>, waiters: map<string, Waiter>, clocks: map<string, seq<int>>): Run
    requires name in targets && targets[name].kind in waiters
    requires ClocksCover(targets, clocks)
  {
    WaitOnSingleTarget(name, targets[name], waiters[targets[name].kind], clocks[name])
  }

  /** Every target's type is in `known`. */
  predicate AllKnown(targets: map<string, TargetConfig>, known: set<string>) {
    forall n :: n in targets ==> targets[n].kind in known
  }

  /** The error each target's retry loop ends with, by target name. */
  function LoopErrors(targets: map<string, TargetConfig>, waiters: map<string, Waiter>, clocks: map<string, seq<int>>): (m: map<string, Outcome>)
    requires AllKnown(targets, waiters.Keys) && ClocksCover(targets, clocks)
    ensures m.Keys == targets.Keys
  {
    map n | n in targets :: Single(n, targets, waiters, clocks).err
  }

  /** `r` is the unknown-type error of the first target, in `order`, whose type
      is not in `known`. */
  predicate ReportsFirstUnknown(targets: map<string, TargetConfig>, known: set<string>, order: seq<string>, r: Outcome)
    requires forall j :: 0 <= j < |order| ==> order[j] in targets
  {
    exists i :: 0 <= i < |order|
                && targets[order[i]].kind !in known
                && (forall j :: 0 <= j < i ==> targets[order[j]].kind in known)
                && r == Fail(UnknownType(targets[order[i]].kind))
  }

  /** `r` is what the loops of all targets give together: success exactly when
      every loop succeeded, and otherwise the error of one of them. */
  predicate ReportsLoops(targets: map<string, TargetConfig>, waiters: map<string, Waiter>,
                         clocks: map<string, seq<int>>, r: Outcome)
    requires AllKnown(targets, waiters.Keys) && ClocksCover(targets, clocks)
  {
    && (r.Pass? <==> forall n :: n in targets ==> Single(n, targets, waiters, clocks).err.Pass?)
    && (r.Fail? ==> exists n :: n in targets && r == Single(n, targets, waiters, clocks).err)
  }

  /** Walking the whole range finds no target of an unknown type exactly when
      every target's type is known. */
  lemma NoFirstUnknownIsAllKnown(targets: map<string, TargetConfig>, known: set<string>, order: seq<string>)
    requires IsEnumeration(order, targets.Keys)
    ensures FirstUnknown(targets, known, order, 0).None? <==> AllKnown(targets, known)
  {
    if FirstUnknown(targets, known, order, 0).None? {
      forall n | n in targets ensures targets[n].kind in known {
        var j :| 0 <= j < |order| && order[j] == n;
      }
    }
  }

  /** waitOnTargets. If some target's type has no waiter, the error names the
      type of the first such target the range visits. Otherwise the result is
      success exactly when every target's retry loop succeeded, and a failure is
      the error of one of those loops (the first to finish with an error). */
  function WaitOnTargets(targets: map<string, TargetConfig>, waiters: map<string, Waiter>,
                         order: seq<string>, done: seq<string>, clocks: map<string, seq<int>>): (r: Outcome)
    requires IsEnumeration(order, targets.Keys) && IsEnumeration(done, targets.Keys)
    requires ClocksCover(targets, clocks)
    ensures !AllKnown(targets, waiters.Keys) ==> ReportsFirstUnknown(targets, waiters.Keys, order, r)
    ensures AllKnown(targets, waiters.Keys) ==> ReportsLoops(targets, waiters, clocks, r)
  {
    NoFirstUnknownIsAllKnown(targets, waiters.Keys, order);
    match FirstUnknown(targets, waiters.Keys, order, 0)
    case Some(i) =>
      FirstUnknownIsReported(targets, waiters.Keys, order, i);
      Fail(UnknownType(targets[order[i]].kind))
    case None =>
      CollectOfLoops(targets, waiters, done, clocks);
      Collect(done, LoopErrors(targets, waiters, clocks))
  }

  /** The error for the first target of an unknown type is the one the range
      reports. */
  lemma FirstUnknownIsReported(targets: map<string, TargetConfig>, known: set<string>, order: seq<string>, i: nat)
    requires IsEnumeration(order, targets.Keys)
    requires FirstUnknown(targets, known, order, 0) == Some(i)
    ensures ReportsFirstUnknown(targets, known, order, Fail(UnknownType(targets[order[i]].kind)))
  {
  }

  /** When every type has a waiter, collecting the loops' errors succeeds
      exactly when every loop did, and otherwise reports one loop's error. */
  lemma CollectOfLoops(targets: map<string, TargetConfig>, waiters: map<string, Waiter>,
                       done: seq<string>, clocks: map<string, seq<int>>)
    requires IsEnumeration(done, targets.Keys)
    requires ClocksCover(targets, clocks)
    requires AllKnown(targets, waiters.Keys)
    ensures ReportsLoops(targets, waiters, clocks, Collect(done, LoopErrors(targets, waiters, clocks)))
  {
    var results := LoopErrors(targets, waiters, clocks);
    var r := Collect(done, results);
    if r.Fail? {
      var i :| 0 <= i < |done| && results[done[i]] == r;
      assert done[i] in targets;
    } else {
      forall n | n in targets ensures Single(n, targets, waiters, clocks).err.Pass? {
        var j :| 0 <= j < |done| && done[j] == n;
      }
    }
  }

  /** A requested name that is neither configured nor parseable. */
  predicate Unparseable(c: Config, t: string) {
    !GotTarget(c, t) && !KnownScheme(t)
  }

  /** `error` is the parse error of the first unparseable name. */
  predicate FirstUnparseable(c: Config, names: seq<string>, error: string) {
    exists i :: 0 <= i < |names| && Unparseable(c, names[i])
                && (forall j :: 0 <= j < i ==> !Unparseable(c, names[j]))
                && error == "unable to understand target " + names[i]
  }

  /** The loop of WaitOn that adds every requested name the configuration does
      not have, stopping at the first parse error. Names already configured
      keep their descriptors. */
  function AddMissing(c: Config, names: seq<string>): (r: Result<Config>)
    ensures r.Success? ==>
              && r.value.defaultTimeout == c.defaultTimeout
              && (forall k :: k in c.targets ==> k in r.value.targets && r.value.targets[k] == c.targets[k])
    decreases |names|
  {
    if names == [] then Success(c)
    else if GotTarget(c, names[0]) then AddMissing(c, names[1..])
    else
      var (c', err) := AddFromString(c, names[0]);
      if err.Fail? then Failure(err.error) else AddMissing(c', names[1..])
  }

  /** One step of the loop: a first name that is configured or parseable is
      skipped or added, and the loop goes on with the rest from a
      configuration where only that name changed its parseability. */
  lemma AddMissingStep(c: Config, names: seq<string>) returns (c': Config)
    requires names != [] && !Unparseable(c, names[0])
    ensures AddMissing(c, names) == AddMissing(c', names[1..])
    ensures forall k :: Unparseable(c', k) <==> Unparseable(c, k) && k != names[0]
    ensures (forall k :: k in names ==> !Unparseable(c, k)) <==> (forall k :: k in names[1..] ==> !Unparseable(c', k))
  {
    c' := if GotTarget(c, names[0]) then c else AddFromString(c, names[0]).0;
    SameUnparseableAfterAdding(c, c', names[0], names);
  }

  /** The loop succeeds exactly when every name is configured or parseable. */
  lemma {:induction false} AddMissingSucceedsIffParseable(c: Config, names: seq<string>)
    ensures AddMissing(c, names).Success? <==> forall k :: k in names ==> !Unparseable(c, k)
    decreases |names|
  {
    if names != [] {
      var t := names[0];
      if !Unparseable(c, t) {
        var c' := AddMissingStep(c, names);
        AddMissingSucceedsIffParseable(c', names[1..]);
      }
    }
  }

  /** When the loop fails, it is with the parse error of the first name that
      is neither configured nor parseable. */
  lemma {:induction false} AddMissingFailsOnFirstUnparseable(c: Config, names: seq<string>)
    ensures AddMissing(c, names).Failure? ==> FirstUnparseable(c, names, AddMissing(c, names).error)
    decreases |names|
  {
    if names != [] {
      var t := names[0];
      if Unparseable(c, t) {
        assert FirstUnparseable(c, names, "unable to understand target " + t);
      } else {
        var c' := AddMissingStep(c, names);
        AddMissingFailsOnFirstUnparseable(c', names[1..]);
        if AddMissing(c', names[1..]).Failure? {
          FirstUnparseableOfTail(c, c', names, AddMissing(c', names[1..]).error);
        }
      }
    }
  }

  /** A parse error that is the first of the tail, in a configuration where only
      a parseable head changed its parseability, is the first of the whole. */
  lemma FirstUnparseableOfTail(c: Config, c': Config, names: seq<string>, error: string)
    requires names != [] && !Unparseable(c, names[0])
    requires forall k :: Unparseable(c', k) <==> Unparseable(c, k) && k != names[0]
    requires FirstUnparseable(c', names[1..], error)
    ensures FirstUnparseable(c, names, error)
  {
    var i :| 0 <= i < |names[1..]| && Unparseable(c', names[1..][i])
             && (forall j :: 0 <= j < i ==> !Unparseable(c', names[1..][j]))
             && error == "unable to understand target " + names[1..][i];
    assert names[i + 1] == names[1..][i];
    forall j | 0 <= j < i + 1 ensures !Unparseable(c, names[j]) {
      if j > 0 {
        assert names[j] == names[1..][j - 1];
      }
    }
  }

  /** Once the first name is parseable, adding it leaves the parseability of
      every other name as it was. */
  lemma SameUnparseableAfterAdding(c: Config, c': Config, t: string, names: seq<string>)
    requires names != [] && t == names[0] && !Unparseable(c, t)
    requires forall k :: k in c'.targets <==> k in c.targets || k == t
    ensures forall k :: Unparseable(c', k) <==> Unparseable(c, k) && k != t
    ensures (forall k :: k in names ==> !Unparseable(c, k)) <==> (forall k :: k in names[1..] ==> !Unparseable(c', k))
  {
    assert names == [t] + names[1..];
  }

  /** When the loop succeeds, the configuration holds the old names with their
      old descriptors and every requested name, each new one as its parse. */
  lemma {:induction false} AddMissingAddsEveryName(c: Config, names: seq<string>)
    requires forall k :: k in names ==> !Unparseable(c, k)
    ensures AddMissing(c, names).Success?
    ensures forall k :: k in AddMissing(c, names).value.targets <==> k in c.targets || k in names
    ensures forall k :: k in names ==> AddMissing(c, names).value.targets[k] == Resolve(c, k)
    decreases |names|
  {
    if names != [] {
      var t := names[0];
      assert names == [t] + names[1..];
      assert !Unparseable(c, t) by { assert names[0] in names; }
      var c' := if GotTarget(c, t) then c else AddFromString(c, t).0;
      assert forall k :: GotTarget(c', k) <==> GotTarget(c, k) || k == t;
      forall k | k in names[1..] ensures !Unparseable(c', k) {
        assert k in names;
      }
      AddMissingAddsEveryName(c', names[1..]);
      var r := AddMissing(c', names[1..]);
      assert AddMissing(c, names) == r;
      forall k | k in names ensures r.value.targets[k] == Resolve(c, k) {
        if k == t || GotTarget(c, k) {
          assert r.value.targets[k] == c'.targets[k];
        } else {
          assert k in names[1..] && !GotTarget(c', k);
        }
      }
    }
  }

  /** The descriptor WaitOn ends up waiting on for a requested name: the one
      configured under that name, or else the one its parse produces. */
  function Resolve(c: Config, t: string): TargetConfig
    requires !Unparseable(c, t)
  {
    if GotTarget(c, t) then c.targets[t] else AddFromString(c, t).0.targets[t]
  }

  /** The reference target map: every requested name, resolved. */
  function Requested(c: Config, names: seq<string>): (m: map<string, TargetConfig>)
    requires forall k :: k in names ==> !Unparseable(c, k)
    ensures m.Keys == set n | n in names
    ensures forall k :: k in m ==> m[k] == Resolve(c, k)
  {
    map k | k in names :: Resolve(c, k)
  }

  /** Adding what is missing and then filtering by the same names yields
      exactly the requested names, each resolved: the configured descriptor if
      there is one, else the parsed one. */
  lemma AddThenFilterIsRequested(c: Config, names: seq<string>)
    requires forall k :: k in names ==> !Unparseable(c, k)
    ensures AddMissing(c, names).Success?
    ensures Filter(AddMissing(c, names).value, names).targets == Requested(c, names)
  {
    AddMissingAddsEveryName(c, names);
    var added := AddMissing(c, names).value;
    var filtered := Filter(added, names);
    assert filtered.targets.Keys == Requested(c, names).Keys;
  }

  /** A clock trace for each requested name that reaches the timeout the name
      will be waited with. */
  predicate ClocksForNames(c: Config, names: seq<string>, clocks: map<string, seq<int>>) {
    forall n :: n in names ==>
      n in clocks && ReachesDeadline(clocks[n], if GotTarget(c, n) then c.targets[n].timeout else c.defaultTimeout)
  }

  /** The clock traces cover the resolved targets: a parsed target takes the
      configuration's default timeout. */
  lemma RequestedClocks(c: Config, names: seq<string>, clocks: map<string, seq<int>>)
    requires forall k :: k in names ==> !Unparseable(c, k)
    requires ClocksForNames(c, names, clocks)
    ensures ClocksCover(Requested(c, names), clocks)
  {
  }

  /** WaitOn: add what is missing (the first parse error ends it before any
      waiting), keep only the requested names, and wait on those. The
      configured descriptor wins over a parse of the same string, and names
      not requested are never waited on. */
  function WaitOn(c: Config, names: seq<string>, waiters: map<string, Waiter>,
                  order: seq<string>, done: seq<string>, clocks: map<string, seq<int>>): (r: Outcome)
    requires IsEnumeration(order, set n | n in names) && IsEnumeration(done, set n | n in names)
    requires ClocksForNames(c, names, clocks)
    ensures (exists k :: k in names && Unparseable(c, k)) ==>
              r.Fail? && FirstUnparseable(c, names, r.error)
    ensures (forall k :: k in names ==> !Unparseable(c, k)) ==>
              && ClocksCover(Requested(c, names), clocks)
              && r == WaitOnTargets(Requested(c, names), waiters, order, done, clocks)
  {
    AddMissingSucceedsIffParseable(c, names);
    AddMissingFailsOnFirstUnparseable(c, names);
    match AddMissing(c, names)
    case Failure(e) => Fail(e)
    case Success(added) =>
      AddThenFilterIsRequested(c, names);
      RequestedClocks(c, names, clocks);
      WaitOnTargets(Filter(added, names).targets, waiters, order, done, clocks)
  }

  /** When the types are known and exactly one target's loop fails, its error
      is the result, whatever order the loops finish in. */
  lemma OnlyFailureIsReported(targets: map<string, TargetConfig>, waiters: map<string, Waiter>,
                              order: seq<string>, done: seq<string>, clocks: map<string, seq<int>>, bad: string)
    requires IsEnumeration(order, targets.Keys) && IsEnumeration(done, targets.Keys)
    requires ClocksCover(targets, clocks)
    requires forall n :: n in targets ==> targets[n].kind in waiters
    requires bad in targets && Single(bad, targets, waiters, clocks).err.Fail?
    requires forall n :: n in targets && n != bad ==> Single(n, targets, waiters, clocks).err.Pass?
    ensures WaitOnTargets(targets, waiters, order, done, clocks) == Single(bad, targets, waiters, clocks).err
  {
  }

  function Probe(o: Outcome): Waiter {
    (name: string, target: TargetConfig, k: nat) => o
  }

  /** A target whose type has no waiter is rejected with its type in the
      message. */
  lemma UnknownTypeExample()
    ensures var targets := map["unkown" := TargetConfig("unknown type", "", 0, 0, "")];
            WaitOnTargets(targets, map["type" := Probe(Fail(""))], ["unkown"], ["unkown"], map["unkown" := [0, 0]])
              == Fail(UnknownType("unknown type"))
  {
    var targets := map["unkown" := TargetConfig("unknown type", "", 0, 0, "")];
    assert targets.Keys == {"unkown"};
    assert "unknown type" != "type" by { assert |"unknown type"| != |"type"|; }
    assert targets["unkown"].kind !in map["type" := Probe(Fail(""))];
  }

  /** Two targets of types t1 and t2 with zero timeouts; the t1 waiter always
      succeeds and the t2 waiter always fails with "an error". */
  const TwoTargets: map<string, TargetConfig> :=
    map["type 1" := TargetConfig("t1", "", 0, 0, ""), "type 2" := TargetConfig("t2", "", 0, 0, "")]
  const TwoWaiters: map<string, Waiter> := map["t1" := Probe(Pass), "t2" := Probe(Fail("an error"))]
  const TwoClocks: map<string, seq<int>> := map["type 1" := [0, 0], "type 2" := [0, 0]]

  /** The t1 target alone. */
  const OneTarget: map<string, TargetConfig> := map["type 1" := TargetConfig("t1", "", 0, 0, "")]
  const OneClock: map<string, seq<int>> := map["type 1" := [0, 0]]

  lemma TwoTargetsShape()
    ensures TwoTargets.Keys == {"type 1", "type 2"}
    ensures TwoTargets["type 1"] == TargetConfig("t1", "", 0, 0, "")
    ensures TwoTargets["type 2"] == TargetConfig("t2", "", 0, 0, "")
    ensures forall n :: n in TwoTargets ==> TwoTargets[n].kind in TwoWaiters
    ensures ClocksCover(TwoTargets, TwoClocks)
  {
    assert "type 1"[5] != "type 2"[5];
    assert "t1"[1] != "t2"[1];
  }

  lemma TwoTargetsLoops()
    ensures TwoTargets.Keys == {"type 1", "type 2"}
    ensures forall n :: n in TwoTargets ==> TwoTargets[n].kind in TwoWaiters
    ensures ClocksCover(TwoTargets, TwoClocks)
    ensures Single("type 1", TwoTargets, TwoWaiters, TwoClocks).err == Pass
    ensures Single("type 2", TwoTargets, TwoWaiters, TwoClocks).err == Fail(TimedOut("type 2", "an error"))
  {
    TwoTargetsShape();
    var t1, t2 := TwoTargets["type 1"], TwoTargets["type 2"];
    var w1, w2 := TwoWaiters["t1"], TwoWaiters["t2"];
    assert w1 == Probe(Pass) && w2 == Probe(Fail("an error")) by {
      assert "t1"[1] != "t2"[1];
    }
    ImmediateSuccess("type 1", t1, w1, [0, 0]);
    NoBudgetMeansOneProbe("type 2", t2, w2, [0, 0]);
  }

  /** A single target whose type has a waiter gets exactly its own loop's
      result. */
  lemma OneTargetIsItsLoop(n: string, t: TargetConfig, waiters: map<string, Waiter>, clocks: map<string, seq<int>>)
    requires t.kind in waiters
    requires n in clocks && ReachesDeadline(clocks[n], t.timeout)
    ensures IsEnumeration([n], map[n := t].Keys)
    ensures ClocksCover(map[n := t], clocks)
    ensures WaitOnTargets(map[n := t], waiters, [n], [n], clocks) == Single(n, map[n := t], waiters, clocks).err
  {
    var targets := map[n := t];
    assert AllKnown(targets, waiters.Keys);
    var r := WaitOnTargets(targets, waiters, [n], [n], clocks);
    var e := Single(n, targets, waiters, clocks).err;
    if r.Fail? {
      var m :| m in targets && r == Single(m, targets, waiters, clocks).err;
      assert m == n;
    } else {
      assert e.Pass?;
    }
  }

  /** Each target is probed with the waiter of its own type: a target of type
      t1 succeeds even though the t2 waiter always fails. */
  lemma SelectsCorrectWaiterExample()
    ensures WaitOnTargets(OneTarget, TwoWaiters, ["type 1"], ["type 1"], OneClock) == Pass
  {
    var t1 := TargetConfig("t1", "", 0, 0, "");
    var w1 := TwoWaiters["t1"];
    assert w1 == Probe(Pass);
    OneTargetIsItsLoop("type 1", t1, TwoWaiters, OneClock);
    ImmediateSuccess("type 1", t1, w1, [0, 0]);
  }

  /** With a zero timeout the failing target times out at once, and its error
      is the one reported, in any visiting and completion order. */
  lemma FailsWhenWaiterFailsExample(order: seq<string>, done: seq<string>)
    requires IsEnumeration(order, {"type 1", "type 2"}) && IsEnumeration(done, {"type 1", "type 2"})
    ensures WaitOnTargets(TwoTargets, TwoWaiters, order, done, TwoClocks) == Fail(TimedOut("type 2", "an error"))
  {
    TwoTargetsLoops();
    assert IsEnumeration(order, TwoTargets.Keys) && IsEnumeration(done, TwoTargets.Keys);
    forall n | n in TwoTargets && n != "type 2" ensures Single(n, TwoTargets, TwoWaiters, TwoClocks).err.Pass? {
      assert n == "type 1";
    }
    OnlyFailureIsReported(TwoTargets, TwoWaiters, order, done, TwoClocks, "type 2");
  }

  /** An http target string on a configuration with no http waiter parses,
      and then fails on its type. */
  lemma ParsedTargetWithoutWaiterExample()
    ensures var names := ["http://localhost"];
            WaitOn(NewConfig(), names, map[], names, names, map["http://localhost" := [0, DefaultTimeout]])
              == Fail(UnknownType("http"))
  {
    var n := "http://localhost";
    var clocks := map[n := [0, DefaultTimeout]];
    assert KnownScheme(n) by { assert n[..5] == "http:"; }
    assert !HasPrefix(n, "tcp:") by {
      assert n[..4][1] != "tcp:"[1];
    }
    var t := Resolve(NewConfig(), n);
    assert t == TargetConfig("http", n, DefaultTimeout, 0, "");
    assert Requested(NewConfig(), [n]) == map[n := t];
    OneTargetIsUnknown(n, t, map[], clocks);
  }

  /** A single target whose type has no waiter fails with that type. */
  lemma OneTargetIsUnknown(n: string, t: TargetConfig, waiters: map<string, Waiter>, clocks: map<string, seq<int>>)
    requires t.kind !in waiters
    requires n in clocks && ReachesDeadline(clocks[n], t.timeout)
    ensures IsEnumeration([n], map[n := t].Keys)
    ensures ClocksCover(map[n := t], clocks)
    ensures WaitOnTargets(map[n := t], waiters, [n], [n], clocks) == Fail(UnknownType(t.kind))
  {
    var targets := map[n := t];
    assert n in targets && targets[n].kind !in waiters;
    assert [n][0] == n;
  }

  /** A bare host name is not a target string: WaitOn fails with the parse
      error before anything is waited on. */
  lemma InvalidTargetExample(waiters: map<string, Waiter>, clocks: map<string, seq<int>>)
    requires ClocksForNames(NewConfig(), ["localhost"], clocks)
    ensures WaitOn(NewConfig(), ["localhost"], waiters, ["localhost"], ["localhost"], clocks)
              == Fail("unable to understand target " + "localhost")
  {
    var t := "localhost";
    assert t[..4][0] != "tcp:"[0];
    assert t[..5][0] != "http:"[0];
    assert t[..6][0] != "https:"[0];
    assert Unparseable(NewConfig(), t);
    assert ["localhost"][0] == t;
  }
}
