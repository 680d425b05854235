/** The older command of the root package (main.go): the same retry loop and
    dispatch as waitfor.go, but with the waiter table fixed by a switch on
    "tcp" and "http", and waiters that are handed only the target string.

    The network is a parameter: `Dialer` answers the k-th TCP dial to an
    address with an error or none, `Fetcher` the k-th HTTP GET of a URL.
 */
module Legacy {
  import opened Errors
  import opened Config
  import opened Retry
  import opened HttpStatus
  import opened Orchestrator

  /** The target types the switch of main.go's waitOnTargets knows. */
  const Kinds: set<string> := {"tcp", "http"}

  /** main.go's WaiterFunc: the k-th probe of a name and a target string. */
  type Probe = (string, string, nat) -> Outcome

  type Dialer = (string, nat) -> Option<string>
  type Fetcher = (string, nat) -> Response

  /** tcpWait */
  function TcpWait(dial: Dialer): (p: Probe)
    ensures forall name, target, k :: p(name, target, k).Pass? <==> dial(target, k).None?
  {
    (name: string, target: string, k: nat) =>
      if dial(target, k).Some? then Fail("could not connect to " + name + ": " + dial(target, k).value) else Pass
  }

  /** httpWait */
  function HttpWait(fetch: Fetcher): (p: Probe)
    ensures forall name, target, k :: fetch(target, k).Response? ==>
              (p(name, target, k).Pass? <==> IsSuccess(fetch(target, k).statusCode))
  {
    (name: string, target: string, k: nat) => LegacyHttpVerdict(name, fetch(target, k))
  }

  /** waitOnSingleTarget calls `waiter(name, target.Target)`: the probe sees
      the target string only, so two descriptors with the same target string
      are probed alike, whatever their type, timeout or other fields. */
  function OnTarget(p: Probe): (w: Waiter)
    ensures forall name, tc1: TargetConfig, tc2: TargetConfig, k ::
              tc1.target == tc2.target ==> w(name, tc1, k) == w(name, tc2, k)
  {
    (name: string, tc: TargetConfig, k: nat) => p(name, tc.target, k)
  }

  /** The switch of waitOnTargets as a table: "tcp" and "http" and nothing else. */
  function Table(dial: Dialer, fetch: Fetcher): (w: map<string, Waiter>)
    ensures w.Keys == Kinds
  {
    map["tcp" := OnTarget(TcpWait(dial)), "http" := OnTarget(HttpWait(fetch))]
  }

  /** `r` is what the loops of all targets, each probing with tcpWait or
      httpWait, give together: success exactly when every loop succeeded, and
      otherwise the error of one of them. */
  predicate ReportsLegacyLoops(targets: map<string, TargetConfig>, dial: Dialer, fetch: Fetcher,
                               clocks: map<string, seq<int>>, r: Outcome)
    requires AllKnown(targets, Kinds) && ClocksCover(targets, clocks)
  {
    && (r.Pass? <==> forall n :: n in targets ==> Loop(n, targets, dial, fetch, clocks).err.Pass?)
    && (r.Fail? ==> exists n :: n in targets && r == Loop(n, targets, dial, fetch, clocks).err)
  }

  /** main.go waitOnTargets. A target whose type is neither "tcp" nor "http"
      makes it fail with "unknown target type", naming the first such type the
      range visits; otherwise it succeeds exactly when every target's retry
      loop, probing with tcpWait or httpWait, succeeds, and a failure is one
      of those loops' errors. */
  function WaitOnTargets(targets: map<string, TargetConfig>, dial: Dialer, fetch: Fetcher,
                         order: seq<string>, done: seq<string>, clocks: map<string, seq<int>>): (r: Outcome)
    requires IsEnumeration(order, targets.Keys) && IsEnumeration(done, targets.Keys)
    requires ClocksCover(targets, clocks)
    ensures !AllKnown(targets, Kinds) ==> ReportsFirstUnknown(targets, Kinds, order, r)
    ensures AllKnown(targets, Kinds) ==> ReportsLegacyLoops(targets, dial, fetch, clocks, r)
  {
    TableSelects(targets, dial, fetch, clocks);
    Orchestrator.WaitOnTargets(targets, Table(dial, fetch), order, done, clocks)
  }

  /** The retry loop of one target with the probe its type selects. */
  function Loop(name: string, targets: map<string, TargetConfig>, dial: Dialer, fetch: Fetcher,
                clocks: map<string, seq<int>>): Run
    requires name in targets && targets[name].kind in Kinds
    requires ClocksCover(targets, clocks)
  {
    var p := if targets[name].kind == "tcp" then TcpWait(dial) else HttpWait(fetch);
    WaitOnSingleTarget(name, targets[name], OnTarget(p), clocks[name])
  }

  /** The table picks tcpWait for "tcp" and httpWait for "http". */
  lemma TableSelects(targets: map<string, TargetConfig>, dial: Dialer, fetch: Fetcher, clocks: map<string, seq<int>>)
    requires ClocksCover(targets, clocks)
    ensures forall n :: n in targets ==> (targets[n].kind in Table(dial, fetch) <==> targets[n].kind in Kinds)
    ensures forall n :: n in targets && targets[n].kind in Kinds ==>
              Single(n, targets, Table(dial, fetch), clocks) == Loop(n, targets, dial, fetch, clocks)
  {
  }

  /** run, after the configuration is opened: add every requested name the
      configuration lacks (the first parse error is returned before anything
      is waited on), filter to the requested names, and wait on them with the
      tcp/http switch. */
  function Run(c: Config, names: seq<string>, dial: Dialer, fetch: Fetcher,
               order: seq<string>, done: seq<string>, clocks: map<string, seq<int>>): (r: Outcome)
    requires IsEnumeration(order, set n | n in names) && IsEnumeration(done, set n | n in names)
    requires ClocksForNames(c, names, clocks)
    ensures (exists k :: k in names && Unparseable(c, k)) ==>
              r.Fail? && FirstUnparseable(c, names, r.error)
    ensures (forall k :: k in names ==> !Unparseable(c, k)) ==>
              && ClocksCover(Requested(c, names), clocks)
              && r == WaitOnTargets(Requested(c, names), dial, fetch, order, done, clocks)
  {
    WaitOn(c, names, Table(dial, fetch), order, done, clocks)
  }

  /** Every target string AddFromString accepts yields a type the switch
      knows: with no configuration file, run can only fail on a parse error or
      on a retry loop, never on an unknown type. */
  lemma ParsedTypesAreKnown(c: Config, t: string)
    requires KnownScheme(t)
    ensures AddFromString(c, t).0.targets[t].kind in Kinds
  {
  }
}
