# wait-for, modelled in Dafny

wait-for blocks until a set of named network targets are ready, or reports
which one timed out. Each target is a TCP endpoint, an HTTP(S) URL, a gRPC
endpoint or a DNS name, and each has its own timeout. This project models the
logic of that engine as pure Dafny functions and proves properties of them.
The network, clocks and goroutines appear only as parameters.

The model follows the program's three source files:

- **config.go** (module `Config`):
  - target descriptors and the configuration map;
  - default-timeout filling after a configuration file is decoded;
  - parsing of command-line target strings (`tcp:`, `http:`, `https:`);
  - lookup and filtering by name.
- **waitfor.go**:
  - the retry loop `waitOnSingleTarget` (module `Retry`);
  - the HTTP waiter's verdict on a status code, including the optional
    status-code regular expression (module `HttpStatus`);
  - `IPList` equality, which ignores order: sort, then join with commas
    (module `IpList`);
  - the DNS-change waiter (module `Dns`);
  - the dispatcher `waitOnTargets` and the entry point `WaitOn` (module
    `Orchestrator`).
- **main.go** of the root package, the older command (module `Legacy`):
  - the same retry loop, with a waiter table fixed to `tcp` and `http`;
  - waiters that see only the target string;
  - the add-then-filter steps of `run`.

Two helper modules support them:

- `Errors`:
  - `Outcome` stands for Go's `error`: `Pass` is nil, and `Fail` carries the
    error's text.
  - `Result` is a value or an error.
  - `Option` is an optional value.
- `Text`: the parts of Go's `strings` and `strconv` that the program uses
  (`HasPrefix`, `Replace` with count 1, `Join`, `Compare` and `Itoa`), on
  strings as `seq<char>`.

How time and the world are modelled:

- **Durations** are integers of nanoseconds, as `time.Duration` is.
  `Second` is 10⁹ and `DefaultTimeout` is 5 s.
- **The retry loop**:
  - The loop reads a clock. This is a sequence: `clock[0]` is read when the
    deadline is computed, and `clock[k]` at the k-th evaluation of the loop
    condition.
  - A `Waiter` answers the k-th probe of a name and target with an `Outcome`.
- **The DNS waiter**:
  - It receives the sequence of resolver answers, `lookups[0]` being the
    initial one.
  - It receives its own clock sequence, `clock[0]` being the start.
- **Dispatch**:
  - The goroutines and errgroup become a sequential fold.
  - Go leaves two orders unspecified, so both are parameters.
  - `order` is the order in which `range` visits the target map. It decides
    which unknown type is reported.
  - `done` is the order in which the per-target loops finish. It decides which
    error errgroup returns.
- **The regular-expression engine** is a parameter. It says whether a pattern
  compiles, with which error if not, and whether a compiled pattern matches a
  string.
- **IP addresses** are their `String()` forms. Those forms are never empty and
  never contain a comma.

Behaviour of the code worth knowing when reading the model:

- **The status pattern.** An empty `RegexStatus` selects the 2xx check. Any
  non-empty pattern, `"200"` included, is compiled as a regular expression
  and matched against the decimal code (waitfor.go:159-173).
- **Target strings.** `AddFromString` understands only `tcp:`, `http:` and
  `https:`, and rejects anything else (config.go:56-76).
- **Fields of a parsed target.** This is about the root package only. Its
  config.go is the one modelled here, and its `TargetConfig` has only `Type`,
  `Target` and `Timeout`. In `Config.TargetConfig`, a target added from a
  string by that `AddFromString` gets only those three fields. Its HTTP client
  timeout is zero and its status pattern is empty. waitfor.go also reads
  `HTTPClientTimeout` and `RegexStatus`. These come from the waitfor
  package's own configuration code, which is not part of this model.
- **Resolver errors.** The resolver's error is ignored, and the returned slice
  is compared as it is (waitfor.go:242,252). The model keeps both the slice
  and the error, and proves that the error is never consulted.

## Model

| member | source | states |
|---|---|---|
| Text.ReplaceOncePrefix | config.go:59 | `strings.Replace(t, "tcp:", "", 1)` on a string that starts with "tcp:" removes exactly that prefix and nothing else |
| Text.JoinInjective | waitfor.go:232-239 | joining non-empty, comma-free parts with "," loses nothing: equal joins come from equal part lists |
| Text.CompareZeroIsEquality | waitfor.go:231 | `strings.Compare` is 0 exactly when the strings are equal |
| Text.CompareAntisymmetric | waitfor.go:231 | swapping the arguments of `strings.Compare` negates the result |
| Text.CompareNegativeIsBefore | waitfor.go:231 | `strings.Compare(a, b) < 0` holds exactly when `a` sorts strictly before `b` in dictionary order: after a common prefix, `a` ends first or has the smaller next character |
| Text.CompareTransitive | waitfor.go:231 | `strings.Compare(a,b) <= 0` and `strings.Compare(b,c) <= 0` give `strings.Compare(a,c) <= 0` |
| Text.Digits | waitfor.go:166 | the decimal digits of a status code are non-empty, all digits, with no leading zero |
| Text.ThreeDigits | waitfor.go:166 | a status code from 100 to 999 is written as exactly its hundreds, tens and units digits |
| Text.ItoaRoundTrip | waitfor.go:166 | the string `strconv.Itoa` gives for a status code reads back as the same number |
| Text.ItoaInjective | waitfor.go:166 | different status codes have different decimal strings, so the pattern sees the code itself |
| IpList.Less | waitfor.go:231 | `IPList.Less` puts an address first exactly when its `String()` form sorts before the other's in dictionary order |
| IpList.LessIsStrictTotalOrder | waitfor.go:231 | `IPList.Less` is irreflexive, asymmetric, transitive and total on distinct addresses |
| IpList.Insert | waitfor.go:233 | one insertion step of the sort adds exactly the inserted address to the list's contents |
| IpList.InsertSorted | waitfor.go:233 | inserting into a list sorted by `Less` keeps it sorted |
| IpList.Sort | waitfor.go:233 | `sort.Sort` permutes the list: same addresses, same multiplicities |
| IpList.SortSorted | waitfor.go:233 | after `sort.Sort` no later address is `Less` than an earlier one |
| IpList.SortedUnique | waitfor.go:233 | two sorted arrangements of the same addresses are identical, so the result of `String()` does not depend on the input order |
| IpList.SortWellFormed | waitfor.go:232-239 | sorting keeps every address non-empty and comma-free |
| IpList.ToString | waitfor.go:232-239 | `String()` is the comma-join of a sorted arrangement of the addresses, and every sorted arrangement of the same addresses joins to that same string |
| IpList.RenderingDeterminesAddresses | waitfor.go:232-239 | for lists of real addresses, equal renderings mean the same addresses with the same multiplicities |
| IpList.Equals | waitfor.go:223-225 | two lists holding the same addresses with the same multiplicities, in any order, are `Equals`; for real address lists, `Equals` holds only for such lists, so an added, removed, substituted or duplicated address is a change |
| IpList.DuplicateIsChange | waitfor.go:223-239 | a duplicated address is a change even though the set of addresses is the same |
| Config.NewConfig | config.go:25-30 | a new configuration has the five-second default and no targets |
| Config.FillDefaults | config.go:38-47 | after decoding, a zero default becomes 5 s; a target with a zero timeout gets the (filled) default; other timeouts and every other field are left alone; no target is added or removed |
| Config.FillDefaultsSetsTimeouts | config.go:38-47 | after filling, neither the default nor any target timeout is zero |
| Config.FillDefaultsIdempotent | config.go:38-47 | filling twice is filling once, and a configuration without zero timeouts is left unchanged |
| Config.AddFromString | config.go:56-76 | success exactly for "tcp:", "http:" or "https:" prefixes; "tcp:X" is stored under itself as type tcp with target X; an http(s) URL is stored as type http with the URL unchanged; both take the default timeout; other keys are untouched; any other string fails with "unable to understand target <t>" and leaves the configuration unchanged |
| Config.AddFromStringTcpExample | config.go:57-63 | "tcp:listener-tcp:9090" is stored with target "listener-tcp:9090", type tcp and a 5 s timeout: only the leading "tcp:" is stripped |
| Config.AddFromStringRejectsExample | config.go:75 | "udp:some-listener:9090" is rejected with "unable to understand target udp:some-listener:9090" and the configuration is unchanged |
| Config.AddFromStringRoundTrip | config.go:56-76 | an accepted target string is then found by GotTarget, and the stored descriptor spells back to the same string |
| Config.SpellingRoundTrip | config.go:57-63 | spelling a tcp descriptor as "tcp:" + address and parsing it back stores that same descriptor |
| Config.GotTargetAfterAdd | config.go:51-76 | after a successful add, GotTarget holds for exactly the old names plus the new one |
| Config.Filter | config.go:78-88 | the result has the 5 s default, not the source's; it holds exactly the requested names that exist, each with its descriptor copied unchanged |
| Config.FilterIdempotent | config.go:78-88 | filtering again by the same names changes nothing |
| HttpStatus.IsSuccess | waitfor.go:195-205 | true exactly for 200 <= code < 300 |
| HttpStatus.IsSuccessExamples | waitfor.go:195-205 | 200 and 214 are accepted; 100, 199, 300, 407 and 500 are rejected |
| HttpStatus.HttpVerdict | waitfor.go:155-176 | a transport error fails with "could not connect to <name>: <err>"; with no pattern, success is exactly the 2xx range and the failure reads "got <code> from <name>"; a pattern that does not compile fails with "invalid Regular Expression <err>"; a compiled pattern gives success exactly when it matches the decimal code |
| HttpStatus.InvalidPatternAlwaysFails | waitfor.go:161-164 | a pattern that does not compile fails, with the same error whatever the status code |
| HttpStatus.PatternSeesExactCode | waitfor.go:166-168 | a pattern that matches only one code's decimal string accepts that code and rejects every other code |
| HttpStatus.PatternCanExpressSuccessRange | waitfor.go:159-173 | a pattern that, on every three-character string, matches exactly a 2 followed by two digits (what it does on other lengths is free, so Go's unanchored `2[0-9]{2}` qualifies) agrees with the 2xx check on every code from 100 to 999 |
| HttpStatus.LegacyHttpVerdict | main.go:160-187 | main.go's httpWait succeeds on a response exactly when its code is in the 2xx range |
| HttpStatus.LegacyHttpIsEmptyPattern | main.go:160-175 | main.go's httpWait gives the same verdict as the HTTPWaiter of waitfor.go with an empty status pattern, whatever the regex engine |
| Retry.Loop | waitfor.go:124-133 | from the k-th probe on: every probe but the last failed and was followed by a condition check before the deadline; success exactly when the last probe passed; a failure is "timed out waiting for <name>: <last error>" at a check at or past the deadline; one "error while waiting for" log per retry, then "finished waiting for" on success |
| Retry.WaitOnSingleTarget | waitfor.go:121-138 | at least one probe; a retry only while the probe fails and the deadline (start + timeout) is still ahead; each retry is preceded by exactly one "error while waiting for <name>: <err>" line; the result is success with "finished waiting for <name>" as the last line, or "timed out waiting for <name>: <err>" once a check reaches the deadline |
| Retry.TimedOutMessageExample | waitfor.go:131-133 | a target "type 2" failing with "an error" times out with "timed out waiting for type 2: an error" |
| Retry.ErrorLogIsNotFinished | waitfor.go:125-136 | no "error while waiting" line can be mistaken for the "finished" line |
| Retry.FinishedLoggedIffSuccess | waitfor.go:121-138 | "finished waiting for <name>" is logged exactly when the loop succeeds, once, as the last line |
| Retry.ImmediateSuccess | waitfor.go:121-137 | a first probe that succeeds gives success after one probe, with exactly one log line, "finished waiting for <name>" |
| Retry.SucceedsAfterFailures | waitfor.go:122-137 | k failures, each followed by a check before the deadline, then a success give success after k+1 probes, with k error lines followed by the finished line |
| Retry.AlwaysFailingTimesOut | waitfor.go:125-133 | a waiter that always fails makes the loop time out, at a check at or past the deadline, with its last error; "finished" is never logged |
| Retry.NoBudgetMeansOneProbe | waitfor.go:122-125 | with a zero or negative timeout and a clock that does not run backwards, there is exactly one probe |
| Dns.Poll | waitfor.go:249-260 | from the i-th re-lookup on, with answers compared by their renderings: success exactly at the first rendering that differs from the initial one, reached while elapsed < timeout; otherwise "timed out waiting for DNS update to <name>" at the first time check at or past the timeout; one "got DNS result" line per iteration, showing the answer held at its start |
| Dns.Wait | waitfor.go:241-261 | success at the first re-lookup not `Equals` the initial answer, every earlier time check being below the timeout; failure with "timed out waiting for DNS update to <name>" once the elapsed time reaches the timeout with every answer so far `Equals` the initial one; the "got DNS result" lines show the answers in order |
| Dns.NoBudgetTimesOut | waitfor.go:249-260 | with a timeout of zero or less there is no re-lookup, no log line, only the timeout error |
| Dns.IgnoresLookupErrors | waitfor.go:241-253 | the errors the resolver reports never change the result; only the returned addresses matter |
| Dns.ReorderingTimesOut | waitfor.go:249-260 | answers that only reorder the initial addresses never end the wait: it times out |
| Dns.PollStopsAtFirstDifference | waitfor.go:249-258 | the first rendering that differs, reached before the timeout, ends the loop successfully at that re-lookup |
| Dns.FirstChangeSucceeds | waitfor.go:241-258 | the first re-lookup that adds, removes, substitutes or duplicates an address, if checked before the timeout, ends the wait successfully right there |
| Dns.ChangedAnswerExample | waitfor.go:241-261 | answers {A,B,C}, {A,B,C}, {D,E,F} succeed at the second re-lookup |
| Dns.PermutedAnswersExample | waitfor.go:241-261 | answers that permute A, B and C time out |
| Orchestrator.FirstUnknown | waitfor.go:96-100 | finds the first target, in range order, whose type has no waiter; if none is found, every type has one |
| Orchestrator.NoFirstUnknownIsAllKnown | waitfor.go:96-100 | the range finds no target of an unknown type exactly when every target's type has a waiter |
| Orchestrator.FirstUnknownIsReported | waitfor.go:96-100 | the error built for the first unknown target found is the unknown-type error of the first target, in range order, whose type has no waiter |
| Orchestrator.CollectFrom | waitfor.go:113-118 | from the i-th loop to finish on: success exactly when every later loop succeeded; otherwise the error of the first of them to fail |
| Orchestrator.Collect | waitfor.go:113-118 | success exactly when every loop succeeded; otherwise the error of the first loop to finish with one |
| Orchestrator.WaitOnTargets | waitfor.go:93-119 | an unknown type fails with "unknown target type <type>" for the first such target visited; otherwise success exactly when every target's retry loop, run with the waiter of its type, succeeds, and any failure is one of those loops' errors |
| Orchestrator.CollectOfLoops | waitfor.go:105-118 | when every type has a waiter, collecting the loops' errors succeeds exactly when every loop did, and otherwise reports one loop's error |
| Orchestrator.AddMissing | waitfor.go:46-53 | the adding loop keeps the default timeout and every configured descriptor |
| Orchestrator.AddMissingStep | waitfor.go:46-53 | a first name that is configured or parseable is skipped or added, and afterwards only that name has changed whether it is unparseable |
| Orchestrator.AddMissingSucceedsIffParseable | waitfor.go:46-53 | the loop succeeds exactly when every requested name is configured or parseable |
| Orchestrator.AddMissingFailsOnFirstUnparseable | waitfor.go:46-53 | a failure of the loop carries the parse error of the first requested name that is neither configured nor parseable |
| Orchestrator.SameUnparseableAfterAdding | waitfor.go:46-53 | adding a parseable name leaves whether every other name can be parsed as it was |
| Orchestrator.AddMissingAddsEveryName | waitfor.go:46-53 | on success, the configuration holds the old names and every requested one; each requested name holds its configured descriptor, or its parse if it was not configured |
| Orchestrator.AddThenFilterIsRequested | waitfor.go:46-54 | adding the missing names and then filtering by the request keeps exactly the requested names, each with its configured descriptor, or with its parse if it was not configured |
| Orchestrator.RequestedClocks | waitfor.go:46-55 | clock traces for the requested names, reaching the timeouts those names will be waited with, cover the resolved targets |
| Orchestrator.WaitOn | waitfor.go:44-61 | the first unparseable name fails the call before any waiting; otherwise the result is waitOnTargets on exactly the requested names, the configured descriptor winning over a parse |
| Orchestrator.OnlyFailureIsReported | waitfor.go:105-118 | when exactly one target's loop fails, its error is the result, whatever the range and completion orders |
| Orchestrator.OneTargetIsItsLoop | waitfor.go:96-118 | a single target whose type has a waiter gets exactly its own loop's result |
| Orchestrator.OneTargetIsUnknown | waitfor.go:96-100 | a single target whose type has no waiter fails with the unknown-type error for that type |
| Orchestrator.UnknownTypeExample | waitfor.go:96-100 | a target of type "unknown type" with only a "type" waiter fails with the unknown-type error naming "unknown type" |
| Orchestrator.SelectsCorrectWaiterExample | waitfor.go:96-118 | a t1 target succeeds through the t1 waiter even though the t2 waiter always fails |
| Orchestrator.TwoTargetsLoops | waitfor.go:121-138 | with zero timeouts, the always-succeeding loop succeeds and the always-failing one times out with "an error" |
| Orchestrator.FailsWhenWaiterFailsExample | waitfor.go:93-119 | targets of types t1 (succeeds) and t2 (fails) give "timed out waiting for type 2: an error" in every range and completion order |
| Orchestrator.ParsedTargetWithoutWaiterExample | waitfor.go:44-61 | "http://localhost" parses, then fails with the unknown-type error for "http" when no http waiter is registered |
| Orchestrator.InvalidTargetExample | waitfor.go:46-53 | "localhost" fails with "unable to understand target localhost" |
| Legacy.TcpWait | main.go:150-158 | tcpWait succeeds exactly when the dial reports no error |
| Legacy.HttpWait | main.go:160-175 | httpWait succeeds on a response exactly when its status code is in the 2xx range |
| Legacy.OnTarget | main.go:134-138 | the waiter the loop calls sees only the target string: two descriptors with the same target string are probed alike, whatever their other fields |
| Legacy.Table | main.go:101-110 | the switch knows exactly the types "tcp" and "http" |
| Legacy.TableSelects | main.go:101-110 | "tcp" selects tcpWait and "http" selects httpWait, each probing with the target string only; no other type has a waiter |
| Legacy.WaitOnTargets | main.go:98-129 | a type other than "tcp" or "http" fails with "unknown target type <type>" for the first such target visited; otherwise success exactly when every target's loop with tcpWait or httpWait succeeds, and any failure is one of their errors |
| Legacy.Run | main.go:56-72 | the first requested name that is neither configured nor parseable is returned as an error before any waiting; otherwise only the requested names, resolved, go to the tcp/http dispatcher |
| Legacy.ParsedTypesAreKnown | main.go:101-110 | every target string AddFromString accepts yields a type the switch knows |

## Left out

- Network I/O is not modelled. This covers `net.Dial` in TCPWaiter and tcpWait, `http.Client.Do` in HTTPWaiter and httpWait, `grpc.DialContext` in GRPCWaiter, and the DNS lookup function. Each probe is an abstract outcome. For TCPWaiter and GRPCWaiter that means their "could not connect to <name>: <err>" wrapping (waitfor.go:143, waitfor.go:188) is not modelled, nor is GRPCWaiter's limit of each dial to the target's whole `Timeout` (waitfor.go:179), nor the HTTP clients' own timeouts (`HTTPClientTimeout` at waitfor.go:151-153, one second at main.go:161-163).
- `http.NewRequest` can fail on a URL it cannot parse, and both HTTPWaiter (waitfor.go:154) and httpWait (main.go:164) discard that error and pass the nil request on to `client.Do`. That path is not modelled: every probe of an HTTP target is taken to yield either a response or a transport error.
- `regexp.Compile` and `MatchString` are not modelled. They are a foreign engine, so the model takes them as a parameter.
- `time.Now`, `time.Sleep` and `time.ParseDuration` are replaced by clock sequences. Duration strings are never parsed.
- The goroutines and the errgroup are not modelled, being concurrency. The unspecified range and completion orders are parameters.
- When an unknown type aborts waitOnTargets, the loops already started keep running in Go. Their logs are not modelled.
- The "started waiting for <name>" log line of each goroutine is not modelled.
- YAML decoding in NewConfigFromFile is not modelled, and only the default filling after decoding is. OpenConfig and openConfig (file opening, duration parsing, the HTTP-timeout and regex defaults) are I/O wrappers and are also left out.
- A configuration file with no `targets` key decodes to a nil map in Go. A later AddFromString on it would panic; the model's map is never nil.
- The `flag` handling and `os.Exit` of both commands, the global SupportedWaiters table, and the test harnesses are command-line wiring, not logic.
- The logger formats its output through `log.Printf`. Only the message texts are modelled, as strings.
- Retry.WaitOnSingleTarget: requires a clock trace that eventually reaches the deadline (time passes). A clock that never advances would keep a failing loop spinning forever, and that case is not modelled. Overflow of `time.Time` arithmetic in computing the deadline is not modelled either.
- Retry.Loop: needs the same clock assumption as WaitOnSingleTarget.
- Dns.Wait: requires an answer for every clock reading and a final reading at or past the timeout. This is the same assumption that time passes.
- Dns.Poll: needs the same clock assumption as Dns.Wait.
- Orchestrator.WaitOnTargets: requires a clock trace for every target that reaches its deadline. Which error wins among several failures is decided by the `done` parameter, so the contract only promises that it is one of them.
- Orchestrator.WaitOn: requires such a clock trace for every requested name.
- Orchestrator.WaitOn: Go's WaitOn adds each parsed target straight into the caller's `*Config` (waitfor.go:46-53), so the caller's configuration is changed in place, and when a parse error stops the loop the names parsed before it stay added. The model returns only an `Outcome`, and `AddMissing` discards its partial configuration on failure, so that side effect on the caller's configuration is not modelled.
- Orchestrator.WaitOn: its parse step is the root package's config.go `AddFromString`, standing in for the waitfor package's own (called at waitfor.go:48), which is not part of this model. The contract therefore does not establish the HTTP client timeout or status-pattern defaults of a parsed target, nor which schemes that parser accepts.
- Legacy.WaitOnTargets: requires the same clock traces as Orchestrator.WaitOnTargets.
- Legacy.Run: requires the same clock traces as Orchestrator.WaitOn.
- Legacy.Run: it too adds parsed targets into its configuration in place (main.go:56-63), keeping those parsed before a parse error. That configuration is opened inside `run` (main.go:51), so no caller sees the change, and the model does not return it.
- A `Waiter` answers the k-th probe of a given name and target. State a real waiter might share across targets is not modelled.
