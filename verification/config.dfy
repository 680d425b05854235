/** config.go: target descriptors, the configuration that holds them, and the
    operations that build it (default filling after decoding, parsing of
    command-line target strings, lookup and filtering by name).

    Durations are Go `time.Duration` values: whole nanoseconds.
 */
module Config {
  import opened Errors
  import opened Text

  const Second: int := 1_000_000_000

  /** DefaultTimeout in config.go: five seconds. */
  const DefaultTimeout: int := 5 * Second

  /** One thing to wait for. `kind` is the Go field `Type` ("tcp", "http",
      "grpc", "dns", ...), `target` the address or URL, `timeout` the overall
      retry budget, `httpClientTimeout` the per-request HTTP timeout and
      `regexStatus` the optional status-code pattern ("" means the 2xx check). */
  datatype TargetConfig = TargetConfig(
    kind: string,
    target: string,
    timeout: int,
    httpClientTimeout: int,
    regexStatus: string)

  datatype Config = Config(defaultTimeout: int, targets: map<string, TargetConfig>)

  /** NewConfig: five-second default and no targets. */
  function NewConfig(): (c: Config)
    ensures c.defaultTimeout == 5 * Second
    ensures |c.targets| == 0
  {
    Config(DefaultTimeout, map[])
  }

  /** The default filling NewConfigFromFile applies to a freshly decoded
      configuration: a zero default becomes five seconds, and every target with
      a zero timeout takes the (possibly just filled) default. */
  function FillDefaults(decoded: Config): (c: Config)
    ensures c.defaultTimeout == if decoded.defaultTimeout == 0 then DefaultTimeout else decoded.defaultTimeout
    ensures c.targets.Keys == decoded.targets.Keys
    ensures forall t :: t in c.targets ==>
              c.targets[t].timeout == (if decoded.targets[t].timeout == 0 then c.defaultTimeout else decoded.targets[t].timeout)
              && c.targets[t].(timeout := 0) == decoded.targets[t].(timeout := 0)
  {
    var dt := if decoded.defaultTimeout == 0 then DefaultTimeout else decoded.defaultTimeout;
    var targets := map t | t in decoded.targets ::
      if decoded.targets[t].timeout == 0 then decoded.targets[t].(timeout := dt) else decoded.targets[t];
    Config(dt, targets)
  }

  /** No timeout left unset: the state the retry loop relies on. */
  predicate TimeoutsSet(c: Config) {
    c.defaultTimeout != 0 && forall t :: t in c.targets ==> c.targets[t].timeout != 0
  }

  /** After filling, no target (and not the default) has a zero timeout. */
  lemma FillDefaultsSetsTimeouts(decoded: Config)
    ensures TimeoutsSet(FillDefaults(decoded))
  {
  }

  /** Filling is idempotent, and leaves an already filled configuration alone. */
  lemma FillDefaultsIdempotent(decoded: Config)
    ensures FillDefaults(FillDefaults(decoded)) == FillDefaults(decoded)
    ensures TimeoutsSet(decoded) ==> FillDefaults(decoded) == decoded
  {
    var once := FillDefaults(decoded);
    var twice := FillDefaults(once);
    assert twice.targets == once.targets by {
      forall t | t in once.targets ensures twice.targets[t] == once.targets[t] {
        assert once.targets[t].timeout != 0;
      }
    }
    if TimeoutsSet(decoded) {
      assert once.targets == decoded.targets by {
        forall t | t in decoded.targets ensures once.targets[t] == decoded.targets[t] {
          assert decoded.targets[t].timeout != 0;
          assert once.targets[t].(timeout := 0) == decoded.targets[t].(timeout := 0);
        }
      }
    }
  }

  /** Config.GotTarget */
  predicate GotTarget(c: Config, t: string) {
    t in c.targets
  }

  /** A target string AddFromString understands. */
  predicate KnownScheme(t: string) {
    HasPrefix(t, "tcp:") || HasPrefix(t, "http:") || HasPrefix(t, "https:")
  }

  /** Config.AddFromString: parse a command-line target and store it under the
      string itself. Returns the updated configuration and the error; on error
      the configuration is returned unchanged. Only Type, Target and Timeout
      are set, so the HTTP client timeout and status pattern stay zero. */
  function AddFromString(c: Config, t: string): (r: (Config, Outcome))
    ensures r.1.Pass? <==> KnownScheme(t)
    ensures r.1.Fail? ==> r.0 == c && r.1.error == "unable to understand target " + t
    ensures r.1.Pass? ==>
              && r.0.defaultTimeout == c.defaultTimeout
              && r.0.targets.Keys == c.targets.Keys + {t}
              && (forall k :: k in c.targets && k != t ==> r.0.targets[k] == c.targets[k])
    ensures HasPrefix(t, "tcp:") ==>
              r.0.targets[t] == TargetConfig("tcp", t[4..], c.defaultTimeout, 0, "")
    ensures KnownScheme(t) && !HasPrefix(t, "tcp:") ==>
              r.0.targets[t] == TargetConfig("http", t, c.defaultTimeout, 0, "")
  {
    if HasPrefix(t, "tcp:") then
      ReplaceOncePrefix(t, "tcp:");
      var tc := TargetConfig("tcp", ReplaceOnce(t, "tcp:", ""), c.defaultTimeout, 0, "");
      (c.(targets := c.targets[t := tc]), Pass)
    else if HasPrefix(t, "http:") || HasPrefix(t, "https:") then
      var tc := TargetConfig("http", t, c.defaultTimeout, 0, "");
      (c.(targets := c.targets[t := tc]), Pass)
    else
      (c, Fail("unable to understand target " + t))
  }

  /** The tcp case of config_test.go: "tcp:" is stripped once, and a later "tcp:"
      inside the address stays. */
  lemma AddFromStringTcpExample()
    ensures AddFromString(NewConfig(), "tcp:listener-tcp:9090").0.targets["tcp:listener-tcp:9090"]
              == TargetConfig("tcp", "listener-tcp:9090", 5 * Second, 0, "")
  {
    var t := "tcp:listener-tcp:9090";
    assert t[..4] == "tcp:";
    assert t[4..] == "listener-tcp:9090";
  }

  /** The unknown-scheme case of config_test.go: rejected, with the
      configuration untouched. */
  lemma AddFromStringRejectsExample()
    ensures AddFromString(NewConfig(), "udp:some-listener:9090")
              == (NewConfig(), Fail("unable to understand target " + "udp:some-listener:9090"))
  {
    var u := "udp:some-listener:9090";
    assert u[..4][0] != "tcp:"[0];
    assert u[..5][0] != "http:"[0];
    assert u[..6][0] != "https:"[0];
  }

  /** The command-line spelling of a tcp or http target: the inverse of the
      parse AddFromString performs. */
  function Spelling(tc: TargetConfig): string {
    if tc.kind == "tcp" then "tcp:" + tc.target else tc.target
  }

  /** Whatever AddFromString stores is spelled exactly as the string it was
      parsed from, and is found by GotTarget under that string. */
  lemma AddFromStringRoundTrip(c: Config, t: string)
    requires KnownScheme(t)
    ensures GotTarget(AddFromString(c, t).0, t)
    ensures Spelling(AddFromString(c, t).0.targets[t]) == t
  {
    if HasPrefix(t, "tcp:") {
      assert t == "tcp:" + t[4..];
    } else {
      assert !HasPrefix(t, "tcp:");
      assert t[..4] != "tcp:";
    }
  }

  /** Conversely, spelling a tcp target and parsing it back yields the same
      descriptor, provided it carries the defaults AddFromString fills in. */
  lemma SpellingRoundTrip(c: Config, tc: TargetConfig)
    requires tc.kind == "tcp"
    requires tc.timeout == c.defaultTimeout && tc.httpClientTimeout == 0 && tc.regexStatus == ""
    ensures AddFromString(c, Spelling(tc)) == (c.(targets := c.targets[Spelling(tc) := tc]), Pass)
  {
    var t := Spelling(tc);
    assert t[..4] == "tcp:";
    assert t[4..] == tc.target;
  }

  /** GotTarget after a successful AddFromString: the new key and every old one. */
  lemma GotTargetAfterAdd(c: Config, t: string, k: string)
    requires KnownScheme(t)
    ensures GotTarget(AddFromString(c, t).0, k) <==> GotTarget(c, k) || k == t
  {
  }

  /** Config.Filter: a fresh configuration (five-second default) holding the
      requested names that exist, with their descriptors copied unchanged.
      Names are visited in order, as the Go loop does. */
  function Filter(c: Config, names: seq<string>): (r: Config)
    ensures r.defaultTimeout == DefaultTimeout
    ensures forall k :: k in r.targets <==> k in names && GotTarget(c, k)
    ensures forall k :: k in r.targets ==> k in c.targets && r.targets[k] == c.targets[k]
  {
    if names == [] then NewConfig()
    else
      var init, last := names[..|names| - 1], names[|names| - 1];
      assert names == init + [last];
      var prev := Filter(c, init);
      if GotTarget(c, last) then prev.(targets := prev.targets[last := c.targets[last]]) else prev
  }

  /** Filtering again by the same names changes nothing. */
  lemma FilterIdempotent(c: Config, names: seq<string>)
    ensures Filter(Filter(c, names), names) == Filter(c, names)
  {
    var once := Filter(c, names);
    var twice := Filter(once, names);
    assert twice.targets.Keys == once.targets.Keys;
  }
}
