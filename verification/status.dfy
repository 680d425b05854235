/** The HTTP waiter's verdict on one response (waitfor.go HTTPWaiter, and the
    older httpWait of main.go).

    The request itself is not modelled: its result arrives as a `Response`.
    The regular-expression engine is not modelled either: it is a parameter
    that says whether a pattern compiles (and if not, with which message) and
    whether a compiled pattern matches a string (anywhere in it, as Go's
    MatchString does).
 */
module HttpStatus {
  import opened Errors
  import opened Text
  import opened Config

  /** What `client.Do` produced: a transport error, or a response with a status code. */
  datatype Response = TransportError(reason: string) | Response(statusCode: int)

  /** What `regexp.Compile` produced for a pattern. */
  datatype Compiled = Compiled | Invalid(reason: string)

  datatype RegexEngine = RegexEngine(
    compile: string -> Compiled,
    matchString: (string, string) -> bool)

  /** isSuccess: the 2xx range. */
  function IsSuccess(code: int): (ok: bool)
    ensures ok <==> 200 <= code < 300
  {
    if code < 200 then false
    else if code >= 300 then false
    else true
  }

  /** The status codes waitfor_test.go pins down. */
  lemma IsSuccessExamples()
    ensures IsSuccess(200) && IsSuccess(214)
    ensures !IsSuccess(300) && !IsSuccess(199) && !IsSuccess(100)
    ensures !IsSuccess(500) && !IsSuccess(407)
  {
  }

  /** HTTPWaiter after the request: a transport failure, a pattern that does not
      compile, a code the pattern does not match or a non-2xx code without a
      pattern all fail, with the messages Go formats. */
  function HttpVerdict(name: string, target: TargetConfig, response: Response, engine: RegexEngine): (r: Outcome)
    ensures response.TransportError? ==>
              r == Fail("could not connect to " + name + ": " + response.reason)
    ensures response.Response? && target.regexStatus == [] ==>
              (r.Pass? <==> 200 <= response.statusCode < 300)
    ensures response.Response? && target.regexStatus == [] && r.Fail? ==>
              r.error == "got " + Itoa(response.statusCode) + " from " + name
    ensures response.Response? && target.regexStatus != [] && engine.compile(target.regexStatus).Invalid? ==>
              r == Fail("invalid Regular Expression " + engine.compile(target.regexStatus).reason)
    ensures response.Response? && target.regexStatus != [] && engine.compile(target.regexStatus).Compiled? ==>
              (r.Pass? <==> engine.matchString(target.regexStatus, Itoa(response.statusCode)))
  {
    match response
    case TransportError(e) => Fail("could not connect to " + name + ": " + e)
    case Response(code) =>
      if target.regexStatus != [] then
        match engine.compile(target.regexStatus)
        case Invalid(e) => Fail("invalid Regular Expression " + e)
        case Compiled =>
          if !engine.matchString(target.regexStatus, Itoa(code)) then
            Fail(Itoa(code) + " status Code and " + target.regexStatus + " regex didn't match in " + name)
          else Pass
      else if !IsSuccess(code) then Fail("got " + Itoa(code) + " from " + name)
      else Pass
  }

  /** A pattern that does not compile is a failure whatever the status code. */
  lemma InvalidPatternAlwaysFails(name: string, target: TargetConfig, c1: int, c2: int, engine: RegexEngine)
    requires target.regexStatus != [] && engine.compile(target.regexStatus).Invalid?
    ensures HttpVerdict(name, target, Response(c1), engine).Fail?
    ensures HttpVerdict(name, target, Response(c1), engine) == HttpVerdict(name, target, Response(c2), engine)
  {
  }

  /** The pattern sees exactly the code the server sent: a pattern that
      matches only the decimal form of one code accepts that code and rejects
      every other, because different codes have different decimal forms. */
  lemma PatternSeesExactCode(name: string, target: TargetConfig, c1: int, c2: int, engine: RegexEngine)
    requires target.regexStatus != [] && engine.compile(target.regexStatus).Compiled?
    requires forall s :: engine.matchString(target.regexStatus, s) <==> s == Itoa(c1)
    requires c1 != c2
    ensures HttpVerdict(name, target, Response(c1), engine).Pass?
    ensures HttpVerdict(name, target, Response(c2), engine).Fail?
  {
    if Itoa(c2) == Itoa(c1) {
      ItoaInjective(c1, c2);
    }
  }

  /** A pattern that, among three-character strings, accepts exactly those
      made of a 2 and two digits agrees with isSuccess on every status code
      the protocol allows. What it does on longer or shorter strings does not
      matter, so Go's unanchored `2[0-9]{2}` qualifies as well as the anchored
      form. */
  lemma PatternCanExpressSuccessRange(name: string, target: TargetConfig, code: int, engine: RegexEngine)
    requires 100 <= code <= 999
    requires target.regexStatus != [] && engine.compile(target.regexStatus).Compiled?
    requires forall s :: |s| == 3 ==> (engine.matchString(target.regexStatus, s) <==> s[0] == '2' && '0' <= s[1] <= '9' && '0' <= s[2] <= '9')
    ensures HttpVerdict(name, target, Response(code), engine).Pass? <==> IsSuccess(code)
  {
    ThreeDigits(code);
    var s := Itoa(code);
    assert s[0] == '2' <==> code / 100 == 2;
  }

  /** httpWait in main.go: the request and the 2xx check, with no pattern. */
  function LegacyHttpVerdict(name: string, response: Response): (r: Outcome)
    ensures response.Response? ==> (r.Pass? <==> IsSuccess(response.statusCode))
  {
    match response
    case TransportError(e) => Fail("could not connect to " + name + ": " + e)
    case Response(code) => if !IsSuccess(code) then Fail("got " + Itoa(code) + " from " + name) else Pass
  }

  /** The older waiter is the newer one with an empty status pattern, whatever
      the regex engine. */
  lemma LegacyHttpIsEmptyPattern(name: string, target: TargetConfig, response: Response, engine: RegexEngine)
    requires target.regexStatus == []
    ensures LegacyHttpVerdict(name, response) == HttpVerdict(name, target, response, engine)
  {
  }
}
