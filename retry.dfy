/** The upload retry policies, driven by status codes. Each policy makes at most three
    attempts and sleeps 2^(k-1) seconds before attempt k > 0. A 2xx response succeeds
    and a 4xx response stops at once. The native event upload differs in one way: a 401
    while still on query-parameter auth switches to Bearer auth once, and that still
    uses up an attempt. The response to each attempt is an input: `response(k)`, or
    `response(k, auth)` for the native upload. */
module Retry {
  import opened Sessions

  const MaxRetries: nat := 3
  const BaseDelay: Duration := Second

  function Pow2(n: nat): (p: nat)
    ensures p >= 1
  {
    if n == 0 then 1 else 2 * Pow2(n - 1)
  }

  /** The sleep before attempt `attempt` > 0. */
  function Backoff(attempt: nat): Duration
    requires attempt > 0
  {
    BaseDelay * Pow2(attempt - 1)
  }

  /** The backoff starts at one second and doubles with each retry. */
  lemma BackoffDoubles(attempt: nat)
    requires attempt > 0
    ensures Backoff(1) == Second
    ensures Backoff(attempt + 1) == 2 * Backoff(attempt)
  {
  }

  /** What one attempt got back: no response at all (the request could not be built
      or sent), or an HTTP status code. */
  datatype Response = NoResponse | Status(code: int)

  predicate IsSuccess(code: int) { 200 <= code < 300 }

  predicate IsClientError(code: int) { 400 <= code < 500 }

  /** A response after which the policy tries again. */
  predicate Retryable(r: Response)
  {
    r.NoResponse? || (!IsSuccess(r.code) && !IsClientError(r.code))
  }

  datatype Auth = QueryParam | Bearer

  /** How an upload ended: submitted on attempt `attempts` with `auth`, refused with a
      client error on attempt `attempts`, or given up after every attempt, reporting
      the last attempt's response. */
  datatype Outcome =
    | Submitted(attempts: nat, auth: Auth)
    | Rejected(code: int, attempts: nat)
    | GaveUp(last: Response)

  /** The number of attempts made. */
  function AttemptsOf(o: Outcome): nat
  {
    match o
    case Submitted(n, _) => n
    case Rejected(_, n) => n
    case GaveUp(_) => MaxRetries
  }

  // ---- Legacy offline-time upload ----

  /** The legacy policy from attempt `attempt` on, with `last` the last response seen. */
  function LegacyFrom(response: nat -> Response, attempt: nat, last: Response): (o: Outcome)
    ensures attempt < MaxRetries ==> attempt < AttemptsOf(o) <= MaxRetries
    ensures attempt >= MaxRetries ==> o == GaveUp(last)
    decreases MaxRetries - attempt
  {
    if attempt >= MaxRetries then GaveUp(last)
    else match response(attempt)
      case NoResponse => LegacyFrom(response, attempt + 1, NoResponse)
      case Status(c) =>
        if IsSuccess(c) then Submitted(attempt + 1, QueryParam)
        else if IsClientError(c) then Rejected(c, attempt + 1)
        else LegacyFrom(response, attempt + 1, Status(c))
  }

  /** The legacy policy from the first attempt; the initial `last` is never reported,
      since at least one attempt is made. */
  function LegacyOutcome(response: nat -> Response): Outcome
  {
    LegacyFrom(response, 0, NoResponse)
  }

  /** The sleeps made before the attempts after the first. */
  predicate SleptBackoffs(delays: seq<Duration>, attempts: nat)
  {
    |delays| + 1 == attempts && forall i :: 0 <= i < |delays| ==> delays[i] == Backoff(i + 1)
  }

  /** submitToRescueTime: try up to three times with backoff; 2xx succeeds, 4xx stops. */
  method SubmitLegacy(response: nat -> Response) returns (outcome: Outcome, delays: seq<Duration>)
    ensures outcome == LegacyOutcome(response)
    ensures SleptBackoffs(delays, AttemptsOf(outcome))
  {
    var attempt: nat := 0;
    var last := NoResponse;
    delays := [];
    while attempt < MaxRetries
      invariant attempt <= MaxRetries
      invariant LegacyFrom(response, attempt, last) == LegacyOutcome(response)
      invariant attempt == 0 ==> delays == []
      invariant attempt > 0 ==> SleptBackoffs(delays, attempt)
    {
      if attempt > 0 {
        delays := delays + [BaseDelay * Pow2(attempt - 1)];
      }
      var r := response(attempt);
      if r.NoResponse? {
        last := r;
        attempt := attempt + 1;
        continue;
      }
      if IsSuccess(r.code) {
        return Submitted(attempt + 1, QueryParam), delays;
      }
      last := r;
      if IsClientError(r.code) {
        return Rejected(r.code, attempt + 1), delays;
      }
      attempt := attempt + 1;
    }
    outcome := GaveUp(last);
  }

  /** Every legacy outcome is explained by the responses: a submission or a client
      error on attempt n comes after n - 1 retryable responses; giving up means all
      three responses were retryable, and the one reported is the last. */
  lemma {:induction false} LegacyFromExplained(response: nat -> Response, attempt: nat, last: Response)
    requires attempt <= MaxRetries
    ensures var o := LegacyFrom(response, attempt, last);
      && (attempt < MaxRetries ==> attempt < AttemptsOf(o) <= MaxRetries)
      && (attempt == MaxRetries ==> o == GaveUp(last))
      && (forall j :: attempt <= j < AttemptsOf(o) - 1 ==> Retryable(response(j)))
      && (o.Submitted? ==> o.auth == QueryParam && response(o.attempts - 1).Status?
                           && IsSuccess(response(o.attempts - 1).code))
      && (o.Rejected? ==> response(o.attempts - 1) == Status(o.code) && IsClientError(o.code))
      && (o.GaveUp? && attempt < MaxRetries ==>
            Retryable(response(MaxRetries - 1)) && o.last == response(MaxRetries - 1))
    decreases MaxRetries - attempt
  {
    if attempt < MaxRetries {
      var r := response(attempt);
      if Retryable(r) {
        LegacyFromExplained(response, attempt + 1, r);
      }
    }
  }

  lemma LegacyOutcomeExplained(response: nat -> Response)
    ensures var o := LegacyOutcome(response);
      && 1 <= AttemptsOf(o) <= MaxRetries
      && (forall j :: 0 <= j < AttemptsOf(o) - 1 ==> Retryable(response(j)))
      && (o.Submitted? ==> response(o.attempts - 1).Status? && IsSuccess(response(o.attempts - 1).code))
      && (o.Rejected? ==> response(o.attempts - 1) == Status(o.code) && IsClientError(o.code))
      && (o.GaveUp? ==> Retryable(response(MaxRetries - 1)) && o.last == response(MaxRetries - 1))
  {
    LegacyFromExplained(response, 0, NoResponse);
  }

  // ---- Native user_client_events upload ----

  /** The native policy from attempt `attempt` on, authenticating with `auth`. */
  function NativeFrom(response: (nat, Auth) -> Response, attempt: nat, auth: Auth, last: Response): (o: Outcome)
    ensures attempt < MaxRetries ==> attempt < AttemptsOf(o) <= MaxRetries
    ensures attempt >= MaxRetries ==> o == GaveUp(last)
    decreases MaxRetries - attempt
  {
    if attempt >= MaxRetries then GaveUp(last)
    else match response(attempt, auth)
      case NoResponse => NativeFrom(response, attempt + 1, auth, NoResponse)
      case Status(c) =>
        if IsSuccess(c) then Submitted(attempt + 1, auth)
        else if c == 401 && auth == QueryParam then NativeFrom(response, attempt + 1, Bearer, Status(c))
        else if IsClientError(c) then Rejected(c, attempt + 1)
        else NativeFrom(response, attempt + 1, auth, Status(c))
  }

  function NativeOutcome(response: (nat, Auth) -> Response): Outcome
  {
    NativeFrom(response, 0, QueryParam, NoResponse)
  }

  /** submitUserClientEvent: like the legacy policy, except that a 401 on query
      parameter auth switches to Bearer auth for the remaining attempts. */
  method SubmitNative(response: (nat, Auth) -> Response) returns (outcome: Outcome, delays: seq<Duration>)
    ensures outcome == NativeOutcome(response)
    ensures SleptBackoffs(delays, AttemptsOf(outcome))
  {
    var attempt: nat := 0;
    var last := NoResponse;
    var tryBearerAuth := false;
    delays := [];
    while attempt < MaxRetries
      invariant attempt <= MaxRetries
      invariant NativeFrom(response, attempt, if tryBearerAuth then Bearer else QueryParam, last)
                == NativeOutcome(response)
      invariant attempt == 0 ==> delays == []
      invariant attempt > 0 ==> SleptBackoffs(delays, attempt)
    {
      if attempt > 0 {
        delays := delays + [BaseDelay * Pow2(attempt - 1)];
      }
      var auth := if tryBearerAuth then Bearer else QueryParam;
      var r := response(attempt, auth);
      if r.NoResponse? {
        last := r;
        attempt := attempt + 1;
        continue;
      }
      if IsSuccess(r.code) {
        return Submitted(attempt + 1, auth), delays;
      }
      last := r;
      if r.code == 401 && !tryBearerAuth {
        tryBearerAuth := true;
        attempt := attempt + 1;
        continue;
      }
      if IsClientError(r.code) {
        return Rejected(r.code, attempt + 1), delays;
      }
      attempt := attempt + 1;
    }
    outcome := GaveUp(last);
  }

  /** The query-parameter responses of a native upload, seen as a legacy upload. */
  function QueryResponses(response: (nat, Auth) -> Response): nat -> Response
  {
    (k: nat) => response(k, QueryParam)
  }

  /** Without a 401 on query-parameter auth, the native policy decides exactly as the
      legacy one does. */
  lemma {:induction false} NativeWithout401IsLegacy(response: (nat, Auth) -> Response, attempt: nat, last: Response)
    requires forall k :: attempt <= k < MaxRetries ==> response(k, QueryParam) != Status(401)
    ensures NativeFrom(response, attempt, QueryParam, last) == LegacyFrom(QueryResponses(response), attempt, last)
    decreases MaxRetries - attempt
  {
    if attempt < MaxRetries {
      var r := response(attempt, QueryParam);
      assert QueryResponses(response)(attempt) == r;
      NativeWithout401IsLegacy(response, attempt + 1, r);
    }
  }

  /** The first 401 on query-parameter auth, after only retryable responses, switches
      the rest of the upload to Bearer auth from the next attempt on; the attempt that
      got the 401 counts. */
  lemma {:induction false} NativeSwitchesToBearer(response: (nat, Auth) -> Response, k: nat, attempt: nat, last: Response)
    requires attempt <= k < MaxRetries
    requires response(k, QueryParam) == Status(401)
    requires forall j :: attempt <= j < k ==> Retryable(response(j, QueryParam))
    ensures NativeFrom(response, attempt, QueryParam, last) == NativeFrom(response, k + 1, Bearer, Status(401))
    decreases k - attempt
  {
    if attempt < k {
      NativeSwitchesToBearer(response, k, attempt + 1, response(attempt, QueryParam));
    }
  }

  /** Once on Bearer auth the policy never switches back, and a 401 there is final. */
  lemma {:induction false} BearerIsFinal(response: (nat, Auth) -> Response, attempt: nat, last: Response)
    ensures var o := NativeFrom(response, attempt, Bearer, last);
      o.Submitted? ==> o.auth == Bearer
    ensures attempt < MaxRetries && response(attempt, Bearer) == Status(401) ==>
      NativeFrom(response, attempt, Bearer, last) == Rejected(401, attempt + 1)
    decreases MaxRetries - attempt
  {
    if attempt < MaxRetries {
      BearerIsFinal(response, attempt + 1, response(attempt, Bearer));
    }
  }

  /** A native upload submitted with Bearer auth got a 401 on query-parameter auth at
      an earlier attempt. */
  lemma {:induction false} BearerOnlyAfter401(response: (nat, Auth) -> Response, attempt: nat, last: Response)
    requires NativeFrom(response, attempt, QueryParam, last).Submitted?
    requires NativeFrom(response, attempt, QueryParam, last).auth == Bearer
    ensures exists j :: attempt <= j < NativeFrom(response, attempt, QueryParam, last).attempts - 1
                        && response(j, QueryParam) == Status(401)
    decreases MaxRetries - attempt
  {
    var o := NativeFrom(response, attempt, QueryParam, last);
    var r := response(attempt, QueryParam);
    if r == Status(401) {
      BearerIsFinal(response, attempt + 1, r);
    } else {
      BearerOnlyAfter401(response, attempt + 1, r);
    }
  }

  /** Whether a response on `auth` makes the native policy switch to Bearer auth. */
  predicate SwitchesAuth(auth: Auth, r: Response)
  {
    auth == QueryParam && r == Status(401)
  }

  /** Whether the native policy goes on to another attempt after `r` on `auth`. */
  predicate Continues(auth: Auth, r: Response)
  {
    Retryable(r) || SwitchesAuth(auth, r)
  }

  /** The auth the native policy uses at attempt `j`, having started at attempt
      `attempt` with `auth`. */
  function AuthAt(response: (nat, Auth) -> Response, attempt: nat, auth: Auth, j: nat): Auth
    decreases j - attempt
  {
    if j <= attempt then auth
    else
      var r := response(attempt, auth);
      AuthAt(response, attempt + 1, if SwitchesAuth(auth, r) then Bearer else auth, j)
  }

  /** Every native outcome is explained by the responses, each read on the auth in
      use at its attempt: the attempts before the last were retryable or a 401 on
      query-parameter auth; a submission is a 2xx on the auth reported; a rejection
      is a 4xx other than a 401 on query-parameter auth; giving up means the third
      response let the policy go on, and it is the one reported. */
  lemma {:induction false} NativeFromExplained(response: (nat, Auth) -> Response, attempt: nat, auth: Auth, last: Response)
    requires attempt <= MaxRetries
    ensures var o := NativeFrom(response, attempt, auth, last);
      && (forall j: nat :: attempt <= j < AttemptsOf(o) - 1 ==>
            Continues(AuthAt(response, attempt, auth, j), response(j, AuthAt(response, attempt, auth, j))))
      && (o.Submitted? ==> o.auth == AuthAt(response, attempt, auth, o.attempts - 1)
                           && response(o.attempts - 1, o.auth).Status?
                           && IsSuccess(response(o.attempts - 1, o.auth).code))
      && (o.Rejected? ==>
            var a := AuthAt(response, attempt, auth, o.attempts - 1);
            response(o.attempts - 1, a) == Status(o.code) && IsClientError(o.code)
            && !SwitchesAuth(a, Status(o.code)))
      && (o.GaveUp? && attempt < MaxRetries ==>
            var a := AuthAt(response, attempt, auth, MaxRetries - 1);
            Continues(a, response(MaxRetries - 1, a)) && o.last == response(MaxRetries - 1, a))
    decreases MaxRetries - attempt
  {
    if attempt < MaxRetries {
      var r := response(attempt, auth);
      var next := if SwitchesAuth(auth, r) then Bearer else auth;
      if Continues(auth, r) {
        NativeFromExplained(response, attempt + 1, next, r);
        assert forall j: nat :: j > attempt ==> AuthAt(response, attempt, auth, j) == AuthAt(response, attempt + 1, next, j);
      }
    }
  }

  /** From the first attempt: the native upload runs on query-parameter auth until a
      401 there, and on Bearer auth from the attempt after it. */
  lemma {:induction false} AuthAtSwitched(response: (nat, Auth) -> Response, attempt: nat, j: nat)
    ensures AuthAt(response, attempt, QueryParam, j) == Bearer
        <==> exists k: nat :: attempt <= k < j && response(k, QueryParam) == Status(401)
    decreases j - attempt
  {
    if j > attempt {
      var r := response(attempt, QueryParam);
      if r == Status(401) {
        BearerStays(response, attempt + 1, j);
      } else {
        AuthAtSwitched(response, attempt + 1, j);
        if exists k: nat :: attempt <= k < j && response(k, QueryParam) == Status(401) {
          var k: nat :| attempt <= k < j && response(k, QueryParam) == Status(401);
          assert k != attempt;
        }
      }
    }
  }

  /** Bearer auth, once in use, stays in use. */
  lemma {:induction false} BearerStays(response: (nat, Auth) -> Response, attempt: nat, j: nat)
    ensures AuthAt(response, attempt, Bearer, j) == Bearer
    decreases j - attempt
  {
    if j > attempt {
      BearerStays(response, attempt + 1, j);
    }
  }
}
