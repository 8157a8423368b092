/** Middlewares around a request: layering, retries, circuit breakers and timeouts, as runs over a scripted server. */
module Resilience {
  import opened Decimal
  import opened Sequences
  import opened Values

  datatype Error =
    | HttpError(status: nat)
    | OtherError
    | TimedOut(uri: string, milliseconds: int)
    | BreakerOpen
    | RequestFailed(status: nat)

  datatype Result = Resolved(value: Value) | Rejected(error: Error)

  /** `error?.response?.status` is truthy, and its text starts with a 4. */
  predicate IsClientError(e: Error) {
    e.HttpError? && e.status != 0 && Print(e.status)[0] == '4'
  }

  /** For statuses of three digits these are the ones from 400 to 499, and no other error is a client error. */
  lemma ClientErrorExactly(e: Error)
    requires e.HttpError? ==> 100 <= e.status <= 999
    ensures IsClientError(e) <==> e.HttpError? && 400 <= e.status < 500
  {
    if e.HttpError? {
      var tens := e.status / 10;
      assert Print(e.status) == Print(tens) + [DigitChar(e.status % 10)];
      assert Print(tens) == Print(tens / 10) + [DigitChar(tens % 10)];
      assert Print(tens / 10) == [DigitChar(tens / 10)];
      assert DigitValue(Print(e.status)[0]) == e.status / 100;
      assert DigitValue('4') == 4;
    }
  }

  predicate IsRetried(r: Result) {
    r.Rejected? && !IsClientError(r.error)
  }

  /** How a breaker's attempt ended: the breaker counts successes and failures, and what it refused to start. */
  datatype Event = Succeeded | Failed | Refused

  /** The calls that reached the server, with their arguments, and the breakers created so far with their histories. */
  datatype World = World(calls: seq<Value>, breakers: map<string, seq<Event>>)

  /** What a call gives, how long it takes, and whether it comes first when a timer goes off at the same moment. */
  datatype Answer = Answer(result: Result, ticks: nat, early: bool, world: World)

  type Fn = (Value, World) -> Answer

  datatype Context = Context(uri: string, tenantId: Option<string>)

  type Middleware = (Context, Fn) -> Fn

  // ---- Layers ----

  /** The middlewares around the function: the first one is the outermost. */
  function AddMiddlewares(middlewares: seq<Middleware>, context: Context, fn: Fn): Fn {
    if middlewares == [] then fn
    else middlewares[0](context, AddMiddlewares(middlewares[1..], context, fn))
  }

  function Execute(middlewares: Option<seq<Middleware>>, context: Context, fn: Fn, argument: Value, w: World): Answer {
    if middlewares.None? || middlewares.value == [] then fn(argument, w)
    else AddMiddlewares(middlewares.value, context, fn)(argument, w)
  }

  lemma {:induction false} LayersCompose(outer: seq<Middleware>, inner: seq<Middleware>, context: Context, fn: Fn)
    ensures AddMiddlewares(outer + inner, context, fn) ==
            AddMiddlewares(outer, context, AddMiddlewares(inner, context, fn))
    decreases |outer|
  {
    if outer == [] {
      assert outer + inner == inner;
    } else {
      LayersCompose(outer[1..], inner, context, fn);
      assert (outer + inner)[1..] == outer[1..] + inner;
    }
  }

  /** Executing two lists of middlewares in a row is executing the first around the second. */
  lemma ExecuteComposes(
    outer: seq<Middleware>, inner: seq<Middleware>, context: Context, fn: Fn, argument: Value, w: World)
    ensures Execute(Some(outer + inner), context, fn, argument, w) ==
            Execute(Some(outer), context, AddMiddlewares(inner, context, fn), argument, w)
  {
    LayersCompose(outer, inner, context, fn);
  }

  // ---- The middlewares ----

  /** The retry library: which error it reports in the end, and how long it waits before each new attempt. */
  datatype RetryLibrary = RetryLibrary(report: seq<Error> -> Error, delay: nat -> nat)

  /** Attempts until one succeeds, fails for good, or none is left; `errors` are those of the earlier attempts. */
  function Attempt(library: RetryLibrary, retries: nat, fn: Fn, argument: Value, w: World, errors: seq<Error>): Answer
    decreases retries
  {
    var a := fn(argument, w);
    match a.result
    case Resolved(_) => a
    case Rejected(error) =>
      if IsClientError(error) then a.(result := Rejected(RequestFailed(error.status)))
      else if retries == 0 then a.(result := Rejected(library.report(errors + [error])))
      else
        var next := Attempt(library, retries - 1, fn, argument, a.world, errors + [error]);
        next.(ticks := a.ticks + library.delay(|errors|) + next.ticks)
  }

  function Retry(library: RetryLibrary, retries: nat): Middleware {
    (context: Context, fn: Fn) => (argument: Value, w: World) => Attempt(library, retries, fn, argument, w, [])
  }

  /** Whether a request that takes this long is settled before the timer goes off. */
  predicate InTime(ticks: nat, early: bool, milliseconds: nat) {
    ticks < milliseconds || (ticks == milliseconds && early)
  }

  /** The answer, or the timer's error. */
  function TimedAnswer(a: Answer, uri: string, milliseconds: nat): Answer {
    if InTime(a.ticks, a.early, milliseconds) then a
    else Answer(Rejected(TimedOut(uri, milliseconds)), milliseconds, false, a.world)
  }

  function Timeout(milliseconds: nat): Middleware {
    (context: Context, fn: Fn) => (argument: Value, w: World) => TimedAnswer(fn(argument, w), context.uri, milliseconds)
  }

  /** A request without a tenant has the key of the tenant called tenant_id. */
  function Tenant(context: Context): string {
    if context.tenantId.Some? then context.tenantId.value else "tenant_id"
  }

  function BreakerKey(context: Context): string {
    context.uri + "::" + Tenant(context)
  }

  function History(w: World, key: string): seq<Event> {
    if key in w.breakers then w.breakers[key] else []
  }

  function Recorded(w: World, key: string, event: Event): World {
    w.(breakers := w.breakers[key := History(w, key) + [event]])
  }

  /** Whether the breaker library starts an attempt, given what the breaker has seen and when it is asked. */
  type Policy = (seq<Event>, nat) -> bool

  /** What the breaker makes of an outcome: errors that the filter accepts count as successes. */
  function EventOf(r: Result): Event {
    if r.Rejected? && !IsClientError(r.error) then Failed else Succeeded
  }

  function CircuitBreaker(admits: Policy): Middleware {
    (context: Context, fn: Fn) => (argument: Value, w: World) =>
      var key := BreakerKey(context);
      if !admits(History(w, key), |History(w, key)| + |w.calls|) then
        Answer(Rejected(BreakerOpen), 0, false, Recorded(w, key, Refused))
      else
        var a := fn(argument, w);
        a.(world := Recorded(a.world, key, EventOf(a.result)))
  }

  // ---- The stack of middlewares ----

  datatype Setting = Missing | Unset | Flag(on: bool) | Amount(n: int)

  datatype Options = Options(retry: Setting, timeout: Setting, circuitBreaker: Setting)

  /** `{ ...defaults, ...options }`: an option that is given as undefined replaces the default. */
  function OrDefault(setting: Setting, default: Setting): Setting {
    if setting.Missing? then default else setting
  }

  predicate IsOn(setting: Setting) {
    match setting
    case Flag(on) => on
    case Amount(n) => n != 0
    case _ => false
  }

  const DEFAULT_RETRIES := 3
  const DEFAULT_TIMEOUT := 10000

  /** The number of retries, if there is to be a retry middleware; a negative number is refused. */
  function Retries(options: Options): Outcome<Option<nat>> {
    match OrDefault(options.retry, Flag(false))
    case Amount(n) => if n < 0 then Thrown else Ok(Some(n))
    case setting => Ok(if IsOn(setting) then Some(DEFAULT_RETRIES) else None)
  }

  function Milliseconds(options: Options): Outcome<Option<nat>> {
    match OrDefault(options.timeout, Flag(true))
    case Amount(n) => if n <= 0 then Thrown else Ok(Some(n))
    case setting => Ok(if IsOn(setting) then Some(DEFAULT_TIMEOUT) else None)
  }

  predicate HasBreaker(options: Options) {
    IsOn(OrDefault(options.circuitBreaker, Flag(true)))
  }

  /** The stack that the options ask for, outermost first: retry, circuit breaker, timeout. */
  function Stack(library: RetryLibrary, admits: Policy, options: Options): Outcome<seq<Middleware>> {
    var retries :- Retries(options);
    var milliseconds :- Milliseconds(options);
    Ok((if retries.Some? then [Retry(library, retries.value)] else [])
       + (if HasBreaker(options) then [CircuitBreaker(admits)] else [])
       + (if milliseconds.Some? then [Timeout(milliseconds.value)] else []))
  }

  /**
   The stack setting by setting: no retries, a breaker and ten seconds unless the options say otherwise, and an option
   that is given as undefined switches its middleware off.
   */
  lemma StackExactly(library: RetryLibrary, admits: Policy, options: Options)
    ensures Stack(library, admits, options).Thrown? <==>
            (options.retry.Amount? && options.retry.n < 0) || (options.timeout.Amount? && options.timeout.n <= 0)
    ensures Stack(library, admits, options).Ok? ==>
              var retry := match options.retry
                case Amount(n) => [Retry(library, n)]
                case Flag(true) => [Retry(library, 3)]
                case _ => [];
              var breaker := match options.circuitBreaker
                case Unset => []
                case Flag(false) => []
                case Amount(0) => []
                case _ => [CircuitBreaker(admits)];
              var timeout := match options.timeout
                case Amount(n) => [Timeout(n)]
                case Missing => [Timeout(10000)]
                case Flag(true) => [Timeout(10000)]
                case _ => [];
              Stack(library, admits, options) == Ok(retry + breaker + timeout)
  {
  }

  /** Builds the list of middlewares by pushing onto it, branch by branch. */
  method BuildStack(library: RetryLibrary, admits: Policy, options: Options) returns (r: Outcome<seq<Middleware>>)
    ensures r == Stack(library, admits, options)
  {
    var retry := OrDefault(options.retry, Flag(false));
    var timeout := OrDefault(options.timeout, Flag(true));
    var middlewares: seq<Middleware> := [];
    if retry.Amount? {
      if retry.n < 0 { return Thrown; }
      middlewares := middlewares + [Retry(library, retry.n)];
    } else if IsOn(retry) {
      middlewares := middlewares + [Retry(library, DEFAULT_RETRIES)];
    }
    if IsOn(OrDefault(options.circuitBreaker, Flag(true))) {
      middlewares := middlewares + [CircuitBreaker(admits)];
    }
    if timeout.Amount? {
      if timeout.n <= 0 { return Thrown; }
      middlewares := middlewares + [Timeout(timeout.n)];
    } else if IsOn(timeout) {
      middlewares := middlewares + [Timeout(DEFAULT_TIMEOUT)];
    }
    assert middlewares == Stack(library, admits, options).value;
    return Ok(middlewares);
  }

  // ---- Runs ----

  datatype Reply = Reply(result: Result, ticks: nat, early: bool)

  /** The function that sends the request: the n-th call that reaches the server gets the n-th reply. */
  function Server(script: nat -> Reply): Fn {
    (argument: Value, w: World) =>
      var reply := script(|w.calls|);
      Answer(reply.result, reply.ticks, reply.early, w.(calls := w.calls + [argument]))
  }

  /** A request with its resilience options; without a retry middleware there is one attempt. */
  datatype Setup = Setup(context: Context, argument: Value, script: nat -> Reply, admits: Policy, options: Options) {
    function Key(): string { BreakerKey(context) }

    /** The outcome of the n-th call as the breaker and the retry see it: after the timeout. */
    function Seen(n: nat): Result {
      var reply := script(n);
      var limit := Milliseconds(options);
      if limit.Thrown? || limit.value.None? || InTime(reply.ticks, reply.early, limit.value.value) then reply.result
      else Rejected(TimedOut(context.uri, limit.value.value))
    }

    /** How long the n-th call takes: no longer than the timeout. */
    function Takes(n: nat): nat {
      var ticks, limit := script(n).ticks, Milliseconds(options);
      if limit.Ok? && limit.value.Some? && ticks > limit.value.value then limit.value.value else ticks
    }

    predicate Wraps() { Retries(options).Ok? && Retries(options).value.Some? }

    function MaxAttempts(): nat {
      var retries := Retries(options);
      if retries.Thrown? || retries.value.None? then 1 else retries.value.value + 1
    }
  }

  /** The events of the attempts that were started. */
  function Started(es: seq<Event>): (r: seq<Event>)
    ensures |r| <= |es| && Refused !in r
  {
    if es == [] then []
    else (if es[0] == Refused then [] else [es[0]]) + Started(es[1..])
  }

  /** The calls made between two worlds, all with the argument of the request. */
  ghost predicate MakesCalls(setup: Setup, w: World, after: World, count: nat) {
    && w.calls <= after.calls && |after.calls| == |w.calls| + count
    && forall i | |w.calls| <= i < |after.calls| :: after.calls[i] == setup.argument
  }

  /** The events are what the breaker makes of the calls from the given one on. */
  ghost predicate AreOutcomes(setup: Setup, events: seq<Event>, from: nat) {
    forall i | 0 <= i < |events| :: events[i] == EventOf(setup.Seen(from + i))
  }

  /** Only the breaker of the request records, and only if there is one. */
  ghost predicate Records(setup: Setup, es: seq<Event>, w: World, after: World) {
    && (forall key | key != setup.Key() || !HasBreaker(setup.options) :: History(after, key) == History(w, key))
    && (HasBreaker(setup.options) ==> History(after, setup.Key()) == History(w, setup.Key()) + es)
    && (!HasBreaker(setup.options) ==> Started(es) == es)
  }

  /**
   The result is that of the last attempt, a client error wrapped by the retry, and fewer attempts than allowed are made
   only if the last one settles it.
   */
  ghost predicate EndsWith(setup: Setup, wrapped: bool, attempts: nat, es: seq<Event>, from: nat, calls: nat,
                           result: Result)
    requires es != []
  {
    && (es[|es| - 1] == Refused ==> result.Rejected? && |es| == attempts)
    && (es[|es| - 1] != Refused ==>
          && from < calls
          && (result.Resolved? <==> setup.Seen(calls - 1).Resolved?)
          && (result.Resolved? ==> result == setup.Seen(calls - 1))
          && (setup.Seen(calls - 1).Rejected? && IsClientError(setup.Seen(calls - 1).error) ==>
                result == if wrapped then Rejected(RequestFailed(setup.Seen(calls - 1).error.status))
                          else setup.Seen(calls - 1))
          && (|es| < attempts ==> !IsRetried(setup.Seen(calls - 1))))
  }

  /** Every call from the given one on fails in a way that is worth a new attempt, up to the last attempt. */
  ghost predicate RetriedUntilLast(setup: Setup, es: seq<Event>, from: nat, calls: nat)
    requires es != []
  {
    forall i | from <= i < calls && (i < calls - 1 || es[|es| - 1] == Refused) :: IsRetried(setup.Seen(i))
  }

  /**
   The attempts of a run, one event each, and all that they did: which calls were made, what the breaker recorded, why
   the run ended and what came out of it.
   */
  ghost predicate IsRun(setup: Setup, wrapped: bool, attempts: nat, es: seq<Event>, w: World, after: World,
                        result: Result)
  {
    && 1 <= |es| <= attempts
    && MakesCalls(setup, w, after, |Started(es)|)
    && AreOutcomes(setup, Started(es), |w.calls|)
    && Records(setup, es, w, after)
    && RetriedUntilLast(setup, es, |w.calls|, |after.calls|)
    && EndsWith(setup, wrapped, attempts, es, |w.calls|, |after.calls|, result)
  }

  /** The time that the attempts take, without the waiting in between. */
  function TicksOf(setup: Setup, es: seq<Event>, from: nat): nat {
    if es == [] then 0
    else if es[0] == Refused then TicksOf(setup, es[1..], from)
    else setup.Takes(from) + TicksOf(setup, es[1..], from + 1)
  }

  /** The errors of failed attempts, in order. */
  function ErrorsOf(setup: Setup, es: seq<Event>, from: nat): seq<Error> {
    if es == [] then []
    else if es[0] == Refused then [BreakerOpen] + ErrorsOf(setup, es[1..], from)
    else
      (if setup.Seen(from).Rejected? then [setup.Seen(from).error] else []) + ErrorsOf(setup, es[1..], from + 1)
  }

  /** The waiting before each of some attempts that follow a number of failed ones. */
  function Delays(library: RetryLibrary, failed: nat, attempts: nat): nat
    decreases attempts
  {
    if attempts == 0 then 0 else library.delay(failed) + Delays(library, failed + 1, attempts - 1)
  }

  /** An attempt is refused exactly if there is a breaker that does not admit it, given what it has recorded by then. */
  ghost predicate RefusedRightly(setup: Setup, es: seq<Event>, h: seq<Event>, calls: nat) {
    es == [] ||
    (&& (es[0] == Refused <==> HasBreaker(setup.options) && !setup.admits(h, |h| + calls))
     && RefusedRightly(setup, es[1..], if HasBreaker(setup.options) then h + [es[0]] else h,
                       if es[0] == Refused then calls else calls + 1))
  }

  /**
   Besides: which attempts are refused, how long all takes with the waiting in between, and if the last attempt fails,
   that the error is the one the library reports of all of them, or without retries the error itself.
   */
  ghost predicate IsAnswered(setup: Setup, library: RetryLibrary, wrapped: bool, errors: seq<Error>, es: seq<Event>,
                             w: World, a: Answer)
  {
    && es != []
    && RefusedRightly(setup, es, History(w, setup.Key()), |w.calls|)
    && a.ticks == TicksOf(setup, es, |w.calls|) + Delays(library, |errors|, |es| - 1)
    && var fails := es[|es| - 1] == Refused || (a.world.calls != [] && IsRetried(setup.Seen(|a.world.calls| - 1)));
       fails ==>
         var all := errors + ErrorsOf(setup, es, |w.calls|);
         all != [] && a.result == Rejected(if wrapped then library.report(all) else all[|all| - 1])
  }

  function TimeoutLayer(setup: Setup): seq<Middleware>
    requires Milliseconds(setup.options).Ok?
  {
    var milliseconds := Milliseconds(setup.options).value;
    if milliseconds.Some? then [Timeout(milliseconds.value)] else []
  }

  /** The middlewares below the retry. */
  function Inner(setup: Setup): seq<Middleware>
    requires Milliseconds(setup.options).Ok?
  {
    (if HasBreaker(setup.options) then [CircuitBreaker(setup.admits)] else []) + TimeoutLayer(setup)
  }

  /** A call within its timer. */
  lemma TimedCall(setup: Setup, w: World)
    requires Milliseconds(setup.options).Ok?
    ensures var a := AddMiddlewares(TimeoutLayer(setup), setup.context, Server(setup.script))(setup.argument, w);
            && a.result == setup.Seen(|w.calls|) && a.world == w.(calls := w.calls + [setup.argument])
            && a.ticks == setup.Takes(|w.calls|)
  {
    var layer, server := TimeoutLayer(setup), Server(setup.script);
    if layer != [] {
      assert layer[1..] == [];
      var milliseconds := Milliseconds(setup.options).value.value;
      var timed := Timeout(milliseconds)(setup.context, server);
      assert AddMiddlewares(layer, setup.context, server) == timed;
      assert timed(setup.argument, w) == TimedAnswer(server(setup.argument, w), setup.context.uri, milliseconds);
    }
  }

  /** The attempt is refused by the breaker, or is one call whose outcome is recorded. */
  ghost predicate IsAttempt(setup: Setup, once: Fn, w: World, e: Event) {
    var a := once(setup.argument, w);
    && a.result == (if e == Refused then Rejected(BreakerOpen) else setup.Seen(|w.calls|))
    && IsRun(setup, false, 1, [e], w, a.world, a.result)
    && RefusedRightly(setup, [e], History(w, setup.Key()), |w.calls|)
    && a.ticks == (if e == Refused then 0 else setup.Takes(|w.calls|))
  }

  ghost predicate HasAttempt(setup: Setup, once: Fn, w: World) {
    exists e :: IsAttempt(setup, once, w, e)
  }

  lemma OneAttempt(setup: Setup, w: World)
    requires Milliseconds(setup.options).Ok?
    ensures HasAttempt(setup, AddMiddlewares(Inner(setup), setup.context, Server(setup.script)), w)
  {
    var timed := AddMiddlewares(TimeoutLayer(setup), setup.context, Server(setup.script));
    TimedCall(setup, w);
    if HasBreaker(setup.options) {
      assert Inner(setup)[1..] == TimeoutLayer(setup);
      BreakerAttempt(setup, timed, w);
    } else {
      assert Inner(setup) == TimeoutLayer(setup);
      PlainAttempt(setup, timed, w);
    }
  }

  lemma PlainAttempt(setup: Setup, timed: Fn, w: World)
    requires !HasBreaker(setup.options)
    requires timed(setup.argument, w).result == setup.Seen(|w.calls|)
    requires timed(setup.argument, w).world == w.(calls := w.calls + [setup.argument])
    requires timed(setup.argument, w).ticks == setup.Takes(|w.calls|)
    ensures HasAttempt(setup, timed, w)
  {
    var e := EventOf(setup.Seen(|w.calls|));
    OneEvent(e);
    assert IsAttempt(setup, timed, w, e);
  }

  lemma BreakerAttempt(setup: Setup, timed: Fn, w: World)
    requires HasBreaker(setup.options)
    requires timed(setup.argument, w).result == setup.Seen(|w.calls|)
    requires timed(setup.argument, w).world == w.(calls := w.calls + [setup.argument])
    requires timed(setup.argument, w).ticks == setup.Takes(|w.calls|)
    ensures HasAttempt(setup, CircuitBreaker(setup.admits)(setup.context, timed), w)
  {
    var h := History(w, setup.Key());
    var e := if setup.admits(h, |h| + |w.calls|) then EventOf(setup.Seen(|w.calls|)) else Refused;
    OneRefused(setup, e, h, |w.calls|);
    if e == Refused {
      RefusedRun(setup, w, Recorded(w, setup.Key(), e), Rejected(BreakerOpen));
    } else {
      var called := w.(calls := w.calls + [setup.argument]);
      AdmittedRun(setup, w, Recorded(called, setup.Key(), e), e, setup.Seen(|w.calls|));
    }
    assert IsAttempt(setup, CircuitBreaker(setup.admits)(setup.context, timed), w, e);
  }

  lemma RefusedRun(setup: Setup, w: World, after: World, result: Result)
    requires HasBreaker(setup.options) && after == Recorded(w, setup.Key(), Refused) && result.Rejected?
    ensures IsRun(setup, false, 1, [Refused], w, after, result)
  {
    OneEvent(Refused);
  }

  lemma AdmittedRun(setup: Setup, w: World, after: World, e: Event, result: Result)
    requires HasBreaker(setup.options) && result == setup.Seen(|w.calls|) && e == EventOf(result)
    requires after == Recorded(w.(calls := w.calls + [setup.argument]), setup.Key(), e)
    ensures IsRun(setup, false, 1, [e], w, after, result)
  {
    OneEvent(e);
  }

  lemma OneRefused(setup: Setup, e: Event, h: seq<Event>, calls: nat)
    ensures RefusedRightly(setup, [e], h, calls) <==>
            (e == Refused <==> HasBreaker(setup.options) && !setup.admits(h, |h| + calls))
  {
    assert [e][1..] == [];
  }

  lemma OneEvent(e: Event)
    ensures Started([e]) == if e == Refused then [] else [e]
  {
    assert [e][1..] == [];
  }

  /** The answer comes of a run with these events. */
  ghost predicate IsExplained(setup: Setup, library: RetryLibrary, wrapped: bool, attempts: nat, errors: seq<Error>,
                              es: seq<Event>, w: World, a: Answer)
  {
    IsRun(setup, wrapped, attempts, es, w, a.world, a.result) && IsAnswered(setup, library, wrapped, errors, es, w, a)
  }

  ghost predicate HasRun(setup: Setup, library: RetryLibrary, wrapped: bool, attempts: nat, errors: seq<Error>,
                         w: World, a: Answer)
  {
    exists es :: IsExplained(setup, library, wrapped, attempts, errors, es, w, a)
  }

  /** What the attempts do, up to the given number of retries, is a run. */
  ghost predicate RunsWith(setup: Setup, library: RetryLibrary, retries: nat, once: Fn, w: World, errors: seq<Error>) {
    HasRun(setup, library, true, retries + 1, errors, w, Attempt(library, retries, once, setup.argument, w, errors))
  }

  /** An attempt that settles the run, or after which no other is left. */
  lemma LastAttempt(setup: Setup, library: RetryLibrary, retries: nat, once: Fn, w: World, errors: seq<Error>)
    requires HasAttempt(setup, once, w) && (!IsRetried(once(setup.argument, w).result) || retries == 0)
    ensures RunsWith(setup, library, retries, once, w, errors)
  {
    var a := Attempt(library, retries, once, setup.argument, w, errors);
    var e :| IsAttempt(setup, once, w, e);
    AloneAnswered(setup, library, retries, once, w, errors, e);
    assert IsRun(setup, true, retries + 1, [e], w, a.world, a.result);
    assert IsExplained(setup, library, true, retries + 1, errors, [e], w, a);
  }

  lemma AloneAnswered(setup: Setup, library: RetryLibrary, retries: nat, once: Fn, w: World, errors: seq<Error>,
                      e: Event)
    requires IsAttempt(setup, once, w, e) && (!IsRetried(once(setup.argument, w).result) || retries == 0)
    ensures IsAnswered(setup, library, true, errors, [e], w, Attempt(library, retries, once, setup.argument, w, errors))
  {
    OneEvent(e);
    AloneTakes(setup, e, |w.calls|);
  }

  lemma AloneTakes(setup: Setup, e: Event, from: nat)
    ensures TicksOf(setup, [e], from) == if e == Refused then 0 else setup.Takes(from)
    ensures ErrorsOf(setup, [e], from) == if e == Refused then [BreakerOpen]
            else if setup.Seen(from).Rejected? then [setup.Seen(from).error] else []
  {
    assert [e][1..] == [];
  }

  /** A retried attempt and the run of those after it. */
  lemma FirstAttempt(setup: Setup, library: RetryLibrary, retries: nat, once: Fn, w: World, errors: seq<Error>,
                     a: Answer, next: Answer)
    requires HasAttempt(setup, once, w) && IsRetried(once(setup.argument, w).result)
    requires var first := once(setup.argument, w);
             && HasRun(setup, library, true, retries, errors + [first.result.error], first.world, next)
             && a == next.(ticks := first.ticks + library.delay(|errors|) + next.ticks)
    requires a == Attempt(library, retries, once, setup.argument, w, errors)
    ensures RunsWith(setup, library, retries, once, w, errors)
  {
    HasLongerRun(setup, library, retries, errors, once, w, next);
  }

  /** An attempt that is worth another one takes as long as it does, the waiting, and the attempts after it. */
  lemma AttemptGoesOn(library: RetryLibrary, retries: nat, once: Fn, argument: Value, w: World, errors: seq<Error>)
    requires IsRetried(once(argument, w).result) && retries > 0
    ensures var first := once(argument, w);
            var next := Attempt(library, retries - 1, once, argument, first.world, errors + [first.result.error]);
            Attempt(library, retries, once, argument, w, errors)
            == next.(ticks := first.ticks + library.delay(|errors|) + next.ticks)
  {
  }

  lemma HasLongerRun(setup: Setup, library: RetryLibrary, attempts: nat, errors: seq<Error>, once: Fn, w: World,
                     next: Answer)
    requires HasAttempt(setup, once, w) && IsRetried(once(setup.argument, w).result)
    requires var first := once(setup.argument, w);
             HasRun(setup, library, true, attempts, errors + [first.result.error], first.world, next)
    ensures var ticks := once(setup.argument, w).ticks + library.delay(|errors|) + next.ticks;
            HasRun(setup, library, true, attempts + 1, errors, w, next.(ticks := ticks))
  {
    var first := once(setup.argument, w);
    var e :| IsAttempt(setup, once, w, e);
    var es :| IsExplained(setup, library, true, attempts, errors + [first.result.error], es, first.world, next);
    ExplanationExtends(setup, library, attempts, errors, once, e, es, w, next);
  }

  lemma ExplanationExtends(setup: Setup, library: RetryLibrary, attempts: nat, errors: seq<Error>, once: Fn, e: Event,
                           es: seq<Event>, w: World, next: Answer)
    requires IsAttempt(setup, once, w, e) && IsRetried(once(setup.argument, w).result)
    requires var first := once(setup.argument, w);
             IsExplained(setup, library, true, attempts, errors + [first.result.error], es, first.world, next)
    ensures var ticks := once(setup.argument, w).ticks + library.delay(|errors|) + next.ticks;
            IsExplained(setup, library, true, attempts + 1, errors, [e] + es, w, next.(ticks := ticks))
  {
    var first := once(setup.argument, w);
    RunExtends(setup, true, attempts, e, es, w, first.world, next.world, first.result, next.result);
    AnswerExtends(setup, library, errors, once, e, es, w, next);
  }

  lemma AnswerExtends(setup: Setup, library: RetryLibrary, errors: seq<Error>, once: Fn, e: Event, es: seq<Event>,
                      w: World, next: Answer)
    requires IsAttempt(setup, once, w, e) && IsRetried(once(setup.argument, w).result)
    requires var first := once(setup.argument, w);
             IsAnswered(setup, library, true, errors + [first.result.error], es, first.world, next)
    ensures var ticks := once(setup.argument, w).ticks + library.delay(|errors|) + next.ticks;
            IsAnswered(setup, library, true, errors, [e] + es, w, next.(ticks := ticks))
  {
    var first := once(setup.argument, w);
    assert ([e] + es)[1..] == es && ([e] + es)[|es|] == es[|es| - 1];
    OneEvent(e);
    HistoryAfter(setup, once, w, e);
    Assoc(errors, [first.result.error], ErrorsOf(setup, es, |first.world.calls|));
  }

  /** What the breaker has recorded after an attempt, and how many calls there were. */
  lemma HistoryAfter(setup: Setup, once: Fn, w: World, e: Event)
    requires IsAttempt(setup, once, w, e)
    ensures var after := once(setup.argument, w).world;
            && |after.calls| == |w.calls| + (if e == Refused then 0 else 1)
            && History(after, setup.Key())
               == if HasBreaker(setup.options) then History(w, setup.Key()) + [e] else History(w, setup.Key())
  {
    OneEvent(e);
  }

  lemma RunGoesOn(setup: Setup, library: RetryLibrary, retries: nat, once: Fn, w: World, errors: seq<Error>)
    requires HasAttempt(setup, once, w) && IsRetried(once(setup.argument, w).result) && retries > 0
    requires var first := once(setup.argument, w);
             RunsWith(setup, library, retries - 1, once, first.world, errors + [first.result.error])
    ensures RunsWith(setup, library, retries, once, w, errors)
  {
    var first := once(setup.argument, w);
    AttemptGoesOn(library, retries, once, setup.argument, w, errors);
    FirstAttempt(setup, library, retries, once, w, errors,
                 Attempt(library, retries, once, setup.argument, w, errors),
                 Attempt(library, retries - 1, once, setup.argument, first.world, errors + [first.result.error]));
  }

  lemma {:induction false} AttemptsRun(
    setup: Setup, library: RetryLibrary, retries: nat, once: Fn, w: World, errors: seq<Error>)
    requires forall v :: HasAttempt(setup, once, v)
    ensures RunsWith(setup, library, retries, once, w, errors)
    decreases retries
  {
    var first := once(setup.argument, w);
    if !IsRetried(first.result) || retries == 0 {
      LastAttempt(setup, library, retries, once, w, errors);
    } else {
      AttemptsRun(setup, library, retries - 1, once, first.world, errors + [first.result.error]);
      RunGoesOn(setup, library, retries, once, w, errors);
    }
  }

  lemma Prepended(e: Event, es: seq<Event>)
    requires es != []
    ensures Started([e] + es) == (if e == Refused then [] else [e]) + Started(es)
    ensures ([e] + es)[|es|] == es[|es| - 1]
  {
    assert ([e] + es)[1..] == es;
  }

  lemma RecordsExtend(setup: Setup, e: Event, es: seq<Event>, w: World, between: World, after: World)
    requires Records(setup, [e], w, between) && Records(setup, es, between, after) && es != []
    ensures Records(setup, [e] + es, w, after)
  {
    Prepended(e, es);
    OneEvent(e);
    Regrouped(History(w, setup.Key()), e, es);
  }

  lemma Regrouped(h: seq<Event>, e: Event, es: seq<Event>)
    ensures h + [e] + es == h + ([e] + es)
  {
  }

  lemma CallsExtend(setup: Setup, w: World, between: World, after: World, k: nat, n: nat)
    requires MakesCalls(setup, w, between, k) && MakesCalls(setup, between, after, n)
    ensures MakesCalls(setup, w, after, k + n)
  {
  }

  lemma OutcomesExtend(setup: Setup, events: seq<Event>, from: nat)
    requires AreOutcomes(setup, events, from + 1)
    ensures AreOutcomes(setup, [EventOf(setup.Seen(from))] + events, from)
  {
    var all := [EventOf(setup.Seen(from))] + events;
    forall i | 0 <= i < |all| ensures all[i] == EventOf(setup.Seen(from + i)) {
      if i > 0 { assert all[i] == events[i - 1]; }
    }
  }

  lemma EndExtends(setup: Setup, wrapped: bool, attempts: nat, e: Event, es: seq<Event>, from: nat, between: nat,
                   calls: nat, result: Result)
    requires es != [] && RetriedUntilLast(setup, es, between, calls) &&
             EndsWith(setup, wrapped, attempts, es, between, calls, result)
    requires between == if e == Refused then from else from + 1
    requires e != Refused ==> IsRetried(setup.Seen(from))
    ensures RetriedUntilLast(setup, [e] + es, from, calls) &&
            EndsWith(setup, wrapped, attempts + 1, [e] + es, from, calls, result)
  {
    var all := [e] + es;
    assert all[|all| - 1] == es[|es| - 1];
    forall i | from <= i < calls && (i < calls - 1 || all[|all| - 1] == Refused) ensures IsRetried(setup.Seen(i)) {
      if between <= i { assert IsRetried(setup.Seen(i)); }
    }
  }

  /** A failed attempt before a run makes a run. */
  lemma RunExtends(setup: Setup, wrapped: bool, attempts: nat, e: Event, es: seq<Event>, w: World, between: World,
                   after: World, first: Result, result: Result)
    requires IsRun(setup, false, 1, [e], w, between, first) &&
             IsRun(setup, wrapped, attempts, es, between, after, result)
    requires e != Refused ==> IsRetried(setup.Seen(|w.calls|))
    ensures IsRun(setup, wrapped, attempts + 1, [e] + es, w, after, result)
  {
    Prepended(e, es);
    OneEvent(e);
    RecordsExtend(setup, e, es, w, between, after);
    CallsExtend(setup, w, between, after, |Started([e])|, |Started(es)|);
    if e != Refused { OneOutcome(setup, e, |w.calls|); }
    StartedExtend(setup, e, Started(es), |w.calls|, |between.calls|);
    EndExtends(setup, wrapped, attempts, e, es, |w.calls|, |between.calls|, |after.calls|, result);
  }

  lemma OneOutcome(setup: Setup, e: Event, from: nat)
    requires e != Refused && AreOutcomes(setup, Started([e]), from)
    ensures e == EventOf(setup.Seen(from))
  {
    OneEvent(e);
    assert [e][0] == EventOf(setup.Seen(from + 0));
  }

  lemma StartedExtend(setup: Setup, e: Event, events: seq<Event>, from: nat, between: nat)
    requires AreOutcomes(setup, events, between)
    requires if e == Refused then between == from else between == from + 1 && e == EventOf(setup.Seen(from))
    ensures AreOutcomes(setup, (if e == Refused then [] else [e]) + events, from)
  {
    if e == Refused {
      assert [] + events == events;
    } else {
      OutcomesExtend(setup, events, from);
    }
  }

  function Run(setup: Setup, library: RetryLibrary, w: World): Answer
    requires Stack(library, setup.admits, setup.options).Ok?
  {
    var stack := Stack(library, setup.admits, setup.options).value;
    Execute(Some(stack), setup.context, Server(setup.script), setup.argument, w)
  }

  /** What the retries do with the middlewares below them, or these alone. */
  function Attempts(setup: Setup, library: RetryLibrary, once: Fn, w: World): Answer
    requires Retries(setup.options).Ok?
  {
    var retries := Retries(setup.options).value;
    if retries.Some? then Attempt(library, retries.value, once, setup.argument, w, []) else once(setup.argument, w)
  }

  lemma RunIsAttempts(setup: Setup, library: RetryLibrary, w: World)
    requires Stack(library, setup.admits, setup.options).Ok?
    ensures Run(setup, library, w)
         == Attempts(setup, library, AddMiddlewares(Inner(setup), setup.context, Server(setup.script)), w)
  {
    var retries := Retries(setup.options).value;
    var stack := Stack(library, setup.admits, setup.options).value;
    if retries.Some? {
      assert stack == [Retry(library, retries.value)] + Inner(setup);
      assert stack[1..] == Inner(setup);
    } else {
      assert stack == Inner(setup);
    }
  }

  lemma AttemptsHaveRun(setup: Setup, library: RetryLibrary, once: Fn, w: World)
    requires Retries(setup.options).Ok? && forall v :: HasAttempt(setup, once, v)
    ensures HasRun(setup, library, setup.Wraps(), setup.MaxAttempts(), [], w, Attempts(setup, library, once, w))
  {
    var retries := Retries(setup.options).value;
    if retries.Some? {
      AttemptsRun(setup, library, retries.value, once, w, []);
    } else {
      assert HasAttempt(setup, once, w);
      var e :| IsAttempt(setup, once, w, e);
      AloneExplained(setup, library, once, w, e);
      assert IsExplained(setup, library, false, 1, [], [e], w, once(setup.argument, w));
    }
  }

  lemma AloneExplained(setup: Setup, library: RetryLibrary, once: Fn, w: World, e: Event)
    requires IsAttempt(setup, once, w, e)
    ensures IsExplained(setup, library, false, 1, [], [e], w, once(setup.argument, w))
  {
    AloneIsAnswered(setup, library, once, w, e);
  }

  lemma AloneIsAnswered(setup: Setup, library: RetryLibrary, once: Fn, w: World, e: Event)
    requires IsAttempt(setup, once, w, e)
    ensures IsAnswered(setup, library, false, [], [e], w, once(setup.argument, w))
  {
    AloneTakes(setup, e, |w.calls|);
    OneEvent(e);
  }

  /** Every run of the stack that the options ask for is a run of attempts, whatever the server and the breaker do. */
  lemma EveryRunIsExplained(setup: Setup, library: RetryLibrary, w: World)
    requires Stack(library, setup.admits, setup.options).Ok?
    ensures HasRun(setup, library, setup.Wraps(), setup.MaxAttempts(), [], w, Run(setup, library, w))
  {
    var once := AddMiddlewares(Inner(setup), setup.context, Server(setup.script));
    RunIsAttempts(setup, library, w);
    forall v ensures HasAttempt(setup, once, v) { OneAttempt(setup, v); }
    AttemptsHaveRun(setup, library, once, w);
  }

  /**
   What that means for the server, for all options, replies and breaker policies: at most one call more than the
   retries, all with the same argument, none after a success or a client error; without a breaker at least one call,
   and the result is a success exactly if the last call was one, or the client error of the last call.
   */
  lemma CallsOfRun(setup: Setup, library: RetryLibrary, w: World)
    requires Stack(library, setup.admits, setup.options).Ok?
    ensures var a := Run(setup, library, w);
            var from, to := |w.calls|, |a.world.calls|;
            && w.calls <= a.world.calls && to - from <= setup.MaxAttempts()
            && (forall i | from <= i < to :: a.world.calls[i] == setup.argument)
            && (forall i | from <= i < to - 1 :: IsRetried(setup.Seen(i)))
            && (!HasBreaker(setup.options) ==> from < to)
            && (a.result.Resolved? <==> from < to && setup.Seen(to - 1).Resolved?)
            && (a.result.Resolved? ==> a.result == setup.Seen(to - 1))
            && (a.result.Rejected? && from < to && setup.Seen(to - 1).Rejected?
                && IsClientError(setup.Seen(to - 1).error) ==>
                  a.result == if setup.Wraps() then Rejected(RequestFailed(setup.Seen(to - 1).error.status))
                              else setup.Seen(to - 1))
            && (!HasBreaker(setup.options) && to - from < setup.MaxAttempts() ==> !IsRetried(setup.Seen(to - 1)))
  {
    EveryRunIsExplained(setup, library, w);
    var a := Run(setup, library, w);
    var es :| IsExplained(setup, library, setup.Wraps(), setup.MaxAttempts(), [], es, w, a);
    assert es[|es| - 1] in es;
  }

  /**
   What the breaker of the request records: no failure for a client error or a success, one for every other outcome,
   and no other breaker sees anything. Every attempt that is not refused is one call.
   */
  lemma BreakerOfRun(setup: Setup, library: RetryLibrary, w: World)
    requires Stack(library, setup.admits, setup.options).Ok? && HasBreaker(setup.options)
    ensures var a := Run(setup, library, w);
            var key, from, to := setup.Key(), |w.calls|, |a.world.calls|;
            && from <= to && History(w, key) <= History(a.world, key)
            && |Started(History(a.world, key)[|History(w, key)|..])| == to - from
            && (var started := Started(History(a.world, key)[|History(w, key)|..]);
                forall i | 0 <= i < |started| ::
                  started[i] == if IsRetried(setup.Seen(from + i)) then Failed else Succeeded)
            && forall k | k != key :: History(a.world, k) == History(w, k)
  {
    EveryRunIsExplained(setup, library, w);
    var a := Run(setup, library, w);
    var es :| IsExplained(setup, library, setup.Wraps(), setup.MaxAttempts(), [], es, w, a);
    WhatRunRecords(setup, setup.Wraps(), setup.MaxAttempts(), es, w, a.world, a.result);
  }

  lemma WhatRunRecords(setup: Setup, wrapped: bool, attempts: nat, es: seq<Event>, w: World, after: World,
                       result: Result)
    requires HasBreaker(setup.options) && IsRun(setup, wrapped, attempts, es, w, after, result)
    ensures var key := setup.Key();
            && History(w, key) <= History(after, key) && History(after, key)[|History(w, key)|..] == es
            && |w.calls| <= |after.calls| && |Started(es)| == |after.calls| - |w.calls|
            && (forall k | k != key :: History(after, k) == History(w, k))
    ensures forall i | 0 <= i < |Started(es)| ::
              Started(es)[i] == if IsRetried(setup.Seen(|w.calls| + i)) then Failed else Succeeded
  {
    forall i | 0 <= i < |Started(es)|
      ensures Started(es)[i] == if IsRetried(setup.Seen(|w.calls| + i)) then Failed else Succeeded
    {
      assert Started(es)[i] == EventOf(setup.Seen(|w.calls| + i));
    }
  }

  // ---- How long a run takes ----

  lemma OneAttemptTakes(setup: Setup, w: World)
    requires Milliseconds(setup.options).Ok? && Milliseconds(setup.options).value.Some?
    ensures AddMiddlewares(Inner(setup), setup.context, Server(setup.script))(setup.argument, w).ticks
         <= Milliseconds(setup.options).value.value
  {
    var limit, server := Milliseconds(setup.options).value.value, Server(setup.script);
    var timed := Timeout(limit)(setup.context, server);
    assert TimeoutLayer(setup) == [Timeout(limit)] && [Timeout(limit)][1..] == [];
    assert AddMiddlewares(TimeoutLayer(setup), setup.context, server) == timed;
    assert timed(setup.argument, w) == TimedAnswer(server(setup.argument, w), setup.context.uri, limit);
    if HasBreaker(setup.options) {
      assert Inner(setup)[1..] == TimeoutLayer(setup);
      assert AddMiddlewares(Inner(setup), setup.context, server) == CircuitBreaker(setup.admits)(setup.context, timed);
    } else {
      assert Inner(setup) == TimeoutLayer(setup);
    }
  }

  lemma {:induction false} AttemptsTake(
    library: RetryLibrary, retries: nat, once: Fn, argument: Value, w: World, errors: seq<Error>, limit: nat)
    requires forall v: World :: once(argument, v).ticks <= limit
    ensures Attempt(library, retries, once, argument, w, errors).ticks
         <= (retries + 1) * limit + Delays(library, |errors|, retries)
    decreases retries
  {
    var first := once(argument, w);
    if IsRetried(first.result) && retries > 0 {
      AttemptsTake(library, retries - 1, once, argument, first.world, errors + [first.result.error], limit);
      assert (retries + 1) * limit == retries * limit + limit;
    } else {
      assert (retries + 1) * limit >= limit;
    }
  }

  /**
   The timeout bounds each attempt, not the run: this takes as long as all its attempts and the waiting between them.
   */
  lemma DurationOfRun(setup: Setup, library: RetryLibrary, w: World)
    requires Stack(library, setup.admits, setup.options).Ok? && Milliseconds(setup.options).value.Some?
    ensures Run(setup, library, w).ticks
         <= setup.MaxAttempts() * Milliseconds(setup.options).value.value + Delays(library, 0, setup.MaxAttempts() - 1)
  {
    var retries, limit := Retries(setup.options).value, Milliseconds(setup.options).value.value;
    var stack := Stack(library, setup.admits, setup.options).value;
    var once := AddMiddlewares(Inner(setup), setup.context, Server(setup.script));
    forall v: World ensures once(setup.argument, v).ticks <= limit { OneAttemptTakes(setup, v); }
    if retries.Some? {
      assert stack == [Retry(library, retries.value)] + Inner(setup);
      assert stack[1..] == Inner(setup);
      AttemptsTake(library, retries.value, once, setup.argument, w, [], limit);
    } else {
      assert stack == Inner(setup);
    }
  }

  // ---- Circuit breakers ----

  predicate SeparatorAt(key: string, i: nat) {
    i + 2 <= |key| && key[i] == ':' && key[i + 1] == ':'
  }

  /** Requests without a tenant have one of their own. */
  lemma KeyExactly(c: Context)
    ensures c.tenantId.None? ==> BreakerKey(c) == c.uri + "::tenant_id"
    ensures c.tenantId.Some? ==> BreakerKey(c) == c.uri + "::" + c.tenantId.value
  {
    assert c.tenantId.None? ==> c.uri + ("::" + Tenant(c)) == c.uri + "::tenant_id";
  }

  lemma KeyParts(c: Context)
    ensures SeparatorAt(BreakerKey(c), |c.uri|)
    ensures BreakerKey(c)[..|c.uri|] == c.uri && BreakerKey(c)[|c.uri| + 2..] == Tenant(c)
  {
    assert BreakerKey(c) == c.uri + ("::" + Tenant(c));
  }

  lemma KeyFromParts(key: string, i: nat)
    requires SeparatorAt(key, i)
    ensures BreakerKey(Context(key[..i], Some(key[i + 2..]))) == key
  {
    assert key == key[..i] + key[i..i + 2] + key[i + 2..];
    assert key[i..i + 2] == "::";
  }

  /**
   A request shares its breaker with no other URI or tenant exactly if its key has one place only to be taken apart.
   */
  lemma KeysKeepApartExactly(a: Context)
    ensures (forall b :: BreakerKey(b) == BreakerKey(a) ==> b.uri == a.uri && Tenant(b) == Tenant(a)) <==>
            forall i: nat | SeparatorAt(BreakerKey(a), i) :: i == |a.uri|
  {
    forall i: nat | SeparatorAt(BreakerKey(a), i) && i != |a.uri|
      ensures exists b :: BreakerKey(b) == BreakerKey(a) && b.uri != a.uri
    {
      var b := OtherContext(a, i);
    }
    forall b | BreakerKey(b) == BreakerKey(a) && (forall i: nat | SeparatorAt(BreakerKey(a), i) :: i == |a.uri|)
      ensures b.uri == a.uri && Tenant(b) == Tenant(a)
    {
      KeyParts(a);
      KeyParts(b);
    }
  }

  lemma OtherContext(a: Context, i: nat) returns (b: Context)
    requires SeparatorAt(BreakerKey(a), i) && i != |a.uri|
    ensures BreakerKey(b) == BreakerKey(a) && b.uri != a.uri
  {
    b := Context(BreakerKey(a)[..i], Some(BreakerKey(a)[i + 2..]));
    KeyFromParts(BreakerKey(a), i);
    assert |b.uri| == i;
  }

  /** In particular, tenants without a colon keep requests apart. */
  lemma KeysKeepApart(a: Context, b: Context)
    requires ':' !in Tenant(a) && ':' !in Tenant(b) && BreakerKey(a) == BreakerKey(b)
    ensures a.uri == b.uri && Tenant(a) == Tenant(b)
  {
    KeyParts(a);
    KeyParts(b);
    LastColon(a);
    LastColon(b);
  }

  lemma LastColon(c: Context)
    requires ':' !in Tenant(c)
    ensures BreakerKey(c)[|c.uri| + 1] == ':'
    ensures forall i | |c.uri| + 2 <= i < |BreakerKey(c)| :: BreakerKey(c)[i] != ':'
  {
    forall i | |c.uri| + 2 <= i < |BreakerKey(c)| ensures BreakerKey(c)[i] != ':' {
      assert BreakerKey(c)[i] == Tenant(c)[i - |c.uri| - 2];
    }
  }

  class Breaker {
    var history: seq<Event>

    constructor ()
      ensures history == []
    {
      history := [];
    }
  }

  /** All breakers there are, created when they are first asked for. */
  class BreakerRegistry {
    var circuitBreakers: map<string, Breaker>

    constructor ()
      ensures circuitBreakers == map[]
    {
      circuitBreakers := map[];
    }

    /** No breaker serves two keys. */
    ghost predicate Valid()
      reads this
    {
      forall k, l | k in circuitBreakers && l in circuitBreakers && circuitBreakers[k] == circuitBreakers[l] :: k == l
    }

    method GetCircuitBreaker(key: string) returns (b: Breaker)
      requires Valid()
      modifies `circuitBreakers
      ensures Valid()
      ensures circuitBreakers.Keys == old(circuitBreakers.Keys) + {key} && circuitBreakers[key] == b
      ensures forall k | k in old(circuitBreakers) :: circuitBreakers[k] == old(circuitBreakers)[k]
      ensures key !in old(circuitBreakers) ==> fresh(b) && b.history == []
    {
      if key !in circuitBreakers {
        var created := new Breaker();
        circuitBreakers := circuitBreakers[key := created];
      }
      b := circuitBreakers[key];
    }
  }

  // ---- The timeout race ----

  datatype Moment = Settles(result: Result) | TimerFires

  /** Whatever follows, the first moment decides. */
  function Decided(moments: seq<Moment>, expired: Result): Option<Result> {
    if moments == [] then None
    else match moments[0]
      case Settles(result) => Some(result)
      case TimerFires => Some(expired)
  }

  /** The order in which the request and the timer come to their end. */
  function MomentsOf(a: Answer, milliseconds: nat): seq<Moment> {
    if a.ticks < milliseconds then [Settles(a.result), TimerFires]
    else if a.ticks > milliseconds then [TimerFires, Settles(a.result)]
    else if a.early then [Settles(a.result), TimerFires]
    else [TimerFires, Settles(a.result)]
  }

  /** The race between a request and its timer is what the timeout middleware answers, and leaves no timer. */
  method WrapInTimeout(a: Answer, milliseconds: nat, uri: string) returns (r: Result, timerIsLive: bool)
    ensures r == TimedAnswer(a, uri, milliseconds).result && !timerIsLive
  {
    var race := new TimeoutRace(uri, milliseconds);
    race.Watch(MomentsOf(a, milliseconds));
    r, timerIsLive := race.outcome.value, race.timerIsLive;
  }

  /** What the caller of a request with a timeout waits for: the request or the timer, whichever is first. */
  class TimeoutRace {
    var outcome: Option<Result>
    var timerIsLive: bool
    const expired: Result

    constructor (uri: string, milliseconds: int)
      ensures outcome == None && timerIsLive && expired == Rejected(TimedOut(uri, milliseconds))
    {
      outcome := None;
      timerIsLive := true;
      expired := Rejected(TimedOut(uri, milliseconds));
    }

    /** The request settles: the timer is cleared, and the race is decided unless it already was. */
    method Settle(result: Result)
      modifies this
      ensures !timerIsLive
      ensures outcome == if old(outcome).Some? then old(outcome) else Some(result)
    {
      timerIsLive := false;
      if outcome.None? { outcome := Some(result); }
    }

    /** The timer goes off, if it has not been cleared. */
    method Fire()
      modifies this
      ensures !timerIsLive
      ensures outcome == if old(timerIsLive) && old(outcome).None? then Some(expired) else old(outcome)
    {
      if timerIsLive {
        timerIsLive := false;
        if outcome.None? { outcome := Some(expired); }
      }
    }

    /** Whatever happens in whatever order: the first moment decides the race, and then no timer is left. */
    method Watch(moments: seq<Moment>)
      requires outcome.None? && timerIsLive
      modifies this
      ensures outcome == Decided(moments, expired)
      ensures timerIsLive == (moments == [])
    {
      for i := 0 to |moments|
        invariant i == 0 ==> outcome.None? && timerIsLive
        invariant i > 0 ==> !timerIsLive
        invariant i > 0 ==> outcome == Decided(moments, expired)
      {
        match moments[i]
        case Settles(result) => Settle(result);
        case TimerFires => Fire();
      }
    }
  }
}
