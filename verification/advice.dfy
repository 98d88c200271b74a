/**
  The advice resolver `get_shopping_advice` of main.py: a cache lookup, then a
  retry/fallback loop over an ordered list of language models.

  The upstream client is an oracle: `outcomes[i]` is what the `i`-th call
  made by this resolution returns, a text or a raised error whose message is
  `str(e)`. The result records the answer, the cache afterwards and the
  calls made, each as the index of the model in `Models` and the 0-based
  attempt number of the inner loop.
 */
module Advice {
  import opened Strings

  /** The models to try, in order. */
  const Models: seq<string> := ["gemini-2.0-flash-exp", "gemini-1.5-flash"]

  /** Calls per model before moving on (`max_retries`). */
  const MaxRetries: nat := 3

  /** The most calls one resolution can make. */
  const MaxCalls: nat := |Models| * MaxRetries

  /** The answer when every model failed; it is never cached. */
  const Busy: string := "\U{26A0}\U{FE0F} The market server is very busy right now. Please try again in 1 minute!"

  /** What one call to the upstream client does: return a text, or raise an
      error whose message is `msg`. */
  datatype Outcome = Success(text: string) | Err(msg: string)

  /** One upstream call: the model's index in `Models` and the attempt number. */
  datatype Call = Call(model: nat, attempt: nat)

  datatype Resolution = Resolution(answer: string, cache: map<string, string>, calls: seq<Call>)

  /** How the attempts on one model ended, and how many calls they took. */
  datatype Run = Answered(text: string, used: nat) | GaveUp(used: nat)

  /** The rate-limit test of the exception handler: the message mentions
      HTTP status 429 or the quota error name. */
  predicate IsRateLimit(msg: string) {
    Contains(msg, "429") || Contains(msg, "RESOURCE_EXHAUSTED")
  }

  /** The attempts `attempt, attempt + 1, ...` of the inner loop on one model,
      starting with oracle call `next`: a success ends the resolution, a
      rate-limit error tries again, any other error gives the model up. */
  function TryModel(outcomes: seq<Outcome>, next: nat, attempt: nat): (r: Run)
    requires attempt <= MaxRetries
    requires next + (MaxRetries - attempt) <= |outcomes|
    ensures r.used <= MaxRetries - attempt
    ensures attempt < MaxRetries <==> r.used > 0
    decreases MaxRetries - attempt
  {
    if attempt == MaxRetries then GaveUp(0)
    else
      match outcomes[next]
      case Success(text) => Answered(text, 1)
      case Err(msg) =>
        if IsRateLimit(msg) then
          match TryModel(outcomes, next + 1, attempt + 1)
          case Answered(text, used) => Answered(text, used + 1)
          case GaveUp(used) => GaveUp(used + 1)
        else GaveUp(1)
  }

  /** What the inner loop saw: every call of the run but the last hit the
      rate limit; an answer is the last call's text; a model given up after
      some calls failed last with an error that is not a rate limit, or ran
      out of attempts. */
  lemma {:induction false} TryModelOutcomes(outcomes: seq<Outcome>, next: nat, attempt: nat)
    requires attempt <= MaxRetries
    requires next + (MaxRetries - attempt) <= |outcomes|
    ensures var r := TryModel(outcomes, next, attempt);
      && (forall i | next <= i < next + r.used - 1 :: outcomes[i].Err? && IsRateLimit(outcomes[i].msg))
      && (r.Answered? ==> outcomes[next + r.used - 1] == Success(r.text))
      && (r.GaveUp? && r.used > 0 ==>
           && outcomes[next + r.used - 1].Err?
           && (!IsRateLimit(outcomes[next + r.used - 1].msg) || attempt + r.used == MaxRetries))
    decreases MaxRetries - attempt
  {
    if attempt < MaxRetries && outcomes[next].Err? && IsRateLimit(outcomes[next].msg) {
      TryModelOutcomes(outcomes, next + 1, attempt + 1);
    }
  }

  /** The calls `Call(model, 0), ..., Call(model, n - 1)`. */
  function Block(model: nat, n: nat): seq<Call> {
    seq(n, i requires 0 <= i < n => Call(model, i))
  }

  /** The outer loop from model `m` on, with oracle call `next` the next one. */
  function FallBack(query: string, cache: map<string, string>, outcomes: seq<Outcome>, m: nat, next: nat): (r: Resolution)
    requires m <= |Models| && next <= m * MaxRetries && |outcomes| >= MaxCalls
    ensures |r.calls| <= (|Models| - m) * MaxRetries
    ensures r.cache == cache || r.cache == cache[query := r.answer]
    decreases |Models| - m
  {
    if m == |Models| then Resolution(Busy, cache, [])
    else
      match TryModel(outcomes, next, 0)
      case Answered(text, used) => Resolution(text, cache[query := text], Block(m, used))
      case GaveUp(used) =>
        var r := FallBack(query, cache, outcomes, m + 1, next + used);
        r.(calls := Block(m, used) + r.calls)
  }

  /** `get_shopping_advice(query)` against the cache `cache` and the oracle. */
  function Resolve(query: string, cache: map<string, string>, outcomes: seq<Outcome>): (r: Resolution)
    requires |outcomes| >= MaxCalls
    ensures query in cache ==> r == Resolution(cache[query], cache, [])
    ensures |r.calls| <= MaxCalls
    ensures r.cache == cache || r.cache == cache[query := r.answer]
  {
    if query in cache then Resolution(cache[query], cache, [])
    else FallBack(query, cache, outcomes, 0, 0)
  }

  /** `r` after the calls `pre` that were made before it. */
  function Prefixed(pre: seq<Call>, r: Resolution): Resolution {
    r.(calls := pre + r.calls)
  }

  /** Calls put in front twice are the two lists put in front at once. */
  lemma PrefixedTwice(a: seq<Call>, b: seq<Call>, r: Resolution)
    ensures Prefixed(a, Prefixed(b, r)) == Prefixed(a + b, r)
  {
    assert a + (b + r.calls) == (a + b) + r.calls;
  }

  /** The run of the inner loop from attempt 0, given the run from attempt
      `k` on, when attempts `0 .. k - 1` were rate-limited. */
  function Bump(run: Run, k: nat): Run {
    match run
    case Answered(text, used) => Answered(text, used + k)
    case GaveUp(used) => GaveUp(used + k)
  }

  lemma BumpTwice(run: Run, k: nat)
    ensures Bump(Bump(run, 1), k) == Bump(run, k + 1)
  {
  }

  /** A rate-limited attempt adds one call to the run of the inner loop. */
  lemma TryModelRetry(outcomes: seq<Outcome>, next: nat, attempt: nat)
    requires attempt < MaxRetries && next + (MaxRetries - attempt) <= |outcomes|
    requires outcomes[next].Err? && IsRateLimit(outcomes[next].msg)
    ensures TryModel(outcomes, next, attempt) == Bump(TryModel(outcomes, next + 1, attempt + 1), 1)
  {
  }

  /** The calls of model `m` up to attempt `n`, one more than up to `n - 1`. */
  lemma BlockSnoc(model: nat, n: nat)
    ensures Block(model, n + 1) == Block(model, n) + [Call(model, n)]
  {
  }

  /** The inner loop of `get_shopping_advice` on model `m`, starting with
      oracle call `next`: its run and the calls it makes. A success leaves the
      loop at once, as the `return` does; an error that is not a rate limit
      leaves it, as the `break` does. */
  method Attempts(outcomes: seq<Outcome>, m: nat, next: nat) returns (run: Run, calls: seq<Call>)
    requires next + MaxRetries <= |outcomes|
    ensures run == TryModel(outcomes, next, 0)
    ensures calls == Block(m, run.used)
  {
    var attempt := 0;
    calls := [];
    while attempt < MaxRetries
      invariant attempt <= MaxRetries && calls == Block(m, attempt)
      invariant TryModel(outcomes, next, 0) == Bump(TryModel(outcomes, next + attempt, attempt), attempt)
      decreases MaxRetries - attempt
    {
      var o := outcomes[next + attempt];
      BlockSnoc(m, attempt);
      calls := calls + [Call(m, attempt)];
      match o
      case Success(text) =>
        return Answered(text, attempt + 1), calls;
      case Err(msg) =>
        if IsRateLimit(msg) {
          TryModelRetry(outcomes, next + attempt, attempt);
          BumpTwice(TryModel(outcomes, next + attempt + 1, attempt + 1), attempt);
          attempt := attempt + 1;
        } else {
          return GaveUp(attempt + 1), calls;
        }
    }
    return GaveUp(attempt), calls;
  }

  /** After model `m` the oracle has been consulted at most `MaxRetries`
      times per model. */
  lemma StepBound(m: nat, next: nat, used: nat)
    requires next <= m * MaxRetries && used <= MaxRetries
    ensures next + used <= (m + 1) * MaxRetries
    ensures m < |Models| ==> next + MaxRetries <= MaxCalls
  {
  }

  /** One pass of the outer loop that ends in an answer. */
  lemma AnsweredStep(query: string, cache: map<string, string>, outcomes: seq<Outcome>, m: nat, next: nat, calls: seq<Call>, text: string, used: nat)
    requires m < |Models| && next <= m * MaxRetries && |outcomes| >= MaxCalls
    requires TryModel(outcomes, next, 0) == Answered(text, used)
    ensures Prefixed(calls, FallBack(query, cache, outcomes, m, next))
      == Resolution(text, cache[query := text], calls + Block(m, used))
  {
    FallBackAnswered(query, cache, outcomes, m, next);
  }

  /** One pass of the outer loop that gives model `m` up. */
  lemma GaveUpStep(query: string, cache: map<string, string>, outcomes: seq<Outcome>, m: nat, next: nat, calls: seq<Call>, used: nat)
    requires m < |Models| && next <= m * MaxRetries && |outcomes| >= MaxCalls
    requires TryModel(outcomes, next, 0) == GaveUp(used)
    ensures && next + used <= (m + 1) * MaxRetries
      && Prefixed(calls, FallBack(query, cache, outcomes, m, next))
         == Prefixed(calls + Block(m, used), FallBack(query, cache, outcomes, m + 1, next + used))
  {
    StepBound(m, next, used);
    FallBackGaveUp(query, cache, outcomes, m, next);
    PrefixedTwice(calls, Block(m, used), FallBack(query, cache, outcomes, m + 1, next + used));
  }

  /** `get_shopping_advice` as written: the cache check, then the outer loop
      over the models, which returns the first answer and caches it, and the
      busy text when every model was given up. `next` counts the upstream
      calls made so far. */
  method GetShoppingAdvice(query: string, cache: map<string, string>, outcomes: seq<Outcome>)
    returns (answer: string, cache': map<string, string>, calls: seq<Call>)
    requires |outcomes| >= MaxCalls
    ensures Resolution(answer, cache', calls) == Resolve(query, cache, outcomes)
  {
    if query in cache {
      return cache[query], cache, [];
    }
    var m := 0;
    var next := 0;
    calls := [];
    while m < |Models|
      invariant m <= |Models| && next <= m * MaxRetries && next == |calls|
      invariant Resolve(query, cache, outcomes) == Prefixed(calls, FallBack(query, cache, outcomes, m, next))
      decreases |Models| - m
    {
      var run, block := Attempts(outcomes, m, next);
      if run.Answered? {
        AnsweredStep(query, cache, outcomes, m, next, calls, run.text, run.used);
        return run.text, cache[query := run.text], calls + block;
      }
      GaveUpStep(query, cache, outcomes, m, next, calls, run.used);
      calls := calls + block;
      next := next + run.used;
      m := m + 1;
    }
    return Busy, cache, calls;
  }

  /* ---------------------------------------------------------------------
     The retry/fallback policy, one call at a time.
     --------------------------------------------------------------------- */

  /** The call after a failed one: the same model again after a rate-limit
      error while it has attempts left, otherwise the first attempt on the
      next model (which is past the list when the last model failed). */
  function NextCall(c: Call, o: Outcome): Call
    requires o.Err?
  {
    if IsRateLimit(o.msg) && c.attempt + 1 < MaxRetries then Call(c.model, c.attempt + 1)
    else Call(c.model + 1, 0)
  }

  /** Call `i` failed and call `i + 1` is the one the policy makes after it. */
  ghost predicate StepOk(outcomes: seq<Outcome>, base: nat, calls: seq<Call>, i: nat)
    requires i + 1 < |calls| && base + |calls| <= |outcomes|
  {
    outcomes[base + i].Err? && calls[i + 1] == NextCall(calls[i], outcomes[base + i])
  }

  /** Every call names a listed model and an attempt below the limit, every
      call but the last failed, and each call is the one the policy makes
      after the previous one. Call `i` of `calls` gets `outcomes[base + i]`. */
  ghost predicate Chained(outcomes: seq<Outcome>, base: nat, calls: seq<Call>)
    requires base + |calls| <= |outcomes|
  {
    && (forall i | 0 <= i < |calls| :: calls[i].model < |Models| && calls[i].attempt < MaxRetries)
    && (forall i: nat | i < |calls| - 1 :: StepOk(outcomes, base, calls, i))
  }

  /** The last call is one after which the policy stops: it succeeded, or it
      failed and there is no model left to try. */
  ghost predicate Halted(outcomes: seq<Outcome>, base: nat, calls: seq<Call>)
    requires base + |calls| <= |outcomes|
  {
    && |calls| > 0
    && var o := outcomes[base + |calls| - 1];
       o.Success? || NextCall(calls[|calls| - 1], o).model == |Models|
  }

  /** The whole trace of a resolution that missed the cache: it starts with the
      first attempt on the first model and follows the policy until it stops. */
  ghost predicate FollowsPolicy(outcomes: seq<Outcome>, calls: seq<Call>)
    requires |calls| <= |outcomes|
  {
    && |calls| > 0 && calls[0] == Call(0, 0)
    && Chained(outcomes, 0, calls)
    && Halted(outcomes, 0, calls)
  }

  /** The calls the inner loop makes on model `m` follow the policy, and the
      call after them, if the model was given up, is the next model's first. */
  lemma BlockChained(outcomes: seq<Outcome>, next: nat, m: nat)
    requires m < |Models| && next + MaxRetries <= |outcomes|
    ensures var run := TryModel(outcomes, next, 0);
      var b := Block(m, run.used);
      && Chained(outcomes, next, b)
      && (run.GaveUp? ==> NextCall(b[|b| - 1], outcomes[next + |b| - 1]) == Call(m + 1, 0))
  {
    TryModelOutcomes(outcomes, next, 0);
  }

  /** Two chained runs joined where the policy moves from one to the next. */
  lemma ChainedJoin(outcomes: seq<Outcome>, base: nat, b: seq<Call>, rest: seq<Call>)
    requires |b| > 0 && |rest| > 0 && base + |b| + |rest| <= |outcomes|
    requires Chained(outcomes, base, b) && Chained(outcomes, base + |b|, rest)
    requires outcomes[base + |b| - 1].Err?
    requires rest[0] == NextCall(b[|b| - 1], outcomes[base + |b| - 1])
    ensures Chained(outcomes, base, b + rest)
    ensures Halted(outcomes, base + |b|, rest) ==> Halted(outcomes, base, b + rest)
  {
    var all := b + rest;
    forall i: nat | i < |all| - 1
      ensures StepOk(outcomes, base, all, i)
    {
      if i >= |b| {
        assert StepOk(outcomes, base + |b|, rest, i - |b|);
        assert all[i] == rest[i - |b|] && all[i + 1] == rest[i - |b| + 1];
      } else if i < |b| - 1 {
        assert StepOk(outcomes, base, b, i);
      }
    }
    assert all[|all| - 1] == rest[|rest| - 1];
  }

  /** What the outer loop from model `m` on promises: its calls start with the
      first attempt on model `m`, chain and halt, and a success is the answer
      and is cached, while a final failure gives the busy text and leaves the
      cache alone. */
  ghost predicate LoopOutcome(query: string, cache: map<string, string>, outcomes: seq<Outcome>, m: nat, next: nat, r: Resolution)
  {
    && |r.calls| > 0 && r.calls[0] == Call(m, 0)
    && next + |r.calls| <= |outcomes|
    && Chained(outcomes, next, r.calls)
    && Halted(outcomes, next, r.calls)
    && var o := outcomes[next + |r.calls| - 1];
       && (o.Success? ==> r.answer == o.text && r.cache == cache[query := o.text])
       && (o.Err? ==> r.answer == Busy && r.cache == cache)
  }

  /** The outer loop from model `m` on follows the policy. */
  lemma {:induction false} FallBackFollowsPolicy(query: string, cache: map<string, string>, outcomes: seq<Outcome>, m: nat, next: nat)
    requires m < |Models| && next <= m * MaxRetries && |outcomes| >= MaxCalls
    ensures LoopOutcome(query, cache, outcomes, m, next, FallBack(query, cache, outcomes, m, next))
    decreases |Models| - m, 1
  {
    var run := TryModel(outcomes, next, 0);
    if run.Answered? {
      AnsweredOutcome(query, cache, outcomes, m, next);
    } else if m + 1 == |Models| {
      LastModelOutcome(query, cache, outcomes, m, next);
    } else {
      GaveUpOutcome(query, cache, outcomes, m, next);
    }
  }

  lemma AnsweredOutcome(query: string, cache: map<string, string>, outcomes: seq<Outcome>, m: nat, next: nat)
    requires m < |Models| && next <= m * MaxRetries && |outcomes| >= MaxCalls
    requires TryModel(outcomes, next, 0).Answered?
    ensures LoopOutcome(query, cache, outcomes, m, next, FallBack(query, cache, outcomes, m, next))
  {
    BlockChained(outcomes, next, m);
    TryModelOutcomes(outcomes, next, 0);
  }

  lemma LastModelOutcome(query: string, cache: map<string, string>, outcomes: seq<Outcome>, m: nat, next: nat)
    requires m + 1 == |Models| && next <= m * MaxRetries && |outcomes| >= MaxCalls
    requires TryModel(outcomes, next, 0).GaveUp?
    ensures LoopOutcome(query, cache, outcomes, m, next, FallBack(query, cache, outcomes, m, next))
  {
    BlockChained(outcomes, next, m);
    var run := TryModel(outcomes, next, 0);
    var r := FallBack(query, cache, outcomes, m, next);
    assert r.calls == Block(m, run.used) + [];
  }

  lemma GaveUpOutcome(query: string, cache: map<string, string>, outcomes: seq<Outcome>, m: nat, next: nat)
    requires m + 1 < |Models| && next <= m * MaxRetries && |outcomes| >= MaxCalls
    requires TryModel(outcomes, next, 0).GaveUp?
    ensures LoopOutcome(query, cache, outcomes, m, next, FallBack(query, cache, outcomes, m, next))
    decreases |Models| - m, 0
  {
    var used := TryModel(outcomes, next, 0).used;
    StepBound(m, next, used);
    FallBackFollowsPolicy(query, cache, outcomes, m + 1, next + used);
    GaveUpJoin(query, cache, outcomes, m, next, used);
  }

  /** The loop from model `m` on follows the policy when `m` was given up and
      the loop from the next model on does. */
  lemma GaveUpJoin(query: string, cache: map<string, string>, outcomes: seq<Outcome>, m: nat, next: nat, used: nat)
    requires m + 1 < |Models| && next <= m * MaxRetries && |outcomes| >= MaxCalls
    requires TryModel(outcomes, next, 0) == GaveUp(used) && next + used <= (m + 1) * MaxRetries
    requires LoopOutcome(query, cache, outcomes, m + 1, next + used, FallBack(query, cache, outcomes, m + 1, next + used))
    ensures LoopOutcome(query, cache, outcomes, m, next, FallBack(query, cache, outcomes, m, next))
  {
    StepBound(m, next, used);
    GaveUpBlock(outcomes, next, m, used);
    FallBackGaveUp(query, cache, outcomes, m, next);
    JoinOutcome(query, cache, outcomes, m, next, Block(m, used), FallBack(query, cache, outcomes, m + 1, next + used),
      FallBack(query, cache, outcomes, m, next));
  }

  /** The calls on a model that was given up: they chain, the last one failed,
      and the policy moves on to the next model's first attempt. */
  lemma GaveUpBlock(outcomes: seq<Outcome>, next: nat, m: nat, used: nat)
    requires m < |Models| && next + MaxRetries <= |outcomes|
    requires TryModel(outcomes, next, 0) == GaveUp(used)
    ensures var b := Block(m, used);
      && |b| > 0 && b[0] == Call(m, 0) && next + |b| <= |outcomes|
      && Chained(outcomes, next, b) && outcomes[next + |b| - 1].Err?
      && NextCall(b[|b| - 1], outcomes[next + |b| - 1]) == Call(m + 1, 0)
  {
    BlockChained(outcomes, next, m);
    TryModelOutcomes(outcomes, next, 0);
  }

  /** The outer loop when model `m` answered: the calls on `m`, and the answer
      cached. */
  lemma FallBackAnswered(query: string, cache: map<string, string>, outcomes: seq<Outcome>, m: nat, next: nat)
    requires m < |Models| && next <= m * MaxRetries && |outcomes| >= MaxCalls
    requires TryModel(outcomes, next, 0).Answered?
    ensures var run := TryModel(outcomes, next, 0);
      FallBack(query, cache, outcomes, m, next) == Resolution(run.text, cache[query := run.text], Block(m, run.used))
  {
  }

  /** The outer loop after model `m` was given up: the calls on `m`, then the
      loop from the next model on. */
  lemma FallBackGaveUp(query: string, cache: map<string, string>, outcomes: seq<Outcome>, m: nat, next: nat)
    requires m < |Models| && next <= m * MaxRetries && |outcomes| >= MaxCalls
    requires TryModel(outcomes, next, 0).GaveUp?
    ensures var used := TryModel(outcomes, next, 0).used;
      var rest := FallBack(query, cache, outcomes, m + 1, next + used);
      FallBack(query, cache, outcomes, m, next) == Prefixed(Block(m, used), rest)
  {
  }

  /** The calls on a given-up model, put in front of the rest of the loop. */
  lemma JoinOutcome(query: string, cache: map<string, string>, outcomes: seq<Outcome>, m: nat, next: nat, b: seq<Call>, rest: Resolution, r: Resolution)
    requires |b| > 0 && b[0] == Call(m, 0) && next + |b| <= |outcomes|
    requires Chained(outcomes, next, b) && outcomes[next + |b| - 1].Err?
    requires NextCall(b[|b| - 1], outcomes[next + |b| - 1]) == Call(m + 1, 0)
    requires LoopOutcome(query, cache, outcomes, m + 1, next + |b|, rest)
    requires r == Prefixed(b, rest)
    ensures LoopOutcome(query, cache, outcomes, m, next, r)
  {
    ChainedJoin(outcomes, next, b, rest.calls);
    assert r.calls[0] == b[0];
    assert next + |r.calls| - 1 == (next + |b|) + |rest.calls| - 1;
  }

  /** A resolution that misses the cache makes exactly the calls the policy
      prescribes; the first success is returned and cached under the exact
      query, and if no call succeeds the busy text is returned and the cache
      is unchanged. */
  lemma ResolveFollowsPolicy(query: string, cache: map<string, string>, outcomes: seq<Outcome>)
    requires query !in cache && |outcomes| >= MaxCalls
    ensures var r := Resolve(query, cache, outcomes);
      && |r.calls| <= |outcomes|
      && FollowsPolicy(outcomes, r.calls)
      && var o := outcomes[|r.calls| - 1];
         && (o.Success? ==> r.answer == o.text && r.cache == cache[query := o.text])
         && (o.Err? ==> r.answer == Busy && r.cache == cache)
  {
    FallBackFollowsPolicy(query, cache, outcomes, 0, 0);
  }

  /** A chained trace does not halt before its last call. */
  lemma NoHaltBeforeEnd(outcomes: seq<Outcome>, calls: seq<Call>, k: nat)
    requires |calls| <= |outcomes| && Chained(outcomes, 0, calls) && k + 1 < |calls|
    ensures outcomes[k].Err? && NextCall(calls[k], outcomes[k]).model < |Models|
  {
    assert StepOk(outcomes, 0, calls, k);
  }

  /** Two traces that follow the policy on the same outcomes agree up to the
      shorter one's length. */
  lemma {:induction false} PolicyPrefix(outcomes: seq<Outcome>, c1: seq<Call>, c2: seq<Call>, k: nat)
    requires |c1| <= |outcomes| && |c2| <= |outcomes|
    requires FollowsPolicy(outcomes, c1) && FollowsPolicy(outcomes, c2)
    requires k < |c1| && k < |c2|
    ensures c1[k] == c2[k]
  {
    if k > 0 {
      PolicyPrefix(outcomes, c1, c2, k - 1);
      assert StepOk(outcomes, 0, c1, k - 1) && StepOk(outcomes, 0, c2, k - 1);
    }
  }

  /** The policy determines the trace: given the outcomes, at most one
      sequence of calls follows it. */
  lemma PolicyDeterministic(outcomes: seq<Outcome>, c1: seq<Call>, c2: seq<Call>)
    requires |c1| <= |outcomes| && |c2| <= |outcomes|
    requires FollowsPolicy(outcomes, c1) && FollowsPolicy(outcomes, c2)
    ensures c1 == c2
  {
    forall k | 0 <= k < |c1| && k < |c2|
      ensures c1[k] == c2[k]
    {
      PolicyPrefix(outcomes, c1, c2, k);
    }
    if |c1| < |c2| {
      NoHaltBeforeEnd(outcomes, c2, |c1| - 1);
    } else if |c2| < |c1| {
      NoHaltBeforeEnd(outcomes, c1, |c2| - 1);
    }
  }

  /* ---------------------------------------------------------------------
     Consequences for callers.
     --------------------------------------------------------------------- */

  /** On a cache miss the calls are a run on the first model followed by a
      run on the second: each model gets at most `MaxRetries` calls, the first
      model comes first, and the second is tried only after the first was
      given up. */
  lemma CallsPerModel(query: string, cache: map<string, string>, outcomes: seq<Outcome>) returns (u0: nat, u1: nat)
    requires query !in cache && |outcomes| >= MaxCalls
    ensures 1 <= u0 <= MaxRetries && u1 <= MaxRetries
    ensures Resolve(query, cache, outcomes).calls == Block(0, u0) + Block(1, u1)
    ensures u1 > 0 ==> TryModel(outcomes, 0, 0) == GaveUp(u0)
  {
    var run := TryModel(outcomes, 0, 0);
    u0 := run.used;
    if run.Answered? {
      u1 := 0;
      FallBackAnswered(query, cache, outcomes, 0, 0);
      assert Block(0, u0) + Block(1, 0) == Block(0, u0);
    } else {
      FallBackGaveUp(query, cache, outcomes, 0, 0);
      var run1 := TryModel(outcomes, u0, 0);
      u1 := run1.used;
      if run1.Answered? {
        FallBackAnswered(query, cache, outcomes, 1, u0);
      } else {
        FallBackGaveUp(query, cache, outcomes, 1, u0);
        assert Block(1, u1) + [] == Block(1, u1);
      }
    }
  }

  /** When every call hits the rate limit, each model is tried `MaxRetries`
      times, the busy text comes back and nothing is cached. */
  lemma AllRateLimited(query: string, cache: map<string, string>, outcomes: seq<Outcome>)
    requires query !in cache && |outcomes| >= MaxCalls
    requires forall i | 0 <= i < MaxCalls :: outcomes[i].Err? && IsRateLimit(outcomes[i].msg)
    ensures Resolve(query, cache, outcomes) == Resolution(Busy, cache, Block(0, MaxRetries) + Block(1, MaxRetries))
  {
    assert TryModel(outcomes, 0, 0) == GaveUp(MaxRetries);
    assert TryModel(outcomes, MaxRetries, 0) == GaveUp(MaxRetries);
    FallBackGaveUp(query, cache, outcomes, 0, 0);
    FallBackGaveUp(query, cache, outcomes, 1, MaxRetries);
    assert Block(1, MaxRetries) + [] == Block(1, MaxRetries);
  }

  /** An error other than a rate limit on the first model moves straight to
      the second, whose first success is the answer and is cached. */
  lemma HardErrorFallsBack(query: string, cache: map<string, string>, outcomes: seq<Outcome>, text: string)
    requires query !in cache && |outcomes| >= MaxCalls
    requires outcomes[0].Err? && !IsRateLimit(outcomes[0].msg)
    requires outcomes[1] == Success(text)
    ensures Resolve(query, cache, outcomes) == Resolution(text, cache[query := text], [Call(0, 0), Call(1, 0)])
  {
    assert TryModel(outcomes, 0, 0) == GaveUp(1);
    assert TryModel(outcomes, 1, 0) == Answered(text, 1);
    FallBackGaveUp(query, cache, outcomes, 0, 0);
    FallBackAnswered(query, cache, outcomes, 1, 1);
    assert Block(0, 1) == [Call(0, 0)] && Block(1, 1) == [Call(1, 0)];
  }

  /** Asking again with the cache the first resolution left behind: a query
      that got an answer is served from the cache with the same answer and no
      call, and one that got the busy text is resolved afresh. */
  lemma AskAgain(query: string, cache: map<string, string>, outcomes: seq<Outcome>, later: seq<Outcome>)
    requires |outcomes| >= MaxCalls && |later| >= MaxCalls
    ensures var first := Resolve(query, cache, outcomes);
      && (query in first.cache ==> Resolve(query, first.cache, later) == Resolution(first.answer, first.cache, []))
      && (query !in first.cache ==> first.answer == Busy && first.cache == cache)
  {
    if query !in cache {
      ResolveFollowsPolicy(query, cache, outcomes);
    }
  }
}
