/** The cached nonce one sender shares between the goroutines of all registries, and its retries. */
module NonceAllocator {
  import opened Common

  // ---------- One goroutine ----------

  datatype Prepared = Prepared(nonce: Option<nat>, cached: Option<nat>)

  /** `prepareTransactor`: the nonce handed out, None for an error, and the cache left behind.
      `pending` is the node's answer, None for a failed call; it matters only if the cache is empty. */
  function Prepare(cached: Option<nat>, keyOk: bool, pending: Option<nat>): Prepared {
    if !keyOk then Prepared(None, cached)
    else
      var known := if cached.None? then pending else cached;
      if known.None? then Prepared(None, None) else Prepared(known, Some(known.value + 1))
  }

  /** What a caller can rely on: an error, which means a bad key or no nonce known and no answer, leaves
      the cache alone; otherwise the nonce known, or else the node's, is handed out and the next cached. */
  lemma {:induction false} PrepareExactly(cached: Option<nat>, keyOk: bool, pending: Option<nat>)
    ensures var got := Prepare(cached, keyOk, pending);
            && (got.nonce.None? <==> !keyOk || (cached.None? && pending.None?))
            && (got.nonce.None? ==> got.cached == cached)
            && (got.nonce.Some? && cached.Some? ==> got.nonce == cached)
            && (got.nonce.Some? && cached.None? ==> got.nonce == pending)
            && (got.nonce.Some? ==> got.cached.Some? && got.cached.value == got.nonce.value + 1)
  {
  }

  const SECOND := 1_000_000_000

  /** Wrap-around of Go's 64-bit int and time.Duration. */
  function Wrap64(x: int): int {
    (x + INT64_LIMIT) % (2 * INT64_LIMIT) - INT64_LIMIT
  }

  /** `time.Duration(1<<attempt) * time.Second`, in nanoseconds. */
  function Backoff(attempt: nat): int {
    Wrap64(Wrap64(Pow2(attempt)) * SECOND)
  }

  datatype Call = Call(attempt: nat, nonce: nat, accepted: bool)

  /** What one attempt meets: what other goroutines made of the shared cache by the time the lock is
      taken and while the submission is under way (None if they left it alone), the key, the node and
      the answer to the submission. */
  datatype Attempt = Attempt(others: Option<Option<nat>>, keyOk: bool, pending: Option<nat>, accepts: nat -> bool,
                             meanwhile: Option<Option<nat>>)
  {
    function Seen(cached: Option<nat>): Option<nat> {
      if others.Some? then others.value else cached
    }

    function Left(cached: Option<nat>): Option<nat> {
      if meanwhile.Some? then meanwhile.value else cached
    }
  }

  datatype Outcome = Outcome(ok: bool, nonce: nat, attempts: int, calls: seq<Call>, sleeps: seq<int>,
                             cached: Option<nat>)
  {
    function After(calls': seq<Call>, sleeps': seq<int>): Outcome {
      this.(calls := calls' + calls, sleeps := sleeps' + sleeps)
    }
  }

  /** `submitWithRetry` from attempt `k` on, with every submission and sleep it makes. */
  function Retry(cached: Option<nat>, env: seq<Attempt>, k: nat, maxRetries: int, lastNonce: nat): Outcome
    requires maxRetries <= |env|
    decreases maxRetries - k
  {
    if k >= maxRetries then Outcome(maxRetries <= 0, lastNonce, maxRetries, [], [], None)
    else
      var slept := if k > 0 then [Backoff(k)] else [];
      var got := Prepare(env[k].Seen(if k > 0 then None else cached), env[k].keyOk, env[k].pending);
      if got.nonce.None? then Retry(got.cached, env, k + 1, maxRetries, lastNonce).After([], slept)
      else
        var n := got.nonce.value;
        if env[k].accepts(n) then Outcome(true, n, k + 1, [Call(k, n, true)], slept, env[k].Left(got.cached))
        else Retry(env[k].Left(got.cached), env, k + 1, maxRetries, n).After([Call(k, n, false)], slept)
  }

  /** `o` is what a caller gets that has made `calls` and `sleeps` so far and is about to start attempt `k`. */
  ghost predicate OnTheWay(o: Outcome, env: seq<Attempt>, k: nat, maxRetries: int,
                           cached: Option<nat>, lastNonce: nat, calls: seq<Call>, sleeps: seq<int>)
    requires maxRetries <= |env|
  {
    o == Retry(cached, env, k, maxRetries, lastNonce).After(calls, sleeps)
  }

  lemma {:induction false} AfterTwice(r: Outcome, calls: seq<Call>, sleeps: seq<int>, calls': seq<Call>,
                                      sleeps': seq<int>)
    ensures r.After(calls', sleeps').After(calls, sleeps) == r.After(calls + calls', sleeps + sleeps')
  {
    assert calls + (calls' + r.calls) == (calls + calls') + r.calls;
    assert sleeps + (sleeps' + r.sleeps) == (sleeps + sleeps') + r.sleeps;
  }

  lemma {:induction false} OneAttempt(o: Outcome, env: seq<Attempt>, k: nat, maxRetries: int, cached: Option<nat>,
                                      lastNonce: nat, calls: seq<Call>, sleeps: seq<int>)
    requires k < maxRetries <= |env| && OnTheWay(o, env, k, maxRetries, cached, lastNonce, calls, sleeps)
    ensures var slept := if k > 0 then sleeps + [Backoff(k)] else sleeps;
            var got := Prepare(env[k].Seen(if k > 0 then None else cached), env[k].keyOk, env[k].pending);
            match got.nonce
            case None => OnTheWay(o, env, k + 1, maxRetries, got.cached, lastNonce, calls, slept)
            case Some(n) =>
              if env[k].accepts(n)
              then o == Outcome(true, n, k + 1, calls + [Call(k, n, true)], slept, env[k].Left(got.cached))
              else OnTheWay(o, env, k + 1, maxRetries, env[k].Left(got.cached), n, calls + [Call(k, n, false)], slept)
  {
    var slept := if k > 0 then [Backoff(k)] else [];
    var got := Prepare(env[k].Seen(if k > 0 then None else cached), env[k].keyOk, env[k].pending);
    assert sleeps + [] == sleeps && calls + [] == calls;
    if got.nonce.None? {
      AfterTwice(Retry(got.cached, env, k + 1, maxRetries, lastNonce), calls, sleeps, [], slept);
    } else if !env[k].accepts(got.nonce.value) {
      var n := got.nonce.value;
      AfterTwice(Retry(env[k].Left(got.cached), env, k + 1, maxRetries, n), calls, sleeps, [Call(k, n, false)], slept);
    }
  }

  class Sender {
    var currentNonce: Option<nat>

    constructor ()
      ensures currentNonce == None
    {
      currentNonce := None;
    }

    method PrepareTransactor(keyOk: bool, pending: Option<nat>) returns (nonce: Option<nat>)
      modifies this
      ensures Prepared(nonce, currentNonce) == Prepare(old(currentNonce), keyOk, pending)
      ensures nonce.None? <==> !keyOk || (old(currentNonce).None? && pending.None?)
      ensures nonce.None? ==> currentNonce == old(currentNonce)
      ensures nonce.Some? ==> nonce == (if old(currentNonce).Some? then old(currentNonce) else pending)
                              && currentNonce == Some(nonce.value + 1)
    {
      if !keyOk {
        return None;
      }
      if currentNonce.None? {
        if pending.None? {
          return None;
        }
        currentNonce := pending;
      }
      nonce := currentNonce;
      currentNonce := Some(currentNonce.value + 1);
    }

    /** `ok` is the absence of an error; `calls` and `sleeps` record what was done on the way. */
    method SubmitWithRetry(env: seq<Attempt>, maxRetries: int)
      returns (ok: bool, nonce: nat, attempts: int, calls: seq<Call>, sleeps: seq<int>)
      requires maxRetries <= |env|
      modifies this
      ensures Outcome(ok, nonce, attempts, calls, sleeps, currentNonce)
           == Retry(old(currentNonce), env, 0, maxRetries, 0)
    {
      calls, sleeps := [], [];
      var failed, lastNonce := false, 0;
      ghost var o := Retry(currentNonce, env, 0, maxRetries, 0);
      assert o.After([], []) == o;
      var attempt := 0;
      while attempt < maxRetries
        invariant 0 <= attempt && (attempt <= maxRetries || attempt == 0)
        invariant failed <==> attempt > 0
        invariant OnTheWay(o, env, attempt, maxRetries, currentNonce, lastNonce, calls, sleeps)
      {
        OneAttempt(o, env, attempt, maxRetries, currentNonce, lastNonce, calls, sleeps);
        if attempt > 0 {
          currentNonce := None;
          sleeps := sleeps + [Backoff(attempt)];
        }
        if env[attempt].others.Some? {
          currentNonce := env[attempt].others.value;
        }
        var got := PrepareTransactor(env[attempt].keyOk, env[attempt].pending);
        if got.Some? {
          lastNonce := got.value;
          var accepted := env[attempt].accepts(got.value);
          calls := calls + [Call(attempt, got.value, accepted)];
          if env[attempt].meanwhile.Some? {
            currentNonce := env[attempt].meanwhile.value;
          }
          if accepted {
            return true, got.value, attempt + 1, calls, sleeps;
          }
        }
        failed := true;
        attempt := attempt + 1;
      }
      currentNonce := None;
      return !failed, lastNonce, maxRetries, calls, sleeps;
    }
  }
}
