/** What a caller of `submitWithRetry` is told, how long it waits, and when a retry recovers. */
module RetryLaws {
  import opened Common
  import opened NonceAllocator
  import opened NonceInterleaving

  ghost predicate OnlyLastAccepted(calls: seq<Call>) {
    calls != [] && calls[|calls| - 1].accepted && forall i :: 0 <= i < |calls| - 1 ==> !calls[i].accepted
  }

  ghost predicate NoneAccepted(calls: seq<Call>) {
    forall i :: 0 <= i < |calls| ==> !calls[i].accepted
  }

  ghost predicate Truthful(o: Outcome, env: seq<Attempt>, maxRetries: int)
    requires maxRetries <= |env|
  {
    && 1 <= o.attempts <= maxRetries
    && (o.ok ==> OnlyLastAccepted(o.calls) && o.nonce == o.calls[|o.calls| - 1].nonce
                 && o.cached == env[o.attempts - 1].Left(Some(o.nonce + 1)))
    && (!o.ok ==> NoneAccepted(o.calls) && o.attempts == maxRetries && o.cached == None)
  }

  function LastNonce(calls: seq<Call>, before: nat): nat {
    if calls == [] then before else calls[|calls| - 1].nonce
  }

  /** `last` is the nonce of the refused submission, if there was one. */
  lemma {:induction false} TruthfulAfter(o: Outcome, env: seq<Attempt>, maxRetries: int, refused: seq<Call>,
                                         slept: seq<int>, last: nat, lastNonce: nat)
    requires maxRetries <= |env| && Truthful(o, env, maxRetries) && NoneAccepted(refused) && |refused| <= 1
    requires o.nonce == LastNonce(o.calls, last) && last == LastNonce(refused, lastNonce)
    ensures Truthful(o.After(refused, slept), env, maxRetries)
    ensures o.After(refused, slept).nonce == LastNonce(o.After(refused, slept).calls, lastNonce)
  {
  }

  lemma {:induction false} ReportFrom(cached: Option<nat>, env: seq<Attempt>, k: nat, maxRetries: int, lastNonce: nat)
    requires k <= maxRetries <= |env| && maxRetries >= 1
    ensures var o := Retry(cached, env, k, maxRetries, lastNonce);
            && k <= o.attempts && Truthful(o, env, maxRetries)
            && o.nonce == LastNonce(o.calls, lastNonce)
    decreases maxRetries - k
  {
    if k < maxRetries {
      var got := Prepare(env[k].Seen(if k > 0 then None else cached), env[k].keyOk, env[k].pending);
      var last := if got.nonce.None? then lastNonce else got.nonce.value;
      var refused := if got.nonce.None? then [] else [Call(k, got.nonce.value, false)];
      if got.nonce.Some? && env[k].accepts(last) {
        return;
      }
      var left := if got.nonce.None? then got.cached else env[k].Left(got.cached);
      ReportFrom(left, env, k + 1, maxRetries, last);
      TruthfulAfter(Retry(left, env, k + 1, maxRetries, last), env, maxRetries, refused,
                    if k > 0 then [Backoff(k)] else [], last, lastNonce);
    }
  }

  /** The attempt before which the first sleep of a run from `k` on is taken. */
  function FirstSleep(k: nat): nat {
    if k == 0 then 1 else k
  }

  lemma {:induction false} SleepsFrom(cached: Option<nat>, env: seq<Attempt>, k: nat, maxRetries: int, lastNonce: nat)
    requires k <= maxRetries <= |env| && maxRetries >= 1
    ensures var o := Retry(cached, env, k, maxRetries, lastNonce);
            && |o.sleeps| == o.attempts - FirstSleep(k)
            && forall i :: 0 <= i < |o.sleeps| ==> o.sleeps[i] == Backoff(FirstSleep(k) + i)
    decreases maxRetries - k
  {
    if k < maxRetries {
      var got := Prepare(env[k].Seen(if k > 0 then None else cached), env[k].keyOk, env[k].pending);
      var last := if got.nonce.None? then lastNonce else got.nonce.value;
      var left := if got.nonce.None? then got.cached else env[k].Left(got.cached);
      SleepsFrom(left, env, k + 1, maxRetries, last);
    }
  }

  /** With at least one attempt allowed, no error is reported exactly when the last submission was
      accepted; it is then the only one, and the next nonce is cached unless others changed the cache
      meanwhile. After an error no submission was accepted and the cache is empty. The nonce reported is
      that of the last submission. */
  lemma {:induction false} ReportIsTruthful(cached: Option<nat>, env: seq<Attempt>, maxRetries: int)
    requires 1 <= maxRetries <= |env|
    ensures var o := Retry(cached, env, 0, maxRetries, 0);
            && 1 <= o.attempts <= maxRetries
            && (o.ok <==> OnlyLastAccepted(o.calls))
            && o.nonce == (if o.calls == [] then 0 else o.calls[|o.calls| - 1].nonce)
            && (o.ok ==> o.cached == env[o.attempts - 1].Left(Some(o.nonce + 1)))
            && (!o.ok ==> NoneAccepted(o.calls) && o.attempts == maxRetries && o.cached == None)
  {
    ReportFrom(cached, env, 0, maxRetries, 0);
  }

  /** With `maxRetries <= 0` the absence of an error means nothing: nothing was submitted. So success
      can be trusted exactly when at least one attempt is allowed. */
  lemma {:induction false} SuccessNeedsAnAttempt(cached: Option<nat>, env: seq<Attempt>, maxRetries: int)
    requires maxRetries <= |env|
    ensures var o := Retry(cached, env, 0, maxRetries, 0);
            (o.ok ==> o.calls != [] && o.calls[|o.calls| - 1].accepted) <==> maxRetries >= 1
  {
    if maxRetries >= 1 {
      ReportFrom(cached, env, 0, maxRetries, 0);
    }
  }

  /** With no attempt allowed nothing is done but to empty the cache. */
  lemma {:induction false} NoAttemptAtAll(cached: Option<nat>, env: seq<Attempt>, maxRetries: int)
    requires maxRetries <= 0
    ensures Retry(cached, env, 0, maxRetries, 0) == Outcome(true, 0, maxRetries, [], [], None)
  {
  }

  // ---------- Every retry asks the node ----------

  /** What attempt `k` finds cached when it takes the lock: the first one what was cached at the call, a
      later one nothing, unless others changed it. */
  function FoundCached(cached: Option<nat>, env: seq<Attempt>, k: nat): Option<nat>
    requires k < |env|
  {
    if env[k].others.Some? then env[k].others.value else if k == 0 then cached else None
  }

  /** The nonce attempt `k` submits, if it gets so far: the one it finds cached, or else the node's answer. */
  function NonceOf(cached: Option<nat>, env: seq<Attempt>, k: nat): Option<nat>
    requires k < |env|
  {
    if !env[k].keyOk then None
    else if FoundCached(cached, env, k).Some? then FoundCached(cached, env, k)
    else env[k].pending
  }

  /** The submissions of the attempts from `k` up to `end`, one for each that has a nonce. */
  function RightCalls(cached: Option<nat>, env: seq<Attempt>, k: nat, end: nat): seq<Call>
    requires k <= end <= |env|
    decreases end - k
  {
    if k == end then []
    else
      (match NonceOf(cached, env, k) case None => [] case Some(n) => [Call(k, n, env[k].accepts(n))])
      + RightCalls(cached, env, k + 1, end)
  }

  lemma {:induction false} CallsFrom(start: Option<nat>, cached: Option<nat>, env: seq<Attempt>, k: nat,
                                     maxRetries: int, lastNonce: nat)
    requires k <= maxRetries <= |env| && maxRetries >= 1 && (k == 0 ==> start == cached)
    ensures var o := Retry(cached, env, k, maxRetries, lastNonce);
            k <= o.attempts <= maxRetries && o.calls == RightCalls(start, env, k, o.attempts)
    decreases maxRetries - k
  {
    if k < maxRetries {
      var got := Prepare(env[k].Seen(if k > 0 then None else cached), env[k].keyOk, env[k].pending);
      assert got.nonce == NonceOf(start, env, k);
      var last := if got.nonce.None? then lastNonce else got.nonce.value;
      if got.nonce.Some? && env[k].accepts(last) {
        assert RightCalls(start, env, k + 1, k + 1) == [];
      } else {
        CallsFrom(start, if got.nonce.None? then got.cached else env[k].Left(got.cached), env, k + 1, maxRetries, last);
      }
    }
  }

  lemma {:induction false} RightCallsAskTheNode(cached: Option<nat>, env: seq<Attempt>, k: nat, end: nat, c: Call)
    requires k <= end <= |env| && c in RightCalls(cached, env, k, end)
    ensures k <= c.attempt < end && env[c.attempt].keyOk && c.accepted == env[c.attempt].accepts(c.nonce)
    ensures c.attempt > 0 && env[c.attempt].others.None? ==> env[c.attempt].pending == Some(c.nonce)
    decreases end - k
  {
    if c in RightCalls(cached, env, k + 1, end) {
      RightCallsAskTheNode(cached, env, k + 1, end, c);
    }
  }

  /** Each attempt made submits exactly if its key is fine and a nonce is known: the first one with the
      nonce cached at the call or else the node's answer, every later one, the third like the second, with
      the node's answer, unless other goroutines filled the cache after the reset. */
  lemma {:induction false} RetriesAskTheNode(cached: Option<nat>, env: seq<Attempt>, maxRetries: int)
    requires 1 <= maxRetries <= |env|
    ensures var o := Retry(cached, env, 0, maxRetries, 0);
            && 1 <= o.attempts <= maxRetries && o.calls == RightCalls(cached, env, 0, o.attempts)
            && forall c :: c in o.calls ==>
                 && c.attempt < o.attempts
                 && (c.attempt > 0 && env[c.attempt].others.None? ==> env[c.attempt].pending == Some(c.nonce))
  {
    var o := Retry(cached, env, 0, maxRetries, 0);
    ReportFrom(cached, env, 0, maxRetries, 0);
    CallsFrom(cached, cached, env, 0, maxRetries, 0);
    forall c | c in o.calls
      ensures c.attempt < o.attempts
      ensures c.attempt > 0 && env[c.attempt].others.None? ==> env[c.attempt].pending == Some(c.nonce)
    {
      RightCallsAskTheNode(cached, env, 0, o.attempts, c);
    }
  }

  // ---------- Waiting ----------

  lemma {:induction false} Pow2Monotone(a: nat, b: nat)
    requires a <= b
    ensures Pow2(a) <= Pow2(b)
    decreases b
  {
    if a < b {
      Pow2Monotone(a, b - 1);
    }
  }

  lemma {:induction false} Pow2PlusFive(n: nat)
    ensures Pow2(n + 5) == 32 * Pow2(n)
  {
    assert Pow2(n + 5) == 2 * Pow2(n + 4) == 4 * Pow2(n + 3);
    assert Pow2(n + 3) == 2 * Pow2(n + 2) == 4 * Pow2(n + 1);
  }

  lemma {:induction false} Pow2Of33()
    ensures Pow2(33) == 8_589_934_592
  {
    Pow2PlusFive(3);
    Pow2PlusFive(8);
    Pow2PlusFive(13);
    Pow2PlusFive(18);
    Pow2PlusFive(23);
    Pow2PlusFive(28);
    assert Pow2(3) == 8;
  }

  lemma {:induction false} Wrap64Exact(x: nat)
    ensures Wrap64(x) == x <==> x < INT64_LIMIT
    ensures Wrap64(x) < INT64_LIMIT
  {
  }

  /** One backoff is the intended number of seconds exactly up to attempt 33; from 34 on the 64-bit
      arithmetic overflows. */
  lemma {:induction false} BackoffExactUpTo33(attempt: nat)
    ensures Backoff(attempt) == Pow2(attempt) * SECOND <==> attempt <= 33
  {
    var factor := Pow2(attempt);
    Pow2Of33();
    Wrap64Exact(factor);
    if attempt <= 33 {
      Pow2Monotone(attempt, 33);
      Wrap64Exact(factor * SECOND);
    } else {
      Pow2Monotone(34, attempt);
      assert Pow2(34) == 2 * Pow2(33);
      assert Backoff(attempt) < INT64_LIMIT <= factor * SECOND;
    }
  }

  /** Beyond that the backoff is the intended number less some multiple of 2^64, and may be negative. */
  lemma {:induction false} BackoffWraps(attempt: nat) returns (turns: int)
    ensures -INT64_LIMIT <= Backoff(attempt) < INT64_LIMIT
    ensures Backoff(attempt) == Pow2(attempt) * SECOND + turns * (2 * INT64_LIMIT)
  {
    var first := WrapBy(Pow2(attempt));
    var second := WrapBy(Wrap64(Pow2(attempt)) * SECOND);
    turns := first * SECOND + second;
  }

  lemma {:induction false} WrapBy(x: int) returns (turns: int)
    ensures -INT64_LIMIT <= Wrap64(x) < INT64_LIMIT && Wrap64(x) == x + turns * (2 * INT64_LIMIT)
  {
    turns := -((x + INT64_LIMIT) / (2 * INT64_LIMIT));
  }

  function Total(sleeps: seq<int>): int {
    if sleeps == [] then 0 else sleeps[0] + Total(sleeps[1..])
  }

  lemma {:induction false} TotalOfBackoffs(sleeps: seq<int>, first: nat)
    requires first + |sleeps| <= 34
    requires forall i :: 0 <= i < |sleeps| ==> sleeps[i] == Backoff(first + i)
    ensures Total(sleeps) == (Pow2(first + |sleeps|) - Pow2(first)) * SECOND
    decreases |sleeps|
  {
    if sleeps != [] {
      BackoffExactUpTo33(first);
      TotalOfBackoffs(sleeps[1..], first + 1);
      assert first + 1 + |sleeps[1..]| == first + |sleeps|;
    }
  }

  /** Up to 34 allowed attempts the caller waits exactly 2^attempts - 2 seconds. */
  lemma {:induction false} WaitsExactly(cached: Option<nat>, env: seq<Attempt>, maxRetries: int)
    requires 1 <= maxRetries <= |env| && maxRetries <= 34
    ensures var o := Retry(cached, env, 0, maxRetries, 0);
            o.attempts >= 1 && Total(o.sleeps) == (Pow2(o.attempts) - 2) * SECOND
  {
    ReportFrom(cached, env, 0, maxRetries, 0);
    SleepsFrom(cached, env, 0, maxRetries, 0);
    TotalOfBackoffs(Retry(cached, env, 0, maxRetries, 0).sleeps, 1);
    assert Pow2(1) == 2;
  }

  // ---------- Recovery ----------

  /** Nobody else acts, the key and the node work, and the pool refuses used nonces only. */
  ghost predicate Undisturbed(env: seq<Attempt>, base: nat, accepted: set<nat>) {
    forall k :: 0 <= k < |env| ==>
      && env[k].others == None && env[k].meanwhile == None && env[k].keyOk
      && env[k].pending == Some(PendingNonceAt(base, accepted))
      && forall n: nat :: env[k].accepts(n) <==> n !in accepted
  }

  /** Undisturbed, submission succeeds exactly if the cached nonce is usable or a second attempt is
      allowed: the reset makes the second attempt ask the node. It never takes a third one. */
  lemma {:induction false} RetryRecovers(cached: Option<nat>, env: seq<Attempt>, maxRetries: int, base: nat,
                                         accepted: set<nat>)
    requires 1 <= maxRetries <= |env| && Undisturbed(env, base, accepted)
    ensures var o := Retry(cached, env, 0, maxRetries, 0);
            var usable := cached.None? || cached.value !in accepted;
            && (o.ok <==> usable || maxRetries >= 2)
            && (o.ok ==> o.attempts == (if usable then 1 else 2) && o.nonce !in accepted)
            && (o.ok ==> o.nonce == if usable && cached.Some? then cached.value else PendingNonceAt(base, accepted))
  {
    assert env[0].accepts(PendingNonceAt(base, accepted));
    if maxRetries >= 2 {
      assert env[1].accepts(PendingNonceAt(base, accepted));
    }
  }
}
