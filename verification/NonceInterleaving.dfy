/** All goroutines of one sender: every interleaving of preparing, submitting, failing and
    resetting, against a transaction pool that also moves by itself. */
module NonceInterleaving {
  import opened Common
  import opened NonceAllocator

  /** What the node answers: the first nonce from `base` on with no transaction in the pool. */
  function PendingNonceAt(base: nat, accepted: set<nat>): (n: nat)
    ensures base <= n && n !in accepted && forall k :: base <= k < n ==> k in accepted
    decreases |accepted|
  {
    if base !in accepted then base
    else
      var n := PendingNonceAt(base + 1, accepted - {base});
      assert forall k :: base <= k < n ==> k in accepted by {
        forall k | base <= k < n ensures k in accepted {
          assert k == base || k in accepted - {base};
        }
      }
      n
  }

  /** Where a goroutine stands between two lock acquisitions. */
  datatype Phase =
    | Idle
    | InFlight(nonce: nat)
    | ResetDue(failed: Option<nat>)

  /** `base` is the number of mined transactions of the sender and `accepted` all nonces that have a
      transaction. `start` and `handed` record the last node answer cached and the nonces given out
      since. */
  datatype System = System(
    cached: Option<nat>, base: nat, accepted: set<nat>, phases: map<nat, Phase>, start: nat, handed: seq<nat>)
  {
    function PhaseOf(g: nat): Phase {
      if g in phases then phases[g] else Idle
    }

    /** `g` submits this nonce or failed with it and has not reset the cache yet. */
    predicate Holds(g: nat, nonce: nat) {
      PhaseOf(g) == InFlight(nonce) || PhaseOf(g) == ResetDue(Some(nonce))
    }
  }

  datatype Step =
    | PrepareStep(g: nat, keyOk: bool, readOk: bool)
    | SubmitAccepted(g: nat)
    | SubmitFails(g: nat, reachedPool: bool)
    | ResetStep(g: nat)
    | Mine
    | AcceptOther(nonce: nat)

  /** A step that is not enabled leaves the system as it is. */
  function Next(s: System, step: Step): System {
    match step
    case PrepareStep(g, keyOk, readOk) =>
      if s.PhaseOf(g) != Idle then s
      else
        var pending := PendingNonceAt(s.base, s.accepted);
        var got := Prepare(s.cached, keyOk, if readOk then Some(pending) else None);
        if got.nonce.None? then s.(cached := got.cached, phases := s.phases[g := ResetDue(None)])
        else
          s.(cached := got.cached,
             phases := s.phases[g := InFlight(got.nonce.value)],
             start := if s.cached.None? then pending else s.start,
             handed := s.handed + [got.nonce.value])
    case SubmitAccepted(g) =>
      if !s.PhaseOf(g).InFlight? then s
      else s.(accepted := s.accepted + {s.PhaseOf(g).nonce}, phases := s.phases[g := Idle])
    case SubmitFails(g, reachedPool) =>
      if !s.PhaseOf(g).InFlight? then s
      else
        var n := s.PhaseOf(g).nonce;
        s.(accepted := if reachedPool then s.accepted + {n} else s.accepted,
           phases := s.phases[g := ResetDue(Some(n))])
    case ResetStep(g) =>
      if s.PhaseOf(g).InFlight? then s
      else s.(cached := None, phases := s.phases[g := Idle], handed := [])
    case Mine => if s.base in s.accepted then s.(base := s.base + 1) else s
    case AcceptOther(nonce) => s.(accepted := s.accepted + {nonce})
  }

  function Exec(s: System, steps: seq<Step>): System
    decreases |steps|
  {
    if steps == [] then s else Exec(Next(s, steps[0]), steps[1..])
  }

  function Started(base: nat, accepted: set<nat>): System {
    System(None, base, accepted, map[], 0, [])
  }

  /** The nonces given out since the last reset are consecutive from the node's answer on. */
  ghost predicate HandedIsInterval(s: System) {
    match s.cached
    case None => s.handed == []
    case Some(c) => s.start + |s.handed| == c && forall i :: 0 <= i < |s.handed| ==> s.handed[i] == s.start + i
  }

  ghost predicate BelowStartAccepted(s: System) {
    s.cached.Some? ==> forall n :: s.base <= n < s.start ==> n in s.accepted
  }

  ghost predicate HandedAccountedFor(s: System) {
    forall n :: n in s.handed ==> n in s.accepted || exists g :: s.Holds(g, n)
  }

  ghost predicate Invariant(s: System) {
    HandedIsInterval(s) && BelowStartAccepted(s) && HandedAccountedFor(s)
  }

  lemma {:induction false} NextAccountsForHanded(s: System, step: Step)
    requires Invariant(s)
    ensures HandedAccountedFor(Next(s, step))
  {
    var s' := Next(s, step);
    forall n | n in s'.handed ensures n in s'.accepted || exists g :: s'.Holds(g, n) {
      if n in s.handed && n !in s.accepted {
        var g :| s.Holds(g, n);
        assert s'.Holds(g, n) || n in s'.accepted || step.ResetStep?;
      } else if n !in s.handed {
        assert s'.Holds(step.g, n);
      }
    }
  }

  lemma {:induction false} NextKeepsInvariant(s: System, step: Step)
    requires Invariant(s)
    ensures Invariant(Next(s, step))
  {
    NextAccountsForHanded(s, step);
  }

  lemma {:induction false} RunKeepsInvariant(s: System, steps: seq<Step>)
    requires Invariant(s)
    ensures Invariant(Exec(s, steps))
    decreases |steps|
  {
    if steps != [] {
      NextKeepsInvariant(s, steps[0]);
      RunKeepsInvariant(Next(s, steps[0]), steps[1..]);
    }
  }

  /** No nonce is skipped: in every interleaving, each nonce between the mined ones and the cached one
      has a transaction, or a goroutine that was given it since the last reset still submits it, or
      failed with it and is about to reset the cache. */
  lemma {:induction false} NoNonceSkipped(base: nat, accepted: set<nat>, steps: seq<Step>, n: nat)
    ensures var s := Exec(Started(base, accepted), steps);
            s.cached.Some? && s.base <= n < s.cached.value ==>
              n in s.accepted || (n in s.handed && exists g :: s.Holds(g, n))
  {
    RunKeepsInvariant(Started(base, accepted), steps);
    var s := Exec(Started(base, accepted), steps);
    if s.cached.Some? && s.base <= n < s.cached.value && n !in s.accepted {
      assert s.handed[n - s.start] == n;
    }
  }

  /** With no attempt outstanding the cached nonce has no gap below it. */
  lemma {:induction false} AtRestNothingIsMissing(base: nat, accepted: set<nat>, steps: seq<Step>)
    ensures var s := Exec(Started(base, accepted), steps);
            (forall g :: s.PhaseOf(g) == Idle) && s.cached.Some? ==>
              forall n :: s.base <= n < s.cached.value ==> n in s.accepted
  {
    var s := Exec(Started(base, accepted), steps);
    if (forall g :: s.PhaseOf(g) == Idle) && s.cached.Some? {
      forall n: nat | s.base <= n < s.cached.value ensures n in s.accepted {
        NoNonceSkipped(base, accepted, steps, n);
      }
    }
  }

  /** Between two resets no nonce is handed out twice and none is left out. */
  lemma {:induction false} HandedOutInOrder(base: nat, accepted: set<nat>, steps: seq<Step>)
    ensures var s := Exec(Started(base, accepted), steps);
            && (forall i, j :: 0 <= i < j < |s.handed| ==> s.handed[j] == s.handed[i] + (j - i))
            && (s.cached.Some? ==>
                  && s.handed != [] && s.handed[0] == s.start
                  && s.handed[|s.handed| - 1] + 1 == s.cached.value)
            && (s.cached.None? ==> s.handed == [])
  {
    RunKeepsInvariant(Started(base, accepted), steps);
    NeverEmptyWhenCached(Started(base, accepted), steps);
  }

  lemma {:induction false} NeverEmptyWhenCached(s: System, steps: seq<Step>)
    requires s.cached.Some? ==> s.handed != []
    ensures var s' := Exec(s, steps); s'.cached.Some? ==> s'.handed != []
    decreases |steps|
  {
    if steps != [] {
      NeverEmptyWhenCached(Next(s, steps[0]), steps[1..]);
    }
  }
}
