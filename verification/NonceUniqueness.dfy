/** Which nonces can be in flight at the same time between two resets. */
module NonceUniqueness {
  import opened Common
  import opened NonceAllocator
  import opened NonceInterleaving

  ghost predicate InFlightDistinct(s: System) {
    forall g, h :: g != h && s.PhaseOf(g).InFlight? && s.PhaseOf(h).InFlight?
               ==> s.PhaseOf(g).nonce != s.PhaseOf(h).nonce
  }

  /** The nonce the next goroutine gets if the node answers. */
  function NextNonce(s: System): nat {
    if s.cached.Some? then s.cached.value else PendingNonceAt(s.base, s.accepted)
  }

  ghost predicate InFlightBelow(s: System) {
    forall g :: s.PhaseOf(g).InFlight? ==> s.PhaseOf(g).nonce < NextNonce(s)
  }

  /** Whatever happens, no two goroutines hold the same nonce before the next reset. */
  ghost predicate UniqueUntilReset(s: System) {
    forall steps :: NoReset(steps) ==> InFlightDistinct(Exec(s, steps))
  }

  ghost predicate NoReset(steps: seq<Step>) {
    forall i :: 0 <= i < |steps| ==> !steps[i].ResetStep?
  }

  /** The node's answer moves up only. */
  lemma {:induction false} PendingMovesUp(base: nat, accepted: set<nat>, base': nat, accepted': set<nat>)
    requires base <= base' && accepted <= accepted' && forall k :: base <= k < base' ==> k in accepted'
    ensures PendingNonceAt(base, accepted) <= PendingNonceAt(base', accepted')
  {
    assert PendingNonceAt(base', accepted') !in accepted;
  }

  lemma {:induction false} NextNonceMovesUp(s: System, step: Step)
    requires !step.ResetStep?
    ensures NextNonce(s) <= NextNonce(Next(s, step))
  {
    var s' := Next(s, step);
    PendingMovesUp(s.base, s.accepted, s'.base, s'.accepted);
  }

  lemma {:induction false} StepKeepsDistinct(s: System, step: Step)
    requires !step.ResetStep? && InFlightDistinct(s) && InFlightBelow(s)
    ensures InFlightDistinct(Next(s, step)) && InFlightBelow(Next(s, step))
  {
    var s' := Next(s, step);
    NextNonceMovesUp(s, step);
    forall g | s'.PhaseOf(g).InFlight?
      ensures s'.PhaseOf(g).nonce < NextNonce(s')
      ensures s'.PhaseOf(g) == s.PhaseOf(g) || (step.PrepareStep? && g == step.g && s'.PhaseOf(g).nonce == NextNonce(s))
    {
      assert s.PhaseOf(g).InFlight? ==> s.PhaseOf(g).nonce < NextNonce(s);
    }
  }

  lemma {:induction false} RunKeepsDistinct(s: System, steps: seq<Step>)
    requires NoReset(steps) && InFlightDistinct(s) && InFlightBelow(s)
    ensures InFlightDistinct(Exec(s, steps))
    decreases |steps|
  {
    if steps != [] {
      StepKeepsDistinct(s, steps[0]);
      RunKeepsDistinct(Next(s, steps[0]), steps[1..]);
    }
  }

  lemma {:induction false} SomeGoroutineIsNew(known: set<nat>) returns (g: nat)
    ensures forall k :: k in known ==> k < g
    decreases known
  {
    if known == {} {
      g := 0;
    } else {
      var k :| k in known;
      g := SomeGoroutineIsNew(known - {k});
      assert forall j :: j in known ==> j == k || j in known - {k};
      if g <= k {
        g := k + 1;
      }
    }
  }

  /** While `holder` has a nonce in flight that is not below the next one, new goroutines are given
      nonces up to it, and then that one. */
  lemma {:induction false} NonceIsGivenAgain(s: System, holder: nat) returns (steps: seq<Step>)
    requires s.PhaseOf(holder).InFlight? && s.PhaseOf(holder).nonce >= NextNonce(s)
    ensures NoReset(steps) && !InFlightDistinct(Exec(s, steps))
    decreases if s.PhaseOf(holder).InFlight? then s.PhaseOf(holder).nonce - NextNonce(s) else 0
  {
    var g := SomeGoroutineIsNew(s.phases.Keys + {holder});
    assert g !in s.phases && g != holder;
    var prepare := PrepareStep(g, true, true);
    var s' := Next(s, prepare);
    assert s'.PhaseOf(g) == InFlight(NextNonce(s)) && s'.PhaseOf(holder) == s.PhaseOf(holder);
    if s.PhaseOf(holder).nonce == NextNonce(s) {
      steps := [prepare];
      assert Exec(s', []) == s' && [prepare][1..] == [];
    } else {
      var rest := NonceIsGivenAgain(s', holder);
      steps := [prepare] + rest;
      assert steps[1..] == rest;
    }
  }

  /** If goroutines can be started at any time: until the next reset no two of them can hold the same
      nonce, whatever happens, exactly if the nonces now in flight differ and are all below the next one.
      Right after a reset the next one is the node's answer. */
  lemma {:induction false} UniqueUntilResetExactly(s: System)
    ensures UniqueUntilReset(s) <==> InFlightDistinct(s) && InFlightBelow(s)
  {
    if InFlightDistinct(s) && InFlightBelow(s) {
      forall steps | NoReset(steps) ensures InFlightDistinct(Exec(s, steps)) {
        RunKeepsDistinct(s, steps);
      }
    } else if InFlightDistinct(s) {
      var holder :| s.PhaseOf(holder).InFlight? && s.PhaseOf(holder).nonce >= NextNonce(s);
      var steps := NonceIsGivenAgain(s, holder);
      assert NoReset(steps);
    } else {
      var none: seq<Step> := [];
      assert NoReset(none) && Exec(s, none) == s;
    }
  }

  // ---------- A fixed set of goroutines ----------

  /** The step is taken by one of `gs`, by the miners or by another sender of the account. */
  predicate TakenBy(gs: set<nat>, step: Step) {
    match step
    case PrepareStep(g, _, _) => g in gs
    case SubmitAccepted(g) => g in gs
    case SubmitFails(g, _) => g in gs
    case ResetStep(g) => g in gs
    case Mine => true
    case AcceptOther(_) => true
  }

  ghost predicate ResetFree(gs: set<nat>, steps: seq<Step>) {
    forall i :: 0 <= i < |steps| ==> !steps[i].ResetStep? && TakenBy(gs, steps[i])
  }

  ghost predicate Apart(s: System, g: nat, h: nat) {
    s.PhaseOf(g).InFlight? && s.PhaseOf(h).InFlight? ==> s.PhaseOf(g).nonce != s.PhaseOf(h).nonce
  }

  ghost predicate DistinctAmong(gs: set<nat>, s: System) {
    forall g, h :: g in gs && h in gs && g != h ==> Apart(s, g, h)
  }

  /** Whatever they do, no two of `gs` hold the same nonce before the next reset. */
  ghost predicate UniqueAmong(gs: set<nat>, s: System) {
    forall steps :: ResetFree(gs, steps) ==> DistinctAmong(gs, Exec(s, steps))
  }

  /** The next nonce once the submission `h` is at, if any, has gone through. */
  function NextFor(s: System, h: nat): nat {
    NextNonce(if s.PhaseOf(h).InFlight? then s.(accepted := s.accepted + {s.PhaseOf(h).nonce}) else s)
  }

  /** `h` can be given the nonce of `g` again: it waits for no reset, and the nonces it gets from now on
      start at or below that one. */
  ghost predicate Endangers(s: System, h: nat, g: nat) {
    s.PhaseOf(g).InFlight? && !s.PhaseOf(h).ResetDue? && NextFor(s, h) <= s.PhaseOf(g).nonce
  }

  ghost predicate NoneEndangered(gs: set<nat>, s: System) {
    forall g, h :: g in gs && h in gs && g != h ==> !Endangers(s, h, g)
  }

  /** Another nonce in the pool does not change the node's answer, unless it is the answer itself. */
  lemma {:induction false} PendingStays(base: nat, accepted: set<nat>, nonce: nat)
    requires nonce != PendingNonceAt(base, accepted)
    ensures PendingNonceAt(base, accepted + {nonce}) == PendingNonceAt(base, accepted)
  {
    PendingMovesUp(base, accepted, base, accepted + {nonce});
    assert PendingNonceAt(base, accepted) !in accepted + {nonce};
  }

  /** A preparation hands out the next nonce, which another goroutine's submission does not hold. */
  lemma {:induction false} PrepareMovesUp(s: System, step: Step, h: nat)
    requires step.PrepareStep? && !Next(s, step).PhaseOf(h).ResetDue?
    requires step.g != h ==> !Endangers(s, step.g, h)
    ensures !s.PhaseOf(h).ResetDue? && NextFor(s, h) <= NextFor(Next(s, step), h)
  {
    if s.cached.None? && Next(s, step).cached.Some? && s.PhaseOf(h).InFlight? {
      PendingStays(s.base, s.accepted, s.PhaseOf(h).nonce);
    }
  }

  lemma {:induction false} OtherStepMovesUp(s: System, step: Step, h: nat)
    requires !step.ResetStep? && !step.PrepareStep? && !Next(s, step).PhaseOf(h).ResetDue?
    ensures !s.PhaseOf(h).ResetDue? && NextFor(s, h) <= NextFor(Next(s, step), h)
  {
    var s' := Next(s, step);
    var before := if s.PhaseOf(h).InFlight? then s.accepted + {s.PhaseOf(h).nonce} else s.accepted;
    var after := if s'.PhaseOf(h).InFlight? then s'.accepted + {s'.PhaseOf(h).nonce} else s'.accepted;
    PendingMovesUp(s.base, before, s'.base, after);
  }

  lemma {:induction false} StepKeepsApart(gs: set<nat>, s: System, step: Step, g: nat, h: nat)
    requires !step.ResetStep? && TakenBy(gs, step) && DistinctAmong(gs, s) && NoneEndangered(gs, s)
    requires g in gs && h in gs && g != h
    ensures Apart(Next(s, step), g, h) && !Endangers(Next(s, step), h, g)
  {
    var s' := Next(s, step);
    assert Apart(s, g, h) && !Endangers(s, h, g) && !Endangers(s, g, h);
    assert step.PrepareStep? && step.g != h ==> !Endangers(s, step.g, h);
    if !s'.PhaseOf(h).ResetDue? {
      if step.PrepareStep? {
        PrepareMovesUp(s, step, h);
      } else {
        OtherStepMovesUp(s, step, h);
      }
    }
  }

  lemma {:induction false} RunKeepsApart(gs: set<nat>, s: System, steps: seq<Step>)
    requires ResetFree(gs, steps) && DistinctAmong(gs, s) && NoneEndangered(gs, s)
    ensures DistinctAmong(gs, Exec(s, steps))
    decreases |steps|
  {
    if steps != [] {
      forall g, h | g in gs && h in gs && g != h
        ensures Apart(Next(s, steps[0]), g, h) && !Endangers(Next(s, steps[0]), h, g)
      {
        StepKeepsApart(gs, s, steps[0], g, h);
      }
      RunKeepsApart(gs, Next(s, steps[0]), steps[1..]);
    }
  }

  /** `h` alone, preparing and having its submissions accepted in turn, comes to the nonce of `g`. */
  lemma {:induction false} NonceIsReached(gs: set<nat>, s: System, g: nat, h: nat) returns (steps: seq<Step>)
    requires g in gs && h in gs && g != h && Endangers(s, h, g)
    ensures ResetFree(gs, steps) && !DistinctAmong(gs, Exec(s, steps))
    decreases s.PhaseOf(g).nonce - NextFor(s, h), s.PhaseOf(h).InFlight?
  {
    if !Apart(s, g, h) {
      steps := [];
      assert Exec(s, steps) == s;
    } else {
      var step := if s.PhaseOf(h).InFlight? then SubmitAccepted(h) else PrepareStep(h, true, true);
      var s' := Next(s, step);
      assert s'.PhaseOf(g) == s.PhaseOf(g);
      if !Apart(s', g, h) {
        steps := [step];
        assert Exec(s', []) == s' && [step][1..] == [];
      } else {
        var rest := NonceIsReached(gs, s', g, h);
        steps := [step] + rest;
        assert steps[1..] == rest;
      }
    }
  }

  /** For the goroutines the program runs, one for each registry and no more: until the next reset no two
      of them can hold the same nonce, whatever happens, exactly if those now in flight differ and none
      of them can be given to another. */
  lemma {:induction false} UniqueAmongExactly(gs: set<nat>, s: System)
    ensures UniqueAmong(gs, s) <==> DistinctAmong(gs, s) && NoneEndangered(gs, s)
  {
    if DistinctAmong(gs, s) && NoneEndangered(gs, s) {
      forall steps | ResetFree(gs, steps) ensures DistinctAmong(gs, Exec(s, steps)) {
        RunKeepsApart(gs, s, steps);
      }
    } else if DistinctAmong(gs, s) {
      var g, h :| g in gs && h in gs && g != h && Endangers(s, h, g);
      var steps := NonceIsReached(gs, s, g, h);
      assert ResetFree(gs, steps);
    } else {
      var none: seq<Step> := [];
      assert ResetFree(gs, none) && Exec(s, none) == s;
    }
  }

  /** After a reset goroutine 1 still submits nonce 1, and goroutine 2 waits for the next reset. */
  function OneIsAlone(): seq<Step> {
    [PrepareStep(2, true, true), PrepareStep(1, true, true), SubmitFails(2, false), ResetStep(2),
     PrepareStep(2, false, true)]
  }

  lemma {:induction false} OneIsAloneAbove(s: System)
    requires s == Exec(Started(0, {}), OneIsAlone())
    ensures s.PhaseOf(1) == InFlight(1) && s.PhaseOf(2) == ResetDue(None) && NextNonce(s) == 0
  {
  }

  /** The two conditions differ: its nonce is above the node's answer, but between the two of them nothing
      can happen. */
  lemma {:induction false} AboveButAlone()
    ensures !InFlightBelow(Exec(Started(0, {}), OneIsAlone()))
    ensures UniqueAmong({1, 2}, Exec(Started(0, {}), OneIsAlone()))
  {
    var s := Exec(Started(0, {}), OneIsAlone());
    OneIsAloneAbove(s);
    UniqueAmongExactly({1, 2}, s);
  }

  /** It fails after a reset here: goroutine 1 still submits nonce 0 when goroutine 2, given 1, fails,
      resets the cache and is given 0 again. */
  lemma {:induction false} SameNonceAcrossReset()
    ensures var s := Exec(Started(0, {}), [PrepareStep(1, true, true), PrepareStep(2, true, true),
                                           SubmitFails(2, false), ResetStep(2), PrepareStep(2, true, true)]);
            s.PhaseOf(1) == InFlight(0) && s.PhaseOf(2) == InFlight(0)
  {
  }
}
