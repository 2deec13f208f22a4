/** The queue half of the contract's protocol. Nothing here needs the tree or the hash. */
module QueueDiscipline {
  import opened Common
  import opened CertificateRegistry

  /** The data of `h` point at its last entry, made by its last accepted request; the pointer has
      passed every earlier one. */
  ghost predicate PointsAtLastEntry(w: World, h: Hash, op: Operation) {
    var d := w.r.Data(h);
    && d.queueIndex < |w.r.queue| == |w.queued|
    && w.queued[d.queueIndex] == Entry(h, op, d.queueIndex, d.guardian)
    && (forall k :: d.queueIndex < k < |w.r.queue| ==> w.r.queue[k] != h)
    && forall k :: 0 <= k < d.queueIndex && w.r.queue[k] == h ==> k < w.r.pointer
  }

  /** What the state of a certificate says about its entries and the pointer. */
  ghost predicate CertificateOk(w: World, h: Hash) {
    var d, count := w.r.Data(h), multiset(w.r.queue)[h];
    match d.state
    case StateNone => count == 0 && d == NO_DATA
    case IssuanceQueued => count == 1 && PointsAtLastEntry(w, h, Issuance) && d.queueIndex >= w.r.pointer
    case IssuanceMerkleTreeAdded => count == 1 && PointsAtLastEntry(w, h, Issuance) && d.queueIndex < w.r.pointer
    case RevocationQueued => count == 2 && PointsAtLastEntry(w, h, Revocation) && d.queueIndex >= w.r.pointer
    case RevocationMerkleTreeAdded => count == 2 && PointsAtLastEntry(w, h, Revocation) && d.queueIndex < w.r.pointer
  }

  /** The OperationQueued events are the queue, entry by entry. */
  ghost predicate EventsMirrorQueue(w: World) {
    && |w.queued| == |w.r.queue|
    && forall k :: 0 <= k < |w.queued| ==> w.queued[k].hash == w.r.queue[k] && w.queued[k].queueIndex == k
  }

  /** Two entries of one certificate are its issuance and, later, its revocation by the same guardian. */
  ghost predicate IssuedThenRevoked(queued: seq<Entry>) {
    forall j, k :: 0 <= j < k < |queued| && queued[j].hash == queued[k].hash
               ==> queued[j].op == Issuance && queued[k].op == Revocation && queued[j].guardian == queued[k].guardian
  }

  ghost predicate QueueInvariant(w: World) {
    && EventsMirrorQueue(w)
    && w.r.pointer <= |w.r.queue|
    && w.processed == w.queued[..w.r.pointer]
    && IssuedThenRevoked(w.queued)
    && forall h :: CertificateOk(w, h)
  }

  lemma {:induction false} InitialQueue(p: Parameters)
    ensures QueueInvariant(Initial(p))
  {
  }

  lemma {:induction false} TwoEntries(q: seq<Hash>, i: nat, j: nat)
    requires j < |q|
    ensures i < j && q[i] == q[j] ==> multiset(q)[q[i]] >= 2
  {
    assert q == q[..j] + q[j..] && q[j] == q[j..][0];
    assert i < j ==> q[i] == q[..j][i];
  }

  lemma {:induction false} AddKeepsCertificate(p: Parameters, w: World, step: Step, g: Hash)
    requires QueueInvariant(w) && step.Add?
    ensures CertificateOk(Next(p, w, step), g)
  {
    assert CertificateOk(w, g);
  }

  lemma {:induction false} AddKeepsOrder(p: Parameters, w: World, step: Step)
    requires QueueInvariant(w) && step.Add?
    ensures IssuedThenRevoked(Next(p, w, step).queued)
  {
    var queued, h := Next(p, w, step).queued, step.h;
    assert CertificateOk(w, h);
    forall j, k | 0 <= j < k < |queued| && queued[j].hash == queued[k].hash
      ensures queued[j].op == Issuance && queued[k].op == Revocation && queued[j].guardian == queued[k].guardian
    {
      if k == |w.queued| {
        assert w.r.queue[j] == h;
        var last := w.r.Data(h).queueIndex;
        if j < last {
          TwoEntries(w.r.queue, j, last);
        }
      }
    }
  }

  lemma {:induction false} AddKeepsQueue(p: Parameters, w: World, step: Step)
    requires QueueInvariant(w) && step.Add?
    ensures QueueInvariant(Next(p, w, step))
  {
    AddKeepsOrder(p, w, step);
    forall g ensures CertificateOk(Next(p, w, step), g) {
      AddKeepsCertificate(p, w, step, g);
    }
  }

  /** An accepted transaction processes the entry at the pointer, whatever was submitted with it. */
  lemma {:induction false} AcceptedIsHead(p: Parameters, w: World, step: Step)
    requires QueueInvariant(w) && step.Process?
    ensures var w' := Next(p, w, step);
            w' == w || (w.r.pointer < |w.r.queue| && w.r.queue[w.r.pointer] == step.h
                        && w'.r.queue == w.r.queue && w'.queued == w.queued
                        && w'.r.pointer == w.r.pointer + 1
                        && w'.processed == w.processed + [w.queued[w.r.pointer]])
  {
    assert CertificateOk(w, step.h);
  }

  lemma {:induction false} ProcessKeepsCertificate(p: Parameters, w: World, step: Step, g: Hash)
    requires QueueInvariant(w) && step.Process?
    ensures CertificateOk(Next(p, w, step), g)
  {
    var w' := Next(p, w, step);
    AcceptedIsHead(p, w, step);
    assert CertificateOk(w, g) && CertificateOk(w, step.h);
    assert g != step.h ==> w'.r.Data(g) == w.r.Data(g);
  }

  lemma {:induction false} ProcessKeepsQueue(p: Parameters, w: World, step: Step)
    requires QueueInvariant(w) && step.Process?
    ensures QueueInvariant(Next(p, w, step))
  {
    AcceptedIsHead(p, w, step);
    forall g ensures CertificateOk(Next(p, w, step), g) {
      ProcessKeepsCertificate(p, w, step, g);
    }
  }

  lemma {:induction false} NextKeepsQueue(p: Parameters, w: World, step: Step)
    requires QueueInvariant(w)
    ensures QueueInvariant(Next(p, w, step))
  {
    if step.Add? {
      AddKeepsQueue(p, w, step);
    } else {
      ProcessKeepsQueue(p, w, step);
    }
  }

  lemma {:induction false} RunKeepsQueue(p: Parameters, w: World, steps: seq<Step>)
    requires QueueInvariant(w)
    ensures QueueInvariant(Exec(p, w, steps))
    decreases |steps|
  {
    if steps != [] {
      NextKeepsQueue(p, w, steps[0]);
      RunKeepsQueue(p, Next(p, w, steps[0]), steps[1..]);
    }
  }

  // ---------- Main results ----------

  /** In every reachable storage a hash occurs 0, 1 or 2 times in the queue as its state says, its
      data point at the last of these entries, and that entry is still ahead exactly when pending. */
  lemma {:induction false} EntriesFollowState(p: Parameters, steps: seq<Step>, h: Hash)
    ensures var r := Exec(p, Initial(p), steps).r;
            && multiset(r.queue)[h] == (r.State(h).Rank() + 1) / 2
            && (r.State(h) != StateNone ==>
                  && r.Data(h).queueIndex < |r.queue| && r.queue[r.Data(h).queueIndex] == h
                  && (forall k :: r.Data(h).queueIndex < k < |r.queue| ==> r.queue[k] != h)
                  && (r.State(h).Pending() <==> r.pointer <= r.Data(h).queueIndex))
  {
    InitialQueue(p);
    RunKeepsQueue(p, Initial(p), steps);
    assert CertificateOk(Exec(p, Initial(p), steps), h);
  }

  /** For a hash that was ever queued, `isZkCertificateInTurn` says exactly that it is the head; for any
      other it says that nothing was carried out yet. */
  lemma {:induction false} InTurnIsHead(p: Parameters, steps: seq<Step>, h: Hash)
    ensures var r := Exec(p, Initial(p), steps).r;
            r.InTurn(h) <==> if h in r.queue then r.pointer < |r.queue| && r.queue[r.pointer] == h
                             else r.pointer == 0
  {
    InitialQueue(p);
    RunKeepsQueue(p, Initial(p), steps);
    var w := Exec(p, Initial(p), steps);
    assert CertificateOk(w, h);
    if w.r.pointer < |w.r.queue| {
      HeadIsPending(w);
    }
  }

  /** The entry at the pointer belongs to a pending certificate and is its last one. */
  lemma {:induction false} HeadIsPending(w: World)
    requires QueueInvariant(w) && w.r.pointer < |w.r.queue|
    ensures var h := w.r.queue[w.r.pointer]; w.r.State(h).Pending() && w.r.Data(h).queueIndex == w.r.pointer
  {
    assert CertificateOk(w, w.r.queue[w.r.pointer]);
  }

  /** Exactly once and in order: at every moment of every run the operations carried out are the
      queued requests up to the pointer, each request once, an issuance before its revocation, which
      the guardian of the issuance asked for. */
  lemma {:induction false} ProcessedExactlyOnceInOrder(p: Parameters, steps: seq<Step>)
    ensures var w := Exec(p, Initial(p), steps);
            && w.r.pointer <= |w.queued|
            && w.processed == w.queued[..w.r.pointer]
            && forall j, k :: 0 <= j < k < |w.processed| && w.processed[j].hash == w.processed[k].hash
                 ==> w.processed[j].op == Issuance && w.processed[k].op == Revocation
                     && w.processed[j].guardian == w.processed[k].guardian
  {
    InitialQueue(p);
    RunKeepsQueue(p, Initial(p), steps);
  }

  /** Entry `k` of `h` was carried out, is its issuance, asked for by `sender`, and is its only one. */
  ghost predicate OnlyIssued(w: World, h: Hash, sender: Address, k: nat) {
    && k < w.r.pointer <= |w.queued| && w.queued[k].op == Issuance && w.queued[k].guardian == sender
    && forall j :: 0 <= j < |w.queued| ==> (w.queued[j].hash == h <==> j == k)
  }

  lemma {:induction false} OnlyIssuedMeansAdded(w: World, h: Hash, sender: Address)
    requires QueueInvariant(w)
    ensures (exists k: nat :: OnlyIssued(w, h, sender, k)) <==>
            w.r.State(h).IssuanceMerkleTreeAdded? && w.r.Data(h).guardian == sender
  {
    assert CertificateOk(w, h);
    var d := w.r.Data(h);
    if d.state.IssuanceMerkleTreeAdded? && d.guardian == sender {
      forall j | 0 <= j < |w.queued| ensures w.queued[j].hash == h <==> j == d.queueIndex {
        TwoEntries(w.r.queue, j, d.queueIndex);
      }
      assert OnlyIssued(w, h, sender, d.queueIndex);
    }
    if k: nat :| OnlyIssued(w, h, sender, k) {
      assert w.queued[k].hash == h;
      assert w.r.queue[k] == h;
    }
  }

  /** A request is accepted exactly if a whitelisted guardian asks for the issuance of a certificate
      never asked for, or for the revocation of one it had issued, once that is carried out and no
      revocation was asked for yet. */
  lemma {:induction false} RequestAcceptedExactly(p: Parameters, steps: seq<Step>, sender: Address, isGuardian: bool,
                                                  h: Hash, code: nat)
    ensures var w := Exec(p, Initial(p), steps);
            Next(p, w, Add(sender, isGuardian, h, code)) != w <==>
              isGuardian && ((code == 0 && forall k :: 0 <= k < |w.queued| ==> w.queued[k].hash != h)
                             || (code == 1 && exists k: nat :: OnlyIssued(w, h, sender, k)))
  {
    InitialQueue(p);
    RunKeepsQueue(p, Initial(p), steps);
    var w := Exec(p, Initial(p), steps);
    OnlyIssuedMeansAdded(w, h, sender);
    assert CertificateOk(w, h);
    assert w.r.State(h) == StateNone <==> h !in w.r.queue;
    assert h !in w.r.queue <==> forall k :: 0 <= k < |w.queued| ==> w.queued[k].hash != h;
  }

  ghost predicate Requested(steps: seq<Step>, e: Entry) {
    Add(e.guardian, true, e.hash, if e.op == Issuance then 0 else 1) in steps
  }

  /** Every operation carried out was asked for, by the guardian named in its entry, at a time when
      the sender was whitelisted. */
  lemma {:induction false} EntriesWereRequested(p: Parameters, steps: seq<Step>, k: nat)
    ensures var w := Exec(p, Initial(p), steps);
            && (k < |w.queued| ==> Requested(steps, w.queued[k]))
            && (k < |w.processed| ==> Requested(steps, w.processed[k]))
  {
    InitialQueue(p);
    RunKeepsQueue(p, Initial(p), steps);
    RequestedFrom(p, Initial(p), steps, k);
  }

  lemma {:induction false} RequestedFrom(p: Parameters, w: World, steps: seq<Step>, k: nat)
    ensures var w' := Exec(p, w, steps);
            && w.queued <= w'.queued
            && (|w.queued| <= k < |w'.queued| ==> Requested(steps, w'.queued[k]))
    decreases |steps|
  {
    if steps != [] {
      RequestedFrom(p, Next(p, w, steps[0]), steps[1..], k);
    }
  }

  /** Histories only grow, and a certificate never goes back to an earlier state. */
  lemma {:induction false} RunIsMonotone(p: Parameters, w: World, steps: seq<Step>, h: Hash)
    requires QueueInvariant(w)
    ensures var w' := Exec(p, w, steps);
            && w.r.queue <= w'.r.queue && w.queued <= w'.queued && w.processed <= w'.processed
            && w.r.pointer <= w'.r.pointer
            && w.r.State(h).Rank() <= w'.r.State(h).Rank()
    decreases |steps|
  {
    if steps != [] {
      NextKeepsQueue(p, w, steps[0]);
      if steps[0].Process? {
        AcceptedIsHead(p, w, steps[0]);
      }
      RunIsMonotone(p, Next(p, w, steps[0]), steps[1..], h);
    }
  }

  /** A transaction that went through can be submitted again at any later time: it then reverts, or
      the first time it issued the certificate and now it carries out the later revocation of it. */
  lemma {:induction false} ReplayNeverRepeats(p: Parameters, steps: seq<Step>, step: Step, later: seq<Step>)
    requires step.Process?
    requires Next(p, Exec(p, Initial(p), steps), step) != Exec(p, Initial(p), steps)
    ensures var w := Exec(p, Initial(p), steps);
            var w2 := Exec(p, Next(p, w, step), later);
            Next(p, w2, step) == w2
            || (&& w.r.pointer < w2.r.pointer < |w2.queued|
                && w2.queued[w.r.pointer].hash == w2.queued[w2.r.pointer].hash == step.h
                && w2.queued[w.r.pointer].op == Issuance
                && w2.queued[w2.r.pointer].op == Revocation
                && Next(p, w2, step).processed == w2.processed + [w2.queued[w2.r.pointer]])
  {
    InitialQueue(p);
    RunKeepsQueue(p, Initial(p), steps);
    var w := Exec(p, Initial(p), steps);
    AcceptedIsHead(p, w, step);
    NextKeepsQueue(p, w, step);
    var w1 := Next(p, w, step);
    RunKeepsQueue(p, w1, later);
    RunIsMonotone(p, w1, later, step.h);
    AcceptedIsHead(p, Exec(p, w1, later), step);
  }
}
