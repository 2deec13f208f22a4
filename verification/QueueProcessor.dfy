/** One tick of the queue processor: five separate reads of a contract that moves in between, the
    dispatch on the state read, and the transaction submitted with an untrusted proof. */
module QueueProcessor {
  import opened Common
  import opened MerkleTree
  import opened CertificateRegistry
  import opened QueueDiscipline
  import opened TreeDiscipline
  import opened RegistrySafety
  import opened QueueProgress

  /** An answer of the Merkle proof service; nothing is assumed of it. */
  datatype LeafProof = LeafProof(index: nat, path: seq<Hash>)

  datatype Service = Service(emptyLeaf: Option<LeafProof>, leaf: Hash -> Option<LeafProof>)

  /** The storage each read of a tick saw, None where the call failed. */
  datatype Reads = Reads(
    pointer: Option<Registry>, length: Option<Registry>, item: Option<Registry>,
    data: Option<Registry>, turn: Option<Registry>)

  datatype Submission = Submission(op: Operation, hash: Hash, proof: LeafProof)
  {
    function AsStep(): Step {
      Process(proof.index, hash, proof.path)
    }
  }

  /** `processIssuance` and `processRevocation` up to the transaction. */
  function Prepare(op: Operation, h: Hash, service: Service, hasKey: bool): Option<Submission> {
    var answer := if op == Issuance then service.emptyLeaf else service.leaf(h);
    if answer.None? || !hasKey then None else Some(Submission(op, h, answer.value))
  }

  /** `checkAndProcessRegistryQueue` with `processQueueItems`. */
  function Tick(seen: Reads, service: Service, hasKey: bool): Option<Submission> {
    if seen.pointer.None? || seen.length.None? then None
    else
      var current := seen.pointer.value.pointer;
      if current >= |seen.length.value.queue| || seen.item.None? || current >= |seen.item.value.queue| then None
      else
        var h := seen.item.value.queue[current];
        if seen.data.None? || seen.turn.None? || !seen.turn.value.InTurn(h) then None
        else match seen.data.value.State(h)
          case IssuanceQueued => Prepare(Issuance, h, service, hasKey)
          case RevocationQueued => Prepare(Revocation, h, service, hasKey)
          case _ => None
  }

  /** The answer of the proof service that a submission for `h` is made with. */
  function AnswerFor(op: Operation, h: Hash, service: Service): Option<LeafProof> {
    match op
    case Issuance => service.emptyLeaf
    case Revocation => service.leaf(h)
  }

  /** When a tick submits and what: exactly if there is a key, every read was answered, the pointer read
      is below the length read, the item read there is in turn and pending, and the proof service answered;
      then it submits that item, with the operation its state asks for and the service's answer. */
  lemma {:induction false} TickSubmitsExactly(seen: Reads, service: Service, hasKey: bool, s: Submission)
    ensures Tick(seen, service, hasKey) == Some(s) <==>
              && hasKey
              && seen.pointer.Some? && seen.length.Some? && seen.item.Some? && seen.data.Some? && seen.turn.Some?
              && var current := seen.pointer.value.pointer;
              && current < |seen.length.value.queue| && current < |seen.item.value.queue|
              && s.hash == seen.item.value.queue[current]
              && seen.turn.value.Data(s.hash).queueIndex == seen.turn.value.pointer
              && seen.data.value.Data(s.hash).state
                 == (match s.op case Issuance => IssuanceQueued case Revocation => RevocationQueued)
              && AnswerFor(s.op, s.hash, service) == Some(s.proof)
  {
  }

  /** The contract at the five reads of a tick and when its transaction is executed: any storage of
      any run, with any steps of anybody in between. */
  datatype Moments = Moments(pointer: World, length: World, item: World, data: World, turn: World, execution: World)
  {
    function AllReads(): Reads {
      Reads(Some(pointer.r), Some(length.r), Some(item.r), Some(data.r), Some(turn.r))
    }
  }

  function MomentsOf(p: Parameters, before: seq<Step>, gaps: seq<seq<Step>>): Moments
    requires |gaps| == 5
  {
    var a := Exec(p, Initial(p), before);
    var b := Exec(p, a, gaps[0]);
    var c := Exec(p, b, gaps[1]);
    var d := Exec(p, c, gaps[2]);
    var e := Exec(p, d, gaps[3]);
    Moments(a, b, c, d, e, Exec(p, e, gaps[4]))
  }

  /** The moments after the item was read are ordered, for the certificate read. */
  lemma {:induction false} MomentsAreOrdered(p: Parameters, before: seq<Step>, gaps: seq<seq<Step>>, h: Hash)
    requires |gaps| == 5
    ensures var m := MomentsOf(p, before, gaps);
            && QueueInvariant(m.item) && QueueInvariant(m.data) && QueueInvariant(m.turn) && QueueInvariant(m.execution)
            && m.item.r.queue <= m.data.r.queue <= m.turn.r.queue
            && m.data.r.State(h).Rank() <= m.turn.r.State(h).Rank() <= m.execution.r.State(h).Rank()
  {
    var m := MomentsOf(p, before, gaps);
    InitialQueue(p);
    RunKeepsQueue(p, Initial(p), before);
    RunKeepsQueue(p, m.pointer, gaps[0]);
    RunKeepsQueue(p, m.length, gaps[1]);
    RunKeepsQueue(p, m.item, gaps[2]);
    RunKeepsQueue(p, m.data, gaps[3]);
    RunKeepsQueue(p, m.turn, gaps[4]);
    RunIsMonotone(p, m.item, gaps[2], h);
    RunIsMonotone(p, m.data, gaps[3], h);
    RunIsMonotone(p, m.turn, gaps[4], h);
  }

  /** A dispatch made from stale reads is for the certificate at the head of the queue, which is
      pending when the turn is read; a revocation dispatch is right, and the only way an issuance
      dispatch can be wrong is that the revocation is the pending operation by now. */
  lemma {:induction false} StaleDispatchIsNearlyRight(p: Parameters, before: seq<Step>, gaps: seq<seq<Step>>,
                                                      service: Service)
    requires |gaps| == 5
    ensures var m := MomentsOf(p, before, gaps);
            var s := Tick(m.AllReads(), service, true);
            s.Some? ==>
              && m.turn.r.pointer < |m.turn.r.queue|
              && m.turn.r.queue[m.turn.r.pointer] == s.value.hash
              && m.data.r.State(s.value.hash).Pending() && m.turn.r.State(s.value.hash).Pending()
              && (m.turn.r.State(s.value.hash) == m.data.r.State(s.value.hash)
                  || (s.value.op == Issuance && m.turn.r.State(s.value.hash) == RevocationQueued))
  {
    var m := MomentsOf(p, before, gaps);
    var s := Tick(m.AllReads(), service, true);
    if s.Some? {
      var h := s.value.hash;
      MomentsAreOrdered(p, before, gaps, h);
      assert h in m.item.r.queue;
      assert m.turn.r.queue[m.pointer.r.pointer] == h;
      assert CertificateOk(m.turn, h);
    }
  }

  ghost predicate FitsTree(p: Parameters, proof: LeafProof) {
    proof.index < Pow2(p.depth) && |proof.path| == p.depth
  }

  lemma {:induction false} RootsExist(p: Parameters, before: seq<Step>, gaps: seq<seq<Step>>)
    requires |gaps| == 5
    ensures MomentsOf(p, before, gaps).execution.r.roots != []
  {
    var m := MomentsOf(p, before, gaps);
    RootsOnlyGrow(p, Initial(p), before);
    RootsOnlyGrow(p, m.pointer, gaps[0]);
    RootsOnlyGrow(p, m.length, gaps[1]);
    RootsOnlyGrow(p, m.item, gaps[2]);
    RootsOnlyGrow(p, m.data, gaps[3]);
    RootsOnlyGrow(p, m.turn, gaps[4]);
  }

  /** When a dispatch takes effect on a pending revocation, whatever the proof service answered: exactly
      if the certificate is in turn and the proof opens its leaf in the tree as it is at the execution.
      This holds of a right dispatch and of an issuance dispatched too late. */
  lemma {:induction false} LateDispatchTakesEffectExactly(p: Parameters, before: seq<Step>, gaps: seq<seq<Step>>,
                                                          service: Service)
    requires |gaps| == 5
    ensures var m := MomentsOf(p, before, gaps);
            var s := Tick(m.AllReads(), service, true);
            var w := m.execution;
            && w.r.roots != []
            && (s.Some? && w.r.State(s.value.hash) == RevocationQueued ==>
                  (Next(p, w, s.value.AsStep()) != w <==>
                     && w.r.InTurn(s.value.hash) && FitsTree(p, s.value.proof)
                     && Fold(p.H, s.value.hash, s.value.proof.index, s.value.proof.path)
                        == w.r.roots[|w.r.roots| - 1]))
  {
    RootsExist(p, before, gaps);
  }

  /** The answer an honest service gave for an empty leaf when the row of leaves was `row`. */
  ghost predicate HonestFor(p: Parameters, row: seq<Hash>, proof: LeafProof) {
    && |row| == Pow2(p.depth) && proof.index < |row| && row[proof.index] == p.zero
    && proof.path == Siblings(p.H, row, p.depth, proof.index)
  }

  /** An issuance with a proof that was honest for some earlier row, executed while the revocation of the
      certificate is the head: it carries the revocation out exactly if meanwhile the certificate was
      written on the very leaf the proof is for and the rest of the row is as it was. */
  lemma {:induction false} EarlierProofTakesEffectExactly(p: Parameters, w: World, h: Hash, row: seq<Hash>,
                                                          proof: LeafProof)
    requires CollisionFree(p.H) && Invariant(p, w) && HonestFor(p, row, proof)
    requires w.r.State(h) == RevocationQueued && w.r.InTurn(h)
    ensures Next(p, w, Process(proof.index, h, proof.path)) != w <==> w.Row() == row[proof.index := h]
  {
    EarlierProofFolds(p, w.Row(), h, row, proof);
    RevocationWhenFolds(p, w, h, proof);
  }

  lemma {:induction false} EarlierProofFolds(p: Parameters, current: seq<Hash>, h: Hash, row: seq<Hash>,
                                             proof: LeafProof)
    requires CollisionFree(p.H) && |current| == Pow2(p.depth) && HonestFor(p, row, proof)
    ensures Fold(p.H, h, proof.index, proof.path) == Root(p.H, current, p.depth) <==> current == row[proof.index := h]
  {
    var written := row[proof.index := h];
    FoldRewrites(p.H, row, p.depth, proof.index, h);
    if Root(p.H, current, p.depth) == Root(p.H, written, p.depth) {
      RootDeterminesLeaves(p.H, current, written, p.depth);
    }
  }

  lemma {:induction false} RevocationWhenFolds(p: Parameters, w: World, h: Hash, proof: LeafProof)
    requires RootsStandForRows(p, w) && w.r.State(h) == RevocationQueued && w.r.InTurn(h) && FitsTree(p, proof)
    ensures |w.Row()| == Pow2(p.depth)
    ensures Next(p, w, Process(proof.index, h, proof.path)) != w <==>
            Fold(p.H, h, proof.index, proof.path) == Root(p.H, w.Row(), p.depth)
  {
  }

  /** Between the turn read and the execution another processor issues `h` with the same answer of the
      service, and its guardian asks for its revocation. */
  function OtherProcessorFirst(p: Parameters, h: Hash): seq<seq<Step>> {
    [[], [], [], [], [FirstIssuance(p, h), Add(1, true, h, 1)]]
  }

  /** For every certificate and every depth such an issuance can be dispatched with a proof honest at that
      time, and then carries out the revocation. */
  lemma {:induction false} LateIssuanceRevokes(p: Parameters, h: Hash)
    requires h != p.zero
    ensures var m := MomentsOf(p, [Add(1, true, h, 0)], OtherProcessorFirst(p, h));
            && |m.turn.Row()| == Pow2(p.depth)
            && var s := Tick(m.AllReads(), HonestService(p, m.turn.Row()), true);
            && s.Some? && s.value.op == Issuance && s.value.hash == h
            && m.execution.r.State(h) == RevocationQueued
            && Next(p, m.execution, s.value.AsStep()).r.State(h) == RevocationMerkleTreeAdded
  {
    var queue, issue, revoke := Add(1, true, h, 0), FirstIssuance(p, h), Add(1, true, h, 1);
    var gaps, m := OtherProcessorFirst(p, h), MomentsOf(p, [queue], OtherProcessorFirst(p, h));
    var w1 := Next(p, Initial(p), queue);
    ExecOne(p, Initial(p), queue);
    assert gaps[0] == gaps[1] == gaps[2] == gaps[3] == [];
    assert m.pointer == m.length == m.item == m.data == m.turn == w1;
    var row := Repeat(p.zero, Pow2(p.depth));
    assert w1.Row() == row && row[0] == p.zero && FirstPosition(row, p.zero) == 0;
    assert w1.r.Data(h) == CertificateData(1, 0, IssuanceQueued) && w1.r.queue == [h] && w1.r.pointer == 0;
    ExecTwo(p, w1, issue, revoke);
    ReplayedIssuanceRevokes(p, h);
    ExecFour(p, Initial(p), queue, issue, revoke, issue);
    var w2 := FirstIssuanceAccepted(p, h);
    assert m.execution == Next(p, w2, revoke);
  }

  /** The proof opens an empty leaf of the current tree. */
  ghost predicate OpensEmptyLeaf(p: Parameters, w: World, proof: LeafProof) {
    w.r.roots != [] && Fold(p.H, p.zero, proof.index, proof.path) == w.r.roots[|w.r.roots| - 1]
  }

  /** So with a proof that opens an empty leaf of the tree as it is at the execution, the wrong dispatch
      leaves the contract as it was, unless the certificate is the empty leaf's own value, in turn, and
      the proof fits the tree. */
  lemma {:induction false} WrongDispatchIsRefused(p: Parameters, before: seq<Step>, gaps: seq<seq<Step>>,
                                                  service: Service)
    requires CollisionFree(p.H) && |gaps| == 5
    ensures var m := MomentsOf(p, before, gaps);
            var s := Tick(m.AllReads(), service, true);
            var w := m.execution;
            && (s.Some? && s.value.op == Issuance
                && w.r.State(s.value.hash) == RevocationQueued && OpensEmptyLeaf(p, w, s.value.proof)
                ==> (Next(p, w, s.value.AsStep()) != w <==>
                       s.value.hash == p.zero && w.r.InTurn(p.zero) && FitsTree(p, s.value.proof)))
  {
    var m := MomentsOf(p, before, gaps);
    var s := Tick(m.AllReads(), service, true);
    var w := m.execution;
    if s.Some? && w.r.State(s.value.hash) == RevocationQueued && OpensEmptyLeaf(p, w, s.value.proof) {
      RevocationByEmptyLeaf(p, w, s.value.hash, s.value.proof);
    }
  }

  lemma {:induction false} RevocationByEmptyLeaf(p: Parameters, w: World, h: Hash, proof: LeafProof)
    requires CollisionFree(p.H) && w.r.State(h) == RevocationQueued && OpensEmptyLeaf(p, w, proof)
    ensures Next(p, w, Process(proof.index, h, proof.path)) != w <==> h == p.zero && w.r.InTurn(h) && FitsTree(p, proof)
  {
    if Fold(p.H, h, proof.index, proof.path) == Fold(p.H, p.zero, proof.index, proof.path) {
      SameFoldSameLeaf(p.H, p.zero, h, proof.index, proof.path);
    }
  }

  lemma {:induction false} SameFoldSameLeaf(H: Compress, leaf: Hash, other: Hash, index: nat, path: seq<Hash>)
    requires CollisionFree(H)
    requires Fold(H, leaf, index, path) == Fold(H, other, index, path)
    ensures leaf == other
    decreases |path|
  {
    if path != [] {
      SameFoldSameLeaf(H, Parent(H, leaf, path[0], index), Parent(H, other, path[0], index), index / 2, path[1..]);
    }
  }

  // ---------- Ticks on a quiet chain ----------

  function HonestProof(p: Parameters, row: seq<Hash>, leaf: Hash): Option<LeafProof>
    requires |row| == Pow2(p.depth)
  {
    if leaf in row
    then Some(LeafProof(FirstPosition(row, leaf), Siblings(p.H, row, p.depth, FirstPosition(row, leaf))))
    else None
  }

  function HonestService(p: Parameters, row: seq<Hash>): Service
    requires |row| == Pow2(p.depth)
  {
    Service(HonestProof(p, row, p.zero), h => HonestProof(p, row, h))
  }

  /** A tick with nobody else acting, every call answered and the proof service honest. */
  function QuietTick(p: Parameters, w: World): (w': World)
    requires |w.Row()| == Pow2(p.depth)
    ensures |w'.Row()| == Pow2(p.depth)
  {
    var s := Tick(Moments(w, w, w, w, w, w).AllReads(), HonestService(p, w.Row()), true);
    if s.None? then w else Next(p, w, s.value.AsStep())
  }

  /** A quiet tick carries out the head, unless the queue is done or the tree lacks the leaf needed. */
  lemma {:induction false} QuietTickAdvances(p: Parameters, w: World)
    requires CollisionFree(p.H) && Invariant(p, w)
    ensures var w' := QuietTick(p, w);
            && Invariant(p, w') && w'.r.queue == w.r.queue && w'.queued == w.queued
            && w'.r.pointer == w.r.pointer + (if w.r.pointer == |w.r.queue| || Stuck(p, w) then 0 else 1)
  {
    if w.r.pointer < |w.r.queue| {
      HeadIsPending(w);
      var h := w.r.queue[w.r.pointer];
      var s := Tick(Moments(w, w, w, w, w, w).AllReads(), HonestService(p, w.Row()), true);
      if s.Some? {
        NextKeepsQueue(p, w, s.value.AsStep());
        NextKeepsTree(p, w, s.value.AsStep());
        AdvancesWithHonestProof(p, w, s.value.proof.index, s.value.proof.path);
        AcceptedIsHead(p, w, s.value.AsStep());
      }
    }
  }

  lemma {:induction false} StuckTickDoesNothing(p: Parameters, w: World)
    requires CollisionFree(p.H) && Invariant(p, w) && Stuck(p, w)
    ensures QuietTick(p, w) == w
  {
    QuietTickAdvances(p, w);
    HeadIsPending(w);
  }

  ghost predicate QuietRun(p: Parameters, run: seq<World>) {
    forall j, k :: 0 <= j < k == j + 1 < |run| ==> |run[j].Row()| == Pow2(p.depth) && run[k] == QuietTick(p, run[j])
  }

  /** What one tick of a run does. */
  ghost predicate AdvancedByOne(p: Parameters, w: World, w': World) {
    && Invariant(p, w') && w'.r.queue == w.r.queue
    && w'.r.pointer == (if Stuck(p, w) then w.r.pointer else Min(w.r.pointer + 1, |w.r.queue|))
    && (Stuck(p, w) ==> Stuck(p, w'))
  }

  lemma {:induction false} QuietRunAdvances(p: Parameters, run: seq<World>, j: nat, k: nat)
    requires CollisionFree(p.H) && QuietRun(p, run) && k == j + 1 < |run| && Invariant(p, run[j])
    ensures AdvancedByOne(p, run[j], run[k])
  {
    QuietTickAdvances(p, run[j]);
    if Stuck(p, run[j]) {
      StuckTickDoesNothing(p, run[j]);
    }
  }

  /** Left alone, the processor carries out one entry per tick until the queue is done, or until an
      entry needs a leaf the tree does not have. */
  lemma {:induction false} QuietRunDrainsTheQueue(p: Parameters, run: seq<World>, k: nat)
    requires CollisionFree(p.H) && QuietRun(p, run) && k < |run| && Invariant(p, run[0])
    ensures Invariant(p, run[k]) && run[k].r.queue == run[0].r.queue
    ensures run[k].r.pointer == Min(run[0].r.pointer + k, |run[0].r.queue|) || Stuck(p, run[k])
    decreases k
  {
    if k > 0 {
      QuietRunDrainsTheQueue(p, run, k - 1);
      QuietRunAdvances(p, run, k - 1, k);
    }
  }

  function Min(a: int, b: int): int {
    if a < b then a else b
  }

  /** The entries not carried out yet. */
  function Remaining(w: World): seq<Entry> {
    if w.r.pointer <= |w.queued| then w.queued[w.r.pointer..] else []
  }

  /** How many of them the tree has room for. */
  ghost function CanCarryOut(p: Parameters, w: World): nat {
    Feasible(p, Remaining(w), |StoredCertificates(p.zero, w.r)|)
  }

  lemma {:induction false} QuietTickUsesUpOne(p: Parameters, w: World)
    requires CollisionFree(p.H) && Invariant(p, w)
    ensures var w' := QuietTick(p, w);
            var n, n' := CanCarryOut(p, w), CanCarryOut(p, w');
            && Invariant(p, w')
            && if n == 0 then w' == w else w'.r.pointer == w.r.pointer + 1 && n' == n - 1
  {
    QuietTickAdvances(p, w);
    if w.r.pointer < |w.r.queue| {
      NeededLeafIsThere(p, w);
      StoredFillLeaves(p, w);
      OccupiedCount(p.zero, w.Row());
      if Stuck(p, w) {
        StuckTickDoesNothing(p, w);
      } else {
        var s := Tick(Moments(w, w, w, w, w, w).AllReads(), HonestService(p, w.Row()), true);
        AdvanceChangesStored(p, w, s.value.AsStep());
        assert Remaining(QuietTick(p, w)) == Remaining(w)[1..];
      }
    }
  }

  /** What one tick does to the pointer and to what is left. */
  ghost predicate UsesUpOne(p: Parameters, w: World, w': World) {
    && w'.r.pointer == w.r.pointer + Min(1, CanCarryOut(p, w))
    && CanCarryOut(p, w') == CanCarryOut(p, w) - Min(1, CanCarryOut(p, w))
  }

  lemma {:induction false} QuietRunStep(p: Parameters, run: seq<World>, j: nat, k: nat)
    requires CollisionFree(p.H) && QuietRun(p, run) && k == j + 1 < |run| && Invariant(p, run[0])
    ensures UsesUpOne(p, run[j], run[k])
  {
    QuietRunDrainsTheQueue(p, run, j);
    QuietTickUsesUpOne(p, run[j]);
  }

  lemma {:induction false} CountedDown(p: Parameters, run: seq<World>, k: nat)
    requires forall i, j :: 0 <= i < j == i + 1 < |run| ==> UsesUpOne(p, run[i], run[j])
    requires k < |run|
    ensures run[k].r.pointer == run[0].r.pointer + Min(k, CanCarryOut(p, run[0]))
    ensures CanCarryOut(p, run[k]) == CanCarryOut(p, run[0]) - Min(k, CanCarryOut(p, run[0]))
    decreases k
  {
    if k > 0 {
      CountedDown(p, run, k - 1);
      assert UsesUpOne(p, run[k - 1], run[k]);
    }
  }

  /** How far the processor gets when left alone: exactly as far as the tree has room, one entry a tick. */
  lemma {:induction false} QuietRunCarriesOutExactly(p: Parameters, run: seq<World>, k: nat)
    requires CollisionFree(p.H) && QuietRun(p, run) && k < |run| && Invariant(p, run[0])
    ensures Invariant(p, run[k])
    ensures run[k].r.pointer == run[0].r.pointer + Min(k, CanCarryOut(p, run[0]))
    ensures CanCarryOut(p, run[k]) == CanCarryOut(p, run[0]) - Min(k, CanCarryOut(p, run[0]))
  {
    forall i, j | 0 <= i < j == i + 1 < |run| ensures UsesUpOne(p, run[i], run[j]) {
      QuietRunStep(p, run, i, j);
    }
    CountedDown(p, run, k);
    QuietRunDrainsTheQueue(p, run, k);
  }

  /** A processor left alone long enough empties the queue exactly if, along the entries that remain,
      there is a leaf to spare whenever one needs it. */
  lemma {:induction false} QuietRunDrainsExactly(p: Parameters, run: seq<World>, k: nat)
    requires CollisionFree(p.H) && QuietRun(p, run) && k < |run| && Invariant(p, run[0])
    requires run[0].r.pointer + k >= |run[0].r.queue|
    ensures run[k].r.queue == run[0].r.queue
    ensures run[k].r.pointer == |run[k].r.queue| <==>
            AlwaysRoom(p, Remaining(run[0]), |StoredCertificates(p.zero, run[0].r)|)
  {
    QuietRunDrainsTheQueue(p, run, k);
    QuietRunCarriesOutExactly(p, run, k);
    FeasibleWhenRoom(p, Remaining(run[0]), |StoredCertificates(p.zero, run[0].r)|);
  }
}
