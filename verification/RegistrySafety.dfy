/** What the contract guarantees in every reachable storage, from the queue and the tree together. */
module RegistrySafety {
  import opened Common
  import opened MerkleTree
  import opened CertificateRegistry
  import opened QueueDiscipline
  import opened TreeDiscipline

  ghost predicate Invariant(p: Parameters, w: World) {
    QueueInvariant(w) && TreeInvariant(p, w)
  }

  lemma {:induction false} Reachable(p: Parameters, steps: seq<Step>)
    requires CollisionFree(p.H)
    ensures Invariant(p, Exec(p, Initial(p), steps))
  {
    InitialQueue(p);
    InitialTree(p);
    RunKeepsQueue(p, Initial(p), steps);
    RunKeepsTree(p, Initial(p), steps);
  }

  // ---------- Accepted roots ----------

  /** `verifyMerkleRoot` accepts exactly the roots pushed since the last revocation. */
  lemma {:induction false} AcceptedRootsAreRecent(p: Parameters, steps: seq<Step>, root: Hash)
    ensures var r := Exec(p, Initial(p), steps).r;
            1 <= r.validIndex < |r.roots| && (r.Accepts(root) <==> root in r.roots[r.validIndex..])
  {
    RunKeepsIndex(p, Initial(p), steps);
    AcceptsIsRecent(Exec(p, Initial(p), steps).r, root);
  }

  lemma {:induction false} RunKeepsIndex(p: Parameters, w: World, steps: seq<Step>)
    requires IndexIsLastPosition(w.r)
    ensures IndexIsLastPosition(Exec(p, w, steps).r)
    decreases |steps|
  {
    if steps != [] {
      NextKeepsIndex(p, w, steps[0]);
      RunKeepsIndex(p, Next(p, w, steps[0]), steps[1..]);
    }
  }

  lemma {:induction false} NextKeepsIndex(p: Parameters, w: World, step: Step)
    requires IndexIsLastPosition(w.r)
    ensures IndexIsLastPosition(Next(p, w, step).r)
  {
    if step.Process? {
      ChangeLeafKeepsIndex(p, w.r, step.index, OldLeaf(p, w, step.h), NewLeaf(p, w, step.h), step.proof);
    }
  }

  /** One row per operation carried out, and the roots accepted start at the last revocation. */
  ghost predicate ValidFromLastRevocation(w: World) {
    && |w.rows| == |w.processed| + 1 == |w.r.roots| - 1
    && 1 <= w.r.validIndex <= |w.rows|
    && (w.r.validIndex > 1 ==> w.processed[w.r.validIndex - 2].op == Revocation)
    && forall j :: w.r.validIndex - 1 <= j < |w.processed| ==> w.processed[j].op == Issuance
  }

  lemma {:induction false} RunKeepsValid(p: Parameters, w: World, steps: seq<Step>)
    requires ValidFromLastRevocation(w)
    ensures ValidFromLastRevocation(Exec(p, w, steps))
    decreases |steps|
  {
    if steps != [] {
      RunKeepsValid(p, Next(p, w, steps[0]), steps[1..]);
    }
  }

  /** The row after the first `k` operations, and no revocation since. */
  ghost predicate CurrentSince(p: Parameters, w: World, root: Hash, k: nat)
    requires k < |w.rows| && |w.rows[k]| == Pow2(p.depth)
  {
    root == Root(p.H, w.rows[k], p.depth) && forall j :: k <= j < |w.processed| ==> w.processed[j].op == Issuance
  }

  lemma {:induction false} AcceptedMeansCurrent(p: Parameters, w: World, root: Hash)
    requires RootsStandForRows(p, w) && IndexIsLastPosition(w.r) && ValidFromLastRevocation(w)
    ensures w.r.Accepts(root) <==> exists k: nat :: k < |w.rows| && CurrentSince(p, w, root, k)
  {
    AcceptsIsRecent(w.r, root);
    if w.r.Accepts(root) {
      var i :| w.r.validIndex <= i < |w.r.roots| && w.r.roots[i] == root;
      assert w.r.roots[i - 1 + 1] == Root(p.H, w.rows[i - 1], p.depth);
      assert CurrentSince(p, w, root, i - 1);
    }
    if k: nat :| k < |w.rows| && CurrentSince(p, w, root, k) {
      assert k >= w.r.validIndex - 1;
      assert w.r.roots[w.r.validIndex..][k + 1 - w.r.validIndex] == root;
    }
  }

  /** A root is accepted exactly if the tree once had it and no revocation has been carried out since. */
  lemma {:induction false} AcceptedSinceLastRevocation(p: Parameters, steps: seq<Step>, root: Hash)
    requires CollisionFree(p.H)
    ensures var w := Exec(p, Initial(p), steps);
            && |w.rows| == |w.processed| + 1
            && (forall k :: 0 <= k < |w.rows| ==> |w.rows[k]| == Pow2(p.depth))
            && (w.r.Accepts(root) <==> exists k: nat :: k < |w.rows| && CurrentSince(p, w, root, k))
  {
    Reachable(p, steps);
    RunKeepsValid(p, Initial(p), steps);
    AcceptedMeansCurrent(p, Exec(p, Initial(p), steps), root);
  }

  /** `row` is a full row of leaves whose root the contract accepts. */
  ghost predicate AcceptedRow(p: Parameters, r: Registry, row: seq<Hash>) {
    |row| == Pow2(p.depth) && r.Accepts(Root(p.H, row, p.depth))
  }

  lemma {:induction false} AcceptedRowIsRecorded(p: Parameters, w: World, row: seq<Hash>) returns (k: nat)
    requires CollisionFree(p.H) && TreeInvariant(p, w) && AcceptedRow(p, w.r, row)
    ensures w.r.validIndex - 1 <= k < |w.rows| && w.rows[k] == row
  {
    var root := Root(p.H, row, p.depth);
    AcceptsIsRecent(w.r, root);
    var j :| w.r.validIndex <= j < |w.r.roots| && w.r.roots[j] == root;
    k := j - 1;
    assert w.r.roots[k + 1] == Root(p.H, w.rows[k], p.depth);
    RootDeterminesLeaves(p.H, w.rows[k], row, p.depth);
  }

  /** A revoked certificate is a leaf of no tree whose root the contract still accepts. */
  lemma {:induction false} RevokedNeverAccepted(p: Parameters, steps: seq<Step>, h: Hash, row: seq<Hash>)
    requires CollisionFree(p.H)
    ensures var r := Exec(p, Initial(p), steps).r;
            h != p.zero && r.State(h).RevocationMerkleTreeAdded? && AcceptedRow(p, r, row) ==> h !in row
  {
    Reachable(p, steps);
    var w := Exec(p, Initial(p), steps);
    if h != p.zero && w.r.State(h).RevocationMerkleTreeAdded? && AcceptedRow(p, w.r, row) {
      var k := AcceptedRowIsRecorded(p, w, row);
      assert h !in w.rows[k];
    }
  }

  ghost predicate NoRevokedLeafAccepted(p: Parameters, r: Registry) {
    forall h, row :: r.State(h).RevocationMerkleTreeAdded? && AcceptedRow(p, r, row) ==> h !in row
  }

  /** The contract does not refuse the empty leaf's own value as a certificate. Revocation is safe
      for all certificates exactly as long as nobody carried that one through its revocation. */
  lemma {:induction false} RevocationSafeExactly(p: Parameters, steps: seq<Step>)
    requires CollisionFree(p.H)
    ensures var r := Exec(p, Initial(p), steps).r;
            NoRevokedLeafAccepted(p, r) <==> !r.State(p.zero).RevocationMerkleTreeAdded?
  {
    Reachable(p, steps);
    var w := Exec(p, Initial(p), steps);
    if w.r.State(p.zero).RevocationMerkleTreeAdded? {
      var k := w.r.validIndex - 1;
      assert p.zero in w.rows[k];
      AcceptsIsRecent(w.r, w.r.roots[k + 1]);
      assert w.r.roots[w.r.validIndex..][0] == Root(p.H, w.rows[k], p.depth);
      assert AcceptedRow(p, w.r, w.rows[k]);
    } else {
      forall h, row | w.r.State(h).RevocationMerkleTreeAdded? && AcceptedRow(p, w.r, row) ensures h !in row {
        RevokedNeverAccepted(p, steps, h, row);
      }
    }
  }

  /** The transaction that issues `h` on the first position of an empty tree. */
  function FirstIssuance(p: Parameters, h: Hash): Step {
    Process(0, h, Siblings(p.H, Repeat(p.zero, Pow2(p.depth)), p.depth, 0))
  }

  lemma {:induction false} FirstIssuanceAccepted(p: Parameters, h: Hash) returns (w: World)
    ensures w == Next(p, Next(p, Initial(p), Add(1, true, h, 0)), FirstIssuance(p, h))
    ensures w.r.Data(h) == CertificateData(1, 0, IssuanceMerkleTreeAdded) && w.r.queue == [h] && w.r.pointer == 1
    ensures |w.r.roots| == 3 && w.r.roots[2] == Fold(p.H, h, 0, FirstIssuance(p, h).proof)
    ensures w.processed == [Entry(h, Issuance, 0, 1)]
  {
    var row := Repeat(p.zero, Pow2(p.depth));
    FoldRewrites(p.H, row, p.depth, 0, p.zero);
    assert row[0 := p.zero] == row;
    var w1 := Next(p, Initial(p), Add(1, true, h, 0));
    assert w1.r.roots[1] == Fold(p.H, p.zero, 0, FirstIssuance(p, h).proof);
    w := Next(p, w1, FirstIssuance(p, h));
  }

  /** The very transaction that issued a certificate, sent a second time, revokes it once the
      revocation is the head: the contract does not tell the two payloads apart. */
  lemma {:induction false} ReplayedIssuanceRevokes(p: Parameters, h: Hash)
    ensures var issuance := FirstIssuance(p, h);
            var w := Exec(p, Initial(p), [Add(1, true, h, 0), issuance, Add(1, true, h, 1), issuance]);
            w.r.State(h).RevocationMerkleTreeAdded?
            && w.processed == [Entry(h, Issuance, 0, 1), Entry(h, Revocation, 1, 1)]
  {
    var issuance := FirstIssuance(p, h);
    var w2 := FirstIssuanceAccepted(p, h);
    var w3 := Next(p, w2, Add(1, true, h, 1));
    assert w3.r.Data(h) == CertificateData(1, 1, RevocationQueued);
    ExecFour(p, Initial(p), Add(1, true, h, 0), issuance, Add(1, true, h, 1), issuance);
  }

  lemma {:induction false} RootsOnlyGrow(p: Parameters, w: World, steps: seq<Step>)
    ensures w.r.roots <= Exec(p, w, steps).r.roots
    decreases |steps|
  {
    if steps != [] {
      RootsOnlyGrow(p, Next(p, w, steps[0]), steps[1..]);
    }
  }

  /** When a transaction that went through takes effect a second time: exactly if it issued its
      certificate, the revocation of that certificate is the head by now, and the latest root is the
      one that the issuance produced. */
  lemma {:induction false} ReplayTakesEffectExactly(p: Parameters, steps: seq<Step>, step: Step, later: seq<Step>)
    requires step.Process?
    requires Next(p, Exec(p, Initial(p), steps), step) != Exec(p, Initial(p), steps)
    ensures var w := Exec(p, Initial(p), steps);
            var w1 := Next(p, w, step);
            var w2 := Exec(p, w1, later);
            && w.r.pointer < |w.queued| && w1.r.roots != [] && w2.r.roots != []
            && (Next(p, w2, step) != w2 <==>
                  && w.queued[w.r.pointer].op == Issuance
                  && w2.r.pointer < |w2.r.queue| && w2.r.queue[w2.r.pointer] == step.h
                  && w2.r.roots[|w2.r.roots| - 1] == w1.r.roots[|w1.r.roots| - 1])
  {
    InitialQueue(p);
    RunKeepsQueue(p, Initial(p), steps);
    var w := Exec(p, Initial(p), steps);
    AcceptedIsHead(p, w, step);
    NextKeepsQueue(p, w, step);
    var w1 := Next(p, w, step);
    RunKeepsQueue(p, w1, later);
    RunIsMonotone(p, w1, later, step.h);
    RootsOnlyGrow(p, w1, later);
    FirstSending(p, w, step);
    SecondSending(p, w1, Exec(p, w1, later), step);
  }

  /** What the first sending leaves behind. */
  lemma {:induction false} FirstSending(p: Parameters, w: World, step: Step)
    requires QueueInvariant(w) && step.Process? && Next(p, w, step) != w
    ensures var w1 := Next(p, w, step);
            && w.r.pointer < |w.queued| && w.queued[w.r.pointer].hash == step.h
            && step.index < Pow2(p.depth) && |step.proof| == p.depth && w1.r.roots != []
            && w1.r.State(step.h) == (if w.queued[w.r.pointer].op == Issuance then IssuanceMerkleTreeAdded
                                      else RevocationMerkleTreeAdded)
            && (w.queued[w.r.pointer].op == Issuance ==>
                  w1.r.roots[|w1.r.roots| - 1] == Fold(p.H, step.h, step.index, step.proof))
  {
    AcceptedIsHead(p, w, step);
    assert CertificateOk(w, step.h);
  }

  /** What the second one, to a later storage, meets. */
  lemma {:induction false} SecondSending(p: Parameters, w1: World, w2: World, step: Step)
    requires QueueInvariant(w2) && step.Process? && w2.r.roots != []
    requires w1.r.State(step.h).IssuanceMerkleTreeAdded? || w1.r.State(step.h).RevocationMerkleTreeAdded?
    requires w1.r.State(step.h).Rank() <= w2.r.State(step.h).Rank()
    ensures Next(p, w2, step) != w2 <==>
              && !w1.r.State(step.h).RevocationMerkleTreeAdded?
              && w2.r.pointer < |w2.r.queue| && w2.r.queue[w2.r.pointer] == step.h
              && step.index < Pow2(p.depth) && |step.proof| == p.depth
              && w2.r.roots[|w2.r.roots| - 1] == Fold(p.H, step.h, step.index, step.proof)
  {
    assert CertificateOk(w2, step.h);
    AcceptedIsHead(p, w2, step);
    if w2.r.pointer < |w2.r.queue| {
      HeadIsPending(w2);
    }
  }

  /** The failing case is reachable: a guardian queues the empty leaf's value, has it issued, and has
      it revoked. From then on some accepted tree holds a revoked certificate. */
  lemma {:induction false} ZeroCanBeRevoked(p: Parameters)
    requires CollisionFree(p.H)
    ensures exists steps :: !NoRevokedLeafAccepted(p, Exec(p, Initial(p), steps).r)
  {
    var steps := [Add(1, true, p.zero, 0), FirstIssuance(p, p.zero), Add(1, true, p.zero, 1), FirstIssuance(p, p.zero)];
    ReplayedIssuanceRevokes(p, p.zero);
    RevocationSafeExactly(p, steps);
  }

  // ---------- What one submission does ----------

  /** Whatever index, hash and proof anybody submits, in any reachable storage: either nothing
      changes, or the head of the queue is carried out, in the tree as in the queue. */
  lemma {:induction false} SubmissionCarriesOutHead(p: Parameters, steps: seq<Step>, index: nat, h: Hash,
                                                    proof: seq<Hash>)
    requires CollisionFree(p.H)
    ensures var w := Exec(p, Initial(p), steps);
            var w' := Next(p, w, Process(index, h, proof));
            w' == w
            || (&& w.r.pointer < |w.queued| && w.queued[w.r.pointer].hash == h
                && w'.processed == w.processed + [w.queued[w.r.pointer]]
                && w'.r.pointer == w.r.pointer + 1 && w'.r.queue == w.r.queue
                && index < |w.Row()|
                && w.Row()[index] == (if w.queued[w.r.pointer].op == Issuance then p.zero else h)
                && w'.Row() == w.Row()[index := if w.queued[w.r.pointer].op == Issuance then h else p.zero]
                && |w'.Row()| == Pow2(p.depth)
                && w'.r.roots == w.r.roots + [Root(p.H, w'.Row(), p.depth)])
  {
    Reachable(p, steps);
    var w, step := Exec(p, Initial(p), steps), Process(index, h, proof);
    if Next(p, w, step) != w {
      AcceptedIsHead(p, w, step);
      AcceptedRewritesOneLeaf(p, w, step);
      assert CertificateOk(w, h);
    }
  }

  // ---------- Conservation ----------

  function OccupiedPositions(zero: Hash, row: seq<Hash>): set<nat> {
    set i: nat | i < |row| && row[i] != zero
  }

  function StoredCertificates(zero: Hash, r: Registry): set<Hash> {
    set h | h in r.data && h != zero && r.State(h).Stored()
  }

  lemma {:induction false} StoredFillLeaves(p: Parameters, w: World)
    requires TreeInvariant(p, w)
    ensures |OccupiedPositions(p.zero, w.Row())| == |StoredCertificates(p.zero, w.r)|
  {
    var positions, stored := OccupiedPositions(p.zero, w.Row()), StoredCertificates(p.zero, w.r);
    forall h ensures h in stored <==> h != p.zero && h in w.Row() {
    }
    assert forall i: nat :: i in positions ==> w.Row()[i] in stored;
    SameSize(w.Row(), positions, stored);
  }

  /** Leaves are conserved: the tree holds each certificate that is issued and not yet revoked at
      exactly one position, and otherwise empty leaves only. */
  lemma {:induction false} LeavesAreConserved(p: Parameters, steps: seq<Step>)
    requires CollisionFree(p.H)
    ensures var w := Exec(p, Initial(p), steps);
            && |OccupiedPositions(p.zero, w.Row())| == |StoredCertificates(p.zero, w.r)|
            && (forall h :: h != p.zero ==>
                 (w.r.State(h).Stored() <==> exists i :: 0 <= i < |w.Row()| && w.Row()[i] == h))
            && forall i, j :: 0 <= i < j < |w.Row()| && w.Row()[i] == w.Row()[j] ==> w.Row()[i] == p.zero
  {
    Reachable(p, steps);
    StoredFillLeaves(p, Exec(p, Initial(p), steps));
  }

  lemma {:induction false} SameSize(row: seq<Hash>, positions: set<nat>, values: set<Hash>)
    requires forall i: nat :: i in positions ==> i < |row| && row[i] in values
    requires forall h :: h in values ==> exists i: nat :: i in positions && i < |row| && row[i] == h
    requires forall i: nat, j: nat ::
               (i in positions && j in positions && i < |row| && j < |row| && row[i] == row[j]) ==> i == j
    ensures |positions| == |values|
    decreases positions
  {
    if positions == {} {
      assert values == {};
    } else {
      var i: nat :| i in positions;
      SameSize(row, positions - {i}, values - {row[i]});
    }
  }
}
