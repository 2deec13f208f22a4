/** When the head of a queue can be carried out, and when it blocks the queue. */
module QueueProgress {
  import opened Common
  import opened MerkleTree
  import opened CertificateRegistry
  import opened QueueDiscipline
  import opened TreeDiscipline
  import opened RegistrySafety

  /** The leaf a proof for the head of the queue must open. */
  function NeededLeaf(p: Parameters, w: World): Hash
    requires w.r.pointer < |w.r.queue|
  {
    OldLeaf(p, w, w.r.queue[w.r.pointer])
  }

  ghost predicate Advances(p: Parameters, w: World, index: nat, proof: seq<Hash>)
    requires w.r.pointer < |w.r.queue|
  {
    Next(p, w, Process(index, w.r.queue[w.r.pointer], proof)).r.pointer == w.r.pointer + 1
  }

  lemma {:induction false} AdvancesWhenFolds(p: Parameters, w: World, index: nat, proof: seq<Hash>)
    requires Invariant(p, w) && w.r.pointer < |w.r.queue|
    ensures Advances(p, w, index, proof) <==>
            index < Pow2(p.depth) && |proof| == p.depth
            && Fold(p.H, NeededLeaf(p, w), index, proof) == w.r.roots[|w.r.roots| - 1]
  {
    HeadIsPending(w);
  }

  lemma {:induction false} AdvancesWithHonestProof(p: Parameters, w: World, index: nat, proof: seq<Hash>)
    requires CollisionFree(p.H) && Invariant(p, w) && w.r.pointer < |w.r.queue|
    ensures Advances(p, w, index, proof) <==>
            index < |w.Row()| && w.Row()[index] == NeededLeaf(p, w) && proof == Siblings(p.H, w.Row(), p.depth, index)
  {
    AdvancesWhenFolds(p, w, index, proof);
    if index < |w.Row()| && |proof| == p.depth {
      ProofAcceptedExactly(p.H, w.Row(), p.depth, index, NeededLeaf(p, w), proof);
    }
  }

  lemma {:induction false} OccupiedCount(zero: Hash, row: seq<Hash>)
    ensures |OccupiedPositions(zero, row)| <= |row|
    ensures |OccupiedPositions(zero, row)| == |row| <==> zero !in row
    decreases |row|
  {
    if row == [] {
      assert OccupiedPositions(zero, row) == {};
    } else {
      var n := |row| - 1;
      var front := row[..n];
      OccupiedCount(zero, front);
      assert row == front + [row[n]];
      assert OccupiedPositions(zero, row) == OccupiedPositions(zero, front) + if row[n] == zero then {} else {n};
    }
  }

  /** What an operation needs the tree to have, read off its entry: the revocation of the empty leaf's
      own value looks for an empty leaf, too. */
  ghost predicate NeedsEmptyLeaf(p: Parameters, e: Entry) {
    e.op == Issuance || e.hash == p.zero
  }

  lemma {:induction false} NeededLeafIsThere(p: Parameters, w: World)
    requires Invariant(p, w) && w.r.pointer < |w.r.queue|
    ensures NeededLeaf(p, w) in w.Row() <==>
            (NeedsEmptyLeaf(p, w.queued[w.r.pointer]) ==> |StoredCertificates(p.zero, w.r)| < Pow2(p.depth))
  {
    StoredFillLeaves(p, w);
    OccupiedCount(p.zero, w.Row());
    HeadIsPending(w);
    assert CertificateOk(w, w.r.queue[w.r.pointer]);
  }

  /** Progress: the head can be carried out exactly with the honest proof of the leaf it needs. That
      leaf is there, so that some proof will do, exactly if the head is the revocation of a certificate
      other than the empty leaf's value, or the tree has more leaves than certificates. */
  lemma {:induction false} HeadAdvancesExactly(p: Parameters, steps: seq<Step>, index: nat, proof: seq<Hash>)
    requires CollisionFree(p.H)
    ensures var w := Exec(p, Initial(p), steps);
            w.r.pointer < |w.r.queue| ==>
              && |w.Row()| == Pow2(p.depth) && |w.queued| == |w.r.queue|
              && (Advances(p, w, index, proof) <==>
                    index < |w.Row()| && w.Row()[index] == NeededLeaf(p, w)
                    && proof == Siblings(p.H, w.Row(), p.depth, index))
              && (NeededLeaf(p, w) in w.Row() <==>
                    (w.queued[w.r.pointer].op == Revocation && w.r.queue[w.r.pointer] != p.zero)
                    || |StoredCertificates(p.zero, w.r)| < Pow2(p.depth))
  {
    Reachable(p, steps);
    var w := Exec(p, Initial(p), steps);
    if w.r.pointer < |w.r.queue| {
      AdvancesWithHonestProof(p, w, index, proof);
      NeededLeafIsThere(p, w);
    }
  }

  ghost predicate Stuck(p: Parameters, w: World) {
    w.r.pointer < |w.r.queue| && NeededLeaf(p, w) !in w.Row()
  }

  /** A head that needs a leaf the tree lacks blocks the queue for good: no transaction of anybody
      moves the pointer or the tree again, revocations waiting behind it included. */
  lemma {:induction false} FullTreeBlocksForEver(p: Parameters, w: World, later: seq<Step>)
    requires CollisionFree(p.H) && Invariant(p, w) && Stuck(p, w)
    ensures var w' := Exec(p, w, later);
            w'.r.pointer == w.r.pointer && w'.rows == w.rows && w'.processed == w.processed
    decreases |later|
  {
    if later != [] {
      var step := later[0];
      var w1 := Next(p, w, step);
      HeadIsPending(w);
      NextKeepsQueue(p, w, step);
      NextKeepsTree(p, w, step);
      if step.Process? && w1 != w {
        AcceptedIsHead(p, w, step);
        AcceptedRewritesOneLeaf(p, w, step);
        assert false;
      }
      assert w1.r.queue[w.r.pointer] == w.r.queue[w.r.pointer];
      FullTreeBlocksForEver(p, w1, later[1..]);
    }
  }

  /** When a queue is blocked, in terms anybody can read off the chain: the head is an issuance, or an
      operation on the empty leaf's value, and there are as many certificates issued and not revoked as
      the tree has leaves. */
  lemma {:induction false} StuckExactly(p: Parameters, steps: seq<Step>)
    requires CollisionFree(p.H)
    ensures var w := Exec(p, Initial(p), steps);
            w.r.pointer < |w.r.queue| ==>
              && |w.queued| == |w.r.queue|
              && (Stuck(p, w) <==> (w.queued[w.r.pointer].op == Issuance || w.r.queue[w.r.pointer] == p.zero)
                                   && |StoredCertificates(p.zero, w.r)| == Pow2(p.depth))
  {
    Reachable(p, steps);
    var w := Exec(p, Initial(p), steps);
    StoredFillLeaves(p, w);
    OccupiedCount(p.zero, w.Row());
    if w.r.pointer < |w.r.queue| {
      NeededLeafIsThere(p, w);
    }
  }

  // ---------- How far a queue can be carried out ----------

  /** What carrying out an entry does to the number of certificates in the tree. */
  function Change(p: Parameters, e: Entry): int {
    if e.hash == p.zero then 0 else if e.op == Issuance then 1 else -1
  }

  function StoredAfter(p: Parameters, entries: seq<Entry>, stored: int): int
    decreases |entries|
  {
    if entries == [] then stored else StoredAfter(p, entries[1..], stored + Change(p, entries[0]))
  }

  /** How many of the entries can be carried out before one needs an empty leaf of a full tree. */
  ghost function Feasible(p: Parameters, entries: seq<Entry>, stored: int): (n: nat)
    ensures n <= |entries|
    decreases |entries|
  {
    if entries == [] || (NeedsEmptyLeaf(p, entries[0]) && stored >= Pow2(p.depth)) then 0
    else 1 + Feasible(p, entries[1..], stored + Change(p, entries[0]))
  }

  /** Whenever an entry needs an empty leaf, the ones before it leave fewer certificates than leaves. */
  ghost predicate AlwaysRoom(p: Parameters, entries: seq<Entry>, stored: int) {
    forall j :: 0 <= j < |entries| && NeedsEmptyLeaf(p, entries[j])
            ==> StoredAfter(p, entries[..j], stored) < Pow2(p.depth)
  }

  lemma {:induction false} FeasibleWhenRoom(p: Parameters, entries: seq<Entry>, stored: int)
    ensures Feasible(p, entries, stored) == |entries| <==> AlwaysRoom(p, entries, stored)
    decreases |entries|
  {
    if entries != [] {
      var rest, after := entries[1..], stored + Change(p, entries[0]);
      FeasibleWhenRoom(p, rest, after);
      forall j | 0 <= j < |rest|
        ensures StoredAfter(p, entries[..j + 1], stored) == StoredAfter(p, rest[..j], after)
        ensures entries[j + 1] == rest[j]
      {
        assert entries[..j + 1][1..] == rest[..j];
      }
      assert StoredAfter(p, entries[..0], stored) == stored;
      if AlwaysRoom(p, rest, after) && (NeedsEmptyLeaf(p, entries[0]) ==> stored < Pow2(p.depth)) {
        forall j | 0 <= j < |entries| && NeedsEmptyLeaf(p, entries[j])
          ensures StoredAfter(p, entries[..j], stored) < Pow2(p.depth)
        {
          if j > 0 {
            assert entries[j] == rest[j - 1];
            assert StoredAfter(p, entries[..j - 1 + 1], stored) == StoredAfter(p, rest[..j - 1], after);
          }
        }
      }
    }
  }

  /** Carrying out an entry changes the number of certificates in the tree by what the entry says. */
  lemma {:induction false} AdvanceChangesStored(p: Parameters, w: World, step: Step)
    requires QueueInvariant(w) && step.Process? && Next(p, w, step) != w
    ensures w.r.pointer < |w.queued|
    ensures |StoredCertificates(p.zero, Next(p, w, step).r)|
         == |StoredCertificates(p.zero, w.r)| + Change(p, w.queued[w.r.pointer])
  {
    var w', h := Next(p, w, step), step.h;
    AcceptedIsHead(p, w, step);
    assert CertificateOk(w, h);
    var before, after := StoredCertificates(p.zero, w.r), StoredCertificates(p.zero, w'.r);
    forall g | g != h ensures g in after <==> g in before {
      assert w'.r.State(g) == w.r.State(g);
    }
    if h == p.zero {
      assert after == before;
    } else if w.queued[w.r.pointer].op == Issuance {
      assert after == before + {h};
    } else {
      assert after == before - {h};
    }
  }
}
