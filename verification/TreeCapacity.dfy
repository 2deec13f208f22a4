/** The queue of a tree of any depth can be blocked, by either operation: runs that fill the tree. */
module TreeCapacity {
  import opened Common
  import opened MerkleTree
  import opened CertificateRegistry
  import opened QueueDiscipline
  import opened TreeDiscipline
  import opened RegistrySafety
  import opened QueueProgress

  /** Pairwise different hashes, none of them the empty leaf. */
  function Fresh(p: Parameters, i: nat): Hash {
    Word(p.zero.value + 1 + i)
  }

  ghost predicate AmongFirst(p: Parameters, n: nat, withZero: bool, h: Hash) {
    p.zero.value < h.value <= p.zero.value + n || (withZero && h == p.zero)
  }

  /** The first `n` fresh hashes are issued, and the empty leaf's own value if `withZero`; everything
      queued is done, nothing else has happened, and guardian 1 asked for all of it. */
  ghost predicate Filled(p: Parameters, w: World, n: nat, withZero: bool) {
    && w.r.pointer == |w.r.queue|
    && (withZero ==> w.r.Data(p.zero).guardian == 1)
    && forall h :: w.r.State(h) == if AmongFirst(p, n, withZero, h) then IssuanceMerkleTreeAdded else StateNone
  }

  lemma {:induction false} StoredCount(p: Parameters, n: nat, stored: set<Hash>)
    requires forall h :: h in stored <==> p.zero.value < h.value <= p.zero.value + n
    ensures |stored| == n
    decreases n
  {
    if n == 0 {
      assert stored == {};
    } else {
      StoredCount(p, n - 1, stored - {Fresh(p, n - 1)});
    }
  }

  /** The row of a tree with fewer certificates than leaves has an empty leaf. */
  lemma {:induction false} FilledHasRoom(p: Parameters, w: World, n: nat, withZero: bool)
    requires Invariant(p, w) && Filled(p, w, n, withZero)
    ensures |StoredCertificates(p.zero, w.r)| == n
    ensures |w.Row()| == Pow2(p.depth) && (n < Pow2(p.depth) ==> p.zero in w.Row())
  {
    StoredFillLeaves(p, w);
    OccupiedCount(p.zero, w.Row());
    var stored := StoredCertificates(p.zero, w.r);
    forall h ensures h in stored <==> p.zero.value < h.value <= p.zero.value + n {
      assert w.r.State(h) == if AmongFirst(p, n, withZero, h) then IssuanceMerkleTreeAdded else StateNone;
    }
    StoredCount(p, n, stored);
  }

  function Code(op: Operation): nat {
    if op == Issuance then 0 else 1
  }

  /** A request to a queue that is done becomes the head. */
  lemma {:induction false} QueueOne(p: Parameters, w: World, h: Hash, op: Operation)
    requires QueueInvariant(w) && w.r.pointer == |w.r.queue|
    requires if op == Issuance then w.r.State(h) == StateNone
             else w.r.State(h).IssuanceMerkleTreeAdded? && w.r.Data(h).guardian == 1
    ensures var w' := Next(p, w, Add(1, true, h, Code(op)));
            && w'.r.pointer + 1 == |w'.r.queue| == |w'.queued| && w'.r.queue[w'.r.pointer] == h
            && w'.queued[w'.r.pointer].op == op && w'.r.Data(h).guardian == 1
            && w'.r.State(h) == (if op == Issuance then IssuanceQueued else RevocationQueued)
            && (forall g :: g != h ==> w'.r.Data(g) == w.r.Data(g))
            && w'.r.roots == w.r.roots && w'.Row() == w.Row()
  {
  }

  lemma {:induction false} IssueOne(p: Parameters, w: World, index: nat)
    requires CollisionFree(p.H) && Invariant(p, w) && w.r.pointer + 1 == |w.r.queue|
    requires w.r.State(w.r.queue[w.r.pointer]) == IssuanceQueued
    requires index < |w.Row()| && w.Row()[index] == p.zero
    ensures var h := w.r.queue[w.r.pointer];
            var w' := Next(p, w, Process(index, h, Siblings(p.H, w.Row(), p.depth, index)));
            && w'.r.pointer == |w'.r.queue| && w'.r.Data(h).guardian == w.r.Data(h).guardian
            && w'.r.State(h) == IssuanceMerkleTreeAdded && forall g :: g != h ==> w'.r.Data(g) == w.r.Data(g)
  {
    AdvancesWithHonestProof(p, w, index, Siblings(p.H, w.Row(), p.depth, index));
  }

  lemma {:induction false} FilledGrows(p: Parameters, w: World, w1: World, w2: World, n: nat, withZero: bool)
    requires Filled(p, w, n, withZero) && w2.r.pointer == |w2.r.queue|
    requires forall g :: g != Fresh(p, n) ==> w1.r.Data(g) == w.r.Data(g) && w2.r.Data(g) == w1.r.Data(g)
    requires w2.r.State(Fresh(p, n)) == IssuanceMerkleTreeAdded
    ensures Filled(p, w2, n + 1, withZero)
  {
    forall h ensures w2.r.State(h) == if AmongFirst(p, n + 1, withZero, h) then IssuanceMerkleTreeAdded else StateNone {
      if h != Fresh(p, n) {
        assert w2.r.Data(h) == w.r.Data(h) && w2.r.State(h) == w.r.State(h);
        assert h.value != p.zero.value + n + 1;
      }
    }
  }

  /** One more fresh certificate is queued, and issued on the empty leaf at `index`. */
  lemma {:induction false} FillOne(p: Parameters, w: World, n: nat, withZero: bool, index: nat)
    requires CollisionFree(p.H) && Invariant(p, w) && Filled(p, w, n, withZero)
    requires index < |w.Row()| && w.Row()[index] == p.zero
    ensures var queue := Add(1, true, Fresh(p, n), Code(Issuance));
            var issue := Process(index, Fresh(p, n), Siblings(p.H, w.Row(), p.depth, index));
            Filled(p, Next(p, Next(p, w, queue), issue), n + 1, withZero)
  {
    var queue := Add(1, true, Fresh(p, n), Code(Issuance));
    NextKeepsQueue(p, w, queue);
    NextKeepsTree(p, w, queue);
    QueueOne(p, w, Fresh(p, n), Issuance);
    IssueOne(p, Next(p, w, queue), index);
    var issue := Process(index, Fresh(p, n), Siblings(p.H, w.Row(), p.depth, index));
    FilledGrows(p, w, Next(p, w, queue), Next(p, Next(p, w, queue), issue), n, withZero);
  }

  lemma {:induction false} FillStep(p: Parameters, before: seq<Step>, n: nat, withZero: bool) returns (steps: seq<Step>)
    requires CollisionFree(p.H) && n < Pow2(p.depth) && Filled(p, Exec(p, Initial(p), before), n, withZero)
    ensures Filled(p, Exec(p, Initial(p), steps), n + 1, withZero)
  {
    var w := Exec(p, Initial(p), before);
    Reachable(p, before);
    FilledHasRoom(p, w, n, withZero);
    var index := FirstPosition(w.Row(), p.zero);
    FillOne(p, w, n, withZero, index);
    var queue := Add(1, true, Fresh(p, n), Code(Issuance));
    var issue := Process(index, Fresh(p, n), Siblings(p.H, w.Row(), p.depth, index));
    steps := before + [queue, issue];
    ExecAppend(p, Initial(p), before, [queue, issue]);
    ExecTwo(p, w, queue, issue);
  }

  /** The empty leaf's own value can be issued; it replaces an empty leaf by itself. */
  lemma {:induction false} IssueZero(p: Parameters) returns (steps: seq<Step>)
    ensures Filled(p, Exec(p, Initial(p), steps), 0, true)
  {
    steps := [Add(1, true, p.zero, 0), FirstIssuance(p, p.zero)];
    var w := FirstIssuanceAccepted(p, p.zero);
    ExecTwo(p, Initial(p), steps[0], steps[1]);
    var w1 := Next(p, Initial(p), steps[0]);
    forall h ensures w.r.State(h) == if AmongFirst(p, 0, true, h) then IssuanceMerkleTreeAdded else StateNone {
      if h != p.zero {
        assert w1.r.Data(h) == NO_DATA && w.r.Data(h) == w1.r.Data(h);
      }
    }
  }

  /** The tree can be filled with any number of certificates up to the number of its leaves. */
  lemma {:induction false} Fill(p: Parameters, n: nat, withZero: bool) returns (steps: seq<Step>)
    requires CollisionFree(p.H) && n <= Pow2(p.depth)
    ensures Filled(p, Exec(p, Initial(p), steps), n, withZero)
    decreases n
  {
    if n > 0 {
      var before := Fill(p, n - 1, withZero);
      steps := FillStep(p, before, n - 1, withZero);
    } else if withZero {
      steps := IssueZero(p);
    } else {
      steps := [];
    }
  }

  ghost predicate StuckOn(p: Parameters, w: World, op: Operation) {
    Stuck(p, w) && w.r.pointer < |w.queued| && w.queued[w.r.pointer].op == op
  }

  /** For a tree of any depth some run ends blocked by an issuance, one more than it has leaves, and
      some run ends blocked by a revocation, that of the empty leaf's own value. */
  lemma {:induction false} EveryTreeCanBlock(p: Parameters, op: Operation)
    requires CollisionFree(p.H)
    ensures exists steps :: StuckOn(p, Exec(p, Initial(p), steps), op)
  {
    var n, h := Pow2(p.depth), if op == Issuance then Fresh(p, Pow2(p.depth)) else p.zero;
    var before := Fill(p, n, op == Revocation);
    var w, add := Exec(p, Initial(p), before), Add(1, true, h, Code(op));
    Reachable(p, before);
    FilledHasRoom(p, w, n, op == Revocation);
    QueueOne(p, w, h, op);
    AddKeepsStored(p, w, add);
    ExecAppend(p, Initial(p), before, [add]);
    ExecOne(p, w, add);
    StuckExactly(p, before + [add]);
    assert StuckOn(p, Exec(p, Initial(p), before + [add]), op);
  }

  lemma {:induction false} AddKeepsStored(p: Parameters, w: World, step: Step)
    requires step.Add?
    ensures StoredCertificates(p.zero, Next(p, w, step).r) == StoredCertificates(p.zero, w.r)
  {
    var r, r' := w.r, Next(p, w, step).r;
    forall h ensures h in StoredCertificates(p.zero, r') <==> h in StoredCertificates(p.zero, r) {
      assert h != step.h ==> r'.State(h) == r.State(h);
    }
  }
}
