/** The tree half of the contract's protocol: which leaves the current root stands for, and which
    roots the contract still accepts. */
module TreeDiscipline {
  import opened Common
  import opened MerkleTree
  import opened CertificateRegistry

  ghost predicate RootsStandForRows(p: Parameters, w: World) {
    && |w.r.roots| == |w.rows| + 1 && |w.rows| >= 1
    && forall k :: 0 <= k < |w.rows| ==>
         |w.rows[k]| == Pow2(p.depth) && w.r.roots[k + 1] == Root(p.H, w.rows[k], p.depth)
  }

  /** The non-empty leaves are the certificates meant to be in the tree, each at one position. */
  ghost predicate LeavesAreStored(zero: Hash, row: seq<Hash>, r: Registry) {
    && (forall h :: h != zero ==> (h in row <==> r.State(h).Stored()))
    && forall i, j :: 0 <= i < j < |row| && row[i] == row[j] ==> row[i] == zero
  }

  ghost predicate RevokedAreGone(p: Parameters, w: World)
    requires 1 <= w.r.validIndex
  {
    forall h, k :: h != p.zero && w.r.State(h).RevocationMerkleTreeAdded? && w.r.validIndex - 1 <= k < |w.rows|
               ==> h !in w.rows[k]
  }

  /** A revocation leaves an empty leaf behind in the first row still accepted. */
  ghost predicate RevocationEmptiesLeaf(p: Parameters, w: World)
    requires 1 <= w.r.validIndex <= |w.rows|
  {
    && (w.r.validIndex > 1 ==> p.zero in w.rows[w.r.validIndex - 1])
    && forall h :: w.r.State(h).RevocationMerkleTreeAdded? ==> w.r.validIndex > 1
  }

  ghost predicate TreeInvariant(p: Parameters, w: World) {
    && RootsStandForRows(p, w)
    && IndexIsLastPosition(w.r)
    && LeavesAreStored(p.zero, w.Row(), w.r)
    && RevokedAreGone(p, w)
    && RevocationEmptiesLeaf(p, w)
  }

  lemma {:induction false} InitialTree(p: Parameters)
    ensures TreeInvariant(p, Initial(p))
  {
    assert Initial(p).Row() == Repeat(p.zero, Pow2(p.depth));
  }

  function OldLeaf(p: Parameters, w: World, h: Hash): Hash {
    if w.r.State(h).IssuanceQueued? then p.zero else h
  }

  function NewLeaf(p: Parameters, w: World, h: Hash): Hash {
    if w.r.State(h).IssuanceQueued? then h else p.zero
  }

  /** A transaction that went through replaced exactly one leaf, the empty one by the certificate or
      the certificate by the empty one, whatever index and proof it carried. */
  lemma {:induction false} AcceptedRewritesOneLeaf(p: Parameters, w: World, step: Step)
    requires CollisionFree(p.H) && RootsStandForRows(p, w)
    requires step.Process? && Next(p, w, step) != w
    ensures var w', i := Next(p, w, step), step.index;
            && w.r.State(step.h).Pending()
            && i < |w.Row()| && w.Row()[i] == OldLeaf(p, w, step.h)
            && w'.rows == w.rows + [w.Row()[i := NewLeaf(p, w, step.h)]]
            && w'.r.roots == w.r.roots + [Root(p.H, w.Row()[i := NewLeaf(p, w, step.h)], p.depth)]
  {
    AcceptedProofRewritesOneLeaf(p.H, w.Row(), p.depth, step.index,
                                 OldLeaf(p, w, step.h), NewLeaf(p, w, step.h), step.proof);
  }

  lemma {:induction false} ProcessKeepsRoots(p: Parameters, w: World, step: Step)
    requires CollisionFree(p.H) && TreeInvariant(p, w) && step.Process?
    ensures RootsStandForRows(p, Next(p, w, step)) && IndexIsLastPosition(Next(p, w, step).r)
  {
    if Next(p, w, step) != w {
      AcceptedRewritesOneLeaf(p, w, step);
    }
  }

  lemma {:induction false} ProcessKeepsLeaves(p: Parameters, w: World, step: Step)
    requires CollisionFree(p.H) && TreeInvariant(p, w) && step.Process?
    ensures LeavesAreStored(p.zero, Next(p, w, step).Row(), Next(p, w, step).r)
  {
    var w' := Next(p, w, step);
    if w' != w {
      AcceptedRewritesOneLeaf(p, w, step);
      var row, row', i := w.Row(), w'.Row(), step.index;
      forall h | h != p.zero ensures h in row' <==> w'.r.State(h).Stored() {
        assert h != step.h ==> w'.r.State(h) == w.r.State(h);
        assert h in row <==> w.r.State(h).Stored();
        if h in row' {
          var k :| 0 <= k < |row'| && row'[k] == h;
          assert k != i ==> row[k] == h;
        }
        if h in row && h != row[i] {
          var k :| 0 <= k < |row| && row[k] == h;
          assert row'[k] == h;
        }
        assert row'[i] in row';
      }
    }
  }

  lemma {:induction false} ProcessKeepsRevoked(p: Parameters, w: World, step: Step)
    requires CollisionFree(p.H) && TreeInvariant(p, w) && step.Process?
    ensures 1 <= Next(p, w, step).r.validIndex && RevokedAreGone(p, Next(p, w, step))
  {
    var w' := Next(p, w, step);
    if w' != w {
      AcceptedRewritesOneLeaf(p, w, step);
      ProcessKeepsLeaves(p, w, step);
      forall h, k | h != p.zero && w'.r.State(h).RevocationMerkleTreeAdded? && w'.r.validIndex - 1 <= k < |w'.rows|
        ensures h !in w'.rows[k]
      {
        if k == |w.rows| {
          assert w'.rows[k] == w'.Row();
          assert h in w'.Row() <==> w'.r.State(h).Stored();
        } else {
          assert w'.r.validIndex == w.r.validIndex;
          assert h != step.h && w'.r.State(h) == w.r.State(h);
          assert w'.rows[k] == w.rows[k];
        }
      }
    }
  }

  lemma {:induction false} ProcessKeepsEmptied(p: Parameters, w: World, step: Step)
    requires CollisionFree(p.H) && TreeInvariant(p, w) && step.Process?
    ensures var w' := Next(p, w, step);
            1 <= w'.r.validIndex <= |w'.rows| && RevocationEmptiesLeaf(p, w')
  {
    var w' := Next(p, w, step);
    if w' != w {
      AcceptedRewritesOneLeaf(p, w, step);
      if w.r.State(step.h).RevocationQueued? {
        assert w'.rows[|w.rows|][step.index] == p.zero;
      } else {
        forall h ensures w'.r.State(h).RevocationMerkleTreeAdded? ==> w'.r.validIndex > 1 {
          assert h != step.h ==> w'.r.State(h) == w.r.State(h);
        }
      }
    }
  }

  lemma {:induction false} AddKeepsTree(p: Parameters, w: World, step: Step)
    requires TreeInvariant(p, w) && step.Add?
    ensures TreeInvariant(p, Next(p, w, step))
  {
    var r, r' := w.r, Next(p, w, step).r;
    forall h
      ensures r'.State(h).Stored() == r.State(h).Stored()
      ensures r'.State(h).RevocationMerkleTreeAdded? == r.State(h).RevocationMerkleTreeAdded?
    {
      assert h != step.h ==> r'.State(h) == r.State(h);
    }
    assert Next(p, w, step).Row() == w.Row();
    StoredOnlyMatters(p.zero, w.Row(), r, r');
  }

  lemma {:induction false} StoredOnlyMatters(zero: Hash, row: seq<Hash>, r: Registry, r': Registry)
    requires LeavesAreStored(zero, row, r)
    requires forall h :: r'.State(h).Stored() == r.State(h).Stored()
    ensures LeavesAreStored(zero, row, r')
  {
  }

  lemma {:induction false} NextKeepsTree(p: Parameters, w: World, step: Step)
    requires CollisionFree(p.H) && TreeInvariant(p, w)
    ensures TreeInvariant(p, Next(p, w, step))
  {
    if step.Add? {
      AddKeepsTree(p, w, step);
    } else {
      ProcessKeepsRoots(p, w, step);
      ProcessKeepsLeaves(p, w, step);
      ProcessKeepsRevoked(p, w, step);
      ProcessKeepsEmptied(p, w, step);
    }
  }

  lemma {:induction false} RunKeepsTree(p: Parameters, w: World, steps: seq<Step>)
    requires CollisionFree(p.H) && TreeInvariant(p, w)
    ensures TreeInvariant(p, Exec(p, w, steps))
    decreases |steps|
  {
    if steps != [] {
      NextKeepsTree(p, w, steps[0]);
      RunKeepsTree(p, Next(p, w, steps[0]), steps[1..]);
    }
  }
}
