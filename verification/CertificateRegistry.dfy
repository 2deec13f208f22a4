/** The zkCertificate registry contract: its storage, its transactions and its views. */
module CertificateRegistry {
  import opened Common
  import opened MerkleTree

  datatype CertificateState =
    | StateNone
    | IssuanceQueued
    | IssuanceMerkleTreeAdded
    | RevocationQueued
    | RevocationMerkleTreeAdded
  {
    function Rank(): nat {
      match this
      case StateNone => 0
      case IssuanceQueued => 1
      case IssuanceMerkleTreeAdded => 2
      case RevocationQueued => 3
      case RevocationMerkleTreeAdded => 4
    }

    predicate Pending() { IssuanceQueued? || RevocationQueued? }

    /** The certificate is meant to be a leaf of the tree. */
    predicate Stored() { IssuanceMerkleTreeAdded? || RevocationQueued? }
  }

  datatype Operation = Issuance | Revocation

  /** The ABI decoder admits the operation codes 0 and 1 only. */
  function DecodeOperation(code: nat): Option<Operation> {
    if code == 0 then Some(Issuance) else if code == 1 then Some(Revocation) else None
  }

  datatype CertificateData = CertificateData(guardian: Address, queueIndex: nat, state: CertificateState)

  /** What a mapping answers for a key never written. */
  const NO_DATA := CertificateData(0, 0, StateNone)

  /** What is fixed at deployment. */
  datatype Parameters = Parameters(H: Compress, zero: Hash, depth: nat)

  /** The storage of the contract. */
  datatype Registry = Registry(
    roots: seq<Hash>,
    rootIndex: map<Hash, nat>,
    validIndex: nat,
    queue: seq<Hash>,
    pointer: nat,
    data: map<Hash, CertificateData>)
  {
    function Data(h: Hash): CertificateData {
      if h in data then data[h] else NO_DATA
    }

    function State(h: Hash): CertificateState {
      Data(h).state
    }

    predicate InTurn(h: Hash) {
      Data(h).queueIndex == pointer
    }

    predicate Accepts(root: Hash) {
      (if root in rootIndex then rootIndex[root] else 0) >= validIndex
    }
  }

  function Deployed(p: Parameters): Registry {
    var root := Root(p.H, Repeat(p.zero, Pow2(p.depth)), p.depth);
    Registry([Word(0), root], map[root := 1], 1, [], 0, map[])
  }

  /** `addOperationToQueue`; None is a revert. Whether the sender is a whitelisted guardian is the
      guardian registry's answer at the time of the call. */
  function AddOperation(r: Registry, sender: Address, isGuardian: bool, h: Hash, code: nat): Option<Registry> {
    var op := DecodeOperation(code);
    if !isGuardian || op.None? then None
    else if op == Some(Issuance) && r.State(h) != StateNone then None
    else if op == Some(Revocation) && !(r.State(h).IssuanceMerkleTreeAdded? && r.Data(h).guardian == sender) then None
    else
      var state := if op == Some(Issuance) then IssuanceQueued else RevocationQueued;
      Some(r.(queue := r.queue + [h], data := r.data[h := CertificateData(sender, |r.queue|, state)]))
  }

  /** The internal leaf change: the old leaf must fold to the latest root. */
  function ChangeLeaf(p: Parameters, r: Registry, index: nat, oldLeaf: Hash, newLeaf: Hash,
                      proof: seq<Hash>): Option<Registry> {
    if r.roots == [] || index >= Pow2(p.depth) || |proof| != p.depth then None
    else if Fold(p.H, oldLeaf, index, proof) != r.roots[|r.roots| - 1] then None
    else
      var root := Fold(p.H, newLeaf, index, proof);
      Some(r.(roots := r.roots + [root], rootIndex := r.rootIndex[root := |r.roots|]))
  }

  /** `processNextOperation`; None is a revert. Any account may call it. */
  function ProcessNext(p: Parameters, r: Registry, index: nat, h: Hash, proof: seq<Hash>): Option<Registry> {
    if !r.InTurn(h) then None
    else match r.State(h)
      case IssuanceQueued =>
        var changed := ChangeLeaf(p, r, index, p.zero, h, proof);
        if changed.None? then None
        else Some(changed.value.(
          data := r.data[h := r.Data(h).(state := IssuanceMerkleTreeAdded)],
          pointer := r.pointer + 1))
      case RevocationQueued =>
        var changed := ChangeLeaf(p, r, index, h, p.zero, proof);
        if changed.None? then None
        else Some(changed.value.(
          validIndex := |changed.value.roots| - 1,
          data := r.data[h := r.Data(h).(state := RevocationMerkleTreeAdded)],
          pointer := r.pointer + 1))
      case _ => None
  }

  ghost predicate LastPosition(roots: seq<Hash>, root: Hash, index: nat) {
    1 <= index < |roots| && roots[index] == root && forall k :: index < k < |roots| ==> roots[k] != root
  }

  /** `merkleRootIndex` holds the last position of every root pushed. */
  ghost predicate IndexIsLastPosition(r: Registry) {
    && 1 <= r.validIndex < |r.roots|
    && (forall k :: 1 <= k < |r.roots| ==> r.roots[k] in r.rootIndex)
    && forall root :: root in r.rootIndex ==> LastPosition(r.roots, root, r.rootIndex[root])
  }

  lemma {:induction false} AcceptsIsRecent(r: Registry, root: Hash)
    requires IndexIsLastPosition(r)
    ensures r.Accepts(root) <==> root in r.roots[r.validIndex..]
  {
    if root in r.roots[r.validIndex..] {
      var k :| r.validIndex <= k < |r.roots| && r.roots[k] == root;
      assert LastPosition(r.roots, root, r.rootIndex[root]);
    }
    if r.Accepts(root) {
      assert LastPosition(r.roots, root, r.rootIndex[root]);
      assert r.roots[r.validIndex..][r.rootIndex[root] - r.validIndex] == root;
    }
  }

  lemma {:induction false} ChangeLeafKeepsIndex(p: Parameters, r: Registry, index: nat, oldLeaf: Hash, newLeaf: Hash,
                                                proof: seq<Hash>)
    requires IndexIsLastPosition(r)
    ensures var changed := ChangeLeaf(p, r, index, oldLeaf, newLeaf, proof);
            changed.Some? ==> IndexIsLastPosition(changed.value) && changed.value.validIndex < |changed.value.roots| - 1
  {
  }

  /** The contract itself. A transaction answers whether it went through; if not it changed nothing. */
  class RegistryContract {
    const parameters: Parameters
    var merkleRoots: seq<Hash>
    var merkleRootIndex: map<Hash, nat>
    var merkleRootValidIndex: nat
    var zkCertificateQueue: seq<Hash>
    var currentQueuePointer: nat
    var zkCertificateHashToData: map<Hash, CertificateData>

    ghost function Storage(): Registry
      reads this
    {
      Registry(merkleRoots, merkleRootIndex, merkleRootValidIndex,
               zkCertificateQueue, currentQueuePointer, zkCertificateHashToData)
    }

    ghost predicate Valid()
      reads this
    {
      IndexIsLastPosition(Storage())
    }

    constructor (p: Parameters)
      ensures Valid() && parameters == p && Storage() == Deployed(p)
      ensures var empty := Root(p.H, Repeat(p.zero, Pow2(p.depth)), p.depth);
              && merkleRoots == [Word(0), empty] && merkleRootIndex == map[empty := 1] && merkleRootValidIndex == 1
              && zkCertificateQueue == [] && currentQueuePointer == 0 && zkCertificateHashToData == map[]
    {
      merkleRootValidIndex := 1;
      var root := ComputeEmptyRoot(p.H, p.zero, p.depth);
      parameters := p;
      merkleRoots := [Word(0), root];
      merkleRootIndex := map[root := 1];
      zkCertificateQueue, currentQueuePointer, zkCertificateHashToData := [], 0, map[];
    }

    method AddOperationToQueue(sender: Address, isGuardian: bool, h: Hash, code: nat) returns (ok: bool)
      requires Valid()
      modifies this
      ensures Valid()
      ensures match AddOperation(old(Storage()), sender, isGuardian, h, code)
              case Some(r) => ok && Storage() == r
              case None => !ok && Storage() == old(Storage())
    {
      if !isGuardian {
        return false;
      }
      var data := if h in zkCertificateHashToData then zkCertificateHashToData[h] else NO_DATA;
      var state;
      if code == 0 {
        if data.state != StateNone {
          return false;
        }
        state := IssuanceQueued;
      } else if code == 1 {
        if !data.state.IssuanceMerkleTreeAdded? || data.guardian != sender {
          return false;
        }
        state := RevocationQueued;
      } else {
        return false;
      }
      var queueIndex := |zkCertificateQueue|;
      zkCertificateHashToData := zkCertificateHashToData[h := CertificateData(sender, queueIndex, state)];
      zkCertificateQueue := zkCertificateQueue + [h];
      return true;
    }

    method ChangeLeafHash(index: nat, oldLeaf: Hash, newLeaf: Hash, proof: seq<Hash>) returns (ok: bool)
      requires Valid()
      modifies this`merkleRoots, this`merkleRootIndex
      ensures Valid()
      ensures match ChangeLeaf(parameters, old(Storage()), index, oldLeaf, newLeaf, proof)
              case Some(r) => ok && Storage() == r
              case None => !ok && Storage() == old(Storage())
    {
      ChangeLeafKeepsIndex(parameters, Storage(), index, oldLeaf, newLeaf, proof);
      var oldRoot := ComputeRoot(parameters.H, parameters.depth, oldLeaf, index, proof);
      if oldRoot != Some(merkleRoots[|merkleRoots| - 1]) {
        return false;
      }
      var newRoot := ComputeRoot(parameters.H, parameters.depth, newLeaf, index, proof);
      merkleRoots := merkleRoots + [newRoot.value];
      merkleRootIndex := merkleRootIndex[newRoot.value := |merkleRoots| - 1];
      return true;
    }

    method ProcessNextOperation(index: nat, h: Hash, proof: seq<Hash>) returns (ok: bool)
      requires Valid()
      modifies this
      ensures Valid()
      ensures match ProcessNext(parameters, old(Storage()), index, h, proof)
              case Some(r) => ok && Storage() == r
              case None => !ok && Storage() == old(Storage())
    {
      var data := if h in zkCertificateHashToData then zkCertificateHashToData[h] else NO_DATA;
      if data.queueIndex != currentQueuePointer {
        return false;
      }
      if data.state == IssuanceQueued {
        ok := ChangeLeafHash(index, parameters.zero, h, proof);
        if !ok {
          return;
        }
        zkCertificateHashToData := zkCertificateHashToData[h := data.(state := IssuanceMerkleTreeAdded)];
      } else if data.state == RevocationQueued {
        ok := ChangeLeafHash(index, h, parameters.zero, proof);
        if !ok {
          return;
        }
        merkleRootValidIndex := |merkleRoots| - 1;
        zkCertificateHashToData := zkCertificateHashToData[h := data.(state := RevocationMerkleTreeAdded)];
      } else {
        return false;
      }
      currentQueuePointer := currentQueuePointer + 1;
    }

    method VerifyMerkleRoot(root: Hash) returns (ok: bool)
      requires Valid()
      ensures ok <==> root in merkleRoots[merkleRootValidIndex..]
    {
      AcceptsIsRecent(Storage(), root);
      ok := (if root in merkleRootIndex then merkleRootIndex[root] else 0) >= merkleRootValidIndex;
    }
  }

  // ---------- Runs ----------

  /** One transaction, by any account. */
  datatype Step =
    | Add(sender: Address, isGuardian: bool, h: Hash, code: nat)
    | Process(index: nat, h: Hash, proof: seq<Hash>)

  /** The payload the two queue events share. */
  datatype Entry = Entry(hash: Hash, op: Operation, queueIndex: nat, guardian: Address)

  /** The storage, with the history a proof needs: the OperationQueued and CertificateProcessed
      events emitted so far, and the row of leaves behind every root pushed. */
  datatype World = World(r: Registry, rows: seq<seq<Hash>>, queued: seq<Entry>, processed: seq<Entry>)
  {
    function Row(): seq<Hash> {
      if rows == [] then [] else rows[|rows| - 1]
    }
  }

  function Initial(p: Parameters): World {
    World(Deployed(p), [Repeat(p.zero, Pow2(p.depth))], [], [])
  }

  function SetLeaf(row: seq<Hash>, index: nat, leaf: Hash): seq<Hash> {
    if index < |row| then row[index := leaf] else row
  }

  function Next(p: Parameters, w: World, step: Step): World {
    match step
    case Add(sender, isGuardian, h, code) =>
      var added := AddOperation(w.r, sender, isGuardian, h, code);
      if added.None? then w
      else w.(r := added.value,
              queued := w.queued + [Entry(h, DecodeOperation(code).value, |w.r.queue|, sender)])
    case Process(index, h, proof) =>
      var done := ProcessNext(p, w.r, index, h, proof);
      if done.None? then w
      else
        var op := if w.r.State(h).IssuanceQueued? then Issuance else Revocation;
        World(done.value,
              w.rows + [SetLeaf(w.Row(), index, if op == Issuance then h else p.zero)],
              w.queued,
              w.processed + [Entry(h, op, w.r.Data(h).queueIndex, w.r.Data(h).guardian)])
  }

  /** Any interleaving of guardians, processors and resubmissions is a sequence of steps. */
  function Exec(p: Parameters, w: World, steps: seq<Step>): World
    decreases |steps|
  {
    if steps == [] then w else Exec(p, Next(p, w, steps[0]), steps[1..])
  }

  lemma {:induction false} ExecAppend(p: Parameters, w: World, first: seq<Step>, second: seq<Step>)
    ensures Exec(p, w, first + second) == Exec(p, Exec(p, w, first), second)
    decreases |first|
  {
    if first == [] {
      assert first + second == second;
    } else {
      assert (first + second)[1..] == first[1..] + second;
      ExecAppend(p, Next(p, w, first[0]), first[1..], second);
    }
  }

  lemma {:induction false} ExecOne(p: Parameters, w: World, a: Step)
    ensures Exec(p, w, [a]) == Next(p, w, a)
  {
    assert [a][1..] == [];
    assert Exec(p, w, [a]) == Exec(p, Next(p, w, a), []);
  }

  lemma {:induction false} ExecTwo(p: Parameters, w: World, a: Step, b: Step)
    ensures Exec(p, w, [a, b]) == Next(p, Next(p, w, a), b)
  {
    assert [a, b][1..] == [b];
    ExecOne(p, Next(p, w, a), b);
  }

  lemma {:induction false} ExecFour(p: Parameters, w: World, a: Step, b: Step, c: Step, d: Step)
    ensures Exec(p, w, [a, b, c, d]) == Next(p, Next(p, Next(p, Next(p, w, a), b), c), d)
  {
    assert [a, b] + [c, d] == [a, b, c, d];
    ExecAppend(p, w, [a, b], [c, d]);
    ExecTwo(p, w, a, b);
    ExecTwo(p, Next(p, Next(p, w, a), b), c, d);
  }
}
