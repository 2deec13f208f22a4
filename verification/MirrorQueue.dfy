/** The mirror of the on-chain queues: the dispatch of published logs and the queues they fill. */
module MirrorQueue {
  import opened Common
  import opened CertificateRegistry
  import opened ChainLogs
  import opened ScannerCycles

  /** The first topic of the event, by which its parser tells it from other logs. */
  const OPERATION_QUEUED_ID := Word(0xb1acf3fe87405cb3d477043a120b6933cf2364d4826ab90b112545cecc628e8f)

  /** `ParseOperationQueued`, which takes the certificate and the guardian from the topics; None is an error. */
  function ParseOperationQueued(l: Log): Option<Entry> {
    if |l.topics| != 3 || l.topics[0] != OPERATION_QUEUED_ID || !l.body.QueueData? then None
    else Some(Entry(l.topics[1], l.body.operation, l.body.queueIndex, l.topics[2].value))
  }

  datatype OperationQueuedEvent = OperationQueuedEvent(registry: Address, hash: Hash, guardian: Address,
                                                       operation: Operation, queueIndex: nat)

  /** The field `state` holds the operation code of the event. */
  datatype QueuedOperation = QueuedOperation(hash: Hash, guardian: Address, queueIndex: nat, state: Operation,
                                             isProcessing: bool)

  /** The mirrored queue of each registry. */
  type Mirror = map<Address, seq<QueuedOperation>>

  function AsQueued(e: Entry): QueuedOperation {
    QueuedOperation(e.hash, e.guardian, e.queueIndex, e.op, false)
  }

  /** Field by field, the mirrored operations are the entries, in order and none of them in processing. */
  ghost predicate Mirrors(queue: seq<QueuedOperation>, entries: seq<Entry>) {
    && |queue| == |entries|
    && forall k :: 0 <= k < |queue| ==>
         && queue[k].hash == entries[k].hash && queue[k].guardian == entries[k].guardian
         && queue[k].queueIndex == entries[k].queueIndex && queue[k].state == entries[k].op
         && !queue[k].isProcessing
  }

  class RegistryMirror {
    var queue: seq<QueuedOperation>

    constructor ()
      ensures queue == []
    {
      queue := [];
    }
  }

  class QueueService {
    const registries: map<Address, RegistryMirror>

    /** No two addresses share a mirror. */
    ghost predicate Valid() {
      forall a, b :: a in registries && b in registries && a != b ==> registries[a] != registries[b]
    }

    ghost function Queues(): Mirror
      reads registries.Values
    {
      map a | a in registries :: registries[a].queue
    }

    /** One empty mirror for each configured address. */
    constructor (addresses: seq<Address>)
      ensures Valid() && fresh(registries.Values)
      ensures Queues() == map a | a in addresses :: []
    {
      var mirrors: map<Address, RegistryMirror> := map[];
      for i := 0 to |addresses|
        invariant forall a :: a in mirrors ==> fresh(mirrors[a])
        invariant forall a :: a in mirrors <==> a in addresses[..i]
        invariant forall a :: a in mirrors ==> mirrors[a].queue == []
        invariant forall a, b :: a in mirrors && b in mirrors && a != b ==> mirrors[a] != mirrors[b]
      {
        var mirror := new RegistryMirror();
        mirrors := mirrors[addresses[i] := mirror];
        assert addresses[..i + 1] == addresses[..i] + [addresses[i]];
      }
      assert addresses[..|addresses|] == addresses;
      registries := mirrors;
    }

    method HandleOperationQueued(event: OperationQueuedEvent)
      requires Valid()
      modifies registries.Values
      ensures Queues() == if event.registry in registries
                          then old(Queues())[event.registry := old(Queues())[event.registry]
                                 + [QueuedOperation(event.hash, event.guardian, event.queueIndex,
                                                    event.operation, false)]]
                          else old(Queues())
    {
      if event.registry !in registries {
        return;
      }
      var registry := registries[event.registry];
      registry.queue := registry.queue
                      + [QueuedOperation(event.hash, event.guardian, event.queueIndex, event.operation, false)];
    }

    /** The callback main.go subscribes to contract events, with synchronous delivery on the bus. */
    method OnContractEvent(contracts: set<Address>, l: Log)
      requires Valid()
      modifies registries.Values
      ensures Queues() == AfterLog(contracts, old(Queues()), l)
    {
      if l.address in contracts {
        var parsed := ParseOperationQueued(l);
        if parsed.Some? {
          var e := parsed.value;
          HandleOperationQueued(OperationQueuedEvent(l.address, e.hash, e.guardian, e.op, e.queueIndex));
        }
      }
    }

    method GetQueueLength() returns (total: nat)
      ensures total == TotalLength(Queues())
      ensures (forall a :: a in registries ==> registries[a].queue == []) ==> total == 0
    {
      total := 0;
      var left := registries.Keys;
      assert Restrict(Queues(), left) == Queues();
      while left != {}
        invariant left <= registries.Keys
        invariant total + TotalLength(Restrict(Queues(), left)) == TotalLength(Queues())
        decreases left
      {
        var a :| a in left;
        TotalWithout(Restrict(Queues(), left), a);
        assert Restrict(Queues(), left) - {a} == Restrict(Queues(), left - {a});
        total := total + |registries[a].queue|;
        left := left - {a};
      }
      assert Restrict(Queues(), {}) == map[];
      if forall a :: a in registries ==> registries[a].queue == [] {
        EmptyTotal(Queues());
      }
    }
  }

  function AfterLog(contracts: set<Address>, queues: Mirror, l: Log): Mirror {
    var parsed := ParseOperationQueued(l);
    if l.address in contracts && l.address in queues && parsed.Some?
    then queues[l.address := queues[l.address] + [AsQueued(parsed.value)]]
    else queues
  }

  /** The mirror after the bus delivered `logs`, in order. */
  function AfterLogs(contracts: set<Address>, queues: Mirror, logs: seq<Log>): Mirror
    decreases |logs|
  {
    if logs == [] then queues
    else AfterLog(contracts, AfterLogs(contracts, queues, logs[..|logs| - 1]), logs[|logs| - 1])
  }

  // ---------- Totals ----------

  function Restrict(queues: Mirror, keys: set<Address>): Mirror {
    map a | a in queues && a in keys :: queues[a]
  }

  /** The sum of the queue lengths, in no particular order. */
  ghost function TotalLength(queues: Mirror): nat
    decreases |queues|
  {
    if queues == map[] then 0
    else
      var a :| a in queues;
      |queues[a]| + TotalLength(queues - {a})
  }

  /** The total does not depend on the order in which the queues are counted. */
  lemma {:induction false} TotalWithout(queues: Mirror, a: Address)
    requires a in queues
    ensures TotalLength(queues) == |queues[a]| + TotalLength(queues - {a})
    decreases |queues|
  {
    var b :| b in queues && TotalLength(queues) == |queues[b]| + TotalLength(queues - {b});
    if a != b {
      TotalWithout(queues - {b}, a);
      TotalWithout(queues - {a}, b);
      assert queues - {a} - {b} == queues - {b} - {a};
    }
  }

  /** Empty queues have the total 0. */
  lemma {:induction false} EmptyTotal(queues: Mirror)
    requires forall a :: a in queues ==> queues[a] == []
    ensures TotalLength(queues) == 0
    decreases |queues|
  {
    if queues != map[] {
      var a :| a in queues && TotalLength(queues) == |queues[a]| + TotalLength(queues - {a});
      EmptyTotal(queues - {a});
    }
  }

  // ---------- What the mirror holds ----------

  /** The parsed events among `logs`. */
  function ParseAll(logs: seq<Log>): seq<QueuedOperation> {
    if logs == [] then []
    else
      var rest, parsed := ParseAll(logs[..|logs| - 1]), ParseOperationQueued(logs[|logs| - 1]);
      if parsed.Some? then rest + [AsQueued(parsed.value)] else rest
  }

  lemma {:induction false} ParseAllConcat(first: seq<Log>, second: seq<Log>)
    ensures ParseAll(first + second) == ParseAll(first) + ParseAll(second)
    decreases |second|
  {
    if second == [] {
      assert first + second == first;
    } else {
      assert (first + second)[..|first + second| - 1] == first + second[..|second| - 1];
      ParseAllConcat(first, second[..|second| - 1]);
    }
  }

  /** Whatever logs of whatever contracts are delivered, the queue of each registry grows by exactly
      the OperationQueued events of its own address, in the order delivered. */
  lemma {:induction false} MirrorHoldsOwnEvents(contracts: set<Address>, queues: Mirror, logs: seq<Log>, a: Address)
    requires a in contracts && a in queues
    ensures AfterLogs(contracts, queues, logs).Keys == queues.Keys
    ensures AfterLogs(contracts, queues, logs)[a] == queues[a] + ParseAll(ForAddress(logs, a))
    decreases |logs|
  {
    if logs != [] {
      var front, l := logs[..|logs| - 1], logs[|logs| - 1];
      MirrorHoldsOwnEvents(contracts, queues, front, a);
      if l.address == a {
        assert (ForAddress(front, a) + [l])[..|ForAddress(front, a)|] == ForAddress(front, a);
      }
    }
  }

  /** How many events the mirror takes in. */
  function CountQueued(registered: set<Address>, logs: seq<Log>): nat {
    if logs == [] then 0
    else
      var l := logs[|logs| - 1];
      CountQueued(registered, logs[..|logs| - 1])
        + if l.address in registered && ParseOperationQueued(l).Some? then 1 else 0
  }

  /** The total length grows by one for each event of a registered contract and for nothing else. */
  lemma {:induction false} TotalCountsEvents(contracts: set<Address>, queues: Mirror, logs: seq<Log>)
    ensures AfterLogs(contracts, queues, logs).Keys == queues.Keys
    ensures TotalLength(AfterLogs(contracts, queues, logs))
         == TotalLength(queues) + CountQueued(contracts * queues.Keys, logs)
    decreases |logs|
  {
    if logs != [] {
      var front, l := logs[..|logs| - 1], logs[|logs| - 1];
      TotalCountsEvents(contracts, queues, front);
      var before, after := AfterLogs(contracts, queues, front), AfterLogs(contracts, queues, logs);
      if before != after {
        TotalWithout(before, l.address);
        TotalWithout(after, l.address);
        assert before - {l.address} == after - {l.address};
      }
    }
  }
}
