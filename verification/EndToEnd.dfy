/** From the contracts' storage to the mirror: blocks of transactions emit logs, the scanner delivers
    them, and the mirror ends up holding the on-chain queues. */
module EndToEnd {
  import opened Common
  import opened CertificateRegistry
  import opened QueueDiscipline
  import opened ChainLogs
  import opened EventScanner
  import opened ScannerLaws
  import opened ScannerCycles
  import opened MirrorQueue

  /** A registry on the chain: its parameters, the block before its first one, and the transactions to
      it in every block. */
  datatype Deployment = Deployment(parameters: Parameters, origin: int, transactions: int -> seq<Step>)
  {
    /** The contract at the end of block `b`. */
    function At(b: int): World
      decreases b - origin
    {
      if b <= origin then Initial(parameters) else Exec(parameters, At(b - 1), transactions(b))
    }
  }

  datatype Event = OperationQueued(entry: Entry) | CertificateProcessed(entry: Entry)

  /** The event one transaction emits, if it goes through. */
  function EmittedBy(p: Parameters, w: World, step: Step): seq<Event> {
    var w' := Next(p, w, step);
    if |w'.queued| > |w.queued| then [OperationQueued(w'.queued[|w.queued|])]
    else if |w'.processed| > |w.processed| then [CertificateProcessed(w'.processed[|w.processed|])]
    else []
  }

  function Emitted(p: Parameters, w: World, steps: seq<Step>): seq<Event>
    decreases |steps|
  {
    if steps == [] then [] else EmittedBy(p, w, steps[0]) + Emitted(p, Next(p, w, steps[0]), steps[1..])
  }

  const CERTIFICATE_PROCESSED_ID := Word(0x9cb9155d4b0c129d1b924032efb4ac74da991e0b9970a7d01ba98e18213b7681)

  /** Both events index the certificate and the guardian. */
  function AsLog(a: Address, b: int, event: Event): Log {
    var id := if event.OperationQueued? then OPERATION_QUEUED_ID else CERTIFICATE_PROCESSED_ID;
    Log(a, b, [id, event.entry.hash, Word(event.entry.guardian)], QueueData(event.entry.op, event.entry.queueIndex))
  }

  function AsLogs(a: Address, b: int, events: seq<Event>): seq<Log> {
    seq(|events|, i requires 0 <= i < |events| => AsLog(a, b, events[i]))
  }

  /** The parser gives back what was emitted, and takes neither the other event nor any log of another
      number of topics, first topic or data for one. */
  lemma {:induction false} ParseRoundTrip(a: Address, b: int, e: Entry, l: Log)
    ensures ParseOperationQueued(AsLog(a, b, OperationQueued(e))) == Some(e)
    ensures ParseOperationQueued(AsLog(a, b, CertificateProcessed(e))) == None
    ensures ParseOperationQueued(l) == Some(e) <==>
            l.topics == [OPERATION_QUEUED_ID, e.hash, Word(e.guardian)] && l.body == QueueData(e.op, e.queueIndex)
  {
  }

  /** The entries of the CertificateProcessed events. */
  function Processed(events: seq<Event>): seq<Entry> {
    if events == [] then [] else ProcessedBy(events[0]) + Processed(events[1..])
  }

  function ProcessedBy(event: Event): seq<Entry> {
    if event.CertificateProcessed? then [event.entry] else []
  }

  lemma {:induction false} ProcessedConcat(first: seq<Event>, second: seq<Event>)
    ensures Processed(first + second) == Processed(first) + Processed(second)
    decreases |first|
  {
    if first == [] {
      assert first + second == second;
    } else {
      assert (first + second)[1..] == first[1..] + second;
      ProcessedConcat(first[1..], second);
      Associative(ProcessedBy(first[0]), Processed(first[1..]), Processed(second));
    }
  }

  /** The CertificateProcessed events of a block are the operations carried out in it, in order. */
  lemma {:induction false} ProcessedEventsOfSteps(p: Parameters, w: World, steps: seq<Step>)
    ensures w.processed <= Exec(p, w, steps).processed
    ensures Processed(Emitted(p, w, steps)) == Exec(p, w, steps).processed[|w.processed|..]
    decreases |steps|
  {
    if steps != [] {
      var middle, end := Next(p, w, steps[0]), Exec(p, w, steps);
      ProcessedEventOfStep(p, w, steps[0]);
      ProcessedEventsOfSteps(p, middle, steps[1..]);
      ProcessedConcat(EmittedBy(p, w, steps[0]), Emitted(p, middle, steps[1..]));
      assert middle.processed[|w.processed|..] + end.processed[|middle.processed|..] == end.processed[|w.processed|..];
    }
  }

  lemma {:induction false} ProcessedEventOfStep(p: Parameters, w: World, step: Step)
    ensures w.processed <= Next(p, w, step).processed
    ensures Processed(EmittedBy(p, w, step)) == Next(p, w, step).processed[|w.processed|..]
  {
    var w', events := Next(p, w, step), EmittedBy(p, w, step);
    assert events != [] ==> events[1..] == [];
    assert |w'.processed| > |w.processed| ==> w'.processed[|w.processed|..] == [w'.processed[|w.processed|]];
  }

  function LogsOfBlock(registries: Address -> Deployment, a: Address, b: int): seq<Log> {
    var d := registries(a);
    if b <= d.origin then [] else AsLogs(a, b, Emitted(d.parameters, d.At(b - 1), d.transactions(b)))
  }

  function ChainOf(registries: Address -> Deployment): Chain {
    (a: Address, b: int) => LogsOfBlock(registries, a, b)
  }

  lemma {:induction false} ChainIsWellFormed(registries: Address -> Deployment)
    ensures WellFormed(ChainOf(registries))
  {
    forall a, b, l | l in ChainOf(registries)(a, b) ensures l.address == a && l.blockNumber == b {
    }
  }

  function AllQueued(entries: seq<Entry>): seq<QueuedOperation> {
    seq(|entries|, i requires 0 <= i < |entries| => AsQueued(entries[i]))
  }

  lemma {:induction false} EventOfStep(p: Parameters, w: World, step: Step, a: Address, b: int)
    ensures w.queued <= Next(p, w, step).queued
    ensures ParseAll(AsLogs(a, b, EmittedBy(p, w, step))) == AllQueued(Next(p, w, step).queued[|w.queued|..])
  {
    var w' := Next(p, w, step);
    var logs := AsLogs(a, b, EmittedBy(p, w, step));
    assert logs != [] ==> logs[..0] == [] && |logs| == 1;
    assert |w'.queued| > |w.queued| ==> w'.queued[|w.queued|..] == [w'.queued[|w.queued|]];
  }

  lemma {:induction false} ParseAsLogs(a: Address, b: int, first: seq<Event>, rest: seq<Event>)
    ensures ParseAll(AsLogs(a, b, first + rest)) == ParseAll(AsLogs(a, b, first)) + ParseAll(AsLogs(a, b, rest))
  {
    assert AsLogs(a, b, first + rest) == AsLogs(a, b, first) + AsLogs(a, b, rest);
    ParseAllConcat(AsLogs(a, b, first), AsLogs(a, b, rest));
  }

  /** The parsed events of a block are the requests accepted in it. */
  lemma {:induction false} EventsOfSteps(p: Parameters, w: World, steps: seq<Step>, a: Address, b: int)
    ensures w.queued <= Exec(p, w, steps).queued
    ensures ParseAll(AsLogs(a, b, Emitted(p, w, steps))) == AllQueued(Exec(p, w, steps).queued[|w.queued|..])
    decreases |steps|
  {
    if steps == [] {
      assert AsLogs(a, b, []) == [];
    } else {
      var middle, end := Next(p, w, steps[0]), Exec(p, w, steps);
      var first, rest := EmittedBy(p, w, steps[0]), Emitted(p, middle, steps[1..]);
      EventOfStep(p, w, steps[0], a, b);
      EventsOfSteps(p, middle, steps[1..], a, b);
      ParseAsLogs(a, b, first, rest);
      QueuedInTwo(w.queued, middle.queued, end.queued);
    }
  }

  lemma {:induction false} QueuedInTwo(first: seq<Entry>, middle: seq<Entry>, end: seq<Entry>)
    requires first <= middle <= end
    ensures first <= end
    ensures AllQueued(middle[|first|..]) + AllQueued(end[|middle|..]) == AllQueued(end[|first|..])
  {
    assert middle[|first|..] + end[|middle|..] == end[|first|..];
  }

  /** The parsed events of a range of blocks are the requests accepted in that range. */
  lemma {:induction false} EventsOfBlocks(registries: Address -> Deployment, a: Address, from: int, upTo: int)
    requires from <= upTo
    ensures registries(a).At(from).queued <= registries(a).At(upTo).queued
    ensures ParseAll(LogsIn(ChainOf(registries), a, from + 1, upTo))
         == AllQueued(registries(a).At(upTo).queued[|registries(a).At(from).queued|..])
    decreases upTo - from
  {
    if from < upTo {
      var d := registries(a);
      var first, before, end := d.At(from).queued, d.At(upTo - 1), d.At(upTo).queued;
      EventsOfBlocks(registries, a, from, upTo - 1);
      ParseAllConcat(LogsIn(ChainOf(registries), a, from + 1, upTo - 1), LogsOfBlock(registries, a, upTo));
      if upTo > d.origin {
        EventsOfSteps(d.parameters, before, d.transactions(upTo), a, upTo);
      }
      QueuedInTwo(first, before.queued, end);
    }
  }

  lemma {:induction false} NoFilterKeepsAll(config: Config, logs: seq<Log>)
    requires config.eventFilters == {}
    ensures Matching(config, logs) == logs
    decreases |logs|
  {
    if logs != [] {
      NoFilterKeepsAll(config, logs[..|logs| - 1]);
    }
  }

  lemma {:induction false} PublishedIsTheChain(config: Config, registries: Address -> Deployment, s: Scan,
                                               visits: seq<Visit>, a: Address)
    requires config.maxBlockRange >= 1 && config.confirmations == 0 && config.eventFilters == {}
    requires AllDistinct(visits) && JustRegistered(s) && a in s.contracts
    ensures var s' := Listen(config, ChainOf(registries), s, visits);
            && a in s'.contracts && s.contracts[a].startBlock <= s'.contracts[a].currentBlock
            && ForAddress(s'.published, a)
               == LogsIn(ChainOf(registries), a, s.contracts[a].startBlock + 1, s'.contracts[a].currentBlock)
  {
    var chain := ChainOf(registries);
    var s' := Listen(config, chain, s, visits);
    ChainIsWellFormed(registries);
    EveryEventOnceInOrder(config, chain, s, visits, a);
    NoFilterKeepsAll(config, LogsIn(chain, a, s.contracts[a].startBlock + 1, s'.contracts[a].currentBlock));
  }

  /** End to end: with the configuration main.go uses (no filter, no confirmation depth), subscribed
      before the first log is published, whatever transactions the blocks contain and whatever the
      polls meet, each registry's mirror holds exactly the requests its contract accepted between its
      start block and its cursor, in order. */
  lemma {:induction false} MirrorFollowsContracts(config: Config, registries: Address -> Deployment, s: Scan,
                                                  visits: seq<Visit>, contracts: set<Address>, queues: Mirror,
                                                  a: Address)
    requires config.maxBlockRange >= 1 && config.confirmations == 0 && config.eventFilters == {}
    requires AllDistinct(visits) && JustRegistered(s)
    requires a in s.contracts && a in contracts && a in queues && queues[a] == []
    ensures var s' := Listen(config, ChainOf(registries), s, visits);
            var start := s.contracts[a].startBlock;
            && a in s'.contracts && start <= s'.contracts[a].currentBlock
            && var first, last := registries(a).At(start), registries(a).At(s'.contracts[a].currentBlock);
            && var mirror := AfterLogs(contracts, queues, s'.published);
            && first.queued <= last.queued && a in mirror
            && mirror[a] == AllQueued(last.queued[|first.queued|..])
            && Mirrors(mirror[a], last.queued[|first.queued|..])
  {
    var s' := Listen(config, ChainOf(registries), s, visits);
    PublishedIsTheChain(config, registries, s, visits, a);
    MirrorHoldsOwnEvents(contracts, queues, s'.published, a);
    EventsOfBlocks(registries, a, s.contracts[a].startBlock, s'.contracts[a].currentBlock);
  }

  /** The mirror misses nothing exactly if the contract had accepted no request up to the start block. */
  lemma {:induction false} MirrorIsCompleteExactly(config: Config, registries: Address -> Deployment, s: Scan,
                                                   visits: seq<Visit>, contracts: set<Address>, queues: Mirror,
                                                   a: Address)
    requires config.maxBlockRange >= 1 && config.confirmations == 0 && config.eventFilters == {}
    requires AllDistinct(visits) && JustRegistered(s)
    requires a in s.contracts && a in contracts && a in queues && queues[a] == []
    ensures var s' := Listen(config, ChainOf(registries), s, visits);
            var mirror := AfterLogs(contracts, queues, s'.published);
            && a in mirror && a in s'.contracts
            && (mirror[a] == AllQueued(registries(a).At(s'.contracts[a].currentBlock).queued)
                <==> registries(a).At(s.contracts[a].startBlock).queued == [])
  {
    MirrorFollowsContracts(config, registries, s, visits, contracts, queues, a);
    var s' := Listen(config, ChainOf(registries), s, visits);
    var last := registries(a).At(s'.contracts[a].currentBlock);
    assert last.queued[0..] == last.queued;
  }

  lemma {:induction false} AtIsReachable(d: Deployment, b: int) returns (steps: seq<Step>)
    ensures d.At(b) == Exec(d.parameters, Initial(d.parameters), steps)
    decreases b - d.origin
  {
    if b <= d.origin {
      steps := [];
    } else {
      var before := AtIsReachable(d, b - 1);
      ExecAppend(d.parameters, Initial(d.parameters), before, d.transactions(b));
      steps := before + d.transactions(b);
    }
  }

  /** Scanned from before its deployment, the mirror is the on-chain queue at the cursor: the same
      hashes at the same indices. */
  lemma {:induction false} MirrorIsTheQueue(config: Config, registries: Address -> Deployment, s: Scan,
                                            visits: seq<Visit>, contracts: set<Address>, queues: Mirror, a: Address)
    requires config.maxBlockRange >= 1 && config.confirmations == 0 && config.eventFilters == {}
    requires AllDistinct(visits) && JustRegistered(s)
    requires a in s.contracts && a in contracts && a in queues && queues[a] == []
    requires s.contracts[a].startBlock <= registries(a).origin
    ensures var s' := Listen(config, ChainOf(registries), s, visits);
            && a in s'.contracts
            && var w := registries(a).At(s'.contracts[a].currentBlock);
            && var mirror := AfterLogs(contracts, queues, s'.published);
            && a in mirror && Mirrors(mirror[a], w.queued) && |mirror[a]| == |w.r.queue|
            && forall k :: 0 <= k < |w.r.queue| ==> mirror[a][k].hash == w.r.queue[k] && mirror[a][k].queueIndex == k
  {
    MirrorFollowsContracts(config, registries, s, visits, contracts, queues, a);
    var s' := Listen(config, ChainOf(registries), s, visits);
    EventsMirrorQueueAt(registries(a), s'.contracts[a].currentBlock);
    AllSinceStart(registries(a), s.contracts[a].startBlock, s'.contracts[a].currentBlock);
  }

  lemma {:induction false} EventsMirrorQueueAt(d: Deployment, b: int)
    ensures EventsMirrorQueue(d.At(b))
  {
    var steps := AtIsReachable(d, b);
    InitialQueue(d.parameters);
    RunKeepsQueue(d.parameters, Initial(d.parameters), steps);
  }

  lemma {:induction false} AllSinceStart(d: Deployment, start: int, b: int)
    requires start <= d.origin
    ensures d.At(start).queued == [] && d.At(b).queued[0..] == d.At(b).queued
  {
  }

  /** The whole mirror at rest, if every registry was scanned from before its deployment: the total
      that `GetQueueLength` answers is then the total of the on-chain queues at the cursors. */
  lemma {:induction false} WholeMirrorIsTheQueues(config: Config, registries: Address -> Deployment, s: Scan,
                                                  visits: seq<Visit>, contracts: set<Address>, queues: Mirror)
    requires config.maxBlockRange >= 1 && config.confirmations == 0 && config.eventFilters == {}
    requires AllDistinct(visits) && JustRegistered(s)
    requires queues.Keys <= contracts && queues.Keys <= s.contracts.Keys
    requires forall a :: a in queues ==> queues[a] == [] && s.contracts[a].startBlock <= registries(a).origin
    ensures var s' := Listen(config, ChainOf(registries), s, visits);
            && s.contracts.Keys <= s'.contracts.Keys
            && var onChain := map a | a in queues :: AllQueued(registries(a).At(s'.contracts[a].currentBlock).queued);
            && AfterLogs(contracts, queues, s'.published) == onChain
            && TotalLength(AfterLogs(contracts, queues, s'.published)) == TotalLength(onChain)
  {
    var s' := Listen(config, ChainOf(registries), s, visits);
    var mirror := AfterLogs(contracts, queues, s'.published);
    TotalCountsEvents(contracts, queues, s'.published);
    forall a | a in s.contracts ensures a in s'.contracts {
      PublishedIsTheChain(config, registries, s, visits, a);
    }
    forall a | a in queues ensures mirror[a] == AllQueued(registries(a).At(s'.contracts[a].currentBlock).queued) {
      MirrorFollowsContracts(config, registries, s, visits, contracts, queues, a);
      var first, last := registries(a).At(s.contracts[a].startBlock), registries(a).At(s'.contracts[a].currentBlock);
      assert first.queued == [];
      assert last.queued[0..] == last.queued;
    }
  }

  /** A mirror subscribed late misses what was published before, and nothing else. */
  lemma {:induction false} LateSubscription(contracts: set<Address>, queues: Mirror, published: seq<Log>,
                                            subscribed: nat, a: Address)
    requires subscribed <= |published| && a in contracts && a in queues && queues[a] == []
    ensures var late := AfterLogs(contracts, queues, published[subscribed..]);
            var full := AfterLogs(contracts, queues, published);
            && a in late && a in full
            && full[a] == ParseAll(ForAddress(published[..subscribed], a)) + late[a]
  {
    MirrorHoldsOwnEvents(contracts, queues, published, a);
    MirrorHoldsOwnEvents(contracts, queues, published[subscribed..], a);
    ForAddressConcat(published[..subscribed], published[subscribed..], a);
    assert published[..subscribed] + published[subscribed..] == published;
    ParseAllConcat(ForAddress(published[..subscribed], a), ForAddress(published[subscribed..], a));
  }

  lemma {:induction false} ForAddressConcat(first: seq<Log>, second: seq<Log>, a: Address)
    ensures ForAddress(first + second, a) == ForAddress(first, a) + ForAddress(second, a)
    decreases |second|
  {
    if second == [] {
      assert first + second == first;
    } else {
      assert (first + second)[..|first + second| - 1] == first + second[..|second| - 1];
      ForAddressConcat(first, second[..|second| - 1], a);
    }
  }
}
