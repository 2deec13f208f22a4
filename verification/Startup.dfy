/** How the program registers its registries before anything runs, and what that means for the mirror. */
module Startup {
  import opened Common
  import opened CertificateRegistry
  import opened ChainLogs
  import opened EventScanner
  import opened ScannerLaws
  import opened ScannerCycles
  import opened MirrorQueue
  import opened EndToEnd

  /** Where a registry's start block may come from: the configuration, the contract's own
      `initBlockHeight` (None where there is none or the call fails), or the head of the chain. */
  datatype StartSource = StartSource(configured: Option<nat>, initBlockHeight: Option<int>, head: int, answers: bool)
  {
    function StartBlock(connected: bool): int {
      if configured.Some? then configured.value
      else if initBlockHeight.Some? then initBlockHeight.value - 1
      else if connected && answers then head
      else 0
    }
  }

  function Registered(sources: map<Address, StartSource>, connected: bool): map<Address, ContractInfo> {
    map a | a in sources :: ContractInfo(sources[a].StartBlock(connected), sources[a].StartBlock(connected))
  }

  lemma {:induction false} RegisteredOneMore(before: map<Address, ContractInfo>, sources: map<Address, StartSource>,
                                             left: set<Address>, a: Address, connected: bool)
    requires a in left && left <= sources.Keys
    ensures before + Registered(sources - (left - {a}), connected)
         == (before + Registered(sources - left, connected))[a := Registered(sources, connected)[a]]
  {
  }

  /** Where the sources say a registry starts: at the block configured, or else just before the block the
      contract was set up in, or else at the head if that can be had and at block 0 if not. */
  ghost predicate StartsAsTold(source: StartSource, info: ContractInfo, connected: bool) {
    && info.startBlock == info.currentBlock
    && (source.configured.Some? ==> info.currentBlock == source.configured.value)
    && (source.configured.None? && source.initBlockHeight.Some? ==>
          info.currentBlock + 1 == source.initBlockHeight.value)
    && (source.configured.None? && source.initBlockHeight.None? ==>
          info.currentBlock == if connected && source.answers then source.head else 0)
  }

  /** The loop of main.go over the configured registries. */
  method RegisterAll(service: EvmService, sources: map<Address, StartSource>)
    modifies service`contracts
    ensures service.contracts == old(service.contracts) + Registered(sources, service.connected)
    ensures forall a :: a in sources ==>
              a in service.contracts && StartsAsTold(sources[a], service.contracts[a], service.connected)
  {
    var left := sources.Keys;
    assert sources - left == map[];
    while left != {}
      invariant left <= sources.Keys
      invariant service.contracts == old(service.contracts) + Registered(sources - left, service.connected)
      decreases left
    {
      var a :| a in left;
      RegisteredOneMore(old(service.contracts), sources, left, a, service.connected);
      RegisterOne(service, a, sources[a]);
      left := left - {a};
    }
    assert sources - left == sources;
  }

  /** The body of that loop. */
  method RegisterOne(service: EvmService, a: Address, source: StartSource)
    modifies service`contracts
    ensures var start := source.StartBlock(service.connected);
            service.contracts == old(service.contracts)[a := ContractInfo(start, start)]
    ensures StartsAsTold(source, service.contracts[a], service.connected)
  {
    if source.configured.Some? {
      service.RegisterContract(a, Some(source.configured.value));
    } else if source.initBlockHeight.None? {
      service.RegisterContractFromCurrent(a, source.head, source.answers);
    } else {
      service.RegisterContract(a, Some(source.initBlockHeight.value - 1));
    }
  }

  /** main.go registers before it starts the service. So a registry with neither a configured start
      block nor a readable `initBlockHeight`, registered "from current", starts at block 0, and at the
      head only if that is block 0. */
  method StartUp(sources: map<Address, StartSource>, dialed: bool) returns (service: EvmService)
    ensures fresh(service) && service.connected == dialed
    ensures service.Configuration() == Config(0, {}, 10000)
    ensures service.Scanned() == Scan(Registered(sources, false), [], [])
    ensures forall a :: a in sources ==> StartsAsTold(sources[a], service.contracts[a], false)
    ensures forall a :: a in sources && sources[a].configured.None? && sources[a].initBlockHeight.None? ==>
              && service.contracts[a].currentBlock == 0
              && (service.contracts[a].currentBlock == sources[a].head <==> sources[a].head == 0)
  {
    service := new EvmService([]);
    RegisterAll(service, sources);
    service.Connect(dialed);
  }

  /** The first block queried for a registry without a configured start block is the one its contract says
      it was set up in. */
  lemma {:induction false} FirstQueryIsSetUpBlock(source: StartSource, range: int, head: int, refuses: int -> bool)
    requires range >= 1 && source.configured.None? && source.initBlockHeight.Some?
    ensures var queries := Queries(range, source.StartBlock(false), head, refuses);
            if head < source.initBlockHeight.value then queries == []
            else queries != [] && queries[0].0 == source.initBlockHeight.value
  {
  }

  /** A mirror subscribed before anything is published is complete for a registry without a configured
      start block, whether or not its `initBlockHeight` could be read; for one with it, exactly if that
      block does not come after the first request. */
  lemma {:induction false} SubscribedFirstMirrorsCompletely(config: Config, registries: Address -> Deployment,
                                                            sources: map<Address, StartSource>, visits: seq<Visit>,
                                                            queues: Mirror, a: Address)
    requires config.maxBlockRange >= 1 && config.confirmations == 0 && config.eventFilters == {}
    requires AllDistinct(visits) && a in sources && a in queues && queues[a] == []
    requires DeployedAsRead(registries(a), sources[a])
    ensures var s' := Listen(config, ChainOf(registries), Scan(Registered(sources, false), [], []), visits);
            var mirror := AfterLogs(sources.Keys, queues, s'.published);
            && a in mirror && a in s'.contracts
            && (mirror[a] == AllQueued(registries(a).At(s'.contracts[a].currentBlock).queued)
                <==> StartsInTime(registries(a), sources[a]))
  {
    var started := Scan(Registered(sources, false), [], []);
    MirrorIsCompleteExactly(config, registries, started, visits, sources.Keys, queues, a);
    assert sources[a].configured.None? ==> registries(a).At(sources[a].StartBlock(false)).queued == [];
  }

  /** The contract's own answer, if there is one, is the block it was set up in. */
  ghost predicate DeployedAsRead(d: Deployment, source: StartSource) {
    d.origin >= 0 && (source.initBlockHeight.Some? ==> source.initBlockHeight.value == d.origin + 1)
  }

  /** No request was accepted up to the configured start block, if one is configured. */
  ghost predicate StartsInTime(d: Deployment, source: StartSource) {
    source.configured.Some? ==> d.At(source.configured.value).queued == []
  }

  /** main.go starts the scanner together with the processor, so some logs may be published before the
      processor subscribes. The mirror then has every request up to the cursor exactly if the configured
      start block, if any, does not come after the first one and no request of this registry was among
      those logs. */
  lemma {:induction false} StartupMirrorsCompletely(config: Config, registries: Address -> Deployment,
                                                    sources: map<Address, StartSource>, visits: seq<Visit>,
                                                    subscribed: nat, queues: Mirror, a: Address)
    requires config.maxBlockRange >= 1 && config.confirmations == 0 && config.eventFilters == {}
    requires AllDistinct(visits) && a in sources && a in queues && queues[a] == []
    requires DeployedAsRead(registries(a), sources[a])
    ensures var s' := Listen(config, ChainOf(registries), Scan(Registered(sources, false), [], []), visits);
            subscribed <= |s'.published| ==>
              var mirror := AfterLogs(sources.Keys, queues, s'.published[subscribed..]);
              && a in mirror && a in s'.contracts
              && (mirror[a] == AllQueued(registries(a).At(s'.contracts[a].currentBlock).queued)
                  <==> StartsInTime(registries(a), sources[a])
                       && ParseAll(ForAddress(s'.published[..subscribed], a)) == [])
  {
    var started := Scan(Registered(sources, false), [], []);
    var published := Listen(config, ChainOf(registries), started, visits).published;
    SubscribedFirstMirrorsCompletely(config, registries, sources, visits, queues, a);
    if subscribed <= |published| {
      LateIsShorter(config, registries, started, visits, sources.Keys, queues, subscribed, a);
    }
  }

  lemma {:induction false} OnlyIfNothingMissed<T>(full: seq<T>, late: seq<T>, missed: seq<T>, all: seq<T>)
    requires full == missed + late && |full| <= |all|
    ensures late == all <==> full == all && missed == []
  {
  }

  lemma {:induction false} LateIsShorter(config: Config, registries: Address -> Deployment, s: Scan, visits: seq<Visit>,
                                         contracts: set<Address>, queues: Mirror, subscribed: nat, a: Address)
    requires config.maxBlockRange >= 1 && config.confirmations == 0 && config.eventFilters == {}
    requires AllDistinct(visits) && JustRegistered(s)
    requires a in s.contracts && a in contracts && a in queues && queues[a] == []
    requires subscribed <= |Listen(config, ChainOf(registries), s, visits).published|
    ensures var s' := Listen(config, ChainOf(registries), s, visits);
            var late := AfterLogs(contracts, queues, s'.published[subscribed..]);
            var full := AfterLogs(contracts, queues, s'.published);
            && a in late && a in full && a in s'.contracts
            && var all := AllQueued(registries(a).At(s'.contracts[a].currentBlock).queued);
            (late[a] == all <==> full[a] == all && ParseAll(ForAddress(s'.published[..subscribed], a)) == [])
  {
    var s' := Listen(config, ChainOf(registries), s, visits);
    LateSubscription(contracts, queues, s'.published, subscribed, a);
    MirrorFollowsContracts(config, registries, s, visits, contracts, queues, a);
    var late := AfterLogs(contracts, queues, s'.published[subscribed..]);
    var full := AfterLogs(contracts, queues, s'.published);
    OnlyIfNothingMissed(full[a], late[a], ParseAll(ForAddress(s'.published[..subscribed], a)),
                        AllQueued(registries(a).At(s'.contracts[a].currentBlock).queued));
  }

  // ---------- A request is lost ----------

  /** One registry, set up in block 1, where guardian 1 has the issuance of `h` accepted. */
  function OneRequest(p: Parameters, h: Hash): Deployment {
    Deployment(p, 0, b => if b == 1 then [Add(1, true, h, 0)] else [])
  }

  /** One cycle that sees block 1 as the head. */
  function OneCycle(a: Address): seq<Visit> {
    [Visit([a], (b: Address) => Poll(Some(1), from => false))]
  }

  /** The start block is right, the scanner delivers the request, and the processor subscribes only then:
      the mirror is empty though the contract's queue is not. */
  lemma {:induction false} RequestBeforeSubscriptionIsLost(p: Parameters, h: Hash, a: Address)
    ensures var registries, sources := (b: Address) => OneRequest(p, h), map[a := StartSource(None, Some(1), 1, true)];
            var started := Scan(Registered(sources, false), [], []);
            var s' := Listen(Config(0, {}, 10000), ChainOf(registries), started, OneCycle(a));
            && |s'.published| == 1 && a in s'.contracts && s'.contracts[a].currentBlock == 1
            && StartsInTime(registries(a), sources[a])
            && |registries(a).At(1).queued| == 1
            && AfterLogs({a}, map[a := []], s'.published[1..]) == map[a := []]
  {
    var registries, sources := (b: Address) => OneRequest(p, h), map[a := StartSource(None, Some(1), 1, true)];
    var config, chain, s := Config(0, {}, 10000), ChainOf(registries), Scan(Registered(sources, false), [], []);
    OneCycleIsOnePoll(config, chain, s, a);
    OneRequestOneLog(p, h, a);
    var end := EndOf(10000, 0, 1, from => false);
    ChunksMakeOneScan(config, chain, a, s, 0, 1, from => false);
    NoRefusalReachesHead(10000, 0, 1, from => false);
    SelectWithoutDepth(config, 1, LogsIn(chain, a, 1, 1));
    NoFilterKeepsAll(config, LogsIn(chain, a, 1, 1));
  }

  lemma {:induction false} OneCycleIsOnePoll(config: Config, chain: Chain, s: Scan, a: Address)
    requires config.maxBlockRange >= 1 && a in s.contracts && s.contracts[a].currentBlock == 0
    ensures Listen(config, chain, s, OneCycle(a)) == ScanChunks(config, chain, a, s, 0, 1, from => false)
  {
    var visit := OneCycle(a)[0];
    assert OneCycle(a)[..0] == [] && [a][..0] == [];
    assert Listen(config, chain, s, OneCycle(a)) == Cycle(config, chain, s.contracts, s, [a], visit.polls);
    assert Cycle(config, chain, s.contracts, s, [], visit.polls) == s;
  }

  lemma {:induction false} OneRequestOneLog(p: Parameters, h: Hash, a: Address)
    ensures var d, registries := OneRequest(p, h), (b: Address) => OneRequest(p, h);
            && |d.At(1).queued| == 1 && |LogsIn(ChainOf(registries), a, 1, 1)| == 1
  {
    var d, registries := OneRequest(p, h), (b: Address) => OneRequest(p, h);
    var add := Add(1, true, h, 0);
    ExecOne(p, d.At(0), add);
    assert d.At(1) == Exec(p, d.At(0), [add]);
    assert [add][1..] == [];
    assert Emitted(p, d.At(0), [add]) == EmittedBy(p, d.At(0), add) + Emitted(p, Next(p, d.At(0), add), []);
    assert LogsIn(ChainOf(registries), a, 1, 0) == [];
    assert LogsIn(ChainOf(registries), a, 1, 1) == [] + LogsOfBlock(registries, a, 1);
  }
}
