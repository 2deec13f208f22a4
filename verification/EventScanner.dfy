/** The EVM service: registered contracts with their cursors, and the scan in bounded chunks. */
module EventScanner {
  import opened Common
  import opened ChainLogs

  datatype ContractInfo = ContractInfo(startBlock: int, currentBlock: int)

  /** Go's conversion of an unsigned 64-bit number to a signed one. */
  function AsInt64(x: int): int {
    if x < INT64_LIMIT then x else x - 2 * INT64_LIMIT
  }

  /** What the options leave fixed. */
  datatype Config = Config(confirmations: nat, eventFilters: set<Hash>, maxBlockRange: int)
  {
    predicate MatchesFilter(l: Log) {
      eventFilters == {} || exists i :: 0 <= i < |l.topics| && l.topics[i] in eventFilters
    }

    predicate Confirmed(head: int, l: Log) {
      confirmations == 0 || head - AsInt64(l.blockNumber) >= AsInt64(confirmations)
    }

    /** The logs of a query that a poll seeing `head` publishes. */
    function Select(head: int, logs: seq<Log>): seq<Log> {
      if logs == [] then []
      else
        var rest, l := Select(head, logs[..|logs| - 1]), logs[|logs| - 1];
        if MatchesFilter(l) && Confirmed(head, l) then rest + [l] else rest
    }
  }

  /** What the node answers during one poll of a contract: the head, and which queries it refuses,
      told apart by their first block. */
  datatype Poll = Poll(head: Option<int>, refuses: int -> bool)

  function ChunkEnd(range: int, from: int, upTo: int): int {
    if from + (range - 1) > upTo then upTo else from + (range - 1)
  }

  function SetCursor(contracts: map<Address, ContractInfo>, a: Address, block: int): map<Address, ContractInfo> {
    if a in contracts then contracts[a := contracts[a].(currentBlock := block)] else contracts
  }

  /** The part of the service that scanning changes: the entries, what went to the event bus, and the
      queries sent to the node. */
  datatype Scan = Scan(contracts: map<Address, ContractInfo>, published: seq<Log>, queried: seq<(int, int)>)

  /** The query for the blocks after `last` up to `end`: if it is refused the cursor goes back to
      `last`, otherwise its logs are published and the cursor goes to `end`. */
  function ScanChunk(config: Config, chain: Chain, a: Address, s: Scan, last: int, end: int, upTo: int,
                     refused: bool): Scan {
    if refused then Scan(SetCursor(s.contracts, a, last), s.published, s.queried + [(last + 1, end)])
    else Scan(SetCursor(s.contracts, a, end),
              s.published + config.Select(upTo, LogsIn(chain, a, last + 1, end)),
              s.queried + [(last + 1, end)])
  }

  /** The chunk loop, from the block after `last` on. */
  function ScanChunks(config: Config, chain: Chain, a: Address, s: Scan, last: int, upTo: int,
                      refuses: int -> bool): Scan
    requires config.maxBlockRange >= 1
    decreases upTo - last
  {
    if last >= upTo then s
    else
      var end := ChunkEnd(config.maxBlockRange, last + 1, upTo);
      var next := ScanChunk(config, chain, a, s, last, end, upTo, refuses(last + 1));
      if refuses(last + 1) then next else ScanChunks(config, chain, a, next, end, upTo, refuses)
  }

  /** One poll of one contract, from the copy `info` of its entry. */
  function PollContract(config: Config, chain: Chain, s: Scan, a: Address, info: ContractInfo, poll: Poll): Scan
    requires config.maxBlockRange >= 1
  {
    if poll.head.None? then s
    else ScanChunks(config, chain, a, s, info.currentBlock, poll.head.value, poll.refuses)
  }

  /** One cycle of `listenForEvents`: every contract from the copy taken at its beginning, in the
      order the map iteration gives. A cycle that is cancelled visits only some of them. */
  function Cycle(config: Config, chain: Chain, copies: map<Address, ContractInfo>, s: Scan,
                 order: seq<Address>, polls: Address -> Poll): Scan
    requires config.maxBlockRange >= 1
    decreases |order|
  {
    if order == [] then s
    else
      var last, before := order[|order| - 1], Cycle(config, chain, copies, s, order[..|order| - 1], polls);
      if last !in copies then before else PollContract(config, chain, before, last, copies[last], polls(last))
  }

  /** What `NewService` accepts; a nil block number is None. The keys of the initial contracts are texts,
      and `parse` reads an address from one, None if it is no hexadecimal address. */
  datatype Setting =
    | DefaultStartBlock(block: Option<int>)
    | InitialContracts(contracts: map<string, Option<int>>, parse: string -> Option<Address>)
    | BlockConfirmations(confirmations: nat)
    | EventFilter(signatures: set<Hash>)
    | MaxBlockRange(maxBlocks: Option<int>)

  function StartEntry(start: Option<int>, default: int): ContractInfo {
    if start.None? then ContractInfo(default, default) else ContractInfo(start.value, start.value)
  }

  /** The entries after initial contracts were added to `before`: every address spelled by a key has
      the entry of such a key, every other one has what it had. Which key wins if two spell the same
      address is left to the order of the map. */
  ghost predicate Initialised(before: map<Address, ContractInfo>, after: map<Address, ContractInfo>,
                              initial: map<string, Option<int>>, parse: string -> Option<Address>, default: int) {
    && (forall key :: key in initial && parse(key).Some? ==> parse(key).value in after)
    && (forall a :: a in before ==> a in after)
    && forall a :: a in after ==>
         || (a in before && after[a] == before[a] && forall key :: key in initial ==> parse(key) != Some(a))
         || exists key :: key in initial && parse(key) == Some(a) && after[a] == StartEntry(initial[key], default)
  }

  /** With one spelling for each address the result does not depend on the order of the map. */
  lemma {:induction false} OneSpellingOneResult(before: map<Address, ContractInfo>, after: map<Address, ContractInfo>,
                                                other: map<Address, ContractInfo>, initial: map<string, Option<int>>,
                                                parse: string -> Option<Address>, default: int)
    requires Initialised(before, after, initial, parse, default) && Initialised(before, other, initial, parse, default)
    requires forall k, l :: k in initial && l in initial && parse(k).Some? && parse(k) == parse(l) ==> k == l
    ensures after == other
  {
    forall a ensures a in after <==> a in other {
    }
    forall a | a in after ensures after[a] == other[a] {
    }
  }

  /** A key that alone spells its address gives it its own start block, or the default one for nil. */
  lemma {:induction false} OneKeyOneEntry(before: map<Address, ContractInfo>, after: map<Address, ContractInfo>,
                                          initial: map<string, Option<int>>, parse: string -> Option<Address>,
                                          default: int, key: string)
    requires Initialised(before, after, initial, parse, default) && key in initial && parse(key).Some?
    requires forall other :: other in initial && parse(other) == parse(key) ==> other == key
    ensures var a := parse(key).value;
            && a in after && after[a].startBlock == after[a].currentBlock
            && (initial[key].Some? ==> after[a].currentBlock == initial[key].value)
            && (initial[key].None? ==> after[a].currentBlock == default)
  {
  }

  lemma {:induction false} AddedOne(before: map<Address, ContractInfo>, after: map<Address, ContractInfo>,
                                    initial: map<string, Option<int>>, key: string, start: Option<int>,
                                    parse: string -> Option<Address>, default: int)
    requires Initialised(before, after, initial, parse, default) && key !in initial && parse(key).Some?
    ensures Initialised(before, after[parse(key).value := StartEntry(start, default)],
                        initial[key := start], parse, default)
  {
    var after', initial' := after[parse(key).value := StartEntry(start, default)], initial[key := start];
    forall a | a in after'
      ensures || (a in before && after'[a] == before[a] && forall k :: k in initial' ==> parse(k) != Some(a))
              || exists k :: k in initial' && parse(k) == Some(a) && after'[a] == StartEntry(initial'[k], default)
    {
      if a == parse(key).value {
        assert key in initial';
      } else if k :| k in initial && parse(k) == Some(a) && after[a] == StartEntry(initial[k], default) {
        assert k in initial' && initial'[k] == initial[k];
      }
    }
  }

  // ---------- What a list of settings comes to: the last one of a kind wins, filters add up ----------

  function LastDepth(settings: seq<Setting>): nat {
    if settings == [] then 0
    else
      var last := settings[|settings| - 1];
      if last.BlockConfirmations? then last.confirmations else LastDepth(settings[..|settings| - 1])
  }

  function LastRange(settings: seq<Setting>): (range: int)
    ensures range >= 2
  {
    if settings == [] then 10000
    else
      var last := settings[|settings| - 1];
      if last.MaxBlockRange? && last.maxBlocks.Some? && last.maxBlocks.value > 1 then last.maxBlocks.value
      else LastRange(settings[..|settings| - 1])
  }

  function LastStart(settings: seq<Setting>): int {
    if settings == [] then 0
    else
      var last := settings[|settings| - 1];
      if last.DefaultStartBlock? && last.block.Some? then last.block.value
      else LastStart(settings[..|settings| - 1])
  }

  lemma {:induction false} OneMoreFilter(settings: seq<Setting>, i: nat)
    requires i < |settings|
    ensures forall signature :: Filtered(settings[..i + 1], signature) <==>
              Filtered(settings[..i], signature) || (settings[i].EventFilter? && signature in settings[i].signatures)
  {
    forall signature | Filtered(settings[..i], signature) ensures Filtered(settings[..i + 1], signature) {
      var j :| 0 <= j < i && settings[j].EventFilter? && signature in settings[j].signatures;
      assert settings[..i + 1][j] == settings[j];
    }
    assert settings[..i + 1][i] == settings[i];
  }

  /** One of the settings asks for this signature. */
  ghost predicate Filtered(settings: seq<Setting>, signature: Hash) {
    exists i :: 0 <= i < |settings| && settings[i].EventFilter? && signature in settings[i].signatures
  }

  /** The setting has a key that spells this address. */
  ghost predicate Spells(setting: Setting, a: Address) {
    setting.InitialContracts? && exists key :: key in setting.contracts && setting.parse(key) == Some(a)
  }

  class EvmService {
    var connected: bool
    var contracts: map<Address, ContractInfo>
    var defaultStartBlock: int
    var confirmations: nat
    var eventFilters: set<Hash>
    var maxBlockRange: int
    var published: seq<Log>
    var queried: seq<(int, int)>

    ghost function Configuration(): Config
      reads this
    {
      Config(confirmations, eventFilters, maxBlockRange)
    }

    ghost function Scanned(): Scan
      reads this
    {
      Scan(contracts, published, queried)
    }

    /** Whatever settings are given, in any order, the block range stays at least 2, and a contract
        given a start block has its cursor there. */
    constructor (settings: seq<Setting>)
      ensures maxBlockRange >= 2
      ensures forall a :: a in contracts ==> contracts[a].currentBlock == contracts[a].startBlock
      ensures published == [] && queried == [] && !connected
      ensures settings == [] ==> Configuration() == Config(0, {}, 10000) && contracts == map[]
      ensures confirmations == LastDepth(settings) && maxBlockRange == LastRange(settings)
      ensures defaultStartBlock == LastStart(settings)
      ensures forall signature :: signature in eventFilters <==> Filtered(settings, signature)
      ensures forall a :: a in contracts <==> exists i :: 0 <= i < |settings| && Spells(settings[i], a)
    {
      connected := false;
      contracts, defaultStartBlock, confirmations, eventFilters, maxBlockRange := map[], 0, 0, {}, 10000;
      published, queried := [], [];
      new;
      for i := 0 to |settings|
        invariant maxBlockRange >= 2 && published == [] && queried == [] && !connected
        invariant settings == [] ==> Configuration() == Config(0, {}, 10000) && contracts == map[]
        invariant forall a :: a in contracts ==> contracts[a].currentBlock == contracts[a].startBlock
        invariant confirmations == LastDepth(settings[..i]) && maxBlockRange == LastRange(settings[..i])
        invariant defaultStartBlock == LastStart(settings[..i])
        invariant forall signature :: signature in eventFilters <==> Filtered(settings[..i], signature)
        invariant forall a :: a in contracts <==> exists j :: 0 <= j < i && Spells(settings[j], a)
      {
        assert settings[..i + 1][..i] == settings[..i];
        OneMoreFilter(settings, i);
        Apply(settings[i]);
      }
      assert settings[..|settings|] == settings;
    }

    method Apply(setting: Setting)
      modifies this
      ensures published == old(published) && queried == old(queried) && connected == old(connected)
      ensures maxBlockRange == (if setting.MaxBlockRange? && setting.maxBlocks.Some? && setting.maxBlocks.value > 1
                                then setting.maxBlocks.value else old(maxBlockRange))
      ensures confirmations == if setting.BlockConfirmations? then setting.confirmations else old(confirmations)
      ensures eventFilters == old(eventFilters) + if setting.EventFilter? then setting.signatures else {}
      ensures defaultStartBlock == (if setting.DefaultStartBlock? && setting.block.Some?
                                    then setting.block.value else old(defaultStartBlock))
      ensures if setting.InitialContracts?
              then Initialised(old(contracts), contracts, setting.contracts, setting.parse, old(defaultStartBlock))
              else contracts == old(contracts)
    {
      match setting
      case DefaultStartBlock(block) =>
        if block.Some? {
          defaultStartBlock := block.value;
        }
      case InitialContracts(initial, parse) => AddInitial(initial, parse);
      case BlockConfirmations(depth) => confirmations := depth;
      case EventFilter(signatures) => eventFilters := eventFilters + signatures;
      case MaxBlockRange(maxBlocks) =>
        if maxBlocks.Some? && maxBlocks.value > 1 {
          maxBlockRange := maxBlocks.value;
        }
    }

    method AddInitial(initial: map<string, Option<int>>, parse: string -> Option<Address>)
      modifies this`contracts
      ensures Initialised(old(contracts), contracts, initial, parse, defaultStartBlock)
    {
      var left := initial.Keys;
      while left != {}
        invariant left <= initial.Keys
        invariant Initialised(old(contracts), contracts, initial - left, parse, defaultStartBlock)
        decreases left
      {
        var key :| key in left;
        ghost var done := initial - left;
        if parse(key).Some? {
          var start := if initial[key].None? then defaultStartBlock else initial[key].value;
          AddedOne(old(contracts), contracts, done, key, initial[key], parse, defaultStartBlock);
          contracts := contracts[parse(key).value := ContractInfo(start, start)];
        }
        left := left - {key};
        assert initial - left == done[key := initial[key]];
      }
      assert initial - left == initial;
    }

    method RegisterContract(a: Address, startBlock: Option<int>)
      modifies this`contracts
      ensures var start := if startBlock.None? then defaultStartBlock else startBlock.value;
              contracts == old(contracts)[a := ContractInfo(start, start)]
    {
      var start := if startBlock.None? then defaultStartBlock else startBlock.value;
      contracts := contracts[a := ContractInfo(start, start)];
    }

    /** The part of `Start` that dials the node. */
    method Connect(dialed: bool)
      modifies this`connected
      ensures connected == (old(connected) || dialed)
    {
      if !dialed {
        return;
      }
      connected := true;
    }

    /** The entry is meant to start at `head`, the head of the chain. It does exactly if the service is
        connected and the node answers; otherwise it starts at block 0. */
    method RegisterContractFromCurrent(a: Address, head: int, answers: bool)
      modifies this`contracts
      ensures a in contracts && contracts == old(contracts)[a := contracts[a]]
      ensures contracts[a].startBlock == contracts[a].currentBlock
      ensures contracts[a].currentBlock == head <==> (connected && answers) || head == 0
      ensures contracts[a].currentBlock == head || contracts[a].currentBlock == 0
    {
      var currentBlock;
      if connected {
        if answers {
          currentBlock := head;
        } else {
          currentBlock := 0;
        }
      } else {
        currentBlock := 0;
      }
      contracts := contracts[a := ContractInfo(currentBlock, currentBlock)];
    }

    method UnregisterContract(a: Address)
      modifies this`contracts
      ensures contracts == old(contracts) - {a}
    {
      contracts := contracts - {a};
    }

    method UpdateContractBlock(a: Address, block: int)
      modifies this`contracts
      ensures contracts == SetCursor(old(contracts), a, block)
      ensures contracts.Keys == old(contracts).Keys
      ensures a in contracts ==> contracts[a] == ContractInfo(old(contracts)[a].startBlock, block)
      ensures forall b :: b in contracts && b != a ==> contracts[b] == old(contracts)[b]
    {
      if a in contracts {
        contracts := contracts[a := contracts[a].(currentBlock := block)];
      }
    }

    method PublishLogs(logs: seq<Log>, head: int)
      modifies this`published
      ensures published == old(published) + Configuration().Select(head, logs)
    {
      for i := 0 to |logs|
        invariant published == old(published) + Configuration().Select(head, logs[..i])
      {
        assert logs[..i + 1][..i] == logs[..i];
        var l := logs[i];
        var wanted := true;
        if eventFilters != {} {
          wanted := false;
          for t := 0 to |l.topics|
            invariant !wanted && forall j :: 0 <= j < t ==> l.topics[j] !in eventFilters
          {
            if l.topics[t] in eventFilters {
              wanted := true;
              break;
            }
          }
        }
        if wanted && confirmations > 0 && head - AsInt64(l.blockNumber) < AsInt64(confirmations) {
          wanted := false;
        }
        if wanted {
          published := published + [l];
        }
      }
      assert logs[..|logs|] == logs;
    }

    /** `processContractEvents` on a copy of the entry of contract `a`. */
    method ProcessContractEvents(chain: Chain, a: Address, info: ContractInfo, poll: Poll)
      requires maxBlockRange >= 1
      modifies this`contracts, this`published, this`queried
      ensures Scanned() == PollContract(Configuration(), chain, old(Scanned()), a, info, poll)
    {
      if poll.head.None? || info.currentBlock >= poll.head.value {
        return;
      }
      var fromBlock, toBlock, lastProcessedBlock := info.currentBlock + 1, poll.head.value, info.currentBlock;
      ghost var config, result := Configuration(), PollContract(Configuration(), chain, Scanned(), a, info, poll);
      while fromBlock <= toBlock
        invariant fromBlock == lastProcessedBlock + 1 <= toBlock + 1
        invariant ScanChunks(config, chain, a, Scanned(), lastProcessedBlock, toBlock, poll.refuses) == result
        decreases toBlock - fromBlock
      {
        var chunkEndBlock := fromBlock + (maxBlockRange - 1);
        if chunkEndBlock > toBlock {
          chunkEndBlock := toBlock;
        }
        var ok := ProcessChunk(chain, a, lastProcessedBlock, chunkEndBlock, toBlock, poll.refuses(fromBlock));
        if !ok {
          return;
        }
        lastProcessedBlock := chunkEndBlock;
        fromBlock := chunkEndBlock + 1;
      }
    }

    /** The body of its chunk loop. */
    method ProcessChunk(chain: Chain, a: Address, lastProcessedBlock: int, chunkEndBlock: int, toBlock: int,
                        refused: bool)
      returns (ok: bool)
      modifies this`contracts, this`published, this`queried
      ensures ok == !refused
      ensures Scanned() == ScanChunk(Configuration(), chain, a, old(Scanned()),
                                     lastProcessedBlock, chunkEndBlock, toBlock, refused)
    {
      queried := queried + [(lastProcessedBlock + 1, chunkEndBlock)];
      if refused {
        UpdateContractBlock(a, lastProcessedBlock);
        return false;
      }
      PublishLogs(LogsIn(chain, a, lastProcessedBlock + 1, chunkEndBlock), toBlock);
      UpdateContractBlock(a, chunkEndBlock);
      return true;
    }

    /** One cycle of `listenForEvents` over the contracts visited in `order`. */
    method ListenOnce(chain: Chain, order: seq<Address>, polls: Address -> Poll)
      requires maxBlockRange >= 1
      requires forall a :: a in order ==> a in contracts
      modifies this`contracts, this`published, this`queried
      ensures Scanned() == Cycle(Configuration(), chain, old(contracts), old(Scanned()), order, polls)
    {
      var copies := contracts;
      for i := 0 to |order|
        invariant Scanned() == Cycle(Configuration(), chain, copies, old(Scanned()), order[..i], polls)
      {
        assert order[..i + 1][..i] == order[..i];
        ProcessContractEvents(chain, order[i], copies[order[i]], polls(order[i]));
      }
      assert order[..|order|] == order;
    }
  }

  /** What the filter wants: any log if it is empty, otherwise those with a topic in it. */
  ghost predicate Wanted(eventFilters: set<Hash>, l: Log) {
    eventFilters != {} ==> exists i :: 0 <= i < |l.topics| && l.topics[i] in eventFilters
  }

  /** A poll publishes a log exactly if it was found, is wanted and, with a confirmation depth, is at least
      that many blocks below the head. */
  lemma {:induction false} SelectedExactly(config: Config, head: int, logs: seq<Log>, l: Log)
    requires config.confirmations == 0 || (config.confirmations < INT64_LIMIT && l.blockNumber < INT64_LIMIT)
    ensures l in config.Select(head, logs) <==>
              && l in logs && Wanted(config.eventFilters, l)
              && (config.confirmations == 0 || l.blockNumber + config.confirmations <= head)
    decreases |logs|
  {
    if logs != [] {
      var front, last := logs[..|logs| - 1], logs[|logs| - 1];
      assert logs == front + [last];
      SelectedExactly(config, head, front, l);
    }
  }

  lemma {:induction false} SelectConcat(config: Config, head: int, first: seq<Log>, second: seq<Log>)
    ensures config.Select(head, first + second) == config.Select(head, first) + config.Select(head, second)
    decreases |second|
  {
    if second == [] {
      assert first + second == first;
    } else {
      assert (first + second)[..|first + second| - 1] == first + second[..|second| - 1];
      SelectConcat(config, head, first, second[..|second| - 1]);
    }
  }
}
