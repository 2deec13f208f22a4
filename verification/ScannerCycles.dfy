/** Cycles over all registered contracts: independence of the contracts and of the map order. */
module ScannerCycles {
  import opened Common
  import opened ChainLogs
  import opened EventScanner
  import opened ScannerLaws

  /** The published logs of one contract. */
  function ForAddress(logs: seq<Log>, a: Address): seq<Log> {
    if logs == [] then []
    else
      var rest, l := ForAddress(logs[..|logs| - 1], a), logs[|logs| - 1];
      if l.address == a then rest + [l] else rest
  }

  lemma {:induction false} ForAddressOfOne(logs: seq<Log>, more: seq<Log>, a: Address, b: Address)
    requires forall l :: l in more ==> l.address == a
    ensures ForAddress(logs + more, b) == ForAddress(logs, b) + if a == b then more else []
    decreases |more|
  {
    if more == [] {
      assert logs + more == logs;
    } else {
      var front := more[..|more| - 1];
      assert forall l :: l in front ==> l in more;
      assert (logs + more)[..|logs + more| - 1] == logs + front;
      ForAddressOfOne(logs, front, a, b);
      assert more[|more| - 1] in more;
      assert more == front + [more[|more| - 1]];
    }
  }

  lemma {:induction false} SelectChoosesLogs(config: Config, head: int, logs: seq<Log>, l: Log)
    requires l in config.Select(head, logs)
    ensures l in logs
    decreases |logs|
  {
    var front := logs[..|logs| - 1];
    assert logs == front + [logs[|logs| - 1]];
    if l in config.Select(head, front) {
      SelectChoosesLogs(config, head, front, l);
    }
  }

  lemma {:induction false} DeliveredIsOwn(config: Config, chain: Chain, a: Address, cursor: int, poll: Poll)
    requires config.maxBlockRange >= 1 && WellFormed(chain)
    ensures forall l :: l in Delivered(config, chain, a, cursor, poll) ==> l.address == a
  {
    if poll.head.Some? {
      forall l | l in Delivered(config, chain, a, cursor, poll) ensures l.address == a {
        var end := CursorAfter(config.maxBlockRange, cursor, poll);
        SelectChoosesLogs(config, poll.head.value, LogsIn(chain, a, cursor + 1, end), l);
        LogsInRange(chain, a, cursor + 1, end, l);
      }
    }
  }

  lemma {:induction false} PollIsOneScan(config: Config, chain: Chain, s: Scan, a: Address, info: ContractInfo,
                                         poll: Poll)
    requires config.maxBlockRange >= 1
    requires a in s.contracts && s.contracts[a].currentBlock == info.currentBlock
    ensures var s' := PollContract(config, chain, s, a, info, poll);
            && var end := CursorAfter(config.maxBlockRange, info.currentBlock, poll);
            && s'.contracts == s.contracts[a := s.contracts[a].(currentBlock := end)]
            && s'.published == s.published + Delivered(config, chain, a, info.currentBlock, poll)
  {
    if poll.head.Some? {
      ChunksPublish(config, chain, a, s, info.currentBlock, poll.head.value, poll.refuses);
      ChunksMoveCursor(config, chain, a, s, info.currentBlock, poll.head.value, poll.refuses);
    }
  }

  /** What `b` has after `a` was polled: its own part if `a == b`, nothing new otherwise. */
  lemma {:induction false} PollTouchesOneContract(config: Config, chain: Chain, s: Scan, a: Address, info: ContractInfo,
                                                  poll: Poll, b: Address)
    requires config.maxBlockRange >= 1 && WellFormed(chain)
    requires a in s.contracts && s.contracts[a].currentBlock == info.currentBlock
    ensures var s' := PollContract(config, chain, s, a, info, poll);
            && var end := CursorAfter(config.maxBlockRange, info.currentBlock, poll);
            && s'.contracts == s.contracts[a := s.contracts[a].(currentBlock := end)]
            && ForAddress(s'.published, b)
               == ForAddress(s.published, b)
                  + if a == b then Delivered(config, chain, a, info.currentBlock, poll) else []
  {
    PollIsOneScan(config, chain, s, a, info, poll);
    DeliveredIsOwn(config, chain, a, info.currentBlock, poll);
    ForAddressOfOne(s.published, Delivered(config, chain, a, info.currentBlock, poll), a, b);
  }

  ghost predicate Distinct(order: seq<Address>) {
    forall i, j :: 0 <= i < j < |order| ==> order[i] != order[j]
  }

  function CursorInCycle(config: Config, s: Scan, order: seq<Address>, polls: Address -> Poll, b: Address): int
    requires config.maxBlockRange >= 1 && b in s.contracts
  {
    var cursor := s.contracts[b].currentBlock;
    if b in order then CursorAfter(config.maxBlockRange, cursor, polls(b)) else cursor
  }

  lemma {:induction false} CursorsAreIndependent(config: Config, chain: Chain, s: Scan, order: seq<Address>,
                                                 polls: Address -> Poll)
    requires config.maxBlockRange >= 1 && WellFormed(chain) && Distinct(order)
    ensures var s' := Cycle(config, chain, s.contracts, s, order, polls);
            && s'.contracts.Keys == s.contracts.Keys
            && forall b :: b in s.contracts ==>
                 s'.contracts[b] == s.contracts[b].(currentBlock := CursorInCycle(config, s, order, polls, b))
    decreases |order|
  {
    if order != [] {
      var front, last := order[..|order| - 1], order[|order| - 1];
      assert order == front + [last];
      CursorsAreIndependent(config, chain, s, front, polls);
      if last in s.contracts {
        var middle := Cycle(config, chain, s.contracts, s, front, polls);
        PollTouchesOneContract(config, chain, middle, last, s.contracts[last], polls(last), last);
      }
    }
  }

  /** What a cycle does to one contract is what its own poll does, wherever the contract comes in the
      order and whatever happens to the others. */
  lemma {:induction false} CycleIsIndependent(config: Config, chain: Chain, s: Scan, order: seq<Address>,
                                              polls: Address -> Poll, b: Address)
    requires config.maxBlockRange >= 1 && WellFormed(chain) && Distinct(order)
    ensures var s' := Cycle(config, chain, s.contracts, s, order, polls);
            && s'.contracts.Keys == s.contracts.Keys
            && (b in s.contracts ==>
                  s'.contracts[b] == s.contracts[b].(currentBlock := CursorInCycle(config, s, order, polls, b)))
            && ForAddress(s'.published, b)
               == ForAddress(s.published, b)
                  + if b in order && b in s.contracts
                    then Delivered(config, chain, b, s.contracts[b].currentBlock, polls(b)) else []
    decreases |order|
  {
    CursorsAreIndependent(config, chain, s, order, polls);
    if order != [] {
      var front, last := order[..|order| - 1], order[|order| - 1];
      assert order == front + [last];
      CycleIsIndependent(config, chain, s, front, polls, b);
      if last in s.contracts {
        CursorsAreIndependent(config, chain, s, front, polls);
        var middle := Cycle(config, chain, s.contracts, s, front, polls);
        PollTouchesOneContract(config, chain, middle, last, s.contracts[last], polls(last), b);
      }
    }
  }

  /** A cycle without the write on the error path. */
  function CyclePlain(config: Config, chain: Chain, copies: map<Address, ContractInfo>, s: Scan,
                      order: seq<Address>, polls: Address -> Poll): Scan
    requires config.maxBlockRange >= 1
    decreases |order|
  {
    if order == [] then s
    else
      var last, before := order[|order| - 1], CyclePlain(config, chain, copies, s, order[..|order| - 1], polls);
      if last !in copies || polls(last).head.None? then before
      else ScanChunksPlain(config, chain, last, before, copies[last].currentBlock, polls(last).head.value,
                           polls(last).refuses)
  }

  /** Working on copies of the entries does no harm: at its turn every contract's entry still has the
      cursor of the copy, so the write on the error path changes nothing in any cycle. */
  lemma {:induction false} ErrorPathIsIdle(config: Config, chain: Chain, s: Scan, order: seq<Address>,
                                           polls: Address -> Poll)
    requires config.maxBlockRange >= 1 && WellFormed(chain) && Distinct(order)
    ensures Cycle(config, chain, s.contracts, s, order, polls)
         == CyclePlain(config, chain, s.contracts, s, order, polls)
    decreases |order|
  {
    if order != [] {
      var front, last := order[..|order| - 1], order[|order| - 1];
      assert order == front + [last];
      ErrorPathIsIdle(config, chain, s, front, polls);
      CursorsAreIndependent(config, chain, s, front, polls);
      if last in s.contracts && polls(last).head.Some? {
        RefusalWritesNothingNew(config, chain, last, Cycle(config, chain, s.contracts, s, front, polls),
                                s.contracts[last].currentBlock, polls(last).head.value, polls(last).refuses);
      }
    }
  }

  /** The final cursors and each contract's published sequence do not depend on the map order. */
  lemma {:induction false} MapOrderDoesNotMatter(config: Config, chain: Chain, s: Scan, order: seq<Address>,
                                                 other: seq<Address>, polls: Address -> Poll)
    requires config.maxBlockRange >= 1 && WellFormed(chain) && Distinct(order) && Distinct(other)
    requires forall a :: a in order <==> a in other
    ensures var s1 := Cycle(config, chain, s.contracts, s, order, polls);
            var s2 := Cycle(config, chain, s.contracts, s, other, polls);
            s1.contracts == s2.contracts && forall a :: ForAddress(s1.published, a) == ForAddress(s2.published, a)
  {
    var s1 := Cycle(config, chain, s.contracts, s, order, polls);
    var s2 := Cycle(config, chain, s.contracts, s, other, polls);
    forall a
      ensures ForAddress(s1.published, a) == ForAddress(s2.published, a)
      ensures a in s1.contracts <==> a in s2.contracts
      ensures a in s1.contracts ==> s1.contracts[a] == s2.contracts[a]
    {
      CycleIsIndependent(config, chain, s, order, polls, a);
      CycleIsIndependent(config, chain, s, other, polls, a);
    }
  }

  /** A contract whose node answers are the same fares the same, whatever the node does to others. */
  lemma {:induction false} FailureStaysLocal(config: Config, chain: Chain, s: Scan, order: seq<Address>,
                                             polls: Address -> Poll, others: Address -> Poll, a: Address)
    requires config.maxBlockRange >= 1 && WellFormed(chain) && Distinct(order) && polls(a) == others(a)
    ensures var s1 := Cycle(config, chain, s.contracts, s, order, polls);
            var s2 := Cycle(config, chain, s.contracts, s, order, others);
            && (a in s1.contracts <==> a in s2.contracts)
            && (a in s1.contracts ==> s1.contracts[a] == s2.contracts[a])
            && ForAddress(s1.published, a) == ForAddress(s2.published, a)
  {
    CycleIsIndependent(config, chain, s, order, polls, a);
    CycleIsIndependent(config, chain, s, order, others, a);
  }

  // ---------- Runs ----------

  /** One cycle: the contracts visited before it ended, in order, and the node's answers. */
  datatype Visit = Visit(order: seq<Address>, polls: Address -> Poll)

  function Listen(config: Config, chain: Chain, s: Scan, visits: seq<Visit>): Scan
    requires config.maxBlockRange >= 1
    decreases |visits|
  {
    if visits == [] then s
    else
      var before, last := Listen(config, chain, s, visits[..|visits| - 1]), visits[|visits| - 1];
      Cycle(config, chain, before.contracts, before, last.order, last.polls)
  }

  ghost predicate AllDistinct(visits: seq<Visit>) {
    forall i :: 0 <= i < |visits| ==> Distinct(visits[i].order)
  }

  /** The service after registration: every cursor at its start block, nothing published. */
  ghost predicate JustRegistered(s: Scan) {
    s.published == [] && forall a :: a in s.contracts ==> s.contracts[a].currentBlock == s.contracts[a].startBlock
  }

  /** Without a confirmation depth, whatever cycles were run, with whatever heads, chunk sizes, orders,
      refusals and cancellations, each contract's events were published once each and in order: they
      are the filtered scan from its start block to its cursor. */
  lemma {:induction false} EveryEventOnceInOrder(config: Config, chain: Chain, s: Scan, visits: seq<Visit>, a: Address)
    requires config.maxBlockRange >= 1 && config.confirmations == 0
    requires WellFormed(chain) && AllDistinct(visits) && JustRegistered(s)
    ensures var s' := Listen(config, chain, s, visits);
            && s'.contracts.Keys == s.contracts.Keys
            && (a in s.contracts ==>
                  && s'.contracts[a].startBlock == s.contracts[a].startBlock <= s'.contracts[a].currentBlock
                  && ForAddress(s'.published, a)
                     == Matching(config, LogsIn(chain, a, s.contracts[a].startBlock + 1, s'.contracts[a].currentBlock)))
            && (a !in s.contracts ==> ForAddress(s'.published, a) == [])
    decreases |visits|
  {
    if visits != [] {
      var front, last := visits[..|visits| - 1], visits[|visits| - 1];
      var before := Listen(config, chain, s, front);
      EveryEventOnceInOrder(config, chain, s, front, a);
      CycleIsIndependent(config, chain, before, last.order, last.polls, a);
      if a in s.contracts {
        var start, cursor := s.contracts[a].startBlock, before.contracts[a].currentBlock;
        DeliveredIsMatching(config, chain, a, cursor, last.polls(a));
        MatchingInTwo(config, chain, a, start, cursor, CursorAfter(config.maxBlockRange, cursor, last.polls(a)));
      }
    }
  }

  /** In the terms of the logs themselves: a log of a contract was published exactly if it lies between the
      start block and the cursor and, if a filter is set, has a topic in it. */
  lemma {:induction false} PublishedExactly(config: Config, chain: Chain, s: Scan, visits: seq<Visit>, a: Address,
                                            l: Log)
    requires config.maxBlockRange >= 1 && config.confirmations == 0
    requires WellFormed(chain) && AllDistinct(visits) && JustRegistered(s) && a in s.contracts
    ensures var s' := Listen(config, chain, s, visits);
            && a in s'.contracts
            && (l in ForAddress(s'.published, a) <==>
                  && l in LogsIn(chain, a, s.contracts[a].startBlock + 1, s'.contracts[a].currentBlock)
                  && (config.eventFilters != {} ==>
                        exists i :: 0 <= i < |l.topics| && l.topics[i] in config.eventFilters))
  {
    var s' := Listen(config, chain, s, visits);
    EveryEventOnceInOrder(config, chain, s, visits, a);
    MatchingExactly(config, LogsIn(chain, a, s.contracts[a].startBlock + 1, s'.contracts[a].currentBlock), l);
  }
}
