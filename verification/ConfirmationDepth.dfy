/** What a confirmation depth does to delivery. */
module ConfirmationDepth {
  import opened Common
  import opened ChainLogs
  import opened EventScanner
  import opened ScannerLaws

  /** The block is at least `depth` blocks below the head. */
  predicate Settled(depth: int, head: int, l: Log) {
    l.blockNumber + depth <= head
  }

  /** The logs the filter lets through that are settled. */
  function MatchingSettled(config: Config, head: int, logs: seq<Log>): seq<Log> {
    if logs == [] then []
    else
      var rest, l := MatchingSettled(config, head, logs[..|logs| - 1]), logs[|logs| - 1];
      if config.MatchesFilter(l) && Settled(config.confirmations, head, l) then rest + [l] else rest
  }

  /** For a depth below 2^63 a poll publishes exactly the settled logs of the blocks it covers. */
  lemma {:induction false} PublishesSettled(config: Config, head: int, logs: seq<Log>)
    requires 0 < config.confirmations < INT64_LIMIT
    requires forall l :: l in logs ==> l.blockNumber < INT64_LIMIT
    ensures config.Select(head, logs) == MatchingSettled(config, head, logs)
    decreases |logs|
  {
    if logs != [] {
      var before := logs[..|logs| - 1];
      assert forall l :: l in before ==> l in logs;
      PublishesSettled(config, head, before);
      assert logs[|logs| - 1] in logs;
    }
  }

  /** A depth of 2^63 or more turns negative in the conversion and delays nothing at all. */
  lemma {:induction false} HugeDepthDelaysNothing(config: Config, head: int, logs: seq<Log>)
    requires INT64_LIMIT <= config.confirmations < 2 * INT64_LIMIT
    requires head < INT64_LIMIT && forall l :: l in logs ==> l.blockNumber <= head
    ensures config.Select(head, logs) == Matching(config, logs)
    decreases |logs|
  {
    if logs != [] {
      var before := logs[..|logs| - 1];
      assert forall l :: l in before ==> l in logs;
      HugeDepthDelaysNothing(config, head, before);
      assert logs[|logs| - 1] in logs;
    }
  }

  /** Fewer or equally many logs are published than match, and as many only if all are settled. */
  lemma {:induction false} SettledCount(config: Config, head: int, logs: seq<Log>)
    ensures |MatchingSettled(config, head, logs)| <= |Matching(config, logs)|
    ensures |MatchingSettled(config, head, logs)| == |Matching(config, logs)| <==>
            forall l :: l in Matching(config, logs) ==> Settled(config.confirmations, head, l)
    ensures (forall l :: l in Matching(config, logs) ==> Settled(config.confirmations, head, l)) ==>
            MatchingSettled(config, head, logs) == Matching(config, logs)
    decreases |logs|
  {
    if logs != [] {
      var last := logs[|logs| - 1];
      SettledCount(config, head, logs[..|logs| - 1]);
      var rest := Matching(config, logs[..|logs| - 1]);
      if config.MatchesFilter(last) {
        assert forall l :: l in rest + [last] <==> l in rest || l == last;
      }
    }
  }

  /** The logs that match in the blocks a poll has covered. */
  function Covered(config: Config, chain: Chain, a: Address, cursor: int, poll: Poll): seq<Log>
    requires config.maxBlockRange >= 1
  {
    Matching(config, LogsIn(chain, a, cursor + 1, CursorAfter(config.maxBlockRange, cursor, poll)))
  }

  /** Every matching log was settled for this poll. */
  ghost predicate SettledAt(config: Config, chain: Chain, a: Address, cursor: int, poll: Poll)
    requires config.maxBlockRange >= 1
  {
    poll.head.Some? ==>
      forall l :: l in Covered(config, chain, a, cursor, poll) ==> Settled(config.confirmations, poll.head.value, l)
  }

  /** Every matching log was settled for the poll that covered its block. */
  ghost predicate AllSettled(config: Config, chain: Chain, a: Address, cursor: int, polls: seq<Poll>)
    requires config.maxBlockRange >= 1
    decreases |polls|
  {
    polls == [] ||
    (var before, poll := polls[..|polls| - 1], polls[|polls| - 1];
     && AllSettled(config, chain, a, cursor, before)
     && SettledAt(config, chain, a, CursorAfterAll(config.maxBlockRange, cursor, before), poll))
  }

  ghost predicate HeadsFit(polls: seq<Poll>) {
    forall i :: 0 <= i < |polls| && polls[i].head.Some? ==> polls[i].head.value < INT64_LIMIT
  }

  /** The logs that match in all blocks passed by some polls. */
  function PassedByAll(config: Config, chain: Chain, a: Address, start: int, polls: seq<Poll>): seq<Log>
    requires config.maxBlockRange >= 1
  {
    Matching(config, LogsIn(chain, a, start + 1, CursorAfterAll(config.maxBlockRange, start, polls)))
  }

  lemma {:induction false} PollIsCompleteExactly(config: Config, chain: Chain, a: Address, cursor: int, poll: Poll)
    requires config.maxBlockRange >= 1 && 0 < config.confirmations < INT64_LIMIT
    requires WellFormed(chain) && HeadsFit([poll])
    ensures CompleteExactly(Delivered(config, chain, a, cursor, poll), Covered(config, chain, a, cursor, poll),
                            SettledAt(config, chain, a, cursor, poll))
  {
    if poll.head.Some? {
      assert [poll][0] == poll;
      var head := poll.head.value;
      var logs := LogsIn(chain, a, cursor + 1, CursorAfter(config.maxBlockRange, cursor, poll));
      forall l | l in logs ensures l.blockNumber < INT64_LIMIT {
        LogsInRange(chain, a, cursor + 1, CursorAfter(config.maxBlockRange, cursor, poll), l);
      }
      PublishesSettled(config, head, logs);
      SettledCount(config, head, logs);
    }
  }

  /** Something delivered out of `all` is complete exactly if `settled`. */
  ghost predicate CompleteExactly<T(!new)>(delivered: seq<T>, all: seq<T>, settled: bool) {
    && |delivered| <= |all|
    && (|delivered| == |all| <==> settled)
    && (settled ==> delivered == all)
  }

  /** Two parts together are complete exactly if both are. */
  lemma {:induction false} BothComplete<T(!new)>(first: seq<T>, firstAll: seq<T>, firstSettled: bool, second: seq<T>,
                                                 secondAll: seq<T>, secondSettled: bool)
    requires CompleteExactly(first, firstAll, firstSettled) && CompleteExactly(second, secondAll, secondSettled)
    ensures CompleteExactly(first + second, firstAll + secondAll, firstSettled && secondSettled)
  {
  }

  lemma {:induction false} PollsAreCompleteExactly(config: Config, chain: Chain, a: Address, start: int,
                                                   polls: seq<Poll>)
    requires config.maxBlockRange >= 1 && 0 < config.confirmations < INT64_LIMIT
    requires WellFormed(chain) && HeadsFit(polls)
    ensures CompleteExactly(DeliveredByAll(config, chain, a, start, polls), PassedByAll(config, chain, a, start, polls),
                            AllSettled(config, chain, a, start, polls))
    decreases |polls|
  {
    if polls != [] {
      var before, poll := polls[..|polls| - 1], polls[|polls| - 1];
      var middle := CursorAfterAll(config.maxBlockRange, start, before);
      PollsAreCompleteExactly(config, chain, a, start, before);
      PollIsCompleteExactly(config, chain, a, middle, poll);
      MatchingInTwo(config, chain, a, start, middle, CursorAfter(config.maxBlockRange, middle, poll));
      BothComplete(DeliveredByAll(config, chain, a, start, before), PassedByAll(config, chain, a, start, before),
                   AllSettled(config, chain, a, start, before),
                   Delivered(config, chain, a, middle, poll), Covered(config, chain, a, middle, poll),
                   SettledAt(config, chain, a, middle, poll));
    }
  }

  /** With a confirmation depth, delivery equals the filtered scan of all blocks passed exactly when
      no matching log was younger than the depth at the poll that covered its block; a younger one is
      passed over and never delivered. */
  lemma {:induction false} DepthIsCompleteExactly(config: Config, chain: Chain, a: Address, start: int,
                                                  polls: seq<Poll>)
    requires config.maxBlockRange >= 1 && 0 < config.confirmations < INT64_LIMIT
    requires WellFormed(chain) && HeadsFit(polls)
    ensures DeliveredByAll(config, chain, a, start, polls)
         == Matching(config, LogsIn(chain, a, start + 1, CursorAfterAll(config.maxBlockRange, start, polls)))
       <==> AllSettled(config, chain, a, start, polls)
  {
    PollsAreCompleteExactly(config, chain, a, start, polls);
  }

  lemma {:induction false} NeverSettledLater(config: Config, chain: Chain, a: Address, start: int, first: seq<Poll>,
                                             polls: seq<Poll>)
    requires config.maxBlockRange >= 1 && first <= polls && !AllSettled(config, chain, a, start, first)
    ensures !AllSettled(config, chain, a, start, polls)
    decreases |polls|
  {
    if first != polls {
      NeverSettledLater(config, chain, a, start, first, polls[..|polls| - 1]);
    }
  }

  /** What the first polls passed over stays lost: none after them, with whatever heads, makes up for it. */
  lemma {:induction false} LostForGood(config: Config, chain: Chain, a: Address, start: int, first: seq<Poll>,
                                       polls: seq<Poll>)
    requires config.maxBlockRange >= 1 && 0 < config.confirmations < INT64_LIMIT
    requires WellFormed(chain) && HeadsFit(polls)
    requires first <= polls && !AllSettled(config, chain, a, start, first)
    ensures DeliveredByAll(config, chain, a, start, polls) != PassedByAll(config, chain, a, start, polls)
  {
    NeverSettledLater(config, chain, a, start, first, polls);
    DepthIsCompleteExactly(config, chain, a, start, polls);
  }

  /** A chain whose only log is `l`. */
  function OnlyLog(l: Log): Chain {
    (a: Address, b: int) => if a == l.address && b == l.blockNumber then [l] else []
  }

  /** It happens to any log at the head, with any depth: a poll that sees the block of the log as the head
      publishes nothing and moves the cursor past it, ... */
  lemma {:induction false} YoungEventIsPassedOver(config: Config, l: Log)
    requires config.maxBlockRange >= 1 && 0 < config.confirmations < INT64_LIMIT && config.eventFilters == {}
    requires 0 < l.blockNumber < INT64_LIMIT
    ensures var start, poll := l.blockNumber - 1, PollAt(l.blockNumber);
            && CursorAfter(config.maxBlockRange, start, poll) == l.blockNumber
            && Delivered(config, OnlyLog(l), l.address, start, poll) == []
            && Covered(config, OnlyLog(l), l.address, start, poll) == [l]
            && !AllSettled(config, OnlyLog(l), l.address, start, [poll])
  {
    var start, poll := l.blockNumber - 1, PollAt(l.blockNumber);
    OnlyLogIsRead(l);
    OneLog(config, l.blockNumber, l);
    NoRefusalReachesHead(config.maxBlockRange, start, l.blockNumber, poll.refuses);
    YoungIsNotSettled(config, OnlyLog(l), start, poll, l);
  }

  function PollAt(head: int): Poll {
    Poll(Some(head), from => false)
  }

  /** ... and whatever polls follow, what they publish is not all that was passed. */
  lemma {:induction false} YoungEventIsLost(config: Config, l: Log, polls: seq<Poll>)
    requires config.maxBlockRange >= 1 && 0 < config.confirmations < INT64_LIMIT && config.eventFilters == {}
    requires 0 < l.blockNumber < INT64_LIMIT && HeadsFit(polls)
    requires polls != [] && polls[0] == PollAt(l.blockNumber)
    ensures DeliveredByAll(config, OnlyLog(l), l.address, l.blockNumber - 1, polls)
         != PassedByAll(config, OnlyLog(l), l.address, l.blockNumber - 1, polls)
  {
    YoungEventIsPassedOver(config, l);
    OnlyLogIsRead(l);
    LostForGood(config, OnlyLog(l), l.address, l.blockNumber - 1, [polls[0]], polls);
  }

  lemma {:induction false} OnlyLogIsRead(l: Log)
    ensures WellFormed(OnlyLog(l)) && LogsIn(OnlyLog(l), l.address, l.blockNumber, l.blockNumber) == [l]
  {
    assert LogsIn(OnlyLog(l), l.address, l.blockNumber, l.blockNumber - 1) == [];
  }

  lemma {:induction false} OneLog(config: Config, head: int, l: Log)
    requires config.eventFilters == {} && !config.Confirmed(head, l)
    ensures Matching(config, [l]) == [l] && config.Select(head, [l]) == []
  {
    assert [l][..0] == [];
  }

  lemma {:induction false} YoungIsNotSettled(config: Config, chain: Chain, start: int, poll: Poll, l: Log)
    requires config.maxBlockRange >= 1 && poll.head.Some? && !Settled(config.confirmations, poll.head.value, l)
    requires l in Covered(config, chain, l.address, start, poll)
    ensures !AllSettled(config, chain, l.address, start, [poll])
  {
    assert [poll][..0] == [];
    assert CursorAfterAll(config.maxBlockRange, start, []) == start;
  }
}
