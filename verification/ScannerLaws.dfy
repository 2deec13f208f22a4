/** What the scanner delivers, over any polls, heads, chunk sizes, refusals and cycles. */
module ScannerLaws {
  import opened Common
  import opened ChainLogs
  import opened EventScanner

  // ---------- One poll ----------

  /** Where a scan of the blocks after `last` up to `upTo` leaves the cursor. */
  function EndOf(range: int, last: int, upTo: int, refuses: int -> bool): (end: int)
    requires range >= 1
    ensures last <= end && (last <= upTo ==> end <= upTo)
    decreases upTo - last
  {
    if last >= upTo || refuses(last + 1) then last
    else EndOf(range, ChunkEnd(range, last + 1, upTo), upTo, refuses)
  }

  /** The queries made on the way, the refused one included. */
  function Queries(range: int, last: int, upTo: int, refuses: int -> bool): seq<(int, int)>
    requires range >= 1
    decreases upTo - last
  {
    if last >= upTo then []
    else
      var end := ChunkEnd(range, last + 1, upTo);
      [(last + 1, end)] + if refuses(last + 1) then [] else Queries(range, end, upTo, refuses)
  }

  function CursorAfter(range: int, cursor: int, poll: Poll): (end: int)
    requires range >= 1
    ensures cursor <= end
  {
    if poll.head.None? then cursor else EndOf(range, cursor, poll.head.value, poll.refuses)
  }

  function Delivered(config: Config, chain: Chain, a: Address, cursor: int, poll: Poll): seq<Log>
    requires config.maxBlockRange >= 1
  {
    if poll.head.None? then []
    else config.Select(poll.head.value, LogsIn(chain, a, cursor + 1, CursorAfter(config.maxBlockRange, cursor, poll)))
  }

  lemma {:induction false} DeliveredInChunks(config: Config, chain: Chain, a: Address, last: int, middle: int, end: int,
                                             upTo: int)
    requires last <= middle <= end
    ensures config.Select(upTo, LogsIn(chain, a, last + 1, middle))
            + config.Select(upTo, LogsIn(chain, a, middle + 1, end))
         == config.Select(upTo, LogsIn(chain, a, last + 1, end))
  {
    LogsSplit(chain, a, last + 1, middle, end);
    SelectConcat(config, upTo, LogsIn(chain, a, last + 1, middle), LogsIn(chain, a, middle + 1, end));
  }

  lemma {:induction false} Associative<T>(x: seq<T>, y: seq<T>, z: seq<T>)
    ensures (x + y) + z == x + (y + z)
  {
  }

  lemma {:induction false} ChunksPublish(config: Config, chain: Chain, a: Address, s: Scan, last: int, upTo: int,
                                         refuses: int -> bool)
    requires config.maxBlockRange >= 1
    ensures ScanChunks(config, chain, a, s, last, upTo, refuses).published
         == s.published
            + config.Select(upTo, LogsIn(chain, a, last + 1, EndOf(config.maxBlockRange, last, upTo, refuses)))
    decreases upTo - last
  {
    if last < upTo && !refuses(last + 1) {
      var middle := ChunkEnd(config.maxBlockRange, last + 1, upTo);
      var end := EndOf(config.maxBlockRange, middle, upTo, refuses);
      var next := ScanChunk(config, chain, a, s, last, middle, upTo, false);
      ChunksPublish(config, chain, a, next, middle, upTo, refuses);
      DeliveredInChunks(config, chain, a, last, middle, end, upTo);
      Associative(s.published, config.Select(upTo, LogsIn(chain, a, last + 1, middle)),
                  config.Select(upTo, LogsIn(chain, a, middle + 1, end)));
    }
  }

  lemma {:induction false} ChunksMoveCursor(config: Config, chain: Chain, a: Address, s: Scan, last: int, upTo: int,
                                            refuses: int -> bool)
    requires config.maxBlockRange >= 1
    ensures ScanChunks(config, chain, a, s, last, upTo, refuses).contracts
         == if last < upTo then SetCursor(s.contracts, a, EndOf(config.maxBlockRange, last, upTo, refuses))
            else s.contracts
    decreases upTo - last
  {
    if last < upTo && !refuses(last + 1) {
      var middle := ChunkEnd(config.maxBlockRange, last + 1, upTo);
      ChunksMoveCursor(config, chain, a, ScanChunk(config, chain, a, s, last, middle, upTo, false), middle, upTo,
                       refuses);
    }
  }

  lemma {:induction false} ChunksAsk(config: Config, chain: Chain, a: Address, s: Scan, last: int, upTo: int,
                                     refuses: int -> bool)
    requires config.maxBlockRange >= 1
    ensures ScanChunks(config, chain, a, s, last, upTo, refuses).queried
         == s.queried + Queries(config.maxBlockRange, last, upTo, refuses)
    decreases upTo - last
  {
    if last < upTo && !refuses(last + 1) {
      var middle := ChunkEnd(config.maxBlockRange, last + 1, upTo);
      ChunksAsk(config, chain, a, ScanChunk(config, chain, a, s, last, middle, upTo, false), middle, upTo, refuses);
      assert s.queried + ([(last + 1, middle)] + Queries(config.maxBlockRange, middle, upTo, refuses))
          == (s.queried + [(last + 1, middle)]) + Queries(config.maxBlockRange, middle, upTo, refuses);
    }
  }

  /** However the chunks are cut and whichever query is refused, the chunk loop comes to one query for
      the blocks up to where it stopped, and leaves the cursor there. */
  lemma {:induction false} ChunksMakeOneScan(config: Config, chain: Chain, a: Address, s: Scan, last: int, upTo: int,
                                             refuses: int -> bool)
    requires config.maxBlockRange >= 1
    ensures var end := EndOf(config.maxBlockRange, last, upTo, refuses);
            ScanChunks(config, chain, a, s, last, upTo, refuses)
            == Scan(if last < upTo then SetCursor(s.contracts, a, end) else s.contracts,
                    s.published + config.Select(upTo, LogsIn(chain, a, last + 1, end)),
                    s.queried + Queries(config.maxBlockRange, last, upTo, refuses))
  {
    ChunksPublish(config, chain, a, s, last, upTo, refuses);
    ChunksMoveCursor(config, chain, a, s, last, upTo, refuses);
    ChunksAsk(config, chain, a, s, last, upTo, refuses);
  }

  /** The chunk loop without the write on its error path. */
  function ScanChunksPlain(config: Config, chain: Chain, a: Address, s: Scan, last: int, upTo: int,
                           refuses: int -> bool): Scan
    requires config.maxBlockRange >= 1
    decreases upTo - last
  {
    if last >= upTo then s
    else
      var end := ChunkEnd(config.maxBlockRange, last + 1, upTo);
      if refuses(last + 1) then s.(queried := s.queried + [(last + 1, end)])
      else ScanChunksPlain(config, chain, a, ScanChunk(config, chain, a, s, last, end, upTo, false), end, upTo, refuses)
  }

  /** From an entry whose cursor is where the poll starts, the write on the error path is of the value
      already there, whichever query is refused: the loop without it does the same. */
  lemma {:induction false} RefusalWritesNothingNew(config: Config, chain: Chain, a: Address, s: Scan, last: int,
                                                   upTo: int, refuses: int -> bool)
    requires config.maxBlockRange >= 1
    requires a in s.contracts ==> s.contracts[a].currentBlock == last
    ensures ScanChunks(config, chain, a, s, last, upTo, refuses)
         == ScanChunksPlain(config, chain, a, s, last, upTo, refuses)
    decreases upTo - last
  {
    if last < upTo && !refuses(last + 1) {
      var end := ChunkEnd(config.maxBlockRange, last + 1, upTo);
      RefusalWritesNothingNew(config, chain, a, ScanChunk(config, chain, a, s, last, end, upTo, false), end, upTo,
                              refuses);
    }
  }

  ghost predicate Follows(range: int, before: (int, int), after: (int, int)) {
    before.1 == before.0 + range - 1 && after.0 == before.1 + 1
  }

  /** The queries are non-empty, adjacent and no longer than `range`, cover exactly the blocks after
      `last` up to `upTo`, and are full but for the last one. */
  ghost predicate Tiles(queries: seq<(int, int)>, range: int, last: int, upTo: int) {
    && (queries == [] <==> last >= upTo)
    && (queries != [] ==> queries[0].0 == last + 1 && queries[|queries| - 1].1 == upTo)
    && (forall i :: 0 <= i < |queries| ==> queries[i].0 <= queries[i].1 < queries[i].0 + range)
    && (forall i, j :: 0 <= i < j == i + 1 < |queries| ==> Follows(range, queries[i], queries[j]))
  }

  lemma {:induction false} TilesCons(query: (int, int), queries: seq<(int, int)>, range: int, last: int, upTo: int)
    requires last < upTo && query.0 == last + 1 && query.0 <= query.1 < query.0 + range
    requires Tiles(queries, range, query.1, upTo) && query.1 <= upTo
    requires query.1 < upTo ==> query.1 == query.0 + range - 1
    ensures Tiles([query] + queries, range, last, upTo)
  {
    var all := [query] + queries;
    forall i, j | 0 <= i < j == i + 1 < |all| ensures Follows(range, all[i], all[j]) {
      if i > 0 {
        assert all[i] == queries[i - 1] && all[j] == queries[j - 1];
      }
    }
  }

  /** A poll with no refusal tiles everything from the cursor to the head. */
  lemma {:induction false} ChunksTile(range: int, last: int, upTo: int, refuses: int -> bool)
    requires range >= 1 && forall b :: !refuses(b)
    ensures Tiles(Queries(range, last, upTo, refuses), range, last, upTo)
    decreases upTo - last
  {
    if last < upTo {
      var end := ChunkEnd(range, last + 1, upTo);
      ChunksTile(range, end, upTo, refuses);
      TilesCons((last + 1, end), Queries(range, end, upTo, refuses), range, last, upTo);
    }
  }

  /** Their number is the distance over the range, rounded up. */
  lemma {:induction false} ChunkCount(range: int, last: int, upTo: int, refuses: int -> bool)
    requires range >= 1 && last <= upTo && forall b :: !refuses(b)
    ensures var n := |Queries(range, last, upTo, refuses)|;
            (n - 1) * range < upTo - last <= n * range
    decreases upTo - last
  {
    if last < upTo {
      var end := ChunkEnd(range, last + 1, upTo);
      var rest := |Queries(range, end, upTo, refuses)|;
      ChunkCount(range, end, upTo, refuses);
      assert |Queries(range, last, upTo, refuses)| == rest + 1;
      assert (rest + 1) * range == rest * range + range && (rest - 1) * range == rest * range - range;
      assert rest > 0 ==> end == last + range;
    }
  }

  /** A poll with a refusal makes the same queries, up to and including the refused one. */
  lemma {:induction false} RefusedPollIsPrefix(range: int, last: int, upTo: int, refuses: int -> bool,
                                               never: int -> bool)
    requires range >= 1 && forall b :: !never(b)
    ensures Queries(range, last, upTo, refuses) <= Queries(range, last, upTo, never)
    decreases upTo - last
  {
    if last < upTo && !refuses(last + 1) {
      RefusedPollIsPrefix(range, ChunkEnd(range, last + 1, upTo), upTo, refuses, never);
    }
  }

  lemma {:induction false} NoRefusalReachesHead(range: int, last: int, upTo: int, refuses: int -> bool)
    requires range >= 1 && last <= upTo && forall b :: !refuses(b)
    ensures EndOf(range, last, upTo, refuses) == upTo
    decreases upTo - last
  {
    if last < upTo {
      NoRefusalReachesHead(range, ChunkEnd(range, last + 1, upTo), upTo, refuses);
    }
  }

  // ---------- One contract over many polls ----------

  /** The logs the filter lets through. */
  function Matching(config: Config, logs: seq<Log>): seq<Log> {
    if logs == [] then []
    else
      var rest, l := Matching(config, logs[..|logs| - 1]), logs[|logs| - 1];
      if config.MatchesFilter(l) then rest + [l] else rest
  }

  lemma {:induction false} MatchingConcat(config: Config, first: seq<Log>, second: seq<Log>)
    ensures Matching(config, first + second) == Matching(config, first) + Matching(config, second)
    decreases |second|
  {
    if second == [] {
      assert first + second == first;
    } else {
      assert (first + second)[..|first + second| - 1] == first + second[..|second| - 1];
      MatchingConcat(config, first, second[..|second| - 1]);
    }
  }

  lemma {:induction false} SelectWithoutDepth(config: Config, head: int, logs: seq<Log>)
    requires config.confirmations == 0
    ensures config.Select(head, logs) == Matching(config, logs)
    decreases |logs|
  {
    if logs != [] {
      SelectWithoutDepth(config, head, logs[..|logs| - 1]);
    }
  }

  lemma {:induction false} MatchingExactly(config: Config, logs: seq<Log>, l: Log)
    ensures l in Matching(config, logs) <==> l in logs && Wanted(config.eventFilters, l)
    decreases |logs|
  {
    if logs != [] {
      var front, last := logs[..|logs| - 1], logs[|logs| - 1];
      assert logs == front + [last];
      MatchingExactly(config, front, l);
    }
  }

  /** A poll without an answer for the head, or with nothing new, changes nothing and asks nothing. */
  lemma {:induction false} IdlePollChangesNothing(config: Config, chain: Chain, s: Scan, a: Address, info: ContractInfo,
                                                  poll: Poll)
    requires config.maxBlockRange >= 1
    requires poll.head.None? || poll.head.value <= info.currentBlock
    ensures PollContract(config, chain, s, a, info, poll) == s
  {
  }

  function CursorAfterAll(range: int, cursor: int, polls: seq<Poll>): (end: int)
    requires range >= 1
    ensures cursor <= end
    decreases |polls|
  {
    if polls == [] then cursor
    else CursorAfter(range, CursorAfterAll(range, cursor, polls[..|polls| - 1]), polls[|polls| - 1])
  }

  function DeliveredByAll(config: Config, chain: Chain, a: Address, cursor: int, polls: seq<Poll>): seq<Log>
    requires config.maxBlockRange >= 1
    decreases |polls|
  {
    if polls == [] then []
    else
      var before, poll := polls[..|polls| - 1], polls[|polls| - 1];
      DeliveredByAll(config, chain, a, cursor, before)
      + Delivered(config, chain, a, CursorAfterAll(config.maxBlockRange, cursor, before), poll)
  }

  lemma {:induction false} DeliveredIsMatching(config: Config, chain: Chain, a: Address, cursor: int, poll: Poll)
    requires config.maxBlockRange >= 1 && config.confirmations == 0
    ensures Delivered(config, chain, a, cursor, poll)
         == Matching(config, LogsIn(chain, a, cursor + 1, CursorAfter(config.maxBlockRange, cursor, poll)))
  {
    if poll.head.Some? {
      SelectWithoutDepth(config, poll.head.value,
                         LogsIn(chain, a, cursor + 1, CursorAfter(config.maxBlockRange, cursor, poll)));
    }
  }

  lemma {:induction false} MatchingInTwo(config: Config, chain: Chain, a: Address, last: int, middle: int, end: int)
    requires last <= middle <= end
    ensures Matching(config, LogsIn(chain, a, last + 1, middle)) + Matching(config, LogsIn(chain, a, middle + 1, end))
         == Matching(config, LogsIn(chain, a, last + 1, end))
  {
    LogsSplit(chain, a, last + 1, middle, end);
    MatchingConcat(config, LogsIn(chain, a, last + 1, middle), LogsIn(chain, a, middle + 1, end));
  }

  /** Without a confirmation depth, any sequence of polls delivers exactly one filtered scan of the
      blocks its cursor has passed: nothing lost, nothing twice, in chain order. */
  lemma {:induction false} PollsRefineOneScan(config: Config, chain: Chain, a: Address, start: int, polls: seq<Poll>)
    requires config.maxBlockRange >= 1 && config.confirmations == 0
    ensures DeliveredByAll(config, chain, a, start, polls)
         == Matching(config, LogsIn(chain, a, start + 1, CursorAfterAll(config.maxBlockRange, start, polls)))
    decreases |polls|
  {
    if polls != [] {
      var before, poll := polls[..|polls| - 1], polls[|polls| - 1];
      var middle := CursorAfterAll(config.maxBlockRange, start, before);
      var end := CursorAfter(config.maxBlockRange, middle, poll);
      PollsRefineOneScan(config, chain, a, start, before);
      DeliveredIsMatching(config, chain, a, middle, poll);
      MatchingInTwo(config, chain, a, start, middle, end);
    }
  }

  /** A failing poll is invisible afterwards: once a poll without refusal has reached a head, the
      cursor and everything delivered are as if only that poll had been made. */
  lemma {:induction false} FailuresAreInvisible(config: Config, chain: Chain, a: Address, start: int,
                                                failing: seq<Poll>, poll: Poll)
    requires config.maxBlockRange >= 1 && config.confirmations == 0
    requires poll.head.Some? && forall b :: !poll.refuses(b)
    requires CursorAfterAll(config.maxBlockRange, start, failing) <= poll.head.value
    ensures CursorAfterAll(config.maxBlockRange, start, failing + [poll])
         == CursorAfterAll(config.maxBlockRange, start, [poll]) == poll.head.value
    ensures DeliveredByAll(config, chain, a, start, failing + [poll]) == DeliveredByAll(config, chain, a, start, [poll])
  {
    var range := config.maxBlockRange;
    assert (failing + [poll])[..|failing|] == failing && [poll][..0] == [];
    NoRefusalReachesHead(range, CursorAfterAll(range, start, failing), poll.head.value, poll.refuses);
    NoRefusalReachesHead(range, start, poll.head.value, poll.refuses);
    PollsRefineOneScan(config, chain, a, start, failing + [poll]);
    PollsRefineOneScan(config, chain, a, start, [poll]);
  }
}
