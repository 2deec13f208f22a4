/** The logs of a chain and what a node answers to a log query. */
module ChainLogs {
  import opened Common
  import opened CertificateRegistry

  /** The data part of a log, decoded: what the two queue events carry there, or anything else. */
  datatype Body = QueueData(operation: Operation, queueIndex: nat) | OtherData

  datatype Log = Log(address: Address, blockNumber: int, topics: seq<Hash>, body: Body)

  /** The logs of one contract in one block, in order. The history below the head does not change. */
  type Chain = (Address, int) -> seq<Log>

  ghost predicate WellFormed(chain: Chain) {
    forall a, b :: forall l :: l in chain(a, b) ==> l.address == a && l.blockNumber == b
  }

  /** A successful `FilterLogs` for one address and the blocks `from..upTo`. */
  function LogsIn(chain: Chain, a: Address, from: int, upTo: int): seq<Log>
    decreases upTo - from + 1
  {
    if upTo < from then [] else LogsIn(chain, a, from, upTo - 1) + chain(a, upTo)
  }

  lemma {:induction false} LogsSplit(chain: Chain, a: Address, from: int, middle: int, upTo: int)
    requires from - 1 <= middle <= upTo
    ensures LogsIn(chain, a, from, upTo) == LogsIn(chain, a, from, middle) + LogsIn(chain, a, middle + 1, upTo)
    decreases upTo - middle
  {
    if middle < upTo {
      LogsSplit(chain, a, from, middle, upTo - 1);
    } else {
      assert LogsIn(chain, a, middle + 1, upTo) == [];
    }
  }

  lemma {:induction false} LogsInRange(chain: Chain, a: Address, from: int, upTo: int, l: Log)
    requires WellFormed(chain) && l in LogsIn(chain, a, from, upTo)
    ensures l.address == a && from <= l.blockNumber <= upTo
    decreases upTo - from + 1
  {
    if l !in chain(a, upTo) {
      LogsInRange(chain, a, from, upTo - 1, l);
    }
  }
}
