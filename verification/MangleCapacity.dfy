/** How many operations of fusil/fusil/incr_mangle_op.py one version can hold. */
module MangleCapacity {
  import opened Wrappers
  import opened MangleOperations

  lemma {:induction false} BitRangeSize(first: nat, count: nat)
    ensures |BitRange(first, count)| == count
  {
    if count > 0 {
      BitRangeSize(first, count - 1);
    }
  }

  /** Different numbers of a range are no more than the range has. */
  lemma {:induction false} DistinctInRange(keys: seq<nat>, first: nat, count: nat)
    requires forall i | 0 <= i < |keys| :: first <= keys[i] < first + count
    requires forall i, j | 0 <= i < j < |keys| :: keys[i] != keys[j]
    ensures |keys| <= count
  {
    var members := KeySet(keys);
    KeySetSize(keys);
    forall k | k in members ensures k in BitRange(first, count) {
      KeySetMembers(keys, k);
    }
    BitRangeSize(first, count);
    assert BitRange(first, count) == members + (BitRange(first, count) - members);
  }

  ghost function KeySet(keys: seq<nat>): set<nat> {
    if keys == [] then {} else KeySet(keys[..|keys| - 1]) + {keys[|keys| - 1]}
  }

  lemma {:induction false} KeySetMembers(keys: seq<nat>, k: nat)
    requires k in KeySet(keys)
    ensures k in keys
  {
    if keys != [] && k != keys[|keys| - 1] {
      KeySetMembers(keys[..|keys| - 1], k);
    }
  }

  lemma {:induction false} KeySetSize(keys: seq<nat>)
    requires forall i, j | 0 <= i < j < |keys| :: keys[i] != keys[j]
    ensures |KeySet(keys)| == |keys|
  {
    if keys != [] {
      var front, last := keys[..|keys| - 1], keys[|keys| - 1];
      KeySetSize(front);
      if last in KeySet(front) {
        KeySetMembers(front, last);
      }
    }
  }

  /** Data holds no more disjoint operations than it has bits. */
  lemma DisjointOperationsAreBounded(ops: seq<Operation>, datalen: nat)
    requires AllFit(ops, datalen) && PairwiseDisjoint(ops)
    ensures |ops| <= 8 * datalen
  {
    DistinctInRange(seq(|ops|, i requires 0 <= i < |ops| => ops[i].offset), 0, 8 * datalen);
  }

  /** The places where an operation may start: bits with InverseBit, else bytes. */
  function StartWindow(agent: Config, datalen: int): (int, int) {
    if InverseBitKind in agent.operations then BitWindow(agent, datalen) else ByteWindow(agent, datalen - 1)
  }

  function StartOf(agent: Config, op: Operation): nat {
    if InverseBitKind in agent.operations then op.offset else op.offset / 8
  }

  /** Number of places where an operation may start; no class and no operation per version leave none. */
  function Capacity(agent: Config, datalen: int): nat {
    var (first, last) := StartWindow(agent, datalen);
    if agent.operations == [] || agent.operationPerVersion < 1 || first > last then 0 else last - first + 1
  }

  lemma DrawnStart(agent: Config, datalen: int, op: Operation)
    requires Drawable(agent, datalen, op)
    ensures StartWindow(agent, datalen).0 <= StartOf(agent, op) <= StartWindow(agent, datalen).1
    ensures InverseBitKind in agent.operations || !op.InverseBit?
  {
    var kind :| kind in agent.operations && PossibleDraw(kind, agent, datalen, Some(op));
    if kind.SpecialValueKind? {
      SpecialValueSizes(op.bytes);
    }
  }

  lemma DisjointStarts(agent: Config, a: Operation, b: Operation)
    requires a.WellFormed() && b.WellFormed() && Disjoint(a, b)
    requires InverseBitKind in agent.operations || (!a.InverseBit? && !b.InverseBit?)
    ensures StartOf(agent, a) != StartOf(agent, b)
  {
  }

  /** The agent can draw no more disjoint operations than there are places where one may start. */
  lemma DrawnOperationsAreBounded(agent: Config, datalen: nat, ops: seq<Operation>)
    requires agent.operationPerVersion >= 1 && PairwiseDisjoint(ops)
    requires forall i | 0 <= i < |ops| :: ops[i].WellFormed() && Drawable(agent, datalen, ops[i])
    ensures |ops| <= Capacity(agent, datalen)
  {
    forall i | 0 <= i < |ops|
      ensures StartWindow(agent, datalen).0 <= StartOf(agent, ops[i]) <= StartWindow(agent, datalen).1
      ensures InverseBitKind in agent.operations || !ops[i].InverseBit?
    {
      DrawnStart(agent, datalen, ops[i]);
    }
    forall i, j | 0 <= i < j < |ops| ensures StartOf(agent, ops[i]) != StartOf(agent, ops[j]) {
      DisjointStarts(agent, ops[i], ops[j]);
    }
    if ops != [] {
      assert Drawable(agent, datalen, ops[0]);
      DistinctInRange(seq(|ops|, i requires 0 <= i < |ops| => StartOf(agent, ops[i])),
        StartWindow(agent, datalen).0, Capacity(agent, datalen));
    }
  }

  /** A smallest operation that starts at the k-th place. */
  function Smallest(agent: Config, datalen: int, k: nat): (op: Operation)
    requires k < Capacity(agent, datalen)
  {
    var start := StartWindow(agent, datalen).0 + k;
    if InverseBitKind in agent.operations then InverseBit(start)
    else if ReplaceByteKind in agent.operations then ReplaceByte(8 * start, 0)
    else if IncrementKind in agent.operations then Increment(8 * start, 1)
    else SpecialValue(8 * start, BigEndianValue(0))
  }

  function SmallestKind(agent: Config): OperationKind {
    if InverseBitKind in agent.operations then InverseBitKind
    else if ReplaceByteKind in agent.operations then ReplaceByteKind
    else if IncrementKind in agent.operations then IncrementKind
    else SpecialValueKind
  }

  lemma SmallestIsDrawn(agent: Config, datalen: nat, k: nat)
    requires k < Capacity(agent, datalen)
    ensures SmallestKind(agent) in agent.operations
    ensures PossibleDraw(SmallestKind(agent), agent, datalen, Some(Smallest(agent, datalen, k)))
  {
    var any := agent.operations[0];
    assert any.InverseBitKind? || any.ReplaceByteKind? || any.SpecialValueKind? || any.IncrementKind?;
    assert IsValueOrReversal(0, BigEndianValue(0));
  }

  lemma SmallestAreDisjoint(agent: Config, datalen: nat, j: nat, k: nat)
    requires j < k < Capacity(agent, datalen)
    ensures Disjoint(Smallest(agent, datalen, j), Smallest(agent, datalen, k))
  {
    SmallestIsDrawn(agent, datalen, j);
  }

  /** Every place can be used: the smallest operations can all be drawn, fit and are disjoint. */
  lemma SmallestOperations(agent: Config, datalen: nat, k: nat)
    requires k < Capacity(agent, datalen)
    ensures Drawable(agent, datalen, Smallest(agent, datalen, k)) && Smallest(agent, datalen, k).Fits(datalen)
    ensures forall j: nat | j < k :: Disjoint(Smallest(agent, datalen, j), Smallest(agent, datalen, k))
  {
    SmallestIsDrawn(agent, datalen, k);
    DrawnOperationFits(SmallestKind(agent), agent, datalen, Smallest(agent, datalen, k));
    forall j: nat | j < k ensures Disjoint(Smallest(agent, datalen, j), Smallest(agent, datalen, k)) {
      SmallestAreDisjoint(agent, datalen, j, k);
    }
  }
}
