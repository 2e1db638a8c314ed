/**
 The edit operations of fusil/fusil/incr_mangle_op.py.

 An operation owns a range of bits of the data.  Its offset counts bits; the byte-sized
 operations sit on a byte boundary.
 */
module MangleOperations {
  import opened Wrappers

  type Bytes = seq<bv8>

  const MAX_INCR := 8

  function BigEndianValue(i: nat): (r: Bytes)
    requires i < 16
    ensures |r| == 1 || |r| == 2 || |r| == 4
  {
    match i
    case 0 => [0x00]
    case 1 => [0x00, 0x00]
    case 2 => [0x01]
    case 3 => [0x00, 0x01]
    case 4 => [0x7f]
    case 5 => [0x7f, 0xff]
    case 6 => [0x7f, 0xff, 0xff, 0xff]
    case 7 => [0x80]
    case 8 => [0x80, 0x00]
    case 9 => [0x80, 0x00, 0x00, 0x00]
    case 10 => [0xfe]
    case 11 => [0xfe, 0xff]
    case 12 => [0xfe, 0xff, 0xff, 0xff]
    case 13 => [0xff]
    case 14 => [0xff, 0xff]
    case _ => [0xff, 0xff, 0xff, 0xff]
  }

  function Reversed(s: Bytes): Bytes {
    seq(|s|, i requires 0 <= i < |s| => s[|s| - 1 - i])
  }

  /** Each value, followed by its little-endian form when that differs. */
  function WithReversals(values: seq<Bytes>): (r: seq<Bytes>)
    ensures values != [] ==> r != []
  {
    if values == [] then []
    else
      var item, itemb := values[0], Reversed(values[0]);
      (if item != itemb then [item, itemb] else [item]) + WithReversals(values[1..])
  }

  function BigEndianValues(): seq<Bytes> {
    seq(16, i requires 0 <= i < 16 => BigEndianValue(i))
  }

  /** The list generateSpecialValues builds. */
  function SpecialValues(): (r: seq<Bytes>)
    ensures r != []
  {
    WithReversals(BigEndianValues())
  }

  lemma {:induction false} WithReversalsMembers(values: seq<Bytes>, s: Bytes)
    ensures s in WithReversals(values) <==> exists v :: v in values && (s == v || s == Reversed(v))
  {
    if values != [] {
      WithReversalsMembers(values[1..], s);
      assert forall v :: v in values <==> v == values[0] || v in values[1..];
    }
  }

  /** The members of SPECIAL_VALUES: the sixteen values and their reversals. */
  ghost predicate IsSpecialValue(s: Bytes) {
    exists i: nat :: i < 16 && IsValueOrReversal(i, s)
  }

  ghost predicate IsValueOrReversal(i: nat, s: Bytes)
    requires i < 16
  {
    s == BigEndianValue(i) || s == Reversed(BigEndianValue(i))
  }

  lemma BigEndianMember(v: Bytes) returns (i: nat)
    requires v in BigEndianValues()
    ensures i < 16 && v == BigEndianValue(i)
  {
    i :| i < |BigEndianValues()| && BigEndianValues()[i] == v;
  }

  lemma SpecialValuesMembers(s: Bytes)
    requires s in SpecialValues()
    ensures IsSpecialValue(s)
  {
    WithReversalsMembers(BigEndianValues(), s);
    var v :| v in BigEndianValues() && (s == v || s == Reversed(v));
    var i := BigEndianMember(v);
    assert IsValueOrReversal(i, s);
  }

  lemma SpecialValuesAreAllListed(s: Bytes)
    requires IsSpecialValue(s)
    ensures s in SpecialValues()
  {
    var values := BigEndianValues();
    var i: nat :| i < 16 && IsValueOrReversal(i, s);
    assert values[i] in values;
    WithReversalsMembers(values, s);
  }

  lemma ReversedBytes(a: bv8, b: bv8, c: bv8, d: bv8)
    ensures Reversed([a]) == [a] && Reversed([a, b]) == [b, a] && Reversed([a, b, c, d]) == [d, c, b, a]
  {
  }

  /** A value and its reversal. */
  function Forms(i: nat): set<Bytes>
    requires i < 16
  {
    match i
    case 0 => {[0x00]}
    case 1 => {[0x00, 0x00]}
    case 2 => {[0x01]}
    case 3 => {[0x00, 0x01], [0x01, 0x00]}
    case 4 => {[0x7f]}
    case 5 => {[0x7f, 0xff], [0xff, 0x7f]}
    case 6 => {[0x7f, 0xff, 0xff, 0xff], [0xff, 0xff, 0xff, 0x7f]}
    case 7 => {[0x80]}
    case 8 => {[0x80, 0x00], [0x00, 0x80]}
    case 9 => {[0x80, 0x00, 0x00, 0x00], [0x00, 0x00, 0x00, 0x80]}
    case 10 => {[0xfe]}
    case 11 => {[0xfe, 0xff], [0xff, 0xfe]}
    case 12 => {[0xfe, 0xff, 0xff, 0xff], [0xff, 0xff, 0xff, 0xfe]}
    case 13 => {[0xff]}
    case 14 => {[0xff, 0xff]}
    case _ => {[0xff, 0xff, 0xff, 0xff]}
  }

  lemma FormsOfOneByte(i: nat, s: Bytes)
    requires i < 16 && |BigEndianValue(i)| == 1
    ensures IsValueOrReversal(i, s) <==> s in Forms(i)
  {
    var v := BigEndianValue(i);
    ReversedBytes(v[0], 0, 0, 0);
    assert [v[0]] == v;
  }

  lemma FormsOfTwoBytes(i: nat, s: Bytes)
    requires i < 16 && |BigEndianValue(i)| == 2
    ensures IsValueOrReversal(i, s) <==> s in Forms(i)
  {
    var v := BigEndianValue(i);
    ReversedBytes(v[0], v[1], 0, 0);
    assert [v[0], v[1]] == v;
  }

  lemma FormsOfFourBytes(i: nat, s: Bytes)
    requires i < 16 && |BigEndianValue(i)| == 4
    ensures IsValueOrReversal(i, s) <==> s in Forms(i)
  {
    var v := BigEndianValue(i);
    ReversedBytes(v[0], v[1], v[2], v[3]);
    assert [v[0], v[1], v[2], v[3]] == v;
  }

  lemma FormsOfValue(i: nat, s: Bytes)
    requires i < 16
    ensures IsValueOrReversal(i, s) <==> s in Forms(i)
  {
    if |BigEndianValue(i)| == 1 {
      FormsOfOneByte(i, s);
    } else if |BigEndianValue(i)| == 2 {
      FormsOfTwoBytes(i, s);
    } else {
      FormsOfFourBytes(i, s);
    }
  }

  /** The list holds just these values, each in both byte orders. */
  lemma SpecialValuesInFull(s: Bytes)
    ensures s in SpecialValues() <==> exists i: nat :: i < 16 && s in Forms(i)
  {
    if s in SpecialValues() {
      SpecialValuesMembers(s);
      var i: nat :| i < 16 && IsValueOrReversal(i, s);
      FormsOfValue(i, s);
    }
    if i: nat :| i < 16 && s in Forms(i) {
      FormsOfValue(i, s);
      SpecialValuesAreAllListed(s);
    }
  }

  lemma SpecialValueSizes(s: Bytes)
    requires IsSpecialValue(s)
    ensures |s| == 1 || |s| == 2 || |s| == 4
  {
    var i: nat :| i < 16 && IsValueOrReversal(i, s);
    assert |Reversed(BigEndianValue(i))| == |BigEndianValue(i)|;
  }

  function MinMax(low: int, value: int, high: int): (r: int)
    ensures low <= high ==> low <= r <= high
    ensures low <= value <= high ==> r == value
    ensures low <= high ==> (value < low ==> r == low) && (high < value ==> r == high)
  {
    var atLeast := if low < value then value else low;
    if atLeast < high then atLeast else high
  }

  // ---------- bits ----------

  function Mask(k: bv3): bv8 {
    (1 as bv8) << k
  }

  predicate BitSet(b: bv8, k: bv3) {
    b & Mask(k) != 0
  }

  /** The position of bit k inside its byte: k & 7. */
  function InByte(k: nat): bv3 {
    (k % 8) as bv3
  }

  /** Bit k of the data, the least significant bit of a byte first. */
  predicate Bit(d: Bytes, k: nat)
    requires k < 8 * |d|
  {
    BitSet(d[k / 8], InByte(k))
  }

  /** A byte plus a signed increment, clamped to the range of a byte. */
  function Incremented(b: bv8, incr: int): bv8 {
    MinMax(0, b as int + incr, 255) as bv8
  }

  // ---------- operations ----------

  datatype Operation =
    | InverseBit(offset: nat)
    | ReplaceByte(offset: nat, byte: bv8)
    | SpecialValue(offset: nat, bytes: Bytes)
    | Increment(offset: nat, incr: int)
  {
    /** Number of bits owned by the operation. */
    function Size(): nat {
      match this
      case InverseBit(_) => 1
      case ReplaceByte(_, _) => 8
      case SpecialValue(_, bytes) => 8 * |bytes|
      case Increment(_, _) => 8
    }

    predicate WellFormed() {
      && Size() > 0
      && (!InverseBit? ==> offset % 8 == 0)
    }

    predicate Fits(datalen: nat) {
      WellFormed() && offset + Size() <= 8 * datalen
    }

    ghost function Bits(): set<nat> {
      BitRange(offset, Size())
    }

    /** Byte i holds a bit owned by the operation. */
    predicate Touches(i: nat) {
      offset < 8 * i + 8 && 8 * i < offset + Size()
    }

    /** The new value of byte i, given only its old value b: an operation reads no other byte. */
    function NewByte(i: nat, b: bv8): bv8
      requires WellFormed()
    {
      if !Touches(i) then b else
      match this
      case InverseBit(_) => b ^ Mask(InByte(offset))
      case ReplaceByte(_, byte) => byte
      case SpecialValue(_, bytes) => bytes[i - offset / 8]
      case Increment(_, incr) => Incremented(b, incr)
    }

    /** The data after the operation. */
    function Apply(d: Bytes): (r: Bytes)
      requires Fits(|d|)
      ensures |r| == |d|
    {
      seq(|d|, i requires 0 <= i < |d| => NewByte(i, d[i]))
    }

    /** The in-place edit of the byte array: __call__ of the operation's class. */
    method Call(data: array<bv8>)
      requires Fits(data.Length)
      modifies data
      ensures data[..] == Apply(old(data[..]))
      ensures Wrote(this, old(data[..]), data[..])
    {
      ApplyWrites(this, data[..]);
      match this {
        case InverseBit(_) => CallInverseBit(data);
        case ReplaceByte(_, byte) => data[offset / 8] := byte;
        case SpecialValue(_, bytes) => CallSpecialValue(data);
        case Increment(_, incr) => CallIncrement(data);
      }
    }

    method CallInverseBit(data: array<bv8>)
      requires InverseBit? && Fits(data.Length)
      modifies data
      ensures data[..] == Apply(old(data[..]))
    {
      var mask := Mask(InByte(offset));
      var at := offset / 8;
      BranchesFlip(data[at], InByte(offset));
      if data[at] & mask != 0 {
        data[at] := data[at] & !mask;
      } else {
        data[at] := data[at] | mask;
      }
    }

    method CallSpecialValue(data: array<bv8>)
      requires SpecialValue? && Fits(data.Length)
      modifies data
      ensures data[..] == Apply(old(data[..]))
    {
      var at := offset / 8;
      forall j | 0 <= j < |bytes| {
        data[at + j] := bytes[j];
      }
    }

    method CallIncrement(data: array<bv8>)
      requires Increment? && Fits(data.Length)
      modifies data
      ensures data[..] == Apply(old(data[..]))
    {
      var at := offset / 8;
      data[at] := Incremented(data[at], incr);
    }
  }

  /** What an operation does with the bits it owns. */
  predicate Wrote(op: Operation, before: Bytes, after: Bytes)
    requires op.Fits(|before|) && |after| == |before|
  {
    var at := op.offset / 8;
    match op
    case InverseBit(offset) => Bit(after, offset) != Bit(before, offset)
    case ReplaceByte(_, byte) => after[at] == byte
    case SpecialValue(_, bytes) => after[at..at + |bytes|] == bytes
    case Increment(_, incr) =>
      var sum := before[at] as int + incr;
      after[at] as int == if sum < 0 then 0 else if sum > 255 then 255 else sum
  }

  lemma ApplyWrites(op: Operation, d: Bytes)
    requires op.Fits(|d|)
    ensures Wrote(op, d, op.Apply(d))
  {
    var at := op.offset / 8;
    match op
    case InverseBit(_) =>
      assert op.offset in op.Bits();
      ApplyFramesBits(op, d, op.offset);
    case ReplaceByte(_, _) =>
    case SpecialValue(_, bytes) => SpecialValueIsWritten(op, d);
    case Increment(_, incr) =>
      assert op.Apply(d)[at] == op.NewByte(at, d[at]);
      IncrementClamps(d[at], incr);
  }

  lemma SpecialValueIsWritten(op: Operation, d: Bytes)
    requires op.SpecialValue? && op.Fits(|d|)
    ensures op.Apply(d)[op.offset / 8..op.offset / 8 + |op.bytes|] == op.bytes
  {
  }

  lemma NextByte(b: bv8)
    requires b != 255
    ensures (b + 1) as int == b as int + 1
  {
  }

  lemma {:induction false} ByteWithValue(x: int) returns (b: bv8)
    requires 0 <= x < 256
    ensures b as int == x
  {
    if x == 0 {
      b := 0;
    } else {
      b := ByteWithValue(x - 1);
      NextByte(b);
      b := b + 1;
    }
  }

  lemma ByteOfItsValue(b: bv8)
    ensures (b as int) as bv8 == b
  {
  }

  lemma ByteOfNumber(x: int)
    requires 0 <= x < 256
    ensures (x as bv8) as int == x
  {
    var b := ByteWithValue(x);
    ByteOfItsValue(b);
  }

  lemma IncrementClamps(b: bv8, incr: int)
    ensures var sum := b as int + incr;
      Incremented(b, incr) as int == if sum < 0 then 0 else if sum > 255 then 255 else sum
  {
    ByteOfNumber(MinMax(0, b as int + incr, 255));
  }

  lemma BranchesFlip(b: bv8, k: bv3)
    ensures (if b & Mask(k) != 0 then b & !Mask(k) else b | Mask(k)) == b ^ Mask(k)
  {
  }

  ghost function BitRange(first: nat, count: nat): (r: set<nat>)
    ensures forall k :: k in r <==> first <= k < first + count
  {
    if count == 0 then {} else BitRange(first, count - 1) + {first + count - 1}
  }

  /** All operations applied to d, first operation first. */
  function ApplyAll(ops: seq<Operation>, d: Bytes): (r: Bytes)
    requires AllFit(ops, |d|)
    ensures |r| == |d|
  {
    if ops == [] then d
    else ops[|ops| - 1].Apply(ApplyAll(ops[..|ops| - 1], d))
  }

  predicate AllFit(ops: seq<Operation>, datalen: nat) {
    forall i | 0 <= i < |ops| :: ops[i].Fits(datalen)
  }

  ghost predicate Disjoint(a: Operation, b: Operation) {
    a.offset + a.Size() <= b.offset || b.offset + b.Size() <= a.offset
  }

  ghost predicate PairwiseDisjoint(ops: seq<Operation>) {
    forall i, j | 0 <= i < j < |ops| :: Disjoint(ops[i], ops[j])
  }

  ghost predicate DisjointFromAll(op: Operation, ops: seq<Operation>) {
    forall i | 0 <= i < |ops| :: Disjoint(op, ops[i])
  }

  /** The union of the bit ranges of the operations. */
  ghost function DirtyBits(ops: seq<Operation>): set<nat> {
    if ops == [] then {}
    else DirtyBits(ops[..|ops| - 1]) + ops[|ops| - 1].Bits()
  }

  // ---------- framing ----------

  lemma FlipChangesOneBit(b: bv8, k: bv3, j: bv3)
    ensures BitSet(b ^ Mask(k), j) <==> (if j == k then !BitSet(b, j) else BitSet(b, j))
  {
  }

  /** InverseBit flips its own bit, and no operation changes a bit it does not own. */
  lemma ApplyFramesBits(op: Operation, d: Bytes, k: nat)
    requires op.Fits(|d|) && k < 8 * |d|
    ensures k !in op.Bits() ==> Bit(op.Apply(d), k) == Bit(d, k)
    ensures op.InverseBit? && k in op.Bits() ==> Bit(op.Apply(d), k) != Bit(d, k)
  {
    assert op.Apply(d)[k / 8] == op.NewByte(k / 8, d[k / 8]);
    NewByteFramesBits(op, d[k / 8], k);
  }

  lemma NewByteFramesBits(op: Operation, b: bv8, k: nat)
    requires op.WellFormed()
    ensures k !in op.Bits() ==> BitSet(op.NewByte(k / 8, b), InByte(k)) == BitSet(b, InByte(k))
    ensures op.InverseBit? && k in op.Bits() ==> BitSet(op.NewByte(k / 8, b), InByte(k)) != BitSet(b, InByte(k))
  {
    var i := k / 8;
    if !op.Touches(i) {
      assert op.NewByte(i, b) == b;
    } else {
      if op.InverseBit? {
        FlipChangesOneBit(b, InByte(op.offset), InByte(k));
        SameBitIffSamePosition(op.offset, k);
      } else {
        WholeBytesTouched(op, k);
      }
    }
  }

  lemma WholeBytesTouched(op: Operation, k: nat)
    requires op.WellFormed() && !op.InverseBit? && op.Touches(k / 8)
    ensures k in op.Bits()
  {
  }

  lemma SameBitIffSamePosition(j: nat, k: nat)
    requires j / 8 == k / 8
    ensures InByte(j) == InByte(k) <==> j == k
  {
  }

  /** Every bit outside the dirty bits equals the original bit. */
  lemma {:induction false} ApplyAllFramesBits(ops: seq<Operation>, d: Bytes, k: nat)
    requires AllFit(ops, |d|) && k < 8 * |d|
    requires k !in DirtyBits(ops)
    ensures Bit(ApplyAll(ops, d), k) == Bit(d, k)
  {
    if ops != [] {
      var front := ops[..|ops| - 1];
      ApplyAllFramesBits(front, d, k);
      ApplyFramesBits(ops[|ops| - 1], ApplyAll(front, d), k);
    }
  }

  lemma {:induction false} DirtyBitsMembers(ops: seq<Operation>, k: nat)
    ensures k in DirtyBits(ops) <==> exists i :: 0 <= i < |ops| && k in ops[i].Bits()
  {
    if ops != [] {
      var front := ops[..|ops| - 1];
      DirtyBitsMembers(front, k);
      if k in DirtyBits(front) {
        var i :| 0 <= i < |front| && k in front[i].Bits();
        assert k in ops[i].Bits();
      } else if k in ops[|ops| - 1].Bits() {
        assert k in DirtyBits(ops);
      } else if i :| 0 <= i < |ops| && k in ops[i].Bits() {
        assert k in front[i].Bits();
      }
    }
  }

  /** The membership test of createOperation is exactly disjointness from every earlier operation. */
  lemma CleanIffDisjoint(op: Operation, ops: seq<Operation>)
    requires op.WellFormed() && forall i | 0 <= i < |ops| :: ops[i].WellFormed()
    ensures op.Bits() !! DirtyBits(ops) <==> DisjointFromAll(op, ops)
  {
    if DisjointFromAll(op, ops) {
      forall k | k in op.Bits() ensures k !in DirtyBits(ops) {
        DirtyBitsMembers(ops, k);
      }
    } else {
      var i :| 0 <= i < |ops| && !Disjoint(op, ops[i]);
      var shared := if op.offset < ops[i].offset then ops[i].offset else op.offset;
      assert shared in op.Bits() && shared in ops[i].Bits();
      DirtyBitsMembers(ops, shared);
    }
  }

  // ---------- commutation ----------

  lemma FlipsCommute(x: bv8, m: bv8, n: bv8)
    ensures x ^ m ^ n == x ^ n ^ m
  {
  }

  lemma OnlyBitFlipsShareAByte(a: Operation, b: Operation, i: nat)
    requires a.WellFormed() && b.WellFormed() && Disjoint(a, b)
    requires a.Touches(i) && b.Touches(i)
    ensures a.InverseBit? && b.InverseBit?
  {
  }

  lemma NewByteCommutes(a: Operation, b: Operation, i: nat, x: bv8)
    requires a.WellFormed() && b.WellFormed() && Disjoint(a, b)
    ensures a.NewByte(i, b.NewByte(i, x)) == b.NewByte(i, a.NewByte(i, x))
  {
    if a.Touches(i) && b.Touches(i) {
      OnlyBitFlipsShareAByte(a, b, i);
      FlipsCommute(x, Mask(InByte(a.offset)), Mask(InByte(b.offset)));
    }
  }

  lemma ApplyCommutes(a: Operation, b: Operation, d: Bytes)
    requires a.Fits(|d|) && b.Fits(|d|) && Disjoint(a, b)
    ensures a.Apply(b.Apply(d)) == b.Apply(a.Apply(d))
  {
    forall i | 0 <= i < |d|
      ensures a.Apply(b.Apply(d))[i] == b.Apply(a.Apply(d))[i]
    {
      NewByteCommutes(a, b, i, d[i]);
    }
  }

  lemma {:induction false} ApplyBeforeOrAfter(op: Operation, ops: seq<Operation>, d: Bytes)
    requires op.Fits(|d|) && AllFit(ops, |d|) && DisjointFromAll(op, ops)
    ensures op.Apply(ApplyAll(ops, d)) == ApplyAll(ops, op.Apply(d))
  {
    if ops != [] {
      var front := ops[..|ops| - 1];
      ApplyBeforeOrAfter(op, front, d);
      ApplyCommutes(op, ops[|ops| - 1], ApplyAll(front, d));
    }
  }

  lemma {:induction false} ApplyAllConcat(a: seq<Operation>, b: seq<Operation>, d: Bytes)
    requires AllFit(a, |d|) && AllFit(b, |d|)
    ensures AllFit(a + b, |d|)
    ensures ApplyAll(a + b, d) == ApplyAll(b, ApplyAll(a, d))
  {
    if b == [] {
      assert a + b == a;
    } else {
      assert (a + b)[..|a + b| - 1] == a + b[..|b| - 1];
      ApplyAllConcat(a, b[..|b| - 1], d);
    }
  }

  lemma ApplyAllStep(ops: seq<Operation>, op: Operation, d: Bytes)
    requires AllFit(ops, |d|) && op.Fits(|d|)
    ensures AllFit(ops + [op], |d|) && ApplyAll(ops + [op], d) == op.Apply(ApplyAll(ops, d))
  {
    assert (ops + [op])[..|ops|] == ops;
  }

  /** Calls the operations from index first on, on data that the earlier ones have edited already. */
  method CallFrom(ops: seq<Operation>, first: nat, data: array<bv8>, ghost d: Bytes)
    requires first <= |ops| && AllFit(ops, |d|) && data[..] == ApplyAll(ops[..first], d)
    modifies data
    ensures data[..] == ApplyAll(ops, d)
  {
    for i := first to |ops|
      invariant data[..] == ApplyAll(ops[..i], d)
    {
      ApplyAllStep(ops[..i], ops[i], d);
      assert ops[..i + 1] == ops[..i] + [ops[i]];
      ops[i].Call(data);
    }
    assert ops[..|ops|] == ops;
  }

  function Without(ops: seq<Operation>, i: nat): (r: seq<Operation>)
    requires i < |ops|
  {
    ops[..i] + ops[i + 1..]
  }

  lemma WithoutKeeps(ops: seq<Operation>, i: nat, datalen: nat)
    requires AllFit(ops, datalen) && PairwiseDisjoint(ops) && i < |ops|
    ensures AllFit(Without(ops, i), datalen)
    ensures PairwiseDisjoint(Without(ops, i))
    ensures DisjointFromAll(ops[i], Without(ops, i))
  {
    var rest := Without(ops, i);
    forall j | 0 <= j < |rest| ensures rest[j] == ops[if j < i then j else j + 1] {
    }
  }

  /** In a disjoint list, one operation can be moved first or last. */
  lemma MoveOne(ops: seq<Operation>, i: nat, d: Bytes)
    requires AllFit(ops, |d|) && PairwiseDisjoint(ops) && i < |ops|
    ensures AllFit(Without(ops, i), |d|)
    ensures ApplyAll(ops, d) == ops[i].Apply(ApplyAll(Without(ops, i), d))
    ensures ApplyAll(ops, d) == ApplyAll(Without(ops, i), ops[i].Apply(d))
  {
    WithoutKeeps(ops, i, |d|);
    ApplyBeforeOrAfter(ops[i], Without(ops, i), d);
    MoveLast(ops[..i], ops[i], ops[i + 1..], d);
    assert ops == ops[..i] + [ops[i]] + ops[i + 1..];
  }

  lemma MoveLast(before: seq<Operation>, op: Operation, after: seq<Operation>, d: Bytes)
    requires AllFit(before, |d|) && op.Fits(|d|) && AllFit(after, |d|) && DisjointFromAll(op, after)
    ensures AllFit(before + [op] + after, |d|) && AllFit(before + after, |d|)
    ensures ApplyAll(before + [op] + after, d) == op.Apply(ApplyAll(before + after, d))
  {
    var upTo := before + [op];
    assert upTo[..|upTo| - 1] == before;
    ApplyAllConcat(upTo, after, d);
    ApplyAllConcat(before, after, d);
    ApplyBeforeOrAfter(op, after, ApplyAll(before, d));
  }

  lemma PermutationStep(ops: seq<Operation>, perm: seq<Operation>) returns (i: nat)
    requires perm != [] && multiset(ops) == multiset(perm)
    ensures i < |ops| && ops[i] == perm[|perm| - 1]
    ensures multiset(Without(ops, i)) == multiset(perm[..|perm| - 1])
  {
    var front, last := perm[..|perm| - 1], perm[|perm| - 1];
    assert perm == front + [last];
    assert last in multiset(perm);
    i :| 0 <= i < |ops| && ops[i] == last;
    assert ops == ops[..i] + [last] + ops[i + 1..];
    var rest := multiset(Without(ops, i));
    assert multiset(ops) == rest + multiset{last};
    assert multiset(perm) == multiset(front) + multiset{last};
    assert rest == multiset(ops) - multiset{last};
    assert multiset(front) == multiset(perm) - multiset{last};
  }

  /** Disjoint operations may be applied in any order. */
  lemma {:induction false} AnyOrder(ops: seq<Operation>, perm: seq<Operation>, d: Bytes)
    requires AllFit(ops, |d|) && PairwiseDisjoint(ops)
    requires multiset(ops) == multiset(perm)
    ensures AllFit(perm, |d|)
    ensures ApplyAll(perm, d) == ApplyAll(ops, d)
    decreases |perm|
  {
    if perm == [] {
      assert |ops| == |multiset(ops)|;
    } else {
      var i := PermutationStep(ops, perm);
      MoveOne(ops, i, d);
      WithoutKeeps(ops, i, |d|);
      AnyOrder(Without(ops, i), perm[..|perm| - 1], d);
    }
  }

  /** No operation disturbs another: on its own bits, each one leaves what it alone would leave. */
  lemma EachOperationSurvives(ops: seq<Operation>, i: nat, d: Bytes, k: nat)
    requires AllFit(ops, |d|) && PairwiseDisjoint(ops) && i < |ops|
    requires k in ops[i].Bits()
    ensures Bit(ApplyAll(ops, d), k) == Bit(ops[i].Apply(d), k)
  {
    MoveOne(ops, i, d);
    WithoutKeeps(ops, i, |d|);
    var rest := Without(ops, i);
    assert k !in DirtyBits(rest) by {
      DirtyBitsMembers(rest, k);
    }
    ApplyAllFramesBits(rest, ops[i].Apply(d), k);
  }

  lemma {:induction false} ApplyAllFramesBytes(ops: seq<Operation>, d: Bytes, j: nat)
    requires AllFit(ops, |d|) && j < |d| && forall i | 0 <= i < |ops| :: !ops[i].Touches(j)
    ensures ApplyAll(ops, d)[j] == d[j]
  {
    if ops != [] {
      ApplyAllFramesBytes(ops[..|ops| - 1], d, j);
    }
  }

  /** In a list of disjoint operations each one writes just what it would write into the original bytes. */
  lemma EachOperationWrites(ops: seq<Operation>, i: nat, d: Bytes)
    requires AllFit(ops, |d|) && PairwiseDisjoint(ops) && i < |ops|
    ensures Wrote(ops[i], d, ApplyAll(ops, d))
  {
    var op := ops[i];
    ApplyWrites(op, d);
    if op.InverseBit? {
      assert op.offset in op.Bits();
      EachOperationSurvives(ops, i, d, op.offset);
    } else {
      forall j | op.offset / 8 <= j < op.offset / 8 + op.Size() / 8
        ensures ApplyAll(ops, d)[j] == op.Apply(d)[j]
      {
        OwnByteSurvives(ops, i, d, j);
      }
      WroteByOwnBytes(op, d, op.Apply(d), ApplyAll(ops, d));
    }
  }

  lemma OwnByteSurvives(ops: seq<Operation>, i: nat, d: Bytes, j: nat)
    requires AllFit(ops, |d|) && PairwiseDisjoint(ops) && i < |ops| && !ops[i].InverseBit?
    requires ops[i].offset / 8 <= j < ops[i].offset / 8 + ops[i].Size() / 8
    ensures j < |d| && ApplyAll(ops, d)[j] == ops[i].Apply(d)[j]
  {
    MoveOne(ops, i, d);
    WithoutKeeps(ops, i, |d|);
    assert ops[i].Touches(j);
    ApplyAllFramesBytes(Without(ops, i), ops[i].Apply(d), j);
  }

  lemma WroteByOwnBytes(op: Operation, d: Bytes, a: Bytes, b: Bytes)
    requires op.Fits(|d|) && !op.InverseBit? && |a| == |d| && |b| == |d| && Wrote(op, d, a)
    requires forall j | op.offset / 8 <= j < op.offset / 8 + op.Size() / 8 :: b[j] == a[j]
    ensures Wrote(op, d, b)
  {
    var at := op.offset / 8;
    if op.SpecialValue? {
      assert b[at..at + |op.bytes|] == a[at..at + |op.bytes|];
    }
  }

  // ---------- drawing an operation at random ----------

  datatype OperationKind = InverseBitKind | ReplaceByteKind | SpecialValueKind | IncrementKind

  /** The user-configurable attributes of the agent. */
  datatype Config = Config(
    minOffset: Option<int>,
    maxOffset: Option<int>,
    operations: seq<OperationKind>,
    operationPerVersion: int,
    maxVersion: int)

  function Max(a: int, b: int): int { if a < b then b else a }

  function Min(a: int, b: int): int { if a < b then a else b }

  /** First and last bit offset that createBitOffset draws from. */
  function BitWindow(agent: Config, datalen: int): (int, int) {
    (if agent.minOffset.Some? then Max(agent.minOffset.value * 8, 0) else 0,
     if agent.maxOffset.Some? then Min(agent.maxOffset.value * 8 + 7, datalen * 8 - 1) else datalen * 8 - 1)
  }

  /** First and last byte offset that createByteOffset draws from. */
  function ByteWindow(agent: Config, datalen: int): (int, int) {
    (if agent.minOffset.Some? then Max(agent.minOffset.value, 0) else 0,
     if agent.maxOffset.Some? then Min(agent.maxOffset.value, datalen - 1) else datalen - 1)
  }

  /** randint(low, high): any value of the range, or an exception (None) when the range is empty. */
  method RandInt(low: int, high: int) returns (r: Option<int>)
    ensures r.None? <==> low > high
    ensures r.Some? ==> low <= r.value <= high
  {
    if low > high {
      return None;
    }
    var value :| low <= value <= high;
    return Some(value);
  }

  method CreateBitOffset(agent: Config, datalen: int) returns (r: Option<int>)
    ensures r.None? <==> BitWindow(agent, datalen).0 > BitWindow(agent, datalen).1
    ensures r.Some? ==> BitWindow(agent, datalen).0 <= r.value <= BitWindow(agent, datalen).1
  {
    var minOffset := 0;
    if agent.minOffset.Some? {
      minOffset := Max(agent.minOffset.value * 8, minOffset);
    }
    var maxOffset := datalen * 8 - 1;
    if agent.maxOffset.Some? {
      maxOffset := Min(agent.maxOffset.value * 8 + 7, maxOffset);
    }
    r := RandInt(minOffset, maxOffset);
  }

  method CreateByteOffset(agent: Config, datalen: int) returns (r: Option<int>)
    ensures r.None? <==> ByteWindow(agent, datalen).0 > ByteWindow(agent, datalen).1
    ensures r.Some? ==> ByteWindow(agent, datalen).0 <= r.value <= ByteWindow(agent, datalen).1
  {
    var minOffset := 0;
    if agent.minOffset.Some? {
      minOffset := Max(agent.minOffset.value, minOffset);
    }
    var maxOffset := datalen - 1;
    if agent.maxOffset.Some? {
      maxOffset := Min(agent.maxOffset.value, maxOffset);
    }
    r := RandInt(minOffset, maxOffset);
  }

  ghost predicate InByteWindow(agent: Config, datalen: int, bitOffset: int) {
    bitOffset % 8 == 0 && ByteWindow(agent, datalen).0 <= bitOffset / 8 <= ByteWindow(agent, datalen).1
  }

  ghost predicate ByteWindowEmpty(agent: Config, datalen: int) {
    ByteWindow(agent, datalen).0 > ByteWindow(agent, datalen).1
  }

  ghost predicate SomeSpecialWindowEmpty(agent: Config, datalen: int) {
    exists s :: IsSpecialValue(s) && ByteWindowEmpty(agent, datalen - |s|)
  }

  // What the constructors of the operation classes may produce; None stands for their ValueError.

  ghost predicate PossibleInverseBit(agent: Config, datalen: int, r: Option<Operation>) {
    match r
    case None => BitWindow(agent, datalen).0 > BitWindow(agent, datalen).1
    case Some(op) => op.InverseBit? && BitWindow(agent, datalen).0 <= op.offset <= BitWindow(agent, datalen).1
  }

  ghost predicate PossibleReplaceByte(agent: Config, datalen: int, r: Option<Operation>) {
    match r
    case None => ByteWindowEmpty(agent, datalen - 1)
    case Some(op) => op.ReplaceByte? && InByteWindow(agent, datalen - 1, op.offset)
  }

  ghost predicate PossibleSpecialValue(agent: Config, datalen: int, r: Option<Operation>) {
    match r
    case None => SomeSpecialWindowEmpty(agent, datalen)
    case Some(op) =>
      op.SpecialValue? && IsSpecialValue(op.bytes) && InByteWindow(agent, datalen - |op.bytes|, op.offset)
  }

  ghost predicate PossibleIncrement(agent: Config, datalen: int, r: Option<Operation>) {
    match r
    case None => ByteWindowEmpty(agent, datalen - 1)
    case Some(op) =>
      && op.Increment? && op.incr != 0 && -MAX_INCR <= op.incr <= MAX_INCR
      && InByteWindow(agent, datalen - 1, op.offset)
  }

  ghost predicate PossibleDraw(kind: OperationKind, agent: Config, datalen: int, r: Option<Operation>) {
    match kind
    case InverseBitKind => PossibleInverseBit(agent, datalen, r)
    case ReplaceByteKind => PossibleReplaceByte(agent, datalen, r)
    case SpecialValueKind => PossibleSpecialValue(agent, datalen, r)
    case IncrementKind => PossibleIncrement(agent, datalen, r)
  }

  method CreateInverseBit(agent: Config, datalen: int) returns (r: Option<Operation>)
    ensures PossibleInverseBit(agent, datalen, r)
  {
    var offset := CreateBitOffset(agent, datalen);
    r := if offset.None? then None else Some(InverseBit(offset.value));
  }

  method CreateReplaceByte(agent: Config, datalen: int) returns (r: Option<Operation>)
    ensures PossibleReplaceByte(agent, datalen, r)
  {
    var offset := CreateByteOffset(agent, datalen - 1);
    var byte: bv8 := *;
    r := if offset.None? then None else Some(ReplaceByte(offset.value * 8, byte));
  }

  /** choice(SPECIAL_VALUES) */
  method ChooseSpecialValue() returns (bytes: Bytes)
    ensures IsSpecialValue(bytes)
  {
    var values := SpecialValues();
    var i :| 0 <= i < |values|;
    bytes := values[i];
    SpecialValuesMembers(bytes);
  }

  method CreateSpecialValue(agent: Config, datalen: int) returns (r: Option<Operation>)
    ensures PossibleSpecialValue(agent, datalen, r)
  {
    var bytes := ChooseSpecialValue();
    var offset := CreateByteOffset(agent, datalen - |bytes|);
    r := if offset.None? then None else Some(SpecialValue(offset.value * 8, bytes));
  }

  method CreateIncrement(agent: Config, datalen: int) returns (r: Option<Operation>)
    ensures PossibleIncrement(agent, datalen, r)
  {
    var incr: int :| 1 <= incr <= MAX_INCR;
    if * {
      incr := -incr;
    }
    var offset := CreateByteOffset(agent, datalen - 1);
    r := if offset.None? then None else Some(Increment(offset.value * 8, incr));
  }

  /** Calls the constructor of the chosen operation class. */
  method Draw(kind: OperationKind, agent: Config, datalen: int) returns (r: Option<Operation>)
    ensures PossibleDraw(kind, agent, datalen, r)
  {
    match kind {
      case InverseBitKind => r := CreateInverseBit(agent, datalen);
      case ReplaceByteKind => r := CreateReplaceByte(agent, datalen);
      case SpecialValueKind => r := CreateSpecialValue(agent, datalen);
      case IncrementKind => r := CreateIncrement(agent, datalen);
    }
  }

  /** Whatever the window and the data length, an operation that is drawn lies inside the data. */
  lemma DrawnOperationFits(kind: OperationKind, agent: Config, datalen: nat, op: Operation)
    requires PossibleDraw(kind, agent, datalen, Some(op))
    ensures op.Fits(datalen)
    ensures op.Increment? ==> 1 <= op.incr <= 8 || -8 <= op.incr <= -1
  {
    if kind.SpecialValueKind? {
      SpecialValueSizes(op.bytes);
    }
  }

  /** Some class of the agent may draw the operation. */
  ghost predicate Drawable(agent: Config, datalen: int, op: Operation) {
    exists kind :: kind in agent.operations && PossibleDraw(kind, agent, datalen, Some(op))
  }

  /** A drawn operation starts inside the user's offset window; only a special value may end after it. */
  lemma DrawnOperationStartsInWindow(agent: Config, datalen: int, op: Operation)
    requires Drawable(agent, datalen, op)
    ensures agent.minOffset.Some? ==> agent.minOffset.value <= op.offset / 8
    ensures agent.maxOffset.Some? ==> op.offset / 8 <= agent.maxOffset.value
    ensures agent.maxOffset.Some? && !op.SpecialValue? ==> op.offset + op.Size() <= 8 * (agent.maxOffset.value + 1)
  {
  }

  /** The offset window, cut to the data, leaves room for an operation of the given byte margin. */
  predicate Room(agent: Config, datalen: int, margin: int) {
    var low := if agent.minOffset.Some? then Max(agent.minOffset.value, 0) else 0;
    && low <= datalen - margin
    && (agent.maxOffset.Some? ==> low <= agent.maxOffset.value)
  }

  /** Bytes the window must leave free for the kind: the largest special value needs five. */
  function Margin(kind: OperationKind): int {
    match kind
    case InverseBitKind => 1
    case ReplaceByteKind => 2
    case SpecialValueKind => 5
    case IncrementKind => 2
  }

  lemma SpecialValueNeverRaisesIffRoom(agent: Config, datalen: int)
    ensures !SomeSpecialWindowEmpty(agent, datalen) <==> Room(agent, datalen, 5)
  {
    if Room(agent, datalen, 5) {
      forall s | IsSpecialValue(s) ensures !ByteWindowEmpty(agent, datalen - |s|) {
        SpecialValueSizes(s);
      }
    } else {
      var widest := BigEndianValue(6);
      assert IsValueOrReversal(6, widest) && |widest| == 4;
      assert ByteWindowEmpty(agent, datalen - |widest|);
    }
  }

  /** A draw can raise exactly when the offset window leaves too little room. */
  lemma DrawNeverRaisesIffRoom(kind: OperationKind, agent: Config, datalen: int)
    ensures !PossibleDraw(kind, agent, datalen, None) <==> Room(agent, datalen, Margin(kind))
  {
    if kind.SpecialValueKind? {
      SpecialValueNeverRaisesIffRoom(agent, datalen);
    }
  }
}
