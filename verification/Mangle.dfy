/**
 The file mangler of fusil/fusil/mangle.py: a number of random edits, some of which insert or
 delete bytes.  A ValueError of a random choice is None.
 */
module Mangle {
  import opened Wrappers
  import Ops = MangleOperations

  type Bytes = seq<bv8>

  /** The functions mangle_replace, mangle_bit, and so on. */
  datatype Name = Replace | Bit | SpecialValue | Increment | InsertBytes | DeleteBytes

  datatype MangleConfig = MangleConfig(
    minOp: int, maxOp: int, maxInsertBytes: int, maxDeleteBytes: int, maxIncr: int,
    firstOffset: nat, changeSize: bool, operations: seq<Name>)
  {
    /** The operations of a run: those of the user, or the default ones. */
    function Names(): (r: seq<Name>)
      ensures r != []
    {
      if operations != [] then operations
      else [Replace, Bit, SpecialValue] + if changeSize then [InsertBytes, DeleteBytes] else []
    }
  }

  // ---------- edits ----------

  datatype Edit =
    | Write(offset: nat, bytes: Bytes)
    | Insert(offset: nat, bytes: Bytes)
    | Delete(offset: nat, count: nat)
  {
    /** The bytes that come in at the offset. */
    function Added(): Bytes {
      if Delete? then [] else bytes
    }

    /** The number of bytes that go there. */
    function Removed(): nat {
      match this
      case Write(_, bytes) => |bytes|
      case Insert(_, _) => 0
      case Delete(_, count) => count
    }

    predicate Fits(datalen: nat) {
      offset + Removed() <= datalen
    }

    function Apply(d: Bytes): (r: Bytes)
      requires Fits(|d|)
      ensures |r| == |d| + |Added()| - Removed()
    {
      d[..offset] + Added() + d[offset + Removed()..]
    }
  }

  /** What an edit does: bytes are written over others, put between others, or taken out. */
  ghost predicate HasEffect(e: Edit, before: Bytes, after: Bytes)
    requires e.Fits(|before|)
  {
    && e.offset <= |after| && after[..e.offset] == before[..e.offset]
    && match e
       case Write(offset, bytes) =>
         && |after| == |before| && after[offset..offset + |bytes|] == bytes
         && after[offset + |bytes|..] == before[offset + |bytes|..]
       case Insert(offset, bytes) =>
         && |after| == |before| + |bytes| && after[offset..offset + |bytes|] == bytes
         && after[offset + |bytes|..] == before[offset..]
       case Delete(offset, count) =>
         after[offset..] == before[offset + count..]
  }

  lemma ApplyHasEffect(e: Edit, d: Bytes)
    requires e.Fits(|d|)
    ensures HasEffect(e, d, e.Apply(d))
  {
  }

  /** The edits an operation may make. */
  ghost predicate Possible(c: MangleConfig, name: Name, d: Bytes, e: Edit) {
    && c.firstOffset <= e.offset < |d| && e.Fits(|d|)
    && match name
       case Replace => e.Write? && |e.bytes| == 1
       case Bit => e.Write? && exists k :: ChangesBit(d[e.offset], e.bytes, k)
       case SpecialValue => e.Write? && Ops.IsSpecialValue(e.bytes)
       case Increment => e.Write? && exists incr :: Increments(d[e.offset], e.bytes, incr, c.maxIncr)
       case InsertBytes => e.Insert? && 1 <= |e.bytes| <= c.maxInsertBytes
       case DeleteBytes => e.Delete? && e.offset <= |d| - 2 && 1 <= e.count <= c.maxDeleteBytes
  }

  /** Bit k alone may change. */
  ghost predicate ChangesBit(b: bv8, bytes: Bytes, k: bv3) {
    |bytes| == 1 && forall j: bv3 | j != k :: Ops.BitSet(bytes[0], j) == Ops.BitSet(b, j)
  }

  ghost predicate Increments(b: bv8, bytes: Bytes, incr: int, maxIncr: int) {
    && incr != 0 && -maxIncr <= incr <= maxIncr && |bytes| == 1
    && var sum := b as int + incr;
       bytes[0] as int == if sum < 0 then 0 else if sum > 255 then 255 else sum
  }

  /** Some random choice of the operation raises. */
  ghost predicate MayRaise(c: MangleConfig, name: Name, datalen: nat) {
    match name
    case SpecialValue => exists bytes :: Ops.IsSpecialValue(bytes) && datalen - |bytes| < c.firstOffset
    case Increment => c.maxIncr < 1 || datalen - 1 < c.firstOffset
    case InsertBytes => c.maxInsertBytes < 1 || datalen - 1 < c.firstOffset
    case DeleteBytes => c.maxDeleteBytes < 1 || datalen - 2 < c.firstOffset
    case _ => datalen - 1 < c.firstOffset
  }

  lemma SetBitFrame(b: bv8, k: bv3, j: bv3)
    requires j != k
    ensures Ops.BitSet(b | Ops.Mask(k), j) == Ops.BitSet(b, j)
  {
  }

  lemma ClearBitFrame(b: bv8, k: bv3, j: bv3)
    requires j != k
    ensures Ops.BitSet(b & !Ops.Mask(k), j) == Ops.BitSet(b, j)
  {
  }

  /** How one call of an operation may end: no edit when it raises. */
  ghost predicate Permits(c: MangleConfig, name: Name, before: Bytes, edit: Option<Edit>, after: Bytes) {
    match edit
    case None => MayRaise(c, name, |before|) && after == before
    case Some(e) => Possible(c, name, before, e) && after == e.Apply(before) && HasEffect(e, before, after)
  }

  class Mangle {
    const config: MangleConfig
    var data: Bytes

    constructor (config: MangleConfig, data: Bytes)
      ensures this.config == config && this.data == data
    {
      this.config, this.data := config, data;
    }

    method Offset(last: nat) returns (r: Option<nat>)
      ensures r.None? <==> |data| - last < config.firstOffset
      ensures r.Some? ==> config.firstOffset <= r.value <= |data| - last
    {
      if |data| - last < config.firstOffset {
        return None;
      }
      var offset: nat :| config.firstOffset <= offset <= |data| - last;
      return Some(offset);
    }

    method MangleReplace() returns (edit: Option<Edit>)
      modifies `data
      ensures Permits(config, Replace, old(data), edit, data)
    {
      var offset := Offset(1);
      if offset.None? {
        return None;
      }
      var byte: bv8 := *;
      data := data[offset.value := byte];
      edit := Some(Write(offset.value, [byte]));
      ApplyHasEffect(edit.value, old(data));
    }

    method MangleBit() returns (edit: Option<Edit>)
      modifies `data
      ensures Permits(config, Bit, old(data), edit, data)
    {
      var offset := Offset(1);
      if offset.None? {
        return None;
      }
      var bit: bv3 := *;
      var byte := data[offset.value];
      var value := ChangeBit(byte, bit);
      data := data[offset.value := value];
      assert ChangesBit(byte, [value], bit);
      edit := Some(Write(offset.value, [value]));
      ApplyHasEffect(edit.value, old(data));
    }

    method ChangeBit(byte: bv8, bit: bv3) returns (value: bv8)
      ensures ChangesBit(byte, [value], bit)
    {
      if * {
        value := byte | Ops.Mask(bit);
        forall j: bv3 | j != bit ensures Ops.BitSet(value, j) == Ops.BitSet(byte, j) {
          SetBitFrame(byte, bit, j);
        }
      } else {
        value := byte & !Ops.Mask(bit);
        forall j: bv3 | j != bit ensures Ops.BitSet(value, j) == Ops.BitSet(byte, j) {
          ClearBitFrame(byte, bit, j);
        }
      }
    }

    method MangleSpecialValue() returns (edit: Option<Edit>)
      modifies `data
      ensures Permits(config, SpecialValue, old(data), edit, data)
    {
      var text := Ops.ChooseSpecialValue();
      Ops.SpecialValueSizes(text);
      var offset := Offset(|text|);
      if offset.None? {
        return None;
      }
      data := data[..offset.value] + text + data[offset.value + |text|..];
      edit := Some(Write(offset.value, text));
      ApplyHasEffect(edit.value, old(data));
    }

    method MangleIncrement() returns (edit: Option<Edit>)
      modifies `data
      ensures Permits(config, Increment, old(data), edit, data)
    {
      var incr := Ops.RandInt(1, config.maxIncr);
      if incr.None? {
        return None;
      }
      var signed := incr.value;
      if * {
        signed := -signed;
      }
      var offset := Offset(1);
      if offset.None? {
        return None;
      }
      var value := AddToByte(data[offset.value], signed);
      data := data[offset.value := value];
      edit := Some(Write(offset.value, [value]));
      ApplyHasEffect(edit.value, old(data));
    }

    method AddToByte(byte: bv8, incr: int) returns (value: bv8)
      requires incr != 0 && -config.maxIncr <= incr <= config.maxIncr
      ensures Increments(byte, [value], incr, config.maxIncr)
    {
      value := Ops.Incremented(byte, incr);
      Ops.IncrementClamps(byte, incr);
    }

    method MangleInsertBytes() returns (edit: Option<Edit>)
      modifies `data
      ensures Permits(config, InsertBytes, old(data), edit, data)
    {
      var offset := Offset(1);
      if offset.None? {
        return None;
      }
      var count := Ops.RandInt(1, config.maxInsertBytes);
      if count.None? {
        return None;
      }
      var inserted := [];
      for index := 0 to count.value
        invariant |inserted| == index
        invariant data == old(data)[..offset.value] + inserted + old(data)[offset.value..]
      {
        var byte: bv8 := *;
        data := data[..offset.value] + [byte] + data[offset.value..];
        inserted := [byte] + inserted;
      }
      edit := Some(Insert(offset.value, inserted));
      ApplyHasEffect(edit.value, old(data));
    }

    method MangleDeleteBytes() returns (edit: Option<Edit>)
      modifies `data
      ensures Permits(config, DeleteBytes, old(data), edit, data)
    {
      var offset := Offset(2);
      if offset.None? {
        return None;
      }
      var drawn := Ops.RandInt(1, config.maxDeleteBytes);
      if drawn.None? {
        return None;
      }
      var count := Ops.Min(drawn.value, |data| - offset.value);
      data := data[..offset.value] + data[offset.value + count..];
      edit := Some(Delete(offset.value, count));
      ApplyHasEffect(edit.value, old(data));
    }

    method Call(name: Name) returns (edit: Option<Edit>)
      modifies `data
      ensures Permits(config, name, old(data), edit, data)
    {
      match name {
        case Replace => edit := MangleReplace();
        case Bit => edit := MangleBit();
        case SpecialValue => edit := MangleSpecialValue();
        case Increment => edit := MangleIncrement();
        case InsertBytes => edit := MangleInsertBytes();
        case DeleteBytes => edit := MangleDeleteBytes();
      }
    }

    /** The number of operations, or None when a choice raises; the edits made until then are in the data. */
    method Run() returns (count: Option<int>, ghost edits: seq<Edit>, ghost states: seq<Bytes>)
      modifies `data
      ensures IsTrace(config, edits, states) && states[0] == old(data) && states[|edits|] == data
      ensures config.maxOp <= 0 ==> count == Some(0) && edits == []
      ensures config.maxOp > 0 && count.Some? ==>
        config.minOp <= count.value <= config.maxOp && |edits| == Ops.Max(count.value, 0)
      ensures count.None? ==> config.maxOp < config.minOp || EndsInRaise(config, config.maxOp, edits, states)
    {
      edits, states := [], [data];
      if config.maxOp <= 0 {
        return Some(0), edits, states;
      }
      count := Ops.RandInt(config.minOp, config.maxOp);
      if count.None? {
        return;
      }
      var operations := config.Names();
      for index := 0 to Ops.Max(count.value, 0)
        invariant |edits| == index && IsTrace(config, edits, states)
        invariant states[0] == old(data) && states[index] == data
      {
        var edit := CallOne(operations);
        if edit.None? {
          return None, edits, states;
        }
        TraceGrows(config, edits, states, edit.value, data);
        edits, states := edits + [edit.value], states + [data];
      }
    }

    /** An operation chosen at random. */
    method CallOne(operations: seq<Name>) returns (edit: Option<Edit>)
      requires operations == config.Names()
      modifies `data
      ensures edit.None? ==> data == old(data) && SomeMayRaise(config, |data|)
      ensures edit.Some? ==> IsEdit(config, old(data), edit.value, data)
    {
      var choice :| 0 <= choice < |operations|;
      edit := Call(operations[choice]);
      assert operations[choice] in config.Names();
    }
  }

  // ---------- runs ----------

  ghost predicate IsEdit(c: MangleConfig, before: Bytes, e: Edit, after: Bytes) {
    exists name :: name in c.Names() && Possible(c, name, before, e) && after == e.Apply(before)
  }

  /** states[i] is the data after i edits, each made by one of the operations. */
  ghost predicate IsTrace(c: MangleConfig, edits: seq<Edit>, states: seq<Bytes>) {
    |states| == |edits| + 1 && forall i | 0 <= i < |edits| :: IsEdit(c, states[i], edits[i], states[i + 1])
  }

  /** After fewer edits than count, some operation may raise. */
  ghost predicate EndsInRaise(c: MangleConfig, count: int, edits: seq<Edit>, states: seq<Bytes>) {
    && IsTrace(c, edits, states) && |edits| < count
    && SomeMayRaise(c, |states[|edits|]|)
  }

  lemma TraceGrows(c: MangleConfig, edits: seq<Edit>, states: seq<Bytes>, e: Edit, after: Bytes)
    requires IsTrace(c, edits, states) && IsEdit(c, states[|edits|], e, after)
    ensures IsTrace(c, edits + [e], states + [after])
  {
    var es, ss := edits + [e], states + [after];
    forall i | 0 <= i < |es| ensures IsEdit(c, ss[i], es[i], ss[i + 1]) {
      if i < |edits| {
        assert IsEdit(c, states[i], edits[i], states[i + 1]);
      }
    }
  }

  lemma TraceFront(c: MangleConfig, edits: seq<Edit>, states: seq<Bytes>)
    requires IsTrace(c, edits, states) && edits != []
    ensures var n := |edits| - 1;
      IsTrace(c, edits[..n], states[..n + 1]) && IsEdit(c, states[n], edits[n], states[n + 1])
  {
  }

  // ---------- what a run keeps ----------

  /** Nothing before first_offset changes. */
  lemma {:induction false} HeaderStays(c: MangleConfig, edits: seq<Edit>, states: seq<Bytes>)
    requires IsTrace(c, edits, states) && edits != []
    ensures c.firstOffset <= |states[0]| && c.firstOffset <= |states[|edits|]|
    ensures states[|edits|][..c.firstOffset] == states[0][..c.firstOffset]
  {
    var n := |edits| - 1;
    TraceFront(c, edits, states);
    if n > 0 {
      HeaderStays(c, edits[..n], states[..n + 1]);
    }
  }

  /** The most bytes one operation can add, and the most it can remove. */
  function Growth(c: MangleConfig): nat {
    if InsertBytes in c.Names() then Ops.Max(c.maxInsertBytes, 0) else 0
  }

  function Shrinkage(c: MangleConfig): nat {
    if DeleteBytes in c.Names() then Ops.Max(c.maxDeleteBytes, 0) else 0
  }

  lemma EditChangesLength(c: MangleConfig, before: Bytes, e: Edit, after: Bytes)
    requires IsEdit(c, before, e, after)
    ensures |before| - Shrinkage(c) <= |after| <= |before| + Growth(c)
  {
    var name :| name in c.Names() && Possible(c, name, before, e) && after == e.Apply(before);
  }

  /** The length moves within the limits of the configuration, and not at all without insert and delete. */
  lemma {:induction false} LengthIsBounded(c: MangleConfig, edits: seq<Edit>, states: seq<Bytes>)
    requires IsTrace(c, edits, states)
    ensures |states[0]| - Shrinkage(c) * |edits| <= |states[|edits|]| <= |states[0]| + Growth(c) * |edits|
  {
    if edits != [] {
      var n := |edits| - 1;
      TraceFront(c, edits, states);
      LengthIsBounded(c, edits[..n], states[..n + 1]);
      EditChangesLength(c, states[n], edits[n], states[n + 1]);
      assert Growth(c) * (n + 1) == Growth(c) * n + Growth(c);
      assert Shrinkage(c) * (n + 1) == Shrinkage(c) * n + Shrinkage(c);
    }
  }

  /** By default no operation inserts or deletes: the length stays. */
  lemma DefaultKeepsLength(c: MangleConfig, edits: seq<Edit>, states: seq<Bytes>)
    requires IsTrace(c, edits, states) && c.operations == [] && !c.changeSize
    ensures |states[|edits|]| == |states[0]|
  {
    LengthIsBounded(c, edits, states);
    assert Growth(c) == 0 && Shrinkage(c) == 0;
  }

  /**
   Where the bytes of mangled data come from: the position in the original data, or -1 for a byte
   that was written.
   */
  ghost predicate Origins(origin: seq<int>, original: Bytes, d: Bytes) {
    && |origin| == |d|
    && (forall i | 0 <= i < |d| && origin[i] >= 0 :: origin[i] < |original| && d[i] == original[origin[i]])
    && (forall i, j | 0 <= i < j < |d| && origin[i] >= 0 && origin[j] >= 0 :: origin[i] < origin[j])
  }

  /** How many bytes are left of the original. */
  function Survivors(origin: seq<int>): (n: nat)
    ensures n <= |origin|
  {
    if origin == [] then 0
    else Survivors(origin[..|origin| - 1]) + if origin[|origin| - 1] >= 0 then 1 else 0
  }

  lemma {:induction false} SurvivorsConcat(a: seq<int>, b: seq<int>)
    ensures Survivors(a + b) == Survivors(a) + Survivors(b)
  {
    if b == [] {
      assert a + b == a;
    } else {
      SurvivorsConcat(a, b[..|b| - 1]);
      assert (a + b)[..|a + b| - 1] == a + b[..|b| - 1];
    }
  }

  lemma SurvivorsOfThree(a: seq<int>, b: seq<int>, c: seq<int>)
    ensures Survivors(a + b + c) == Survivors(a) + Survivors(b) + Survivors(c)
  {
    SurvivorsConcat(a + b, c);
    SurvivorsConcat(a, b);
  }

  /** The origins of the bytes after an edit. */
  function Moved(origin: seq<int>, e: Edit): seq<int>
    requires e.Fits(|origin|)
  {
    origin[..e.offset] + seq(|e.Added()|, _ => -1) + origin[e.offset + e.Removed()..]
  }

  /** Byte i of edited data is new, or comes from the data before. */
  function Source(e: Edit, i: nat): int {
    if i < e.offset then i else if i < e.offset + |e.Added()| then -1 else i - |e.Added()| + e.Removed()
  }

  lemma MovedAt(origin: seq<int>, d: Bytes, e: Edit, i: nat)
    requires |origin| == |d| && e.Fits(|d|) && i < |e.Apply(d)|
    ensures |Moved(origin, e)| == |e.Apply(d)| && Source(e, i) < |d|
    ensures Moved(origin, e)[i] == if Source(e, i) < 0 then -1 else origin[Source(e, i)]
    ensures Source(e, i) >= 0 ==> e.Apply(d)[i] == d[Source(e, i)]
  {
  }

  lemma MovedOrigins(origin: seq<int>, original: Bytes, d: Bytes, e: Edit)
    requires Origins(origin, original, d) && e.Fits(|d|)
    ensures Origins(Moved(origin, e), original, e.Apply(d))
  {
    var after, moved := e.Apply(d), Moved(origin, e);
    forall i | 0 <= i < |after|
      ensures moved[i] == if Source(e, i) < 0 then -1 else origin[Source(e, i)]
      ensures Source(e, i) < |d| && (Source(e, i) >= 0 ==> after[i] == d[Source(e, i)])
    {
      MovedAt(origin, d, e, i);
    }
  }

  /** An edit loses no more bytes than it removes. */
  lemma {:induction false} MovedSurvivors(origin: seq<int>, e: Edit)
    requires e.Fits(|origin|)
    ensures Survivors(Moved(origin, e)) >= Survivors(origin) - e.Removed()
  {
    var end := e.offset + e.Removed();
    var left, gone, right := origin[..e.offset], origin[e.offset..end], origin[end..];
    assert origin == left + gone + right;
    SurvivorsOfThree(left, gone, right);
    var written := seq(|e.Added()|, _ => -1);
    assert Moved(origin, e) == left + written + right;
    SurvivorsOfThree(left, written, right);
  }

  /** The most bytes of the original one operation can lose. */
  function Damage(c: MangleConfig): nat {
    Ops.Max(if SpecialValue in c.Names() then 4 else 1, Shrinkage(c))
  }

  lemma RemovedIsBounded(c: MangleConfig, before: Bytes, e: Edit, after: Bytes)
    requires IsEdit(c, before, e, after)
    ensures e.Fits(|before|) && after == e.Apply(before) && e.Removed() <= Damage(c)
  {
    var name :| name in c.Names() && Possible(c, name, before, e) && after == e.Apply(before);
    if name.SpecialValue? {
      Ops.SpecialValueSizes(e.bytes);
    }
  }

  /** n bytes at least are left of the original, in their order. */
  ghost predicate Keeps(original: Bytes, d: Bytes, n: int) {
    exists origin :: Origins(origin, original, d) && Survivors(origin) >= n
  }

  lemma EditKeepsMost(c: MangleConfig, original: Bytes, before: Bytes, e: Edit, after: Bytes, n: int)
    requires IsEdit(c, before, e, after) && Keeps(original, before, n)
    ensures Keeps(original, after, n - Damage(c))
  {
    var origin :| Origins(origin, original, before) && Survivors(origin) >= n;
    RemovedIsBounded(c, before, e, after);
    MovedOrigins(origin, original, before, e);
    MovedSurvivors(origin, e);
  }

  lemma {:induction false} AllSurvive(n: nat)
    ensures Survivors(seq(n, i => i)) == n
  {
    if n > 0 {
      AllSurvive(n - 1);
      assert seq(n, i => i)[..n - 1] == seq(n - 1, i => i);
    }
  }

  /** After a run, all but Damage(c) bytes per edit are left of the original, in their order. */
  lemma {:induction false} RunKeepsMost(c: MangleConfig, edits: seq<Edit>, states: seq<Bytes>)
    requires IsTrace(c, edits, states)
    ensures Keeps(states[0], states[|edits|], |states[0]| - Damage(c) * |edits|)
  {
    if edits == [] {
      AllSurvive(|states[0]|);
      assert Origins(seq(|states[0]|, i => i), states[0], states[0]);
    } else {
      var n := |edits| - 1;
      TraceFront(c, edits, states);
      RunKeepsMost(c, edits[..n], states[..n + 1]);
      EditKeepsMost(c, states[0], states[n], edits[n], states[n + 1], |states[0]| - Damage(c) * n);
      assert Damage(c) * (n + 1) == Damage(c) * n + Damage(c);
    }
  }

  // ---------- when a run may raise ----------

  /** Some operation can never be drawn, however long the data is. */
  predicate BadLimits(c: MangleConfig) {
    || (Increment in c.Names() && c.maxIncr < 1)
    || (InsertBytes in c.Names() && c.maxInsertBytes < 1)
    || (DeleteBytes in c.Names() && c.maxDeleteBytes < 1)
  }

  /** The bytes some operation needs after first_offset. */
  function Need(c: MangleConfig): nat {
    if SpecialValue in c.Names() then 4 else if DeleteBytes in c.Names() then 2 else 1
  }

  ghost predicate SomeMayRaise(c: MangleConfig, datalen: nat) {
    exists name :: name in c.Names() && MayRaise(c, name, datalen)
  }

  lemma SomeMayRaiseIff(c: MangleConfig, datalen: nat)
    ensures SomeMayRaise(c, datalen) <==> BadLimits(c) || datalen - c.firstOffset < Need(c)
  {
    assert c.Names()[0] in c.Names();
    assert Ops.IsValueOrReversal(6, Ops.BigEndianValue(6));
    if SomeMayRaise(c, datalen) {
      var name :| name in c.Names() && MayRaise(c, name, datalen);
      if name.SpecialValue? {
        var bytes :| Ops.IsSpecialValue(bytes) && datalen - |bytes| < c.firstOffset;
        Ops.SpecialValueSizes(bytes);
      }
    } else {
      assert SpecialValue in c.Names() ==> !MayRaise(c, SpecialValue, datalen);
      assert DeleteBytes in c.Names() ==> !MayRaise(c, DeleteBytes, datalen);
      assert InsertBytes in c.Names() ==> !MayRaise(c, InsertBytes, datalen);
      assert Increment in c.Names() ==> !MayRaise(c, Increment, datalen);
      assert !MayRaise(c, c.Names()[0], datalen);
    }
  }

  /** The default operations need four bytes, and limits of at least one when they may change the size. */
  lemma DefaultMayRaiseIff(c: MangleConfig, datalen: nat)
    requires c.operations == []
    ensures SomeMayRaise(c, datalen) <==>
      datalen - c.firstOffset < 4 || (c.changeSize && (c.maxInsertBytes < 1 || c.maxDeleteBytes < 1))
  {
    SomeMayRaiseIff(c, datalen);
    assert c.Names()[2] == SpecialValue;
    assert c.changeSize ==> c.Names()[3] == InsertBytes && c.Names()[4] == DeleteBytes;
  }

  /** Some run of count operations raises. */
  ghost predicate RunMayRaise(c: MangleConfig, count: int, d: Bytes) {
    exists edits, states :: EndsInRaise(c, count, edits, states) && states[0] == d
  }

  /** The deletion of as many bytes as can be, at first_offset. */
  lemma DeleteMost(c: MangleConfig, d: Bytes) returns (e: Edit, after: Bytes)
    requires DeleteBytes in c.Names() && c.maxDeleteBytes >= 1 && c.firstOffset + 2 <= |d|
    ensures IsEdit(c, d, e, after)
    ensures |after| == Ops.Max(|d| - c.maxDeleteBytes, c.firstOffset)
  {
    e := Delete(c.firstOffset, Ops.Min(c.maxDeleteBytes, |d| - c.firstOffset));
    after := e.Apply(d);
    assert Possible(c, DeleteBytes, d, e);
  }

  lemma PrependEdit(c: MangleConfig, count: int, d: Bytes, e: Edit, edits: seq<Edit>, states: seq<Bytes>)
    requires EndsInRaise(c, count, edits, states) && IsEdit(c, d, e, states[0])
    ensures EndsInRaise(c, count + 1, [e] + edits, [d] + states)
  {
    var es, ss := [e] + edits, [d] + states;
    forall i | 0 <= i < |es| ensures IsEdit(c, ss[i], es[i], ss[i + 1]) {
      if i > 0 {
        assert IsEdit(c, states[i - 1], edits[i - 1], states[i]);
      }
    }
    assert ss[|es|] == states[|edits|];
  }

  lemma StillTooShort(c: MangleConfig, count: nat, datalen: nat, after: nat)
    requires !BadLimits(c) && c.firstOffset + Need(c) <= datalen
    requires datalen - c.firstOffset - Shrinkage(c) * (count - 1) < Need(c)
    requires after == Ops.Max(datalen - Shrinkage(c), c.firstOffset)
    ensures count >= 2 && after - c.firstOffset - Shrinkage(c) * (count - 2) < Need(c)
    ensures DeleteBytes in c.Names()
  {
    assert Shrinkage(c) * (count - 1) == Shrinkage(c) * (count - 2) + Shrinkage(c);
  }

  lemma {:induction false} DeletionsMayRaise(c: MangleConfig, count: nat, d: Bytes)
    requires count > 0
    requires BadLimits(c) || |d| - c.firstOffset - Shrinkage(c) * (count - 1) < Need(c)
    ensures RunMayRaise(c, count, d)
    decreases count
  {
    SomeMayRaiseIff(c, |d|);
    if SomeMayRaise(c, |d|) {
      assert EndsInRaise(c, count, [], [d]);
    } else {
      var e, after := DeleteMost(c, d);
      StillTooShort(c, count, |d|, |after|);
      DeletionsMayRaise(c, count - 1, after);
      var edits, states :| EndsInRaise(c, count - 1, edits, states) && states[0] == after;
      PrependEdit(c, count - 1, d, e, edits, states);
    }
  }

  lemma {:induction false} RaiseNeedsShortData(c: MangleConfig, count: nat, edits: seq<Edit>, states: seq<Bytes>)
    requires EndsInRaise(c, count, edits, states)
    ensures BadLimits(c) || |states[0]| - c.firstOffset - Shrinkage(c) * (count - 1) < Need(c)
  {
    SomeMayRaiseIff(c, |states[|edits|]|);
    LengthIsBounded(c, edits, states);
    assert Shrinkage(c) * |edits| <= Shrinkage(c) * (count - 1);
  }

  /**
   A run of count operations may raise if and only if a limit is below one, or the data after
   first_offset is too short for some operation once all earlier ones deleted what they can.
   */
  lemma {:induction false} RunMayRaiseIff(c: MangleConfig, count: nat, d: Bytes)
    ensures RunMayRaise(c, count, d) <==>
      count > 0 && (BadLimits(c) || |d| - c.firstOffset - Shrinkage(c) * (count - 1) < Need(c))
  {
    if RunMayRaise(c, count, d) {
      var edits, states :| EndsInRaise(c, count, edits, states) && states[0] == d;
      RaiseNeedsShortData(c, count, edits, states);
    } else if count > 0 && (BadLimits(c) || |d| - c.firstOffset - Shrinkage(c) * (count - 1) < Need(c)) {
      DeletionsMayRaise(c, count, d);
    }
  }
}
