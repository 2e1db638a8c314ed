/**
 The incremental mangler of fusil/fusil/incr_mangle.py: a chain of versions of one source file,
 each an extension of the previous list of edit operations, with a cache of the edited bytes.
 */
module IncrMangle {
  import opened Wrappers
  import opened MangleOperations
  import opened MangleCapacity

  const MAX_TRY := 25000

  /** A list of operations every version may hold for data of the given length. */
  ghost predicate Sound(ops: seq<Operation>, datalen: nat) {
    AllFit(ops, datalen) && PairwiseDisjoint(ops)
  }

  /** One call of createOperation: an exception, None for an operation on dirty bits, or a new operation. */
  datatype Attempt = Raised | Refused(rejected: Operation) | Made(operation: Operation)

  datatype Creation = ValueError | GaveUp | Created(version: DataVersion)

  /** Some choice made while drawing an operation raises a ValueError (or an IndexError). */
  ghost predicate DrawMayRaise(agent: Config, datalen: nat) {
    || agent.operations == []
    || exists kind :: kind in agent.operations && !Room(agent, datalen, Margin(kind))
  }

  /**
   newer adds to older between one and operationPerVersion operations that the agent may draw, and
   all its operations are disjoint.
   */
  ghost predicate Extends(older: seq<Operation>, newer: seq<Operation>, agent: Config, datalen: nat) {
    && older < newer && |newer| <= |older| + agent.operationPerVersion && Sound(newer, datalen)
    && forall i | |older| <= i < |newer| :: Drawable(agent, datalen, newer[i])
  }

  /** The operation may be drawn, and hits a dirty bit of the list. */
  ghost predicate Refuses(ops: seq<Operation>, op: Operation, agent: Config, datalen: nat) {
    Drawable(agent, datalen, op) && op.Fits(datalen) && !(op.Bits() !! DirtyBits(ops))
  }

  /** While operations are added to older, a list is met that refuses some operation. */
  ghost predicate MayBeRefused(older: seq<Operation>, agent: Config, datalen: nat) {
    exists newer, op ::
      && (newer == older || Extends(older, newer, agent, datalen)) && Sound(newer, datalen)
      && |newer| < |older| + agent.operationPerVersion
      && Refuses(newer, op, agent, datalen)
  }

  /**
   Adding to a version may fail exactly when something can be drawn at all and there will be an
   operation it can collide with: one of the version, or one of several that are to be added.
   */
  lemma MayBeRefusedIff(older: seq<Operation>, agent: Config, datalen: nat)
    requires Sound(older, datalen) && forall i | 0 <= i < |older| :: Drawable(agent, datalen, older[i])
    ensures MayBeRefused(older, agent, datalen) <==>
      && agent.operationPerVersion >= 1 && |older| + agent.operationPerVersion >= 2
      && exists op :: Drawable(agent, datalen, op)
  {
    if older != [] {
      assert older[0].offset in older[0].Bits();
      DirtyBitsMembers(older, older[0].offset);
      if agent.operationPerVersion >= 1 {
        assert Refuses(older, older[0], agent, datalen);
      }
    } else {
      assert DirtyBits(older) == {};
      if op :| Drawable(agent, datalen, op) && agent.operationPerVersion >= 2 {
        var kind :| kind in agent.operations && PossibleDraw(kind, agent, datalen, Some(op));
        DrawnOperationFits(kind, agent, datalen, op);
        assert op.offset in op.Bits();
        DirtyBitsMembers([op], op.offset);
        assert Extends(older, [op], agent, datalen) && Refuses([op], op, agent, datalen);
      }
    }
  }

  lemma AppendKeepsSound(ops: seq<Operation>, op: Operation, datalen: nat)
    requires Sound(ops, datalen) && op.Fits(datalen) && op.Bits() !! DirtyBits(ops)
    ensures Sound(ops + [op], datalen)
    ensures DirtyBits(ops + [op]) == DirtyBits(ops) + op.Bits()
  {
    CleanIffDisjoint(op, ops);
    assert (ops + [op])[..|ops|] == ops;
  }

  method MarkDirty(dirty: set<nat>, op: Operation) returns (r: set<nat>)
    ensures r == dirty + op.Bits()
  {
    r := dirty;
    for bit := op.offset to op.offset + op.Size()
      invariant r == dirty + BitRange(op.offset, bit - op.offset)
    {
      r := r + {bit};
    }
  }

  /** array('B', data) */
  method ToArray(data: Bytes) returns (r: array<bv8>)
    ensures fresh(r) && r[..] == data
  {
    r := new bv8[|data|](i requires 0 <= i < |data| => data[i]);
  }

  /** DataVersion with its subclasses OriginalVersion (original) and ModifiedVersion. */
  class DataVersion {
    const versions: DataVersions
    const original: bool
    const operations: seq<Operation>
    const dirtyBits: set<nat>
    const version: nat
    var data: Option<Bytes>

    constructor Original(versions: DataVersions, data: Bytes)
      ensures this.versions == versions && original && this.data == Some(data)
      ensures operations == [] && dirtyBits == {} && version == |versions.versions| + 1
    {
      this.versions, this.original, this.data := versions, true, Some(data);
      this.operations, this.dirtyBits, this.version := [], {}, |versions.versions| + 1;
    }

    constructor Modified(versions: DataVersions, operations: seq<Operation>, dirtyBits: set<nat>)
      ensures this.versions == versions && !original && this.data == None
      ensures this.operations == operations && this.dirtyBits == dirtyBits
      ensures version == |versions.versions| + 1
    {
      this.versions, this.original, this.data := versions, false, None;
      this.operations, this.dirtyBits, this.version := operations, dirtyBits, |versions.versions| + 1;
    }

    /** The truth value Python gives self.data: neither None nor empty. */
    predicate HasData()
      reads this
    {
      data.Some? && data.value != []
    }

    method CreateOperation(agent: Config, datalen: nat, dirtyBits: set<nat>) returns (r: Attempt)
      ensures r.Raised? ==> DrawMayRaise(agent, datalen)
      ensures r.Made? ==> Drawable(agent, datalen, r.operation)
      ensures r.Made? ==> r.operation.Fits(datalen) && r.operation.Bits() !! dirtyBits
      ensures r.Refused? ==> Drawable(agent, datalen, r.rejected)
      ensures r.Refused? ==> r.rejected.Fits(datalen) && !(r.rejected.Bits() !! dirtyBits)
    {
      if agent.operations == [] {
        return Raised;
      }
      var choice :| 0 <= choice < |agent.operations|;
      var kind := agent.operations[choice];
      var drawn := Draw(kind, agent, datalen);
      if drawn.None? {
        DrawNeverRaisesIffRoom(kind, agent, datalen);
        return Raised;
      }
      var operation := drawn.value;
      DrawnOperationFits(kind, agent, datalen, operation);
      for bit := operation.offset to operation.offset + operation.Size()
        invariant forall k | operation.offset <= k < bit :: k !in dirtyBits
      {
        if bit in dirtyBits {
          assert bit in operation.Bits();
          return Refused(operation);
        }
      }
      return Made(operation);
    }

    /** Tries to add operations to this version; neither this version nor the chain changes. */
    method CreateVersion(agent: Config, datalen: nat) returns (r: Creation)
      requires Sound(operations, datalen) && dirtyBits == DirtyBits(operations)
      ensures r.ValueError? ==> agent.operationPerVersion < 1 || DrawMayRaise(agent, datalen)
      ensures r.GaveUp? ==> MayBeRefused(operations, agent, datalen)
      ensures r.Created? ==> (
        && fresh(r.version) && r.version.versions == versions && !r.version.original && r.version.data == None
        && r.version.version == |versions.versions| + 1
        && Extends(operations, r.version.operations, agent, datalen)
        && r.version.dirtyBits == DirtyBits(r.version.operations))
    {
      var ops, dirty := this.operations, this.dirtyBits;
      var extra := RandInt(1, agent.operationPerVersion);
      if extra.None? {
        return ValueError;
      }
      var wantedLen := |ops| + extra.value;
      var nbTry := 0;
      while |ops| < wantedLen
        invariant operations <= ops && |ops| <= wantedLen && nbTry <= MAX_TRY
        invariant Sound(ops, datalen) && dirty == DirtyBits(ops)
        invariant forall i | |operations| <= i < |ops| :: Drawable(agent, datalen, ops[i])
        invariant nbTry > 0 ==> MayBeRefused(operations, agent, datalen)
        decreases wantedLen - |ops|, MAX_TRY - nbTry
      {
        if MAX_TRY <= nbTry {
          return GaveUp;
        }
        nbTry := nbTry + 1;
        var attempt := CreateOperation(agent, datalen, dirty);
        if attempt.Raised? {
          return ValueError;
        }
        if attempt.Refused? {
          assert Refuses(ops, attempt.rejected, agent, datalen);
          continue;
        }
        var op := attempt.operation;
        dirty := MarkDirty(dirty, op);
        AppendKeepsSound(ops, op, datalen);
        ops := ops + [op];
        nbTry := 0;
      }
      var version := new DataVersion.Modified(versions, ops, dirty);
      return Created(version);
    }

    /** The nearest version before this one that has its data; the walk ends at the original. */
    method FindCached() returns (previous: DataVersion)
      requires versions.Coherent() && versions.Has(this) && !original
      ensures versions.Has(previous) && previous.version < version && previous.HasData()
      ensures previous.data.value == versions.Replay(previous)
      ensures forall k | previous.version <= k < version - 1 :: !versions.versions[k].HasData()
    {
      assert versions.Entry(version - 1);
      previous := versions.GetPrevious(this);
      while !previous.HasData()
        invariant versions.Has(previous) && versions.Entry(previous.version - 1)
        invariant previous.version < version
        invariant forall k | previous.version <= k < version - 1 :: !versions.versions[k].HasData()
        decreases previous.version
      {
        previous := versions.GetPrevious(previous);
      }
    }

    /** Applies the operations this version has beyond an earlier version to that version's data. */
    method ReplayFrom(previous: DataVersion) returns (r: array<bv8>)
      requires versions.Coherent() && versions.Has(this) && versions.Has(previous) && previous.version < version
      requires previous.HasData() && previous.data.value == versions.Replay(previous)
      ensures fresh(r) && r[..] == versions.Replay(this)
    {
      assert versions.Entry(version - 1);
      versions.EarlierIsPrefix(previous.version - 1, version - 1);
      r := ToArray(previous.data.value);
      assert operations[..|previous.operations|] == previous.operations;
      CallFrom(operations, |previous.operations|, r, versions.orig);
    }

    /** The bytes of this version, replayed from the nearest version before it that has a cache. */
    method CreateData() returns (r: array<bv8>)
      requires versions.Coherent() && versions.Has(this)
      modifies this`data
      ensures fresh(r) && versions.Coherent() && r[..] == versions.Replay(this)
      ensures data == if original then old(data) else Some(r[..])
      ensures old(versions.CacheWindow()) && |versions.versions| <= version + 1 ==> versions.Valid()
    {
      assert versions.Entry(version - 1);
      if original || HasData() {
        r := ToArray(data.value);
        return;
      }
      var previous := FindCached();
      r := ReplayFrom(previous);
      label Replayed:
      data := Some(r[..]);
      forall i | 0 <= i < |versions.versions|
        ensures versions.Entry(i)
        ensures i + 1 != version ==> versions.versions[i].data == old(versions.versions[i].data)
      {
        assert old@Replayed(versions.Entry(i));
      }
    }

    method ClearCache()
      modifies this`data
      ensures data == if original then old(data) else None
    {
      if !original {
        data := None;
      }
    }

    /** Removes this version from the chain and returns the new last one. */
    method Revert() returns (r: DataVersion)
      requires versions.Coherent() && versions.Has(this)
      modifies versions`versions
      ensures original ==> versions.versions == old(versions.versions) && r == this
      ensures !original ==> versions.versions == old(versions.versions[..version - 1] + versions.versions[version..])
      ensures versions.versions != []
      ensures !original ==> r == versions.versions[|versions.versions| - 1]
      ensures old(versions.Valid() && |versions.versions| == version) ==> versions.Valid()
    {
      assert versions.Entry(version - 1);
      if original {
        return this;
      }
      assert versions.Entry(0);
      ghost var before := versions.versions;
      versions.RemoveVersion(this);
      r := versions.GetLast();
      if |before| == version {
        assert versions.versions == before[..version - 1];
        forall i | 0 <= i < |versions.versions| ensures versions.Entry(i) {
          assert old(versions.Entry(i));
        }
      }
    }
  }

  class DataVersions {
    var versions: seq<DataVersion>
    /** The bytes of the source file, from the first version on. */
    ghost var orig: Bytes

    constructor ()
      ensures versions == [] && Valid()
    {
      versions := [];
    }

    ghost predicate Entry(i: nat)
      reads this, versions
    {
      && i < |versions|
      && var v := versions[i];
      && v.versions == this && v.version == i + 1 && (v.original <==> i == 0)
      && (i == 0 ==> v.operations == [] && v.data == Some(orig))
      && (i > 0 ==> versions[i - 1].operations < v.operations)
      && Sound(v.operations, |orig|) && v.dirtyBits == DirtyBits(v.operations)
      && (v.data.Some? ==> v.data.value == ApplyAll(v.operations, orig))
    }

    /** The version sits in this chain, at the place its number names. */
    ghost predicate Has(version: DataVersion)
      reads this
    {
      1 <= version.version <= |versions| && versions[version.version - 1] == version
    }

    ghost predicate IsLast(version: DataVersion)
      reads this
    {
      version.versions == this && version.version == |versions| && Has(version)
    }

    /** The source file with all operations of the version applied from scratch. */
    ghost function Replay(version: DataVersion): Bytes
      requires Coherent() && Has(version)
      reads this, versions
    {
      assert Entry(version.version - 1);
      ApplyAll(version.operations, orig)
    }

    ghost function ReplayLast(): Bytes
      requires Coherent() && versions != []
      reads this, versions
    {
      assert Entry(|versions| - 1);
      Replay(versions[|versions| - 1])
    }

    /** In the data of any version, every bit outside its dirty bits is the bit of the source file. */
    lemma CleanBitsAreOriginal(version: DataVersion, bit: nat)
      requires Coherent() && Has(version)
      requires bit < 8 * |orig| && bit !in version.dirtyBits
      ensures |Replay(version)| == |orig|
      ensures Bit(Replay(version), bit) == Bit(orig, bit)
    {
      assert Entry(version.version - 1);
      ApplyAllFramesBits(version.operations, orig, bit);
    }

    /** The operations of a version give its data in every order. */
    lemma OrderDoesNotMatter(version: DataVersion, perm: seq<Operation>)
      requires Coherent() && Has(version) && multiset(version.operations) == multiset(perm)
      ensures AllFit(perm, |orig|) && ApplyAll(perm, orig) == Replay(version)
    {
      assert Entry(version.version - 1);
      AnyOrder(version.operations, perm, orig);
    }

    /** The data of a version holds what each of its operations writes into the source file. */
    lemma OperationsAreInData(version: DataVersion, i: nat)
      requires Coherent() && Has(version) && i < |version.operations|
      ensures version.operations[i].Fits(|orig|) && |Replay(version)| == |orig|
      ensures Wrote(version.operations[i], orig, Replay(version))
    {
      assert Entry(version.version - 1);
      EachOperationWrites(version.operations, i, orig);
    }

    lemma ReplayLastIsFile()
      requires Coherent() && versions != []
      ensures IsFileOf(ReplayLast(), Chain(), orig)
    {
      assert Entry(|versions| - 1);
    }

    /** Each version owns a bit that no earlier one owns, so there are no more versions than bits. */
    lemma ChainIsBounded()
      requires Coherent() && versions != []
      ensures |versions| <= 8 * |orig| + 1
    {
      var last := |versions| - 1;
      OperationsGrow(last);
      assert Entry(last);
      DisjointOperationsAreBounded(versions[last].operations, |orig|);
    }

    lemma {:induction false} OperationsGrow(i: nat)
      requires Coherent() && i < |versions|
      ensures |versions[i].operations| >= i
    {
      if i > 0 {
        OperationsGrow(i - 1);
        assert Entry(i);
      }
    }

    /** The chain is well formed, and every cache equals the replay of all its operations. */
    ghost predicate Coherent()
      reads this, versions
    {
      && (versions != [] ==> orig != [])
      && forall i | 0 <= i < |versions| :: Entry(i)
    }

    /** Among the modified versions, only the last two entries of the chain may hold a cache. */
    ghost predicate CacheWindow()
      reads this, versions
    {
      forall i | 1 <= i < |versions| - 2 :: versions[i].data == None
    }

    ghost predicate Valid()
      reads this, versions
    {
      Coherent() && CacheWindow()
    }

    /** The operation lists of the chain. */
    ghost function Chain(): (r: seq<seq<Operation>>)
      reads this
      ensures |r| == |versions|
    {
      seq(|versions|, i requires 0 <= i < |versions| reads this => versions[i].operations)
    }

    lemma EarlierIsPrefix(i: nat, j: nat)
      requires Coherent() && i <= j < |versions|
      ensures versions[i].operations <= versions[j].operations
      decreases j - i
    {
      if i < j {
        EarlierIsPrefix(i, j - 1);
        assert Entry(j);
      }
    }

    method AddVersion(version: DataVersion)
      requires Valid() && version !in versions
      requires version.versions == this && version.version == |versions| + 1
      requires version.original <==> versions == []
      requires versions == [] ==> version.operations == [] && version.data.Some? && version.data.value != []
      requires versions != [] ==> versions[|versions| - 1].operations < version.operations
      requires versions != [] ==> Sound(version.operations, |orig|) && version.data == None
      requires version.dirtyBits == DirtyBits(version.operations)
      modifies this, versions
      ensures Valid()
      ensures versions == old(versions) + [version] && Entry(|versions| - 1)
      ensures Chain() == old(Chain()) + [version.operations]
      ensures orig == old(if versions == [] then version.data.value else orig)
    {
      if versions == [] {
        orig := version.data.value;
      }
      ghost var before := versions;
      versions := versions + [version];
      forall k | 0 <= k < |versions| ensures versions[k].version == k + 1 && (versions[k].original <==> k == 0) {
        assert k < |before| ==> old(Entry(k));
      }
      ClearOldCaches();
      forall i | 0 <= i < |versions| ensures Entry(i) {
        assert i < |before| ==> old(Entry(i)) && versions[i] == before[i];
      }
    }

    /** clearCache on all but the last two versions. */
    method ClearOldCaches()
      requires forall k | 0 <= k < |versions| :: versions[k].version == k + 1 && (versions[k].original <==> k == 0)
      modifies versions[..Max(|versions| - 2, 0)]
      ensures forall k | 0 <= k < |versions| ::
        versions[k].data == if 1 <= k < |versions| - 2 then None else old(versions[k].data)
    {
      for i := 0 to Max(|versions| - 2, 0)
        invariant forall k | 0 <= k < |versions| ::
          versions[k].data == if 1 <= k < i then None else old(versions[k].data)
      {
        versions[i].ClearCache();
      }
    }

    /** list.index */
    method IndexOf(version: DataVersion) returns (i: nat)
      requires Coherent() && Has(version)
      ensures i == version.version - 1
    {
      i := 0;
      while versions[i] != version
        invariant i < version.version
        decreases version.version - i
      {
        i := i + 1;
      }
      assert Entry(i);
    }

    method RemoveVersion(version: DataVersion)
      requires Coherent() && Has(version)
      modifies this`versions
      ensures versions == old(versions[..version.version - 1] + versions[version.version..])
    {
      var i := IndexOf(version);
      versions := versions[..i] + versions[i + 1..];
    }

    /** None when the chain is empty. */
    method GetLast() returns (r: DataVersion?)
      ensures r == if versions == [] then null else versions[|versions| - 1]
    {
      r := if versions == [] then null else versions[|versions| - 1];
    }

    /** The entry before the version; index -1 of the first entry is the last entry. */
    method GetPrevious(version: DataVersion) returns (r: DataVersion)
      requires Coherent() && Has(version)
      ensures Has(r) && r.version == if version.version == 1 then |versions| else version.version - 1
      ensures Entry(r.version - 1)
    {
      var i := IndexOf(version);
      var index := if i == 0 then |versions| - 1 else i - 1;
      assert Entry(index);
      return versions[index];
    }

    method Rollback(number: nat) returns (r: DataVersion)
      requires Valid() && 1 <= number <= |versions|
      modifies this`versions
      ensures versions == old(versions)[..number] && r == versions[number - 1] && Entry(number - 1)
      ensures Chain() == old(Chain())[..number]
      ensures Valid()
    {
      versions := versions[..number];
      forall i | 0 <= i < number ensures Entry(i) {
        assert old(Entry(i));
      }
      return versions[|versions| - 1];
    }
  }

  // ---------- the agent ----------

  datatype Session = Init | Error | Success | Normal

  type Chain = seq<seq<Operation>>

  /** How checkPreviousVersion may change the chain, given the outcome of the previous session. */
  ghost predicate Checked(before: Chain, after: Chain, session: Session, smaller: bool, maxVersion: int) {
    && before != []
    && if session.Success? then after == before[..1]
       else if session.Error? || smaller then after == (if |before| == 1 then before else before[..|before| - 1])
       else if maxVersion < |before| then after != [] && after <= before
       else after == before
  }

  /**
   The chain gains one version that extends the last one; when operations may be refused, it may be
   rolled back to a non-empty prefix instead.
   */
  ghost predicate Grown(before: Chain, after: Chain, config: Config, datalen: nat) {
    && before != []
    && var last := before[|before| - 1];
    && (|| (|after| == |before| + 1 && before <= after && Extends(last, after[|before|], config, datalen))
        || (after != [] && after <= before && MayBeRefused(last, config, datalen)))
  }

  /** The chain once the outcome of the previous session is taken into account. */
  ghost predicate Started(before: Chain, after: Chain, session: Session, smaller: bool, config: Config) {
    if before == [] then after == [[]] else Checked(before, after, session, smaller, config.maxVersion)
  }

  ghost predicate Mangled(
    before: Chain, after: Chain, session: Session, smaller: bool, config: Config, datalen: nat)
  {
    exists started :: Started(before, started, session, smaller, config) && Grown(started, after, config, datalen)
  }

  /** The bytes are the source file with the operations of the last version, all disjoint, applied. */
  ghost predicate IsFileOf(bytes: Bytes, chain: Chain, source: Bytes) {
    && chain != []
    && var ops := chain[|chain| - 1];
    && Sound(ops, |source|) && bytes == ApplyAll(ops, source)
  }

  datatype Mangling = Raises | Data(data: array<bv8>)

  class IncrMangle {
    const versions: DataVersions
    const config: Config
    var previousScore: Option<real>
    var previousSession: Session
    var scoreDiff: Option<real>

    constructor (config: Config)
      ensures this.config == config && fresh(versions) && versions.Valid() && versions.versions == []
      ensures previousSession == Init && previousScore == None && scoreDiff == None
    {
      this.config := config;
      versions := new DataVersions();
      previousScore, previousSession, scoreDiff := None, Init, None;
    }

    method OnSessionDone(score: real, successScore: real)
      modifies this
      ensures previousSession == if score < 0.0 then Error else if successScore <= score then Success else Normal
      ensures previousScore == if previousSession.Normal? then Some(score) else old(previousScore)
      ensures scoreDiff == if previousSession.Normal? && old(previousScore).Some?
                           then Some(score - old(previousScore.value)) else None
    {
      scoreDiff := None;
      if score < 0.0 {
        previousSession := Error;
      } else if successScore <= score {
        previousSession := Success;
      } else {
        previousSession := Normal;
        if previousScore.Some? {
          scoreDiff := Some(score - previousScore.value);
        }
        previousScore := Some(score);
      }
    }

    ghost predicate SmallerScore()
      reads this
    {
      scoreDiff.Some? && scoreDiff.value < 0.0
    }

    method CheckPreviousVersion(version: DataVersion) returns (r: DataVersion)
      requires versions.Valid() && versions.versions != []
      requires version == versions.versions[|versions.versions| - 1]
      modifies versions
      ensures versions.Valid() && versions.orig == old(versions.orig)
      ensures versions.versions <= old(versions.versions) && versions.versions != []
      ensures r == versions.versions[|versions.versions| - 1]
      ensures Checked(old(versions.Chain()), versions.Chain(), previousSession, SmallerScore(), config.maxVersion)
    {
      assert versions.Entry(|versions.versions| - 1);
      if previousSession == Success {
        r := versions.Rollback(1);
        return;
      }
      if previousSession == Error {
        r := version.Revert();
        return;
      }
      if scoreDiff.Some? && scoreDiff.value < 0.0 {
        r := version.Revert();
        return;
      }
      if config.maxVersion < version.version {
        r := RollbackLast();
        return;
      }
      return version;
    }

    method RollbackLast() returns (r: DataVersion)
      requires versions.Valid() && versions.versions != []
      modifies versions
      ensures versions.Valid() && versions.orig == old(versions.orig)
      ensures versions.versions <= old(versions.versions) && versions.versions != []
      ensures r == versions.versions[|versions.versions| - 1] && versions.Entry(|versions.versions| - 1)
      ensures versions.Chain() <= old(versions.Chain())
    {
      var last := versions.GetLast();
      assert versions.Entry(|versions.versions| - 1);
      var number: int :| 1 <= number <= last.version;
      r := versions.Rollback(number);
    }

    /** One session: the chain is checked against the previous outcome, then grown, then replayed. */
    method MangleData(data: array<bv8>) returns (r: Mangling)
      requires versions.Valid() && data.Length > 0
      requires versions.versions != [] ==> data.Length == |versions.orig|
      modifies versions, versions.versions
      ensures versions.Valid() && versions.versions != []
      ensures versions.orig == if old(versions.versions) == [] then data[..] else old(versions.orig)
      ensures forall i | 0 <= i < |versions.versions| ::
        versions.versions[i] in old(versions.versions) || fresh(versions.versions[i])
      ensures r.Data? ==> r.data[..] == versions.ReplayLast()
      ensures r.Data? ==>
        Mangled(old(versions.Chain()), versions.Chain(), previousSession, SmallerScore(), config, data.Length)
      ensures r.Raises? ==> Started(old(versions.Chain()), versions.Chain(), previousSession, SmallerScore(), config)
      ensures r.Raises? ==> config.operationPerVersion < 1 || DrawMayRaise(config, data.Length)
    {
      var previous := Start(data[..]);
      ghost var started := versions.Chain();
      var version := Grow(previous, data.Length);
      if version == null {
        return Raises;
      }
      assert Mangled(old(versions.Chain()), versions.Chain(), previousSession, SmallerScore(), config, data.Length);
      var bytes := version.CreateData();
      return Data(bytes);
    }

    /** The version to build on: the last one after the check, or the first one. */
    method Start(data: Bytes) returns (previous: DataVersion)
      requires versions.Valid() && data != []
      modifies versions
      ensures versions.Valid() && versions.IsLast(previous)
      ensures versions.orig == if old(versions.versions) == [] then data else old(versions.orig)
      ensures fresh(previous) || previous in old(versions.versions)
      ensures versions.versions <= old(versions.versions) || versions.versions == [previous]
      ensures Started(old(versions.Chain()), versions.Chain(), previousSession, SmallerScore(), config)
    {
      var last := versions.GetLast();
      if last != null {
        previous := CheckPreviousVersion(last);
      } else {
        previous := CreateFirst(data);
      }
      assert versions.Entry(|versions.versions| - 1);
    }

    method CreateFirst(data: Bytes) returns (r: DataVersion)
      requires versions.Valid() && versions.versions == [] && data != []
      modifies versions
      ensures versions.Valid() && versions.versions == [r] && versions.orig == data && fresh(r)
      ensures versions.Chain() == [[]]
    {
      r := new DataVersion.Original(versions, data);
      versions.AddVersion(r);
      assert versions.Entry(0);
    }

    /** Adds a version based on the last one, or rolls back when none can be created; null if it raises. */
    method Grow(previous: DataVersion, datalen: nat) returns (r: DataVersion?)
      requires versions.Valid() && versions.IsLast(previous) && datalen == |versions.orig|
      modifies versions, versions.versions
      ensures versions.Valid() && versions.versions != [] && versions.orig == old(versions.orig)
      ensures r == null ==> config.operationPerVersion < 1 || DrawMayRaise(config, datalen)
      ensures r == null ==> versions.versions == old(versions.versions)
      ensures r != null ==> versions.IsLast(r)
      ensures r != null ==>
        versions.versions == old(versions.versions) + [r] || versions.versions <= old(versions.versions)
      ensures r != null ==> fresh(r) || r in old(versions.versions)
      ensures r != null ==> Grown(old(versions.Chain()), versions.Chain(), config, datalen)
    {
      assert versions.Entry(previous.version - 1);
      var created := previous.CreateVersion(config, datalen);
      match created {
        case ValueError => r := null;
        case Created(version) => r := Accept(version);
        case GaveUp => r := GiveUp(datalen);
      }
    }

    /** addVersion for the version just created. */
    method Accept(version: DataVersion) returns (r: DataVersion)
      requires versions.Valid() && versions.versions != []
      requires version.versions == versions && !version.original && version.data == None
      requires version.version == |versions.versions| + 1 && version !in versions.versions
      requires Extends(
        versions.versions[|versions.versions| - 1].operations, version.operations, config, |versions.orig|)
      requires version.dirtyBits == DirtyBits(version.operations)
      modifies versions, versions.versions
      ensures r == version && versions.Valid() && versions.orig == old(versions.orig) && versions.IsLast(r)
      ensures versions.versions == old(versions.versions) + [version]
      ensures Grown(old(versions.Chain()), versions.Chain(), config, |versions.orig|)
    {
      versions.AddVersion(version);
      r := version;
    }

    /** The handler of IncrMangleError. */
    method GiveUp(datalen: nat) returns (r: DataVersion)
      requires versions.Valid() && versions.versions != []
      requires MayBeRefused(versions.versions[|versions.versions| - 1].operations, config, datalen)
      modifies versions
      ensures versions.Valid() && versions.orig == old(versions.orig) && versions.IsLast(r)
      ensures versions.versions <= old(versions.versions)
      ensures Grown(old(versions.Chain()), versions.Chain(), config, datalen)
    {
      r := RollbackLast();
    }
  }
}
