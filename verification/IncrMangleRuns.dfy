/**
 Whole runs of the incremental mangler of fusil/fusil/incr_mangle.py: how the scores of the
 sessions steer the chain of versions, and how long the chain can grow.
 */
module IncrMangleRuns {
  import opened Wrappers
  import opened MangleOperations
  import opened MangleCapacity
  import opened IncrMangle

  // ---------- what the scores so far mean ----------

  function Outcome(score: real, successScore: real): Session {
    if score < 0.0 then Error else if successScore <= score then Success else Normal
  }

  /** The outcome of the last session. */
  function SessionAfter(scores: seq<real>, successScore: real): Session {
    if scores == [] then Init else Outcome(scores[|scores| - 1], successScore)
  }

  /** The score of the last session that was neither an error nor a success. */
  function LastNormal(scores: seq<real>, successScore: real): Option<real> {
    if scores == [] then None
    else if SessionAfter(scores, successScore).Normal? then Some(scores[|scores| - 1])
    else LastNormal(scores[..|scores| - 1], successScore)
  }

  /** The last session was normal, and its score is smaller than that of the normal session before it. */
  predicate SmallerAfter(scores: seq<real>, successScore: real) {
    && SessionAfter(scores, successScore).Normal?
    && var before := LastNormal(scores[..|scores| - 1], successScore);
    && before.Some? && scores[|scores| - 1] < before.value
  }

  predicate IsNormal(score: real, successScore: real) { 0.0 <= score < successScore }

  /** Session i is the last normal one. */
  ghost predicate IsLastNormal(scores: seq<real>, successScore: real, i: nat) {
    && i < |scores| && IsNormal(scores[i], successScore)
    && forall k | i < k < |scores| :: !IsNormal(scores[k], successScore)
  }

  lemma {:induction false} LastNormalIs(scores: seq<real>, successScore: real)
    ensures var last := LastNormal(scores, successScore);
      && (last.Some? ==> exists i: nat :: IsLastNormal(scores, successScore, i) && scores[i] == last.value)
      && (last.None? ==> forall k | 0 <= k < |scores| :: !IsNormal(scores[k], successScore))
  {
    if scores != [] {
      var n := |scores| - 1;
      LastNormalIs(scores[..n], successScore);
      if IsNormal(scores[n], successScore) {
        assert IsLastNormal(scores, successScore, n);
      } else if LastNormal(scores[..n], successScore).Some? {
        var v := LastNormal(scores[..n], successScore).value;
        var i: nat :| IsLastNormal(scores[..n], successScore, i) && scores[..n][i] == v;
        assert IsLastNormal(scores, successScore, i);
      }
    }
  }

  /** The last score is smaller exactly when it is normal and below the score of the last normal session before it. */
  lemma SmallerIff(scores: seq<real>, score: real, successScore: real)
    ensures SmallerAfter(scores + [score], successScore) <==>
      IsNormal(score, successScore) && exists i: nat :: IsLastNormal(scores, successScore, i) && score < scores[i]
  {
    LastNormalIs(scores, successScore);
    assert (scores + [score])[..|scores|] == scores;
    if LastNormal(scores, successScore).Some? {
      var v := LastNormal(scores, successScore).value;
      var i: nat :| IsLastNormal(scores, successScore, i) && scores[i] == v;
      assert forall j: nat | IsLastNormal(scores, successScore, j) :: j == i;
    }
  }

  // ---------- runs ----------

  /** chains[i] is the chain after i sessions, and session i knows the scores of the i sessions before it. */
  ghost predicate IsRun(chains: seq<Chain>, scores: seq<real>, successScore: real, config: Config, datalen: nat) {
    && 1 <= |chains| <= |scores| + 2 && chains[0] == []
    && forall i | 0 <= i < |chains| - 1 ::
      IsSession(chains[i], chains[i + 1], scores[..i], successScore, config, datalen)
  }

  ghost predicate IsSession(
    before: Chain, after: Chain, scores: seq<real>, successScore: real, config: Config, datalen: nat)
  {
    Mangled(before, after, SessionAfter(scores, successScore), SmallerAfter(scores, successScore), config, datalen)
  }

  lemma ExtendRun(
    chains: seq<Chain>, after: Chain, scores: seq<real>, successScore: real, config: Config, datalen: nat)
    requires IsRun(chains, scores, successScore, config, datalen) && |chains| <= |scores| + 1
    requires IsSession(chains[|chains| - 1], after, scores[..|chains| - 1], successScore, config, datalen)
    ensures IsRun(chains + [after], scores, successScore, config, datalen)
  {
    var longer := chains + [after];
    forall i | 0 <= i < |longer| - 1
      ensures IsSession(longer[i], longer[i + 1], scores[..i], successScore, config, datalen)
    {
      if i < |chains| - 1 {
        assert IsSession(chains[i], chains[i + 1], scores[..i], successScore, config, datalen);
      }
    }
  }

  /** The agent knows just what the scores mean. */
  ghost predicate Knows(agent: IncrMangle, scores: seq<real>, successScore: real)
    reads agent
  {
    && agent.previousSession == SessionAfter(scores, successScore)
    && agent.previousScore == LastNormal(scores, successScore)
    && (agent.SmallerScore() <==> SmallerAfter(scores, successScore))
  }

  method Learn(agent: IncrMangle, score: real, successScore: real, ghost scores: seq<real>)
    requires Knows(agent, scores, successScore)
    modifies agent
    ensures Knows(agent, scores + [score], successScore)
  {
    agent.OnSessionDone(score, successScore);
    assert (scores + [score])[..|scores|] == scores;
  }

  /** One session of an agent that knows the scores; None if it raises. */
  method RunSession(agent: IncrMangle, source: Bytes, ghost scores: seq<real>, ghost successScore: real)
    returns (r: Option<Bytes>)
    requires agent.versions.Valid() && source != [] && Knows(agent, scores, successScore)
    requires agent.versions.versions != [] ==> agent.versions.orig == source
    modifies agent.versions, agent.versions.versions
    ensures agent.versions.Valid() && agent.versions.versions != [] && agent.versions.orig == source
    ensures forall i | 0 <= i < |agent.versions.versions| ::
      agent.versions.versions[i] in old(agent.versions.versions) || fresh(agent.versions.versions[i])
    ensures Knows(agent, scores, successScore)
    ensures r.Some? ==> IsFileOf(r.value, agent.versions.Chain(), source)
    ensures r.Some? ==>
      IsSession(old(agent.versions.Chain()), agent.versions.Chain(), scores, successScore, agent.config, |source|)
    ensures r.None? ==> agent.config.operationPerVersion < 1 || DrawMayRaise(agent.config, |source|)
  {
    var data := ToArray(source);
    var outcome := agent.MangleData(data);
    if outcome.Raises? {
      return None;
    }
    agent.versions.ReplayLastIsFile();
    return Some(outcome.data[..]);
  }

  /** The sessions of a fuzzing project: mangle the source file, then learn the score of the session. */
  method RunSessions(config: Config, source: Bytes, scores: seq<real>, successScore: real)
    returns (agent: IncrMangle, files: seq<Bytes>, ghost chains: seq<Chain>)
    requires source != []
    ensures agent.versions.Valid() && |chains| == |files| + 1
    ensures IsRun(chains, scores, successScore, config, |source|)
    ensures files != [] ==> agent.versions.orig == source
    ensures |files| == |scores| ==> agent.versions.Chain() == chains[|files|]
    ensures forall i | 0 <= i < |files| :: IsFileOf(files[i], chains[i + 1], source)
    ensures |files| < |scores| ==> config.operationPerVersion < 1 || DrawMayRaise(config, |source|)
  {
    agent := new IncrMangle(config);
    files := [];
    chains := [[]];
    for i := 0 to |scores|
      invariant |files| == i && |chains| == i + 1 && chains[i] == agent.versions.Chain()
      invariant fresh(agent) && fresh(agent.versions) && agent.config == config
      invariant agent.versions.Valid() && fresh(agent.versions.versions)
      invariant i > 0 ==> agent.versions.orig == source
      invariant i == 0 ==> agent.versions.versions == []
      invariant Knows(agent, scores[..i], successScore)
      invariant IsRun(chains, scores, successScore, config, |source|)
      invariant forall k | 0 <= k < i :: IsFileOf(files[k], chains[k + 1], source)
    {
      var file := RunSession(agent, source, scores[..i], successScore);
      assert fresh(agent.versions.versions);
      if file.None? {
        return;
      }
      ExtendRun(chains, agent.versions.Chain(), scores, successScore, config, |source|);
      files := files + [file.value];
      chains := chains + [agent.versions.Chain()];
      assert scores[..i] + [scores[i]] == scores[..i + 1];
      Learn(agent, scores[i], successScore, scores[..i]);
    }
  }

  // ---------- how the scores steer the chain ----------

  /**
   Session i left chains[i + 1] and got scores[i]. The next session adds at most one version to what
   it keeps: only the original after a success, all but the last version after an error or a smaller
   score, and at most the whole chain otherwise. It keeps the whole chain and adds a version after a
   normal score that is no smaller, unless the chain is too long or an operation may be refused.
   */
  lemma ScoresSteerTheChain(
    chains: seq<Chain>, scores: seq<real>, successScore: real, config: Config, datalen: nat, i: nat)
    requires IsRun(chains, scores, successScore, config, datalen) && i + 2 < |chains|
    ensures chains[i + 1] != [] && chains[i + 2] != []
    ensures var before, kept := chains[i + 1], chains[i + 2][..|chains[i + 2]| - 1];
      && kept <= before
      && (scores[i] >= 0.0 && scores[i] >= successScore ==> kept <= before[..1])
      && (scores[i] < 0.0 || SmallerAfter(scores[..i + 1], successScore) ==>
            |before| == 1 || kept <= before[..|before| - 1])
      && (0.0 <= scores[i] < successScore && !SmallerAfter(scores[..i + 1], successScore)
          && |before| <= config.maxVersion ==>
            kept == before || MayBeRefused(before[|before| - 1], config, datalen))
  {
    assert IsSession(chains[i], chains[i + 1], scores[..i], successScore, config, datalen);
    assert IsSession(chains[i + 1], chains[i + 2], scores[..i + 1], successScore, config, datalen);
  }

  /** The most versions there can be in the session after these scores, if nothing else limits them. */
  function Longest(scores: seq<real>, successScore: real): (n: nat)
    ensures n >= 2
  {
    if scores == [] then 2
    else
      var before := Longest(scores[..|scores| - 1], successScore);
      match SessionAfter(scores, successScore)
      case Success => 2
      case Error => before
      case _ => if SmallerAfter(scores, successScore) then before else before + 1
  }

  lemma {:induction false} ScoresBoundTheChain(
    chains: seq<Chain>, scores: seq<real>, successScore: real, config: Config, datalen: nat, i: nat)
    requires IsRun(chains, scores, successScore, config, datalen) && i + 1 < |chains|
    ensures |chains[i + 1]| <= Longest(scores[..i], successScore)
  {
    if i == 0 {
      assert IsSession(chains[0], chains[1], scores[..0], successScore, config, datalen);
    } else {
      ScoresBoundTheChain(chains, scores, successScore, config, datalen, i - 1);
      ScoresSteerTheChain(chains, scores, successScore, config, datalen, i - 1);
      assert scores[..i][..i - 1] == scores[..i - 1];
    }
  }

  // ---------- how long the chain grows ----------

  /** From the original on, each version extends the one before it. */
  ghost predicate IsLadder(chain: Chain, config: Config, datalen: nat) {
    && chain != [] && chain[0] == []
    && forall i | 0 < i < |chain| :: Extends(chain[i - 1], chain[i], config, datalen)
  }

  lemma SessionKeepsLadder(
    before: Chain, after: Chain, session: Session, smaller: bool, config: Config, datalen: nat)
    requires Mangled(before, after, session, smaller, config, datalen)
    requires before == [] || IsLadder(before, config, datalen)
    ensures IsLadder(after, config, datalen)
  {
    var started :| Started(before, started, session, smaller, config) && Grown(started, after, config, datalen);
    assert IsLadder(started, config, datalen);
  }

  lemma {:induction false} RunKeepsLadder(
    chains: seq<Chain>, scores: seq<real>, successScore: real, config: Config, datalen: nat, i: nat)
    requires IsRun(chains, scores, successScore, config, datalen) && i + 1 < |chains|
    ensures IsLadder(chains[i + 1], config, datalen)
  {
    if i > 0 {
      RunKeepsLadder(chains, scores, successScore, config, datalen, i - 1);
    }
    assert IsSession(chains[i], chains[i + 1], scores[..i], successScore, config, datalen);
    SessionKeepsLadder(chains[i], chains[i + 1], SessionAfter(scores[..i], successScore),
      SmallerAfter(scores[..i], successScore), config, datalen);
  }

  lemma {:induction false} LadderOperations(chain: Chain, config: Config, datalen: nat, i: nat)
    requires IsLadder(chain, config, datalen) && i < |chain|
    ensures |chain[i]| >= i && Sound(chain[i], datalen)
    ensures forall k | 0 <= k < |chain[i]| :: Drawable(config, datalen, chain[i][k])
  {
    if i > 0 {
      LadderOperations(chain, config, datalen, i - 1);
    }
  }

  lemma LadderIsBounded(chain: Chain, config: Config, datalen: nat)
    requires IsLadder(chain, config, datalen)
    ensures |chain| <= Capacity(config, datalen) + 1
  {
    var last := |chain| - 1;
    if last > 0 {
      LadderOperations(chain, config, datalen, last);
      assert Extends(chain[0], chain[1], config, datalen);
      DrawnOperationsAreBounded(config, datalen, chain[last]);
    }
  }

  function Rungs(config: Config, datalen: nat, k: nat): (ops: seq<Operation>)
    requires k <= Capacity(config, datalen)
    ensures |ops| == k
  {
    seq(k, j requires 0 <= j < k => Smallest(config, datalen, j))
  }

  lemma RungsExtend(config: Config, datalen: nat, k: nat)
    requires k < Capacity(config, datalen)
    ensures Extends(Rungs(config, datalen, k), Rungs(config, datalen, k + 1), config, datalen)
  {
    forall j: nat | j <= k
      ensures Drawable(config, datalen, Smallest(config, datalen, j)) && Smallest(config, datalen, j).Fits(datalen)
      ensures forall i: nat | i < j :: Disjoint(Smallest(config, datalen, i), Smallest(config, datalen, j))
    {
      SmallestOperations(config, datalen, j);
    }
  }

  /** n versions, each with one more of the smallest operations. */
  function Ladder(config: Config, datalen: nat, n: nat): (chain: Chain)
    requires 1 <= n <= Capacity(config, datalen) + 1
    ensures |chain| == n && chain[0] == []
  {
    seq(n, i requires 0 <= i < n => Rungs(config, datalen, i))
  }

  /** The most versions the scores and the room for operations permit. */
  function MostVersions(scores: seq<real>, successScore: real, config: Config, datalen: nat): nat {
    Min(Longest(scores, successScore), Capacity(config, datalen) + 1)
  }

  lemma FirstStep(config: Config, datalen: nat, successScore: real)
    requires Capacity(config, datalen) >= 1
    ensures IsSession([], Ladder(config, datalen, 2), [], successScore, config, datalen)
  {
    var after := Ladder(config, datalen, 2);
    RungsExtend(config, datalen, 0);
    assert Grown([[]], after, config, datalen);
  }

  /** Whatever the score, a longest chain can be followed by a longest chain. */
  lemma LongestStep(scores: seq<real>, successScore: real, config: Config, datalen: nat)
    requires Capacity(config, datalen) >= 1 && scores != []
    ensures IsSession(
      Ladder(config, datalen, MostVersions(scores[..|scores| - 1], successScore, config, datalen)),
      Ladder(config, datalen, MostVersions(scores, successScore, config, datalen)),
      scores, successScore, config, datalen)
  {
    var n := MostVersions(scores[..|scores| - 1], successScore, config, datalen);
    var before := Ladder(config, datalen, n);
    var m := MostVersions(scores, successScore, config, datalen);
    var after := Ladder(config, datalen, m);
    var session, smaller := SessionAfter(scores, successScore), SmallerAfter(scores, successScore);
    if m == n && !session.Success? && !session.Error? && !smaller {
      FullChainStays(config, datalen);
      assert Started(before, before, session, smaller, config);
    } else {
      RungsExtend(config, datalen, m - 2);
      assert Started(before, before[..m - 1], session, smaller, config);
      assert Grown(before[..m - 1], after, config, datalen);
    }
  }

  /** When no place is left, every draw is refused and all of the chain may be kept. */
  lemma FullChainStays(config: Config, datalen: nat)
    requires Capacity(config, datalen) >= 1
    ensures var full := Ladder(config, datalen, Capacity(config, datalen) + 1); Grown(full, full, config, datalen)
  {
    var n := Capacity(config, datalen);
    RungsExtend(config, datalen, n - 1);
    SmallestOperations(config, datalen, 0);
    assert forall i: nat | i < n :: Drawable(config, datalen, Rungs(config, datalen, n)[i]) by {
      forall i: nat | i < n ensures Drawable(config, datalen, Smallest(config, datalen, i)) {
        SmallestOperations(config, datalen, i);
      }
    }
    MayBeRefusedIff(Rungs(config, datalen, n), config, datalen);
  }

  function LongestRun(scores: seq<real>, successScore: real, config: Config, datalen: nat): (chains: seq<Chain>)
    requires Capacity(config, datalen) >= 1
  {
    [[]] + seq(|scores| + 1, i requires 0 <= i <= |scores| =>
      Ladder(config, datalen, MostVersions(scores[..i], successScore, config, datalen)))
  }

  lemma LongestRunIsRun(scores: seq<real>, successScore: real, config: Config, datalen: nat)
    requires Capacity(config, datalen) >= 1
    ensures IsRun(LongestRun(scores, successScore, config, datalen), scores, successScore, config, datalen)
  {
    var chains := LongestRun(scores, successScore, config, datalen);
    forall i | 0 <= i < |chains| - 1
      ensures IsSession(chains[i], chains[i + 1], scores[..i], successScore, config, datalen)
    {
      if i == 0 {
        FirstStep(config, datalen, successScore);
        assert scores[..0] == [];
      } else {
        LongestStep(scores[..i], successScore, config, datalen);
        assert scores[..i][..i - 1] == scores[..i - 1];
      }
    }
  }

  /** Some run leaves n versions in the session that follows these scores. */
  ghost predicate Reaches(n: nat, scores: seq<real>, successScore: real, config: Config, datalen: nat) {
    exists chains :: EndsWith(chains, n, scores, successScore, config, datalen)
  }

  ghost predicate EndsWith(
    chains: seq<Chain>, n: nat, scores: seq<real>, successScore: real, config: Config, datalen: nat)
  {
    && IsRun(chains, scores, successScore, config, datalen)
    && |chains| == |scores| + 2 && |chains[|scores| + 1]| == n
  }

  lemma DrawableNeedsCapacity(config: Config, datalen: nat, op: Operation)
    requires Drawable(config, datalen, op) && config.operationPerVersion >= 1
    ensures Capacity(config, datalen) >= 1
  {
    DrawnStart(config, datalen, op);
  }

  lemma SessionNeedsCapacity(after: Chain, config: Config, datalen: nat)
    requires Grown([[]], after, config, datalen)
    ensures Capacity(config, datalen) >= 1
  {
    if MayBeRefused([], config, datalen) {
      MayBeRefusedIff([], config, datalen);
      var op :| Drawable(config, datalen, op);
      DrawableNeedsCapacity(config, datalen, op);
    } else {
      assert Drawable(config, datalen, after[1][0]);
      DrawableNeedsCapacity(config, datalen, after[1][0]);
    }
  }

  /**
   After any scores, the most versions the next session can leave are exactly as many as the scores
   permit, cut off where the data has no place for another operation.
   */
  lemma MostVersionsIsExact(scores: seq<real>, successScore: real, config: Config, datalen: nat)
    ensures Capacity(config, datalen) >= 1 ==>
      Reaches(MostVersions(scores, successScore, config, datalen), scores, successScore, config, datalen)
    ensures forall n: nat | Reaches(n, scores, successScore, config, datalen) ::
      Capacity(config, datalen) >= 1 && n <= MostVersions(scores, successScore, config, datalen)
  {
    if Capacity(config, datalen) >= 1 {
      LongestRunIsRun(scores, successScore, config, datalen);
      var chains := LongestRun(scores, successScore, config, datalen);
      var most := MostVersions(scores, successScore, config, datalen);
      assert scores[..|scores|] == scores;
      assert EndsWith(chains, most, scores, successScore, config, datalen);
    }
    forall n: nat | Reaches(n, scores, successScore, config, datalen)
      ensures Capacity(config, datalen) >= 1 && n <= MostVersions(scores, successScore, config, datalen)
    {
      var chains :| EndsWith(chains, n, scores, successScore, config, datalen);
      assert IsSession(chains[0], chains[1], scores[..0], successScore, config, datalen);
      SessionNeedsCapacity(chains[1], config, datalen);
      ScoresBoundTheChain(chains, scores, successScore, config, datalen, |scores|);
      assert scores[..|scores|] == scores;
      RunKeepsLadder(chains, scores, successScore, config, datalen, |scores|);
      LadderIsBounded(chains[|scores| + 1], config, datalen);
    }
  }

  // ---------- what max_version bounds ----------

  lemma {:induction false} LongestWithoutNormal(scores: seq<real>, successScore: real)
    requires successScore <= 0.0
    ensures Longest(scores, successScore) == 2
  {
    if scores != [] {
      LongestWithoutNormal(scores[..|scores| - 1], successScore);
    }
  }

  lemma {:induction false} LongestOfZeros(k: nat, successScore: real)
    requires successScore > 0.0
    ensures Longest(seq(k, _ => 0.0), successScore) == k + 2
    ensures LastNormal(seq(k, _ => 0.0), successScore) == if k == 0 then None else Some(0.0)
  {
    if k > 0 {
      LongestOfZeros(k - 1, successScore);
      assert seq(k, _ => 0.0)[..k - 1] == seq(k - 1, _ => 0.0);
    }
  }

  ghost predicate StaysWithin(limit: int, successScore: real, config: Config, datalen: nat) {
    forall scores: seq<real>, n: nat | Reaches(n, scores, successScore, config, datalen) :: n <= limit
  }

  /**
   No run ever leaves more than max_version + 1 versions if and only if the data has no place for
   more than max_version operations, or no session is ever normal: rolling back may keep all of the
   chain, and then it grows once more.
   */
  lemma MaxVersionBoundsIff(successScore: real, config: Config, datalen: nat)
    requires config.maxVersion >= 0
    ensures StaysWithin(config.maxVersion + 1, successScore, config, datalen) <==>
      Capacity(config, datalen) <= config.maxVersion || (successScore <= 0.0 && config.maxVersion >= 1)
  {
    var capacity := Capacity(config, datalen);
    if capacity <= config.maxVersion || (successScore <= 0.0 && config.maxVersion >= 1) {
      forall scores: seq<real>, n: nat | Reaches(n, scores, successScore, config, datalen)
        ensures n <= config.maxVersion + 1
      {
        MostVersionsIsExact(scores, successScore, config, datalen);
        if successScore <= 0.0 {
          LongestWithoutNormal(scores, successScore);
        }
      }
    } else {
      var scores := seq(if successScore > 0.0 then capacity else 0, _ => 0.0);
      MostVersionsIsExact(scores, successScore, config, datalen);
      if successScore > 0.0 {
        LongestOfZeros(capacity, successScore);
      }
    }
  }

  /** Without an offset window there is one place per bit, or per byte but the last without InverseBit. */
  lemma CapacityOfWholeFile(config: Config, datalen: nat)
    requires config.minOffset == None && config.maxOffset == None
    requires config.operations != [] && config.operationPerVersion >= 1
    ensures Capacity(config, datalen) ==
            if InverseBitKind in config.operations then 8 * datalen else Max(datalen - 1, 0)
  {
  }
}
