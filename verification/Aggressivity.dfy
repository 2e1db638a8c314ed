/**
 The feedback controller of fusil/fusil/aggressivity.py.  Aggressivity counts hundredths, so
 the rounding of setValue is exact.
 */
module Aggressivity {
  import opened Wrappers

  const AGGRESSIVITY_MIN := 1
  const AGGRESSIVITY_MAX := 100
  const ADD_AFTER := 5
  const FASTER_AFTER := 10
  const SLOWER_AFTER := 5

  /** The states "init", "success", "0", "+", "++", "-" and "--". */
  datatype State = Init | Success | Zero | Plus | PlusPlus | Minus | MinusMinus

  /** The keys of state_increment. */
  predicate HasIncrement(state: State) { Growing(state) || Reducing(state) }

  function Increment(state: State): int
    requires HasIncrement(state)
  {
    match state
    case Plus => 1
    case PlusPlus => 4
    case Minus => -1
    case MinusMinus => -4
  }

  predicate Reducing(state: State) { state.Minus? || state.MinusMinus? }

  predicate Growing(state: State) { state.Plus? || state.PlusPlus? }

  function Clamp(value: int): int {
    if value < AGGRESSIVITY_MIN then AGGRESSIVITY_MIN
    else if AGGRESSIVITY_MAX < value then AGGRESSIVITY_MAX
    else value
  }

  /** The variables of the state machine; scores is the least and the greatest score seen. */
  datatype Control = Control(
    state: State, age: int, aggressivity: int, minScore: Option<real>, maxScore: Option<real>)

  const INITIAL := Control(Init, 1, AGGRESSIVITY_MIN, None, None)

  // ---------- the transition function ----------

  /** min_score and max_score once a first score is in. */
  function WithFirstScore(c: Control, score: real): Control {
    c.(minScore := Some(if c.minScore.Some? then c.minScore.value else score),
       maxScore := Some(if c.maxScore.Some? then c.maxScore.value else score))
  }

  /** The state that follows when the score is no success and no record; None keeps the state. */
  function Steady(c: Control, negative: bool): Option<State> {
    if c.state == Init then Some(Plus)
    else if c.state == Success then Some(Zero)
    else if c.aggressivity < AGGRESSIVITY_MAX && c.state == Zero && ADD_AFTER < c.age then Some(Plus)
    else if c.aggressivity < AGGRESSIVITY_MAX && c.state == Plus && FASTER_AFTER < c.age then Some(PlusPlus)
    else if AGGRESSIVITY_MIN < c.aggressivity && negative && !Reducing(c.state) then Some(Minus)
    else if AGGRESSIVITY_MIN < c.aggressivity && c.state == Minus && SLOWER_AFTER < c.age then Some(MinusMinus)
    else if Reducing(c.state) && !negative then Some(Zero)
    else if c.aggressivity == AGGRESSIVITY_MIN && Reducing(c.state) then Some(Zero)
    else if c.aggressivity == AGGRESSIVITY_MAX && Growing(c.state) then Some(Zero)
    else None
  }

  /** Moves to a state, or ages in the present one, and applies the state's increment. */
  function Enter(c: Control, state: Option<State>): Control {
    var next := if state.Some? then c.(state := state.value, age := 1) else c;
    if HasIncrement(next.state) then next.(aggressivity := Clamp(next.aggressivity + Increment(next.state))) else next
  }

  /** One update. */
  function Next(c: Control, score: real, successScore: real): Control {
    var seen := WithFirstScore(c, score).(age := c.age + 1);
    if successScore <= score then Enter(seen, Some(Success))
    else if seen.maxScore.value < score then Enter(seen.(maxScore := Some(score)), Some(Zero))
    else if score < seen.minScore.value then Enter(seen.(minScore := Some(score)), Some(Minus))
    else Enter(seen, Steady(seen, score < 0.0))
  }

  function Run(c: Control, scores: seq<real>, successScore: real): Control {
    if scores == [] then c
    else Next(Run(c, scores[..|scores| - 1], successScore), scores[|scores| - 1], successScore)
  }

  class AggressivityAgent {
    const successScore: real
    var state: State
    var stateAge: int
    var aggressivity: int
    var minScore: Option<real>
    var maxScore: Option<real>

    function Value(): Control
      reads this
    {
      Control(state, stateAge, aggressivity, minScore, maxScore)
    }

    constructor (successScore: real)
      ensures this.successScore == successScore && Value() == INITIAL
    {
      this.successScore := successScore;
      state, stateAge := Init, 1;
      minScore, maxScore := None, None;
      aggressivity := AGGRESSIVITY_MIN;
    }

    method SetValue(value: int)
      modifies `aggressivity
      ensures aggressivity == Clamp(value)
    {
      aggressivity := Clamp(value);
    }

    method Update(score: real)
      modifies this
      ensures Value() == Next(old(Value()), score, successScore)
    {
      if minScore.None? {
        minScore := Some(score);
      }
      if maxScore.None? {
        maxScore := Some(score);
      }
      stateAge := stateAge + 1;
      var next := UpdateState(score);
      if next.Some? {
        state := next.value;
        stateAge := 1;
      }
      if HasIncrement(state) {
        SetValue(aggressivity + Increment(state));
      }
    }

    method UpdateState(score: real) returns (r: Option<State>)
      requires minScore.Some? && maxScore.Some?
      modifies `minScore, `maxScore
      ensures r == if successScore <= score then Some(Success)
                   else if old(maxScore.value) < score then Some(Zero)
                   else if score < old(minScore.value) then Some(Minus)
                   else Steady(old(Value()), score < 0.0)
      ensures maxScore == if score < successScore && old(maxScore.value) < score then Some(score) else old(maxScore)
      ensures minScore == if score < successScore && old(maxScore.value) >= score && score < old(minScore.value)
                          then Some(score) else old(minScore)
    {
      if successScore <= score {
        return Some(Success);
      }
      if maxScore.value < score {
        maxScore := Some(score);
        return Some(Zero);
      }
      if score < minScore.value {
        minScore := Some(score);
        return Some(Minus);
      }
      if state == Init {
        return Some(Plus);
      }
      if state == Success {
        return Some(Zero);
      }
      if aggressivity < AGGRESSIVITY_MAX {
        if state == Zero && ADD_AFTER < stateAge {
          return Some(Plus);
        }
        if state == Plus && FASTER_AFTER < stateAge {
          return Some(PlusPlus);
        }
      }
      if AGGRESSIVITY_MIN < aggressivity {
        if score < 0.0 {
          if !Reducing(state) {
            return Some(Minus);
          }
        }
        if state == Minus && SLOWER_AFTER < stateAge {
          return Some(MinusMinus);
        }
      }
      if Reducing(state) && 0.0 <= score {
        return Some(Zero);
      }
      if aggressivity == AGGRESSIVITY_MIN && Reducing(state) {
        return Some(Zero);
      }
      if aggressivity == AGGRESSIVITY_MAX && Growing(state) {
        return Some(Zero);
      }
      return None;
    }
  }

  // ---------- every run ----------

  /** What every run keeps. */
  ghost predicate Reachable(c: Control) {
    && AGGRESSIVITY_MIN <= c.aggressivity <= AGGRESSIVITY_MAX && c.age >= 1
    && (c.minScore.Some? <==> c.maxScore.Some?) && (c.state.Init? <==> c.minScore.None?)
    && (c.minScore.Some? ==> c.minScore.value <= c.maxScore.value)
    && (c.state.Init? ==> c.aggressivity == AGGRESSIVITY_MIN)
    && (Reducing(c.state) ==> c.aggressivity < AGGRESSIVITY_MAX)
    && (c.state.Plus? ==> c.aggressivity == AGGRESSIVITY_MAX || c.aggressivity > c.age)
    && (c.state.PlusPlus? ==> c.aggressivity > 4)
  }

  lemma {:induction false} EveryRunIsReachable(scores: seq<real>, successScore: real)
    ensures Reachable(Run(INITIAL, scores, successScore))
  {
    if scores != [] {
      EveryRunIsReachable(scores[..|scores| - 1], successScore);
      NextStaysReachable(Run(INITIAL, scores[..|scores| - 1], successScore), scores[|scores| - 1], successScore);
    }
  }

  lemma NextStaysReachable(c: Control, score: real, successScore: real)
    requires Reachable(c)
    ensures Reachable(Next(c, score, successScore))
  {
  }

  /** The scores that are compared for records: the first one, and all that are no success. */
  predicate Counts(scores: seq<real>, i: nat, successScore: real)
    requires i < |scores|
  {
    i == 0 || scores[i] < successScore
  }

  ghost predicate IsLeast(least: real, scores: seq<real>, successScore: real) {
    && (forall i | 0 <= i < |scores| && Counts(scores, i, successScore) :: least <= scores[i])
    && exists i :: 0 <= i < |scores| && Counts(scores, i, successScore) && scores[i] == least
  }

  ghost predicate IsGreatest(greatest: real, scores: seq<real>, successScore: real) {
    && (forall i | 0 <= i < |scores| && Counts(scores, i, successScore) :: scores[i] <= greatest)
    && exists i :: 0 <= i < |scores| && Counts(scores, i, successScore) && scores[i] == greatest
  }

  lemma NextRecords(c: Control, score: real, successScore: real)
    requires Reachable(c)
    ensures var now := Next(c, score, successScore);
      && now.minScore == (if c.minScore.None? || (score < successScore && score < c.minScore.value) then Some(score)
                          else c.minScore)
      && now.maxScore == (if c.maxScore.None? || (score < successScore && c.maxScore.value < score) then Some(score)
                          else c.maxScore)
  {
  }

  lemma LeastOfMore(least: real, scores: seq<real>, score: real, successScore: real)
    requires scores != [] && IsLeast(least, scores, successScore)
    ensures IsLeast(
      if score < successScore && score < least then score else least, scores + [score], successScore)
  {
    var more := scores + [score];
    var i :| 0 <= i < |scores| && Counts(scores, i, successScore) && scores[i] == least;
    assert Counts(more, i, successScore) && more[i] == least;
    assert Counts(more, |scores|, successScore) <==> score < successScore;
    assert forall k | 0 <= k < |scores| :: Counts(more, k, successScore) <==> Counts(scores, k, successScore);
  }

  lemma GreatestOfMore(greatest: real, scores: seq<real>, score: real, successScore: real)
    requires scores != [] && IsGreatest(greatest, scores, successScore)
    ensures IsGreatest(
      if score < successScore && greatest < score then score else greatest, scores + [score], successScore)
  {
    var more := scores + [score];
    var i :| 0 <= i < |scores| && Counts(scores, i, successScore) && scores[i] == greatest;
    assert Counts(more, i, successScore) && more[i] == greatest;
    assert Counts(more, |scores|, successScore) <==> score < successScore;
    assert forall k | 0 <= k < |scores| :: Counts(more, k, successScore) <==> Counts(scores, k, successScore);
  }

  /** The recorded scores are the least and the greatest of those that count. */
  lemma {:induction false} RecordsAreExtremes(scores: seq<real>, successScore: real)
    requires scores != []
    ensures var now := Run(INITIAL, scores, successScore);
      && now.minScore.Some? && IsLeast(now.minScore.value, scores, successScore)
      && now.maxScore.Some? && IsGreatest(now.maxScore.value, scores, successScore)
  {
    var front, last := scores[..|scores| - 1], scores[|scores| - 1];
    EveryRunIsReachable(front, successScore);
    var before := Run(INITIAL, front, successScore);
    NextRecords(before, last, successScore);
    if front == [] {
      assert Counts(scores, 0, successScore);
    } else {
      RecordsAreExtremes(front, successScore);
      LeastOfMore(before.minScore.value, front, last, successScore);
      GreatestOfMore(before.maxScore.value, front, last, successScore);
      assert front + [last] == scores;
    }
  }

  /**
   A score that is no success sets a record exactly when it exceeds, or falls short of, all that
   count before it; after a success as first score, none can exceed.
   */
  lemma RecordIff(scores: seq<real>, score: real, successScore: real)
    requires scores != [] && score < successScore
    ensures var before, after := Run(INITIAL, scores, successScore), Run(INITIAL, scores + [score], successScore);
      && (after.maxScore != before.maxScore <==>
            forall i | 0 <= i < |scores| && Counts(scores, i, successScore) :: scores[i] < score)
      && (after.minScore != before.minScore <==>
            forall i | 0 <= i < |scores| && Counts(scores, i, successScore) :: score < scores[i])
      && (scores[0] >= successScore ==> after.maxScore == before.maxScore)
  {
    assert (scores + [score])[..|scores|] == scores;
    EveryRunIsReachable(scores, successScore);
    RecordsAreExtremes(scores, successScore);
    NextRecords(Run(INITIAL, scores, successScore), score, successScore);
    assert Counts(scores, 0, successScore);
  }

  /** No success and no new least or greatest score. */
  ghost predicate NoEvent(c: Control, score: real, successScore: real) {
    && score < successScore
    && (c.minScore.Some? ==> c.minScore.value <= score)
    && (c.maxScore.Some? ==> score <= c.maxScore.value)
  }

  ghost predicate NoEvents(c: Control, scores: seq<real>, successScore: real) {
    forall i | 0 <= i < |scores| :: NoEvent(Run(c, scores[..i], successScore), scores[i], successScore)
  }

  // ---------- calm targets ----------

  function Ceil4(n: int): int { (n + 3) / 4 }

  function ClimbPlus(age: int, aggressivity: int): int {
    var slow := if age < FASTER_AFTER then FASTER_AFTER - age else 0;
    var room := AGGRESSIVITY_MAX - aggressivity;
    if room <= slow then room else slow + Ceil4(room - slow)
  }

  function ClimbZero(age: int, aggressivity: int): int {
    (if age < ADD_AFTER then ADD_AFTER - age else 0) + 1 + ClimbPlus(1, aggressivity + 1)
  }

  /** Updates with calm scores until the aggressivity is maximal. */
  function Climb(c: Control): int {
    if c.aggressivity == AGGRESSIVITY_MAX then 0
    else match c.state
      case Init => 1 + ClimbPlus(1, AGGRESSIVITY_MIN + 1)
      case Plus => ClimbPlus(c.age, c.aggressivity)
      case PlusPlus => Ceil4(AGGRESSIVITY_MAX - c.aggressivity)
      case Zero => ClimbZero(c.age, c.aggressivity)
      case Minus =>
        if c.age >= SLOWER_AFTER && c.aggressivity > AGGRESSIVITY_MIN
        then 2 + ClimbZero(1, Clamp(c.aggressivity - 4))
        else 1 + ClimbZero(1, c.aggressivity)
      case _ => 1 + ClimbZero(1, c.aggressivity)
  }

  lemma ClimbBounds(c: Control)
    requires Reachable(c)
    ensures 0 <= Climb(c) <= 39 && (Climb(c) == 0 <==> c.aggressivity == AGGRESSIVITY_MAX)
  {
  }

  lemma ReducingClimbs(c: Control, score: real, successScore: real)
    requires Reachable(c) && NoEvent(c, score, successScore) && score >= 0.0 && Reducing(c.state)
    ensures Climb(Next(c, score, successScore)) == Climb(c) - 1
  {
  }

  lemma GrowingClimbs(c: Control, score: real, successScore: real)
    requires Reachable(c) && NoEvent(c, score, successScore) && score >= 0.0 && Growing(c.state)
    ensures Climb(Next(c, score, successScore)) == if Climb(c) == 0 then 0 else Climb(c) - 1
  {
  }

  lemma WaitingClimbs(c: Control, score: real, successScore: real)
    requires Reachable(c) && NoEvent(c, score, successScore) && score >= 0.0
    requires !Growing(c.state) && !Reducing(c.state)
    ensures Climb(Next(c, score, successScore)) == if Climb(c) == 0 then 0 else Climb(c) - 1
  {
  }

  /** A calm update brings the maximum one step nearer, and keeps it once it is there. */
  lemma CalmStep(c: Control, score: real, successScore: real)
    requires Reachable(c) && NoEvent(c, score, successScore) && score >= 0.0
    ensures var next := Next(c, score, successScore);
      Climb(next) == if Climb(c) == 0 then 0 else Climb(c) - 1
  {
    if Reducing(c.state) {
      ReducingClimbs(c, score, successScore);
      ClimbBounds(c);
    } else if Growing(c.state) {
      GrowingClimbs(c, score, successScore);
    } else {
      WaitingClimbs(c, score, successScore);
    }
  }

  /**
   From any reachable state, calm scores drive the aggressivity to its maximum in exactly Climb(c)
   updates, at most 39, and keep it there.
   */
  lemma {:induction false} CalmReachesMaximum(c: Control, scores: seq<real>, successScore: real)
    requires Reachable(c) && NoEvents(c, scores, successScore)
    requires forall i | 0 <= i < |scores| :: scores[i] >= 0.0
    ensures Reachable(Run(c, scores, successScore)) && Climb(c) <= 39
    ensures Climb(Run(c, scores, successScore)) == if |scores| < Climb(c) then Climb(c) - |scores| else 0
    ensures Run(c, scores, successScore).aggressivity == AGGRESSIVITY_MAX <==> |scores| >= Climb(c)
  {
    ClimbBounds(c);
    if scores != [] {
      var front := scores[..|scores| - 1];
      assert forall i | 0 <= i < |front| :: front[..i] == scores[..i];
      CalmReachesMaximum(c, front, successScore);
      var before := Run(c, front, successScore);
      assert NoEvent(before, scores[|front|], successScore);
      NextStaysReachable(before, scores[|front|], successScore);
      CalmStep(before, scores[|front|], successScore);
      ClimbBounds(Run(c, scores, successScore));
    }
  }

  // ---------- failing targets ----------

  /** At the minimum, or one hundredth above it for one update. */
  ghost predicate AtFloor(c: Control) {
    || (c.aggressivity == AGGRESSIVITY_MIN && !Growing(c.state))
    || (c.aggressivity == AGGRESSIVITY_MIN + 1 && c.state.Plus? && c.age == 1)
  }

  function FallMinus(age: int, aggressivity: int): int {
    var slow := if age < SLOWER_AFTER then SLOWER_AFTER - age else 0;
    var room := aggressivity - AGGRESSIVITY_MIN;
    if room <= slow then room else slow + Ceil4(room - slow)
  }

  function FallZero(age: int, aggressivity: int): int {
    if age >= ADD_AFTER && aggressivity < AGGRESSIVITY_MAX then 2 + FallMinus(1, aggressivity)
    else 1 + FallMinus(1, aggressivity - 1)
  }

  /** Updates with negative scores until the aggressivity is minimal. */
  function Fall(c: Control): int {
    if c.aggressivity == AGGRESSIVITY_MIN then 0
    else match c.state
      case Minus => FallMinus(c.age, c.aggressivity)
      case MinusMinus => Ceil4(c.aggressivity - AGGRESSIVITY_MIN)
      case Plus =>
        if c.age >= FASTER_AFTER && c.aggressivity < AGGRESSIVITY_MAX
        then 2 + FallMinus(1, Clamp(c.aggressivity + 4) - 1)
        else 1 + FallMinus(1, c.aggressivity - 1)
      case Zero => FallZero(c.age, c.aggressivity)
      case Success => 1 + FallZero(1, c.aggressivity)
      case _ => 1 + FallMinus(1, c.aggressivity - 1)
  }

  lemma FallBounds(c: Control)
    requires Reachable(c)
    ensures 0 <= Fall(c) <= 30 && (Fall(c) == 0 <==> c.aggressivity == AGGRESSIVITY_MIN)
    ensures Fall(c) == 0 ==> AtFloor(c)
  {
  }

  lemma FloorStays(c: Control, score: real, successScore: real)
    requires Reachable(c) && NoEvent(c, score, successScore) && score < 0.0 && AtFloor(c)
    ensures var next := Next(c, score, successScore);
      AtFloor(next) && (c.aggressivity > AGGRESSIVITY_MIN ==> next.aggressivity == AGGRESSIVITY_MIN)
  {
  }

  lemma ReducingFalls(c: Control, score: real, successScore: real)
    requires Reachable(c) && NoEvent(c, score, successScore) && score < 0.0 && !AtFloor(c)
    requires Reducing(c.state)
    ensures Fall(Next(c, score, successScore)) == Fall(c) - 1
  {
  }

  lemma GrowingFalls(c: Control, score: real, successScore: real)
    requires Reachable(c) && NoEvent(c, score, successScore) && score < 0.0 && !AtFloor(c)
    requires Growing(c.state)
    ensures Fall(Next(c, score, successScore)) == Fall(c) - 1
  {
  }

  lemma WaitingFalls(c: Control, score: real, successScore: real)
    requires Reachable(c) && NoEvent(c, score, successScore) && score < 0.0 && !AtFloor(c)
    requires !Growing(c.state) && !Reducing(c.state)
    ensures Fall(Next(c, score, successScore)) == Fall(c) - 1
  {
  }

  /** A negative update that sets no record brings the floor one step nearer, or stays on it. */
  lemma SourStep(c: Control, score: real, successScore: real)
    requires Reachable(c) && NoEvent(c, score, successScore) && score < 0.0
    ensures var next := Next(c, score, successScore);
      if Fall(c) == 0 then AtFloor(next) else Fall(next) == Fall(c) - 1
    ensures AtFloor(c) ==> AtFloor(Next(c, score, successScore))
  {
    FallBounds(c);
    if AtFloor(c) {
      FloorStays(c, score, successScore);
    } else if Reducing(c.state) {
      ReducingFalls(c, score, successScore);
    } else if Growing(c.state) {
      GrowingFalls(c, score, successScore);
    } else {
      WaitingFalls(c, score, successScore);
    }
  }

  /** How far n negative updates that set no record have come from c. */
  ghost predicate FallenFor(c: Control, n: nat, now: Control) {
    if n < Fall(c) then Fall(now) == Fall(c) - n
    else AtFloor(now) && (n == Fall(c) ==> Fall(now) == 0)
  }

  lemma FallOneMore(c: Control, n: nat, now: Control, next: Control)
    requires Reachable(now) && Reachable(next) && FallenFor(c, n, now)
    requires if Fall(now) == 0 then AtFloor(next) else Fall(next) == Fall(now) - 1
    requires AtFloor(now) ==> AtFloor(next)
    ensures FallenFor(c, n + 1, next)
  {
    FallBounds(next);
  }

  lemma {:induction false} FallsUpdateByUpdate(c: Control, scores: seq<real>, successScore: real)
    requires Reachable(c) && NoEvents(c, scores, successScore)
    requires forall i | 0 <= i < |scores| :: scores[i] < 0.0
    ensures Reachable(Run(c, scores, successScore)) && FallenFor(c, |scores|, Run(c, scores, successScore))
  {
    if scores == [] {
      FallBounds(c);
    } else {
      var front, last := scores[..|scores| - 1], scores[|scores| - 1];
      assert forall i | 0 <= i < |front| :: front[..i] == scores[..i];
      FallsUpdateByUpdate(c, front, successScore);
      var now := Run(c, front, successScore);
      assert NoEvent(now, last, successScore);
      NextStaysReachable(now, last, successScore);
      SourStep(now, last, successScore);
      FallOneMore(c, |front|, now, Next(now, last, successScore));
    }
  }

  /**
   From any reachable state, negative scores that set no record drive the aggressivity to its
   minimum in exactly Fall(c) updates, at most 30, and from then on it never exceeds the minimum by
   more than 0.01.
   */
  lemma SourReachesFloor(c: Control, scores: seq<real>, successScore: real)
    requires Reachable(c) && NoEvents(c, scores, successScore)
    requires forall i | 0 <= i < |scores| :: scores[i] < 0.0
    ensures var now := Run(c, scores, successScore);
      && Fall(c) <= 30
      && (|scores| < Fall(c) ==> now.aggressivity > AGGRESSIVITY_MIN)
      && (|scores| == Fall(c) ==> now.aggressivity == AGGRESSIVITY_MIN)
      && (|scores| >= Fall(c) ==> now.aggressivity <= AGGRESSIVITY_MIN + 1)
  {
    FallsUpdateByUpdate(c, scores, successScore);
    FallBounds(c);
    FallBounds(Run(c, scores, successScore));
  }

  // ---------- at the floor ----------

  /** Updates with negative scores until the aggressivity is one hundredth above its minimum. */
  function Rise(c: Control): int {
    if c.aggressivity > AGGRESSIVITY_MIN then 0
    else match c.state
      case Init => 1
      case Zero => if c.age >= ADD_AFTER then 1 else ADD_AFTER - c.age + 1
      case _ => 6
  }

  lemma RiseBounds(c: Control)
    requires Reachable(c) && AtFloor(c)
    ensures 0 <= Rise(c) <= 6 && (Rise(c) == 0 <==> c.aggressivity == AGGRESSIVITY_MIN + 1)
    ensures Rise(c) != 0 <==> c.aggressivity == AGGRESSIVITY_MIN
  {
  }

  lemma RiseStep(c: Control, score: real, successScore: real)
    requires Reachable(c) && NoEvent(c, score, successScore) && score < 0.0 && AtFloor(c)
    ensures var next := Next(c, score, successScore);
      AtFloor(next) && Rise(next) == if Rise(c) == 0 then 6 else Rise(c) - 1
  {
    FloorStays(c, score, successScore);
  }

  /** Where n negative updates from c have come. */
  ghost predicate PulsedFor(c: Control, n: nat, now: Control) {
    AtFloor(now) && Rise(now) == (Rise(c) - n) % 7
  }

  lemma OneLess(a: int)
    ensures (a - 1) % 7 == if a % 7 == 0 then 6 else a % 7 - 1
  {
  }

  lemma PulseOneMore(c: Control, n: nat, now: Control, score: real, successScore: real)
    requires PulsedFor(c, n, now) && Reachable(now) && NoEvent(now, score, successScore) && score < 0.0
    ensures PulsedFor(c, n + 1, Next(now, score, successScore))
  {
    RiseStep(now, score, successScore);
    OneLess(Rise(c) - n);
  }

  lemma {:induction false} PulsesUpdateByUpdate(c: Control, scores: seq<real>, successScore: real)
    requires Reachable(c) && AtFloor(c) && NoEvents(c, scores, successScore)
    requires forall i | 0 <= i < |scores| :: scores[i] < 0.0
    ensures Reachable(Run(c, scores, successScore)) && PulsedFor(c, |scores|, Run(c, scores, successScore))
  {
    if scores == [] {
      RiseBounds(c);
    } else {
      var front, last := scores[..|scores| - 1], scores[|scores| - 1];
      assert forall i | 0 <= i < |front| :: front[..i] == scores[..i];
      PulsesUpdateByUpdate(c, front, successScore);
      var now := Run(c, front, successScore);
      assert NoEvent(now, last, successScore);
      NextStaysReachable(now, last, successScore);
      PulseOneMore(c, |front|, now, last, successScore);
    }
  }

  /**
   At the floor, negative scores that set no record raise the aggressivity to 0.02 after exactly
   Rise(c) updates, at most 6, and from then on once in every 7 updates; else it is 0.01.
   */
  lemma FloorPulses(c: Control, scores: seq<real>, successScore: real)
    requires Reachable(c) && AtFloor(c) && NoEvents(c, scores, successScore)
    requires forall i | 0 <= i < |scores| :: scores[i] < 0.0
    ensures 0 <= Rise(c) <= 6
    ensures Run(c, scores, successScore).aggressivity == if (Rise(c) - |scores|) % 7 == 0 then 2 else 1
  {
    RiseBounds(c);
    PulsesUpdateByUpdate(c, scores, successScore);
    RiseBounds(Run(c, scores, successScore));
  }

  // ---------- successes and records ----------

  /** Growing ends at the maximum, and reducing at the minimum. */
  lemma LimitsEndTheirStates(c: Control, score: real, successScore: real)
    requires Reachable(c) && NoEvent(c, score, successScore)
    ensures c.aggressivity == AGGRESSIVITY_MAX ==> !Growing(Next(c, score, successScore).state)
    ensures c.aggressivity == AGGRESSIVITY_MIN ==> !Reducing(Next(c, score, successScore).state)
  {
  }

  /** What a success or a record does at once: only a new least score lowers the aggressivity, by 0.01. */
  lemma EventsAtOnce(c: Control, score: real, successScore: real)
    requires Reachable(c) && c.minScore.Some? && !NoEvent(c, score, successScore)
    ensures var next := Next(c, score, successScore);
      next.aggressivity ==
        if score < successScore && score < c.minScore.value && c.aggressivity > 1 then c.aggressivity - 1
        else c.aggressivity
  {
  }

  /** n calm updates after state Zero was entered; the one after the fourth lets the aggressivity grow. */
  ghost predicate WaitedFor(c: Control, n: nat, now: Control) {
    if n == 5 && c.aggressivity < AGGRESSIVITY_MAX then now.aggressivity == c.aggressivity + 1
    else now.state.Zero? && now.age == n + 1 && now.aggressivity == c.aggressivity
  }

  lemma WaitOneMore(c: Control, n: nat, now: Control, score: real, successScore: real)
    requires WaitedFor(c, n, now) && Reachable(now) && NoEvent(now, score, successScore) && score >= 0.0 && n < 5
    ensures WaitedFor(c, n + 1, Next(now, score, successScore))
  {
  }

  lemma {:induction false} ZeroWaits(c: Control, scores: seq<real>, successScore: real)
    requires Reachable(c) && c.state.Zero? && c.age == 1 && NoEvents(c, scores, successScore) && |scores| <= 5
    requires forall i | 0 <= i < |scores| :: scores[i] >= 0.0
    ensures Reachable(Run(c, scores, successScore)) && WaitedFor(c, |scores|, Run(c, scores, successScore))
  {
    if scores != [] {
      var front, last := scores[..|scores| - 1], scores[|scores| - 1];
      assert forall i | 0 <= i < |front| :: front[..i] == scores[..i];
      ZeroWaits(c, front, successScore);
      var now := Run(c, front, successScore);
      assert NoEvent(now, last, successScore);
      NextStaysReachable(now, last, successScore);
      WaitOneMore(c, |front|, now, last, successScore);
    }
  }

  lemma {:induction false} RunFromNext(c: Control, scores: seq<real>, successScore: real)
    requires scores != []
    ensures Run(c, scores, successScore) == Run(Next(c, scores[0], successScore), scores[1..], successScore)
  {
    if |scores| > 1 {
      var n := |scores| - 1;
      RunFromNext(c, scores[..n], successScore);
      assert scores[..n][1..] == scores[1..][..n - 1];
    } else {
      assert scores[..0] == [] && scores[1..] == [];
    }
  }

  lemma NoEventsFromNext(c: Control, scores: seq<real>, successScore: real)
    requires scores != [] && NoEvents(c, scores, successScore)
    ensures NoEvent(c, scores[0], successScore)
    ensures NoEvents(Next(c, scores[0], successScore), scores[1..], successScore)
  {
    assert scores[..0] == [];
    forall i | 0 <= i < |scores| - 1
      ensures NoEvent(
        Run(Next(c, scores[0], successScore), scores[1..][..i], successScore), scores[1..][i], successScore)
    {
      RunFromNext(c, scores[..i + 1], successScore);
      assert scores[..i + 1][1..] == scores[1..][..i];
      assert NoEvent(Run(c, scores[..i + 1], successScore), scores[i + 1], successScore);
    }
  }

  /** The calm updates after which the aggressivity grows again: fewer after a new greatest score. */
  function Hold(c: Control, score: real, successScore: real): nat
    requires c.maxScore.Some?
  {
    if score < successScore && c.maxScore.value < score then 5 else 6
  }

  lemma AfterEvent(c: Control, score: real, successScore: real)
    requires Reachable(c) && c.maxScore.Some? && !NoEvent(c, score, successScore)
    ensures var next := Next(c, score, successScore);
      && Reachable(next)
      && if Hold(c, score, successScore) == 5 then next.state.Zero? && next.age == 1
         else forall calm | NoEvent(next, calm, successScore) && calm >= 0.0 ::
           var after := Next(next, calm, successScore);
           after.state.Zero? && after.age == 1 && after.aggressivity == next.aggressivity
  {
    NextStaysReachable(c, score, successScore);
  }

  /** After a success or a record, calm updates hold the aggressivity, and let it grow with the last one. */
  lemma EventsHold(c: Control, score: real, scores: seq<real>, successScore: real)
    requires Reachable(c) && c.maxScore.Some? && !NoEvent(c, score, successScore)
    requires NoEvents(Next(c, score, successScore), scores, successScore)
    requires |scores| <= Hold(c, score, successScore) && forall i | 0 <= i < |scores| :: scores[i] >= 0.0
    ensures var next := Next(c, score, successScore);
      Run(next, scores, successScore).aggressivity ==
        if |scores| == Hold(c, score, successScore) && next.aggressivity < 100 then next.aggressivity + 1
        else next.aggressivity
  {
    var next := Next(c, score, successScore);
    AfterEvent(c, score, successScore);
    if Hold(c, score, successScore) == 5 {
      ZeroWaits(next, scores, successScore);
    } else if scores != [] {
      RunFromNext(next, scores, successScore);
      NoEventsFromNext(next, scores, successScore);
      var zero := Next(next, scores[0], successScore);
      NextStaysReachable(next, scores[0], successScore);
      ZeroWaits(zero, scores[1..], successScore);
    }
  }
}
