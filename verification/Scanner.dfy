/**
 The table-driven scanner of autodafe/src/adc/lexer.c: the match loop of yylex over the
 compressed tables, its back-up step, and skip_comment.  The tables are parameters; the facts
 the proofs use about them are in TableFacts and DefaultRule.
 */
module Scanner {
  import opened Wrappers
  import opened Units

  const START := 1
  const JAM_STATE := 120
  const JAM_BASE := 165
  const FIRST_TEMPLATE := 121
  const STATES := 129
  const CLASSES := 40

  datatype Tables = Tables(
    ec: seq<nat>, accept: seq<nat>, meta: seq<nat>, base: seq<nat>, def: seq<nat>, nxt: seq<nat>, chk: seq<nat>)

  const STAR := 42
  const SLASH := 47
  const NEWLINE := 10

  predicate IsClass(c: int) { 1 <= c < CLASSES }

  predicate IsState(s: int) { 1 <= s <= JAM_STATE }

  /** Every table index the match loop forms is in range; class 0 is the NUL byte alone. */
  ghost predicate Shape(t: Tables) {
    && |t.ec| == 256 && (forall b | 1 <= b < 256 :: IsClass(t.ec[b]))
    && |t.meta| == CLASSES && (forall c | IsClass(c) :: IsClass(t.meta[c]))
    && |t.accept| == JAM_STATE + 1
    && |t.base| == STATES && |t.def| == STATES && |t.nxt| == |t.chk|
    && (forall s | 0 <= s < STATES :: t.base[s] + CLASSES <= |t.chk|)
    && (forall i | 1 <= i < |t.nxt| :: IsState(t.nxt[i]))
    && (forall s | 1 <= s < STATES && s != JAM_STATE :: 1 <= t.def[s] < STATES)
  }

  /** The chain of default states from s reaches the jam state within the given number of steps. */
  predicate ReachesJam(t: Tables, s: nat, steps: nat)
    requires |t.def| == STATES
    decreases steps
  {
    s == JAM_STATE || (steps > 0 && s < STATES && ReachesJam(t, t.def[s], steps - 1))
  }

  ghost predicate JamAbsorbs(t: Tables)
    requires Shape(t)
  {
    forall c | IsClass(c) :: JamStays(t, c)
  }

  ghost predicate JamStays(t: Tables, c: int)
    requires Shape(t) && IsClass(c)
  {
    t.chk[t.base[JAM_STATE] + c] == JAM_STATE && t.nxt[t.base[JAM_STATE] + c] == JAM_STATE
  }

  /** One transition through the compressed tables. */
  function Step(t: Tables, s: nat, c: nat, steps: nat): (r: nat)
    requires Shape(t) && JamAbsorbs(t)
    requires 1 <= s < STATES && IsClass(c) && ReachesJam(t, s, steps)
    ensures IsState(r)
    decreases steps
  {
    if t.chk[t.base[s] + c] == s then t.nxt[t.base[s] + c]
    else Step(t, t.def[s], DefaultClass(t, t.def[s], c), steps - 1)
  }

  /** The class to look up in a default state: template states see the meta class. */
  function DefaultClass(t: Tables, s: nat, c: nat): nat
    requires |t.meta| == CLASSES && IsClass(c)
  {
    if s >= FIRST_TEMPLATE then t.meta[c] else c
  }

  ghost predicate ChainsEnd(t: Tables)
    requires |t.def| == STATES
  {
    forall s {:trigger ReachesJam(t, s, STATES)} | 1 <= s < STATES :: ReachesJam(t, s, STATES)
  }

  /** A state with the jam base has only jam successors. */
  ghost predicate JamBaseJams(t: Tables)
    requires Shape(t) && JamAbsorbs(t) && ChainsEnd(t)
  {
    forall s, c {:trigger Step(t, s, c, STATES)} | IsState(s) && IsClass(c) && t.base[s] == JAM_BASE ::
      Step(t, s, c, STATES) == JAM_STATE
  }

  /** Every byte other than NUL alone is accepted: the default rule of the scanner. */
  ghost predicate DefaultRule(t: Tables)
    requires Shape(t) && JamAbsorbs(t) && ChainsEnd(t)
  {
    forall c {:trigger Step(t, START, c, STATES)} | IsClass(c) :: t.accept[Step(t, START, c, STATES)] != 0
  }

  ghost predicate TableFacts(t: Tables) {
    && Shape(t) && JamAbsorbs(t) && ChainsEnd(t) && JamBaseJams(t)
    && t.accept[JAM_STATE] == 0
  }

  /** Text without NUL bytes, the bytes of a buffer before its end mark. */
  ghost predicate IsText(text: seq<Byte>) {
    forall i | 0 <= i < |text| :: text[i] != 0
  }

  // ---------- the automaton the tables stand for ----------

  function Delta(t: Tables, s: nat, b: Byte): (r: nat)
    requires TableFacts(t) && IsState(s) && b != 0
    ensures IsState(r)
  {
    Step(t, s, t.ec[b], STATES)
  }

  /** The state after reading text[p..q] from the start state. */
  function State(t: Tables, text: seq<Byte>, p: nat, q: nat): (r: nat)
    requires TableFacts(t) && IsText(text) && p <= q <= |text|
    ensures IsState(r)
    decreases q
  {
    if p == q then START else Delta(t, State(t, text, p, q - 1), text[q - 1])
  }

  /** The rule that accepts text[p..q], or 0. */
  function Rule(t: Tables, text: seq<Byte>, p: nat, q: nat): nat
    requires TableFacts(t) && IsText(text) && p <= q <= |text|
  {
    t.accept[State(t, text, p, q)]
  }

  /** text[p..q] is the longest prefix of text[p..] that some rule accepts. */
  ghost predicate LongestMatch(t: Tables, text: seq<Byte>, p: nat, q: nat, rule: nat)
    requires TableFacts(t) && IsText(text)
  {
    && p < q <= |text| && rule != 0 && Rule(t, text, p, q) == rule
    && forall n | q < n <= |text| :: Rule(t, text, p, n) == 0
  }

  /** The scan that starts at p stops before the end-of-buffer mark. */
  ghost predicate EndsBefore(t: Tables, text: seq<Byte>, p: nat, q: nat)
    requires TableFacts(t) && IsText(text)
  {
    p < q <= |text| && t.base[State(t, text, p, q)] == JAM_BASE
  }

  /** After a state with the jam base, everything is jammed. */
  lemma {:induction false} JammedForever(t: Tables, text: seq<Byte>, p: nat, q: nat, n: nat)
    requires TableFacts(t) && IsText(text) && p <= q < n <= |text|
    requires t.base[State(t, text, p, q)] == JAM_BASE
    ensures State(t, text, p, n) == JAM_STATE
  {
    if n - 1 > q {
      JammedForever(t, text, p, q, n - 1);
      var c := t.ec[text[n - 1]];
      assert JamStays(t, c);
    }
  }

  /** Some rule accepts a non-empty prefix of text[p..]. */
  ghost predicate SomeMatch(t: Tables, text: seq<Byte>, p: nat)
    requires TableFacts(t) && IsText(text)
  {
    exists n :: p < n <= |text| && Rule(t, text, p, n) != 0
  }

  lemma OneByteIsAccepted(t: Tables, text: seq<Byte>, p: nat)
    requires TableFacts(t) && DefaultRule(t) && IsText(text) && p < |text|
    ensures SomeMatch(t, text, p)
  {
    assert State(t, text, p, p) == START;
    assert IsClass(t.ec[text[p]]);
    assert Rule(t, text, p, p + 1) != 0;
  }

  /** After a state with the jam base, no rule accepts. */
  lemma JammedAcceptsNothing(t: Tables, text: seq<Byte>, p: nat, q: nat)
    requires TableFacts(t) && IsText(text) && EndsBefore(t, text, p, q)
    ensures forall n | q < n <= |text| :: Rule(t, text, p, n) == 0
  {
    forall n | q < n <= |text| ensures Rule(t, text, p, n) == 0 {
      JammedForever(t, text, p, q, n);
    }
  }

  // ---------- the match loop ----------

  class YyLexer {
    const tables: Tables
    const text: seq<Byte>
    var lastAcceptingState: nat
    var lastAcceptingCpos: nat
    var lineno: int

    constructor (tables: Tables, text: seq<Byte>, lineno: int)
      ensures this.tables == tables && this.text == text && this.lineno == lineno && lastAcceptingState <= JAM_STATE
    {
      this.tables, this.text, this.lineno := tables, text, lineno;
      lastAcceptingState, lastAcceptingCpos := 0, 0;
    }

    /** The inner loop over yy_chk and yy_def, then yy_nxt. */
    method NextState(state: nat, b: Byte) returns (next: nat)
      requires TableFacts(tables) && IsState(state) && b != 0
      ensures next == Delta(tables, state, b)
    {
      var c := tables.ec[b];
      var current := state;
      ghost var steps: nat := STATES;
      while tables.chk[tables.base[current] + c] != current
        invariant 1 <= current < STATES && IsClass(c) && ReachesJam(tables, current, steps)
        invariant Step(tables, current, c, steps) == Delta(tables, state, b)
        decreases steps
      {
        current := tables.def[current];
        if current >= FIRST_TEMPLATE {
          c := tables.meta[c];
        }
        steps := steps - 1;
      }
      next := tables.nxt[tables.base[current] + c];
    }

    /** The recorded state and position are the longest accepted prefix before q, if there is one. */
    ghost predicate Recorded(p: nat, q: nat)
      requires TableFacts(tables) && IsText(text) && p <= q <= |text|
      reads this
    {
      && lastAcceptingState <= JAM_STATE
      && (|| NoneBetween(p, p, q)
          || (&& p < lastAcceptingCpos < q && lastAcceptingState == State(tables, text, p, lastAcceptingCpos)
              && Rule(tables, text, p, lastAcceptingCpos) != 0 && NoneBetween(p, lastAcceptingCpos, q)))
    }

    ghost predicate NoneBetween(p: nat, m: nat, q: nat)
      requires TableFacts(tables) && IsText(text) && p <= m && q <= |text|
    {
      forall n | m < n < q :: Rule(tables, text, p, n) == 0
    }

    /** One turn of the loop: record an accepting state, then read a byte. */
    method ReadByte(p: nat, cp: nat, state: nat) returns (next: nat)
      requires TableFacts(tables) && IsText(text) && p <= cp < |text|
      requires state == State(tables, text, p, cp) && Recorded(p, cp)
      modifies `lastAcceptingState, `lastAcceptingCpos
      ensures next == State(tables, text, p, cp + 1) && Recorded(p, cp + 1)
    {
      if tables.accept[state] != 0 {
        lastAcceptingState := state;
        lastAcceptingCpos := cp;
      }
      assert tables.accept[state] == Rule(tables, text, p, cp);
      next := NextState(state, text[cp]);
    }

    /**
     One token from position p: its end and its rule, or None when the end-of-buffer mark is
     reached first.
     */
    method Match(p: nat) returns (r: Option<(nat, nat)>)
      requires TableFacts(tables) && IsText(text) && p <= |text| && lastAcceptingState <= JAM_STATE
      modifies `lastAcceptingState, `lastAcceptingCpos
      ensures lastAcceptingState <= JAM_STATE
      ensures r.Some? && SomeMatch(tables, text, p) ==> LongestMatch(tables, text, p, r.value.0, r.value.1)
      ensures r.None? <==> forall q: nat :: !EndsBefore(tables, text, p, q)
    {
      var cp, current := p, START;
      while cp < |text|
        invariant p <= cp <= |text| && current == State(tables, text, p, cp)
        invariant Recorded(p, cp)
        invariant forall q: nat | q <= cp :: !EndsBefore(tables, text, p, q)
      {
        current := ReadByte(p, cp, current);
        cp := cp + 1;
        if tables.base[current] == JAM_BASE {
          assert EndsBefore(tables, text, p, cp);
          r := FindAction(p, cp, current);
          return;
        }
      }
      return None;
    }

    /** yy_find_action: the rule of the final state, after backing up if it accepts nothing. */
    method FindAction(p: nat, q: nat, state: nat) returns (r: Option<(nat, nat)>)
      requires TableFacts(tables) && IsText(text) && EndsBefore(tables, text, p, q)
      requires state == State(tables, text, p, q) && Recorded(p, q)
      ensures r.Some?
      ensures SomeMatch(tables, text, p) ==> LongestMatch(tables, text, p, r.value.0, r.value.1)
    {
      var cp, act := q, tables.accept[state];
      assert act == Rule(tables, text, p, q);
      JammedAcceptsNothing(tables, text, p, q);
      if act == 0 {
        cp := lastAcceptingCpos;
        act := tables.accept[lastAcceptingState];
        assert SomeMatch(tables, text, p) ==> act == Rule(tables, text, p, cp);
      }
      return Some((cp, act));
    }

    /** input(): the next byte, or -1 for EOF, which does not advance. */
    method Input(pos: nat) returns (c: int, next: nat)
      requires pos <= |text|
      ensures c == ByteAt(text, pos) && next == if pos < |text| then pos + 1 else pos
    {
      if pos < |text| {
        return text[pos], pos + 1;
      }
      return -1, pos;
    }

    /** Reads past the end of a comment whose opening was just matched. */
    method SkipComment(start: nat) returns (pos: nat)
      requires start <= |text|
      modifies `lineno
      ensures pos == CommentEnd(text, start)
      ensures lineno == old(lineno) + CommentLines(text, start)
    {
      var c1, c2;
      c1, pos := Input(start);
      c2, pos := Input(pos);
      ghost var at := start;
      while c2 != -1 && !(c1 == STAR && c2 == SLASH)
        invariant start <= at <= |text| && c1 == ByteAt(text, at) && c2 == ByteAt(text, at + 1)
        invariant pos == if at + 2 <= |text| then at + 2 else |text|
        invariant CommentEnd(text, at) == CommentEnd(text, start)
        invariant lineno + CommentLines(text, at) == old(lineno) + CommentLines(text, start)
        decreases |text| - at
      {
        if c1 == NEWLINE {
          lineno := lineno + 1;
        }
        c1 := c2;
        c2, pos := Input(pos);
        at := at + 1;
      }
    }

    /** The action of a rule on the position and the line counter. */
    method Act(q: nat, rule: nat) returns (next: nat)
      requires q <= |text|
      modifies `lineno
      ensures next == Resume(text, q, rule)
      ensures lineno == old(lineno) + LinesOf(text, q, rule)
    {
      next := q;
      if rule == LINE_COMMENT || rule == NEW_LINE {
        lineno := lineno + 1;
      } else if rule == OPEN_COMMENT {
        next := SkipComment(q);
      }
    }

    /**
     Repeated calls of yylex: all tokens up to the one that runs into the end-of-buffer mark, or
     up to the first one whose action ends the program.
     */
    method Tokens() returns (tokens: seq<Token>, end: nat)
      requires TableFacts(tables) && DefaultRule(tables) && IsText(text) && lastAcceptingState <= JAM_STATE
      modifies this
      ensures IsTokenization(tables, text, tokens, end)
      ensures lineno == old(lineno) + LineCount(text, tokens)
      ensures Rejected(tokens) || forall q: nat :: !EndsBefore(tables, text, end, q)
    {
      tokens, end := [], 0;
      while true
        invariant IsTokenization(tables, text, tokens, end) && !Rejected(tokens)
        invariant lineno == old(lineno) + LineCount(text, tokens) && lastAcceptingState <= JAM_STATE
        decreases |text| - end
      {
        var m := Match(end);
        if m.None? {
          return;
        }
        OneByteIsAccepted(tables, text, end);
        var token := Token(end, m.value.0, m.value.1);
        CommentEndBounds(text, token.end);
        ghost var before := tokens;
        tokens := tokens + [token];
        assert tokens[..|tokens| - 1] == before;
        end := Act(token.end, token.rule);
        if Fatal(token) {
          return;
        }
      }
    }
  }

  // ---------- tokens ----------

  const LINE_COMMENT := 1
  const NEW_LINE := 2
  const OPEN_COMMENT := 4
  const QUOTED_STRING := 9
  const VOID := 12

  datatype Token = Token(start: nat, end: nat, rule: nat)

  function ByteAt(text: seq<Byte>, pos: nat): int {
    if pos < |text| then text[pos] else -1
  }

  predicate ClosesAt(text: seq<Byte>, i: nat) {
    ByteAt(text, i) == STAR && ByteAt(text, i + 1) == SLASH
  }

  /** The position after the first star-slash from p on, or the end of the text. */
  function CommentEnd(text: seq<Byte>, p: nat): (r: nat)
    requires p <= |text|
    decreases |text| - p
  {
    if |text| <= p + 1 then |text|
    else if ClosesAt(text, p) then p + 2
    else CommentEnd(text, p + 1)
  }

  /** The newlines skip_comment counts. */
  function CommentLines(text: seq<Byte>, p: nat): nat
    requires p <= |text|
    decreases |text| - p
  {
    if |text| <= p + 1 || ClosesAt(text, p) then 0
    else (if text[p] == NEWLINE then 1 else 0) + CommentLines(text, p + 1)
  }

  function Newlines(text: seq<Byte>): nat {
    if text == [] then 0 else (if text[0] == NEWLINE then 1 else 0) + Newlines(text[1..])
  }

  ghost predicate Closed(text: seq<Byte>, p: nat) {
    exists i: nat :: p <= i && ClosesAt(text, i)
  }

  lemma {:induction false} CommentEndBounds(text: seq<Byte>, p: nat)
    requires p <= |text|
    ensures p <= CommentEnd(text, p) <= |text|
    decreases |text| - p
  {
    if p + 1 < |text| && !ClosesAt(text, p) {
      CommentEndBounds(text, p + 1);
    }
  }

  /** A comment ends at its first star-slash; without one it swallows the rest of the text. */
  lemma {:induction false} CommentEndsAtFirstClose(text: seq<Byte>, p: nat)
    requires p <= |text|
    ensures Closed(text, p) ==>
      p + 2 <= CommentEnd(text, p) <= |text| && ClosesAt(text, CommentEnd(text, p) - 2)
    ensures !Closed(text, p) ==> CommentEnd(text, p) == |text|
    ensures forall i: nat | p <= i < CommentEnd(text, p) - 2 :: !ClosesAt(text, i)
    decreases |text| - p
  {
    if p + 1 < |text| && !ClosesAt(text, p) {
      CommentEndsAtFirstClose(text, p + 1);
      assert Closed(text, p) <==> Closed(text, p + 1) by {
        if Closed(text, p) {
          var i: nat :| p <= i && ClosesAt(text, i);
          assert p + 1 <= i;
        }
      }
    }
  }

  /**
   Every newline inside the comment is counted, except that an unclosed comment loses the
   newline that ends the text.
   */
  lemma {:induction false} CommentLinesAreNewlines(text: seq<Byte>, p: nat)
    requires p <= |text| && p <= CommentEnd(text, p) <= |text|
    ensures var lost := if !Closed(text, p) && p < |text| && text[|text| - 1] == NEWLINE then 1 else 0;
      CommentLines(text, p) + lost == Newlines(text[p..CommentEnd(text, p)])
    decreases |text| - p
  {
    var inside := text[p..CommentEnd(text, p)];
    if p == |text| {
      assert inside == [];
    } else if p + 1 == |text| {
      assert inside == [text[p]] && inside[1..] == [];
      assert !Closed(text, p) by {
        assert forall i: nat :: p <= i ==> !ClosesAt(text, i);
      }
    } else if ClosesAt(text, p) {
      assert Closed(text, p);
      assert inside == [text[p], text[p + 1]] && inside[1..] == [text[p + 1]] && inside[1..][1..] == [];
      assert Newlines(inside[1..]) == 0;
    } else {
      CommentEndBounds(text, p + 1);
      CommentLinesAreNewlines(text, p + 1);
      assert inside[1..] == text[p + 1..CommentEnd(text, p + 1)];
      assert Closed(text, p) <==> Closed(text, p + 1) by {
        if Closed(text, p) {
          var i: nat :| p <= i && ClosesAt(text, i);
          assert p + 1 <= i;
        }
      }
    }
  }

  /** Where scanning resumes after a token. */
  function Resume(text: seq<Byte>, q: nat, rule: nat): nat
    requires q <= |text|
  {
    if rule == OPEN_COMMENT then CommentEnd(text, q) else q
  }

  function LinesOf(text: seq<Byte>, q: nat, rule: nat): nat
    requires q <= |text|
  {
    if rule == LINE_COMMENT || rule == NEW_LINE then 1
    else if rule == OPEN_COMMENT then CommentLines(text, q)
    else 0
  }

  function LineCount(text: seq<Byte>, tokens: seq<Token>): nat {
    if tokens == [] then 0
    else
      var last := tokens[|tokens| - 1];
      LineCount(text, tokens[..|tokens| - 1]) + (if last.end <= |text| then LinesOf(text, last.end, last.rule) else 0)
  }

  /** The tokens whose action ends the program: a stray character, or a string that is too long. */
  predicate Fatal(token: Token) {
    token.rule == VOID || (token.rule == QUOTED_STRING && token.end - token.start > 257)
  }

  predicate Rejected(tokens: seq<Token>) {
    tokens != [] && Fatal(tokens[|tokens| - 1])
  }

  /** The tokens follow each other from the start of the text, each a longest match; scanning stands at end. */
  ghost predicate IsTokenization(t: Tables, text: seq<Byte>, tokens: seq<Token>, end: nat)
    requires TableFacts(t) && IsText(text)
    decreases |tokens|
  {
    if tokens == [] then end == 0
    else
      var last := tokens[|tokens| - 1];
      && LongestMatch(t, text, last.start, last.end, last.rule)
      && end == Resume(text, last.end, last.rule) && end <= |text|
      && IsTokenization(t, text, tokens[..|tokens| - 1], last.start)
  }

  lemma LastToken(t: Tables, text: seq<Byte>, tokens: seq<Token>, end: nat)
    requires TableFacts(t) && IsText(text) && tokens != [] && IsTokenization(t, text, tokens, end)
    ensures var n := |tokens| - 1; var last := tokens[n];
      && LongestMatch(t, text, last.start, last.end, last.rule) && end == Resume(text, last.end, last.rule)
      && IsTokenization(t, text, tokens[..n], last.start) && tokens == tokens[..n] + [last]
  {
  }

  lemma SameLastToken(t: Tables, text: seq<Byte>, a: Token, b: Token)
    requires TableFacts(t) && IsText(text) && a.start == b.start
    requires LongestMatch(t, text, a.start, a.end, a.rule) && LongestMatch(t, text, b.start, b.end, b.rule)
    ensures a == b
  {
  }

  /** The text has one tokenization of each length: two runs of the scanner cannot differ. */
  lemma {:induction false} TokenizationIsUnique(
    t: Tables, text: seq<Byte>, a: seq<Token>, aEnd: nat, b: seq<Token>, bEnd: nat)
    requires TableFacts(t) && IsText(text) && |a| == |b|
    requires IsTokenization(t, text, a, aEnd) && IsTokenization(t, text, b, bEnd)
    ensures a == b && aEnd == bEnd
    decreases |a|
  {
    if a != [] {
      var n := |a| - 1;
      LastToken(t, text, a, aEnd);
      LastToken(t, text, b, bEnd);
      TokenizationIsUnique(t, text, a[..n], a[n].start, b[..n], b[n].start);
      SameLastToken(t, text, a[n], b[n]);
    }
  }
}
