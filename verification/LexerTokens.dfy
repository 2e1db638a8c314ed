/**
 The tokens of the scanner of autodafe/src/adc/lexer.c in terms of the rules of lexer.l: which
 texts the rules with actions stand for, and what the line counter counts.
 */
module LexerTokens {
  import opened Wrappers
  import opened Units
  import opened Scanner
  import opened LexerTables
  import opened LexerRules
  import opened LexerAutomaton

  /** The longest prefix of text[p..] that matches a rule, and the first rule it matches. */
  ghost predicate IsToken(text: seq<Byte>, p: nat, q: nat, rule: nat) {
    && p < q <= |text| && rule != 0 && IsFirstRule(rule, text[p..q])
    && forall n | q < n <= |text| :: IsFirstRule(0, text[p..n])
  }

  lemma {:induction false} FirstRuleIsUnique(a: nat, b: nat, w: seq<Byte>)
    requires IsFirstRule(a, w) && IsFirstRule(b, w)
    ensures a == b
  {
  }

  /** The scanner's tokens are those of the rules. */
  lemma {:induction false} LongestMatchIff(text: seq<Byte>, p: nat, q: nat, rule: nat)
    requires TableFacts(Lexer()) && IsText(text)
    ensures LongestMatch(Lexer(), text, p, q, rule) <==> IsToken(text, p, q, rule)
  {
    forall n | p < n <= |text| ensures IsFirstRule(Rule(Lexer(), text, p, n), text[p..n]) {
      TablesImplementRules(text, p, n);
    }
    if IsToken(text, p, q, rule) {
      FirstRuleIsUnique(rule, Rule(Lexer(), text, p, q), text[p..q]);
      forall n | q < n <= |text| ensures Rule(Lexer(), text, p, n) == 0 {
        FirstRuleIsUnique(0, Rule(Lexer(), text, p, n), text[p..n]);
      }
    }
  }

  // ---------- the rules with actions ----------

  lemma Signs()
    ensures Codes("\n") == [10] && Codes("/*") == [47, 42]
    ensures Codes("(") == [40] && Codes(")") == [41] && Codes(";") == [59] && Codes(",") == [44]
  {
  }

  /** Two slashes, a newline at the end, and none before. */
  predicate IsCommentLine(w: seq<Byte>) {
    |w| >= 3 && w[0] == 47 && w[1] == 47 && w[|w| - 1] == 10 && 10 !in w[..|w| - 1]
  }

  lemma SignMatches(w: seq<Byte>)
    ensures w == [10] <==> Matches(2, w)
    ensures w == [47, 42] <==> Matches(4, w)
    ensures w == [40] <==> Matches(5, w)
    ensures w == [41] <==> Matches(6, w)
    ensures w == [59] <==> Matches(7, w)
    ensures w == [44] <==> Matches(8, w)
  {
    Signs();
  }

  lemma CommentMatches(w: seq<Byte>)
    ensures IsCommentLine(w) <==> Matches(1, w)
  {
  }

  /** An earlier rule can only match a single byte that is a sign or a blank. */
  lemma SingleByte(w: seq<Byte>, r: nat)
    requires |w| == 1 && w[0] !in {9, 10, 32, 40, 41, 44, 59} && r < 12
    ensures !Matches(r, w)
  {
    SignMatches(w);
    OpenStringIsNotEmpty();
  }

  lemma OpenStringIsNotEmpty()
    ensures forall w | IsString(w) :: |w| >= 2
  {
  }

  lemma {:induction false} VoidTexts(w: seq<Byte>, rule: nat)
    requires rule != 0 && IsFirstRule(rule, w)
    ensures rule == VOID <==> |w| == 1 && w[0] !in {9, 10, 32, 40, 41, 44, 59}
  {
    if |w| == 1 {
      if w[0] !in {9, 10, 32, 40, 41, 44, 59} {
        if rule < 12 {
          SingleByte(w, rule);
        }
        assert Matches(12, w);
      } else {
        SignMatches(w);
        assert w[0] == 9 || w[0] == 32 ==> Matches(3, w);
        assert w == [w[0]];
      }
    }
  }

  /** The texts that the rules of the scanner stand for. */
  lemma {:induction false} TextsOfRules(w: seq<Byte>, rule: nat)
    requires rule != 0 && IsFirstRule(rule, w)
    ensures rule == LINE_COMMENT <==> IsCommentLine(w)
    ensures rule == NEW_LINE <==> w == [10]
    ensures rule == OPEN_COMMENT <==> w == [47, 42]
    ensures rule == 5 <==> w == [40]
    ensures rule == 6 <==> w == [41]
    ensures rule == 7 <==> w == [59]
    ensures rule == 8 <==> w == [44]
    ensures rule == QUOTED_STRING <==> IsString(w)
    ensures rule == VOID <==> |w| == 1 && w[0] !in {9, 10, 32, 40, 41, 44, 59}
  {
    SignMatches(w);
    CommentMatches(w);
    VoidTexts(w, rule);
    if IsString(w) {
      StringStartsWithQuote(w[..|w| - 1]);
      assert Matches(9, w);
    }
  }

  lemma {:induction false} StringStartsWithQuote(w: seq<Byte>)
    requires OpenString(w)
    ensures w[0] == QUOTE && NEWLINE !in w
    decreases |w|
  {
    var n := |w| - 1;
    if w == [QUOTE] {
    } else if OpenString(w[..n]) && IsPlain(w[n]) {
      StringStartsWithQuote(w[..n]);
      assert w == w[..n] + [w[n]];
    } else {
      StringStartsWithQuote(w[..n - 1]);
      assert w == w[..n - 1] + [w[n - 1], w[n]];
    }
  }

  /** Scanning is given up at a stray byte, and at a string with more than 255 bytes between its quotes. */
  lemma FatalTexts(text: seq<Byte>, token: Token)
    requires token.start <= token.end <= |text|
    requires token.rule != 0 && IsFirstRule(token.rule, text[token.start..token.end])
    ensures var w := text[token.start..token.end];
      Fatal(token) <==>
        || (|w| == 1 && w[0] !in {9, 10, 32, 40, 41, 44, 59})
        || (IsString(w) && |w| - 2 > 255)
  {
    TextsOfRules(text[token.start..token.end], token.rule);
  }

  // ---------- lines ----------

  lemma {:induction false} NewlinesConcat(a: seq<Byte>, b: seq<Byte>)
    ensures Newlines(a + b) == Newlines(a) + Newlines(b)
  {
    if a == [] {
      assert a + b == b;
    } else {
      NewlinesConcat(a[1..], b);
      assert (a + b)[1..] == a[1..] + b;
    }
  }

  lemma {:induction false} NoNewlines(w: seq<Byte>)
    requires NEWLINE !in w
    ensures Newlines(w) == 0
  {
    if w != [] {
      NoNewlines(w[1..]);
    }
  }

  lemma KeywordHasNoNewline(rule: nat)
    requires rule > 2
    ensures '\n' !in Literal(rule)
  {
  }

  lemma TextHasNoNewline(w: seq<Byte>, rule: nat)
    requires rule > 2 && Matches(rule, w)
    ensures NEWLINE !in w
  {
    if rule == 9 {
      StringStartsWithQuote(w[..|w| - 1]);
      assert w == w[..|w| - 1] + [QUOTE];
    } else if rule != 3 && !(10 <= rule <= 12) {
      KeywordHasNoNewline(rule);
      forall i | 0 <= i < |w| ensures w[i] != NEWLINE {
        assert Literal(rule)[i] in Literal(rule);
      }
    }
  }

  /** The text of a token has a newline, and just one, if and only if its rule counts one. */
  lemma {:induction false} TextNewlines(w: seq<Byte>, rule: nat)
    requires rule != 0 && IsFirstRule(rule, w)
    ensures Newlines(w) == if rule == LINE_COMMENT || rule == NEW_LINE then 1 else 0
  {
    if rule == LINE_COMMENT {
      var n := |w| - 1;
      NewlinesConcat(w[..n], w[n..]);
      NoNewlines(w[..n]);
      assert w == w[..n] + w[n..] && w[n..] == [NEWLINE] && w[n..][1..] == [];
    } else if rule == NEW_LINE {
      Signs();
      assert w == [NEWLINE] && w[1..] == [];
    } else {
      TextHasNoNewline(w, rule);
      NoNewlines(w);
    }
  }

  /** The newline that ends the text is not counted when the last token opens a comment that is not closed. */
  ghost function Lost(text: seq<Byte>, tokens: seq<Token>): nat {
    if tokens == [] then 0
    else
      var last := tokens[|tokens| - 1];
      if last.rule == OPEN_COMMENT && last.end < |text| && !Closed(text, last.end) && text[|text| - 1] == NEWLINE
      then 1 else 0
  }

  /** What a token and what its action skips add to the line counter. */
  ghost predicate CountsItsLines(text: seq<Byte>, token: Token) {
    token.start <= token.end <= |text|
    && var end := Resume(text, token.end, token.rule);
       && token.end <= end <= |text|
       && LinesOf(text, token.end, token.rule) + Lost(text, [token]) == Newlines(text[token.start..end])
       && (Lost(text, [token]) != 0 ==> end == |text|)
  }

  lemma TokenLines(text: seq<Byte>, token: Token)
    requires TableFacts(Lexer()) && IsText(text)
    requires LongestMatch(Lexer(), text, token.start, token.end, token.rule)
    ensures CountsItsLines(text, token)
  {
    var p, q, end := token.start, token.end, Resume(text, token.end, token.rule);
    LongestMatchIff(text, p, q, token.rule);
    TextNewlines(text[p..q], token.rule);
    CommentEndBounds(text, q);
    NewlinesConcat(text[p..q], text[q..end]);
    assert text[p..end] == text[p..q] + text[q..end];
    if token.rule == OPEN_COMMENT {
      CommentLinesAreNewlines(text, q);
      CommentEndsAtFirstClose(text, q);
    } else {
      assert text[q..end] == [];
    }
  }

  lemma LinesOfMore(text: seq<Byte>, tokens: seq<Token>)
    requires tokens != [] && CountsItsLines(text, tokens[|tokens| - 1])
    ensures var front, last := tokens[..|tokens| - 1], tokens[|tokens| - 1];
      && LineCount(text, tokens) == LineCount(text, front) + LinesOf(text, last.end, last.rule)
      && Lost(text, tokens) == Lost(text, [last])
  {
  }

  lemma NewlinesUpTo(text: seq<Byte>, middle: nat, end: nat)
    requires middle <= end <= |text|
    ensures Newlines(text[..end]) == Newlines(text[..middle]) + Newlines(text[middle..end])
  {
    NewlinesConcat(text[..middle], text[middle..end]);
    assert text[..end] == text[..middle] + text[middle..end];
  }

  lemma {:induction false} TokensCountLines(t: Tables, text: seq<Byte>, tokens: seq<Token>, end: nat)
    requires TableFacts(t) && IsText(text) && IsTokenization(t, text, tokens, end)
    requires forall token: Token | LongestMatch(t, text, token.start, token.end, token.rule) ::
      CountsItsLines(text, token)
    ensures end <= |text| && LineCount(text, tokens) + Lost(text, tokens) == Newlines(text[..end])
    ensures Lost(text, tokens) != 0 ==> end == |text|
    decreases |tokens|
  {
    if tokens == [] {
      assert text[..end] == [];
    } else {
      var front, last := tokens[..|tokens| - 1], tokens[|tokens| - 1];
      LastToken(t, text, tokens, end);
      TokensCountLines(t, text, front, last.start);
      LinesOfMore(text, tokens);
      NewlinesUpTo(text, last.start, end);
    }
  }

  /**
   Scanning counts exactly the newlines of the text it has read, but for the one that ends the text
   inside a comment that is not closed.
   */
  lemma {:induction false} LinesAreNewlines(text: seq<Byte>, tokens: seq<Token>, end: nat)
    requires TableFacts(Lexer()) && IsText(text) && IsTokenization(Lexer(), text, tokens, end)
    ensures end <= |text| && LineCount(text, tokens) + Lost(text, tokens) == Newlines(text[..end])
  {
    forall token: Token | LongestMatch(Lexer(), text, token.start, token.end, token.rule)
      ensures CountsItsLines(text, token)
    {
      TokenLines(text, token);
    }
    TokensCountLines(Lexer(), text, tokens, end);
  }
}
