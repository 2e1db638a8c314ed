/**
 The rules of autodafe/src/adc/lexer.l, and which facts about tables suffice for them to implement
 the rules: a text is accepted by the first rule whose pattern it matches.
 */
module LexerRules {
  import opened Units
  import opened Scanner

  // ---------- the rules ----------

  const QUOTE := 34
  const BACKSLASH := 92

  predicate IsHexDigit(b: Byte) { 48 <= b <= 57 || 65 <= b <= 70 || 97 <= b <= 102 }

  predicate IsBlank(b: Byte) { b == 9 || b == 32 }

  predicate IsX(b: Byte) { b == 88 || b == 120 }

  predicate IsPlain(b: Byte) { b != QUOTE && b != BACKSLASH && b != NEWLINE }

  /** The text starts with two slashes and has no newline. */
  predicate OpenLine(w: seq<Byte>) {
    |w| >= 2 && w[0] == SLASH && w[1] == SLASH && NEWLINE !in w
  }

  predicate IsLineComment(w: seq<Byte>) {
    w != [] && OpenLine(w[..|w| - 1]) && w[|w| - 1] == NEWLINE
  }

  predicate IsSpace(w: seq<Byte>) {
    w != [] && forall i | 0 <= i < |w| :: IsBlank(w[i])
  }

  /** A quote, and then plain characters and pairs of a backslash and a character. */
  predicate OpenString(w: seq<Byte>)
    decreases |w|
  {
    && w != []
    && var n := |w| - 1;
       || w == [QUOTE]
       || (OpenString(w[..n]) && IsPlain(w[n]))
       || (n > 0 && OpenString(w[..n - 1]) && w[n - 1] == BACKSLASH && w[n] != NEWLINE)
  }

  /** A string that ends with a backslash of its own. */
  predicate OpenEscape(w: seq<Byte>) {
    w != [] && OpenString(w[..|w| - 1]) && w[|w| - 1] == BACKSLASH
  }

  predicate IsString(w: seq<Byte>) {
    w != [] && OpenString(w[..|w| - 1]) && w[|w| - 1] == QUOTE
  }

  predicate IsHexPair(w: seq<Byte>) {
    |w| == 2 && IsHexDigit(w[0]) && IsHexDigit(w[1])
  }

  /** A zero or a backslash, and then an x. */
  predicate IsHexPrefix(w: seq<Byte>) {
    |w| == 2 && (w[0] == 48 || w[0] == BACKSLASH) && IsX(w[1])
  }

  predicate IsPrefixedDigit(w: seq<Byte>) {
    |w| == 3 && IsHexPrefix(w[..2]) && IsHexDigit(w[2])
  }

  predicate IsPrefixedHex(w: seq<Byte>) {
    |w| == 4 && IsPrefixedDigit(w[..3]) && IsHexDigit(w[3])
  }

  /** The rules whose pattern is one text. */
  function Literal(rule: nat): string {
    match rule
    case 2 => "\n"
    case 4 => "/*"
    case 5 => "("
    case 6 => ")"
    case 7 => ";"
    case 8 => ","
    case 13 => "hex"
    case 14 => "string"
    case 15 => "block_begin"
    case 16 => "block_end"
    case 17 => "send"
    case 18 => "recv"
    case 19 => "block_size_l32"
    case 20 => "block_size_b32"
    case 21 => "block_size_l16"
    case 22 => "block_size_b16"
    case 23 => "block_size_dec_string"
    case 24 => "block_size_hex_string"
    case 25 => "block_size_8"
    case 26 => "fuzz_string"
    case 27 => "fuzz_hex"
    case 28 => "block_crc32_l"
    case 29 => "block_crc32_b"
    case _ => ""
  }

  function Codes(s: string): (r: seq<nat>)
    ensures |r| == |s|
  {
    seq(|s|, i requires 0 <= i < |s| => s[i] as nat)
  }

  /** The text matches the pattern of the rule. */
  predicate Matches(rule: nat, w: seq<Byte>) {
    match rule
    case 1 => IsLineComment(w)
    case 3 => IsSpace(w)
    case 9 => IsString(w)
    case 10 => IsHexPair(w)
    case 11 => IsPrefixedHex(w)
    case 12 => |w| == 1 && w[0] != NEWLINE
    case _ => w != [] && w == Codes(Literal(rule))
  }

  /** The first rule that the text matches, or 0 when it matches none. */
  ghost predicate IsFirstRule(rule: nat, w: seq<Byte>) {
    && (rule != 0 ==> Matches(rule, w))
    && forall r: nat | Matches(r, w) :: 1 <= rule <= r
  }

  // ---------- the states of the automaton ----------

  /** States that are reached in one way only: from a parent state by a letter. Others have parent 0. */
  datatype Tree = Tree(parent: seq<nat>, letter: seq<Byte>)

  ghost predicate IsTree(tree: Tree) {
    && |tree.parent| == JAM_STATE + 1 && |tree.letter| == JAM_STATE + 1
    && forall s {:trigger HangsInTree(tree, s)} | 0 <= s <= JAM_STATE :: HangsInTree(tree, s)
  }

  /** A parent is an earlier state, the start state or another one of the tree. */
  predicate HangsInTree(tree: Tree, s: nat)
    requires |tree.parent| == JAM_STATE + 1 && s <= JAM_STATE
  {
    var parent := tree.parent[s];
    parent != 0 ==> parent < s && (parent == START || tree.parent[parent] != 0)
  }

  /** The text that leads to a state of the tree. */
  function Word(tree: Tree, s: nat): (w: seq<Byte>)
    requires IsTree(tree) && s <= JAM_STATE
  {
    assert HangsInTree(tree, s);
    if tree.parent[s] == 0 then [] else Word(tree, tree.parent[s]) + [tree.letter[s]]
  }

  /** The states lead down the tree, by the letters of the word. */
  ghost predicate IsPath(tree: Tree, path: seq<nat>, word: string)
    requires IsTree(tree)
  {
    && |path| == |word| + 1 && path[0] <= JAM_STATE
    && forall i | 0 <= i < |word| :: IsEdge(tree, path[i], word[i], path[i + 1])
  }

  ghost predicate IsEdge(tree: Tree, parent: nat, letter: char, s: nat)
    requires IsTree(tree)
  {
    s <= JAM_STATE && tree.parent[s] == parent != 0 && tree.letter[s] == letter as int
  }

  lemma CodesGrow(word: string)
    requires word != ""
    ensures Codes(word) == Codes(word[..|word| - 1]) + [word[|word| - 1] as nat]
  {
  }

  lemma {:induction false} PathSpells(tree: Tree, path: seq<nat>, word: string)
    requires IsTree(tree) && IsPath(tree, path, word)
    ensures path[|word|] <= JAM_STATE
    ensures Word(tree, path[|word|]) == Word(tree, path[0]) + Codes(word)
    decreases |word|
  {
    if word != "" {
      var n := |word| - 1;
      PathSpells(tree, path[..n + 1], word[..n]);
      CodesGrow(word);
      assert IsEdge(tree, path[n], word[n], path[n + 1]);
    }
  }

  lemma PathWord(tree: Tree, path: seq<nat>, stem: string, word: string, whole: string)
    requires IsTree(tree) && IsPath(tree, path, word) && Word(tree, path[0]) == Codes(stem) && whole == stem + word
    ensures path[|word|] <= JAM_STATE && Word(tree, path[|word|]) == Codes(whole)
  {
    PathSpells(tree, path, word);
    assert Codes(whole) == Codes(stem) + Codes(word);
  }

  /** The kinds of bytes the rules tell apart outside their literals. */
  datatype Kind = Blank | Newline | Quote | Backslash | HexDigit | X | Other

  function KindOf(b: Byte): Kind {
    if IsBlank(b) then Blank
    else if b == NEWLINE then Newline
    else if b == QUOTE then Quote
    else if b == BACKSLASH then Backslash
    else if IsHexDigit(b) then HexDigit
    else if IsX(b) then X
    else Other
  }

  /** Where a byte of some kind leads from a state, if not to a state of the tree. */
  function Turn(s: nat, kind: Kind): nat {
    match s
    case 1 => if kind.Blank? then 5 else if kind.HexDigit? then 13 else 4
    case 5 => if kind.Blank? then 21 else JAM_STATE
    case 21 => if kind.Blank? then 21 else JAM_STATE
    case 7 => InString(kind, 22)
    case 22 => InString(kind, 22)
    case 36 => InString(kind, 47)
    case 47 => InString(kind, 47)
    case 24 => if kind.Newline? then JAM_STATE else 36
    case 26 => if kind.Newline? then 38 else 37
    case 37 => if kind.Newline? then 38 else 37
    case 12 => if kind.HexDigit? then 27 else if kind.X? then 28 else JAM_STATE
    case 13 => if kind.HexDigit? then 27 else JAM_STATE
    case 16 => if kind.HexDigit? then 27 else JAM_STATE
    case 17 => if kind.HexDigit? then 27 else JAM_STATE
    case 15 => if kind.X? then 29 else JAM_STATE
    case 28 => if kind.HexDigit? then 39 else JAM_STATE
    case 29 => if kind.HexDigit? then 40 else JAM_STATE
    case 39 => if kind.HexDigit? then 48 else JAM_STATE
    case 40 => if kind.HexDigit? then 48 else JAM_STATE
    case _ => JAM_STATE
  }

  function InString(kind: Kind, plain: nat): nat {
    match kind
    case Quote => 23
    case Backslash => 24
    case Newline => JAM_STATE
    case _ => plain
  }

  predicate IsLoose(s: nat) {
    s <= 5 || s == 13 || 21 <= s <= 24 || 27 <= s <= 29 || 36 <= s <= 40 || s == 47 || s == 48 || s == JAM_STATE
  }

  predicate FirstDigit(s: nat) { s == 12 || s == 13 || s == 16 || s == 17 }

  predicate InsideString(s: nat) { s == 7 || s == 22 || s == 36 || s == 47 }

  predicate InsideLine(s: nat) { s == 26 || s == 37 }

  predicate InsideHex(s: nat) { FirstDigit(s) || s == 15 || s == 28 || s == 29 || s == 39 || s == 40 }

  predicate InTree(tree: Tree, s: nat)
    requires |tree.parent| == JAM_STATE + 1
  {
    s <= JAM_STATE && tree.parent[s] != 0
  }

  predicate StartMoved(kind: Kind, d: nat) {
    match kind
    case Blank => d == 5
    case Newline => d == 6
    case HexDigit => FirstDigit(d)
    case _ => true
  }

  /** What the automaton does with a byte b in state s, when it goes to state d. */
  ghost predicate Moved(tree: Tree, s: nat, b: Byte, d: nat)
    requires IsTree(tree)
  {
    && 3 < d <= JAM_STATE
    && (if InTree(tree, d) then tree.parent[d] == s && tree.letter[d] == b else d == Turn(s, KindOf(b)))
    && (s == START ==> StartMoved(KindOf(b), d))
    && (s != START && Turn(s, KindOf(b)) != JAM_STATE ==> d == Turn(s, KindOf(b)))
  }

  /** The step is the one to a state of the tree if there is one with this parent and letter. */
  ghost predicate Descends(tree: Tree, s: nat, b: Byte, d: nat)
    requires IsTree(tree)
  {
    forall x: nat | InTree(tree, x) && tree.parent[x] == s && tree.letter[x] == b :: d == x
  }

  ghost predicate Steps(tree: Tree, s: nat, b: Byte, d: nat)
    requires IsTree(tree)
  {
    b != 0 && Moved(tree, s, b, d) && Descends(tree, s, b, d)
  }

  /** The automaton may be in state s after the text. */
  ghost predicate RunsTo(tree: Tree, w: seq<Byte>, s: nat)
    requires IsTree(tree)
    decreases |w|, 1
  {
    if w == [] then s == START else exists r :: RunsVia(tree, w, r, s)
  }

  ghost predicate RunsVia(tree: Tree, w: seq<Byte>, r: nat, s: nat)
    requires IsTree(tree) && w != []
    decreases |w|, 0
  {
    RunsTo(tree, w[..|w| - 1], r) && Steps(tree, r, w[|w| - 1], s)
  }

  lemma Append(tree: Tree, w: seq<Byte>, r: nat, b: Byte, s: nat)
    requires IsTree(tree) && RunsTo(tree, w, r) && Steps(tree, r, b, s)
    ensures RunsTo(tree, w + [b], s)
  {
    assert (w + [b])[..|w + [b]| - 1] == w;
    assert RunsVia(tree, w + [b], r, s);
  }

  ghost predicate AllSteps(t: Tables, tree: Tree)
    requires TableFacts(t) && IsTree(tree)
  {
    forall s, b: Byte {:trigger Delta(t, s, b)} | IsState(s) && s != 2 && s != 3 && b != 0 ::
      Steps(tree, s, b, Delta(t, s, b))
  }

  lemma StepsAreMoves(tree: Tree, s: nat, b: Byte, d: nat)
    requires IsTree(tree) && Steps(tree, s, b, d)
    ensures d != 2 && d != 3
  {
  }

  /** The scanner's state is one the automaton may be in. */
  ghost predicate Follows(t: Tables, tree: Tree, text: seq<Byte>, p: nat, q: nat)
    requires TableFacts(t) && IsTree(tree) && IsText(text) && p <= q <= |text|
  {
    var s := State(t, text, p, q);
    RunsTo(tree, text[p..q], s) && s != 2 && s != 3
  }

  lemma RunsOn(tree: Tree, w: seq<Byte>, r: nat, b: Byte, s: nat)
    requires IsTree(tree) && Steps(tree, r, b, s) && RunsTo(tree, w, r)
    ensures RunsTo(tree, w + [b], s) && s != 2 && s != 3
  {
    StepsAreMoves(tree, r, b, s);
    Append(tree, w, r, b, s);
  }

  lemma FollowsOn(t: Tables, tree: Tree, text: seq<Byte>, p: nat, q: nat)
    requires TableFacts(t) && IsTree(tree) && AllSteps(t, tree) && IsText(text) && p < q <= |text|
    requires Follows(t, tree, text, p, q - 1)
    ensures Follows(t, tree, text, p, q)
  {
    var r, b := State(t, text, p, q - 1), text[q - 1];
    RunsOn(tree, text[p..q - 1], r, b, Delta(t, r, b));
    assert text[p..q - 1] + [b] == text[p..q];
  }

  lemma {:induction false} StateFollows(t: Tables, tree: Tree, text: seq<Byte>, p: nat, q: nat)
    requires TableFacts(t) && IsTree(tree) && AllSteps(t, tree) && IsText(text) && p <= q <= |text|
    ensures Follows(t, tree, text, p, q)
    decreases q
  {
    if p < q {
      StateFollows(t, tree, text, p, q - 1);
      FollowsOn(t, tree, text, p, q);
    } else {
      assert text[p..q] == [];
    }
  }

  /** The states of the tree that are mentioned by number. */
  ghost predicate Words(tree: Tree)
    requires IsTree(tree)
  {
    && Word(tree, 6) == [NEWLINE] && Word(tree, 7) == [QUOTE] && Word(tree, 26) == [SLASH, SLASH]
    && Word(tree, 12) == [48] && Word(tree, 15) == [BACKSLASH] && Word(tree, 16) == [98] && Word(tree, 17) == [102]
    && forall s: nat | IsLoose(s) :: tree.parent[s] == 0
  }

  /** What the text is that leads to a state. */
  predicate Means(tree: Tree, s: nat, w: seq<Byte>)
    requires IsTree(tree)
  {
    if InTree(tree, s) then w == Word(tree, s)
    else
      match s
      case 1 => w == []
      case 4 => |w| == 1 && w[0] != NEWLINE
      case 13 => |w| == 1 && IsHexDigit(w[0])
      case 5 => IsSpace(w)
      case 21 => IsSpace(w)
      case 22 => OpenString(w)
      case 36 => OpenString(w)
      case 47 => OpenString(w)
      case 24 => OpenEscape(w)
      case 23 => IsString(w)
      case 37 => OpenLine(w)
      case 38 => IsLineComment(w)
      case 27 => IsHexPair(w)
      case 28 => IsHexPrefix(w)
      case 29 => IsHexPrefix(w)
      case 39 => IsPrefixedDigit(w)
      case 40 => IsPrefixedDigit(w)
      case 48 => IsPrefixedHex(w)
      case 120 => true
      case _ => false
  }

  lemma OpenStringGrows(w: seq<Byte>, b: Byte)
    requires b != 0
    ensures OpenString(w) && IsPlain(b) ==> OpenString(w + [b])
    ensures OpenEscape(w) && b != NEWLINE ==> OpenString(w + [b])
    ensures OpenString(w) && b == BACKSLASH ==> OpenEscape(w + [b])
    ensures OpenString(w) && b == QUOTE ==> IsString(w + [b])
  {
    var x := w + [b];
    assert x[..|x| - 1] == w;
    if w != [] {
      assert x[..|x| - 2] == w[..|w| - 1];
    }
  }

  lemma MeansInTree(tree: Tree, s: nat, w: seq<Byte>, b: Byte, d: nat)
    requires IsTree(tree) && Words(tree) && Means(tree, s, w) && Moved(tree, s, b, d)
    requires InTree(tree, d)
    ensures Means(tree, d, w + [b])
  {
    assert HangsInTree(tree, d);
  }

  lemma MeansInString(tree: Tree, s: nat, w: seq<Byte>, b: Byte, d: nat)
    requires IsTree(tree) && Words(tree) && Means(tree, s, w) && b != 0 && Moved(tree, s, b, d)
    requires !InTree(tree, d) && (InsideString(s) || s == 24)
    ensures Means(tree, d, w + [b])
  {
    OpenStringGrows(w, b);
  }

  lemma OpenLineGrows(w: seq<Byte>, b: Byte)
    requires OpenLine(w)
    ensures b != NEWLINE ==> OpenLine(w + [b])
    ensures b == NEWLINE ==> IsLineComment(w + [b])
  {
    assert (w + [b])[..|w|] == w;
  }

  lemma MeansInLine(tree: Tree, s: nat, w: seq<Byte>, b: Byte, d: nat)
    requires IsTree(tree) && Word(tree, 26) == [SLASH, SLASH] && !InTree(tree, 37) && !InTree(tree, 38)
    requires Means(tree, s, w) && Moved(tree, s, b, d) && !InTree(tree, d) && InsideLine(s)
    ensures Means(tree, d, w + [b])
  {
    OpenLineGrows(w, b);
  }

  lemma MeansInHex(tree: Tree, s: nat, w: seq<Byte>, b: Byte, d: nat)
    requires IsTree(tree) && Words(tree) && Means(tree, s, w) && Moved(tree, s, b, d)
    requires !InTree(tree, d) && InsideHex(s)
    ensures Means(tree, d, w + [b])
  {
    assert (w + [b])[..|w|] == w;
  }

  /** The meaning of the states is kept by every transition. */
  lemma MeansNext(tree: Tree, s: nat, w: seq<Byte>, b: Byte, d: nat)
    requires IsTree(tree) && Words(tree) && Means(tree, s, w) && b != 0 && Moved(tree, s, b, d)
    ensures Means(tree, d, w + [b])
  {
    if InTree(tree, d) {
      MeansInTree(tree, s, w, b, d);
    } else if InsideString(s) || s == 24 {
      MeansInString(tree, s, w, b, d);
    } else if InsideLine(s) {
      MeansInLine(tree, s, w, b, d);
    } else if InsideHex(s) {
      MeansInHex(tree, s, w, b, d);
    } else {
      assert (w + [b])[..|w|] == w;
    }
  }

  /** The text read so far is what the state means. */
  lemma {:induction false} RunMeans(tree: Tree, w: seq<Byte>, s: nat)
    requires IsTree(tree) && Words(tree) && RunsTo(tree, w, s)
    ensures Means(tree, s, w)
  {
    if w != [] {
      var front, last := w[..|w| - 1], w[|w| - 1];
      var r :| RunsVia(tree, w, r, s);
      RunMeans(tree, front, r);
      MeansNext(tree, r, front, last, s);
      assert front + [last] == w;
    }
  }

  // ---------- the way to each pattern ----------

  lemma {:induction false} WordLeads(tree: Tree, w: seq<Byte>, s: nat, word: nat)
    requires IsTree(tree) && tree.parent[START] == 0 && RunsTo(tree, w, s)
    requires (word == START || InTree(tree, word)) && w == Word(tree, word)
    ensures s == word
    decreases word
  {
    if word != START {
      var front, last := w[..|w| - 1], w[|w| - 1];
      var r :| RunsVia(tree, w, r, s);
      assert HangsInTree(tree, word);
      WordLeads(tree, front, r, tree.parent[word]);
    }
  }

  lemma {:induction false} SpaceLeads(tree: Tree, w: seq<Byte>, s: nat)
    requires IsTree(tree) && RunsTo(tree, w, s) && IsSpace(w)
    ensures s == 5 || s == 21
  {
    var r :| RunsVia(tree, w, r, s);
    if |w| > 1 {
      SpaceLeads(tree, w[..|w| - 1], r);
    } else {
      assert w[..|w| - 1] == [] && RunsTo(tree, [], r);
    }
  }

  lemma {:induction false} StringLeads(tree: Tree, w: seq<Byte>, s: nat)
    requires IsTree(tree) && Words(tree) && RunsTo(tree, w, s) && OpenString(w)
    ensures InsideString(s)
    decreases |w|
  {
    var n := |w| - 1;
    var r :| RunsVia(tree, w, r, s);
    if w == [QUOTE] {
      WordLeads(tree, w, s, 7);
    } else if OpenString(w[..n]) && IsPlain(w[n]) {
      StringLeads(tree, w[..n], r);
    } else {
      assert w[..n][..n - 1] == w[..n - 1];
      EscapeLeads(tree, w[..n], r);
    }
  }

  lemma {:induction false} EscapeLeads(tree: Tree, w: seq<Byte>, s: nat)
    requires IsTree(tree) && Words(tree) && RunsTo(tree, w, s) && OpenEscape(w)
    ensures s == 24
    decreases |w|
  {
    var r :| RunsVia(tree, w, r, s);
    StringLeads(tree, w[..|w| - 1], r);
  }

  lemma {:induction false} LineLeads(tree: Tree, w: seq<Byte>, s: nat)
    requires IsTree(tree) && Words(tree) && RunsTo(tree, w, s) && OpenLine(w)
    ensures InsideLine(s)
  {
    var r :| RunsVia(tree, w, r, s);
    if |w| == 2 {
      assert w == [SLASH, SLASH];
      WordLeads(tree, w, s, 26);
    } else {
      LineLeads(tree, w[..|w| - 1], r);
    }
  }

  lemma HexPrefixLeads(tree: Tree, w: seq<Byte>, s: nat)
    requires IsTree(tree) && Words(tree) && RunsTo(tree, w, s) && IsHexPrefix(w)
    ensures s == 28 || s == 29
  {
    var r :| RunsVia(tree, w, r, s);
    assert w[..1] == [w[0]];
    WordLeads(tree, w[..1], r, if w[0] == 48 then 12 else 15);
  }

  lemma PrefixedDigitLeads(tree: Tree, w: seq<Byte>, s: nat)
    requires IsTree(tree) && Words(tree) && RunsTo(tree, w, s) && IsPrefixedDigit(w)
    ensures s == 39 || s == 40
  {
    var r :| RunsVia(tree, w, r, s);
    HexPrefixLeads(tree, w[..2], r);
  }

  lemma PrefixedHexLeads(tree: Tree, w: seq<Byte>, s: nat)
    requires IsTree(tree) && Words(tree) && RunsTo(tree, w, s) && IsPrefixedHex(w)
    ensures s == 48
  {
    var r :| RunsVia(tree, w, r, s);
    PrefixedDigitLeads(tree, w[..3], r);
  }

  /** The step from the start. */
  lemma ByteLeads(tree: Tree, w: seq<Byte>, s: nat)
    requires IsTree(tree) && RunsTo(tree, w, s) && |w| == 1
    ensures Steps(tree, START, w[0], s)
  {
    var r :| RunsVia(tree, w, r, s);
    assert w[..|w| - 1] == [] && RunsTo(tree, [], r);
  }

  lemma HexPairLeads(tree: Tree, w: seq<Byte>, s: nat)
    requires IsTree(tree) && RunsTo(tree, w, s) && IsHexPair(w)
    ensures s == 27
  {
    var r :| RunsVia(tree, w, r, s);
    ByteLeads(tree, w[..1], r);
  }

  // ---------- the rules of the states ----------

  /** The rule of a state. */
  ghost predicate Accepts(accept: seq<nat>, tree: Tree)
    requires IsTree(tree)
  {
    && |accept| == JAM_STATE + 1
    && accept[5] == 3 && accept[21] == 3 && accept[4] == 12 && accept[13] == 12
    && accept[23] == 9 && accept[27] == 10 && accept[38] == 1 && accept[48] == 11
    && accept[START] == 0 && accept[22] == 0 && accept[24] == 0 && accept[36] == 0 && accept[47] == 0
    && accept[28] == 0 && accept[29] == 0 && accept[37] == 0 && accept[39] == 0 && accept[40] == 0
    && accept[JAM_STATE] == 0
    && (forall s: nat | InTree(tree, s) :: AcceptsWord(accept, tree, s))
    && (forall r: nat | Literal(r) != "" ::
          exists s: nat :: InTree(tree, s) && accept[s] == r && Word(tree, s) == Codes(Literal(r)))
  }

  ghost predicate AcceptsWord(accept: seq<nat>, tree: Tree, s: nat)
    requires IsTree(tree) && |accept| == JAM_STATE + 1 && InTree(tree, s)
  {
    && (tree.parent[s] == START ==> 1 <= accept[s] <= 12)
    && (accept[s] != 0 && accept[s] != 12 ==> Literal(accept[s]) != "" && Word(tree, s) == Codes(Literal(accept[s])))
    && (accept[s] == 12 ==> tree.parent[s] == START && tree.letter[s] != NEWLINE)
  }

  lemma AcceptedWord(accept: seq<nat>, tree: Tree, s: nat)
    requires IsTree(tree) && tree.parent[START] == 0 && |accept| == JAM_STATE + 1 && InTree(tree, s)
    requires AcceptsWord(accept, tree, s)
    ensures accept[s] != 0 ==> Matches(accept[s], Word(tree, s))
  {
    if accept[s] == 12 {
      assert Word(tree, s) == Word(tree, START) + [tree.letter[s]];
    }
  }

  /** A state that accepts means a text that matches its rule. */
  lemma AcceptedMatches(accept: seq<nat>, tree: Tree, w: seq<Byte>, s: nat)
    requires IsTree(tree) && Words(tree) && Accepts(accept, tree) && w != [] && s <= JAM_STATE && Means(tree, s, w)
    ensures accept[s] != 0 ==> Matches(accept[s], w)
  {
    if InTree(tree, s) {
      AcceptedWord(accept, tree, s);
    }
  }

  lemma LiteralIsAccepted(accept: seq<nat>, tree: Tree, w: seq<Byte>, s: nat, rule: nat)
    requires IsTree(tree) && tree.parent[START] == 0 && Accepts(accept, tree) && RunsTo(tree, w, s)
    requires Literal(rule) != "" && w == Codes(Literal(rule))
    ensures s <= JAM_STATE && accept[s] == rule
  {
    var word: nat :| InTree(tree, word) && accept[word] == rule && Word(tree, word) == Codes(Literal(rule));
    WordLeads(tree, w, s, word);
  }

  lemma ByteIsAccepted(accept: seq<nat>, tree: Tree, w: seq<Byte>, s: nat)
    requires IsTree(tree) && Accepts(accept, tree) && RunsTo(tree, w, s) && |w| == 1
    ensures s <= JAM_STATE && 1 <= accept[s] <= 12
  {
    ByteLeads(tree, w, s);
    if InTree(tree, s) {
      assert AcceptsWord(accept, tree, s);
    }
  }

  lemma CommentIsAccepted(accept: seq<nat>, tree: Tree, w: seq<Byte>, s: nat)
    requires IsTree(tree) && Words(tree) && Accepts(accept, tree) && RunsTo(tree, w, s) && IsLineComment(w)
    ensures s <= JAM_STATE && accept[s] == 1
  {
    var r :| RunsVia(tree, w, r, s);
    LineLeads(tree, w[..|w| - 1], r);
  }

  lemma StringIsAccepted(accept: seq<nat>, tree: Tree, w: seq<Byte>, s: nat)
    requires IsTree(tree) && Words(tree) && Accepts(accept, tree) && RunsTo(tree, w, s) && IsString(w)
    ensures s <= JAM_STATE && accept[s] == 9
  {
    var r :| RunsVia(tree, w, r, s);
    StringLeads(tree, w[..|w| - 1], r);
  }

  /** A text that matches a rule is accepted, by this rule or an earlier one. */
  lemma MatchIsAccepted(accept: seq<nat>, tree: Tree, w: seq<Byte>, s: nat, rule: nat)
    requires IsTree(tree) && Words(tree) && Accepts(accept, tree) && RunsTo(tree, w, s) && Matches(rule, w)
    ensures s <= JAM_STATE && 1 <= accept[s] <= rule
  {
    match rule
    case 1 => CommentIsAccepted(accept, tree, w, s);
    case 3 => SpaceLeads(tree, w, s);
    case 9 => StringIsAccepted(accept, tree, w, s);
    case 10 => HexPairLeads(tree, w, s);
    case 11 => PrefixedHexLeads(tree, w, s);
    case 12 => ByteIsAccepted(accept, tree, w, s);
    case _ => LiteralIsAccepted(accept, tree, w, s, rule);
  }

  /** The rule of the state after a text is the first one the text matches. */
  lemma AcceptedIsFirst(accept: seq<nat>, tree: Tree, w: seq<Byte>, s: nat)
    requires IsTree(tree) && Words(tree) && Accepts(accept, tree)
    requires RunsTo(tree, w, s) && w != [] && s <= JAM_STATE
    ensures IsFirstRule(accept[s], w)
  {
    RunMeans(tree, w, s);
    AcceptedMatches(accept, tree, w, s);
    forall r: nat | Matches(r, w) ensures 1 <= accept[s] <= r {
      MatchIsAccepted(accept, tree, w, s, r);
    }
  }
}
