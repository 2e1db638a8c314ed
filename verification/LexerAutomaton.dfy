/**
 The automaton of the tables of autodafe/src/adc/lexer.c, and the proof that it implements the
 rules of lexer.l.
 */
module LexerAutomaton {
  import opened Units
  import opened Scanner
  import opened LexerTables
  import opened LexerRules

  /** The only place where yy_nxt names a state, or 0 for states with several places or none. */
  function Entry(i: nat): nat {
    if i < 10 then Ten(i, 0, 0, 0, 0, 0, 0, 3, 4, 5, 6)
    else if i < 20 then Ten(i - 10, 8, 9, 10, 0, 17, 19, 21, 25, 27, 33)
    else if i < 30 then Ten(i - 20, 34, 0, 0, 0, 0, 41, 43, 0, 0, 0)
    else if i < 40 then Ten(i - 30, 58, 53, 162, 161, 48, 59, 0, 0, 0, 0)
    else if i < 50 then Ten(i - 40, 0, 158, 157, 156, 155, 154, 153, 0, 0, 151)
    else if i < 60 then Ten(i - 50, 150, 149, 148, 147, 146, 145, 144, 143, 50, 57)
    else if i < 70 then Ten(i - 60, 142, 60, 61, 63, 73, 141, 140, 139, 138, 137)
    else if i < 80 then Ten(i - 70, 136, 135, 134, 133, 132, 131, 130, 129, 128, 127)
    else if i < 90 then Ten(i - 80, 126, 125, 124, 123, 122, 121, 120, 70, 75, 77)
    else if i < 100 then Ten(i - 90, 81, 84, 74, 83, 49, 51, 119, 118, 76, 78)
    else if i < 110 then Ten(i - 100, 117, 116, 115, 114, 113, 112, 111, 110, 109, 108)
    else if i < 120 then Ten(i - 110, 107, 106, 105, 104, 103, 100, 92, 86, 82, 80)
    else Ten(i - 120, 0, 0, 0, 0, 0, 0, 0, 0, 0, 0)
  }

  /** The only byte of a class, or 0 for classes with several. */
  function ByteOf(i: nat): nat {
    if i < 10 then Ten(i, 0, 0, 0, 10, 34, 40, 41, 42, 44, 47)
    else if i < 20 then Ten(i - 10, 48, 49, 50, 51, 0, 54, 56, 59, 88, 92)
    else if i < 30 then Ten(i - 20, 95, 98, 99, 100, 101, 102, 103, 104, 105, 107)
    else Ten(i - 30, 108, 110, 111, 114, 115, 116, 117, 118, 120, 122)
  }

  function ParentOf(s: nat): nat { Chk(Entry(s)) }

  function ClassOf(s: nat): int { Entry(s) - Base(ParentOf(s)) }

  function LetterOf(s: nat): Byte {
    if 0 <= ClassOf(s) < CLASSES then ByteOf(ClassOf(s)) else 0
  }

  function LexerTree(): Tree {
    Tree(seq(121, s requires 0 <= s < 121 => ParentOf(s)), seq(121, s requires 0 <= s < 121 => LetterOf(s)))
  }

  ghost predicate IsLexerTree(tree: Tree) {
    && IsTree(tree)
    && forall s: nat | s <= JAM_STATE :: tree.parent[s] == ParentOf(s) && tree.letter[s] == LetterOf(s)
  }

  // ---------- the tree ----------

  lemma EntryOfLow(i: nat)
    requires 1 <= i < 80 && Entry(Nxt(i)) != 0
    ensures Entry(Nxt(i)) == i
  {
  }

  lemma EntryOfHigh(i: nat)
    requires 80 <= i < 205 && Entry(Nxt(i)) != 0
    ensures Entry(Nxt(i)) == i
  {
  }

  lemma NxtOfEntry(s: nat)
    requires Entry(s) != 0
    ensures Nxt(Entry(s)) == s && 1 <= Entry(s) < 165
  {
  }

  lemma ParentIsEarlier(s: nat)
    requires Entry(s) != 0
    ensures 1 <= ParentOf(s) < s < JAM_STATE
  {
  }

  lemma OthersHaveNoParent(s: nat)
    requires Entry(s) == 0
    ensures ParentOf(s) == 0
  {
  }

  lemma ParentInTree(s: nat)
    requires Entry(s) != 0
    ensures ParentOf(s) == START || Entry(ParentOf(s)) != 0
  {
  }

  lemma ClassOfTreeLow(s: nat)
    requires Entry(s) != 0 && s < 60
    ensures IsClass(ClassOf(s)) && ByteOf(ClassOf(s)) != 0
  {
  }

  lemma ClassOfTreeMiddle(s: nat)
    requires Entry(s) != 0 && 60 <= s < 90
    ensures IsClass(ClassOf(s)) && ByteOf(ClassOf(s)) != 0
  {
  }

  lemma ClassOfTreeHigh(s: nat)
    requires Entry(s) != 0 && s >= 90
    ensures IsClass(ClassOf(s)) && ByteOf(ClassOf(s)) != 0
  {
  }

  lemma ClassOfTree(s: nat)
    requires Entry(s) != 0
    ensures IsClass(ClassOf(s)) && ByteOf(ClassOf(s)) != 0
  {
    if s < 60 {
      ClassOfTreeLow(s);
    } else if s < 90 {
      ClassOfTreeMiddle(s);
    } else {
      ClassOfTreeHigh(s);
    }
  }

  lemma ByteOfClass(b: nat)
    requires 1 <= b < 256 && ByteOf(Ec(b)) != 0
    ensures b == ByteOf(Ec(b))
  {
  }

  lemma ClassOfByte(c: nat)
    requires IsClass(c) && ByteOf(c) != 0
    ensures ByteOf(c) < 256 && Ec(ByteOf(c)) == c
  {
  }

  lemma LexerTreeIsTree()
    ensures IsTree(LexerTree())
  {
    var tree := LexerTree();
    forall s: nat | s <= JAM_STATE ensures HangsInTree(tree, s) {
      if Entry(s) == 0 {
        OthersHaveNoParent(s);
      } else {
        ParentIsEarlier(s);
        ParentInTree(s);
        if ParentOf(s) != START {
          ParentIsEarlier(ParentOf(s));
        }
      }
    }
  }

  // ---------- the transitions ----------

  predicate Owns(s: nat, c: nat) { Chk(Base(s) + c) == s }

  function ClassIn(s: nat, c: nat): nat {
    if s >= FIRST_TEMPLATE then Meta(c) else c
  }

  lemma StepOwned(s: nat, c: nat, steps: nat)
    requires Shape(Lexer()) && JamAbsorbs(Lexer())
    requires 1 <= s < STATES && IsClass(c) && ReachesJam(Lexer(), s, steps) && Owns(s, c)
    ensures Step(Lexer(), s, c, steps) == Nxt(Base(s) + c)
  {
  }

  lemma StepNotOwned(s: nat, c: nat, steps: nat)
    requires Shape(Lexer()) && JamAbsorbs(Lexer())
    requires 1 <= s < STATES && s != JAM_STATE && IsClass(c) && ReachesJam(Lexer(), s, steps) && !Owns(s, c)
    ensures steps > 0 && 1 <= Def(s) < STATES && IsClass(ClassIn(Def(s), c))
    ensures ReachesJam(Lexer(), Def(s), steps - 1)
    ensures Step(Lexer(), s, c, steps) == Step(Lexer(), Def(s), ClassIn(Def(s), c), steps - 1)
  {
    assert Lexer().def[s] == Def(s);
  }

  lemma PlainStep(s: nat, c: nat, steps: nat)
    requires Shape(Lexer()) && JamAbsorbs(Lexer())
    requires 1 <= s < STATES && s != JAM_STATE && Def(s) == JAM_STATE && IsClass(c) && ReachesJam(Lexer(), s, steps)
    ensures Step(Lexer(), s, c, steps) == if Owns(s, c) then Nxt(Base(s) + c) else JAM_STATE
  {
    if Owns(s, c) {
      StepOwned(s, c, steps);
    } else {
      StepNotOwned(s, c, steps);
      JamSteps(c, steps - 1);
    }
  }

  // ---------- kinds of bytes ----------

  function KindOfClass(c: nat): Kind {
    if c == 2 then Blank
    else if c == 3 then Newline
    else if c == 4 then Quote
    else if c == 19 then Backslash
    else if 10 <= c <= 16 || 21 <= c <= 25 then HexDigit
    else if c == 18 || c == 38 then X
    else Other
  }

  lemma KindIsKindOfClass(b: Byte)
    requires b != 0
    ensures KindOf(b) == KindOfClass(Ec(b))
  {
  }

  // ---------- rows with a template ----------

  predicate DigitsFollow(s: nat) { s == 28 || s == 29 || s == 39 || s == 40 }

  predicate HasTemplate(s: nat) {
    InsideString(s) || s == 24 || InsideLine(s) || FirstDigit(s) || DigitsFollow(s)
  }

  /** The entries of the templates, by meta class: 2 is the newline, 3 a digit, 4 an x. */
  function Template(s: nat, m: nat): nat {
    match s
    case 121 => if m == 2 then JAM_STATE else 22
    case 122 => if m == 3 || m == 4 then 27 else JAM_STATE
    case 123 => if m == 2 then JAM_STATE else 36
    case 124 => 37
    case 125 => if m == 3 then 39 else JAM_STATE
    case 126 => if m == 3 then 40 else JAM_STATE
    case 127 => if m == 2 then JAM_STATE else 47
    case _ => if m == 3 then 48 else JAM_STATE
  }

  lemma TemplateDef(s: nat)
    requires FIRST_TEMPLATE <= s < STATES
    ensures Def(s) == JAM_STATE
  {
  }

  lemma TemplateOwned(i: nat)
    requires 1 <= i < 205 && Chk(i) >= FIRST_TEMPLATE
    ensures Nxt(i) == Template(Chk(i), if i >= Base(Chk(i)) then i - Base(Chk(i)) else 0)
  {
  }

  lemma TemplateOwns(s: nat, m: nat)
    requires FIRST_TEMPLATE <= s < STATES && 1 <= m <= 4 && Template(s, m) != JAM_STATE
    ensures Owns(s, m)
  {
  }

  lemma TemplateEntries(s: nat, m: nat)
    requires FIRST_TEMPLATE <= s < STATES && 1 <= m <= 4
    ensures Def(s) == JAM_STATE
    ensures Template(s, m) == if Owns(s, m) then Nxt(Base(s) + m) else JAM_STATE
  {
    TemplateDef(s);
    BaseInRange(s);
    if Owns(s, m) {
      TemplateOwned(Base(s) + m);
    } else if Template(s, m) != JAM_STATE {
      TemplateOwns(s, m);
    }
  }

  function Turned(s: nat, c: nat): nat {
    if s == 16 && c == 30 then 30 else if s == 17 && c == 36 then 31 else Turn(s, KindOfClass(c))
  }

  /** The classes for which a row with a template has an entry of its own. */
  predicate HasOwn(s: nat, c: nat) {
    (InsideString(s) && (c == 4 || c == 19))
    || (InsideLine(s) && c == 3)
    || ((s == 12 || s == 13 || s == 16) && (c == 18 || c == 38))
    || ((s == 16 || s == 17) && c == 30)
    || (s == 17 && c == 36)
  }

  lemma OwnIsOwned(s: nat, c: nat)
    requires HasOwn(s, c)
    ensures Owns(s, c)
  {
  }

  lemma RowEntryLow(i: nat)
    requires 40 <= i < 58 && HasTemplate(Chk(i)) && IsClass(i - Base(Chk(i)))
    ensures Nxt(i) == Turned(Chk(i), i - Base(Chk(i)))
  {
  }

  lemma RowEntryMiddle(i: nat)
    requires 58 <= i < 80 && HasTemplate(Chk(i)) && IsClass(i - Base(Chk(i)))
    ensures Nxt(i) == Turned(Chk(i), i - Base(Chk(i)))
  {
  }

  lemma RowEntryHigh(i: nat)
    requires 80 <= i < 205 && HasTemplate(Chk(i)) && IsClass(i - Base(Chk(i)))
    ensures Nxt(i) == Turned(Chk(i), i - Base(Chk(i)))
  {
  }

  lemma RowEntry(s: nat, c: nat, i: nat)
    requires HasTemplate(s) && IsClass(c) && i < 205 && Chk(i) == s && i == Base(s) + c
    ensures Nxt(i) == Turned(s, c)
  {
    if i < 40 {
      RowsAfterStart(i);
    } else if i < 58 {
      RowEntryLow(i);
    } else if i < 80 {
      RowEntryMiddle(i);
    } else {
      RowEntryHigh(i);
    }
  }

  lemma OwnedByRow(s: nat, c: nat)
    requires HasTemplate(s) && IsClass(c) && Owns(s, c)
    ensures Nxt(Base(s) + c) == Turned(s, c)
  {
    BaseInRange(s);
    RowEntry(s, c, Base(s) + c);
  }

  function MetaOf(c: nat): nat {
    match KindOfClass(c)
    case Newline => 2
    case HexDigit => 3
    case X => 4
    case _ => 1
  }

  lemma MetaIs(c: nat)
    requires IsClass(c)
    ensures Meta(c) == MetaOf(c)
  {
  }

  function TemplateOf(s: nat): nat {
    if s == 7 || s == 22 then 121
    else if FirstDigit(s) then 122
    else if s == 24 then 123
    else if InsideLine(s) then 124
    else if s == 28 then 125
    else if s == 29 then 126
    else if s == 36 || s == 47 then 127
    else 128
  }

  lemma TemplateIs(s: nat)
    requires HasTemplate(s) && s != 17
    ensures Def(s) == TemplateOf(s)
  {
  }

  lemma TemplateTurns(s: nat, c: nat)
    requires HasTemplate(s) && s != 17 && IsClass(c) && !HasOwn(s, c)
    ensures Template(TemplateOf(s), MetaOf(c)) == Turned(s, c)
  {
  }

  lemma OwnedByTemplate(s: nat, c: nat)
    requires HasTemplate(s) && s != 17 && IsClass(c) && !Owns(s, c)
    ensures FIRST_TEMPLATE <= Def(s) < STATES && 1 <= Meta(c) <= 4
    ensures Template(Def(s), Meta(c)) == Turned(s, c)
  {
    TemplateIs(s);
    MetaIs(c);
    if HasOwn(s, c) {
      OwnIsOwned(s, c);
    }
    TemplateTurns(s, c);
  }

  lemma RowOf17(c: nat)
    requires IsClass(c) && !Owns(17, c)
    ensures Def(17) == 16 && Turned(17, c) == Turned(16, c)
  {
  }

  lemma TemplateStep(s: nat, m: nat, steps: nat)
    requires Shape(Lexer()) && JamAbsorbs(Lexer())
    requires FIRST_TEMPLATE <= s < STATES && 1 <= m <= 4 && ReachesJam(Lexer(), s, steps)
    ensures Step(Lexer(), s, m, steps) == Template(s, m)
  {
    TemplateEntries(s, m);
    PlainStep(s, m, steps);
  }

  lemma StepToTemplate(s: nat, c: nat, steps: nat) returns (template: nat, m: nat)
    requires Shape(Lexer()) && JamAbsorbs(Lexer())
    requires HasTemplate(s) && s != 17 && IsClass(c) && ReachesJam(Lexer(), s, steps) && !Owns(s, c)
    ensures FIRST_TEMPLATE <= template < STATES && 1 <= m <= 4
    ensures steps > 0 && ReachesJam(Lexer(), template, steps - 1)
    ensures Step(Lexer(), s, c, steps) == Step(Lexer(), template, m, steps - 1)
    ensures Template(template, m) == Turned(s, c)
  {
    template, m := Def(s), Meta(c);
    StepNotOwned(s, c, steps);
    OwnedByTemplate(s, c);
  }

  lemma StepOf17(c: nat, steps: nat)
    requires Shape(Lexer()) && JamAbsorbs(Lexer())
    requires IsClass(c) && ReachesJam(Lexer(), 17, steps) && !Owns(17, c)
    ensures steps > 0 && ReachesJam(Lexer(), 16, steps - 1)
    ensures Step(Lexer(), 17, c, steps) == Step(Lexer(), 16, c, steps - 1)
    ensures Turned(17, c) == Turned(16, c)
  {
    StepNotOwned(17, c, steps);
    RowOf17(c);
  }

  lemma RowStepOwned(s: nat, c: nat, steps: nat)
    requires Shape(Lexer()) && JamAbsorbs(Lexer())
    requires HasTemplate(s) && IsClass(c) && ReachesJam(Lexer(), s, steps) && Owns(s, c)
    ensures Step(Lexer(), s, c, steps) == Turned(s, c)
  {
    StepOwned(s, c, steps);
    OwnedByRow(s, c);
  }

  lemma {:induction false} RowStep(s: nat, c: nat, steps: nat)
    requires Shape(Lexer()) && JamAbsorbs(Lexer())
    requires HasTemplate(s) && IsClass(c) && ReachesJam(Lexer(), s, steps)
    ensures Step(Lexer(), s, c, steps) == Turned(s, c)
    decreases s
  {
    if Owns(s, c) {
      RowStepOwned(s, c, steps);
    } else if s == 17 {
      StepOf17(c, steps);
      RowStep(16, c, steps - 1);
    } else {
      var template, m := StepToTemplate(s, c, steps);
      TemplateStep(template, m, steps - 1);
    }
  }

  // ---------- the other rows ----------

  predicate IsPlainRow(s: nat) { s == START || (3 < s < JAM_STATE && !HasTemplate(s)) }

  lemma PlainRowDef(s: nat)
    requires IsPlainRow(s)
    ensures Def(s) == JAM_STATE
  {
  }

  /** What a step by a byte of class c does. */
  predicate ClassMoved(s: nat, c: nat, d: nat) {
    && 3 < d <= JAM_STATE
    && (if Entry(d) != 0 then ParentOf(d) == s && ClassOf(d) == c else d == Turn(s, KindOfClass(c)))
    && (s == START ==> StartMoved(KindOfClass(c), d))
    && (s != START && Turn(s, KindOfClass(c)) != JAM_STATE ==> d == Turn(s, KindOfClass(c)))
  }

  lemma StartLooseEntry(c: nat)
    requires IsClass(c) && Entry(Nxt(c)) == 0
    ensures Nxt(c) == Turn(START, KindOfClass(c))
  {
  }

  lemma LooseEntryLow(i: nat)
    requires 40 <= i < 110 && IsPlainRow(Chk(i)) && IsClass(i - Base(Chk(i))) && Entry(Nxt(i)) == 0
    ensures Nxt(i) == Turn(Chk(i), KindOfClass(i - Base(Chk(i))))
  {
  }

  lemma LooseEntryHigh(i: nat)
    requires 110 <= i < 205 && IsPlainRow(Chk(i)) && IsClass(i - Base(Chk(i))) && Entry(Nxt(i)) == 0
    ensures Nxt(i) == Turn(Chk(i), KindOfClass(i - Base(Chk(i))))
  {
  }

  lemma NotOwned(s: nat, c: nat)
    requires IsPlainRow(s) && IsClass(c) && !Owns(s, c)
    ensures s != START && Turn(s, KindOfClass(c)) == JAM_STATE
  {
  }

  lemma TreeEntryTurnsNowhere(s: nat, c: nat)
    requires Entry(s) != 0 && ParentOf(s) != START && IsPlainRow(ParentOf(s)) && c == ClassOf(s)
    ensures Turn(ParentOf(s), KindOfClass(c)) == JAM_STATE
  {
  }

  lemma StartEntries(c: nat)
    requires IsClass(c)
    ensures Base(START) == 0 && StartMoved(KindOfClass(c), Nxt(c))
  {
  }

  lemma LooseEntry(s: nat, c: nat, i: nat)
    requires IsPlainRow(s) && IsClass(c) && Chk(i) == s && i == Base(s) + c && i < 205 && Entry(Nxt(i)) == 0
    ensures Nxt(i) == Turn(s, KindOfClass(c))
  {
    if i < 40 {
      StartEntries(i);
      RowsAfterStart(i);
      StartLooseEntry(c);
    } else if i < 110 {
      LooseEntryLow(i);
    } else {
      LooseEntryHigh(i);
    }
  }

  lemma RowsAfterStart(i: nat)
    requires 1 <= i < 40
    ensures Chk(i) == START
  {
  }

  lemma OwnedMoved(s: nat, c: nat, i: nat)
    requires IsPlainRow(s) && IsClass(c) && Chk(i) == s && i == Base(s) + c && i < 205
    ensures ClassMoved(s, c, Nxt(i))
  {
    NxtInRange(i);
    EndIsNoTarget(i);
    if s == START {
      StartEntries(c);
    }
    if Entry(Nxt(i)) == 0 {
      LooseEntry(s, c, i);
    } else {
      if i < 80 {
        EntryOfLow(i);
      } else {
        EntryOfHigh(i);
      }
      if s != START {
        TreeEntryTurnsNowhere(Nxt(i), c);
      }
    }
  }

  lemma EndIsNoTarget(i: nat)
    requires 1 <= i < 205 && IsPlainRow(Chk(i))
    ensures Nxt(i) > 3
  {
  }

  lemma PlainRowMoved(s: nat, c: nat, steps: nat)
    requires Shape(Lexer()) && JamAbsorbs(Lexer())
    requires IsPlainRow(s) && IsClass(c) && ReachesJam(Lexer(), s, steps)
    ensures ClassMoved(s, c, Step(Lexer(), s, c, steps))
  {
    PlainRowDef(s);
    PlainStep(s, c, steps);
    if Owns(s, c) {
      BaseInRange(s);
      OwnedMoved(s, c, Base(s) + c);
    } else {
      NotOwned(s, c);
      JamIsNotInTree();
    }
  }

  lemma JamIsNotInTree()
    ensures Entry(JAM_STATE) == 0
  {
  }

  lemma TurnedMoved(s: nat, c: nat)
    requires HasTemplate(s) && IsClass(c)
    ensures ClassMoved(s, c, Turned(s, c))
  {
  }

  lemma LexerMovesByClass(s: nat, c: nat, steps: nat)
    requires Shape(Lexer()) && JamAbsorbs(Lexer())
    requires IsState(s) && s != 2 && s != 3 && IsClass(c) && ReachesJam(Lexer(), s, steps)
    ensures ClassMoved(s, c, Step(Lexer(), s, c, steps))
  {
    if s == JAM_STATE {
      JamSteps(c, steps);
      JamIsNotInTree();
    } else if HasTemplate(s) {
      RowStep(s, c, steps);
      TurnedMoved(s, c);
    } else {
      PlainRowMoved(s, c, steps);
    }
  }

  lemma MovedByByte(tree: Tree, s: nat, b: Byte, d: nat)
    requires IsLexerTree(tree) && b != 0 && ClassMoved(s, Ec(b), d)
    ensures Moved(tree, s, b, d)
  {
    KindIsKindOfClass(b);
    if Entry(d) != 0 {
      ParentIsEarlier(d);
      ClassOfTree(d);
      ByteOfClass(b);
    } else {
      OthersHaveNoParent(d);
    }
  }

  lemma ByteDescends(s: nat, b: Byte, x: nat)
    requires TableFacts(Lexer()) && IsState(s) && b != 0
    requires Entry(x) != 0 && ParentOf(x) == s && LetterOf(x) == b
    ensures Delta(Lexer(), s, b) == x
  {
    NxtOfEntry(x);
    ClassOfTree(x);
    ClassOfByte(ClassOf(x));
    assert ReachesJam(Lexer(), s, STATES);
    StepOwned(s, Ec(b), STATES);
  }

  // ---------- the words of the tree ----------

  /** A letter leads from one state of the tree to another. */
  predicate Edge(parent: nat, letter: char, s: nat) {
    Entry(s) != 0 && ParentOf(s) == parent && LetterOf(s) == letter as int
  }

  /** The first k letters of the word lead along the states of the path. */
  predicate Along(path: seq<nat>, word: string, k: nat)
    requires k <= |word| && |path| == |word| + 1
  {
    k == 0 || (Edge(path[k - 1], word[k - 1], path[k]) && Along(path, word, k - 1))
  }

  /** The state after a literal. */
  function LiteralState(rule: nat): nat {
    match rule
    case 2 => 6
    case 4 => 25
    case 5 => 8
    case 6 => 9
    case 7 => 14
    case 8 => 10
    case 13 => 43
    case 14 => 60
    case 15 => 82
    case 16 => 75
    case 17 => 52
    case 18 => 51
    case 19 => 105
    case 20 => 101
    case 21 => 104
    case 22 => 100
    case 23 => 118
    case 24 => 119
    case 25 => 87
    case 26 => 85
    case 27 => 71
    case 28 => 93
    case 29 => 92
    case _ => 0
  }

  lemma EdgeOfTree(tree: Tree, parent: nat, letter: char, s: nat)
    requires IsLexerTree(tree) && Edge(parent, letter, s)
    ensures IsEdge(tree, parent, letter, s)
  {
    ParentIsEarlier(s);
  }

  lemma {:induction false} AlongAt(path: seq<nat>, word: string, k: nat, i: nat)
    requires i < k <= |word| && |path| == |word| + 1
    ensures Along(path, word, k) ==> Edge(path[i], word[i], path[i + 1])
    decreases k
  {
    if i < k - 1 {
      AlongAt(path, word, k - 1, i);
    }
  }

  lemma WordFrom(tree: Tree, path: seq<nat>, stem: string, word: string, length: nat, whole: string)
    requires whole == stem + word && length == |word| && |path| == length + 1
    requires IsLexerTree(tree) && path[0] <= JAM_STATE && Along(path, word, length)
    requires Word(tree, path[0]) == Codes(stem)
    ensures path[|word|] <= JAM_STATE && Word(tree, path[|word|]) == Codes(whole)
  {
    forall i | 0 <= i < |word| ensures IsEdge(tree, path[i], word[i], path[i + 1]) {
      AlongAt(path, word, |word|, i);
      EdgeOfTree(tree, path[i], word[i], path[i + 1]);
    }
    PathWord(tree, path, stem, word, whole);
  }

  lemma StartWord(tree: Tree)
    requires IsLexerTree(tree)
    ensures Word(tree, START) == Codes("")
  {
    OthersHaveNoParent(START);
  }

  lemma AcceptOfLiteral(rule: nat)
    requires Literal(rule) != ""
    ensures Accept(LiteralState(rule)) == rule && Entry(LiteralState(rule)) != 0 && LiteralState(rule) < JAM_STATE
  {
  }

  lemma AcceptOfStart(s: nat)
    requires Entry(s) != 0
    ensures ParentOf(s) == START ==> 1 <= Accept(s) <= 12
    ensures Accept(s) == 12 ==> ParentOf(s) == START && LetterOf(s) != NEWLINE
  {
  }

  lemma AcceptOfTree(s: nat)
    requires Entry(s) != 0
    ensures Accept(s) != 0 && Accept(s) != 12 ==> LiteralState(Accept(s)) == s && Literal(Accept(s)) != ""
  {
  }

  // ---------- the rules ----------

  lemma LexerWords(tree: Tree)
    requires IsLexerTree(tree)
    ensures Words(tree)
  {
    forall s: nat | IsLoose(s) ensures tree.parent[s] == 0 {
      LooseStates(s);
    }
    WordsByNumber(tree);
  }

  lemma WordsByNumber(tree: Tree)
    requires IsLexerTree(tree)
    ensures Word(tree, 6) == [NEWLINE] && Word(tree, 7) == [QUOTE] && Word(tree, 12) == [48]
    ensures Word(tree, 15) == [BACKSLASH] && Word(tree, 16) == [98] && Word(tree, 17) == [102]
    ensures Word(tree, 26) == [SLASH, SLASH]
  {
    StartWord(tree);
    WordFrom(tree, [1, 6], "", "\n", 1, "\n");
    WordFrom(tree, [1, 7], "", "\"", 1, "\"");
    WordFrom(tree, [1, 12], "", "0", 1, "0");
    WordFrom(tree, [1, 15], "", "\\", 1, "\\");
    WordFrom(tree, [1, 16], "", "b", 1, "b");
    WordFrom(tree, [1, 17], "", "f", 1, "f");
    WordFrom(tree, [1, 11, 26], "", "//", 2, "//");
  }

  lemma LooseStates(s: nat)
    requires IsLoose(s)
    ensures Entry(s) == 0 && ParentOf(s) == 0
  {
  }

  /** The beginnings that several keywords share. */
  lemma StemWords(tree: Tree)
    requires IsLexerTree(tree)
    ensures Word(tree, 55) == Codes("fuzz_") && Word(tree, 57) == Codes("block_")
  {
    StartWord(tree);
    WordFrom(tree, [1, 17, 31, 42, 50, 55], "", "fuzz_", 5, "fuzz_");
    WordFrom(tree, [1, 16, 30, 41, 49, 54, 57], "", "block_", 6, "block_");
  }

  lemma SizeStemWord(tree: Tree)
    requires IsLexerTree(tree)
    ensures Word(tree, 84) == Codes("block_size_")
  {
    StemWords(tree);
    WordFrom(tree, [57, 64, 70, 76, 80, 84], "block_", "size_", 5, "block_size_");
  }

  lemma SignWords(tree: Tree)
    requires IsLexerTree(tree)
    ensures Word(tree, 6) == Codes("\n")
    ensures Word(tree, 25) == Codes("/*")
    ensures Word(tree, 8) == Codes("(")
    ensures Word(tree, 9) == Codes(")")
    ensures Word(tree, 14) == Codes(";")
    ensures Word(tree, 10) == Codes(",")
  {
    StartWord(tree);
    WordFrom(tree, [1, 6], "", "\n", 1, "\n");
    WordFrom(tree, [1, 11, 25], "", "/*", 2, "/*");
    WordFrom(tree, [1, 8], "", "(", 1, "(");
    WordFrom(tree, [1, 9], "", ")", 1, ")");
    WordFrom(tree, [1, 14], "", ";", 1, ";");
    WordFrom(tree, [1, 10], "", ",", 1, ",");
  }

  lemma TypeWords(tree: Tree)
    requires IsLexerTree(tree)
    ensures Word(tree, 43) == Codes("hex")
    ensures Word(tree, 60) == Codes("string")
  {
    StartWord(tree);
    WordFrom(tree, [1, 18, 32, 43], "", "hex", 3, "hex");
    WordFrom(tree, [1, 20, 35, 46, 53, 56, 60], "", "string", 6, "string");
  }

  lemma TrafficWords(tree: Tree)
    requires IsLexerTree(tree)
    ensures Word(tree, 52) == Codes("send")
    ensures Word(tree, 51) == Codes("recv")
  {
    StartWord(tree);
    WordFrom(tree, [1, 20, 34, 45, 52], "", "send", 4, "send");
    WordFrom(tree, [1, 19, 33, 44, 51], "", "recv", 4, "recv");
  }

  lemma FuzzWords(tree: Tree)
    requires IsLexerTree(tree)
    ensures Word(tree, 85) == Codes("fuzz_string")
    ensures Word(tree, 71) == Codes("fuzz_hex")
  {
    StemWords(tree);
    WordFrom(tree, [55, 59, 66, 72, 77, 81, 85], "fuzz_", "string", 6, "fuzz_string");
    WordFrom(tree, [55, 58, 65, 71], "fuzz_", "hex", 3, "fuzz_hex");
  }

  lemma BlockWords(tree: Tree)
    requires IsLexerTree(tree)
    ensures Word(tree, 82) == Codes("block_begin")
    ensures Word(tree, 75) == Codes("block_end")
  {
    StemWords(tree);
    WordFrom(tree, [57, 61, 67, 73, 78, 82], "block_", "begin", 5, "block_begin");
    WordFrom(tree, [57, 63, 69, 75], "block_", "end", 3, "block_end");
  }

  lemma ChecksumWords(tree: Tree)
    requires IsLexerTree(tree)
    ensures Word(tree, 93) == Codes("block_crc32_l")
    ensures Word(tree, 92) == Codes("block_crc32_b")
  {
    StemWords(tree);
    WordFrom(tree, [57, 62, 68, 74, 79, 83, 86, 93], "block_", "crc32_l", 7, "block_crc32_l");
    WordFrom(tree, [57, 62, 68, 74, 79, 83, 86, 92], "block_", "crc32_b", 7, "block_crc32_b");
  }

  lemma WideSizeWords(tree: Tree)
    requires IsLexerTree(tree)
    ensures Word(tree, 105) == Codes("block_size_l32")
    ensures Word(tree, 101) == Codes("block_size_b32")
  {
    SizeStemWord(tree);
    WordFrom(tree, [84, 91, 99, 105], "block_size_", "l32", 3, "block_size_l32");
    WordFrom(tree, [84, 88, 95, 101], "block_size_", "b32", 3, "block_size_b32");
  }

  lemma HalfSizeWords(tree: Tree)
    requires IsLexerTree(tree)
    ensures Word(tree, 104) == Codes("block_size_l16")
    ensures Word(tree, 100) == Codes("block_size_b16")
  {
    SizeStemWord(tree);
    WordFrom(tree, [84, 91, 98, 104], "block_size_", "l16", 3, "block_size_l16");
    WordFrom(tree, [84, 88, 94, 100], "block_size_", "b16", 3, "block_size_b16");
  }

  lemma ByteSizeWord(tree: Tree)
    requires IsLexerTree(tree)
    ensures Word(tree, 87) == Codes("block_size_8")
  {
    SizeStemWord(tree);
    WordFrom(tree, [84, 87], "block_size_", "8", 1, "block_size_8");
  }

  lemma DecStringWord(tree: Tree)
    requires IsLexerTree(tree)
    ensures Word(tree, 118) == Codes("block_size_dec_string")
  {
    SizeStemWord(tree);
    WordFrom(tree, [84, 89, 96, 102, 106], "block_size_", "dec_", 4, "block_size_dec_");
    WordFrom(tree, [106, 108, 110, 112, 114, 116, 118], "block_size_dec_", "string", 6, "block_size_dec_string");
  }

  lemma HexStringWord(tree: Tree)
    requires IsLexerTree(tree)
    ensures Word(tree, 119) == Codes("block_size_hex_string")
  {
    SizeStemWord(tree);
    WordFrom(tree, [84, 90, 97, 103, 107], "block_size_", "hex_", 4, "block_size_hex_");
    WordFrom(tree, [107, 109, 111, 113, 115, 117, 119], "block_size_hex_", "string", 6, "block_size_hex_string");
  }

  lemma SignLiteral(tree: Tree, rule: nat)
    requires IsLexerTree(tree) && (rule == 2 || 4 <= rule <= 8)
    ensures Word(tree, LiteralState(rule)) == Codes(Literal(rule))
  {
    SignWords(tree);
  }

  lemma TypeLiteral(tree: Tree, rule: nat)
    requires IsLexerTree(tree) && (rule == 13 || rule == 14)
    ensures Word(tree, LiteralState(rule)) == Codes(Literal(rule))
  {
    TypeWords(tree);
  }

  lemma BlockLiteral(tree: Tree, rule: nat)
    requires IsLexerTree(tree) && (rule == 15 || rule == 16)
    ensures Word(tree, LiteralState(rule)) == Codes(Literal(rule))
  {
    BlockWords(tree);
  }

  lemma TrafficLiteral(tree: Tree, rule: nat)
    requires IsLexerTree(tree) && (rule == 17 || rule == 18)
    ensures Word(tree, LiteralState(rule)) == Codes(Literal(rule))
  {
    TrafficWords(tree);
  }

  lemma WideSizeLiteral(tree: Tree, rule: nat)
    requires IsLexerTree(tree) && (rule == 19 || rule == 20)
    ensures Word(tree, LiteralState(rule)) == Codes(Literal(rule))
  {
    WideSizeWords(tree);
  }

  lemma HalfSizeLiteral(tree: Tree, rule: nat)
    requires IsLexerTree(tree) && (rule == 21 || rule == 22)
    ensures Word(tree, LiteralState(rule)) == Codes(Literal(rule))
  {
    HalfSizeWords(tree);
  }

  lemma DecStringLiteral(tree: Tree, state: nat, word: string)
    requires IsLexerTree(tree) && state == LiteralState(23) && word == Literal(23)
    ensures Word(tree, state) == Codes(word)
  {
    DecStringWord(tree);
  }

  lemma HexStringLiteral(tree: Tree, state: nat, word: string)
    requires IsLexerTree(tree) && state == LiteralState(24) && word == Literal(24)
    ensures Word(tree, state) == Codes(word)
  {
    HexStringWord(tree);
  }

  lemma ByteSizeLiteral(tree: Tree, state: nat, word: string)
    requires IsLexerTree(tree) && state == LiteralState(25) && word == Literal(25)
    ensures Word(tree, state) == Codes(word)
  {
    ByteSizeWord(tree);
  }

  lemma FuzzLiteral(tree: Tree, rule: nat)
    requires IsLexerTree(tree) && (rule == 26 || rule == 27)
    ensures Word(tree, LiteralState(rule)) == Codes(Literal(rule))
  {
    FuzzWords(tree);
  }

  lemma ChecksumLiteral(tree: Tree, rule: nat)
    requires IsLexerTree(tree) && (rule == 28 || rule == 29)
    ensures Word(tree, LiteralState(rule)) == Codes(Literal(rule))
  {
    ChecksumWords(tree);
  }

  lemma LiteralIsWord(tree: Tree, rule: nat)
    requires IsLexerTree(tree) && Literal(rule) != ""
    ensures Word(tree, LiteralState(rule)) == Codes(Literal(rule))
  {
    match rule
    case 13 => TypeLiteral(tree, rule);
    case 14 => TypeLiteral(tree, rule);
    case 15 => BlockLiteral(tree, rule);
    case 16 => BlockLiteral(tree, rule);
    case 17 => TrafficLiteral(tree, rule);
    case 18 => TrafficLiteral(tree, rule);
    case 19 => WideSizeLiteral(tree, rule);
    case 20 => WideSizeLiteral(tree, rule);
    case 21 => HalfSizeLiteral(tree, rule);
    case 22 => HalfSizeLiteral(tree, rule);
    case 23 => DecStringLiteral(tree, LiteralState(23), Literal(23));
    case 24 => HexStringLiteral(tree, LiteralState(24), Literal(24));
    case 25 => ByteSizeLiteral(tree, LiteralState(25), Literal(25));
    case 26 => FuzzLiteral(tree, rule);
    case 27 => FuzzLiteral(tree, rule);
    case 28 => ChecksumLiteral(tree, rule);
    case 29 => ChecksumLiteral(tree, rule);
    case _ => SignLiteral(tree, rule);
  }

  function LexerAccept(): seq<nat> { Lexer().accept }

  lemma LexerAccepts(tree: Tree)
    requires IsLexerTree(tree)
    ensures Accepts(LexerAccept(), tree)
  {
    var accept := LexerAccept();
    forall s: nat | InTree(tree, s) ensures AcceptsWord(accept, tree, s) {
      AcceptOfStart(s);
      AcceptOfTree(s);
      if Accept(s) != 0 && Accept(s) != 12 {
        LiteralIsWord(tree, Accept(s));
      }
    }
    forall r: nat | Literal(r) != ""
      ensures exists s: nat :: InTree(tree, s) && accept[s] == r && Word(tree, s) == Codes(Literal(r))
    {
      AcceptOfLiteral(r);
      LiteralIsWord(tree, r);
      assert InTree(tree, LiteralState(r));
    }
  }

  lemma LexerSteps(tree: Tree, s: nat, b: Byte)
    requires TableFacts(Lexer()) && IsLexerTree(tree) && IsState(s) && s != 2 && s != 3 && b != 0
    ensures Steps(tree, s, b, Delta(Lexer(), s, b))
  {
    var d := Delta(Lexer(), s, b);
    EcInRange(b);
    assert ReachesJam(Lexer(), s, STATES);
    LexerMovesByClass(s, Ec(b), STATES);
    MovedByByte(tree, s, b, d);
    forall x: nat | InTree(tree, x) && tree.parent[x] == s && tree.letter[x] == b ensures d == x {
      if Entry(x) == 0 {
        OthersHaveNoParent(x);
      }
      ByteDescends(s, b, x);
    }
  }

  lemma TreeOfLexer(tree: Tree)
    requires tree == LexerTree()
    ensures IsLexerTree(tree)
  {
    LexerTreeIsTree();
  }

  lemma LexerStepsAll(tree: Tree)
    requires TableFacts(Lexer()) && IsLexerTree(tree)
    ensures AllSteps(Lexer(), tree)
  {
    forall s, b: Byte | IsState(s) && s != 2 && s != 3 && b != 0 ensures Steps(tree, s, b, Delta(Lexer(), s, b)) {
      LexerSteps(tree, s, b);
    }
  }

  lemma LexerRuns(tree: Tree, text: seq<Byte>, p: nat, q: nat)
    requires TableFacts(Lexer()) && IsLexerTree(tree) && IsText(text) && p <= q <= |text|
    ensures RunsTo(tree, text[p..q], State(Lexer(), text, p, q))
  {
    LexerStepsAll(tree);
    StateFollows(Lexer(), tree, text, p, q);
  }

  lemma AcceptIsFirst(tree: Tree, w: seq<Byte>, s: nat)
    requires IsLexerTree(tree) && RunsTo(tree, w, s) && w != [] && s <= JAM_STATE
    ensures IsFirstRule(LexerAccept()[s], w)
  {
    LexerWords(tree);
    LexerAccepts(tree);
    AcceptedIsFirst(LexerAccept(), tree, w, s);
  }

  /** The tables of lexer.c implement the rules of lexer.l. */
  lemma TablesImplementRules(text: seq<Byte>, p: nat, q: nat)
    requires TableFacts(Lexer()) && IsText(text) && p < q <= |text|
    ensures IsFirstRule(Rule(Lexer(), text, p, q), text[p..q])
  {
    var tree := LexerTree();
    TreeOfLexer(tree);
    LexerRuns(tree, text, p, q);
    AcceptIsFirst(tree, text[p..q], State(Lexer(), text, p, q));
  }
}
