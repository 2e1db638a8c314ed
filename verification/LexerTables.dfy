/**
 The generated tables of autodafe/src/adc/lexer.c, and the proof that they have the properties
 the scanner relies on.
 */
module LexerTables {
  import opened Scanner

  /** Entry i of a row of ten entries, the rows in which lexer.c writes its tables. */
  function Ten(i: int, a: nat, b: nat, c: nat, d: nat, e: nat, f: nat, g: nat, h: nat, k: nat, l: nat): nat {
    if i < 5 then
      if i < 2 then if i < 1 then a else b else if i < 3 then c else if i < 4 then d else e
    else
      if i < 7 then if i < 6 then f else g else if i < 8 then h else if i < 9 then k else l
  }

  /** yy_ec */
  function Ec(i: nat): nat {
    if i < 10 then Ten(i, 0, 1, 1, 1, 1, 1, 1, 1, 1, 2)
    else if i < 20 then Ten(i - 10, 3, 1, 1, 1, 1, 1, 1, 1, 1, 1)
    else if i < 30 then Ten(i - 20, 1, 1, 1, 1, 1, 1, 1, 1, 1, 1)
    else if i < 40 then Ten(i - 30, 1, 1, 2, 1, 4, 1, 1, 1, 1, 1)
    else if i < 50 then Ten(i - 40, 5, 6, 7, 1, 8, 1, 1, 9, 10, 11)
    else if i < 60 then Ten(i - 50, 12, 13, 14, 14, 15, 14, 16, 14, 1, 17)
    else if i < 70 then Ten(i - 60, 1, 1, 1, 1, 1, 14, 14, 14, 14, 14)
    else if i < 80 then Ten(i - 70, 14, 1, 1, 1, 1, 1, 1, 1, 1, 1)
    else if i < 90 then Ten(i - 80, 1, 1, 1, 1, 1, 1, 1, 1, 18, 1)
    else if i < 100 then Ten(i - 90, 1, 1, 19, 1, 1, 20, 1, 14, 21, 22)
    else if i < 110 then Ten(i - 100, 23, 24, 25, 26, 27, 28, 1, 29, 30, 1)
    else if i < 120 then Ten(i - 110, 31, 32, 1, 1, 33, 34, 35, 36, 37, 1)
    else if i < 130 then Ten(i - 120, 38, 1, 39, 1, 1, 1, 1, 1, 1, 1)
    else if i < 140 then Ten(i - 130, 1, 1, 1, 1, 1, 1, 1, 1, 1, 1)
    else if i < 150 then Ten(i - 140, 1, 1, 1, 1, 1, 1, 1, 1, 1, 1)
    else if i < 160 then Ten(i - 150, 1, 1, 1, 1, 1, 1, 1, 1, 1, 1)
    else if i < 170 then Ten(i - 160, 1, 1, 1, 1, 1, 1, 1, 1, 1, 1)
    else if i < 180 then Ten(i - 170, 1, 1, 1, 1, 1, 1, 1, 1, 1, 1)
    else if i < 190 then Ten(i - 180, 1, 1, 1, 1, 1, 1, 1, 1, 1, 1)
    else if i < 200 then Ten(i - 190, 1, 1, 1, 1, 1, 1, 1, 1, 1, 1)
    else if i < 210 then Ten(i - 200, 1, 1, 1, 1, 1, 1, 1, 1, 1, 1)
    else if i < 220 then Ten(i - 210, 1, 1, 1, 1, 1, 1, 1, 1, 1, 1)
    else if i < 230 then Ten(i - 220, 1, 1, 1, 1, 1, 1, 1, 1, 1, 1)
    else if i < 240 then Ten(i - 230, 1, 1, 1, 1, 1, 1, 1, 1, 1, 1)
    else if i < 250 then Ten(i - 240, 1, 1, 1, 1, 1, 1, 1, 1, 1, 1)
    else Ten(i - 250, 1, 1, 1, 1, 1, 1, 1, 1, 1, 1)
  }

  /** yy_accept */
  function Accept(i: nat): nat {
    if i < 10 then Ten(i, 0, 0, 0, 31, 12, 3, 2, 12, 5, 6)
    else if i < 20 then Ten(i - 10, 8, 12, 12, 12, 7, 12, 12, 12, 12, 12)
    else if i < 30 then Ten(i - 20, 12, 3, 0, 9, 0, 4, 0, 10, 0, 0)
    else if i < 40 then Ten(i - 30, 0, 0, 0, 0, 0, 0, 0, 0, 1, 0)
    else if i < 50 then Ten(i - 40, 0, 0, 0, 13, 0, 0, 0, 0, 11, 0)
    else if i < 60 then Ten(i - 50, 0, 18, 17, 0, 0, 0, 0, 0, 0, 0)
    else if i < 70 then Ten(i - 60, 14, 0, 0, 0, 0, 0, 0, 0, 0, 0)
    else if i < 80 then Ten(i - 70, 0, 27, 0, 0, 0, 16, 0, 0, 0, 0)
    else if i < 90 then Ten(i - 80, 0, 0, 15, 0, 0, 26, 0, 25, 0, 0)
    else if i < 100 then Ten(i - 90, 0, 0, 29, 28, 0, 0, 0, 0, 0, 0)
    else if i < 110 then Ten(i - 100, 22, 20, 0, 0, 21, 19, 0, 0, 0, 0)
    else if i < 120 then Ten(i - 110, 0, 0, 0, 0, 0, 0, 0, 0, 23, 24)
    else Ten(i - 120, 0, 0, 0, 0, 0, 0, 0, 0, 0, 0)
  }

  /** yy_meta */
  function Meta(i: nat): nat {
    if i < 10 then Ten(i, 0, 1, 1, 2, 1, 1, 1, 1, 1, 1)
    else if i < 20 then Ten(i - 10, 3, 3, 3, 3, 3, 3, 3, 1, 4, 1)
    else if i < 30 then Ten(i - 20, 1, 3, 3, 3, 3, 3, 1, 1, 1, 1)
    else Ten(i - 30, 1, 1, 1, 1, 1, 1, 1, 1, 4, 1)
  }

  /** yy_base */
  function Base(i: nat): nat {
    if i < 10 then Ten(i, 0, 0, 0, 164, 165, 161, 165, 36, 165, 165)
    else if i < 20 then Ten(i - 10, 165, 34, 24, 26, 165, 27, 28, 17, 138, 137)
    else if i < 30 then Ten(i - 20, 24, 158, 48, 165, 0, 165, 156, 165, 0, 0)
    else if i < 40 then Ten(i - 30, 126, 118, 118, 133, 123, 120, 50, 149, 165, 0)
    else if i < 50 then Ten(i - 40, 0, 129, 111, 165, 112, 125, 119, 52, 165, 117)
    else if i < 60 then Ten(i - 50, 125, 165, 165, 113, 123, 23, 116, 39, 117, 105)
    else if i < 70 then Ten(i - 60, 165, 115, 105, 106, 108, 97, 101, 107, 110, 108)
    else if i < 80 then Ten(i - 70, 91, 165, 101, 100, 114, 165, 102, 94, 93, 111)
    else if i < 90 then Ten(i - 80, 102, 95, 165, 100, 54, 165, 53, 165, 38, 95)
    else if i < 100 then Ten(i - 90, 94, 65, 165, 165, 102, 104, 93, 76, 98, 100)
    else if i < 110 then Ten(i - 100, 165, 165, 91, 90, 165, 165, 75, 74, 72, 71)
    else if i < 120 then Ten(i - 110, 72, 71, 75, 72, 61, 55, 56, 54, 165, 165)
    else Ten(i - 120, 165, 84, 86, 90, 94, 76, 69, 98, 65, 0)
  }

  /** yy_def */
  function Def(i: nat): nat {
    if i < 10 then Ten(i, 0, 120, 1, 120, 120, 120, 120, 121, 120, 120)
    else if i < 20 then Ten(i - 10, 120, 120, 122, 122, 120, 120, 122, 16, 120, 120)
    else if i < 30 then Ten(i - 20, 120, 120, 121, 120, 123, 120, 124, 120, 125, 126)
    else if i < 40 then Ten(i - 30, 120, 120, 120, 120, 120, 120, 127, 124, 120, 128)
    else if i < 50 then Ten(i - 40, 128, 120, 120, 120, 120, 120, 120, 127, 120, 120)
    else if i < 60 then Ten(i - 50, 120, 120, 120, 120, 120, 120, 120, 120, 120, 120)
    else if i < 70 then Ten(i - 60, 120, 120, 120, 120, 120, 120, 120, 120, 120, 120)
    else if i < 80 then Ten(i - 70, 120, 120, 120, 120, 120, 120, 120, 120, 120, 120)
    else if i < 90 then Ten(i - 80, 120, 120, 120, 120, 120, 120, 120, 120, 120, 120)
    else if i < 100 then Ten(i - 90, 120, 120, 120, 120, 120, 120, 120, 120, 120, 120)
    else if i < 110 then Ten(i - 100, 120, 120, 120, 120, 120, 120, 120, 120, 120, 120)
    else if i < 120 then Ten(i - 110, 120, 120, 120, 120, 120, 120, 120, 120, 120, 120)
    else Ten(i - 120, 0, 120, 120, 120, 120, 120, 120, 120, 120, 0)
  }

  /** yy_nxt */
  function Nxt(i: nat): nat {
    if i < 10 then Ten(i, 0, 4, 5, 6, 7, 8, 9, 4, 10, 11)
    else if i < 20 then Ten(i - 10, 12, 13, 13, 13, 13, 13, 13, 14, 4, 15)
    else if i < 30 then Ten(i - 20, 4, 16, 13, 13, 13, 17, 4, 18, 4, 4)
    else if i < 40 then Ten(i - 30, 4, 4, 4, 19, 20, 4, 4, 4, 4, 4)
    else if i < 50 then Ten(i - 40, 23, 25, 28, 26, 120, 29, 120, 120, 34, 94)
    else if i < 60 then Ten(i - 50, 58, 95, 23, 31, 23, 24, 23, 59, 30, 35)
    else if i < 70 then Ten(i - 60, 61, 62, 28, 63, 120, 29, 120, 24, 48, 24)
    else if i < 80 then Ten(i - 70, 87, 24, 40, 64, 92, 88, 98, 89, 99, 39)
    else if i < 90 then Ten(i - 80, 119, 90, 118, 93, 91, 22, 117, 22, 22, 27)
    else if i < 100 then Ten(i - 90, 27, 36, 116, 36, 36, 37, 37, 37, 37, 47)
    else if i < 110 then Ten(i - 100, 115, 47, 47, 114, 113, 112, 111, 110, 109, 108)
    else if i < 120 then Ten(i - 110, 107, 106, 105, 104, 103, 102, 101, 100, 97, 96)
    else if i < 130 then Ten(i - 120, 86, 85, 84, 83, 82, 81, 80, 79, 78, 77)
    else if i < 140 then Ten(i - 130, 76, 75, 74, 73, 72, 71, 70, 69, 68, 67)
    else if i < 150 then Ten(i - 140, 66, 65, 60, 57, 56, 55, 54, 53, 52, 51)
    else if i < 160 then Ten(i - 150, 50, 49, 38, 46, 45, 44, 43, 42, 41, 38)
    else if i < 170 then Ten(i - 160, 21, 33, 32, 21, 120, 3, 120, 120, 120, 120)
    else if i < 180 then Ten(i - 170, 120, 120, 120, 120, 120, 120, 120, 120, 120, 120)
    else if i < 190 then Ten(i - 180, 120, 120, 120, 120, 120, 120, 120, 120, 120, 120)
    else if i < 200 then Ten(i - 190, 120, 120, 120, 120, 120, 120, 120, 120, 120, 120)
    else Ten(i - 200, 120, 120, 120, 120, 120, 0, 0, 0, 0, 0)
  }

  /** yy_chk */
  function Chk(i: nat): nat {
    if i < 10 then Ten(i, 0, 1, 1, 1, 1, 1, 1, 1, 1, 1)
    else if i < 20 then Ten(i - 10, 1, 1, 1, 1, 1, 1, 1, 1, 1, 1)
    else if i < 30 then Ten(i - 20, 1, 1, 1, 1, 1, 1, 1, 1, 1, 1)
    else if i < 40 then Ten(i - 30, 1, 1, 1, 1, 1, 1, 1, 1, 1, 1)
    else if i < 50 then Ten(i - 40, 7, 11, 12, 11, 13, 15, 16, 17, 20, 88)
    else if i < 60 then Ten(i - 50, 55, 88, 22, 17, 36, 7, 47, 55, 16, 20)
    else if i < 70 then Ten(i - 60, 57, 57, 12, 57, 13, 15, 16, 22, 128, 36)
    else if i < 80 then Ten(i - 70, 84, 47, 126, 57, 86, 84, 91, 84, 91, 125)
    else if i < 90 then Ten(i - 80, 117, 84, 116, 86, 84, 121, 115, 121, 121, 122)
    else if i < 100 then Ten(i - 90, 122, 123, 114, 123, 123, 124, 124, 124, 124, 127)
    else if i < 110 then Ten(i - 100, 113, 127, 127, 112, 111, 110, 109, 108, 107, 106)
    else if i < 120 then Ten(i - 110, 103, 102, 99, 98, 97, 96, 95, 94, 90, 89)
    else if i < 130 then Ten(i - 120, 83, 81, 80, 79, 78, 77, 76, 74, 73, 72)
    else if i < 140 then Ten(i - 130, 70, 69, 68, 67, 66, 65, 64, 63, 62, 61)
    else if i < 150 then Ten(i - 140, 59, 58, 56, 54, 53, 50, 49, 46, 45, 44)
    else if i < 160 then Ten(i - 150, 42, 41, 37, 35, 34, 33, 32, 31, 30, 26)
    else if i < 170 then Ten(i - 160, 21, 19, 18, 5, 3, 120, 120, 120, 120, 120)
    else if i < 180 then Ten(i - 170, 120, 120, 120, 120, 120, 120, 120, 120, 120, 120)
    else if i < 190 then Ten(i - 180, 120, 120, 120, 120, 120, 120, 120, 120, 120, 120)
    else if i < 200 then Ten(i - 190, 120, 120, 120, 120, 120, 120, 120, 120, 120, 120)
    else Ten(i - 200, 120, 120, 120, 120, 120, 0, 0, 0, 0, 0)
  }

  function Lexer(): Tables {
    Tables(
      seq(256, i requires 0 <= i < 256 => Ec(i)),
      seq(121, i requires 0 <= i < 121 => Accept(i)),
      seq(40, i requires 0 <= i < 40 => Meta(i)),
      seq(129, i requires 0 <= i < 129 => Base(i)),
      seq(129, i requires 0 <= i < 129 => Def(i)),
      seq(205, i requires 0 <= i < 205 => Nxt(i)),
      seq(205, i requires 0 <= i < 205 => Chk(i)))
  }

  lemma EcInRange(b: nat)
    requires 1 <= b < 256
    ensures IsClass(Ec(b))
  {
  }

  lemma MetaInRange(c: nat)
    requires IsClass(c)
    ensures IsClass(Meta(c))
  {
  }

  lemma BaseInRange(s: nat)
    requires s < STATES
    ensures Base(s) <= 165
  {
  }

  lemma NxtInRange(i: nat)
    requires 1 <= i < 205
    ensures IsState(Nxt(i))
  {
  }

  lemma DefInRange(s: nat)
    requires 1 <= s < STATES && s != JAM_STATE
    ensures 1 <= Def(s) < STATES
  {
  }

  lemma ShapeHolds()
    ensures Shape(Lexer())
  {
    var t := Lexer();
    forall b | 1 <= b < 256 ensures IsClass(t.ec[b]) { EcInRange(b); }
    forall c | IsClass(c) ensures IsClass(t.meta[c]) { MetaInRange(c); }
    forall s | 0 <= s < STATES ensures t.base[s] + CLASSES <= |t.chk| { BaseInRange(s); }
    forall i | 1 <= i < |t.nxt| ensures IsState(t.nxt[i]) { NxtInRange(i); }
    forall s | 1 <= s < STATES && s != JAM_STATE ensures 1 <= t.def[s] < STATES { DefInRange(s); }
  }

  /** The tail of the tables is the row of the jam state. */
  lemma JamRow(i: nat)
    requires 166 <= i < 205
    ensures Chk(i) == JAM_STATE && Nxt(i) == JAM_STATE
  {
  }

  lemma JamAbsorbsHolds()
    requires Shape(Lexer())
    ensures JamAbsorbs(Lexer())
  {
    forall c | IsClass(c) ensures JamStays(Lexer(), c) {
      JamRow(165 + c);
    }
  }

  /** A default state is the jam state, or has it as its own default state. */
  lemma DefaultsAreShallow(s: nat)
    requires 1 <= s < STATES && s != JAM_STATE
    ensures Def(s) == JAM_STATE || Def(Def(s)) == JAM_STATE || Def(Def(Def(s))) == JAM_STATE
  {
  }

  lemma ChainsEndHolds()
    requires Shape(Lexer())
    ensures ChainsEnd(Lexer())
  {
    var t := Lexer();
    forall s | 1 <= s < STATES ensures ReachesJam(t, s, STATES) {
      if s != JAM_STATE {
        DefaultsAreShallow(s);
        var d := t.def[s];
        assert ReachesJam(t, d, STATES - 1) by {
          if d != JAM_STATE {
            var e := t.def[d];
            assert ReachesJam(t, e, STATES - 2) by {
              assert e != JAM_STATE ==> ReachesJam(t, t.def[e], STATES - 3);
            }
          }
        }
      }
    }
  }

  lemma JamBaseDefault(s: nat)
    requires IsState(s) && s != JAM_STATE && Base(s) == JAM_BASE
    ensures Def(s) == JAM_STATE
  {
  }

  lemma JamSteps(c: nat, steps: nat)
    requires Shape(Lexer()) && JamAbsorbs(Lexer()) && IsClass(c)
    ensures ReachesJam(Lexer(), JAM_STATE, steps) && Step(Lexer(), JAM_STATE, c, steps) == JAM_STATE
  {
    assert JamStays(Lexer(), c);
  }

  lemma JamBaseJamsHolds()
    requires Shape(Lexer()) && JamAbsorbs(Lexer()) && ChainsEnd(Lexer())
    ensures JamBaseJams(Lexer())
  {
    var t := Lexer();
    forall s, c | IsState(s) && IsClass(c) && t.base[s] == JAM_BASE ensures Step(t, s, c, STATES) == JAM_STATE {
      if s == JAM_STATE {
        JamSteps(c, STATES);
      } else {
        JamRow(165 + c);
        JamBaseDefault(s);
        JamSteps(c, STATES - 1);
      }
    }
  }

  /** The row of the start state, at the front of the tables, leads to accepting states only. */
  lemma StartRow(c: nat)
    requires IsClass(c)
    ensures Base(START) == 0 && Chk(c) == START && Accept(Nxt(c)) != 0
  {
  }

  lemma StartStep(c: nat)
    requires Shape(Lexer()) && JamAbsorbs(Lexer()) && ChainsEnd(Lexer()) && IsClass(c)
    ensures Step(Lexer(), START, c, STATES) == Nxt(c)
  {
    StartRow(c);
  }

  lemma DefaultRuleHolds()
    requires Shape(Lexer()) && JamAbsorbs(Lexer()) && ChainsEnd(Lexer())
    ensures DefaultRule(Lexer())
  {
    var t := Lexer();
    forall c | IsClass(c) ensures t.accept[Step(t, START, c, STATES)] != 0 {
      StartStep(c);
      StartRow(c);
    }
  }

  /** So the scanner of lexer.c returns longest matches, and every non-empty text has one. */
  lemma LexerHasTableFacts()
    ensures TableFacts(Lexer()) && DefaultRule(Lexer())
  {
    ShapeHolds();
    JamAbsorbsHolds();
    ChainsEndHolds();
    JamBaseJamsHolds();
    DefaultRuleHolds();
  }
}
