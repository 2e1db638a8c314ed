/**
 The fuzzing functions ff0 to ff6 of untidy/fuzzingFunctions.py and xmlFuzzer.fuzz of
 untidy/untidy.py, which hands their results to the odometer.
 */
module FuzzingFunctions {
  import opened Odometer

  /** s * rep; a count of zero or less gives the empty string. */
  function Times(s: string, rep: int): string {
    if rep <= 0 then "" else Times(s, rep - 1) + s
  }

  /** Copy k of the text sits at k times its length. */
  lemma {:induction false} TimesAt(s: string, rep: nat, k: nat)
    requires k < rep
    ensures |Times(s, rep)| == rep * |s| && 0 <= k * |s| <= (k + 1) * |s| <= rep * |s|
    ensures Times(s, rep)[k * |s|..(k + 1) * |s|] == s
  {
    TimesLength(s, rep);
    TimesLength(s, rep - 1);
    if k < rep - 1 {
      TimesAt(s, rep - 1, k);
      assert Times(s, rep)[..(rep - 1) * |s|] == Times(s, rep - 1);
    }
  }

  lemma {:induction false} TimesLength(s: string, rep: nat)
    ensures |Times(s, rep)| == rep * |s|
  {
    if rep > 0 {
      TimesLength(s, rep - 1);
      Distribute(rep - 1, 1, |s|);
    }
  }

  predicate IsAlpha(c: char) { 'a' <= c <= 'z' || 'A' <= c <= 'Z' }

  predicate IsDigit(c: char) { '0' <= c <= '9' }

  predicate SameType(a: char, b: char) {
    (IsAlpha(a) && IsAlpha(b)) || (IsDigit(a) && IsDigit(b))
  }

  /** A run starts at p: the character before it, if any, is of another type. */
  predicate RunStarts(item: string, p: nat)
    requires p < |item|
  {
    p == 0 || !SameType(item[p - 1], item[p])
  }

  /** The text ff6 inserts before a character. */
  function Insertion(c: char, rep: int): string {
    if IsAlpha(c) then Times("A", rep)
    else if IsDigit(c) then "1099511627775"
    else Times([c], rep)
  }

  function InsertAt(item: string, p: nat, rep: int): string
    requires p < |item|
  {
    item[..p] + Insertion(item[p], rep) + item[p..]
  }

  /** One result per repetition count, for a text inserted at position p. */
  function Inserted(item: string, p: nat, repetitions: seq<int>): (r: seq<string>)
    requires p < |item|
    ensures |r| == |repetitions|
  {
    seq(|repetitions|, k requires 0 <= k < |repetitions| => InsertAt(item, p, repetitions[k]))
  }

  /** The results of ff6 for the runs that start before position p. */
  function RunFuzz(item: string, p: nat, repetitions: seq<int>): seq<string>
    requires p <= |item|
  {
    if p == 0 then []
    else if RunStarts(item, p - 1) then RunFuzz(item, p - 1, repetitions) + Inserted(item, p - 1, repetitions)
    else RunFuzz(item, p - 1, repetitions)
  }

  /** Number of runs that start before position p. */
  function Runs(item: string, p: nat): nat
    requires p <= |item|
  {
    if p == 0 then 0 else Runs(item, p - 1) + (if RunStarts(item, p - 1) then 1 else 0)
  }

  // The lists that ff1 to ff4 return, one entry per repetition count.

  function OpeningFuzz(item: string, repetitions: seq<int>): seq<string> {
    if "<" <= item then seq(|repetitions|, k requires 0 <= k < |repetitions| => Times(">", repetitions[k]) + item[1..])
    else []
  }

  function BracketFuzz(item: string, repetitions: seq<int>): (r: seq<string>)
    ensures |r| == |repetitions|
  {
    seq(|repetitions|, k requires 0 <= k < |repetitions| =>
      item + Times("<", repetitions[k]) + Times(">", repetitions[k]))
  }

  function LengthFuzz(item: string, repetitions: seq<int>): (r: seq<string>)
    ensures |r| == |repetitions|
  {
    seq(|repetitions|, k requires 0 <= k < |repetitions| => item + Times("A", repetitions[k]))
  }

  function CopyFuzz(item: string, repetitions: seq<int>): (r: seq<string>)
    ensures |r| == |repetitions|
  {
    seq(|repetitions|, k requires 0 <= k < |repetitions| => Times(item, repetitions[k]))
  }

  method Ff0(item: string) returns (r: seq<string>)
    ensures r == [item]
  {
    r := [item];
  }

  method Ff1(item: string, repetitions: seq<int>) returns (r: seq<string>)
    ensures r == OpeningFuzz(item, repetitions)
  {
    r := [];
    for k := 0 to |repetitions|
      invariant r == if "<" <= item then OpeningFuzz(item, repetitions)[..k] else []
    {
      if "<" <= item {
        r := r + [Times(">", repetitions[k]) + item[1..]];
      }
    }
  }

  method Ff2(item: string, repetitions: seq<int>) returns (r: seq<string>)
    ensures r == BracketFuzz(item, repetitions)
  {
    r := [];
    for k := 0 to |repetitions|
      invariant r == BracketFuzz(item, repetitions)[..k]
    {
      var rep := repetitions[k];
      var fuzzedItem := item;
      for i := 0 to Count(rep)
        invariant fuzzedItem == item + Times("<", i)
      {
        fuzzedItem := fuzzedItem + "<";
      }
      ghost var brackets := fuzzedItem;
      for i := 0 to Count(rep)
        invariant fuzzedItem == brackets + Times(">", i)
      {
        fuzzedItem := fuzzedItem + ">";
      }
      r := r + [fuzzedItem];
    }
  }

  /** len(range(rep)) */
  function Count(rep: int): (n: nat)
    ensures forall s :: Times(s, n) == Times(s, rep)
  {
    if rep < 0 then 0 else rep
  }

  method Ff3(item: string, repetitions: seq<int>) returns (r: seq<string>)
    ensures r == LengthFuzz(item, repetitions)
  {
    r := [];
    for k := 0 to |repetitions|
      invariant r == LengthFuzz(item, repetitions)[..k]
    {
      r := r + [item + Times("A", repetitions[k])];
    }
  }

  method Ff4(item: string, repetitions: seq<int>) returns (r: seq<string>)
    ensures r == CopyFuzz(item, repetitions)
  {
    r := [];
    for k := 0 to |repetitions|
      invariant r == CopyFuzz(item, repetitions)[..k]
    {
      r := r + [Times(item, repetitions[k])];
    }
  }

  method Ff5(item: string) returns (r: seq<string>)
    ensures r == [""]
  {
    r := [""];
  }

  method Ff6(item: string, repetitions: seq<int>) returns (r: seq<string>)
    ensures r == RunFuzz(item, |item|, repetitions)
  {
    r := [];
    var last := "";
    for pointer := 0 to |item|
      invariant last == if pointer == 0 then "" else [item[pointer - 1]]
      invariant r == RunFuzz(item, pointer, repetitions)
    {
      var c := item[pointer];
      if last == "" || !SameType(last[0], c) {
        ghost var before := r;
        for k := 0 to |repetitions|
          invariant r == before + Inserted(item, pointer, repetitions)[..k]
        {
          var rep := repetitions[k];
          var fuzzedItem := item[..pointer];
          if IsAlpha(c) {
            fuzzedItem := fuzzedItem + Times("A", rep);
          } else if IsDigit(c) {
            fuzzedItem := fuzzedItem + "1099511627775";
          } else {
            fuzzedItem := fuzzedItem + Times([c], rep);
          }
          fuzzedItem := fuzzedItem + item[pointer..];
          r := r + [fuzzedItem];
        }
      }
      last := [c];
    }
  }

  lemma {:induction false} RunFuzzCount(item: string, p: nat, repetitions: seq<int>)
    requires p <= |item|
    ensures |RunFuzz(item, p, repetitions)| == Runs(item, p) * |repetitions|
  {
    if p > 0 {
      RunFuzzCount(item, p - 1, repetitions);
      Distribute(Runs(item, p - 1), 1, |repetitions|);
    }
  }

  /** The token with one insertion at the start of a run before position q. */
  ghost predicate IsRunInsertion(item: string, q: nat, repetitions: seq<int>, fuzzed: string)
    requires q <= |item|
  {
    exists p: nat, rep :: p < q && RunStarts(item, p) && rep in repetitions && fuzzed == InsertAt(item, p, rep)
  }

  /** The results of ff6 are exactly the insertions at the starts of runs. */
  lemma {:induction false} RunFuzzMembers(item: string, q: nat, repetitions: seq<int>, fuzzed: string)
    requires q <= |item|
    ensures fuzzed in RunFuzz(item, q, repetitions) <==> IsRunInsertion(item, q, repetitions, fuzzed)
  {
    if q > 0 {
      RunFuzzMembers(item, q - 1, repetitions, fuzzed);
      var here := Inserted(item, q - 1, repetitions);
      if RunStarts(item, q - 1) {
        if fuzzed in here {
          var k :| 0 <= k < |here| && here[k] == fuzzed;
          assert repetitions[k] in repetitions && fuzzed == InsertAt(item, q - 1, repetitions[k]);
        } else {
          forall rep | rep in repetitions ensures fuzzed != InsertAt(item, q - 1, rep) {
            var k :| 0 <= k < |repetitions| && repetitions[k] == rep;
            assert here[k] == InsertAt(item, q - 1, rep);
          }
        }
      }
    }
  }

  /** The list of a token: the results of ff0 to ff6 in order. */
  function Entries(token: string, repetitions: seq<int>): (r: seq<string>)
    ensures |r| >= 2 && r[0] == token
  {
    [token] + OpeningFuzz(token, repetitions) + BracketFuzz(token, repetitions) + LengthFuzz(token, repetitions)
    + CopyFuzz(token, repetitions) + [""] + RunFuzz(token, |token|, repetitions)
  }

  lemma TwoTimes(s: string)
    ensures Times(s, 2) == s + s
  {
    assert Times(s, 1) == Times(s, 0) + s == s;
  }

  /** What ff6 inserts with two repetitions: a sign is doubled, a number stays the same. */
  lemma InsertionForTwo(item: string, p: nat)
    requires p < |item|
    ensures InsertAt(item, p, 2) == item[..p]
      + (if 'a' <= item[p] <= 'z' || 'A' <= item[p] <= 'Z' then "AA"
         else if '0' <= item[p] <= '9' then "1099511627775" else [item[p], item[p]])
      + item[p..]
  {
    TwoTimes("A");
    TwoTimes([item[p]]);
  }

  /** All entries of a token with two repetitions. */
  lemma EntriesForTwo(token: string, repetitions: seq<int>)
    requires repetitions == [2]
    ensures Entries(token, repetitions) ==
      [token] + (if "<" <= token then [">>" + token[1..]] else [])
      + [token + "<<>>", token + "AA", token + token, ""] + RunFuzz(token, |token|, repetitions)
  {
    TwoTimes("<");
    TwoTimes(">");
    TwoTimes("A");
    TwoTimes(token);
    var opening, closing := Times("<", 2), Times(">", 2);
    assert opening + closing == "<<>>" && token + opening + closing == token + (opening + closing);
    assert BracketFuzz(token, repetitions) == [token + "<<>>"];
    assert closing == ">>" && OpeningFuzz(token, repetitions) == if "<" <= token then [">>" + token[1..]] else [];
    assert Times("A", 2) == "AA" && LengthFuzz(token, repetitions) == [token + "AA"];
    assert CopyFuzz(token, repetitions) == [token + token];
  }

  /** Number of entries the fuzzing functions give for one token. */
  function EntryCount(token: string, repetitions: seq<int>): nat {
    2 + |repetitions| * (3 + (if "<" <= token then 1 else 0) + Runs(token, |token|))
  }

  lemma EntrySum(n: nat, opening: nat, runs: nat)
    ensures n * (3 + opening + runs) == 3 * n + n * opening + runs * n
  {
  }

  lemma EntriesCount(token: string, repetitions: seq<int>)
    ensures |Entries(token, repetitions)| == EntryCount(token, repetitions)
  {
    var n, opening, runs := |repetitions|, if "<" <= token then 1 else 0, Runs(token, |token|);
    RunFuzzCount(token, |token|, repetitions);
    assert |OpeningFuzz(token, repetitions)| == n * opening;
    assert |Entries(token, repetitions)| == 2 + 3 * n + n * opening + runs * n;
    EntrySum(n, opening, runs);
  }

  /** The lists the odometer enumerates. */
  function TokenLists(tokens: seq<string>, repetitions: seq<int>): (r: Lists)
    ensures |r| == |tokens| && NonEmpty(r)
  {
    seq(|tokens|, i requires 0 <= i < |tokens| => Entries(tokens[i], repetitions))
  }

  /** Number of strings fuzz enumerates. */
  function StringCount(tokens: seq<string>, repetitions: seq<int>): nat {
    if tokens == [] then 1 else EntryCount(tokens[0], repetitions) * StringCount(tokens[1..], repetitions)
  }

  lemma {:induction false} ProductOfEntries(tokens: seq<string>, repetitions: seq<int>)
    ensures Product(TokenLists(tokens, repetitions)) == StringCount(tokens, repetitions)
  {
    if tokens != [] {
      EntriesCount(tokens[0], repetitions);
      ProductOfEntries(tokens[1..], repetitions);
      assert TokenLists(tokens, repetitions)[1..] == TokenLists(tokens[1..], repetitions);
    }
  }

  /** All functions that _getFuzzFunctions finds, ff0 to ff6, applied to one token. */
  method FuzzToken(token: string, repetitions: seq<int>) returns (r: seq<string>)
    ensures r == Entries(token, repetitions)
  {
    var f0 := Ff0(token);
    var f1 := Ff1(token, repetitions);
    var f2 := Ff2(token, repetitions);
    var f3 := Ff3(token, repetitions);
    var f4 := Ff4(token, repetitions);
    var f5 := Ff5(token);
    var f6 := Ff6(token, repetitions);
    r := f0 + f1 + f2 + f3 + f4 + f5 + f6;
  }

  /**
   The enumeration for a token list.  Without tokens the iterator's constructor raises an
   IndexError, shown as null.
   */
  method Fuzz(tokens: seq<string>, repetitions: seq<int>) returns (it: Iterator?)
    ensures it == null <==> tokens == []
    ensures it != null ==> fresh(it) && it.Valid() && it.calls == 0 && it.fi == TokenLists(tokens, repetitions)
    ensures it != null ==> Product(it.fi) == StringCount(tokens, repetitions) > 0
    ensures it != null ==> Nth(it.fi, 0) == Join(tokens)
  {
    var fuzzedXmlItems: Lists := [];
    for i := 0 to |tokens|
      invariant fuzzedXmlItems == TokenLists(tokens, repetitions)[..i]
    {
      var fuzzedItems := FuzzToken(tokens[i], repetitions);
      fuzzedXmlItems := fuzzedXmlItems + [fuzzedItems];
    }
    if tokens == [] {
      return null;
    }
    ProductOfEntries(tokens, repetitions);
    FirstString(fuzzedXmlItems, tokens);
    it := new Iterator(fuzzedXmlItems);
  }
}
