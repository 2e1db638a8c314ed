/** deParen of jsfunfuzz/jsfunfuzz.js: the program text with one pair of matching parentheses removed. */
module DeParen {
  import opened Wrappers
  import opened Units

  const LEFT := 40
  const RIGHT := 41

  // ---------- balance ----------

  function Weight(c: CodeUnit): int {
    if c == LEFT then 1 else if c == RIGHT then -1 else 0
  }

  /** Left minus right parentheses. */
  function Depth(s: Text): int {
    if s == [] then 0 else Depth(s[..|s| - 1]) + Weight(s[|s| - 1])
  }

  ghost predicate Balanced(s: Text) {
    Depth(s) == 0 && forall k | 0 <= k <= |s| :: Depth(s[..k]) >= 0
  }

  /** The parenthesis at r closes the one at l: the text between them is balanced. */
  ghost predicate IsMatch(s: Text, l: nat, r: nat) {
    && l < r < |s| && s[l] == LEFT && s[r] == RIGHT
    && Depth(s[..r]) == Depth(s[..l]) + 1
    && forall k | l < k <= r :: Depth(s[..k]) > Depth(s[..l])
  }

  /** Positions of the left parentheses in text order. */
  function Lefts(s: Text): (r: seq<nat>)
    ensures forall i | 0 <= i < |r| :: r[i] < |s| && s[r[i]] == LEFT
  {
    if s == [] then []
    else if s[|s| - 1] == LEFT then Lefts(s[..|s| - 1]) + [|s| - 1]
    else Lefts(s[..|s| - 1])
  }

  lemma {:induction false} LeftsAreAll(s: Text)
    ensures forall i, j | 0 <= i < j < |Lefts(s)| :: Lefts(s)[i] < Lefts(s)[j]
    ensures forall k | 0 <= k < |s| && s[k] == LEFT :: k in Lefts(s)
  {
    if s != [] {
      var front := s[..|s| - 1];
      LeftsAreAll(front);
      forall k | 0 <= k < |s| && s[k] == LEFT ensures k in Lefts(s) {
        if k < |front| {
          assert front[k] == LEFT;
        }
      }
    }
  }

  function Remove(s: Text, l: nat, r: nat): Text
    requires l < r < |s|
  {
    s[..l] + s[l + 1..r] + s[r + 1..]
  }

  /** The depth counts parentheses. */
  lemma {:induction false} DepthCounts(s: Text)
    ensures Depth(s) == multiset(s)[40] as int - multiset(s)[41] as int
  {
    if s != [] {
      DepthCounts(s[..|s| - 1]);
      assert s == s[..|s| - 1] + [s[|s| - 1]];
    }
  }

  lemma DepthStep(s: Text, k: nat)
    requires k < |s|
    ensures Depth(s[..k + 1]) == Depth(s[..k]) + Weight(s[k])
  {
    assert s[..k + 1][..k] == s[..k];
  }

  lemma {:induction false} DepthConcat(a: Text, b: Text)
    ensures Depth(a + b) == Depth(a) + Depth(b)
  {
    if b == [] {
      assert a + b == a;
    } else {
      DepthConcat(a, b[..|b| - 1]);
      assert (a + b)[..|a + b| - 1] == a + b[..|b| - 1];
    }
  }

  lemma DepthOfSlice(s: Text, a: nat, b: nat)
    requires a <= b <= |s|
    ensures Depth(s[a..b]) == Depth(s[..b]) - Depth(s[..a])
  {
    DepthConcat(s[..a], s[a..b]);
    assert s[..a] + s[a..b] == s[..b];
  }

  /** Matching parentheses are exactly those that enclose a balanced text. */
  lemma MatchIffEnclosedBalanced(s: Text, l: nat, r: nat)
    requires l < r < |s| && s[l] == LEFT && s[r] == RIGHT
    ensures IsMatch(s, l, r) <==> Balanced(s[l + 1..r])
  {
    var inner := s[l + 1..r];
    DepthStep(s, l);
    DepthOfSlice(s, l + 1, r);
    forall k | 0 <= k <= |inner| ensures Depth(inner[..k]) == Depth(s[..l + 1 + k]) - Depth(s[..l + 1]) {
      assert inner[..k] == s[l + 1..l + 1 + k];
      DepthOfSlice(s, l + 1, l + 1 + k);
    }
    if Balanced(inner) {
      forall k | l < k <= r ensures Depth(s[..k]) > Depth(s[..l]) {
        assert Depth(inner[..k - (l + 1)]) >= 0;
      }
    }
  }

  lemma MatchIsUnique(s: Text, l: nat, r: nat, r': nat)
    requires IsMatch(s, l, r) && IsMatch(s, l, r')
    ensures r == r'
  {
    DepthStep(s, r);
    DepthStep(s, r');
  }

  /** Removing a matching pair from a balanced text leaves a balanced text, two shorter. */
  lemma RemoveStaysBalanced(s: Text, l: nat, r: nat)
    requires Balanced(s) && IsMatch(s, l, r)
    ensures |Remove(s, l, r)| == |s| - 2
    ensures Balanced(Remove(s, l, r))
  {
    var t := Remove(s, l, r);
    forall k | 0 <= k <= |t| ensures Depth(t[..k]) == Depth(s[..After(k, l, r)]) - (if l < k < r then 1 else 0) {
      RemovedDepth(s, l, r, k);
    }
    assert t[..|t|] == t && s[..|s|] == s;
  }

  /** The prefix of the original text that ends where the first k units left by a removal end. */
  function After(k: nat, l: nat, r: nat): nat {
    if k <= l then k else if k < r then k + 1 else k + 2
  }

  lemma RemovedDepth(s: Text, l: nat, r: nat, k: nat)
    requires IsMatch(s, l, r) && k <= |s| - 2
    ensures After(k, l, r) <= |s|
    ensures Depth(Remove(s, l, r)[..k]) == Depth(s[..After(k, l, r)]) - (if l < k < r then 1 else 0)
  {
    var t, before := Remove(s, l, r), s[..l];
    DepthStep(s, l);
    if k <= l {
      assert t[..k] == s[..k];
    } else if k < r {
      assert t[..k] == before + s[l + 1..k + 1];
      DepthConcat(before, s[l + 1..k + 1]);
      DepthOfSlice(s, l + 1, k + 1);
    } else {
      RemovedDepthAfter(s, l, r, k);
    }
  }

  lemma RemovedDepthAfter(s: Text, l: nat, r: nat, k: nat)
    requires IsMatch(s, l, r) && r - 1 <= k <= |s| - 2
    ensures Depth(Remove(s, l, r)[..k]) == Depth(s[..k + 2])
  {
    var before, inner, after := s[..l], s[l + 1..r], s[r + 1..k + 2];
    DepthStep(s, l);
    DepthStep(s, r);
    assert Remove(s, l, r)[..k] == before + inner + after;
    DepthConcat(before + inner, after);
    DepthConcat(before, inner);
    DepthOfSlice(s, l + 1, r);
    DepthOfSlice(s, r + 1, k + 2);
  }

  // ---------- the function ----------

  datatype Pair = Pair(left: nat, right: Option<nat>)

  /** The pair holds two matching parentheses. */
  ghost predicate Matched(s: Text, pair: Pair) {
    pair.right.Some? && IsMatch(s, pair.left, pair.right.value)
  }

  ghost predicate DepthsOk(s: Text, unmatched: seq<nat>, i: nat) {
    i <= |s| && Depth(s[..i]) == |unmatched| && forall k | 0 <= k <= i :: Depth(s[..k]) >= 0
  }

  ghost predicate LeftsOk(s: Text, pairs: seq<Pair>, i: nat)
    requires i <= |s|
  {
    |Lefts(s[..i])| == |pairs| && forall j | 0 <= j < |pairs| :: Lefts(s[..i])[j] == pairs[j].left
  }

  /** The parenthesis at l opens depth t + 1, and is not closed before i. */
  ghost predicate Open(s: Text, l: nat, t: nat, i: nat)
    requires i <= |s|
  {
    l < i && s[l] == LEFT && Depth(s[..l]) == t && forall k | l < k <= i :: Depth(s[..k]) > t
  }

  /** The stack holds the open parentheses by depth. */
  ghost predicate StackOk(s: Text, pairs: seq<Pair>, unmatched: seq<nat>, i: nat)
    requires i <= |s|
  {
    && (forall t | 0 <= t < |unmatched| :: unmatched[t] < |pairs| && Open(s, pairs[unmatched[t]].left, t, i))
    && (forall t, t' | 0 <= t < t' < |unmatched| :: unmatched[t] < unmatched[t'])
  }

  ghost predicate PairsOk(s: Text, pairs: seq<Pair>, unmatched: seq<nat>) {
    forall j | 0 <= j < |pairs| :: j in unmatched || Matched(s, pairs[j])
  }

  /** What the scan knows after the first i units. */
  ghost predicate Scanned(s: Text, pairs: seq<Pair>, unmatched: seq<nat>, i: nat) {
    DepthsOk(s, unmatched, i) && LeftsOk(s, pairs, i) && StackOk(s, pairs, unmatched, i) && PairsOk(s, pairs, unmatched)
  }

  lemma LeftsStep(s: Text, i: nat)
    requires i < |s|
    ensures Lefts(s[..i + 1]) == if s[i] == LEFT then Lefts(s[..i]) + [i] else Lefts(s[..i])
  {
    assert s[..i + 1][..i] == s[..i];
  }

  lemma StaysOpen(s: Text, l: nat, t: nat, i: nat)
    requires i < |s| && Open(s, l, t, i) && Depth(s[..i + 1]) > t
    ensures Open(s, l, t, i + 1)
  {
  }

  lemma PushLeft(s: Text, pairs: seq<Pair>, unmatched: seq<nat>, i: nat)
    requires Scanned(s, pairs, unmatched, i) && i < |s| && s[i] == LEFT
    ensures Scanned(s, pairs + [Pair(i, None)], unmatched + [|pairs|], i + 1)
  {
    var pairs', unmatched' := pairs + [Pair(i, None)], unmatched + [|pairs|];
    DepthStep(s, i);
    LeftsStep(s, i);
    assert DepthsOk(s, unmatched', i + 1) && LeftsOk(s, pairs', i + 1);
    forall t | 0 <= t < |unmatched'| ensures unmatched'[t] < |pairs'| && Open(s, pairs'[unmatched'[t]].left, t, i + 1) {
      if t < |unmatched| {
        StaysOpen(s, pairs[unmatched[t]].left, t, i);
      }
    }
    forall j | 0 <= j < |pairs'| ensures j in unmatched' || Matched(s, pairs'[j]) {
      if j == |pairs| {
        assert unmatched'[|unmatched|] == j;
      } else if j in unmatched {
        var t :| 0 <= t < |unmatched| && unmatched[t] == j;
        assert unmatched'[t] == j;
      }
    }
  }

  /** The pairs after the parenthesis at i closed the pair on top of the stack. */
  function Close(pairs: seq<Pair>, top: nat, i: nat): (r: seq<Pair>)
    requires top < |pairs|
    ensures |r| == |pairs| && r[top] == Pair(pairs[top].left, Some(i))
    ensures forall j | 0 <= j < |r| :: r[j].left == pairs[j].left && (j != top ==> r[j] == pairs[j])
  {
    pairs[top := pairs[top].(right := Some(i))]
  }

  lemma PopStack(s: Text, pairs: seq<Pair>, unmatched: seq<nat>, i: nat)
    requires i < |s| && unmatched != [] && StackOk(s, pairs, unmatched, i) && Depth(s[..i + 1]) == |unmatched| - 1
    ensures unmatched[|unmatched| - 1] < |pairs|
    ensures StackOk(s, Close(pairs, unmatched[|unmatched| - 1], i), unmatched[..|unmatched| - 1], i + 1)
  {
    var n := |unmatched| - 1;
    assert Open(s, pairs[unmatched[n]].left, n, i);
    var pairs' := Close(pairs, unmatched[n], i);
    forall t | 0 <= t < n ensures unmatched[t] < |pairs'| && Open(s, pairs'[unmatched[t]].left, t, i + 1) {
      StaysOpen(s, pairs[unmatched[t]].left, t, i);
    }
  }

  lemma PopPairs(s: Text, pairs: seq<Pair>, unmatched: seq<nat>, i: nat)
    requires unmatched != [] && unmatched[|unmatched| - 1] < |pairs| && PairsOk(s, pairs, unmatched)
    requires IsMatch(s, pairs[unmatched[|unmatched| - 1]].left, i)
    ensures PairsOk(s, Close(pairs, unmatched[|unmatched| - 1], i), unmatched[..|unmatched| - 1])
  {
    var n := |unmatched| - 1;
    var pairs' := Close(pairs, unmatched[n], i);
    forall j | 0 <= j < |pairs'| ensures j in unmatched[..n] || Matched(s, pairs'[j]) {
      if j != unmatched[n] && j in unmatched {
        var t :| 0 <= t < |unmatched| && unmatched[t] == j;
        assert unmatched[..n][t] == j;
      }
    }
  }

  lemma ClosingIsMatch(s: Text, l: nat, t: nat, i: nat)
    requires i < |s| && s[i] == RIGHT && Open(s, l, t, i) && Depth(s[..i]) == t + 1
    ensures IsMatch(s, l, i)
  {
  }

  lemma PopRight(s: Text, pairs: seq<Pair>, unmatched: seq<nat>, i: nat)
    requires Scanned(s, pairs, unmatched, i) && i < |s| && s[i] == RIGHT && unmatched != []
    ensures unmatched[|unmatched| - 1] < |pairs|
    ensures Scanned(s, Close(pairs, unmatched[|unmatched| - 1], i), unmatched[..|unmatched| - 1], i + 1)
  {
    DepthStep(s, i);
    LeftsStep(s, i);
    var n := |unmatched| - 1;
    ClosingIsMatch(s, pairs[unmatched[n]].left, n, i);
    PopStack(s, pairs, unmatched, i);
    PopPairs(s, pairs, unmatched, i);
    assert DepthsOk(s, unmatched[..n], i + 1);
    assert LeftsOk(s, Close(pairs, unmatched[n], i), i + 1);
  }

  lemma SkipOther(s: Text, pairs: seq<Pair>, unmatched: seq<nat>, i: nat)
    requires Scanned(s, pairs, unmatched, i) && i < |s| && s[i] != LEFT && s[i] != RIGHT
    ensures Scanned(s, pairs, unmatched, i + 1)
  {
    DepthStep(s, i);
    LeftsStep(s, i);
  }

  method FindPairs(code: Text) returns (r: Option<seq<Pair>>)
    ensures r.Some? <==> Balanced(code)
    ensures r.Some? ==> |r.value| == |Lefts(code)|
    ensures r.Some? ==> forall j | 0 <= j < |r.value| :: r.value[j].left == Lefts(code)[j] && Matched(code, r.value[j])
  {
    var parenPairs: seq<Pair>, unmatched: seq<nat> := [], [];
    for i := 0 to |code|
      invariant Scanned(code, parenPairs, unmatched, i)
    {
      var c := code[i];
      if c == LEFT {
        PushLeft(code, parenPairs, unmatched, i);
        unmatched := unmatched + [|parenPairs|];
        parenPairs := parenPairs + [Pair(i, None)];
      } else if c == RIGHT {
        if unmatched == [] {
          DepthStep(code, i);
          return None;
        }
        PopRight(code, parenPairs, unmatched, i);
        var top := unmatched[|unmatched| - 1];
        unmatched := unmatched[..|unmatched| - 1];
        parenPairs := parenPairs[top := parenPairs[top].(right := Some(i))];
      } else {
        SkipOther(code, parenPairs, unmatched, i);
      }
    }
    assert code[..|code|] == code;
    if unmatched != [] {
      return None;
    }
    return Some(parenPairs);
  }

  /** t is the text without the parenthesis at l and its match. */
  ghost predicate IsRemoval(s: Text, l: nat, t: Text) {
    exists r :: IsMatch(s, l, r) && t == Remove(s, l, r)
  }

  lemma RemovalIsBalanced(s: Text, l: nat, t: Text)
    requires Balanced(s) && IsRemoval(s, l, t)
    ensures Balanced(t) && |t| == |s| - 2
    ensures exists r: nat :: IsMatch(s, l, r) && PutBack(t, l, r - 1) == s
  {
    var r: nat :| IsMatch(s, l, r) && t == Remove(s, l, r);
    RemoveStaysBalanced(s, l, r);
    PutBackRemoved(s, l, r);
  }

  lemma PutBackRemoved(s: Text, l: nat, r: nat)
    requires l < r < |s| && s[l] == 40 && s[r] == 41
    ensures PutBack(Remove(s, l, r), l, r - 1) == s
  {
    var t := Remove(s, l, r);
    assert t[..l] == s[..l] && t[l..r - 1] == s[l + 1..r] && t[r - 1..] == s[r + 1..];
  }

  /** A pair of parentheses around the units from first up to last. */
  function PutBack(t: Text, first: nat, last: nat): Text
    requires first <= last <= |t|
  {
    t[..first] + [40] + t[first..last] + [41] + t[last..]
  }

  /** One text per left parenthesis, in order, without it and its match; nothing for unbalanced text. */
  method DeParenthesize(code: Text) returns (rs: seq<Text>)
    ensures !Balanced(code) ==> rs == []
    ensures Balanced(code) ==> |rs| == |Lefts(code)|
    ensures Balanced(code) ==> forall j | 0 <= j < |rs| :: IsRemoval(code, Lefts(code)[j], rs[j])
  {
    var pairs := FindPairs(code);
    rs := [];
    if pairs.None? {
      return;
    }
    ghost var lefts := Lefts(code);
    for i := 0 to |pairs.value|
      invariant |rs| == i && forall j | 0 <= j < i :: IsRemoval(code, lefts[j], rs[j])
    {
      var pair := pairs.value[i];
      assert Matched(code, pair);
      var left, right := pair.left, pair.right.value;
      var removed := code[..left] + code[left + 1..right] + code[right + 1..];
      assert IsMatch(code, left, right) && removed == Remove(code, left, right);
      rs := rs + [removed];
    }
  }
}
