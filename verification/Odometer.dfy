/**
 The iterator of untidy/untidy.py over all combinations of one entry per list: an odometer
 whose last position turns fastest and whose wheels count from one.
 */
module Odometer {
  import opened Wrappers

  type Lists = seq<seq<string>>

  ghost predicate NonEmpty(fi: Lists) {
    forall i | 0 <= i < |fi| :: |fi[i]| > 0
  }

  /** Number of combinations: the product of the list lengths. */
  function Product(fi: Lists): nat {
    if fi == [] then 1 else |fi[0]| * Product(fi[1..])
  }

  /** Mixed-radix value of zero-based wheel positions, position 0 the most significant. */
  function Value(fi: Lists, digits: seq<int>): int
    requires |fi| == |digits|
  {
    if fi == [] then 0 else digits[0] * Product(fi[1..]) + Value(fi[1..], digits[1..])
  }

  /** The mixed-radix digits of k. */
  function Digits(fi: Lists, k: nat): (r: seq<int>)
    requires NonEmpty(fi)
    ensures |r| == |fi|
  {
    if fi == [] then []
    else
      ProductIsPositive(fi[1..]);
      [k / Product(fi[1..])] + Digits(fi[1..], k % Product(fi[1..]))
  }

  ghost predicate InRange(fi: Lists, digits: seq<int>) {
    |fi| == |digits| && forall i | 0 <= i < |fi| :: 0 <= digits[i] < |fi[i]|
  }

  // ---------- numbers and digits ----------

  lemma {:induction false} ProductIsPositive(fi: Lists)
    requires NonEmpty(fi)
    ensures Product(fi) > 0
  {
    if fi != [] {
      ProductIsPositive(fi[1..]);
      MulPositive(|fi[0]|, Product(fi[1..]));
    }
  }

  lemma MulPositive(a: int, b: int)
    requires a > 0 && b > 0
    ensures a * b > 0
  {
  }

  lemma Distribute(a: int, b: int, w: int)
    ensures (a + b) * w == a * w + b * w
  {
  }

  /** low + d * w stays below n * w when the digit d is below n and low is below w. */
  lemma DigitBound(d: int, n: int, w: int, low: int)
    requires 0 <= d < n && 0 <= low < w
    ensures 0 <= d * w + low < n * w
    ensures d * w + low == n * w - 1 <==> d == n - 1 && low == w - 1
    ensures (d * w + low) / w == d && (d * w + low) % w == low
  {
    Distribute(n - 1, 1, w);
    Distribute(n - 2, 1, w);
    MulMonotone(0, d, w);
    MulMonotone(d, n - 1, w);
    MulMonotone(d, n - 2, w);
    DivModUnique(d * w + low, w, d, low);
  }

  lemma DivModUnique(x: int, w: int, q: int, r: int)
    requires w > 0 && 0 <= r < w && x == q * w + r
    ensures x / w == q && x % w == r
  {
    var e := x / w - q;
    Distribute(e, q, w);
    assert e * w == r - x % w;
    MulMonotone(1, e, w);
    MulMonotone(e, -1, w);
  }

  lemma MulMonotone(a: int, b: int, w: int)
    requires w > 0
    ensures a <= b ==> a * w <= b * w
  {
  }

  /** In-range digits count from 0 to Product - 1, and only the full wheels reach the last value. */
  lemma {:induction false} ValueBounds(fi: Lists, digits: seq<int>)
    requires InRange(fi, digits)
    ensures 0 <= Value(fi, digits) < Product(fi)
    ensures Value(fi, digits) == Product(fi) - 1 <==> forall i | 0 <= i < |fi| :: digits[i] == |fi[i]| - 1
  {
    if fi != [] {
      ValueBounds(fi[1..], digits[1..]);
      DigitBound(digits[0], |fi[0]|, Product(fi[1..]), Value(fi[1..], digits[1..]));
      assert forall i | 1 <= i < |fi| :: fi[i] == fi[1..][i - 1] && digits[i] == digits[1..][i - 1];
    }
  }

  /** Every combination has a number... */
  lemma {:induction false} DigitsOfValue(fi: Lists, digits: seq<int>)
    requires NonEmpty(fi) && InRange(fi, digits)
    ensures 0 <= Value(fi, digits) && Digits(fi, Value(fi, digits)) == digits
  {
    ValueBounds(fi, digits);
    if fi != [] {
      DigitsOfValue(fi[1..], digits[1..]);
      ValueBounds(fi[1..], digits[1..]);
      DigitBound(digits[0], |fi[0]|, Product(fi[1..]), Value(fi[1..], digits[1..]));
    }
  }

  /** ... and every number below the product is the number of one combination. */
  lemma {:induction false} ValueOfDigits(fi: Lists, k: nat)
    requires NonEmpty(fi) && k < Product(fi)
    ensures InRange(fi, Digits(fi, k)) && Value(fi, Digits(fi, k)) == k
  {
    if fi != [] {
      var w := Product(fi[1..]);
      ProductIsPositive(fi[1..]);
      QuotientBound(k, |fi[0]|, w);
      ValueOfDigits(fi[1..], k % w);
      assert Digits(fi, k)[1..] == Digits(fi[1..], k % w);
    }
  }

  lemma QuotientBound(k: nat, n: nat, w: nat)
    requires w > 0 && k < n * w
    ensures 0 <= k / w < n && k == k / w * w + k % w
  {
    MulMonotone(n, k / w, w);
  }

  /** Turning wheel p by delta moves the value by delta times the weight of the wheel. */
  lemma {:induction false} TurnWheel(fi: Lists, digits: seq<int>, p: nat, delta: int)
    requires |fi| == |digits| && p < |fi|
    ensures Value(fi, digits[p := digits[p] + delta]) == Value(fi, digits) + delta * Product(fi[p + 1..])
  {
    var turned := digits[p := digits[p] + delta];
    if p == 0 {
      assert turned[1..] == digits[1..];
    } else {
      TurnWheel(fi[1..], digits[1..], p - 1, delta);
      assert turned[1..] == digits[1..][p - 1 := digits[p] + delta];
      assert fi[1..][p..] == fi[p + 1..];
    }
  }

  /** Resetting a wheel that ran past its end and turning the next one keeps the value. */
  lemma CarryKeepsValue(fi: Lists, digits: seq<int>, p: nat)
    requires |fi| == |digits| && 0 < p < |fi| && digits[p] == |fi[p]|
    ensures Value(fi, digits[p := 0][p - 1 := digits[p - 1] + 1]) == Value(fi, digits)
  {
    var reset, n, w := digits[p := 0], |fi[p]|, Product(fi[p + 1..]);
    TurnWheel(fi, digits, p, -n);
    TurnWheel(fi, reset, p - 1, 1);
    assert fi[p..][1..] == fi[p + 1..];
    assert Product(fi[p..]) == n * w;
    Distribute(n, -n, w);
  }

  /** A first wheel past its end means a value past the last combination. */
  lemma FirstWheelCannotOverflow(fi: Lists, digits: seq<int>)
    requires fi != [] && |fi| == |digits| && digits[0] >= |fi[0]|
    requires forall i | 1 <= i < |fi| :: 0 <= digits[i] < |fi[i]|
    ensures Value(fi, digits) >= Product(fi)
  {
    ValueBounds(fi[1..], digits[1..]);
    MulMonotone(|fi[0]|, digits[0], Product(fi[1..]));
  }

  // ---------- combinations ----------

  function Pick(fi: Lists, digits: seq<int>): seq<string>
    requires InRange(fi, digits)
  {
    seq(|fi|, i requires 0 <= i < |fi| => fi[i][digits[i]])
  }

  /** ''.join */
  function Join(items: seq<string>): string {
    if items == [] then "" else items[0] + Join(items[1..])
  }

  /** The k-th string of the enumeration. */
  function Nth(fi: Lists, k: nat): string
    requires NonEmpty(fi) && k < Product(fi)
  {
    ValueOfDigits(fi, k);
    Join(Pick(fi, Digits(fi, k)))
  }

  lemma {:induction false} DigitsOfZero(fi: Lists)
    requires NonEmpty(fi)
    ensures forall i | 0 <= i < |fi| :: Digits(fi, 0)[i] == 0
  {
    if fi != [] {
      ProductIsPositive(fi[1..]);
      DigitsOfZero(fi[1..]);
    }
  }

  /** The first string joins the first entry of every list. */
  lemma FirstString(fi: Lists, heads: seq<string>)
    requires NonEmpty(fi) && |heads| == |fi|
    requires forall i | 0 <= i < |fi| :: fi[i][0] == heads[i]
    ensures Product(fi) > 0 && Nth(fi, 0) == Join(heads)
  {
    ProductIsPositive(fi);
    ValueOfDigits(fi, 0);
    DigitsOfZero(fi);
    assert Pick(fi, Digits(fi, 0)) == heads;
  }

  /** Any choice of one entry from every list is joined by the call with the number of the choice. */
  lemma ChoiceIsYielded(fi: Lists, digits: seq<int>, items: seq<string>)
    requires NonEmpty(fi) && |digits| == |fi| == |items|
    requires forall i | 0 <= i < |fi| :: 0 <= digits[i] < |fi[i]| && items[i] == fi[i][digits[i]]
    ensures 0 <= Value(fi, digits) < Product(fi) && Nth(fi, Value(fi, digits)) == Join(items)
  {
    ValueBounds(fi, digits);
    DigitsOfValue(fi, digits);
    ValueOfDigits(fi, Value(fi, digits));
    assert Pick(fi, digits) == items;
  }

  /** Distinct calls yield distinct combinations, and every combination is yielded. */
  lemma EachCombinationOnce(fi: Lists, digits: seq<int>)
    requires NonEmpty(fi) && InRange(fi, digits)
    ensures exists k :: 0 <= k < Product(fi) && Digits(fi, k) == digits
    ensures forall j, k :: 0 <= j < Product(fi) && 0 <= k < Product(fi) && Digits(fi, j) == Digits(fi, k) ==> j == k
  {
    DigitsOfValue(fi, digits);
    ValueBounds(fi, digits);
    forall j, k | 0 <= j < Product(fi) && 0 <= k < Product(fi) && Digits(fi, j) == Digits(fi, k) ensures j == k {
      ValueOfDigits(fi, j);
      ValueOfDigits(fi, k);
    }
  }

  /** The first position where two combinations differ decides which one is yielded first. */
  ghost predicate Precedes(a: seq<int>, b: seq<int>) {
    exists p :: 0 <= p < |a| && p < |b| && DiffersFirstAt(a, b, p)
  }

  ghost predicate DiffersFirstAt(a: seq<int>, b: seq<int>, p: nat)
    requires p < |a| && p < |b|
  {
    a[p] < b[p] && forall i | 0 <= i < p :: a[i] == b[i]
  }

  /** The combinations come in lexicographic order. */
  lemma {:induction false} CombinationsAreOrdered(fi: Lists, j: nat, k: nat)
    requires NonEmpty(fi) && j < k < Product(fi)
    ensures Precedes(Digits(fi, j), Digits(fi, k))
  {
    if fi != [] {
      var w := Product(fi[1..]);
      ProductIsPositive(fi[1..]);
      QuotientBound(j, |fi[0]|, w);
      QuotientBound(k, |fi[0]|, w);
      MulMonotone(k / w + 1, j / w, w);
      Distribute(k / w, 1, w);
      var a, b := Digits(fi, j), Digits(fi, k);
      if j / w < k / w {
        assert DiffersFirstAt(a, b, 0);
      } else {
        CombinationsAreOrdered(fi[1..], j % w, k % w);
        var p :| 0 <= p < |a[1..]| && p < |b[1..]| && DiffersFirstAt(a[1..], b[1..], p);
        assert DiffersFirstAt(a, b, p + 1);
      }
    }
  }

  /** Joining keeps the order of the items. */
  lemma {:induction false} JoinConcat(a: seq<string>, item: string, b: seq<string>)
    ensures Join(a + [item] + b) == Join(a) + item + Join(b)
  {
    var all := a + [item] + b;
    if a == [] {
      assert all[1..] == b;
    } else {
      JoinConcat(a[1..], item, b);
      assert all[1..] == a[1..] + [item] + b;
    }
  }

  // ---------- the iterator ----------

  function ZeroBased(counter: seq<int>): (r: seq<int>)
    ensures |r| == |counter|
  {
    seq(|counter|, i requires 0 <= i < |counter| => counter[i] - 1)
  }

  ghost predicate AtMostFull(fi: Lists, counter: seq<int>, overflowing: int) {
    && |counter| == |fi|
    && forall i | 0 <= i < |fi| :: 1 <= counter[i] <= |fi[i]| + (if i == overflowing then 1 else 0)
  }

  lemma TurnLastWheel(fi: Lists, counter: seq<int>)
    requires fi != [] && |counter| == |fi|
    ensures var turned := counter[|fi| - 1 := counter[|fi| - 1] + 1];
      Value(fi, ZeroBased(turned)) == Value(fi, ZeroBased(counter)) + 1
  {
    var last, digits := |fi| - 1, ZeroBased(counter);
    TurnWheel(fi, digits, last, 1);
    assert fi[last + 1..] == [];
    assert ZeroBased(counter[last := counter[last] + 1]) == digits[last := digits[last] + 1];
  }

  /** The carry of _incrementCounter: one wheel restarts, the wheel before it turns. */
  lemma CarryStep(fi: Lists, counter: seq<int>, p: nat)
    requires NonEmpty(fi) && p < |fi| && AtMostFull(fi, counter, p) && counter[p] == |fi[p]| + 1
    requires Value(fi, ZeroBased(counter)) < Product(fi)
    ensures p > 0
    ensures var carried := counter[p := 1][p - 1 := counter[p - 1] + 1];
      AtMostFull(fi, carried, p - 1) && Value(fi, ZeroBased(carried)) == Value(fi, ZeroBased(counter))
  {
    var digits := ZeroBased(counter);
    if p == 0 {
      FirstWheelCannotOverflow(fi, digits);
    } else {
      CarryKeepsValue(fi, digits, p);
      assert ZeroBased(counter[p := 1][p - 1 := counter[p - 1] + 1]) == digits[p := 0][p - 1 := digits[p - 1] + 1];
    }
  }

  class Iterator {
    const fi: Lists
    var counter: seq<int>
    var stopIteration: bool
    /** Strings handed out so far. */
    ghost var calls: nat

    ghost predicate Valid()
      reads this
    {
      && fi != [] && NonEmpty(fi) && |counter| == |fi|
      && calls <= Product(fi)
      && Value(fi, ZeroBased(counter)) == calls - 1
      && (stopIteration <==> calls == Product(fi))
      && (forall i | 0 <= i < |fi| - 1 :: 1 <= counter[i] <= |fi[i]|)
      && (if calls == 0 then 0 else 1) <= counter[|fi| - 1] <= |fi[|fi| - 1]|
    }

    constructor (fi: Lists)
      requires fi != [] && NonEmpty(fi)
      ensures Valid() && this.fi == fi && calls == 0
    {
      this.fi := fi;
      var ones := seq(|fi|, _ => 1);
      counter := ones[|fi| - 1 := 0];
      stopIteration := false;
      calls := 0;
      new;
      var zeros := ZeroBased(ones);
      ProductIsPositive(fi);
      DigitsOfZero(fi);
      ValueOfDigits(fi, 0);
      assert zeros == Digits(fi, 0);
      TurnWheel(fi, zeros, |fi| - 1, -1);
      assert ZeroBased(counter) == zeros[|fi| - 1 := -1];
      assert fi[|fi|..] == [];
    }

    /** The next string, or None for StopIteration. */
    method Next() returns (r: Option<string>)
      requires Valid()
      modifies this
      ensures Valid()
      ensures old(calls) == Product(fi) ==> r == None && calls == old(calls) && counter == old(counter)
      ensures old(calls) < Product(fi) ==> r == Some(Nth(fi, old(calls))) && calls == old(calls) + 1
    {
      if stopIteration {
        return None;
      }
      IncrementCounter();
      DigitsOfValue(fi, ZeroBased(counter));
      var itemList := FetchData();
      return Some(Join(itemList));
    }

    /** The entries the wheels point at; range(len) and the one-based index as in the original. */
    method FetchData() returns (itemList: seq<string>)
      requires InRange(fi, ZeroBased(counter))
      ensures itemList == Pick(fi, ZeroBased(counter))
    {
      ghost var digits := ZeroBased(counter);
      itemList := [];
      for pos := 0 to |counter|
        invariant itemList == Pick(fi, digits)[..pos]
      {
        itemList := itemList + [fi[pos][counter[pos] - 1]];
      }
    }

    method IncrementCounter()
      requires Valid() && !stopIteration
      modifies this
      ensures Valid() && calls == old(calls) + 1
    {
      var n := |counter|;
      TurnLastWheel(fi, counter);
      counter := counter[n - 1 := counter[n - 1] + 1];
      for position := n downto 0
        invariant AtMostFull(fi, counter, position - 1) && calls == old(calls) && !stopIteration
        invariant Value(fi, ZeroBased(counter)) == calls
      {
        if counter[position] > |fi[position]| {
          Carry(position);
        }
      }
      calls := calls + 1;
      var eq := AllFull();
      if eq {
        stopIteration := true;
      }
    }

    /** The body of the carry loop: index position - 1 would count from the end if it were negative. */
    method Carry(position: nat)
      requires fi != [] && NonEmpty(fi) && position < |fi|
      requires AtMostFull(fi, counter, position) && counter[position] > |fi[position]|
      requires Value(fi, ZeroBased(counter)) < Product(fi)
      modifies `counter
      ensures AtMostFull(fi, counter, position - 1)
      ensures Value(fi, ZeroBased(counter)) == old(Value(fi, ZeroBased(counter)))
    {
      CarryStep(fi, counter, position);
      var previous := if position == 0 then |counter| - 1 else position - 1;
      counter := counter[position := 1];
      counter := counter[previous := counter[previous] + 1];
    }

    /** Whether every wheel shows its last entry. */
    method AllFull() returns (eq: bool)
      requires InRange(fi, ZeroBased(counter))
      ensures eq <==> Value(fi, ZeroBased(counter)) == Product(fi) - 1
    {
      ValueBounds(fi, ZeroBased(counter));
      eq := true;
      for c := 0 to |counter|
        invariant eq <==> forall i | 0 <= i < c :: ZeroBased(counter)[i] == |fi[i]| - 1
      {
        if counter[c] != |fi[c]| {
          eq := false;
        }
      }
    }
  }

  /** Draining a new iterator, as a for loop over it does. */
  method Drain(it: Iterator) returns (all: seq<string>)
    requires it.Valid() && it.calls == 0
    modifies it
    ensures it.Valid() && |all| == Product(it.fi)
    ensures forall k | 0 <= k < |all| :: all[k] == Nth(it.fi, k)
  {
    all := [];
    while true
      invariant it.Valid() && |all| == it.calls
      invariant forall k | 0 <= k < |all| :: all[k] == Nth(it.fi, k)
      decreases Product(it.fi) - it.calls
    {
      var item := it.Next();
      if item.None? {
        return;
      }
      all := all + [item.value];
    }
  }
}
