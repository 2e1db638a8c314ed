/**
 The fresh-name search of fusil/fusil/directory.py.  Names are relative to the directory; the
 files on disk are a finite set that does not change during a call.
 */
module UniqueFilename {
  import opened Wrappers

  // ---------- decimal numbers ----------

  function Digit(value: nat): (c: char)
    requires value < 10
    ensures '0' <= c <= '9'
  {
    ('0' as int + value) as char
  }

  function Decimal(n: nat): (r: string)
    ensures r != "" && forall i | 0 <= i < |r| :: '0' <= r[i] <= '9'
  {
    if n < 10 then [Digit(n)] else Decimal(n / 10) + [Digit(n % 10)]
  }

  /** "%d" % n */
  function Format(n: int): string {
    if n < 0 then "-" + Decimal(-n) else Decimal(n)
  }

  lemma {:induction false} DecimalIsInjective(m: nat, n: nat)
    requires Decimal(m) == Decimal(n)
    ensures m == n
  {
    var d, e := Decimal(m), Decimal(n);
    assert (m >= 10 <==> |d| > 1) && (n >= 10 <==> |e| > 1);
    assert d[|d| - 1] == Digit(m % 10) && e[|e| - 1] == Digit(n % 10);
    if m >= 10 && n >= 10 {
      assert Decimal(m / 10) == d[..|d| - 1] && Decimal(n / 10) == e[..|e| - 1];
      DecimalIsInjective(m / 10, n / 10);
    }
  }

  /** The number a string of digits stands for. */
  function Reading(s: string): int {
    if s == "" then 0 else Reading(s[..|s| - 1]) * 10 + (s[|s| - 1] as int - '0' as int)
  }

  /** The digits read as the number again, and no zero leads a longer one. */
  lemma {:induction false} DecimalReadsBack(n: nat)
    ensures Reading(Decimal(n)) == n && (|Decimal(n)| > 1 ==> Decimal(n)[0] != '0')
  {
    if n >= 10 {
      DecimalReadsBack(n / 10);
      var d := Decimal(n);
      assert d[..|d| - 1] == Decimal(n / 10);
    } else {
      assert [Digit(n)][..0] == "";
    }
  }

  lemma FormatIsInjective(m: int, n: int)
    requires Format(m) == Format(n)
    ensures m == n
  {
    assert Decimal(if m < 0 then -m else m)[0] != '-' && Decimal(if n < 0 then -n else n)[0] != '-';
    if m < 0 && n < 0 {
      assert Format(m)[1..] == Decimal(-m) && Format(n)[1..] == Decimal(-n);
      DecimalIsInjective(-m, -n);
    } else if m >= 0 && n >= 0 {
      DecimalIsInjective(m, n);
    }
  }

  // ---------- names ----------

  /** What follows the last slash. */
  function Basename(path: string): (r: string)
    ensures '/' !in r && |r| <= |path| && path[|path| - |r|..] == r
  {
    if path == "" || path[|path| - 1] == '/' then ""
    else Basename(path[..|path| - 1]) + [path[|path| - 1]]
  }

  /** Position of the first dot, or the length. */
  function FirstDot(name: string): (i: nat)
    ensures i <= |name| && '.' !in name[..i] && (i < |name| ==> name[i] == '.')
  {
    if name == "" || name[0] == '.' then 0 else 1 + FirstDot(name[1..])
  }

  /** The name with a counter before its first dot. */
  function Candidate(name: string, count: int): string {
    name[..FirstDot(name)] + "-" + Format(count) + name[FirstDot(name)..]
  }

  lemma CandidateIsInjective(name: string, m: int, n: int)
    requires Candidate(name, m) == Candidate(name, n)
    ensures m == n
  {
    var k := FirstDot(name);
    var a, b := Candidate(name, m), Candidate(name, n);
    assert |a| == |name| + 1 + |Format(m)| && |b| == |name| + 1 + |Format(n)|;
    assert a[k + 1..k + 1 + |Format(m)|] == Format(m) && b[k + 1..k + 1 + |Format(n)|] == Format(n);
    FormatIsInjective(m, n);
  }

  /** The counter comes between the part before the first dot and the rest, and reads as the count. */
  lemma CandidateParts(base: string, rest: string, count: nat)
    requires '.' !in base && (rest == "" || rest[0] == '.')
    ensures exists digits ::
      Candidate(base + rest, count) == base + "-" + digits + rest && digits != "" && Reading(digits) == count
  {
    FirstDotAfter(base, rest);
    DecimalReadsBack(count);
    assert Candidate(base + rest, count) == base + "-" + Decimal(count) + rest;
  }

  lemma {:induction false} FirstDotAfter(base: string, rest: string)
    requires '.' !in base && (rest == "" || rest[0] == '.')
    ensures FirstDot(base + rest) == |base|
  {
    if base != "" {
      FirstDotAfter(base[1..], rest);
      assert (base + rest)[1..] == base[1..] + rest;
    } else {
      assert base + rest == rest;
    }
  }

  // ---------- the pigeonhole ----------

  /** The candidates for the counts from first up to, but not including, next. */
  ghost function Tried(name: string, first: int, next: int): (r: set<string>)
    requires first <= next
    decreases next - first
  {
    if first == next then {} else Tried(name, first, next - 1) + {Candidate(name, next - 1)}
  }

  lemma {:induction false} TriedMembers(name: string, first: int, next: int, s: string)
    requires first <= next && s in Tried(name, first, next)
    ensures exists k :: first <= k < next && s == Candidate(name, k)
    decreases next - first
  {
    if first < next && s != Candidate(name, next - 1) {
      TriedMembers(name, first, next - 1, s);
    }
  }

  lemma {:induction false} TriedAreDistinct(name: string, first: int, next: int)
    requires first <= next
    ensures |Tried(name, first, next)| == next - first
    decreases next - first
  {
    if first < next {
      TriedAreDistinct(name, first, next - 1);
      if Candidate(name, next - 1) in Tried(name, first, next - 1) {
        TriedMembers(name, first, next - 1, Candidate(name, next - 1));
        var k :| first <= k < next - 1 && Candidate(name, next - 1) == Candidate(name, k);
        CandidateIsInjective(name, next - 1, k);
      }
    }
  }

  lemma SubsetSize(a: set<string>, b: set<string>)
    requires a <= b
    ensures |a| <= |b|
  {
    assert b == a + (b - a);
  }

  /** There are no more tries than taken names. */
  lemma TriesAreBounded(name: string, first: int, next: int, taken: set<string>)
    requires first <= next && forall k | first <= k < next :: Candidate(name, k) in taken
    ensures next - first <= |taken|
  {
    TriedAreDistinct(name, first, next);
    forall s | s in Tried(name, first, next) ensures s in taken {
      TriedMembers(name, first, next, s);
    }
    SubsetSize(Tried(name, first, next), taken);
  }

  // ---------- the directory ----------

  class Directory {
    /** The names handed out by UniqueFilename. */
    var files: set<string>

    constructor ()
      ensures files == {}
    {
      files := {};
    }

    method Ignore(filename: string)
      modifies this
      ensures files == old(files) - {filename}
    {
      files := files - {filename};
    }

    predicate Exists(name: string, disk: set<string>)
      reads this
    {
      name in files || name in disk
    }

    /**
     A name that is neither recorded nor on disk, or None for the ValueError on an empty name.
     With no count the name itself is tried first, and counting starts at two.
     */
    method UniqueFilename(path: string, count: Option<int>, save: bool, disk: set<string>) returns (r: Option<string>)
      requires '%' in Basename(path) ==> count.None? && !Exists(Basename(path), disk)
      modifies this
      ensures r.None? <==> Basename(path) == ""
      ensures r.None? ==> files == old(files)
      ensures r.Some? ==> r.value !in old(files) && r.value !in disk
      ensures r.Some? ==> files == old(files) + if save then {r.value} else {}
      ensures r.Some? ==> IsFirstFree(Basename(path), count, r.value, old(files) + disk)
    {
      var name := Basename(path);
      if name == "" {
        return None;
      }
      if count.None? && !Exists(name, disk) {
        if save {
          files := files + {name};
        }
        return Some(name);
      }
      var first := if count.None? then 2 else count.value;
      var next := FirstFreeCount(name, first, disk);
      var candidate := Candidate(name, next);
      if save {
        files := files + {candidate};
      }
      return Some(candidate);
    }

    /** The counting loop. */
    method FirstFreeCount(name: string, first: int, disk: set<string>) returns (next: int)
      ensures IsFirstFreeCount(name, first, next, files + disk)
    {
      next := first;
      ghost var taken := files + disk;
      while Exists(Candidate(name, next), disk)
        invariant first <= next
        invariant forall k | first <= k < next :: Candidate(name, k) in taken
        decreases |taken| - (next - first)
      {
        next := next + 1;
        TriesAreBounded(name, first, next, taken);
      }
      TriesAreBounded(name, first, next, taken);
    }

    /** One call on the directory; None if it hands out no name. */
    method Perform(call: Call) returns (r: Option<string>)
      requires call.Formats()
      modifies this
      ensures call.Permits(old(files), r, files)
    {
      match call {
        case Ignoring(filename) =>
          Ignore(filename);
          r := None;
        case Unique(path, count, save, disk) =>
          r := UniqueFilename(path, count, save, disk);
      }
    }

    /** Any calls, saved or not, with or without a count, with any files on disk at each call. */
    method ManyNames(calls: seq<Call>) returns (names: seq<Option<string>>, ghost records: seq<set<string>>)
      requires forall i | 0 <= i < |calls| :: calls[i].Formats()
      modifies this
      ensures IsHistory(calls, names, records) && records[0] == old(files) && records[|calls|] == files
      ensures forall i, j | 0 <= i < j < |calls| && calls[i].Unique? && calls[i].save && names[i].Some? ::
        names[j] == names[i] ==> IgnoredBetween(calls, i + 1, j, names[i].value)
    {
      names := [];
      records := [files];
      for n := 0 to |calls|
        invariant |names| == n && |records| == n + 1 && records[0] == old(files) && records[n] == files
        invariant forall i | 0 <= i < n :: calls[i].Permits(records[i], names[i], records[i + 1])
      {
        var name := Perform(calls[n]);
        names := names + [name];
        records := records + [files];
      }
      forall i, j | 0 <= i < j < |calls| && calls[i].Unique? && calls[i].save && names[i].Some?
        ensures names[j] == names[i] ==> IgnoredBetween(calls, i + 1, j, names[i].value)
      {
        NoNameTwice(calls, names, records, i, j);
      }
    }
  }

  /** The first name in the order of trying that is not taken, found after at most one more try than names taken. */
  ghost predicate IsFirstFree(name: string, count: Option<int>, r: string, taken: set<string>) {
    || (count.None? && r == name && name !in taken)
    || ((count.None? ==> name in taken)
        && var first := if count.None? then 2 else count.value;
           exists k :: IsFirstFreeCount(name, first, k, taken) && r == Candidate(name, k))
  }

  ghost predicate IsFirstFreeCount(name: string, first: int, k: int, taken: set<string>) {
    && first <= k <= first + |taken|
    && Candidate(name, k) !in taken
    && forall j | first <= j < k :: Candidate(name, j) in taken
  }

  // ---------- histories ----------

  /** A call of uniqueFilename, with the files on disk at that time, or of ignore. */
  datatype Call =
    | Unique(path: string, count: Option<int>, save: bool, disk: set<string>)
    | Ignoring(filename: string)
  {
    /** The name is not taken for a format itself. */
    predicate Formats() {
      Unique? ==> '%' !in Basename(path)
    }

    /** What the call may hand out, and what is recorded after it. */
    ghost predicate Permits(before: set<string>, r: Option<string>, after: set<string>) {
      match this
      case Ignoring(filename) => r.None? && after == before - {filename}
      case Unique(path, count, save, disk) =>
        && (r.None? <==> Basename(path) == "")
        && (r.Some? ==> r.value !in before && r.value !in disk)
        && (r.Some? ==> IsFirstFree(Basename(path), count, r.value, before + disk))
        && after == before + if r.Some? && save then {r.value} else {}
    }
  }

  /** records[i] holds the names recorded before call i. */
  ghost predicate IsHistory(calls: seq<Call>, names: seq<Option<string>>, records: seq<set<string>>) {
    && |names| == |calls| && |records| == |calls| + 1
    && forall i | 0 <= i < |calls| :: calls[i].Permits(records[i], names[i], records[i + 1])
  }

  ghost predicate IgnoredBetween(calls: seq<Call>, first: nat, last: nat, name: string)
    requires last <= |calls|
  {
    exists k :: first <= k < last && calls[k] == Ignoring(name)
  }

  /** A recorded name is handed out by no call until it is ignored. */
  lemma {:induction false} RecordedUntilIgnored(
    calls: seq<Call>, names: seq<Option<string>>, records: seq<set<string>>, name: string, i: nat, j: nat)
    requires IsHistory(calls, names, records) && i <= j <= |calls| && name in records[i]
    ensures name in records[j] || IgnoredBetween(calls, i, j, name)
    ensures j < |calls| && names[j] == Some(name) ==> IgnoredBetween(calls, i, j, name)
  {
    if i < j {
      RecordedUntilIgnored(calls, names, records, name, i, j - 1);
      assert calls[j - 1].Permits(records[j - 1], names[j - 1], records[j]);
    }
    assert j < |calls| ==> calls[j].Permits(records[j], names[j], records[j + 1]);
  }

  /** A name that a saved call hands out is handed out again only after it was ignored. */
  lemma NoNameTwice(
    calls: seq<Call>, names: seq<Option<string>>, records: seq<set<string>>, i: nat, j: nat)
    requires IsHistory(calls, names, records) && i < j < |calls|
    requires calls[i].Unique? && calls[i].save && names[i].Some?
    ensures names[j] == names[i] ==> IgnoredBetween(calls, i + 1, j, names[i].value)
  {
    RecordedUntilIgnored(calls, names, records, names[i].value, i + 1, j);
  }
}
