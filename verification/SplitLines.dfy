/** The line splitter of fusil/fusil/file_watch.py, which is fed a file in chunks. */
module SplitLines {

  predicate EndsLine(c: char) { c == '\n' || c == '\r' }

  predicate IsSpace(c: char) { c == ' ' || '\t' <= c <= '\r' }

  function Rstrip(line: string): string {
    if line != "" && IsSpace(line[|line| - 1]) then Rstrip(line[..|line| - 1]) else line
  }

  function Stripped(lines: seq<string>): (r: seq<string>)
    ensures |r| == |lines|
  {
    seq(|lines|, i requires 0 <= i < |lines| => Rstrip(lines[i]))
  }

  function Join(parts: seq<string>): string {
    if parts == [] then "" else Join(parts[..|parts| - 1]) + parts[|parts| - 1]
  }

  /** Stripping removes white space, and all of it, from the end only. */
  lemma {:induction false} RstripRemovesSpaces(line: string)
    ensures Rstrip(line) <= line
    ensures forall i | |Rstrip(line)| <= i < |line| :: line[i] in {' ', '\t', '\n', 11 as char, 12 as char, '\r'}
    ensures Rstrip(line) != "" ==>
      Rstrip(line)[|Rstrip(line)| - 1] !in {' ', '\t', '\n', 11 as char, 12 as char, '\r'}
  {
    if line != "" && IsSpace(line[|line| - 1]) {
      RstripRemovesSpaces(line[..|line| - 1]);
    }
  }

  // ---------- data.splitlines(1) ----------

  /** Length of the first line with its end, which is a newline, a carriage return, or both in that order. */
  function LineLength(data: string): (n: nat)
    ensures n <= |data| && (data != "" ==> n > 0)
  {
    if data == "" then 0
    else if data[0] == '\n' then 1
    else if data[0] == '\r' then (if |data| > 1 && data[1] == '\n' then 2 else 1)
    else 1 + LineLength(data[1..])
  }

  /** A line is text without line ends, followed by just one: a newline, or a carriage return and its newline. */
  ghost predicate IsLine(line: string, rest: string) {
    exists text, end :: IsTextAndEnd(line, text, end, rest)
  }

  ghost predicate IsTextAndEnd(line: string, text: string, end: string, rest: string) {
    line == text + end && '\n' !in text && '\r' !in text && IsEnd(end, rest)
  }

  ghost predicate IsEnd(end: string, rest: string) {
    end == "\n" || end == "\r\n" || (end == "\r" && !("\n" <= rest))
  }

  lemma LineGrows(c: char, line: string, rest: string)
    requires !EndsLine(c) && IsLine(line, rest)
    ensures IsLine([c] + line, rest)
  {
    var text, end :| IsTextAndEnd(line, text, end, rest);
    assert [c] + (text + end) == ([c] + text) + end;
    assert IsTextAndEnd([c] + line, [c] + text, end, rest);
  }

  lemma EndIsLine(line: string, rest: string)
    requires IsEnd(line, rest)
    ensures IsLine(line, rest)
  {
    assert "" + line == line;
    assert IsTextAndEnd(line, "", line, rest);
  }

  lemma {:induction false} FirstLineIsLine(data: string)
    requires Terminated(data[..LineLength(data)])
    ensures IsLine(data[..LineLength(data)], data[LineLength(data)..])
  {
    var k := LineLength(data);
    if EndsLine(data[0]) {
      EndIsLine(data[..k], data[k..]);
    } else {
      var tail := data[1..];
      assert data[..k] == [data[0]] + tail[..k - 1] && data[k..] == tail[k - 1..];
      FirstLineIsLine(tail);
      LineGrows(data[0], tail[..k - 1], tail[k - 1..]);
    }
  }

  /** The lines of the data, ends kept. */
  function Lines(data: string): seq<string>
    decreases |data|
  {
    if data == "" then []
    else [data[..LineLength(data)]] + Lines(data[LineLength(data)..])
  }

  predicate Terminated(line: string) {
    line != "" && EndsLine(line[|line| - 1])
  }

  /** The terminated lines of the data. */
  function Complete(data: string): seq<string>
    decreases |data|
  {
    var n := LineLength(data);
    if Terminated(data[..n]) then [data[..n]] + Complete(data[n..]) else []
  }

  /** What follows the last terminated line. */
  function Tail(data: string): string
    decreases |data|
  {
    var n := LineLength(data);
    if Terminated(data[..n]) then Tail(data[n..]) else data
  }

  ghost predicate NoLineEnd(data: string) {
    forall i | 0 <= i < |data| :: !EndsLine(data[i])
  }

  lemma {:induction false} FirstLine(data: string)
    ensures Terminated(data[..LineLength(data)]) ==> !NoLineEnd(data)
    ensures !Terminated(data[..LineLength(data)]) ==> LineLength(data) == |data| && NoLineEnd(data)
  {
    if data != "" && !EndsLine(data[0]) {
      FirstLine(data[1..]);
      var n := LineLength(data[1..]);
      assert data[..n + 1] == [data[0]] + data[1..][..n];
      assert forall i | 1 <= i < |data| :: data[i] == data[1..][i - 1];
    }
  }

  lemma {:induction false} TailHasNoLineEnd(data: string)
    ensures NoLineEnd(Tail(data)) && |Tail(data)| <= |data|
    decreases |data|
  {
    FirstLine(data);
    var n := LineLength(data);
    if Terminated(data[..n]) {
      TailHasNoLineEnd(data[n..]);
    }
  }

  lemma {:induction false} CompleteAreTerminated(data: string)
    ensures forall i | 0 <= i < |Complete(data)| :: Terminated(Complete(data)[i])
    decreases |data|
  {
    var n := LineLength(data);
    if Terminated(data[..n]) {
      CompleteAreTerminated(data[n..]);
    }
  }

  /** All lines but the unterminated one are complete. */
  lemma {:induction false} LinesAreCompleteAndTail(data: string)
    ensures Lines(data) == Complete(data) + (if Tail(data) == "" then [] else [Tail(data)])
    decreases |data|
  {
    if data != "" {
      var n := LineLength(data);
      FirstLine(data);
      if Terminated(data[..n]) {
        var first, rest := data[..n], data[n..];
        var tail := if Tail(rest) == "" then [] else [Tail(rest)];
        LinesAreCompleteAndTail(rest);
        AssociateLines([first], Complete(rest), tail);
      } else {
        assert data[..n] == data && data[n..] == "";
      }
    }
  }

  lemma AssociateLines(a: seq<string>, b: seq<string>, c: seq<string>)
    ensures (a + b) + c == a + (b + c)
  {
  }

  lemma {:induction false} JoinFront(first: string, parts: seq<string>)
    ensures Join([first] + parts) == first + Join(parts)
  {
    var all := [first] + parts;
    if parts == [] {
      assert all[..0] == [];
    } else {
      JoinFront(first, parts[..|parts| - 1]);
      assert all[..|all| - 1] == [first] + parts[..|parts| - 1];
    }
  }

  lemma CompleteStep(data: string) returns (first: string, rest: string)
    requires Terminated(data[..LineLength(data)])
    ensures data == first + rest && first != "" && IsLine(first, rest)
    ensures Complete(data) == [first] + Complete(rest) && Tail(data) == Tail(rest)
  {
    FirstLineIsLine(data);
    var n := LineLength(data);
    first, rest := data[..n], data[n..];
  }

  lemma {:induction false} CompleteJoin(data: string)
    ensures Join(Complete(data)) + Tail(data) == data
    decreases |data|
  {
    if Terminated(data[..LineLength(data)]) {
      var first, rest := CompleteStep(data);
      CompleteJoin(rest);
      JoinFront(first, Complete(rest));
      Associate(first, Join(Complete(rest)), Tail(rest));
    }
  }

  lemma Associate(a: string, b: string, c: string)
    ensures (a + b) + c == a + (b + c)
  {
  }

  /** Line k of the data, between the lines before it and what follows. */
  ghost predicate LineAt(data: string, lines: seq<string>, k: nat, rest: string)
    requires k < |lines|
  {
    data == Join(lines[..k]) + lines[k] + rest && IsLine(lines[k], rest)
  }

  lemma LineAtLater(first: string, data: string, lines: seq<string>, k: nat, rest: string)
    requires k < |lines| && LineAt(data, lines, k, rest)
    ensures LineAt(first + data, [first] + lines, k + 1, rest)
  {
    JoinFront(first, lines[..k]);
    assert ([first] + lines)[..k + 1] == [first] + lines[..k];
    assert first + (Join(lines[..k]) + lines[k] + rest) == (first + Join(lines[..k])) + lines[k] + rest;
  }

  /**
   The complete lines follow each other from the start of the data, and each is text without line
   ends before just one line end.
   */
  lemma {:induction false} CompleteLinesAreLines(data: string, k: nat)
    requires k < |Complete(data)|
    ensures exists rest :: LineAt(data, Complete(data), k, rest)
    decreases |data|
  {
    var first, rest := CompleteStep(data);
    if k == 0 {
      assert Complete(data)[..0] == [] && "" + first == first;
      assert LineAt(data, Complete(data), 0, rest);
    } else {
      CompleteLinesAreLines(rest, k - 1);
      var after :| LineAt(rest, Complete(rest), k - 1, after);
      LineAtLater(first, rest, Complete(rest), k - 1, after);
    }
  }

  // ---------- cutting the data ----------

  /** A carriage return and its newline fall on both sides of the cut. */
  predicate CutsLineEnd(before: string, after: string) {
    before != "" && before[|before| - 1] == '\r' && after != "" && after[0] == '\n'
  }

  /** Appending data keeps the length of a terminated first line. */
  lemma {:induction false} FirstLineStays(a: string, b: string)
    requires a != "" && !CutsLineEnd(a, b) && Terminated(a[..LineLength(a)])
    ensures LineLength(a + b) == LineLength(a)
  {
    if !EndsLine(a[0]) {
      var n := LineLength(a[1..]);
      assert a[..n + 1] == [a[0]] + a[1..][..n];
      assert (a + b)[1..] == a[1..] + b;
      FirstLineStays(a[1..], b);
    }
  }

  /** Unless a line end is cut, the lines before the cut stay and the rest starts from the tail. */
  lemma {:induction false} SplitAtCut(a: string, b: string)
    requires !CutsLineEnd(a, b)
    ensures Complete(a + b) == Complete(a) + Complete(Tail(a) + b)
    ensures Tail(a + b) == Tail(Tail(a) + b)
    decreases |a|
  {
    if a != "" {
      var n := LineLength(a);
      if Terminated(a[..n]) {
        FirstLineStays(a, b);
        var ab, first, rest := a + b, a[..n], a[n..];
        assert ab[..n] == first && ab[n..] == rest + b;
        SplitAtCut(rest, b);
        assert Complete(ab) == [first] + Complete(rest + b);
        assert Complete(a) == [first] + Complete(rest);
      }
    } else {
      assert a + b == b;
    }
  }

  /** A line end that was cut is counted twice: once before the cut and once after. */
  lemma {:induction false} NewlineAfterReturn(a: string)
    requires a != "" && a[|a| - 1] == '\r'
    ensures |Complete(a + "\n")| == |Complete(a)| && Tail(a + "\n") == "" && Tail(a) == ""
    decreases |a|
  {
    var n := LineLength(a);
    FirstLine(a);
    if n == |a| {
      LastLine(a);
    } else {
      FirstLineStaysLong(a);
      assert (a + "\n")[..n] == a[..n] && (a + "\n")[n..] == a[n..] + "\n";
      NewlineAfterReturn(a[n..]);
    }
  }

  lemma {:induction false} FirstLineStaysLong(a: string)
    requires LineLength(a) < |a|
    ensures LineLength(a + "\n") == LineLength(a)
  {
    if !EndsLine(a[0]) {
      assert (a + "\n")[1..] == a[1..] + "\n";
      FirstLineStaysLong(a[1..]);
    }
  }

  lemma {:induction false} LastLineLength(a: string)
    requires a != "" && a[|a| - 1] == '\r' && LineLength(a) == |a|
    ensures LineLength(a + "\n") == |a| + 1
  {
    if !EndsLine(a[0]) {
      assert (a + "\n")[1..] == a[1..] + "\n";
      LastLineLength(a[1..]);
    }
  }

  lemma LastLine(a: string)
    requires a != "" && a[|a| - 1] == '\r' && LineLength(a) == |a|
    ensures Complete(a) == [a] && Complete(a + "\n") == [a + "\n"] && Tail(a) == "" && Tail(a + "\n") == ""
  {
    LastLineLength(a);
    assert a[..|a|] == a && a[|a|..] == "";
    var b := a + "\n";
    assert b[..|b|] == b && b[|b|..] == "";
  }

  lemma SplitAtCutLineEnd(a: string, b: string)
    requires CutsLineEnd(a, b)
    ensures |Complete(a + b)| == |Complete(a)| + |Complete(Tail(a) + b)| - 1
    ensures Tail(a + b) == Tail(Tail(a) + b)
  {
    NewlineAfterReturn(a);
    var rest := b[1..];
    assert a + b == (a + "\n") + rest;
    SplitAtCut(a + "\n", rest);
    assert Tail(a + "\n") + rest == rest;
    assert Tail(a) + b == b && b[..1] == "\n";
  }

  // ---------- the stream ----------

  /** The lines that feeding the chunks one by one yields. */
  function StreamLines(chunks: seq<string>): seq<string> {
    if chunks == [] then []
    else
      var front := chunks[..|chunks| - 1];
      StreamLines(front) + Stripped(Complete(Pending(front) + chunks[|chunks| - 1]))
  }

  /** What the buffer holds after the chunks. */
  function Pending(chunks: seq<string>): string {
    if chunks == [] then "" else Tail(Pending(chunks[..|chunks| - 1]) + chunks[|chunks| - 1])
  }

  /** Number of chunks that start with the newline of a line end whose carriage return was fed before. */
  function CutLineEnds(chunks: seq<string>): nat {
    if chunks == [] then 0
    else
      var front, last := chunks[..|chunks| - 1], chunks[|chunks| - 1];
      CutLineEnds(front) + (if CutsLineEnd(Join(front), last) then 1 else 0)
  }

  lemma FeedOne(fed: seq<string>, data: string)
    ensures Pending(fed + [data]) == Tail(Pending(fed) + data)
    ensures StreamLines(fed + [data]) == StreamLines(fed) + Stripped(Complete(Pending(fed) + data))
  {
    assert (fed + [data])[..|fed|] == fed;
  }

  lemma PendingHasNoLineEnd(chunks: seq<string>)
    ensures NoLineEnd(Pending(chunks))
  {
    if chunks != [] {
      TailHasNoLineEnd(Pending(chunks[..|chunks| - 1]) + chunks[|chunks| - 1]);
    }
  }

  lemma StrippedConcat(a: seq<string>, b: seq<string>)
    ensures Stripped(a + b) == Stripped(a) + Stripped(b)
  {
  }

  lemma StrippedStep(lines: seq<string>, i: nat)
    requires i < |lines|
    ensures Stripped(lines[..i + 1]) == Stripped(lines[..i]) + [Rstrip(lines[i])]
  {
  }

  /**
   For every cutting of the data the buffer ends up with the unterminated tail, and the yielded
   lines are those of the whole data exactly when no cut falls inside a line end; each such cut
   yields one line too many.
   */
  lemma {:induction false} StreamIsWholeIffNoLineEndCut(chunks: seq<string>)
    ensures Pending(chunks) == Tail(Join(chunks))
    ensures |StreamLines(chunks)| == |Complete(Join(chunks))| + CutLineEnds(chunks)
    ensures StreamLines(chunks) == Stripped(Complete(Join(chunks))) <==> CutLineEnds(chunks) == 0
  {
    if chunks == [] {
      assert Complete("") == [];
    } else {
      var front, last := chunks[..|chunks| - 1], chunks[|chunks| - 1];
      StreamIsWholeIffNoLineEndCut(front);
      if CutsLineEnd(Join(front), last) {
        SplitAtCutLineEnd(Join(front), last);
      } else {
        SplitAtCut(Join(front), last);
        StrippedConcat(Complete(Join(front)), Complete(Pending(front) + last));
      }
    }
  }

  /** Data without carriage returns may be cut anywhere. */
  lemma {:induction false} NoReturnsNoCutLineEnds(chunks: seq<string>)
    requires '\r' !in Join(chunks)
    ensures CutLineEnds(chunks) == 0
  {
    if chunks != [] {
      NoReturnsNoCutLineEnds(chunks[..|chunks| - 1]);
    }
  }

  /** How the raw lines of a chunk relate to the lines that a call of splitlines must yield. */
  lemma RawLines(pending: string, data: string)
    requires NoLineEnd(pending)
    ensures var lines, n := Lines(data), |Complete(data)|;
      && (|lines| == n || |lines| == n + 1) && |Complete(pending + data)| == n
      && (forall i | 0 <= i < |lines| :: lines[i] != "" && (EndsLine(lines[i][|lines[i]| - 1]) <==> i < n))
      && (forall i | 0 <= i < n :: Complete(pending + data)[i] == if i == 0 then pending + lines[i] else lines[i])
      && Tail(pending + data) ==
        if n > 0 then (if |lines| > n then lines[n] else "") else pending + (if |lines| > n then lines[n] else "")
    ensures NoLineEnd(Tail(pending + data))
  {
    LinesAreCompleteAndTail(data);
    CompleteAreTerminated(data);
    TailHasNoLineEnd(data);
    TailHasNoLineEnd(pending + data);
    JoinedFirstLine(pending, data);
    if Complete(data) == [] {
      assert Tail(data) == data by { assert data != "" ==> Lines(data)[0] == Tail(data); }
    }
  }

  class FileWatch {
    var buffer: seq<string>
    /** The position in the file where the next read starts, and where the first one did. */
    var fileSeed: nat
    ghost const firstSeed: nat
    /** The chunks of data so far. */
    ghost var fed: seq<string>

    ghost predicate Valid()
      reads this
    {
      Join(buffer) == Pending(fed)
    }

    constructor (fileSeed: nat)
      ensures Valid() && fed == [] && this.fileSeed == firstSeed == fileSeed
    {
      buffer, this.fileSeed, firstSeed, fed := [], fileSeed, fileSeed, [];
    }

    /** What was read so far is what the file holds there. */
    ghost predicate HasRead(content: string)
      reads this
    {
      firstSeed <= fileSeed <= |content| && content[firstSeed..fileSeed] == Join(fed)
    }

    /** One call of splitlines, consumed to its end. */
    method Split(data: string) returns (yielded: seq<string>)
      requires NoLineEnd(Join(buffer))
      modifies `buffer
      ensures yielded == Stripped(Complete(old(Join(buffer)) + data))
      ensures Join(buffer) == Tail(old(Join(buffer)) + data)
    {
      ghost var pending := Join(buffer);
      ghost var wanted := Complete(pending + data);
      var lines := Lines(data);
      RawLines(pending, data);
      yielded := [];
      for index := 0 to |lines|
        invariant index <= |wanted| && yielded == Stripped(wanted[..index])
        invariant if index == 0 then buffer == old(buffer) else buffer == []
      {
        var line := lines[index];
        if index == |lines| - 1 && !EndsLine(line[|line| - 1]) {
          assert index == |wanted| && wanted[..index] == wanted;
          buffer := buffer + [line];
          return;
        }
        line := TakeBuffer(line, index == 0);
        assert line == wanted[index];
        StrippedStep(wanted, index);
        yielded := yielded + [Rstrip(line)];
      }
      assert wanted[..|lines|] == wanted;
    }

    /** The first line of a chunk completes what the buffer holds. */
    method TakeBuffer(line: string, isFirst: bool) returns (whole: string)
      modifies `buffer
      ensures whole == if isFirst then old(Join(buffer)) + line else line
      ensures buffer == if isFirst then [] else old(buffer)
    {
      whole := line;
      if isFirst && buffer != [] {
        buffer := buffer + [line];
        whole := Join(buffer);
        buffer := [];
      }
    }

    /** splitlines, and the chunk becomes part of what was fed. */
    method Feed(data: string) returns (yielded: seq<string>)
      requires Valid()
      modifies `buffer, `fed
      ensures Valid() && fed == old(fed) + [data]
      ensures StreamLines(fed) == StreamLines(old(fed)) + yielded
    {
      PendingHasNoLineEnd(fed);
      FeedOne(fed, data);
      yielded := Split(data);
      fed := fed + [data];
    }

    /** file_obj.read, and the new position. */
    method Read(content: string, readSize: nat) returns (data: string)
      modifies `fileSeed
      ensures data == Chunk(content, old(fileSeed), readSize) && fileSeed == old(fileSeed) + |data|
    {
      data := Chunk(content, fileSeed, readSize);
      fileSeed := fileSeed + |data|;
    }

    /** One turn of the reading loop; done when nothing is left to read. */
    method ReadChunk(content: string, readSize: nat) returns (yielded: seq<string>, done: bool)
      requires Valid()
      modifies this
      ensures Valid() && old(fed) <= fed
      ensures StreamLines(fed) == StreamLines(old(fed)) + yielded
      ensures old(HasRead(content)) ==> HasRead(content)
      ensures done <==> readSize == 0 || |content| <= old(fileSeed)
      ensures done ==> fileSeed == old(fileSeed)
      ensures !done ==> old(fileSeed) < fileSeed <= |content|
    {
      ReadingOn(content, firstSeed, fileSeed, readSize, fed);
      var data := Read(content, readSize);
      if data == "" {
        return [], true;
      }
      yielded := Feed(data);
      done := false;
    }

    /**
     One call of readlines, consumed to its end, on a file with this content: it stops when nothing
     is left to read, or at any time because it is too slow.
     */
    method ReadLines(content: string, readSize: nat) returns (yielded: seq<string>, tooSlow: bool)
      requires Valid()
      modifies this
      ensures Valid() && old(fed) <= fed
      ensures StreamLines(fed) == StreamLines(old(fed)) + yielded
      ensures old(HasRead(content)) ==> HasRead(content)
      ensures !tooSlow && readSize > 0 ==> |content| <= fileSeed
    {
      yielded := [];
      while true
        invariant Valid() && old(fed) <= fed
        invariant StreamLines(fed) == StreamLines(old(fed)) + yielded
        invariant old(HasRead(content)) ==> HasRead(content)
        decreases |content| - fileSeed
      {
        tooSlow := *;
        if tooSlow {
          return;
        }
        var lines, done := ReadChunk(content, readSize);
        yielded := yielded + lines;
        if done {
          return;
        }
      }
    }
  }

  /** What a read of some size from a position yields. */
  function Chunk(content: string, seed: nat, size: nat): (data: string)
    ensures data == "" <==> size == 0 || |content| <= seed
    ensures |data| <= size && (data != "" ==> seed + |data| <= |content|)
  {
    if |content| <= seed then ""
    else if |content| <= seed + size then content[seed..]
    else content[seed..seed + size]
  }

  /** Reading a chunk goes on with the part of the file that was read. */
  lemma ReadingOn(content: string, first: nat, seed: nat, size: nat, fed: seq<string>)
    ensures first <= seed <= |content| && content[first..seed] == Join(fed) ==>
      var data := Chunk(content, seed, size);
      seed + |data| <= |content| && content[first..seed + |data|] == Join(fed + [data])
  {
    var data := Chunk(content, seed, size);
    assert (fed + [data])[..|fed|] == fed;
    if first <= seed <= |content| {
      assert content[first..seed + |data|] == content[first..seed] + data;
    }
  }

  lemma {:induction false} PrefixLengthens(pending: string, data: string)
    requires NoLineEnd(pending)
    ensures LineLength(pending + data) == |pending| + LineLength(data)
  {
    if pending == "" {
      assert pending + data == data;
    } else {
      assert (pending + data)[1..] == pending[1..] + data;
      PrefixLengthens(pending[1..], data);
    }
  }

  /** Text without line ends before the data lengthens its first line only. */
  lemma JoinedFirstLine(pending: string, data: string)
    requires NoLineEnd(pending)
    ensures Complete(data) == [] ==> Complete(pending + data) == [] && Tail(pending + data) == pending + data
    ensures Complete(data) != [] ==> Tail(pending + data) == Tail(data)
    ensures Complete(data) != [] ==> Complete(pending + data) == [pending + Complete(data)[0]] + Complete(data)[1..]
  {
    var n := LineLength(data);
    PrefixLengthens(pending, data);
    FirstLine(data);
    FirstLine(pending + data);
    assert (pending + data)[..|pending| + n] == pending + data[..n];
    assert (pending + data)[|pending| + n..] == data[n..];
  }
}
