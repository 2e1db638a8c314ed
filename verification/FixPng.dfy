/**
 fusil/fusil/fixpng.py: rewrite the signature of a PNG file and the checksum of every chunk.
 The layout is that of sections 3.1, 3.2 and 3.4 of RFC 2083; zlib's crc32 is a parameter.
 */
module FixPng {
  import opened Wrappers
  import opened Units
  import opened Bits

  type Crc = seq<Byte> -> int

  const SIGNATURE: seq<Byte> := [0x89, 0x50, 0x4e, 0x47, 0x0d, 0x0a, 0x1a, 0x0a]

  /** crc32(data) & 0xFFFFFFFF */
  function PngCrc32(crc32: Crc, data: seq<Byte>): (r: nat)
    ensures r < 0x1_0000_0000
  {
    crc32(data) % 0x1_0000_0000
  }

  // ---------- chunks ----------

  /** Length, type and checksum fields included. */
  function ChunkSize(d: seq<Byte>, i: nat): nat
    requires i + 4 <= |d|
  {
    Value(d[i..i + 4], BigEndian) + 12
  }

  /** A whole chunk starts at i. */
  predicate HasChunk(d: seq<Byte>, i: nat) {
    i + 4 < |d| && i + ChunkSize(d, i) <= |d|
  }

  function ChunkEnd(d: seq<Byte>, i: nat): (r: nat)
    requires HasChunk(d, i)
    ensures i + 12 <= r <= |d|
  {
    i + ChunkSize(d, i)
  }

  /** The starts of the chunks the walk from i reaches. */
  function Chunks(d: seq<Byte>, i: nat): seq<nat>
    decreases |d| - i
  {
    if HasChunk(d, i) then [i] + Chunks(d, ChunkEnd(d, i)) else []
  }

  /** The four checksum bytes the chunk at i should have: big-endian, over its type and data. */
  function Checksum(crc32: Crc, d: seq<Byte>, i: nat): (r: seq<Byte>)
    requires HasChunk(d, i)
    ensures |r| == 4
  {
    var crc := PngCrc32(crc32, d[i + 4..ChunkEnd(d, i) - 4]);
    FourBytes(crc);
    Encode(crc, BigEndian, Some(4))
  }

  lemma FourBytes(value: nat)
    requires value < 0x1_0000_0000
    ensures |Encode(value, BigEndian, Some(4))| == 4
  {
    ByteShift(24);
    ByteShift(16);
    ByteShift(8);
    ByteShift(0);
    assert Pow2(0) == 1;
    WidthIsMinimal(value, 4);
  }

  predicate ChecksumOk(crc32: Crc, d: seq<Byte>, i: nat)
    requires HasChunk(d, i)
  {
    d[ChunkEnd(d, i) - 4..ChunkEnd(d, i)] == Checksum(crc32, d, i)
  }

  /** Every chunk the walk from i reaches has the right checksum. */
  predicate AllOk(crc32: Crc, d: seq<Byte>, i: nat)
    decreases |d| - i
  {
    HasChunk(d, i) ==> ChecksumOk(crc32, d, i) && AllOk(crc32, d, ChunkEnd(d, i))
  }

  function Overwrite(d: seq<Byte>, at: nat, s: seq<Byte>): (r: seq<Byte>)
    requires at + |s| <= |d|
    ensures |r| == |d|
  {
    d[..at] + s + d[at + |s|..]
  }

  /** The chunk at i with its checksum rewritten. */
  function FixChunk(crc32: Crc, d: seq<Byte>, i: nat): (r: seq<Byte>)
    requires HasChunk(d, i)
    ensures |r| == |d|
  {
    Overwrite(d, ChunkEnd(d, i) - 4, Checksum(crc32, d, i))
  }

  /** All chunks from i on with their checksums rewritten. */
  function FixChunks(crc32: Crc, d: seq<Byte>, i: nat): (r: seq<Byte>)
    ensures |r| == |d|
    decreases |d| - i
  {
    if HasChunk(d, i) then FixChunks(crc32, FixChunk(crc32, d, i), ChunkEnd(d, i)) else d
  }

  function Fixed(crc32: Crc, d: seq<Byte>): (r: seq<Byte>)
    requires |d| >= 8
    ensures |r| == |d|
  {
    FixChunks(crc32, Overwrite(d, 0, SIGNATURE), 8)
  }

  // ---------- what fixing does ----------

  /** Bytes up to the checksum of a chunk fix its extent and its checksum value. */
  lemma SameChunk(crc32: Crc, d: seq<Byte>, e: seq<Byte>, i: nat)
    requires HasChunk(d, i) && |e| == |d| && e[..ChunkEnd(d, i) - 4] == d[..ChunkEnd(d, i) - 4]
    ensures HasChunk(e, i) && ChunkEnd(e, i) == ChunkEnd(d, i)
    ensures Checksum(crc32, e, i) == Checksum(crc32, d, i)
  {
    var c := ChunkEnd(d, i) - 4;
    assert e[i..i + 4] == e[..c][i..i + 4] == d[..c][i..i + 4] == d[i..i + 4];
    assert e[i + 4..c] == e[..c][i + 4..] == d[..c][i + 4..] == d[i + 4..c];
  }

  lemma FixChunkFacts(crc32: Crc, d: seq<Byte>, i: nat)
    requires HasChunk(d, i)
    ensures var f, end := FixChunk(crc32, d, i), ChunkEnd(d, i);
      && f[..end - 4] == d[..end - 4] && f[end - 4..end] == Checksum(crc32, d, i) && f[end..] == d[end..]
      && HasChunk(f, i) && ChunkEnd(f, i) == end && ChecksumOk(crc32, f, i)
  {
    var f := FixChunk(crc32, d, i);
    SameChunk(crc32, d, f, i);
  }

  lemma SlicesOfTail(d: seq<Byte>, e: seq<Byte>, i: nat, a: nat, b: nat)
    requires |e| == |d| && i <= a <= b <= |d| && e[i..] == d[i..]
    ensures e[a..b] == d[a..b] && e[a..] == d[a..]
  {
    forall k | i <= k < |d| ensures e[k] == d[k] {
      assert e[i..][k - i] == d[i..][k - i];
    }
  }

  lemma ExtentIsLocal(d: seq<Byte>, e: seq<Byte>, i: nat)
    requires |e| == |d| && i <= |d| && e[i..] == d[i..]
    ensures HasChunk(e, i) <==> HasChunk(d, i)
    ensures HasChunk(d, i) ==> ChunkEnd(e, i) == ChunkEnd(d, i) && e[ChunkEnd(d, i)..] == d[ChunkEnd(d, i)..]
  {
    if i + 4 < |d| {
      SlicesOfTail(d, e, i, i, i + 4);
      if HasChunk(d, i) {
        SlicesOfTail(d, e, i, ChunkEnd(d, i), |d|);
      }
    }
  }

  lemma ChecksumIsLocal(crc32: Crc, d: seq<Byte>, e: seq<Byte>, i: nat)
    requires |e| == |d| && HasChunk(d, i) && HasChunk(e, i) && ChunkEnd(e, i) == ChunkEnd(d, i) && e[i..] == d[i..]
    ensures ChecksumOk(crc32, e, i) <==> ChecksumOk(crc32, d, i)
  {
    var end := ChunkEnd(d, i);
    SlicesOfTail(d, e, i, i + 4, end - 4);
    SlicesOfTail(d, e, i, end - 4, end);
  }

  /** The walk from i on sees only the bytes from i on. */
  lemma {:induction false} WalkIsLocal(crc32: Crc, d: seq<Byte>, e: seq<Byte>, i: nat)
    requires |e| == |d| && i <= |d| && e[i..] == d[i..]
    ensures Chunks(e, i) == Chunks(d, i)
    ensures AllOk(crc32, e, i) <==> AllOk(crc32, d, i)
    decreases |d| - i
  {
    ExtentIsLocal(d, e, i);
    if HasChunk(d, i) {
      ChecksumIsLocal(crc32, d, e, i);
      WalkIsLocal(crc32, d, e, ChunkEnd(d, i));
    }
  }

  lemma {:induction false} FixChunksKeepsPrefix(crc32: Crc, d: seq<Byte>, i: nat)
    requires i <= |d|
    ensures FixChunks(crc32, d, i)[..i] == d[..i]
    decreases |d| - i
  {
    if HasChunk(d, i) {
      var f, end := FixChunk(crc32, d, i), ChunkEnd(d, i);
      FixChunksKeepsPrefix(crc32, f, end);
      var r := FixChunks(crc32, f, end);
      assert r[..i] == r[..end][..i] == f[..end][..i] == f[..i];
    }
  }

  /** Later fixes leave a fixed chunk as it is. */
  lemma FixedChunkStays(crc32: Crc, d: seq<Byte>, r: seq<Byte>, i: nat)
    requires HasChunk(d, i) && |r| == |d| && r[..ChunkEnd(d, i)] == FixChunk(crc32, d, i)[..ChunkEnd(d, i)]
    ensures HasChunk(r, i) && ChunkEnd(r, i) == ChunkEnd(d, i) && ChecksumOk(crc32, r, i)
  {
    var f, end := FixChunk(crc32, d, i), ChunkEnd(d, i);
    FixChunkFacts(crc32, d, i);
    assert r[..end - 4] == r[..end][..end - 4] == f[..end][..end - 4] == f[..end - 4];
    assert r[end - 4..end] == r[..end][end - 4..] == f[..end][end - 4..] == f[end - 4..end];
    SameChunk(crc32, f, r, i);
  }

  /** Fixing from i on keeps the chunks and makes every checksum right. */
  lemma {:induction false} FixChunksFacts(crc32: Crc, d: seq<Byte>, i: nat)
    requires i <= |d|
    ensures Chunks(FixChunks(crc32, d, i), i) == Chunks(d, i)
    ensures AllOk(crc32, FixChunks(crc32, d, i), i)
    decreases |d| - i
  {
    if HasChunk(d, i) {
      var f, end := FixChunk(crc32, d, i), ChunkEnd(d, i);
      FixChunkFacts(crc32, d, i);
      WalkIsLocal(crc32, d, f, end);
      FixChunksKeepsPrefix(crc32, f, end);
      FixedChunkStays(crc32, d, FixChunks(crc32, f, end), i);
      FixChunksFacts(crc32, f, end);
    }
  }

  /** A position inside the checksum field of a chunk the walk from i reaches. */
  predicate InChecksum(d: seq<Byte>, i: nat, k: nat)
    decreases |d| - i
  {
    HasChunk(d, i) && (ChunkEnd(d, i) - 4 <= k < ChunkEnd(d, i) || InChecksum(d, ChunkEnd(d, i), k))
  }

  lemma {:induction false} InChecksumIsLocal(d: seq<Byte>, e: seq<Byte>, i: nat, k: nat)
    requires |e| == |d| && i <= |d| && e[i..] == d[i..]
    ensures InChecksum(e, i, k) <==> InChecksum(d, i, k)
    decreases |d| - i
  {
    ExtentIsLocal(d, e, i);
    if HasChunk(d, i) {
      InChecksumIsLocal(d, e, ChunkEnd(d, i), k);
    }
  }

  /** Only checksum bytes change. */
  lemma {:induction false} OnlyChecksumsChange(crc32: Crc, d: seq<Byte>, i: nat, k: nat)
    requires i <= |d| && k < |d| && !InChecksum(d, i, k)
    ensures FixChunks(crc32, d, i)[k] == d[k]
    decreases |d| - i
  {
    if HasChunk(d, i) {
      var f, end := FixChunk(crc32, d, i), ChunkEnd(d, i);
      FixChunkFacts(crc32, d, i);
      InChecksumIsLocal(d, f, end, k);
      OnlyChecksumsChange(crc32, f, end, k);
      assert f[k] == d[k] by {
        if k < end {
          assert f[..end - 4][k] == d[..end - 4][k];
        } else {
          assert f[end..][k - end] == d[end..][k - end];
        }
      }
    }
  }

  /** Nothing changes when every checksum is right already. */
  lemma {:induction false} FixedPointIfOk(crc32: Crc, d: seq<Byte>, i: nat)
    requires i <= |d| && AllOk(crc32, d, i)
    ensures FixChunks(crc32, d, i) == d
    decreases |d| - i
  {
    if HasChunk(d, i) {
      assert FixChunk(crc32, d, i) == d;
      FixedPointIfOk(crc32, d, ChunkEnd(d, i));
    }
  }

  /** A file that fixPNG has nothing to repair in. */
  predicate WellFormed(crc32: Crc, d: seq<Byte>) {
    |d| >= 8 && d[..8] == SIGNATURE && AllOk(crc32, d, 8)
  }

  /** The output is well formed, with the chunk boundaries of the input. */
  lemma FixedIsWellFormed(crc32: Crc, d: seq<Byte>)
    requires |d| >= 8
    ensures WellFormed(crc32, Fixed(crc32, d))
    ensures Chunks(Fixed(crc32, d), 8) == Chunks(d, 8)
  {
    var s := Overwrite(d, 0, SIGNATURE);
    FixChunksKeepsPrefix(crc32, s, 8);
    FixChunksFacts(crc32, s, 8);
    WalkIsLocal(crc32, d, s, 8);
  }

  /** Only the signature and the checksums of the chunks change. */
  lemma FixedFrame(crc32: Crc, d: seq<Byte>, k: nat)
    requires 8 <= k < |d| && !InChecksum(d, 8, k)
    ensures Fixed(crc32, d)[k] == d[k]
  {
    var s := Overwrite(d, 0, SIGNATURE);
    InChecksumIsLocal(d, s, 8, k);
    OnlyChecksumsChange(crc32, s, 8, k);
  }

  /** fixPNG leaves a file alone exactly when it is well formed; so it is idempotent. */
  lemma FixedIffWellFormed(crc32: Crc, d: seq<Byte>)
    requires |d| >= 8
    ensures Fixed(crc32, d) == d <==> WellFormed(crc32, d)
    ensures Fixed(crc32, Fixed(crc32, d)) == Fixed(crc32, d)
  {
    FixedIsWellFormed(crc32, d);
    WellFormedIsFixed(crc32, Fixed(crc32, d));
    if WellFormed(crc32, d) {
      WellFormedIsFixed(crc32, d);
    }
  }

  lemma WellFormedIsFixed(crc32: Crc, d: seq<Byte>)
    requires WellFormed(crc32, d)
    ensures Fixed(crc32, d) == d
  {
    assert Overwrite(d, 0, SIGNATURE) == d;
    FixedPointIfOk(crc32, d, 8);
  }

  // ---------- the bytes of the output ----------

  /** Each chunk is as long as its length field says, plus 12, and a walk stops where no whole chunk follows. */
  predicate IsWalk(d: seq<Byte>, i: nat, chunks: seq<nat>)
    decreases |chunks|
  {
    if i + 4 < |d| && i + Value(d[i..i + 4], BigEndian) + 12 <= |d| then
      chunks != [] && chunks[0] == i && IsWalk(d, i + Value(d[i..i + 4], BigEndian) + 12, chunks[1..])
    else
      chunks == []
  }

  lemma {:induction false} ChunksAreAWalk(d: seq<Byte>, i: nat)
    ensures IsWalk(d, i, Chunks(d, i))
    decreases |d| - i
  {
    if HasChunk(d, i) {
      ChunksAreAWalk(d, ChunkEnd(d, i));
      assert Chunks(d, i)[1..] == Chunks(d, ChunkEnd(d, i));
    }
  }

  lemma {:induction false} AllOkAt(crc32: Crc, d: seq<Byte>, i: nat, at: nat)
    requires AllOk(crc32, d, i) && at in Chunks(d, i)
    ensures HasChunk(d, at) && ChecksumOk(crc32, d, at) && i <= at
    decreases |d| - i
  {
    if at != i {
      AllOkAt(crc32, d, ChunkEnd(d, i), at);
    }
  }

  /** The type and the data of a chunk are no checksum bytes. */
  lemma {:induction false} ContentsAreNoChecksum(d: seq<Byte>, i: nat, at: nat, k: nat)
    requires at in Chunks(d, i) && HasChunk(d, at) && i <= at <= k < ChunkEnd(d, at) - 4
    ensures !InChecksum(d, i, k)
    decreases |d| - i
  {
    if at != i {
      ChunkIsInside(d, ChunkEnd(d, i), at);
      ContentsAreNoChecksum(d, ChunkEnd(d, i), at, k);
    } else {
      ChecksumsAreLater(d, ChunkEnd(d, i), k);
    }
  }

  lemma {:induction false} ChecksumsAreLater(d: seq<Byte>, i: nat, k: nat)
    requires k < i
    ensures !InChecksum(d, i, k)
    decreases |d| - i
  {
    if HasChunk(d, i) {
      ChecksumsAreLater(d, ChunkEnd(d, i), k);
    }
  }

  /** What the output r promises for the input d. */
  ghost predicate IsRepair(crc32: Crc, d: seq<Byte>, r: seq<Byte>) {
    && |r| == |d| && WellFormed(crc32, r) && Chunks(r, 8) == Chunks(d, 8)
    && forall k | 8 <= k < |d| && !InChecksum(d, 8, k) :: r[k] == d[k]
  }

  lemma FixedIsRepair(crc32: Crc, d: seq<Byte>)
    requires |d| >= 8
    ensures IsRepair(crc32, d, Fixed(crc32, d))
  {
    FixedIsWellFormed(crc32, d);
    forall k | 8 <= k < |d| && !InChecksum(d, 8, k) ensures Fixed(crc32, d)[k] == d[k] {
      FixedFrame(crc32, d, k);
    }
  }

  lemma ContentsStay(crc32: Crc, d: seq<Byte>, r: seq<Byte>, i: nat)
    requires i in Chunks(d, 8) && HasChunk(d, i) && 8 <= i && IsRepair(crc32, d, r)
    ensures r[i..ChunkEnd(d, i) - 4] == d[i..ChunkEnd(d, i) - 4]
  {
    forall k | i <= k < ChunkEnd(d, i) - 4 ensures r[k] == d[k] {
      ContentsAreNoChecksum(d, 8, i, k);
    }
    SameSlice(d, r, i, ChunkEnd(d, i) - 4);
  }

  lemma SameSlice(d: seq<Byte>, r: seq<Byte>, first: nat, last: nat)
    requires first <= last <= |d| && |r| == |d| && forall k | first <= k < last :: r[k] == d[k]
    ensures r[first..last] == d[first..last]
  {
  }

  lemma {:induction false} ChunkIsInside(d: seq<Byte>, i: nat, at: nat)
    requires at in Chunks(d, i)
    ensures HasChunk(d, at) && i <= at
    decreases |d| - i
  {
    if at != i {
      ChunkIsInside(d, ChunkEnd(d, i), at);
    }
  }

  lemma SameExtent(d: seq<Byte>, r: seq<Byte>, i: nat)
    requires HasChunk(d, i) && |r| == |d| && r[i..ChunkEnd(d, i) - 4] == d[i..ChunkEnd(d, i) - 4]
    ensures r[i..i + 4] == d[i..i + 4] && HasChunk(r, i) && ChunkEnd(r, i) == ChunkEnd(d, i)
    ensures r[i + 4..ChunkEnd(d, i) - 4] == d[i + 4..ChunkEnd(d, i) - 4]
  {
    var c := ChunkEnd(d, i) - 4;
    assert r[i..i + 4] == r[i..c][..4] && d[i..i + 4] == d[i..c][..4];
    assert r[i + 4..c] == r[i..c][4..] && d[i + 4..c] == d[i..c][4..];
  }

  lemma ChecksumValue(crc32: Crc, d: seq<Byte>, i: nat, end: nat, contents: seq<Byte>, last: seq<Byte>)
    requires HasChunk(d, i) && end == ChunkEnd(d, i) && ChecksumOk(crc32, d, i)
    requires contents == d[i + 4..end - 4] && last == d[end - 4..end]
    ensures Value(last, BigEndian) == crc32(contents) % 0x1_0000_0000
  {
    DecodeEncode(PngCrc32(crc32, contents), BigEndian, Some(4));
  }

  lemma RepairedChecksum(crc32: Crc, d: seq<Byte>, r: seq<Byte>, i: nat)
    requires i in Chunks(d, 8) && IsRepair(crc32, d, r)
    ensures HasChunk(r, i) && ChecksumOk(crc32, r, i)
  {
    AllOkAt(crc32, r, 8, i);
  }

  lemma RepairedContents(crc32: Crc, d: seq<Byte>, r: seq<Byte>, i: nat, end: nat)
    requires i in Chunks(d, 8) && IsRepair(crc32, d, r) && HasChunk(d, i) && 8 <= i
    requires end == ChunkEnd(d, i)
    ensures HasChunk(r, i) && ChunkEnd(r, i) == end && r[i + 4..end - 4] == d[i + 4..end - 4]
  {
    ContentsStay(crc32, d, r, i);
    SameExtent(d, r, i);
  }

  lemma ChecksumOfChunk(
    crc32: Crc, d: seq<Byte>, r: seq<Byte>, i: nat, end: nat, contents: seq<Byte>, last: seq<Byte>)
    requires IsRepair(crc32, d, r) && i in Chunks(d, 8) && HasChunk(d, i) && 8 <= i && end == ChunkEnd(d, i)
    requires contents == d[i + 4..end - 4] && last == r[end - 4..end]
    ensures Value(last, BigEndian) == crc32(contents) % 0x1_0000_0000
  {
    RepairedContents(crc32, d, r, i, end);
    RepairedChecksum(crc32, d, r, i);
    ChecksumValue(crc32, r, i, end, contents, last);
  }

  /**
   In the output r, the last four bytes of each chunk of the input d are the big-endian number that
   the checksum function gives for the chunk's type and data.
   */
  lemma ChecksumsCoverTypeAndData(
    crc32: Crc, d: seq<Byte>, r: seq<Byte>, i: nat, end: nat, contents: seq<Byte>, last: seq<Byte>)
    requires IsRepair(crc32, d, r) && i in Chunks(d, 8)
    requires i + 12 <= end <= |d| && end == i + 12 + Value(d[i..i + 4], BigEndian)
    requires contents == d[i + 4..end - 4] && last == r[end - 4..end]
    ensures Value(last, BigEndian) == crc32(contents) % 0x1_0000_0000
  {
    ChunkIsInside(d, 8, i);
    ChecksumOfChunk(crc32, d, r, i, end, contents, last);
  }

  /** The output starts with the PNG signature. */
  lemma SignatureIsWritten(crc32: Crc, d: seq<Byte>)
    requires |d| >= 8
    ensures Fixed(crc32, d)[..8] == [137, 80, 78, 71, 13, 10, 26, 10]
  {
    FixedIsWellFormed(crc32, d);
  }

  // ---------- the function ----------

  class StringIO {
    var contents: seq<Byte>
    var pos: nat

    constructor (data: seq<Byte>)
      ensures contents == data && pos == 0
    {
      contents, pos := data, 0;
    }

    method Seek(position: nat)
      modifies `pos
      ensures pos == position
    {
      pos := position;
    }

    /** The next bytes, fewer at the end of the buffer. */
    method Read(size: nat) returns (r: seq<Byte>)
      requires pos <= |contents|
      modifies `pos
      ensures pos == (if old(pos) + size < |contents| then old(pos) + size else |contents|)
      ensures r == contents[old(pos)..pos]
    {
      var end := if pos + size < |contents| then pos + size else |contents|;
      r := contents[pos..end];
      pos := end;
    }

    /** Overwrites, and extends the buffer when writing past its end. */
    method Write(s: seq<Byte>)
      requires pos <= |contents|
      modifies this
      ensures pos == old(pos) + |s|
      ensures contents == old(contents)[..old(pos)] + s + (if pos < |old(contents)| then old(contents)[pos..] else [])
    {
      var end := pos + |s|;
      contents := contents[..pos] + s + (if end < |contents| then contents[end..] else []);
      pos := end;
    }
  }

  /** seek and write inside the buffer. */
  method WriteAt(io: StringIO, at: nat, s: seq<Byte>)
    requires at + |s| <= |io.contents|
    modifies io
    ensures io.contents == Overwrite(old(io.contents), at, s)
  {
    io.Seek(at);
    io.Write(s);
  }

  /** seek and read inside the buffer. */
  method ReadAt(io: StringIO, at: nat, size: nat) returns (r: seq<Byte>)
    requires at + size <= |io.contents|
    modifies io`pos
    ensures r == io.contents[at..at + size]
  {
    io.Seek(at);
    r := io.Read(size);
  }

  method ReadChunkSize(io: StringIO, index: nat) returns (chunksize: nat)
    requires index + 4 <= |io.contents|
    modifies io`pos
    ensures chunksize == ChunkSize(io.contents, index)
  {
    var length := ReadAt(io, index, 4);
    var size := Bytes2Uint(length, BigEndian);
    chunksize := size.value + 12;
  }

  method ComputeChecksum(crc32: Crc, io: StringIO, index: nat, chunksize: nat) returns (newcrc: seq<Byte>)
    requires HasChunk(io.contents, index) && chunksize == ChunkSize(io.contents, index)
    modifies io`pos
    ensures newcrc == Checksum(crc32, io.contents, index)
  {
    var crcdata := ReadAt(io, index + 4, chunksize - 8);
    newcrc := Uint2Bytes(PngCrc32(crc32, crcdata), BigEndian, Some(4));
  }

  /** Rewrites the checksum of the chunk at index; None when its length is invalid. */
  method FixChunkAt(crc32: Crc, io: StringIO, index: nat) returns (next: Option<nat>)
    requires index + 4 < |io.contents|
    modifies io
    ensures next.None? ==> !HasChunk(old(io.contents), index) && io.contents == old(io.contents)
    ensures next.Some? ==> HasChunk(old(io.contents), index) && next.value == ChunkEnd(old(io.contents), index)
    ensures next.Some? ==> io.contents == FixChunk(crc32, old(io.contents), index)
  {
    var chunksize := ReadChunkSize(io, index);
    if |io.contents| < index + chunksize {
      return None;
    }
    var newcrc := ComputeChecksum(crc32, io, index, chunksize);
    WriteAt(io, index + chunksize - 4, newcrc);
    return Some(index + chunksize);
  }

  /** None stands for the AssertionError when the signature does not fit. */
  method FixPNG(crc32: Crc, data: array<Byte>) returns (r: Option<seq<Byte>>)
    ensures r == if data.Length >= 8 then Some(Fixed(crc32, data[..])) else None
  {
    var origdata := data[..];
    var datalen := |origdata|;
    var io := new StringIO(origdata);
    io.Seek(0);
    io.Write(SIGNATURE);
    var index: nat := 8;
    while index < datalen - 4
      invariant fresh(io) && |io.contents| == if datalen >= 8 then datalen else 8
      invariant datalen >= 8 ==> FixChunks(crc32, io.contents, index) == Fixed(crc32, origdata)
      decreases datalen - index
    {
      var next := FixChunkAt(crc32, io, index);
      if next.None? {
        break;
      }
      index := next.value;
    }
    assert datalen >= 8 ==> io.contents == Fixed(crc32, origdata);
    io.Seek(0);
    var fixed := io.Read(|io.contents|);
    assert fixed == io.contents && data[..] == origdata;
    if |fixed| != |origdata| {
      return None;
    }
    return Some(fixed);
  }
}
