/** The integer codec of fusil/fusil/bits.py. */
module Bits {
  import opened Wrappers
  import opened Units

  datatype Endian = BigEndian | LittleEndian

  function Reverse(s: seq<Byte>): (r: seq<Byte>)
    ensures |r| == |s|
  {
    seq(|s|, i requires 0 <= i < |s| => s[|s| - 1 - i])
  }

  /** range("\0", count) */
  function Nuls(count: nat): (r: seq<Byte>)
    ensures |r| == count
  {
    seq(count, _ => 0)
  }

  function Pow2(n: nat): nat {
    if n == 0 then 1 else 2 * Pow2(n - 1)
  }

  /** Positional value, least significant byte first. */
  function LittleValue(s: seq<Byte>): nat {
    if s == [] then 0 else s[0] + 256 * LittleValue(s[1..])
  }

  /** The number a byte string stands for. */
  function Value(s: seq<Byte>, endian: Endian): nat {
    LittleValue(if endian.BigEndian? then Reverse(s) else s)
  }

  /** The bytes of a value without padding, least significant first; none for zero. */
  function LittleDigits(value: nat): seq<Byte> {
    if value == 0 then [] else [value % 256] + LittleDigits(value / 256)
  }

  function Width(value: nat): nat {
    |LittleDigits(value)|
  }

  /** The padding uint2bytes adds; a size of None or 0 adds none. */
  function Need(value: nat, size: Option<int>): nat {
    if size.Some? && size.value > Width(value) then size.value - Width(value) else 0
  }

  /** The bytes uint2bytes returns. */
  function Encode(value: nat, endian: Endian, size: Option<int>): (r: seq<Byte>)
    ensures |r| == Width(value) + Need(value, size)
  {
    var need := Need(value, size);
    if endian.BigEndian? then Nuls(need) + Reverse(LittleDigits(value)) else LittleDigits(value) + Nuls(need)
  }

  // ---------- values and digits ----------

  lemma {:induction false} ValueOfDigits(value: nat, need: nat)
    ensures LittleValue(LittleDigits(value) + Nuls(need)) == value
  {
    var s := LittleDigits(value) + Nuls(need);
    if value > 0 {
      ValueOfDigits(value / 256, need);
      assert s[1..] == LittleDigits(value / 256) + Nuls(need);
    } else if need > 0 {
      ValueOfDigits(0, need - 1);
      assert s[1..] == LittleDigits(0) + Nuls(need - 1);
    }
  }

  lemma {:induction false} DigitsOfValue(s: seq<Byte>)
    ensures Width(LittleValue(s)) <= |s|
    ensures LittleDigits(LittleValue(s)) + Nuls(|s| - Width(LittleValue(s))) == s
  {
    if s != [] {
      DigitsOfValue(s[1..]);
      assert s == [s[0]] + s[1..];
    }
  }

  lemma ReverseTwice(s: seq<Byte>)
    ensures Reverse(Reverse(s)) == s
  {
  }

  /** The two endians mirror each other. */
  lemma EndiansMirror(value: nat, size: Option<int>)
    ensures Encode(value, BigEndian, size) == Reverse(Encode(value, LittleEndian, size))
  {
  }

  /** Decoding what was encoded gives the value back, whatever the endian and the padding. */
  lemma DecodeEncode(value: nat, endian: Endian, size: Option<int>)
    ensures Value(Encode(value, endian, size), endian) == value
  {
    ValueOfDigits(value, Need(value, size));
    EndiansMirror(value, size);
    ReverseTwice(Encode(value, LittleEndian, size));
  }

  lemma EncodeLittle(value: nat, length: nat)
    requires Width(value) <= length
    ensures Encode(value, LittleEndian, Some(length)) == LittleDigits(value) + Nuls(length - Width(value))
  {
  }

  lemma EncodeDecodeLittle(s: seq<Byte>)
    ensures Encode(LittleValue(s), LittleEndian, Some(|s|)) == s
  {
    DigitsOfValue(s);
    EncodeLittle(LittleValue(s), |s|);
  }

  /** Encoding what was decoded, at the same length, gives the bytes back. */
  lemma EncodeDecode(s: seq<Byte>, endian: Endian)
    ensures Encode(Value(s, endian), endian, Some(|s|)) == s
  {
    if endian.BigEndian? {
      EncodeDecodeLittle(Reverse(s));
      EndiansMirror(Value(s, endian), Some(|s|));
      ReverseTwice(s);
    } else {
      EncodeDecodeLittle(s);
    }
  }

  /** The unpadded width is the least number of bytes that can hold the value. */
  lemma {:induction false} WidthIsMinimal(value: nat, n: nat)
    ensures Width(value) <= n <==> value < Pow2(8 * n)
  {
    if n == 0 {
      assert value == 0 <==> Width(value) == 0;
    } else {
      ByteShift(8 * (n - 1));
      WidthIsMinimal(value / 256, n - 1);
    }
  }

  lemma ByteShift(n: nat)
    ensures Pow2(n + 8) == 256 * Pow2(n)
  {
    assert Pow2(n + 8) == 2 * Pow2(n + 7) == 4 * Pow2(n + 6) == 8 * Pow2(n + 5) == 16 * Pow2(n + 4);
    assert Pow2(n + 4) == 2 * Pow2(n + 3) == 4 * Pow2(n + 2) == 8 * Pow2(n + 1) == 16 * Pow2(n);
  }

  /** The byte is digit i of the value to base 256, counted from the least significant end. */
  ghost predicate IsDigit(byte: nat, value: nat, i: nat) {
    exists high: nat, low: nat :: IsSplit(value, i, high, byte, low)
  }

  ghost predicate IsSplit(value: nat, i: nat, high: nat, byte: nat, low: nat) {
    byte < 256 && low < Pow2(8 * i) && value == (256 * high + byte) * Pow2(8 * i) + low
  }

  lemma SplitGrows(value: nat, i: nat, high: nat, byte: nat, low: nat, last: nat)
    requires IsSplit(value, i, high, byte, low) && last < 256
    ensures IsSplit(256 * value + last, i + 1, high, byte, 256 * low + last)
  {
    ByteShift(8 * i);
    var p, top := Pow2(8 * i), 256 * high + byte;
    assert top * (256 * p) == 256 * (top * p);
  }

  lemma {:induction false} DigitIs(value: nat, need: nat, i: nat)
    requires i < Width(value) + need
    ensures IsDigit((LittleDigits(value) + Nuls(need))[i], value, i)
  {
    var s := LittleDigits(value) + Nuls(need);
    if i == 0 {
      assert IsSplit(value, 0, value / 256, value % 256, 0);
    } else {
      var fewer := if value > 0 then need else need - 1;
      DigitIs(value / 256, fewer, i - 1);
      assert s[1..] == LittleDigits(value / 256) + Nuls(fewer);
      var high: nat, low: nat :| IsSplit(value / 256, i - 1, high, s[i], low);
      SplitGrows(value / 256, i - 1, high, s[i], low, value % 256);
    }
  }

  /** Byte i from the least significant end is digit i of the value, for both endians. */
  lemma BytesAreDigits(value: nat, endian: Endian, size: Option<int>, i: nat)
    requires i < |Encode(value, endian, size)|
    ensures var r := Encode(value, endian, size);
      IsDigit(r[if endian.BigEndian? then |r| - 1 - i else i], value, i)
  {
    DigitIs(value, Need(value, size), i);
    EndiansMirror(value, size);
    assert Encode(value, LittleEndian, size)[i] == (LittleDigits(value) + Nuls(Need(value, size)))[i];
  }

  lemma {:induction false} ValueAppend(s: seq<Byte>, b: Byte)
    ensures LittleValue(s + [b]) == LittleValue(s) + b * Pow2(8 * |s|)
  {
    if s == [] {
      assert (s + [b])[1..] == [];
    } else {
      assert (s + [b])[1..] == s[1..] + [b];
      ValueAppend(s[1..], b);
      var p := Pow2(8 * |s[1..]|);
      ByteShift(8 * |s[1..]|);
      assert Pow2(8 * |s|) == 256 * p;
      assert 256 * (b * p) == b * (256 * p);
    }
  }

  // ---------- the functions of the module ----------

  method Uint2Bytes(value: nat, endian: Endian, size: Option<int>) returns (r: seq<Byte>)
    ensures r == Encode(value, endian, size)
  {
    var text := TakeDigits(value);
    var need := 0;
    if size.Some? && size.value != 0 {
      need := if size.value > |text| then size.value - |text| else 0;
    }
    if need != 0 {
      r := if endian.BigEndian? then Nuls(need) + Reverse(text) else text + Nuls(need);
    } else {
      r := if endian.BigEndian? then Reverse(text) else text;
    }
  }

  /** The loop of uint2bytes. */
  method TakeDigits(value: nat) returns (text: seq<Byte>)
    ensures text == LittleDigits(value)
  {
    text := [];
    var v := value;
    while v != 0
      invariant text + LittleDigits(v) == LittleDigits(value)
    {
      var byte := v % 256;
      assert text + LittleDigits(v) == text + [byte] + LittleDigits(v / 256);
      text := text + [byte];
      v := v / 256;
    }
  }

  /** None stands for the AssertionError on fewer than 1 or more than 32 bytes. */
  method Bytes2Uint(data: seq<Byte>, endian: Endian) returns (r: Option<nat>)
    ensures r == if 1 <= |data| <= 32 then Some(Value(data, endian)) else None
  {
    if !(1 <= |data| <= 32) {
      return None;
    }
    var bytes := if endian.BigEndian? then Reverse(data) else data;
    var shift: nat, value: nat := 0, 0;
    for i := 0 to |bytes|
      invariant shift == 8 * i && value == LittleValue(bytes[..i])
    {
      ValueAppend(bytes[..i], bytes[i]);
      assert bytes[..i + 1] == bytes[..i] + [bytes[i]];
      value := value + bytes[i] * Pow2(shift);
      shift := shift + 8;
    }
    assert bytes[..|bytes|] == bytes;
    return Some(value);
  }
}
