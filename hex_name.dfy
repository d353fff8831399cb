/** The licence-name codec of the licence card (`hex2a`): a licence name is
    stored on chain as a `bytes32`, which reaches the page as the string
    "0x" followed by 64 hexadecimal digits. The card turns it back into text
    two digits at a time and drops every two-digit chunk whose value is zero
    or not a number. The other half is the layout the page writes when it
    creates a licence (`formatBytes32String`): the name's bytes in lower-case
    hexadecimal, zero-padded to 32 bytes. */
module HexName {
  import opened Results

  newtype byte = x: int | 0 <= x < 256

  predicate IsHexDigit(c: char) {
    '0' <= c <= '9' || 'a' <= c <= 'f' || 'A' <= c <= 'F'
  }

  function DigitValue(c: char): (v: nat)
    requires IsHexDigit(c)
    ensures v < 16
  {
    if '0' <= c <= '9' then c as int - '0' as int
    else if 'a' <= c <= 'f' then c as int - 'a' as int + 10
    else c as int - 'A' as int + 10
  }

  /** The input the card receives: "0x" and then hexadecimal digits. */
  predicate IsHexName(s: string) {
    |s| >= 2 && s[0] == '0' && s[1] == 'x' &&
    forall i :: 2 <= i < |s| ==> IsHexDigit(s[i])
  }

  /** `parseInt(chunk, 16)` for a chunk of one or two characters taken from a
      hex name: the chunk's value when every character is a hexadecimal
      digit, `NaN` (None) otherwise, which is what the "0x" chunk gives. */
  function ParseChunk(chunk: string): (r: Option<nat>)
    requires 1 <= |chunk| <= 2
    ensures r.Some? <==> forall i :: 0 <= i < |chunk| ==> IsHexDigit(chunk[i])
    ensures r.Some? ==> r.value < 256
    ensures r.Some? && |chunk| == 1 ==> r.value == DigitValue(chunk[0])
    ensures r.Some? && |chunk| == 2 ==> r.value == 16 * DigitValue(chunk[0]) + DigitValue(chunk[1])
  {
    if !IsHexDigit(chunk[0]) then None
    else if |chunk| == 1 then Some(DigitValue(chunk[0]))
    else if !IsHexDigit(chunk[1]) then None
    else Some(16 * DigitValue(chunk[0]) + DigitValue(chunk[1]))
  }

  /** `hex.substr(j, 2)`: the chunk at offset j, one character short at the
      end of an odd-length string. */
  function Chunk(s: string, j: nat): (r: string)
    requires j < |s|
    ensures 1 <= |r| <= 2
    ensures |r| == 2 <==> j + 2 <= |s|
  {
    s[j..if j + 2 <= |s| then j + 2 else |s|]
  }

  /** The character code a chunk contributes; 0 for a chunk that parses to
      zero and for one that does not parse, both of which the card skips. */
  function Code(chunk: string): (r: nat)
    requires 1 <= |chunk| <= 2
    ensures r < 256
  {
    match ParseChunk(chunk)
    case Some(v) => v
    case None => 0
  }

  /** What one iteration of the loop appends to the result. */
  function Emit(chunk: string): (r: string)
    requires 1 <= |chunk| <= 2
  {
    if Code(chunk) != 0 then [Code(chunk) as char] else []
  }

  /** The text decoded from the chunks at offsets j, j + 2, ... of s. */
  function DecodeFrom(s: string, j: nat): (r: string)
    decreases |s| - j
  {
    if j >= |s| then [] else Emit(Chunk(s, j)) + DecodeFrom(s, j + 2)
  }

  /** The text `hex2a` returns for s. */
  function Decode(s: string): (r: string) {
    DecodeFrom(s, 0)
  }

  /** `hex2a`: walks the string two characters at a time and appends the
      character of every chunk whose value is neither zero nor `NaN`. */
  method Hex2a(hex: string) returns (str: string)
    requires IsHexName(hex)
    ensures str == Decode(hex)
  {
    str := "";
    var i := 0;
    while i < |hex|
      invariant i % 2 == 0 && i <= |hex| + 1
      invariant str + DecodeFrom(hex, i) == Decode(hex)
    {
      var chunk := Chunk(hex, i);
      var v := ParseChunk(chunk);
      ghost var rest := DecodeFrom(hex, i + 2);
      assert DecodeFrom(hex, i) == Emit(chunk) + rest;
      if v.Some? && v.value != 0 {
        assert Emit(chunk) == [v.value as char];
        assert str + Emit(chunk) + rest == str + (Emit(chunk) + rest);
        str := str + [v.value as char];
      } else {
        assert Emit(chunk) == [];
        assert Emit(chunk) + rest == rest;
      }
      i := i + 2;
    }
  }

  // ---------------------------------------------------------------------
  // What the decoder's output is, chunk by chunk.

  /** The even offsets, from j on, of the chunks that contribute a character. */
  function OffsetsFrom(s: string, j: nat): (r: seq<nat>)
    decreases |s| - j
  {
    if j >= |s| then []
    else (if Code(Chunk(s, j)) != 0 then [j] else []) + OffsetsFrom(s, j + 2)
  }

  function Offsets(s: string): (r: seq<nat>) {
    OffsetsFrom(s, 0)
  }

  lemma {:induction false} OffsetsFromBounds(s: string, j: nat)
    requires j % 2 == 0
    ensures forall k :: 0 <= k < |OffsetsFrom(s, j)| ==>
      j <= OffsetsFrom(s, j)[k] < |s| && OffsetsFrom(s, j)[k] % 2 == 0
    decreases |s| - j
  {
    if j < |s| {
      OffsetsFromBounds(s, j + 2);
    }
  }

  lemma {:induction false} OffsetsFromIncreasing(s: string, j: nat)
    requires j % 2 == 0
    ensures forall k, l :: 0 <= k < l < |OffsetsFrom(s, j)| ==>
      OffsetsFrom(s, j)[k] < OffsetsFrom(s, j)[l]
    decreases |s| - j
  {
    if j < |s| {
      OffsetsFromIncreasing(s, j + 2);
      OffsetsFromBounds(s, j + 2);
    }
  }

  lemma {:induction false} OffsetsFromComplete(s: string, j: nat)
    ensures forall i :: j <= i < |s| && (i - j) % 2 == 0 && Code(Chunk(s, i)) != 0 ==>
      i in OffsetsFrom(s, j)
    decreases |s| - j
  {
    if j < |s| {
      OffsetsFromComplete(s, j + 2);
    }
  }

  lemma {:induction false} DecodeFromAtOffsets(s: string, j: nat)
    ensures |DecodeFrom(s, j)| == |OffsetsFrom(s, j)|
    ensures forall k :: 0 <= k < |OffsetsFrom(s, j)| ==>
      OffsetsFrom(s, j)[k] < |s| &&
      DecodeFrom(s, j)[k] as int == Code(Chunk(s, OffsetsFrom(s, j)[k]))
    decreases |s| - j
  {
    if j < |s| {
      DecodeFromAtOffsets(s, j + 2);
      var c := Chunk(s, j);
      if Code(c) != 0 {
        assert OffsetsFrom(s, j) == [j] + OffsetsFrom(s, j + 2);
        assert DecodeFrom(s, j) == [Code(c) as char] + DecodeFrom(s, j + 2);
      } else {
        assert OffsetsFrom(s, j) == OffsetsFrom(s, j + 2);
        assert DecodeFrom(s, j) == DecodeFrom(s, j + 2);
      }
    }
  }

  /** The decoded text, exactly: its k-th character is the character whose
      code is the value of the chunk at the k-th even offset whose chunk is
      neither zero nor `NaN`; those offsets are increasing (the characters
      keep the order of their chunks) and no such chunk is missed. */
  lemma DecodeCharacterized(s: string)
    ensures |Decode(s)| == |Offsets(s)|
    ensures forall k :: 0 <= k < |Offsets(s)| ==>
      Offsets(s)[k] < |s| && Offsets(s)[k] % 2 == 0 &&
      Decode(s)[k] as int == Code(Chunk(s, Offsets(s)[k]))
    ensures forall k, l :: 0 <= k < l < |Offsets(s)| ==> Offsets(s)[k] < Offsets(s)[l]
    ensures forall i :: 0 <= i < |s| && i % 2 == 0 && Code(Chunk(s, i)) != 0 ==> i in Offsets(s)
  {
    DecodeFromAtOffsets(s, 0);
    OffsetsFromBounds(s, 0);
    OffsetsFromIncreasing(s, 0);
    OffsetsFromComplete(s, 0);
  }

  /** The output never holds a NUL character. */
  lemma {:induction false} DecodeFromHasNoNul(s: string, j: nat)
    ensures forall k :: 0 <= k < |DecodeFrom(s, j)| ==> DecodeFrom(s, j)[k] != 0 as char
    decreases |s| - j
  {
    if j < |s| {
      DecodeFromHasNoNul(s, j + 2);
    }
  }

  lemma DecodeHasNoNul(s: string)
    ensures forall k :: 0 <= k < |Decode(s)| ==> Decode(s)[k] != 0 as char
  {
    DecodeFromHasNoNul(s, 0);
  }

  /** At most one character per two-character chunk. */
  lemma {:induction false} DecodeFromLength(s: string, j: nat)
    requires j <= |s| + 1
    ensures |DecodeFrom(s, j)| <= (|s| - j + 1) / 2
    decreases |s| - j
  {
    if j < |s| {
      DecodeFromLength(s, j + 2);
    }
  }

  lemma DecodeLength(s: string)
    ensures |Decode(s)| <= (|s| + 1) / 2
  {
    DecodeFromLength(s, 0);
  }

  // ---------------------------------------------------------------------
  // Decoding a concatenation.

  lemma ChunkOfRight(a: string, b: string, k: nat)
    requires k < |b|
    ensures Chunk(a + b, |a| + k) == Chunk(b, k)
  {
    var c, d := Chunk(a + b, |a| + k), Chunk(b, k);
    assert |c| == |d|;
    forall i | 0 <= i < |c| ensures c[i] == d[i] {
      assert c[i] == (a + b)[|a| + k + i];
    }
  }

  lemma ChunkOfLeft(a: string, b: string, j: nat)
    requires j + 2 <= |a|
    ensures Chunk(a + b, j) == Chunk(a, j)
  {
    var c, d := Chunk(a + b, j), Chunk(a, j);
    assert |c| == |d| == 2;
    forall i | 0 <= i < 2 ensures c[i] == d[i] {
      assert c[i] == (a + b)[j + i];
    }
  }

  lemma {:induction false} DecodeFromShift(a: string, b: string, k: nat)
    ensures DecodeFrom(a + b, |a| + k) == DecodeFrom(b, k)
    decreases |b| - k
  {
    if k < |b| {
      ChunkOfRight(a, b, k);
      DecodeFromShift(a, b, k + 2);
    }
  }

  lemma {:induction false} DecodeFromAppend(a: string, b: string, j: nat)
    requires |a| % 2 == 0 && j % 2 == 0 && j <= |a|
    ensures DecodeFrom(a + b, j) == DecodeFrom(a, j) + Decode(b)
    decreases |a| - j
  {
    if j == |a| {
      DecodeFromShift(a, b, 0);
    } else {
      ChunkOfLeft(a, b, j);
      DecodeFromAppend(a, b, j + 2);
    }
  }

  /** Cutting the input after an even number of characters cuts the output
      at the corresponding place: the chunks are decoded independently. */
  lemma DecodeAppend(a: string, b: string)
    requires |a| % 2 == 0
    ensures Decode(a + b) == Decode(a) + Decode(b)
  {
    DecodeFromAppend(a, b, 0);
  }

  /** The leading "0x" contributes no character. */
  lemma DecodeSkipsPrefix(digits: string)
    ensures Decode("0x" + digits) == Decode(digits)
  {
    DecodeAppend("0x", digits);
    assert Chunk("0x", 0) == "0x";
  }

  /** n chunks "00": the zero padding of a bytes32 value. */
  function Zeros(n: nat): (r: string)
    ensures |r| == 2 * n
  {
    if n == 0 then "" else "00" + Zeros(n - 1)
  }

  lemma {:induction false} DecodeZeros(n: nat)
    ensures Decode(Zeros(n)) == ""
  {
    if n > 0 {
      DecodeAppend("00", Zeros(n - 1));
      assert Chunk("00", 0) == "00";
      DecodeZeros(n - 1);
    }
  }

  /** Zero padding after a whole number of bytes leaves the output unchanged. */
  lemma DecodeIgnoresPadding(s: string, n: nat)
    requires |s| % 2 == 0
    ensures Decode(s + Zeros(n)) == Decode(s)
  {
    DecodeAppend(s, Zeros(n));
    DecodeZeros(n);
  }

  // ---------------------------------------------------------------------
  // The bytes32 layout written when a licence is created.

  /** A lower-case hexadecimal digit, as `hexlify` writes it. */
  function HexDigitChar(v: nat): (c: char)
    requires v < 16
    ensures IsHexDigit(c) && DigitValue(c) == v
  {
    if v < 10 then ('0' as int + v) as char else ('a' as int + v - 10) as char
  }

  function HexByte(b: byte): (r: string)
    ensures |r| == 2 && IsHexDigit(r[0]) && IsHexDigit(r[1])
    ensures Code(r) == b as int
  {
    [HexDigitChar(b as int / 16), HexDigitChar(b as int % 16)]
  }

  function HexBytes(bs: seq<byte>): (r: string)
    ensures |r| == 2 * |bs|
    ensures forall i :: 0 <= i < |r| ==> IsHexDigit(r[i])
  {
    if bs == [] then "" else HexByte(bs[0]) + HexBytes(bs[1..])
  }

  /** The 66-character string of a bytes32 holding bs (at most 31 bytes):
      "0x", the bytes in hexadecimal, and zero bytes up to 32 in all. */
  function Bytes32Hex(bs: seq<byte>): (r: string)
    requires |bs| <= 31
    ensures |r| == 66
  {
    "0x" + (HexBytes(bs) + Zeros(32 - |bs|))
  }

  /** `formatBytes32String` applied to the UTF-8 bytes of a name: more than
      31 bytes throw (None); otherwise the bytes32 layout above. */
  function FormatBytes32(bs: seq<byte>): (r: Option<string>)
    ensures r.Some? <==> |bs| <= 31
    ensures r.Some? ==> |r.value| == 66
  {
    if |bs| > 31 then None else Some(Bytes32Hex(bs))
  }

  /** What the page writes is what the card expects to read. */
  lemma FormatBytes32IsHexName(bs: seq<byte>)
    requires |bs| <= 31
    ensures IsHexName(FormatBytes32(bs).value)
  {
    var hex, padding := HexBytes(bs), Zeros(32 - |bs|);
    forall i | 0 <= i < |hex + padding| ensures IsHexDigit((hex + padding)[i]) {
      if i >= |hex| {
        ZerosAreDigits(32 - |bs|, i - |hex|);
      }
    }
    assert FormatBytes32(bs).value == "0x" + (hex + padding);
  }

  lemma {:induction false} ZerosAreDigits(n: nat, i: nat)
    requires i < 2 * n
    ensures Zeros(n)[i] == '0'
  {
    if i >= 2 {
      ZerosAreDigits(n - 1, i - 2);
    }
  }

  /** The text a byte string shows once its zero bytes are dropped, each
      byte read as the character with that code. */
  function Visible(bs: seq<byte>): (r: string)
    ensures |r| <= |bs|
  {
    if bs == [] then ""
    else (if bs[0] != 0 then [(bs[0] as int) as char] else []) + Visible(bs[1..])
  }

  lemma {:induction false} DecodeHexBytes(bs: seq<byte>)
    ensures Decode(HexBytes(bs)) == Visible(bs)
  {
    if bs != [] {
      var h := HexByte(bs[0]);
      DecodeAppend(h, HexBytes(bs[1..]));
      assert Chunk(h, 0) == h;
      assert Decode(h) == Emit(h) + DecodeFrom(h, 2);
      DecodeHexBytes(bs[1..]);
    }
  }

  lemma {:induction false} HexBytesEven(bs: seq<byte>)
    ensures |HexBytes(bs)| % 2 == 0
  {
    if bs != [] {
      HexBytesEven(bs[1..]);
    }
  }

  lemma DecodePaddedHexBytes(bs: seq<byte>, n: nat)
    ensures Decode(HexBytes(bs) + Zeros(n)) == Visible(bs)
  {
    HexBytesEven(bs);
    DecodeAppend(HexBytes(bs), Zeros(n));
    DecodeZeros(n);
    DecodeHexBytes(bs);
  }

  lemma DecodeLayout(bs: seq<byte>, written: string)
    requires |bs| <= 31
    requires written == "0x" + (HexBytes(bs) + Zeros(32 - |bs|))
    ensures Decode(written) == Visible(bs)
  {
    DecodeSkipsPrefix(HexBytes(bs) + Zeros(32 - |bs|));
    DecodePaddedHexBytes(bs, 32 - |bs|);
  }

  /** Round trip with the creation path: decoding the bytes32 written for a
      name gives back the name's bytes as characters, minus any zero byte. */
  lemma DecodeFormatBytes32(bs: seq<byte>)
    requires |bs| <= 31
    ensures Decode(FormatBytes32(bs).value) == Visible(bs)
  {
    DecodeLayout(bs, FormatBytes32(bs).value);
  }

  lemma {:induction false} VisibleWithoutZeros(bs: seq<byte>)
    requires forall i :: 0 <= i < |bs| ==> bs[i] != 0
    ensures |Visible(bs)| == |bs|
    ensures forall i :: 0 <= i < |bs| ==> Visible(bs)[i] as int == bs[i] as int
  {
    if bs != [] {
      VisibleWithoutZeros(bs[1..]);
    }
  }

  /** A name of at most 31 bytes with no zero byte (every ASCII name without
      NUL) comes back unchanged, one character per byte. */
  lemma NameRoundTrip(bs: seq<byte>)
    requires |bs| <= 31
    requires forall i :: 0 <= i < |bs| ==> bs[i] != 0
    ensures |Decode(FormatBytes32(bs).value)| == |bs|
    ensures forall i :: 0 <= i < |bs| ==> Decode(FormatBytes32(bs).value)[i] as int == bs[i] as int
  {
    DecodeFormatBytes32(bs);
    VisibleWithoutZeros(bs);
  }
}
