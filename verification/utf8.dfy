/** UTF-8 widths and encoding of Rust `char`s (Unicode scalar values), and the
    character-column to byte-offset conversion `char_to_byte_pos`. */
module Utf8 {
  import opened Wrappers

  type byte = b: int | 0 <= b < 256

  function Min(a: nat, b: nat): (r: nat) {
    if a <= b then a else b
  }

  /** Number of bytes `c` takes in UTF-8 (Rust's `char::len_utf8`). */
  function Width(c: char): (w: nat)
    ensures 1 <= w <= 4
    ensures w == 1 <==> c as int < 0x80
  {
    if c as int < 0x80 then 1
    else if c as int < 0x800 then 2
    else if c as int < 0x1_0000 then 3
    else 4
  }

  /** A byte that continues a multi-byte sequence (bit pattern 10xxxxxx). */
  predicate IsContinuation(b: byte) {
    0x80 <= b < 0xC0
  }

  /** The UTF-8 encoding of one scalar value, as in section 3 of RFC 3629. */
  function EncodeChar(c: char): (bs: seq<byte>)
    ensures 1 <= |bs| <= 4
    ensures !IsContinuation(bs[0])
    ensures forall i :: 1 <= i < |bs| ==> IsContinuation(bs[i])
  {
    var cp := c as int;
    if cp < 0x80 then [cp]
    else if cp < 0x800 then [0xC0 + cp / 0x40, 0x80 + cp % 0x40]
    else if cp < 0x1_0000 then [0xE0 + cp / 0x1000, 0x80 + (cp / 0x40) % 0x40, 0x80 + cp % 0x40]
    else [0xF0 + cp / 0x4_0000, 0x80 + (cp / 0x1000) % 0x40, 0x80 + (cp / 0x40) % 0x40, 0x80 + cp % 0x40]
  }

  /** `len_utf8` is the length of the encoding. */
  lemma WidthIsEncodedLength(c: char)
    ensures Width(c) == |EncodeChar(c)|
  {
  }

  /** The UTF-8 encoding of a string: what a Rust `str` holds in memory. */
  function Encode(s: seq<char>): (bs: seq<byte>)
  {
    if |s| == 0 then [] else EncodeChar(s[0]) + Encode(s[1..])
  }

  /** Byte length of a string (Rust's `str::len`). */
  function ByteLen(s: seq<char>): (r: nat)
  {
    if |s| == 0 then 0 else Width(s[0]) + ByteLen(s[1..])
  }

  lemma {:induction false} EncodeLength(s: seq<char>)
    ensures |Encode(s)| == ByteLen(s)
  {
    if |s| > 0 {
      WidthIsEncodedLength(s[0]);
      EncodeLength(s[1..]);
    }
  }

  lemma {:induction false} EncodeAppend(a: seq<char>, b: seq<char>)
    ensures Encode(a + b) == Encode(a) + Encode(b)
  {
    if |a| > 0 {
      assert (a + b)[1..] == a[1..] + b;
      EncodeAppend(a[1..], b);
    } else {
      assert a + b == b;
    }
  }

  lemma {:induction false} ByteLenAppend(a: seq<char>, b: seq<char>)
    ensures ByteLen(a + b) == ByteLen(a) + ByteLen(b)
  {
    EncodeAppend(a, b);
    EncodeLength(a + b);
    EncodeLength(a);
    EncodeLength(b);
  }

  /** A byte offset into `bs` at which a Rust `str` may be sliced: the end, or the
      first byte of an encoded character. */
  predicate IsCharBoundary(bs: seq<byte>, b: nat) {
    b == |bs| || (b < |bs| && !IsContinuation(bs[b]))
  }

  /** Every prefix of whole characters ends on a character boundary. */
  lemma PrefixIsBoundary(s: seq<char>, k: nat)
    requires k <= |s|
    ensures IsCharBoundary(Encode(s), ByteLen(s[..k]))
  {
    assert s == s[..k] + s[k..];
    EncodeAppend(s[..k], s[k..]);
    EncodeLength(s[..k]);
    CharToBytePosIsPrefixLength(s, k);
    EncodeLength(s);
    if k < |s| {
      assert Encode(s[k..]) == EncodeChar(s[k]) + Encode(s[k..][1..]);
    }
  }

  /** `s.chars().take(char_pos).map(char::len_utf8).sum()`: the bytes taken by the
      first `char_pos` characters of `s`, all of them when `s` is shorter. */
  function CharToBytePos(s: seq<char>, charPos: nat): (r: nat)
    ensures r == 0 <==> charPos == 0 || |s| == 0
    ensures r <= 4 * charPos
  {
    if charPos == 0 || |s| == 0 then 0 else Width(s[0]) + CharToBytePos(s[1..], charPos - 1)
  }

  /** The converted position is the byte length of the first `charPos` characters
      (of all of them when the string is shorter), so never past the string's end. */
  lemma {:induction false} CharToBytePosIsPrefixLength(s: seq<char>, charPos: nat)
    ensures CharToBytePos(s, charPos) == ByteLen(s[..Min(charPos, |s|)])
    ensures CharToBytePos(s, charPos) <= ByteLen(s)
  {
    if charPos > 0 && |s| > 0 {
      CharToBytePosIsPrefixLength(s[1..], charPos - 1);
      assert s[..Min(charPos, |s|)][1..] == s[1..][..Min(charPos - 1, |s| - 1)];
    }
  }

  /** Columns counted after a prefix `a` add their bytes to those of `a`. */
  lemma {:induction false} CharToBytePosAfter(a: seq<char>, b: seq<char>, c: nat)
    ensures CharToBytePos(a + b, |a| + c) == ByteLen(a) + CharToBytePos(b, c)
  {
    if |a| == 0 {
      assert a + b == b;
    } else {
      assert (a + b)[1..] == a[1..] + b;
      CharToBytePosAfter(a[1..], b, c);
    }
  }

  lemma CharToBytePosZero(s: seq<char>)
    ensures CharToBytePos(s, 0) == 0
  {
  }

  /** Past the end of the string the position saturates at its byte length. */
  lemma CharToBytePosSaturates(s: seq<char>, c: nat)
    requires c >= |s|
    ensures CharToBytePos(s, c) == ByteLen(s)
  {
    CharToBytePosIsPrefixLength(s, c);
    assert s[..|s|] == s;
  }

  /** More characters never take fewer bytes. */
  lemma {:induction false} CharToBytePosMonotone(s: seq<char>, c1: nat, c2: nat)
    requires c1 <= c2
    ensures CharToBytePos(s, c1) <= CharToBytePos(s, c2)
  {
    if c1 > 0 && |s| > 0 {
      CharToBytePosMonotone(s[1..], c1 - 1, c2 - 1);
    }
  }

  /** Each additional character inside the string adds at least one byte. */
  lemma {:induction false} CharToBytePosStrict(s: seq<char>, c1: nat, c2: nat)
    requires c1 < c2 <= |s|
    ensures CharToBytePos(s, c1) < CharToBytePos(s, c2)
  {
    if c1 > 0 {
      CharToBytePosStrict(s[1..], c1 - 1, c2 - 1);
    }
  }

  /** The converted position always lands on a character boundary of the encoding. */
  lemma CharToBytePosOnBoundary(s: seq<char>, c: nat)
    ensures IsCharBoundary(Encode(s), CharToBytePos(s, c))
  {
    CharToBytePosIsPrefixLength(s, c);
    PrefixIsBoundary(s, Min(c, |s|));
  }

  /** The converted position is a valid slicing offset into the encoding. */
  lemma ConvertedInEncoding(s: seq<char>, c: nat)
    ensures CharToBytePos(s, c) <= |Encode(s)|
    ensures IsCharBoundary(Encode(s), CharToBytePos(s, c))
  {
    EncodeLength(s);
    CharToBytePosIsPrefixLength(s, c);
    CharToBytePosOnBoundary(s, c);
  }

  /** The encoding splits at the converted position of any column inside the string. */
  lemma EncodeSplit(s: seq<char>, k: nat)
    requires k <= |s|
    ensures Encode(s) == Encode(s[..k]) + Encode(s[k..])
    ensures |Encode(s[..k])| == CharToBytePos(s, k)
  {
    assert s == s[..k] + s[k..];
    EncodeAppend(s[..k], s[k..]);
    EncodeLength(s[..k]);
    CharToBytePosIsPrefixLength(s, k);
  }

  /** The bytes between two converted columns are exactly the encoding of the
      characters between them: slicing by the computed range and decoding gives
      back the annotated text. */
  lemma SliceRoundTrip(s: seq<char>, i: nat, j: nat)
    requires i <= j <= |s|
    ensures CharToBytePos(s, i) <= CharToBytePos(s, j) <= |Encode(s)|
    ensures Encode(s)[CharToBytePos(s, i)..CharToBytePos(s, j)] == Encode(s[i..j])
  {
    EncodeSplit(s, j);
    EncodeSplit(s[..j], i);
    assert s[..j][..i] == s[..i];
    assert s[..j][i..] == s[i..j];
    EncodeSplit(s, i);
    var a, b, c := Encode(s[..i]), Encode(s[i..j]), Encode(s[j..]);
    assert Encode(s) == (a + b) + c;
    assert |a + b| == CharToBytePos(s, j);
    assert ((a + b) + c)[|a|..|a + b|] == b;
  }

  /** `&s[b..]` on a Rust `str`: `None` where Rust panics, that is when `b` is past
      the end or not on a character boundary. */
  function SliceFrom(s: seq<char>, b: nat): (r: Option<seq<char>>)
    ensures r.Some? ==> |r.value| <= |s| && b + ByteLen(r.value) == ByteLen(s)
  {
    if b == 0 then
      Some(s)
    else if |s| == 0 then
      None
    else if b < Width(s[0]) then
      None
    else
      SliceFrom(s[1..], b - Width(s[0]))
  }

  /** Slicing succeeds exactly at the character boundaries of the encoding, and
      the slice holds the encoding's bytes from `b` on. */
  lemma {:induction false} SliceFromSpec(s: seq<char>, b: nat)
    ensures SliceFrom(s, b).Some? <==> IsCharBoundary(Encode(s), b)
    ensures SliceFrom(s, b).Some? ==> Encode(SliceFrom(s, b).value) == Encode(s)[b..]
  {
    EncodeLength(s);
    if b > 0 && |s| > 0 {
      var w := Width(s[0]);
      WidthIsEncodedLength(s[0]);
      assert Encode(s) == EncodeChar(s[0]) + Encode(s[1..]);
      EncodeLength(s[1..]);
      if b >= w {
        SliceFromSpec(s[1..], b - w);
      }
    }
  }

  /** Slicing a concatenation right after its first part yields the second part. */
  lemma {:induction false} SliceFromAppend(a: seq<char>, b: seq<char>)
    ensures SliceFrom(a + b, ByteLen(a)) == Some(b)
  {
    if |a| == 0 {
      assert a + b == b;
    } else {
      var w := Width(a[0]);
      assert (a + b)[0] == a[0] && (a + b)[1..] == a[1..] + b;
      assert ByteLen(a) == w + ByteLen(a[1..]);
      SliceFromAppend(a[1..], b);
      assert SliceFrom(a + b, ByteLen(a)) == SliceFrom(a[1..] + b, ByteLen(a[1..]));
    }
  }
}
