/** Option and Result, used for the operations that can fail. */
module Wrappers {

  datatype Option<+T> = None | Some(value: T)

  datatype Result<+R, +E> = Success(value: R) | Failure(error: E)
}

/** Bytes, fixed-size byte strings and the ASCII view of text. */
module Bytes {

  type byte = b: int | 0 <= b < 256

  /** The AES block size in bytes (128 bits). */
  const BlockSize: nat := 16

  /** One cipher block: exactly 16 bytes (the block cipher's input and output). */
  type Block = s: seq<byte> | |s| == 16 witness seq(16, _ => 0)

  /** A 256-bit value: a SHA-256 digest, used directly as an AES-256 key. */
  type Key = s: seq<byte> | |s| == 32 witness seq(32, _ => 0)

  function Pow2(n: nat): (r: nat)
    ensures r >= 1
  {
    if n == 0 then 1 else 2 * Pow2(n - 1)
  }

  /** Bitwise exclusive-or of the low `width` bits of x and y, least significant bit first. */
  function XorBits(x: nat, y: nat, width: nat): (r: nat)
    ensures r < Pow2(width)
    decreases width
  {
    if width == 0 then 0
    else (if x % 2 == y % 2 then 0 else 1) + 2 * XorBits(x / 2, y / 2, width - 1)
  }

  /** Exclusive-or with the same value twice gives back the original bits. */
  lemma {:induction false} XorBitsCancel(x: nat, y: nat, width: nat)
    requires y < Pow2(width)
    ensures XorBits(x, XorBits(x, y, width), width) == y
    decreases width
  {
    if width > 0 {
      var z := XorBits(x, y, width);
      assert z % 2 == (if x % 2 == y % 2 then 0 else 1);
      assert z / 2 == XorBits(x / 2, y / 2, width - 1);
      XorBitsCancel(x / 2, y / 2, width - 1);
    }
  }

  /** Exclusive-or of two bytes. */
  function XorByte(x: byte, y: byte): byte {
    assert Pow2(8) == 256;
    XorBits(x, y, 8)
  }

  /** Bytewise exclusive-or of two blocks. */
  function Xor(a: Block, b: Block): (r: Block)
    ensures forall i :: 0 <= i < 16 ==> r[i] == XorByte(a[i], b[i])
  {
    seq(16, i requires 0 <= i < 16 => XorByte(a[i], b[i]))
  }

  /** Exclusive-or with the same block twice gives back the original. */
  lemma XorCancel(a: Block, b: Block)
    ensures Xor(a, Xor(a, b)) == b
  {
    var r := Xor(a, Xor(a, b));
    forall i | 0 <= i < 16
      ensures r[i] == b[i]
    {
      XorBitsCancel(a[i], b[i], 8);
    }
  }

  /** Whole blocks followed by whole blocks are whole blocks. */
  lemma AlignedAppend(a: seq<byte>, b: seq<byte>)
    requires |a| % BlockSize == 0 && |b| % BlockSize == 0
    ensures |a + b| % BlockSize == 0
  {
    assert |a + b| == 16 * (|a| / 16 + |b| / 16);
  }

  predicate IsAscii(s: string) {
    forall i :: 0 <= i < |s| ==> s[i] as int < 128
  }

  /** The encoding of an ASCII string: one byte per character, its code point. */
  function AsciiBytes(s: string): (b: seq<byte>)
    requires IsAscii(s)
    ensures |b| == |s|
    ensures forall i :: 0 <= i < |s| ==> b[i] == s[i] as int
  {
    seq(|s|, i requires 0 <= i < |s| => s[i] as int)
  }

  /** Reads each byte as the character with that code point (Latin-1). */
  function ByteChars(b: seq<byte>): (s: string)
    ensures |s| == |b|
    ensures forall i :: 0 <= i < |b| ==> s[i] as int == b[i]
  {
    seq(|b|, i requires 0 <= i < |b| => b[i] as char)
  }

  /** Reading back the encoding of an ASCII string gives the string. */
  lemma ByteCharsOfAscii(s: string)
    requires IsAscii(s)
    ensures ByteChars(AsciiBytes(s)) == s
  {
    var t := ByteChars(AsciiBytes(s));
    assert |t| == |s|;
    forall i | 0 <= i < |s|
      ensures t[i] == s[i]
    {
      assert t[i] as int == s[i] as int;
    }
  }
}
