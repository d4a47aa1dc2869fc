/**
  Base16 (section 8 of RFC 4648): each byte becomes two hexadecimal digits,
  high nibble first. Encoding emits lowercase only, as Python's bytes.hex()
  does; decoding accepts either case.
 */
module Hex {
  import opened Wrappers
  import opened Bytes

  predicate IsLowerHex(c: char) {
    '0' <= c <= '9' || 'a' <= c <= 'f'
  }

  predicate AllLowerHex(s: string) {
    forall i :: 0 <= i < |s| ==> IsLowerHex(s[i])
  }

  function HexDigit(n: int): (c: char)
    requires 0 <= n < 16
    ensures IsLowerHex(c)
  {
    if n < 10 then ('0' as int + n) as char else ('a' as int + n - 10) as char
  }

  /** The value of one hexadecimal digit of either case. */
  function NibbleValue(c: char): (r: Option<int>)
    ensures r.Some? ==> 0 <= r.value < 16
    ensures IsLowerHex(c) ==> r.Some?
  {
    if '0' <= c <= '9' then Some(c as int - '0' as int)
    else if 'a' <= c <= 'f' then Some(c as int - 'a' as int + 10)
    else if 'A' <= c <= 'F' then Some(c as int - 'A' as int + 10)
    else None
  }

  lemma NibbleValueOfHexDigit(n: int)
    requires 0 <= n < 16
    ensures NibbleValue(HexDigit(n)) == Some(n)
  {
  }

  lemma HexDigitOfNibbleValue(c: char)
    requires IsLowerHex(c)
    ensures HexDigit(NibbleValue(c).value) == c
  {
  }

  /** The hex() of line 34: two lowercase digits per byte, no separators. */
  function HexEncode(b: seq<byte>): (s: string)
    ensures |s| == 2 * |b|
    ensures AllLowerHex(s)
  {
    if |b| == 0 then ""
    else [HexDigit(b[0] / 16), HexDigit(b[0] % 16)] + HexEncode(b[1..])
  }

  /** An even number of hexadecimal digits, of either case. */
  predicate IsHexString(s: string) {
    |s| % 2 == 0 && forall i :: 0 <= i < |s| ==> NibbleValue(s[i]).Some?
  }

  /** Base16 decoding: fails on an odd length or a character that is not a hex digit. */
  function HexDecode(s: string): (r: Option<seq<byte>>)
    ensures r.Some? <==> IsHexString(s)
    ensures r.Some? ==> 2 * |r.value| == |s|
    decreases |s|
  {
    if |s| == 0 then Some([])
    else if |s| == 1 then None
    else
      assert forall i :: 2 <= i < |s| ==> s[i] == s[2..][i - 2];
      match (NibbleValue(s[0]), NibbleValue(s[1]), HexDecode(s[2..]))
      case (Some(hi), Some(lo), Some(rest)) =>
        var v: byte := hi * 16 + lo;
        Some([v] + rest)
      case _ => None
  }

  /** Encoding distributes over concatenation, so the encoding of a prefix is a prefix. */
  lemma {:induction false} HexEncodeAppend(a: seq<byte>, b: seq<byte>)
    ensures HexEncode(a + b) == HexEncode(a) + HexEncode(b)
  {
    if |a| > 0 {
      assert (a + b)[0] == a[0];
      assert (a + b)[1..] == a[1..] + b;
      HexEncodeAppend(a[1..], b);
    } else {
      assert a + b == b;
    }
  }

  /** Decoding inverts encoding. */
  lemma {:induction false} HexDecodeEncode(b: seq<byte>)
    ensures HexDecode(HexEncode(b)) == Some(b)
  {
    if |b| > 0 {
      var s := HexEncode(b);
      var hi, lo := b[0] / 16, b[0] % 16;
      NibbleValueOfHexDigit(hi);
      NibbleValueOfHexDigit(lo);
      assert s[2..] == HexEncode(b[1..]);
      HexDecodeEncode(b[1..]);
      assert hi * 16 + lo == b[0];
      assert b == [b[0]] + b[1..];
    }
  }

  /** On lowercase text, encoding inverts decoding: the lowercase encoding is unique. */
  lemma {:induction false} HexEncodeDecode(s: string)
    requires AllLowerHex(s) && HexDecode(s).Some?
    ensures HexEncode(HexDecode(s).value) == s
    decreases |s|
  {
    if |s| > 0 {
      var hi, lo := NibbleValue(s[0]).value, NibbleValue(s[1]).value;
      var b := HexDecode(s).value;
      var v := hi * 16 + lo;
      assert b == [v] + HexDecode(s[2..]).value;
      assert v / 16 == hi && v % 16 == lo;
      HexDigitOfNibbleValue(s[0]);
      HexDigitOfNibbleValue(s[1]);
      HexEncodeDecode(s[2..]);
      assert b[1..] == HexDecode(s[2..]).value;
      assert s == [s[0], s[1]] + s[2..];
    }
  }
}
