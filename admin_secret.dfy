/**
  The one-day administrator token of generate_secret.py: the plaintext
  `{YYYY-MM-DD}_{secret}_xy521`, padded with PKCS#7 and encrypted with
  AES-256-CBC under the SHA-256 digest of the secret, framed as IV || ciphertext
  and rendered in lowercase hex.

  The clock and the random source are parameters (`today`, `iv`); SHA-256 and
  the AES block function are the fields of `Primitives`, known only through
  their sizes and, where a proof needs it, the inverse of AES under one key.
  The secret is given as its UTF-8 bytes; every other character of the
  plaintext is ASCII, so the UTF-8 encoding of the whole is this byte string.
 */
module AdminSecret {
  import opened Wrappers
  import opened Bytes
  import opened DateStamp
  import Pkcs7
  import Cbc
  import Hex

  /** The library primitives: a 32-byte digest, a 16-byte block in and out, and AES's inverse. */
  datatype Primitives = Primitives(
    sha256: seq<byte> -> Key,
    aesEncrypt: (Key, Block) -> Block,
    aesDecrypt: (Key, Block) -> Block)

  /** AES decryption undoes AES encryption under `key`. */
  ghost predicate InvertsUnder(prims: Primitives, key: Key) {
    forall b: Block :: prims.aesDecrypt(key, prims.aesEncrypt(key, b)) == b
  }

  /** The fixed tail of every plaintext. */
  const Suffix: string := "_xy521"

  /** The length of the date stamp with the underscore after it. */
  const StampLength: nat := 11

  /** Step 1 (lines 15-16), encoded as in line 26: stamp, '_', the secret verbatim, "_xy521". */
  function PlainText(today: Date, secret: seq<byte>): (p: seq<byte>)
    requires ValidDate(today)
    ensures |p| == |secret| + 17
    ensures forall i :: 0 <= i < 10 ==> p[i] == FormatDate(today)[i] as int
    ensures p[10] == '_' as int
    ensures p[StampLength..StampLength + |secret|] == secret
    ensures forall i :: 0 <= i < 6 ==> p[StampLength + |secret| + i] == Suffix[i] as int
  {
    AsciiBytes(FormatDate(today) + "_") + secret + AsciiBytes(Suffix)
  }

  /**
    How a reader of a plaintext takes it apart: the stamp has a fixed width and
    the suffix a fixed text, so an underscore inside the secret is never a
    separator and no escaping is needed.
   */
  function SplitPlainText(p: seq<byte>): (r: Option<(Date, seq<byte>)>)
    ensures r.Some? ==> ValidDate(r.value.0) && |p| == |r.value.1| + 17
    ensures r.Some? ==> p[10] == '_' as int
    ensures r.Some? ==> forall i :: 0 <= i < 6 ==> p[|p| - 6 + i] == Suffix[i] as int
  {
    if |p| < 17 || p[10] != '_' as int || p[|p| - 6..] != AsciiBytes(Suffix) then None
    else match ParseDate(ByteChars(p[..10]))
      case None => None
      case Some(d) => Some((d, p[StampLength..|p| - 6]))
  }

  /** A plaintext splits back into the date and the secret it was made from. */
  lemma SplitPlainTextOf(today: Date, secret: seq<byte>)
    requires ValidDate(today)
    ensures SplitPlainText(PlainText(today, secret)) == Some((today, secret))
  {
    var p := PlainText(today, secret);
    var stamp := FormatDate(today);
    assert p[..10] == AsciiBytes(stamp) by {
      forall i | 0 <= i < 10
        ensures p[..10][i] == AsciiBytes(stamp)[i]
      {
        assert p[..10][i] == p[i];
      }
    }
    assert p[|p| - 6..] == AsciiBytes(Suffix) by {
      forall i | 0 <= i < 6
        ensures p[|p| - 6..][i] == AsciiBytes(Suffix)[i]
      {
        assert p[|p| - 6..][i] == p[StampLength + |secret| + i];
      }
    }
    ByteCharsOfAscii(stamp);
    ParseFormatDate(today);
  }

  /** Whatever splits is the plaintext of its parts. */
  lemma PlainTextOfSplit(p: seq<byte>)
    requires SplitPlainText(p).Some?
    ensures PlainText(SplitPlainText(p).value.0, SplitPlainText(p).value.1) == p
  {
    var (d, secret) := SplitPlainText(p).value;
    var stamp := ByteChars(p[..10]);
    FormatParseDate(stamp);
    var q := PlainText(d, secret);
    assert |q| == |p|;
    forall i | 0 <= i < |p|
      ensures q[i] == p[i]
    {
      if i < 10 {
        assert q[i] == q[..10][i] && p[i] == p[..10][i];
        assert q[i] == stamp[i] as int;
      } else if StampLength <= i < StampLength + |secret| {
        assert q[i] == q[StampLength..StampLength + |secret|][i - StampLength];
      } else if i >= StampLength + |secret| {
        assert q[i] == q[StampLength + |secret|..][i - StampLength - |secret|];
        assert p[i] == p[|p| - 6..][i - StampLength - |secret|];
      }
    }
  }

  /** Different days or different secrets never share a plaintext. */
  lemma PlainTextInjective(d1: Date, s1: seq<byte>, d2: Date, s2: seq<byte>)
    requires ValidDate(d1) && ValidDate(d2)
    ensures PlainText(d1, s1) == PlainText(d2, s2) ==> d1 == d2 && s1 == s2
  {
    SplitPlainTextOf(d1, s1);
    SplitPlainTextOf(d2, s2);
  }

  /** Step 2 (line 19): the key is the digest of the secret alone. */
  function DeriveKey(prims: Primitives, secret: seq<byte>): Key {
    prims.sha256(secret)
  }

  /** Steps 1-5 (lines 15-31): the CBC ciphertext of the padded plaintext. */
  function Ciphertext(prims: Primitives, today: Date, secret: seq<byte>, iv: Block): (c: seq<byte>)
    requires ValidDate(today)
    ensures |c| == |Pkcs7.Pad(PlainText(today, secret))|
    ensures |c| % BlockSize == 0 && |c| > |secret| + 17
  {
    var padded := Pkcs7.Pad(PlainText(today, secret));
    Cbc.AesCbcEncrypt(prims.aesEncrypt, DeriveKey(prims, secret), iv, padded).value
  }

  /**
    Every ciphertext block is AES under the key derived from the secret, of the
    padded plaintext block XOR the previous ciphertext block (the IV for the
    first): the day and the IV change what is encrypted, never the key.
   */
  lemma CiphertextBlock(prims: Primitives, today: Date, secret: seq<byte>, iv: Block, j: nat)
    requires ValidDate(today)
    requires 16 * j + 16 <= |Pkcs7.Pad(PlainText(today, secret))|
    ensures var padded := Pkcs7.Pad(PlainText(today, secret));
      var c := Ciphertext(prims, today, secret, iv);
      && 16 * j + 16 <= |c|
      && Cbc.BlockAt(c, j)
         == prims.aesEncrypt(DeriveKey(prims, secret), Xor(Cbc.ChainInput(iv, c, j), Cbc.BlockAt(padded, j)))
  {
    var padded := Pkcs7.Pad(PlainText(today, secret));
    Cbc.EncryptChainBlock(prims.aesEncrypt, DeriveKey(prims, secret), iv, padded, j);
  }

  /** Hex of one IV block and whole ciphertext blocks spans whole multiples of 32 characters. */
  lemma FramedLength(n: nat, hexLength: nat)
    requires n % BlockSize == 0 && n > 0 && hexLength == 2 * (BlockSize + n)
    ensures hexLength % 32 == 0 && hexLength >= 64
  {
    var k := n / 16;
    assert hexLength == 32 * (k + 1);
  }

  /** Step 6 before the hex (line 34): the IV followed by the ciphertext. */
  function Frame(prims: Primitives, today: Date, secret: seq<byte>, iv: Block): (raw: seq<byte>)
    requires ValidDate(today)
    ensures |raw| % BlockSize == 0 && |raw| >= 2 * BlockSize
    ensures raw[..16] == iv && raw[16..] == Ciphertext(prims, today, secret, iv)
  {
    var c := Ciphertext(prims, today, secret, iv);
    AlignedAppend(iv, c);
    iv + c
  }

  /** generate_admin_secret (lines 13-41): the lowercase hex of IV || ciphertext. */
  function GenerateAdminSecret(prims: Primitives, today: Date, secret: seq<byte>, iv: Block): (token: string)
    requires ValidDate(today)
    ensures |token| == 2 * (BlockSize + |Ciphertext(prims, today, secret, iv)|)
    ensures |token| % 32 == 0 && |token| >= 64
    ensures Hex.AllLowerHex(token)
  {
    var c := Ciphertext(prims, today, secret, iv);
    var token := Hex.HexEncode(Frame(prims, today, secret, iv));
    FramedLength(|c|, |token|);
    token
  }

  /** The first 32 characters of a token are the hex of the IV and the rest that of the ciphertext. */
  lemma TokenLayout(prims: Primitives, today: Date, secret: seq<byte>, iv: Block)
    requires ValidDate(today)
    ensures var token := GenerateAdminSecret(prims, today, secret, iv);
      && token[..32] == Hex.HexEncode(iv)
      && token[32..] == Hex.HexEncode(Ciphertext(prims, today, secret, iv))
  {
    var raw := Frame(prims, today, secret, iv);
    assert raw == raw[..16] + raw[16..];
    Hex.HexEncodeAppend(raw[..16], raw[16..]);
  }

  /** What the verifying side does with the bytes of a token: CBC-decrypt after the IV, then unpad. */
  function OpenFrame(prims: Primitives, key: Key, raw: seq<byte>): (r: Option<seq<byte>>)
    ensures r.Some? ==> |raw| % BlockSize == 0 && |r.value| < |raw| - BlockSize
  {
    if |raw| < BlockSize || |raw| % BlockSize != 0 then None
    else Pkcs7.Unpad(Cbc.DecryptChain(prims.aesDecrypt, key, raw[..16], raw[16..]))
  }

  /** With the key derived from the same secret, opening a frame returns exactly its plaintext. */
  lemma OpenFrameOf(prims: Primitives, today: Date, secret: seq<byte>, iv: Block)
    requires ValidDate(today)
    requires InvertsUnder(prims, DeriveKey(prims, secret))
    ensures OpenFrame(prims, DeriveKey(prims, secret), Frame(prims, today, secret, iv))
      == Some(PlainText(today, secret))
  {
    var key := DeriveKey(prims, secret);
    var plain := PlainText(today, secret);
    var padded := Pkcs7.Pad(plain);
    assert Ciphertext(prims, today, secret, iv) == Cbc.EncryptChain(prims.aesEncrypt, key, iv, padded);
    Cbc.DecryptEncryptChain(prims.aesEncrypt, prims.aesDecrypt, key, iv, padded);
    Pkcs7.UnpadPad(plain);
  }

  /** The verifying side on a token: decode the hex, then open the frame. */
  function DecryptToken(prims: Primitives, key: Key, token: string): (r: Option<seq<byte>>)
    ensures r.Some? ==> Hex.IsHexString(token)
    ensures r.Some? ==> |token| % 32 == 0 && 2 * |r.value| < |token| - 32
  {
    match Hex.HexDecode(token)
    case None => None
    case Some(raw) => OpenFrame(prims, key, raw)
  }

  /**
    The verifying side reads a token back: its first 32 characters decode to
    the IV, and decrypting under the key derived from the same secret returns
    the plaintext, which SplitPlainTextOf takes apart into the day and the
    secret. The key depends on neither the day nor the IV.
   */
  lemma TokenRoundTrip(prims: Primitives, today: Date, secret: seq<byte>, iv: Block)
    requires ValidDate(today)
    requires InvertsUnder(prims, DeriveKey(prims, secret))
    ensures var token := GenerateAdminSecret(prims, today, secret, iv);
      && Hex.HexDecode(token[..32]) == Some(iv)
      && DecryptToken(prims, DeriveKey(prims, secret), token) == Some(PlainText(today, secret))
  {
    TokenLayout(prims, today, secret, iv);
    Hex.HexDecodeEncode(iv);
    Hex.HexDecodeEncode(Frame(prims, today, secret, iv));
    OpenFrameOf(prims, today, secret, iv);
  }

  /** Tokens of one secret and one day differ with the IV but carry the same plaintext. */
  lemma SameDayTokens(prims: Primitives, today: Date, secret: seq<byte>, iv1: Block, iv2: Block)
    requires ValidDate(today)
    requires InvertsUnder(prims, DeriveKey(prims, secret))
    ensures var key := DeriveKey(prims, secret);
      DecryptToken(prims, key, GenerateAdminSecret(prims, today, secret, iv1))
      == DecryptToken(prims, key, GenerateAdminSecret(prims, today, secret, iv2))
    ensures iv1 != iv2 ==>
      GenerateAdminSecret(prims, today, secret, iv1) != GenerateAdminSecret(prims, today, secret, iv2)
  {
    TokenRoundTrip(prims, today, secret, iv1);
    TokenRoundTrip(prims, today, secret, iv2);
  }
}
