/**
  PKCS#7 padding to the 16-byte AES block (section 6.3 of RFC 5652, also
  section 10.3 of RFC 2315): between 1 and 16 bytes are appended, each equal
  to the number appended, so that a block-aligned input gains a whole block.
 */
module Pkcs7 {
  import opened Wrappers
  import opened Bytes

  /** The padder's `update(data) + finalize()` of generate_secret.py line 26. */
  function Pad(data: seq<byte>): (r: seq<byte>)
    ensures |r| % BlockSize == 0
    ensures |data| < |r| <= |data| + BlockSize
    ensures r[..|data|] == data
    ensures forall i :: |data| <= i < |r| ==> r[i] == |r| - |data|
  {
    var n := BlockSize - |data| % BlockSize;
    var padding: seq<byte> := seq(n, _ => n);
    data + padding
  }

  /** The last byte names a padding length 1..16 and the bytes it names all carry it. */
  predicate WellPadded(data: seq<byte>) {
    && |data| > 0
    && |data| % BlockSize == 0
    && 1 <= data[|data| - 1] <= BlockSize
    && forall i :: |data| - data[|data| - 1] <= i < |data| ==> data[i] == data[|data| - 1]
  }

  /** Removes PKCS#7 padding; fails on input that no plaintext pads to. */
  function Unpad(data: seq<byte>): (r: Option<seq<byte>>)
    ensures r.Some? <==> WellPadded(data)
    ensures r.Some? ==> |data| - BlockSize <= |r.value| < |data| && r.value == data[..|r.value|]
  {
    if WellPadded(data) then Some(data[..|data| - data[|data| - 1]]) else None
  }

  /** Removing the padding returns the original bytes exactly. */
  lemma UnpadPad(data: seq<byte>)
    ensures Unpad(Pad(data)) == Some(data)
  {
    var p := Pad(data);
    assert p[|p| - 1] == |p| - |data|;
  }

  /** Padding is undone only by its own output: what unpads to x is Pad(x). */
  lemma PadUnpad(padded: seq<byte>, data: seq<byte>)
    requires Unpad(padded) == Some(data)
    ensures Pad(data) == padded
  {
    var n := padded[|padded| - 1];
    var p := Pad(data);
    assert |data| == |padded| - n;
    assert |data| % BlockSize == BlockSize - n by {
      assert (|data| + n) % BlockSize == 0;
    }
    assert |p| == |padded|;
    forall i | 0 <= i < |p|
      ensures p[i] == padded[i]
    {
      if i < |data| {
        assert p[i] == p[..|data|][i];
      }
    }
  }

  /** A block-aligned input gains a full block of sixteen 0x10 bytes. */
  lemma PadAligned(data: seq<byte>)
    requires |data| % BlockSize == 0
    ensures Pad(data) == data + seq(16, _ => 0x10)
  {
    var p := Pad(data);
    var q := data + seq(16, _ => 0x10);
    assert |p| == |q|;
    forall i | 0 <= i < |p|
      ensures p[i] == q[i]
    {
      if i < |data| {
        assert p[i] == p[..|data|][i];
      }
    }
  }
}
