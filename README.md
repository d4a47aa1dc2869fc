# Admin token generator: a Dafny model

`generate_secret.py` builds the `admin_secret` token that an operator hands to the
game server. From a shared secret and today's date, `generate_admin_secret` builds it in six steps:

1. it composes the plaintext `{YYYY-MM-DD}_{secret}_xy521`;
2. it takes the AES-256 key as the SHA-256 digest of the secret;
3. it draws a random 16-byte IV;
4. it pads the plaintext with PKCS#7 to the 16-byte block (section 6.3 of RFC 5652);
5. it encrypts with AES-256 in CBC mode (section 6.2 of NIST SP 800-38A);
6. it returns the lowercase hex (section 8 of RFC 4648) of `IV || ciphertext`.

The model is pure: every step is a Dafny function, and the properties are lemmas.

- `Bytes` (bytes.dfy): `byte` (an integer 0..255), the 16-byte `Block`, the 32-byte `Key`, XOR of bytes bit by bit and of blocks byte by byte, the ASCII byte view of text.
- `DateStamp` (date_stamp.dfy): `FormatDate`, the `%Y-%m-%d` stamp of a Gregorian `Date`, and its inverse `ParseDate`.
- `Pkcs7` (pkcs7.dfy): `Pad` and its inverse `Unpad`.
- `Cbc` (cbc.dfy): CBC chaining over an abstract block cipher `(Key, Block) -> Block`. `AesCbcEncrypt` is the encryptor's `update` + `finalize`, which fails on data that is not block-aligned.
- `Hex` (hex.dfy): `HexEncode` (lowercase, like `bytes.hex()`) and `HexDecode` (either case).
- `AdminSecret` (admin_secret.dfy): it composes the steps.
  - `PlainText`, `DeriveKey`, `Ciphertext`, `Frame` and `GenerateAdminSecret` are the generator.
  - `SplitPlainText`, `OpenFrame` and `DecryptToken` are what a verifier would do with a token.
  - The lemmas connect the generator to the verifier side.

The program's inputs that are not data become parameters:

- the clock is a `today: Date`;
- `os.urandom(16)` is an `iv: Block`;
- SHA-256 and the AES block function are the fields of a `Primitives` value, and nothing about them is assumed beyond their types. The digest has 32 bytes, and an AES block goes in and comes out as 16 bytes.

The round-trip lemmas also require `InvertsUnder`: AES decryption undoes AES encryption under the derived key. The secret is its UTF-8 bytes. Every other character of the plaintext is ASCII, so the bytes of `PlainText` are exactly the UTF-8 encoding of the composed string.

`DecryptToken`, `OpenFrame`, `Unpad`, `DecryptChain`, `HexDecode`, `SplitPlainText` and `ParseDate` are not in the source. They are the inverses that the generator's promises are stated against.

`generate_admin_secret` accepts an empty secret; only the command-line shell (generate_secret.py:53) rejects it, so `GenerateAdminSecret` has no non-empty requirement.

## Model

| member | source | states |
|---|---|---|
| DateStamp.FormatDate | generate_secret.py:15 | the stamp has exactly 10 characters: 4, 2 and 2 decimal digits with '-' at positions 4 and 7, all ASCII |
| DateStamp.ParseFormatDate | generate_secret.py:15 | every valid date's stamp parses back to that date |
| DateStamp.FormatParseDate | generate_secret.py:15 | every string that parses is the stamp of the date it parses to |
| DateStamp.FormatDateInjective | generate_secret.py:15 | distinct days have distinct stamps |
| AdminSecret.PlainText | generate_secret.py:15-16 | the plaintext is the 10-byte stamp, '_', the secret byte for byte (underscores included), then "_xy521"; its length is the secret's plus 17 |
| AdminSecret.SplitPlainText | generate_secret.py:16 | succeeds only on byte strings at least 17 long with '_' at index 10 and ending in "_xy521", and then yields a valid date and a secret 17 bytes shorter than the input |
| AdminSecret.SplitPlainTextOf | generate_secret.py:15-16 | a plaintext splits back into exactly its date and secret, whatever the secret contains |
| AdminSecret.PlainTextOfSplit | generate_secret.py:15-16 | every byte string that splits is the plaintext of its parts |
| AdminSecret.PlainTextInjective | generate_secret.py:15-16 | two plaintexts are equal only for the same date and the same secret: no escaping is needed |
| Pkcs7.Pad | generate_secret.py:25-26 | the output length is a multiple of 16 and exceeds the input's by 1 to 16; the input is a prefix; each appended byte equals the number appended |
| Pkcs7.Unpad | generate_secret.py:25-26 | succeeds exactly on well-padded input, and then returns a proper prefix at most 16 bytes shorter |
| Pkcs7.UnpadPad | generate_secret.py:25-26 | removing the padding returns the original bytes exactly |
| Pkcs7.PadUnpad | generate_secret.py:25-26 | any byte string that unpads to x is Pad(x): padding is the unique preimage |
| Pkcs7.PadAligned | generate_secret.py:25-26 | a block-aligned input gains a full block of sixteen 0x10 bytes |
| Cbc.EncryptChain | generate_secret.py:29-31 | the CBC ciphertext of block-aligned data has the data's length, for any IV |
| Cbc.DecryptChain | generate_secret.py:29-31 | CBC decryption preserves length |
| Cbc.AesCbcEncrypt | generate_secret.py:29-31 | the encryptor succeeds exactly on block-aligned data, with output as long as the input |
| Cbc.EncryptChainBlock | generate_secret.py:29-31 | each ciphertext block is the cipher applied to the plaintext block XOR the previous ciphertext block, or XOR the IV for the first block (the equations of SP 800-38A) |
| Cbc.DecryptEncryptChain | generate_secret.py:29-31 | given the cipher's inverse under the key, decrypting with the same key and IV returns the data |
| Hex.HexEncode | generate_secret.py:34 | the hex string is twice as long as the bytes and uses only 0-9a-f |
| Hex.HexDecode | generate_secret.py:34 | succeeds exactly on an even number of hex digits of either case, and then has half as many bytes as characters |
| Hex.HexEncodeAppend | generate_secret.py:34 | encoding distributes over concatenation |
| Hex.HexDecodeEncode | generate_secret.py:34 | decoding inverts encoding |
| Hex.HexEncodeDecode | generate_secret.py:34 | on lowercase input, encoding inverts decoding |
| AdminSecret.Ciphertext | generate_secret.py:19-31 | the ciphertext is as long as the padded plaintext, a multiple of 16, and longer than the plaintext |
| AdminSecret.DeriveKey | generate_secret.py:19 | the key is 32 bytes (its type) and a function of the secret alone: no day or IV enters it |
| AdminSecret.CiphertextBlock | generate_secret.py:19-31 | every ciphertext block is AES under the key derived from the secret, of the padded plaintext block XOR the previous ciphertext block (the IV for the first), for any day and IV |
| AdminSecret.Frame | generate_secret.py:34 | the bytes of a token are the IV then the ciphertext; their length is a multiple of 16 and at least 32, so the part after the IV is a positive multiple of 16 |
| AdminSecret.GenerateAdminSecret | generate_secret.py:13-41 | the token is 2 × (16 + ciphertext length) characters long, a multiple of 32 and at least 64, all in 0-9a-f |
| AdminSecret.TokenLayout | generate_secret.py:34 | the first 32 characters are the hex of the IV and the rest the hex of the ciphertext |
| AdminSecret.OpenFrame | generate_secret.py:29-31 | an opened frame is block-aligned, and its plaintext is shorter than the bytes after the IV |
| AdminSecret.OpenFrameOf | generate_secret.py:19-34 | with the key derived from the secret alone, CBC-decrypting after the IV and unpadding returns the exact plaintext, for any IV and any day |
| AdminSecret.DecryptToken | generate_secret.py:34 | a token that decrypts is hex of a whole number of 16-byte blocks (its length a multiple of 32), and its plaintext is shorter than the bytes after the IV |
| AdminSecret.TokenRoundTrip | generate_secret.py:15-34 | the first 32 characters of a token decode to its IV, and decrypting the token under the key derived from the secret returns the exact plaintext (which AdminSecret.SplitPlainTextOf splits into the day and the secret) |
| AdminSecret.SameDayTokens | generate_secret.py:22-34 | tokens of one secret and day with different IVs differ, yet decrypt under the same key to the same plaintext |

## Left out

- The import check for the `cryptography` package and its `exit(1)` (lines 4-11) are environment validation, not logic.
- The command-line shell is not modelled: reading `sys.argv`, the interactive `input().strip()`, and the message for an empty secret (lines 43-56).
- The console output of lines 36-40 is not modelled.
- `datetime.now()` reads the system clock. The date is a parameter, and so is the local-time-versus-UTC choice that goes with it.
- `os.urandom(16)` is an entropy source. The IV is a parameter. That tokens differ from run to run holds only as far as the IVs differ (`SameDayTokens`), and randomness itself is not modelled.
- The internals of SHA-256 and AES are foreign library code. They are uninterpreted functions with fixed sizes, and AES is known only by its inverse under a key. The known-answer digest of "test" cannot be stated without them.
- The secret is its UTF-8 bytes. `str.encode('utf-8')` failing on a lone surrogate, the encoding error path, is therefore not modelled.
- DateStamp.FormatDate: years 1 to 999 are excluded by `ValidDate`. On some platforms strftime renders `%Y` for them without zero padding, so their stamp has no fixed width.
- Hex.HexDecode: it is strict base16, with no whitespace skipping like Python's `bytes.fromhex`. The source never decodes.
- The server that validates tokens is not part of this model. `DecryptToken` is the inverse the generator's promises are stated against, not a model of that server.
