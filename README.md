# encrypt_qr_data, modelled in Dafny

`qr_generator_enc.py` turns a book's two identifiers into the text of a QR code
in four stages:

1. `json.dumps({"bookId": book_id, "qrId": qr_id})`, encoded as UTF-8;
2. PKCS#7 padding to 128-bit blocks;
3. AES in CBC mode under the fixed `key` and `iv`;
4. Base64.

The model writes each stage as a pure Dafny function in its own module:

- `Json`: the subset of `json.dumps` the source uses, with the full
  `ensure_ascii` escaping.
- `Bytes`: UTF-8 of ASCII text.
- `Pkcs7`: padding.
- `Cbc`: CBC over an abstract block cipher.
- `Base64`: the encoding.

`QrGeneratorEnc` composes the stages. Every stage also gets an inverse that exists only in the model: a JSON parser for json.dumps's object layout, `DecodeAscii`, `Unpad`, CBC decryption and a strict Base64 decoder. With these inverses the model proves that a QR text decrypts back to the two identifiers it was made from.

AES is a parameter. `Cbc.BlockCipher` holds a forward permutation `E_k` and
an inverse `D_k` on 16-byte blocks. Every result holds for any such pair, and
the round trips also require that `D_k` undoes `E_k` (`Cbc.DecryptInverts`).

The identifiers are modelled as strings. Every string is covered: `"`, `\`,
control characters, non-ASCII characters and characters above U+FFFF are
escaped exactly as Python's `json.dumps` escapes them by default. Because of
that escaping, the payload is always printable ASCII. So `.encode('utf-8')`
writes one byte per character, and `.decode('utf-8')` of the Base64 output is
the identity.

Verify all the files together:

    dafny verify wrappers.dfy bytes.dfy json.dfy pkcs7.dfy cbc.dfy base64.dfy qr_generator_enc.dfy

## Model

| member | source | states |
|---|---|---|
| QrGeneratorEnc.KeyAndIv | qr_generator_enc.py:9-10 | `key` and `iv` are each 16 bytes: one AES block, and a valid AES-128 key. They are exactly the bytes of `SaRuAbShKhBa1234` and `InitVector123456`. |
| QrGeneratorEnc.EncryptQrData | qr_generator_enc.py:13-30 | `encrypt_qr_data(book_id, qr_id)` for the fixed `key` and `iv`. It never fails, and its value is the Base64 text of the CBC encryption, under `key` and `iv`, of the PKCS#7-padded UTF-8 bytes of the JSON payload. |
| QrGeneratorEnc.EncryptQrDataWith | qr_generator_enc.py:13-30 | The pipeline with the key and IV as parameters. It succeeds exactly when the key has an AES length (16, 24 or 32 bytes) and the IV has 16 bytes. A bad key gives InvalidKeySize, whatever the IV. The padded payload is always block-aligned, so the encryptor's block-alignment error never occurs. On success the value is the Base64 text of the CBC encryption, under the given key and IV, of the padded payload bytes. |
| QrGeneratorEnc.SourceContext | qr_generator_enc.py:25 | `Cipher(AES(key), CBC(iv))` built from the source's constants holds the given cipher, that key and that IV. |
| QrGeneratorEnc.SourceContextBuilt | qr_generator_enc.py:25 | Building the cipher from the source's constants never fails. |
| QrGeneratorEnc.EncryptQrDataStages | qr_generator_enc.py:13-30 | `encrypt_qr_data` is Base64 of CBC-encrypting the PKCS#7-padded payload bytes under `key` and `iv`. The padded bytes are block-aligned, so the encryptor succeeds. |
| QrGeneratorEnc.Payload | qr_generator_enc.py:15-18 | json.dumps always writes printable ASCII, whatever the identifiers contain. |
| QrGeneratorEnc.PayloadText | qr_generator_enc.py:15-18 | The payload is exactly `{"bookId": "<book_id>", "qrId": "<qr_id>"}` with both identifiers escaped: `bookId` first, then `qrId`, with the default separators. |
| QrGeneratorEnc.PayloadLength | qr_generator_enc.py:15-18 | The payload is 26 characters longer than the two escaped identifiers together. |
| QrGeneratorEnc.PlainIdsLength | qr_generator_enc.py:15-18 | Identifiers of printable ASCII without `"` or `\` are written unchanged, so the payload is 26 characters longer than the two of them together. |
| QrGeneratorEnc.ParsePayload | qr_generator_enc.py:15-18 | Parsing the payload gives back exactly the two members, in the source's order. |
| QrGeneratorEnc.PrintableIsAscii | qr_generator_enc.py:18 | Printable text is ASCII, so `.encode('utf-8')` of the payload writes one byte per character. |
| QrGeneratorEnc.ReadPadded | qr_generator_enc.py:18-22 | Unpadding the padded payload gives its bytes back, and those bytes read back as the payload text. |
| QrGeneratorEnc.PayloadBytes | qr_generator_enc.py:18 | `.encode('utf-8')` of the payload: one byte per character (the byte values are given by Bytes.EncodeAscii). |
| QrGeneratorEnc.PaddedAligned | qr_generator_enc.py:21-22 | The padded payload is a whole number of AES blocks. |
| QrGeneratorEnc.EncryptQrDataShape | qr_generator_enc.py:21-30 | The QR text is well-formed Base64 of 16 * (n / 16 + 1) bytes, where n is the payload's length. Its length is 4 * ceil of that over 3. Alphabet characters are followed by a run of at most two `=`. |
| QrGeneratorEnc.EncryptQrDataLength | qr_generator_enc.py:21-30 | The QR text's length depends only on the payload's length n: it is TextLength(n). |
| QrGeneratorEnc.ExampleLength | qr_generator_enc.py:46 | For the demo call `encrypt_qr_data("BK01", "SUBJ08")`, the payload is 36 bytes and the QR text 64 characters (48 bytes of ciphertext), whatever the AES permutation. |
| QrGeneratorEnc.CiphertextPrefix | qr_generator_enc.py:21-27 | Two payloads that agree on their first k blocks, and are both at least that long, give ciphertexts that agree on their first k blocks. |
| QrGeneratorEnc.DecryptEncryptQrData | qr_generator_enc.py:13-30 | If D_k inverts E_k, then Base64-decoding, decrypting, unpadding and parsing a QR text gives back exactly the two identifiers it was made from. |
| QrGeneratorEnc.EncryptQrDataInjective | qr_generator_enc.py:13-30 | If D_k inverts E_k, different identifier pairs never give the same QR text. |
| Bytes.EncodeAscii | qr_generator_enc.py:18 | ASCII text becomes one byte per character, holding its code point. |
| Bytes.DecodeAscii | qr_generator_enc.py:18 | Bytes read as ASCII text succeed exactly when every byte is below 0x80. The text has one character per byte. |
| Bytes.DecodeEncodeAscii | qr_generator_enc.py:18 | Reading the UTF-8 bytes of ASCII text gives the text back. |
| Bytes.EncodeAsciiInjective | qr_generator_enc.py:18 | Different ASCII texts have different bytes. |
| Json.DumpsObject | qr_generator_enc.py:15-18 | `json.dumps` of a string-valued object: `{`, the members joined by `", "`, `}`. What the text means is fixed by Json.ParseDumpsObject and Json.DumpsObjectPrintable. |
| Json.EscapeChar | qr_generator_enc.py:15-18 | The escape written for one character is printable text. It is one character long exactly when the character is printable ASCII other than `"` and `\`, and then it is that character. |
| Json.Escape | qr_generator_enc.py:15-18 | An escaped string body is printable text and is never shorter than the string. |
| Json.EscapePlain | qr_generator_enc.py:15-18 | A string of printable ASCII without `"` or `\` is written unchanged. |
| Json.HighSurrogate | qr_generator_enc.py:15-18 | A character above U+FFFF has its high surrogate in D800-DBFF. |
| Json.LowSurrogate | qr_generator_enc.py:15-18 | A character above U+FFFF has its low surrogate in DC00-DFFF. |
| Json.CombineSplitSurrogates | qr_generator_enc.py:15-18 | A character's surrogate pair combines back to that character. |
| Json.ParseHex4Hex4 | qr_generator_enc.py:15-18 | The four hexadecimal digits written for a code unit read back as that code unit. |
| Json.ShortUnescapeEscape | qr_generator_enc.py:15-18 | Each two-character escape (`\"`, `\\`, `\b`, `\f`, `\n`, `\r`, `\t`) reads back as the character it stands for. |
| Json.ParseEscapeChar | qr_generator_enc.py:15-18 | One escaped character reads back as that character, using exactly its escape's length, whatever text follows. |
| Json.ParseEscaped | qr_generator_enc.py:15-18 | An escaped string followed by its closing quote reads back as that string, whatever text follows. |
| Json.MemberText | qr_generator_enc.py:15-18 | A member is `"key": "value"` with both sides escaped: 6 characters more than the two escaped bodies. |
| Json.MembersPrintable | qr_generator_enc.py:15-18 | Members joined by `", "` are printable text. |
| Json.DumpsObjectPrintable | qr_generator_enc.py:15-18 | Under `ensure_ascii`, json.dumps of a string-valued object writes only printable ASCII. |
| Json.ParseMemberOf | qr_generator_enc.py:15-18 | One `"key": "value"` member reads back as its key and value, using exactly the member's length, whatever text follows. |
| Json.ParseMembersOf | qr_generator_enc.py:15-18 | One or more members joined by `", "` and followed by `}` read back as exactly those members, in order (the empty object is covered by Json.ParseDumpsObject). |
| Json.ParseDumpsObject | qr_generator_enc.py:15-18 | Parsing json.dumps of a string-valued object gives the object's members back, in insertion order. |
| Json.DumpsObjectInjective | qr_generator_enc.py:15-18 | json.dumps gives different texts for different string-valued objects. |
| Pkcs7.Pad | qr_generator_enc.py:21-22 | The padded output is a whole number of 16-byte blocks. It is 1 to 16 bytes longer than the input, and a full block longer when the input is already aligned. The input is an unchanged prefix. Every appended byte equals the number of bytes appended. |
| Pkcs7.PadCount | qr_generator_enc.py:21-22 | The padder appends 1 to 16 bytes, which always reach a block boundary, and a whole block to an aligned input. |
| Pkcs7.PaddedLength | qr_generator_enc.py:21-22 | Padding n bytes gives 16 * (n / 16 + 1) bytes, the next multiple of 16 strictly above n. |
| Pkcs7.Unpad | qr_generator_enc.py:21-22 | A successful unpad removes 1 to 16 bytes from the end and keeps the rest as a prefix. |
| Pkcs7.UnpadChecks | qr_generator_enc.py:21-22 | Unpad accepts only a non-empty, whole number of blocks whose last n bytes all equal n, for n from 1 to 16. It drops exactly those n bytes. |
| Pkcs7.UnpadPad | qr_generator_enc.py:21-22 | Unpadding the padded data returns the data exactly. |
| Pkcs7.PadUnpad | qr_generator_enc.py:21-22 | Whatever unpads successfully is the padding of its result, so Unpad accepts exactly what the padder can produce. |
| Pkcs7.PadCountOfAligned | qr_generator_enc.py:21-22 | Taking n (1 to 16) bytes off a whole number of blocks leaves a length to which the padder adds back exactly n bytes. |
| Pkcs7.PadPrefix | qr_generator_enc.py:21-22 | Padding keeps every prefix of the input. |
| Pkcs7.PadInjective | qr_generator_enc.py:21-22 | Different inputs have different paddings. |
| Cbc.NewContext | qr_generator_enc.py:25 | Building the cipher succeeds exactly when the key has an AES length (16, 24 or 32 bytes) and the IV is one block. The key is checked first. The context holds the given cipher, key and IV. |
| Cbc.Encrypt | qr_generator_enc.py:26-27 | The encryptor succeeds exactly on a whole number of blocks, and fails with NotBlockAligned otherwise. The ciphertext has the length of the plaintext. |
| Cbc.XorCancel | qr_generator_enc.py:25-27 | XOR-ing with the same block twice cancels. |
| Cbc.EncryptBlocks | qr_generator_enc.py:25-27 | CBC ciphertext has the length of its plaintext. |
| Cbc.EncryptBlockAt | qr_generator_enc.py:25-27 | Ciphertext block i is E_k(P_i xor C_{i-1}), with C_{-1} the IV. |
| Cbc.EncryptBlocksAppend | qr_generator_enc.py:25-27 | Encrypting p followed by q is encrypting p, then q chained on the last ciphertext block of p. |
| Cbc.EncryptPrefix | qr_generator_enc.py:25-27 | The ciphertext of a block-aligned prefix does not depend on what follows it. |
| Cbc.EncryptSharedPrefix | qr_generator_enc.py:25-27 | Aligned plaintexts that agree on their first k blocks have ciphertexts that agree on their first k blocks. |
| Cbc.DecryptBlocks | qr_generator_enc.py:25-27 | CBC decryption keeps the length. |
| Cbc.Decrypt | qr_generator_enc.py:25-27 | The decryptor succeeds exactly on a whole number of blocks and keeps the length. |
| Cbc.DecryptEncrypt | qr_generator_enc.py:25-27 | If D_k inverts E_k, CBC decryption with the same key and IV recovers the plaintext exactly. |
| Cbc.EncryptDecrypt | qr_generator_enc.py:25-27 | If E_k inverts D_k, CBC encryption re-creates a decrypted ciphertext. |
| Cbc.DecryptOfEncrypt | qr_generator_enc.py:25-27 | The same, for a cipher context: the encryptor succeeds on aligned data, and the decryptor returns that data. |
| Base64.Encode | qr_generator_enc.py:30 | n bytes are written as 4 * ceil(n / 3) characters. |
| Base64.EncodeSymbols | qr_generator_enc.py:30 | Groups of three bytes become four 6-bit symbols, and a final partial group is padded to four. Every symbol is a 6-bit value or padding. |
| Base64.Char | qr_generator_enc.py:30 | Each 6-bit value has its own alphabet character (table 1 of RFC 4648), and that character's value is the original value. |
| Base64.SymbolChar | qr_generator_enc.py:30 | A symbol is written as `=` exactly when it is padding, and otherwise as an alphabet character. |
| Base64.EqualsCount | qr_generator_enc.py:30 | At most two `=` are written, and none exactly when n is a multiple of 3. |
| Base64.EncodeSymbolsPadding | qr_generator_enc.py:30 | Exactly the last EqualsCount(n) symbols are padding, and all the others are 6-bit values. |
| Base64.EncodeWellFormed | qr_generator_enc.py:30 | The output has length 4 * ceil(n / 3) and uses only alphabet characters, followed by a run of exactly EqualsCount(n) `=` signs. |
| Base64.EncodeIsAscii | qr_generator_enc.py:30 | The output is ASCII, so `.decode('utf-8')` leaves it unchanged. |
| Base64.FromToText | qr_generator_enc.py:30 | Reading the characters written for symbols gives the symbols back. |
| Base64.JoinSplit | qr_generator_enc.py:30 | Splitting three bytes into four 6-bit values and joining them gives the bytes back. |
| Base64.DecodeEncodeSymbols | qr_generator_enc.py:30 | Decoding the symbols of any bytes gives those bytes back. |
| Base64.DecodeEncode | qr_generator_enc.py:30 | Base64-decoding the output returns the ciphertext bytes exactly. |
| Base64.EncodeDecode | qr_generator_enc.py:30 | Whatever the strict decoder accepts is the encoding of its result, so the decoder accepts exactly the texts b64encode can write. |

## Left out

- AES itself (FIPS 197) is not modelled. The cipher is an abstract pair of block permutations, and every property holds for any such pair.
- The streaming `update`/`finalize` protocol of the padder and the encryptor is left out. The source calls each once on the whole input, so both are modelled as whole-input functions.
- `generate_qr_code` (qr_generator_enc.py:32-42) is left out: QR matrix generation, PNG rendering, file output and `print` happen in libraries.
- The `__main__` demo (qr_generator_enc.py:45-48) is left out because it only prints. Its concrete ciphertext needs real AES. `QrGeneratorEnc.ExampleLength` states the length of its output instead.
- QrGeneratorEnc.EncryptQrData: its arguments are strings. json.dumps would also accept numbers, None and other values for `book_id` and `qr_id`, and would write them differently. That case is not modelled.
- Bytes.EncodeAscii: UTF-8 is modelled for ASCII text only. The payload is always ASCII (`QrGeneratorEnc.Payload`), so the source's `.encode('utf-8')` never meets anything else.
- Lone surrogates: a Python string can hold a lone surrogate, which json.dumps writes as one `\uXXXX`. A Dafny string cannot hold one, so this case does not arise in the model, and the parser refuses an unpaired surrogate escape.
- Json.ParseObject accepts only json.dumps's object layout: string values, `", "` and `": "`, and no other whitespace. String bodies are read by the general rules of section 7 of RFC 8259, so the parser also accepts text json.dumps never writes under `ensure_ascii`: `\/`, upper-case hexadecimal digits in `\uXXXX`, and raw non-ASCII or DEL characters. The round trip is therefore proved in one direction only: parsing after json.dumps (Json.ParseDumpsObject).
- Cbc.NewContext: the valid key lengths are AES's 16, 24 and 32 bytes, the sizes the library accepts, rather than only 16. The source's own key is 16 bytes.
- Determinism of `encrypt_qr_data` for the fixed `key` and `iv` holds by construction, because every stage is a Dafny function of its arguments. No separate lemma states it.
- android/app/build.gradle.kts holds build configuration only and is not part of this model.
