/** `encrypt_qr_data`: a book's identifiers become a JSON object, the UTF-8 bytes
    of that text are padded with PKCS#7 to whole AES blocks, encrypted with AES
    in CBC mode under a fixed key and IV, and the ciphertext is written as
    Base64 text for a QR code. */
module QrGeneratorEnc {
  import opened Wrappers
  import opened Bytes
  import Json
  import Pkcs7
  import Cbc
  import Base64

  /** `key = b'SaRuAbShKhBa1234'`: the bytes of sixteen ASCII characters. */
  const Key: seq<byte> := EncodeAscii("SaRuAbShKhBa1234")

  /** `iv = b'InitVector123456'`. */
  const Iv: seq<byte> := EncodeAscii("InitVector123456")

  /** Both constants are one AES block long, so the key selects AES-128 and the
      IV fits CBC; and they are the bytes of the texts written in the source. */
  lemma KeyAndIv()
    ensures |Key| == Cbc.BlockSize && Cbc.IsAesKeyLength(|Key|)
    ensures |Iv| == Cbc.BlockSize
    ensures DecodeAscii(Key) == Some("SaRuAbShKhBa1234")
    ensures DecodeAscii(Iv) == Some("InitVector123456")
  {
    DecodeEncodeAscii("SaRuAbShKhBa1234");
    DecodeEncodeAscii("InitVector123456");
  }

  /** The identifiers a QR code carries. */
  datatype Record = Record(bookId: string, qrId: string)

  /** The members of the payload object, in the order the dict literal gives. */
  function Fields(bookId: string, qrId: string): seq<(string, string)> {
    [("bookId", bookId), ("qrId", qrId)]
  }

  lemma PrintableIsAscii(s: string)
    requires Json.IsPrintableText(s)
    ensures IsAscii(s)
  {
    assert forall i :: 0 <= i < |s| ==> Json.IsPrintableAscii(s[i]);
  }

  /** `json.dumps({"bookId": book_id, "qrId": qr_id})`; with ensure_ascii the
      text is printable ASCII. */
  function Payload(bookId: string, qrId: string): (r: string)
    ensures Json.IsPrintableText(r) && IsAscii(r)
  {
    Json.DumpsObjectPrintable(Fields(bookId, qrId));
    PrintableIsAscii(Json.DumpsObject(Fields(bookId, qrId)));
    Json.DumpsObject(Fields(bookId, qrId))
  }

  /** A member whose key json.dumps leaves unescaped. */
  lemma PlainKeyMember(key: string, value: string)
    requires Json.IsPlain(key)
    ensures Json.Member(key, value) == "\"" + key + "\": \"" + Json.Escape(value) + "\""
  {
    Json.EscapePlain(key);
  }

  /** json.dumps writes both keys as they are. */
  lemma PlainKeys()
    ensures Json.IsPlain("bookId") && Json.Escape("bookId") == "bookId"
    ensures Json.IsPlain("qrId") && Json.Escape("qrId") == "qrId"
  {
    PlainKey("bookId");
    PlainKey("qrId");
  }

  lemma PlainKey(k: string)
    requires forall i :: 0 <= i < |k| ==> 'a' <= k[i] <= 'z' || 'A' <= k[i] <= 'Z'
    ensures Json.IsPlain(k) && Json.Escape(k) == k
  {
    Json.EscapePlain(k);
  }

  /** The two members, joined by the item separator. */
  lemma FieldsMembers(bookId: string, qrId: string)
    ensures Json.Members(Fields(bookId, qrId)) == Json.Member("bookId", bookId) + ", " + Json.Member("qrId", qrId)
  {
    var m := Fields(bookId, qrId);
    assert Json.Members(m[1..]) == Json.Member("qrId", qrId);
  }

  /** The payload's length: 26 characters besides the escaped identifiers. */
  lemma PayloadLength(bookId: string, qrId: string)
    ensures |Payload(bookId, qrId)| == 26 + |Json.Escape(bookId)| + |Json.Escape(qrId)|
  {
    PlainKeys();
    FieldsMembers(bookId, qrId);
    Json.MemberText("bookId", bookId, "");
    Json.MemberText("qrId", qrId, "");
  }

  /** The payload is exactly `{"bookId": "<book id>", "qrId": "<qr id>"}`,
      with both identifiers escaped. */
  lemma PayloadText(bookId: string, qrId: string)
    ensures Payload(bookId, qrId)
      == "{\"bookId\": \"" + Json.Escape(bookId) + "\", \"qrId\": \"" + Json.Escape(qrId) + "\"}"
  {
    PlainKeys();
    FieldsMembers(bookId, qrId);
    PlainKeyMember("bookId", bookId);
    PlainKeyMember("qrId", qrId);
    ObjectLayout(Json.Escape(bookId), Json.Escape(qrId));
  }

  lemma ObjectLayout(b: string, q: string)
    ensures "{" + ("\"" + "bookId" + "\": \"" + b + "\"" + ", " + ("\"" + "qrId" + "\": \"" + q + "\"")) + "}"
      == "{\"bookId\": \"" + b + "\", \"qrId\": \"" + q + "\"}"
  {
  }

  /** The payload's UTF-8 bytes (`.encode('utf-8')`), one byte per character. */
  function PayloadBytes(bookId: string, qrId: string): (r: seq<byte>)
    ensures |r| == |Payload(bookId, qrId)|
  {
    EncodeAscii(Payload(bookId, qrId))
  }

  /** `encrypt_qr_data` with the key and IV as parameters: the construction of
      `Cipher(algorithms.AES(key), modes.CBC(iv))` refuses a key that is not
      16, 24 or 32 bytes, and then an IV that is not one block; nothing else
      fails. */
  function EncryptQrDataWith(aes: Cbc.BlockCipher, key: seq<byte>, iv: seq<byte>, bookId: string, qrId: string)
    : (r: Result<string, Cbc.CryptoError>)
    ensures r.Success? <==> Cbc.IsAesKeyLength(|key|) && |iv| == Cbc.BlockSize
    ensures r.Failure? ==> (r.error == Cbc.InvalidKeySize <==> !Cbc.IsAesKeyLength(|key|))
    ensures r.Failure? ==> r.error != Cbc.NotBlockAligned
    ensures r.Success? ==> r.value == Base64.Encode(Cbc.EncryptBlocks(aes, key, iv, Pkcs7.Pad(PayloadBytes(bookId, qrId))))
  {
    var padded := Pkcs7.Pad(PayloadBytes(bookId, qrId));
    var ctx :- Cbc.NewContext(aes, key, iv);
    match Cbc.Encrypt(ctx, padded)
    case Failure(e) => Failure(e)
    case Success(encrypted) => Success(Base64.Encode(encrypted))
  }

  /** The context the source builds from its constants. */
  function SourceContext(aes: Cbc.BlockCipher): (ctx: Cbc.Context)
    ensures ctx.cipher == aes && ctx.key == Key && ctx.iv == Iv
  {
    KeyAndIv();
    Cbc.NewContext(aes, Key, Iv).value
  }

  /** `encrypt_qr_data(book_id, qr_id)`, for the AES permutation aes. */
  function EncryptQrData(aes: Cbc.BlockCipher, bookId: string, qrId: string): (r: string)
    ensures r == Base64.Encode(Cbc.EncryptBlocks(aes, Key, Iv, Pkcs7.Pad(PayloadBytes(bookId, qrId))))
  {
    KeyAndIv();
    EncryptQrDataWith(aes, Key, Iv, bookId, qrId).value
  }

  /** The padded payload is a whole number of AES blocks. */
  lemma PaddedAligned(bookId: string, qrId: string)
    ensures |Pkcs7.Pad(PayloadBytes(bookId, qrId))| % Cbc.BlockSize == 0
  {
  }

  /** With the source's constants the cipher construction succeeds. */
  lemma SourceContextBuilt(aes: Cbc.BlockCipher)
    ensures Cbc.NewContext(aes, Key, Iv) == Success(SourceContext(aes))
  {
    KeyAndIv();
  }

  /** The stages of EncryptQrData, one after the other. The last conjunct
      restates EncryptQrData's own ensures, so that callers get all three
      stages from one call. */
  lemma EncryptQrDataStages(aes: Cbc.BlockCipher, bookId: string, qrId: string)
    ensures var padded := Pkcs7.Pad(PayloadBytes(bookId, qrId));
      && |padded| % Cbc.BlockSize == 0
      && Cbc.Encrypt(SourceContext(aes), padded) == Success(Cbc.EncryptBlocks(aes, Key, Iv, padded))
      && EncryptQrData(aes, bookId, qrId) == Base64.Encode(Cbc.EncryptBlocks(aes, Key, Iv, padded))
  {
    PaddedAligned(bookId, qrId);
    SourceContextBuilt(aes);
  }

  /** Reading a QR code's text back (model only; the source never decrypts):
      Base64-decode, decrypt, strip the padding, read the bytes as ASCII, parse
      the object, and accept exactly the two members in the source's order. */
  function DecryptQrData(aes: Cbc.BlockCipher, s: string): (r: Option<Record>)
  {
    var encrypted :- Base64.Decode(s);
    match Cbc.Decrypt(SourceContext(aes), encrypted)
    case Failure(_) => None
    case Success(padded) =>
      var payload :- Pkcs7.Unpad(padded);
      var text :- DecodeAscii(payload);
      var m :- Json.ParseObject(text);
      if |m| == 2 && m[0].0 == "bookId" && m[1].0 == "qrId" then Some(Record(m[0].1, m[1].1))
      else None
  }

  /** The object's text parses back to its members. */
  lemma ParsePayload(bookId: string, qrId: string)
    ensures Json.ParseObject(Payload(bookId, qrId)) == Some(Fields(bookId, qrId))
  {
    Json.ParseDumpsObject(Fields(bookId, qrId));
  }

  /** The padded bytes decode back to the record. */
  lemma ReadPadded(bookId: string, qrId: string)
    ensures var padded := Pkcs7.Pad(PayloadBytes(bookId, qrId));
      && Pkcs7.Unpad(padded) == Some(PayloadBytes(bookId, qrId))
      && DecodeAscii(PayloadBytes(bookId, qrId)) == Some(Payload(bookId, qrId))
  {
    Pkcs7.UnpadPad(PayloadBytes(bookId, qrId));
    DecodeEncodeAscii(Payload(bookId, qrId));
  }

  /** The last three steps of DecryptQrData, on any padded bytes that unpad to
      the payload of r. */
  lemma ReadBackSteps(padded: seq<byte>, payload: seq<byte>, text: string, r: Record)
    requires Pkcs7.Unpad(padded) == Some(payload)
    requires DecodeAscii(payload) == Some(text)
    requires Json.ParseObject(text) == Some(Fields(r.bookId, r.qrId))
    ensures (var p :- Pkcs7.Unpad(padded);
             var t :- DecodeAscii(p);
             var m :- Json.ParseObject(t);
             if |m| == 2 && m[0].0 == "bookId" && m[1].0 == "qrId" then Some(Record(m[0].1, m[1].1)) else None)
      == Some(r)
  {
  }

  /** Decrypting what encrypt_qr_data produced gives back its two arguments,
      for every AES permutation whose decryption inverts its encryption. */
  lemma DecryptEncryptQrData(aes: Cbc.BlockCipher, bookId: string, qrId: string)
    requires Cbc.DecryptInverts(aes)
    ensures DecryptQrData(aes, EncryptQrData(aes, bookId, qrId)) == Some(Record(bookId, qrId))
  {
    var ctx := SourceContext(aes);
    var padded := Pkcs7.Pad(PayloadBytes(bookId, qrId));
    var encrypted := Cbc.EncryptBlocks(aes, Key, Iv, padded);
    EncryptQrDataStages(aes, bookId, qrId);
    Base64.DecodeEncode(encrypted);
    Cbc.DecryptOfEncrypt(ctx, padded);
    ReadPadded(bookId, qrId);
    ParsePayload(bookId, qrId);
    ReadBackSteps(padded, PayloadBytes(bookId, qrId), Payload(bookId, qrId), Record(bookId, qrId));
  }

  /** Different identifiers never give the same QR text. */
  lemma EncryptQrDataInjective(aes: Cbc.BlockCipher, b1: string, q1: string, b2: string, q2: string)
    requires Cbc.DecryptInverts(aes)
    requires EncryptQrData(aes, b1, q1) == EncryptQrData(aes, b2, q2)
    ensures b1 == b2 && q1 == q2
  {
    DecryptEncryptQrData(aes, b1, q1);
    DecryptEncryptQrData(aes, b2, q2);
  }

  /** The length of the QR text for an n-byte payload: the padded length is
      P = 16 * (n / 16 + 1), and Base64 writes 4 * ceil(P / 3) characters. */
  function TextLength(n: nat): nat {
    4 * ((Cbc.BlockSize * (n / Cbc.BlockSize + 1) + 2) / 3)
  }

  /** The QR text is well-formed Base64 of the padded payload, whose length is
      the next multiple of 16 above the payload's. */
  lemma EncryptQrDataShape(aes: Cbc.BlockCipher, bookId: string, qrId: string)
    ensures var padded := Cbc.BlockSize * (|Payload(bookId, qrId)| / Cbc.BlockSize + 1);
      && Base64.WellFormed(EncryptQrData(aes, bookId, qrId), padded)
      && |EncryptQrData(aes, bookId, qrId)| == TextLength(|Payload(bookId, qrId)|)
  {
    var padded := Pkcs7.Pad(PayloadBytes(bookId, qrId));
    EncryptQrDataStages(aes, bookId, qrId);
    Pkcs7.PaddedLength(PayloadBytes(bookId, qrId));
    assert Pkcs7.BlockLen == Cbc.BlockSize;
    assert |padded| == Cbc.BlockSize * (|Payload(bookId, qrId)| / Cbc.BlockSize + 1);
    Base64.EncodeWellFormed(Cbc.EncryptBlocks(aes, Key, Iv, padded));
  }

  /** The QR text's length is TextLength of the payload's length n: the length
      conjunct of EncryptQrDataShape, restated for callers. Taking n as a
      parameter keeps the payload and the non-linear division of TextLength
      out of one proof goal. */
  lemma EncryptQrDataLength(aes: Cbc.BlockCipher, bookId: string, qrId: string, n: nat)
    requires n == |Payload(bookId, qrId)|
    ensures |EncryptQrData(aes, bookId, qrId)| == TextLength(n)
  {
    EncryptQrDataShape(aes, bookId, qrId);
  }

  /** For identifiers json.dumps leaves unescaped, the payload's length
      follows from theirs alone. */
  lemma PlainIdsLength(bookId: string, qrId: string)
    requires Json.IsPlain(bookId) && Json.IsPlain(qrId)
    ensures |Payload(bookId, qrId)| == 26 + |bookId| + |qrId|
  {
    Json.EscapePlain(bookId);
    Json.EscapePlain(qrId);
    PayloadLength(bookId, qrId);
  }

  /** The source's own example, `encrypt_qr_data("BK01", "SUBJ08")`: a 36-byte
      payload, 48 bytes of ciphertext and 64 characters of text. */
  lemma ExampleLength(aes: Cbc.BlockCipher, bookId: string, qrId: string)
    requires bookId == "BK01" && qrId == "SUBJ08"
    ensures |Payload(bookId, qrId)| == 36
    ensures |EncryptQrData(aes, bookId, qrId)| == 64
  {
    assert Json.IsPlain(bookId) && Json.IsPlain(qrId);
    PlainIdsLength(bookId, qrId);
    EncryptQrDataLength(aes, bookId, qrId, 36);
    ExampleTextLength();
  }

  /** 36 bytes pad to 48, which Base64 writes as 64 characters. */
  lemma ExampleTextLength()
    ensures TextLength(36) == 64
  {
  }

  /** Each block of the ciphertext depends only on the payload bytes up to the
      end of that block: two payloads that agree on their first 16 * k bytes
      (and both are at least that long) encrypt to texts whose ciphertexts agree on
      their first 16 * k bytes. */
  lemma CiphertextPrefix(aes: Cbc.BlockCipher, p1: seq<byte>, p2: seq<byte>, k: nat)
    requires Cbc.BlockSize * k <= |p1| && Cbc.BlockSize * k <= |p2|
    requires p1[..Cbc.BlockSize * k] == p2[..Cbc.BlockSize * k]
    ensures var c1, c2 := Cbc.EncryptBlocks(aes, Key, Iv, Pkcs7.Pad(p1)), Cbc.EncryptBlocks(aes, Key, Iv, Pkcs7.Pad(p2));
      c1[..Cbc.BlockSize * k] == c2[..Cbc.BlockSize * k]
  {
    KeyAndIv();
    Pkcs7.PadPrefix(p1, p2, Cbc.BlockSize * k);
    Cbc.EncryptSharedPrefix(aes, Key, Iv, Pkcs7.Pad(p1), Pkcs7.Pad(p2), k);
  }
}
