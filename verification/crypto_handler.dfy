/**
  The cipher envelope of `CryptoHandler`: Triple-DES keys carried as base64
  text, and images sealed as base64(IV ‖ CBC-encrypt(PKCS#7-pad(image))).
  Random draws (the key octets, the IV) are parameters; reading and writing
  files is outside the model, so images and envelopes are octet strings.
  Every exception the source catches becomes a failure record carrying its
  kind; the record's message is what the source would report.
*/
module CryptoHandler {
  import opened Wrappers
  import opened Bytes
  import opened BlockCipher
  import Base64
  import opened Pkcs7
  import Cbc

  /** The exceptions raised under the source's `try` blocks. */
  datatype Fault =
    | InvalidKeyFormat(detail: string)   // validate_key: bad base64 or wrong length
    | EnvelopeNotBase64                  // b64decode of the envelope text
    | IncorrectIvLength                  // DES3.new given fewer than 8 IV octets
    | CiphertextNotAligned               // CBC decrypt of a partial block
    | BadPadding(reason: UnpadError)     // unpad of the decrypted octets

  /** The text of the exception, which the source appends to its failure message. */
  function Describe(f: Fault): string
  {
    match f
    case InvalidKeyFormat(detail) => "Invalid key format: " + detail
    case EnvelopeNotBase64 => Base64Detail
    case IncorrectIvLength => "Incorrect IV length (it must be 8 bytes long)"
    case CiphertextNotAligned => "Data must be padded to 8 byte boundary in CBC mode"
    case BadPadding(ZeroLength) => "Zero-length input cannot be unpadded"
    case BadPadding(NotAligned) => "Input data is not padded"
    case BadPadding(PaddingIncorrect) => "Padding is incorrect."
    case BadPadding(Pkcs7Incorrect) => "PKCS#7 padding is incorrect."
  }

  const KeySizeDetail: string := "Key must be 24 bytes"
  /** One text for every base64 decoding failure, of a key or of an envelope alike. */
  const Base64Detail: string := "Incorrect padding"

  // ---------------------------------------------------------------- keys

  /** Both ways a key text can be refused end in the same error kind: the size
      error is raised inside the `try` and re-wrapped by its own `except`. */
  function ValidateKey(keyText: string): (r: Result<Key, Fault>)
    ensures r.Success? <==> Base64.Decode(keyText).Some? && |Base64.Decode(keyText).value| == KEY_SIZE
    ensures r.Success? ==> Base64.Decode(keyText) == Some(r.value)
    ensures r.Failure? ==> r.error.InvalidKeyFormat? && "Invalid key format: " <= Describe(r.error)
  {
    match Base64.Decode(keyText)
    case None => Failure(InvalidKeyFormat(Base64Detail))
    case Some(octets) =>
      if |octets| != KEY_SIZE then Failure(InvalidKeyFormat(KeySizeDetail)) else Success(octets)
  }

  /** The base64 text of 24 freshly drawn octets; `ValidateKey` accepts it and
      hands back exactly those octets. */
  function GenerateKey(random: Key): (keyText: string)
    ensures |keyText| == 32
    ensures ValidateKey(keyText) == Success(random)
  {
    Base64.DecodeEncode(random);
    Base64.Encode(random)
  }

  /** `ValidateKey` accepts exactly the texts `GenerateKey` can produce. */
  lemma ValidKeyTexts(keyText: string)
    ensures ValidateKey(keyText).Success? <==> exists k: Key :: GenerateKey(k) == keyText
  {
    if ValidateKey(keyText).Success? {
      var k := ValidateKey(keyText).value;
      Base64.EncodeDecode(keyText);
      assert GenerateKey(k) == keyText;
    }
  }

  /** Key material one octet short, one octet long, or empty is refused. */
  lemma WrongSizeKeysRejected(octets: seq<byte>)
    requires |octets| != KEY_SIZE
    ensures ValidateKey(Base64.Encode(octets)) == Failure(InvalidKeyFormat(KeySizeDetail))
  {
    Base64.DecodeEncode(octets);
  }

  // ---------------------------------------------------------------- sealing

  /** IV ‖ CBC encryption of the padded image. */
  function Seal(c: Cipher, k: Key, iv: Block, image: seq<byte>): (envelope: seq<byte>)
    ensures |envelope| == BLOCK_SIZE + BLOCK_SIZE * (|image| / BLOCK_SIZE + 1)
    ensures envelope[..BLOCK_SIZE] == iv
  {
    iv + Cbc.Encrypt(c, k, iv, Pad(image))
  }

  /** The record `encrypt_image` returns. `envelope` holds the raw IV ‖
      ciphertext octets, those written to `output_path` when one is given. */
  datatype Encryption =
    | Encrypted(encryptedData: string, fileSize: nat, encryptedSize: nat, envelope: seq<byte>)
    | EncryptionFailed(fault: Fault)
  {
    predicate Success()
    {
      Encrypted?
    }

    function Message(): string
    {
      if Encrypted? then "Image encrypted successfully" else "Encryption failed: " + Describe(fault)
    }
  }

  function EncryptImage(c: Cipher, image: seq<byte>, keyText: string, iv: Block): (r: Encryption)
    ensures r.Success() <==> ValidateKey(keyText).Success?
    ensures !r.Success() ==>
      && r.fault == ValidateKey(keyText).error
      && "Encryption failed: Invalid key format: " <= r.Message()
    ensures r.Success() ==>
      && Base64.Decode(r.encryptedData) == Some(r.envelope)
      && r.envelope == Seal(c, ValidateKey(keyText).value, iv, image)
      && r.fileSize == |image|
      && r.encryptedSize == |r.envelope| == BLOCK_SIZE + BLOCK_SIZE * (|image| / BLOCK_SIZE + 1)
  {
    match ValidateKey(keyText)
    case Failure(f) =>
      KeyFaultMessage(f);
      EncryptionFailed(f)
    case Success(k) =>
      var envelope := Seal(c, k, iv, image);
      Base64.DecodeEncode(envelope);
      Encrypted(Base64.Encode(envelope), |image|, |envelope|, envelope)
  }

  /** A refused key is reported under both prefixes. */
  lemma KeyFaultMessage(f: Fault)
    requires f.InvalidKeyFormat?
    ensures "Encryption failed: Invalid key format: " <= EncryptionFailed(f).Message()
  {
    var d := f.detail;
    assert EncryptionFailed(f).Message() == "Encryption failed: " + ("Invalid key format: " + d);
    assert "Encryption failed: " + ("Invalid key format: " + d) == "Encryption failed: Invalid key format: " + d;
  }

  /** `encrypt_image_file` is `encrypt_image` with an output path: it succeeds
      exactly on a valid key, writes the sealed envelope, and what it writes
      `decrypt_image_file` opens back into the image under the same key. */
  function EncryptImageFile(c: Cipher, image: seq<byte>, keyText: string, iv: Block): (r: Encryption)
    ensures r.Success() <==> ValidateKey(keyText).Success?
    ensures !r.Success() ==> r.fault == ValidateKey(keyText).error
    ensures r.Success() ==>
      && r.envelope == Seal(c, ValidateKey(keyText).value, iv, image)
      && Base64.Decode(r.encryptedData) == Some(r.envelope)
      && r.fileSize == |image|
    ensures r.Success() && IsPermutation(c) ==> DecryptImageFile(c, r.envelope, keyText) == DecryptedFile(|image|, image)
  {
    var r := EncryptImage(c, image, keyText, iv);
    assert r.Success() && IsPermutation(c) ==> DecryptImageFile(c, r.envelope, keyText) == DecryptedFile(|image|, image) by {
      if r.Success() && IsPermutation(c) {
        OpenSeal(c, ValidateKey(keyText).value, iv, image);
      }
    }
    r
  }

  // ---------------------------------------------------------------- opening

  /** Split off the IV, CBC-decrypt the rest and unpad, failing where the
      cipher library or `unpad` raises. */
  function Open(c: Cipher, k: Key, envelope: seq<byte>): (r: Result<seq<byte>, Fault>)
    ensures |envelope| < BLOCK_SIZE ==> r == Failure(IncorrectIvLength)
    ensures BLOCK_SIZE <= |envelope| && |envelope| % BLOCK_SIZE != 0 ==> r == Failure(CiphertextNotAligned)
    ensures |envelope| == BLOCK_SIZE ==> r == Failure(BadPadding(ZeroLength))
    ensures r.Success? ==> |envelope| - 2 * BLOCK_SIZE <= |r.value| < |envelope| - BLOCK_SIZE
  {
    if |envelope| < BLOCK_SIZE then Failure(IncorrectIvLength)
    else
      var iv, ct := envelope[..BLOCK_SIZE], envelope[BLOCK_SIZE..];
      if |ct| % BLOCK_SIZE != 0 then Failure(CiphertextNotAligned)
      else
        match Unpad(Cbc.Decrypt(c, k, iv, ct))
        case Failure(e) => Failure(BadPadding(e))
        case Success(image) => Success(image)
  }

  /** The octets CBC decryption yields from an aligned envelope, before unpadding. */
  function Padded(c: Cipher, k: Key, envelope: seq<byte>): seq<byte>
    requires BLOCK_SIZE <= |envelope| && |envelope| % BLOCK_SIZE == 0
  {
    Cbc.Decrypt(c, k, envelope[..BLOCK_SIZE], envelope[BLOCK_SIZE..])
  }

  /** Past the framing checks, opening fails exactly when the decrypted octets
      are badly padded: a last octet of 0 or above 8, or a pad run whose octets
      are not all equal to it. */
  lemma OpenPadding(c: Cipher, k: Key, envelope: seq<byte>)
    requires BLOCK_SIZE < |envelope| && |envelope| % BLOCK_SIZE == 0
    ensures var padded := Padded(c, k, envelope); var last := padded[|padded| - 1] as int;
      && (Open(c, k, envelope).Success? <==> Unpad(padded).Success?)
      && (last == 0 || last > BLOCK_SIZE ==> Open(c, k, envelope) == Failure(BadPadding(PaddingIncorrect)))
      && ((1 <= last <= BLOCK_SIZE && exists i :: |padded| - last <= i < |padded| && padded[i] as int != last)
          ==> Open(c, k, envelope) == Failure(BadPadding(Pkcs7Incorrect)))
  {
    var padded := Padded(c, k, envelope);
    var last := padded[|padded| - 1] as int;
    assert |envelope[BLOCK_SIZE..]| % BLOCK_SIZE == 0;
    assert Open(c, k, envelope) == if Unpad(padded).Success? then Success(Unpad(padded).value)
      else Failure(BadPadding(Unpad(padded).error));
    if 1 <= last <= BLOCK_SIZE && exists i :: |padded| - last <= i < |padded| && padded[i] as int != last {
      UnpadRejectsMixedRun(padded);
    }
  }

  /** Opening a sealed envelope under the same key gives back the image. */
  lemma OpenSeal(c: Cipher, k: Key, iv: Block, image: seq<byte>)
    requires IsPermutation(c)
    ensures Open(c, k, Seal(c, k, iv, image)) == Success(image)
  {
    var envelope := Seal(c, k, iv, image);
    assert envelope[BLOCK_SIZE..] == Cbc.Encrypt(c, k, iv, Pad(image));
    Cbc.DecryptEncrypt(c, k, iv, Pad(image));
    UnpadPad(image);
  }

  /** Whatever opens is a sealed envelope: its IV and ciphertext are exactly
      what sealing the recovered image with that IV produces. */
  lemma SealOpen(c: Cipher, k: Key, envelope: seq<byte>)
    requires IsPermutation(c)
    requires Open(c, k, envelope).Success?
    ensures Seal(c, k, envelope[..BLOCK_SIZE], Open(c, k, envelope).value) == envelope
  {
    var iv, ct := envelope[..BLOCK_SIZE], envelope[BLOCK_SIZE..];
    var padded := Cbc.Decrypt(c, k, iv, ct);
    PadUnpad(padded);
    Cbc.EncryptDecrypt(c, k, iv, ct);
    assert envelope == iv + ct;
  }

  /** Tamper evidence: two different envelopes that share their IV, or share
      their ciphertext, never both open to the same image. */
  lemma TamperEvident(c: Cipher, k: Key, e1: seq<byte>, e2: seq<byte>)
    requires IsPermutation(c)
    requires BLOCK_SIZE <= |e1| && BLOCK_SIZE <= |e2|
    requires e1[..BLOCK_SIZE] == e2[..BLOCK_SIZE] || e1[BLOCK_SIZE..] == e2[BLOCK_SIZE..]
    requires e1 != e2
    ensures Open(c, k, e1).Failure? || Open(c, k, e2).Failure? || Open(c, k, e1).value != Open(c, k, e2).value
  {
    if Open(c, k, e1).Success? && Open(c, k, e2).Success? && Open(c, k, e1).value == Open(c, k, e2).value {
      var image := Open(c, k, e1).value;
      SealOpen(c, k, e1);
      SealOpen(c, k, e2);
      if e1[..BLOCK_SIZE] != e2[..BLOCK_SIZE] {
        var ct := e1[BLOCK_SIZE..];
        var iv1, iv2: Block := e1[..BLOCK_SIZE], e2[..BLOCK_SIZE];
        var padded1 := Cbc.Decrypt(c, k, iv1, ct);
        var padded2 := Cbc.Decrypt(c, k, iv2, ct);
        PadUnpad(padded1);
        PadUnpad(padded2);
        assert padded1 == padded2;
        Cbc.DecryptBlocks(c, k, iv1, ct, 0);
        Cbc.DecryptBlocks(c, k, iv2, ct, 0);
        XorBlockInjective(c.decrypt(k, Cbc.BlockAt(ct, 0)), iv1, iv2);
      }
    }
  }

  /** The record `decrypt_image` returns. */
  datatype Decryption =
    | Decrypted(decryptedData: string, fileSize: nat)
    | DecryptionFailed(fault: Fault)
  {
    predicate Success()
    {
      Decrypted?
    }

    function Message(): string
    {
      if Decrypted? then "Image decrypted successfully" else "Decryption failed: " + Describe(fault)
    }
  }

  function DecryptImage(c: Cipher, encryptedData: string, keyText: string): (r: Decryption)
    ensures !r.Success() ==> "Decryption failed: " <= r.Message()
    ensures ValidateKey(keyText).Failure? ==> r == DecryptionFailed(ValidateKey(keyText).error)
    ensures ValidateKey(keyText).Success? && Base64.Decode(encryptedData).None? ==> r == DecryptionFailed(EnvelopeNotBase64)
    ensures ValidateKey(keyText).Success? && Base64.Decode(encryptedData).Some? ==>
      var o := Open(c, ValidateKey(keyText).value, Base64.Decode(encryptedData).value);
      && (r.Success() <==> o.Success?)
      && (o.Failure? ==> r == DecryptionFailed(o.error))
    ensures r.Success() ==>
      && ValidateKey(keyText).Success?
      && Base64.Decode(encryptedData).Some?
      && Open(c, ValidateKey(keyText).value, Base64.Decode(encryptedData).value).Success?
      && var image := Open(c, ValidateKey(keyText).value, Base64.Decode(encryptedData).value).value;
         Base64.Decode(r.decryptedData) == Some(image) && r.fileSize == |image|
  {
    match ValidateKey(keyText)
    case Failure(f) => DecryptionFailed(f)
    case Success(k) =>
      match Base64.Decode(encryptedData)
      case None => DecryptionFailed(EnvelopeNotBase64)
      case Some(envelope) =>
        match Open(c, k, envelope)
        case Failure(f) => DecryptionFailed(f)
        case Success(image) =>
          Base64.DecodeEncode(image);
          Decrypted(Base64.Encode(image), |image|)
  }

  /** Decrypting what `encrypt_image` produced, with the same key, succeeds and
      returns the base64 text of the original image and its size. */
  lemma EncryptDecryptRoundTrip(c: Cipher, image: seq<byte>, keyText: string, iv: Block)
    requires IsPermutation(c)
    requires ValidateKey(keyText).Success?
    ensures DecryptImage(c, EncryptImage(c, image, keyText, iv).encryptedData, keyText)
      == Decrypted(Base64.Encode(image), |image|)
  {
    var k := ValidateKey(keyText).value;
    OpenSeal(c, k, iv, image);
  }

  /** Sealing one image twice with different IVs gives different envelope texts. */
  lemma DistinctIvsDistinctEnvelopes(c: Cipher, image: seq<byte>, keyText: string, iv1: Block, iv2: Block)
    requires ValidateKey(keyText).Success?
    requires iv1 != iv2
    ensures EncryptImage(c, image, keyText, iv1).encryptedData != EncryptImage(c, image, keyText, iv2).encryptedData
  {
    var r1, r2 := EncryptImage(c, image, keyText, iv1), EncryptImage(c, image, keyText, iv2);
    assert r1.envelope[..BLOCK_SIZE] != r2.envelope[..BLOCK_SIZE];
  }

  // ---------------------------------------------------------------- file variant

  /** The record `decrypt_image_file` returns; `written` holds the octets it
      writes to `output_path`. */
  datatype FileDecryption =
    | DecryptedFile(fileSize: nat, written: seq<byte>)
    | FileDecryptionFailed(fault: Fault)
  {
    predicate Success()
    {
      DecryptedFile?
    }

    function Message(): string
    {
      if DecryptedFile? then "Image decrypted successfully" else "Decryption failed: " + Describe(fault)
    }
  }

  /** Like `decrypt_image`, but on the raw envelope octets read from a file. */
  function DecryptImageFile(c: Cipher, envelope: seq<byte>, keyText: string): (r: FileDecryption)
    ensures !r.Success() ==> "Decryption failed: " <= r.Message()
    ensures r.Success() ==> r.fileSize == |r.written| < |envelope|
    ensures ValidateKey(keyText).Failure? ==> r == FileDecryptionFailed(ValidateKey(keyText).error)
    ensures ValidateKey(keyText).Success? ==>
      var o := Open(c, ValidateKey(keyText).value, envelope);
      && (r.Success() <==> o.Success?)
      && (r.Success() ==> r.written == o.value)
      && (o.Failure? ==> r == FileDecryptionFailed(o.error))
  {
    match ValidateKey(keyText)
    case Failure(f) => FileDecryptionFailed(f)
    case Success(k) =>
      match Open(c, k, envelope)
      case Failure(f) => FileDecryptionFailed(f)
      case Success(image) => DecryptedFile(|image|, image)
  }

  /** Decrypting an envelope file computes what `decrypt_image` computes on the
      base64 text of the same octets: the same image, size and failure kind. */
  lemma FileAgreesWithText(c: Cipher, envelope: seq<byte>, keyText: string)
    ensures var f, t := DecryptImageFile(c, envelope, keyText), DecryptImage(c, Base64.Encode(envelope), keyText);
      && (f.Success() <==> t.Success())
      && (f.Success() ==> t.decryptedData == Base64.Encode(f.written) && t.fileSize == f.fileSize)
      && (!f.Success() ==> f.fault == t.fault && f.Message() == t.Message())
  {
    Base64.DecodeEncode(envelope);
  }

  /** What `encrypt_image_file` writes, `decrypt_image_file` turns back into the image. */
  lemma FileRoundTrip(c: Cipher, image: seq<byte>, keyText: string, iv: Block)
    requires IsPermutation(c)
    requires ValidateKey(keyText).Success?
    ensures DecryptImageFile(c, EncryptImageFile(c, image, keyText, iv).envelope, keyText)
      == DecryptedFile(|image|, image)
  {
    OpenSeal(c, ValidateKey(keyText).value, iv, image);
  }
}
