# PixelLock-3DES core in Dafny

PixelLock-3DES is a small web application that protects uploaded images with
Triple-DES and checks them with SHA-256. This project models its core:

- **Key handling** (`CryptoHandler.GenerateKey`, `CryptoHandler.ValidateKey`).
  A key is 24 random octets carried as base64 text. A text is accepted exactly
  when it decodes to 24 octets. Both refusals have the single error kind
  "Invalid key format".
- **Image encryption and decryption** (`CryptoHandler.EncryptImage`,
  `DecryptImage` and the two file variants). The stored envelope is IV ‖
  CBC-encrypt(PKCS#7-pad(image)). The IV is 8 octets and padding uses 8-octet
  blocks. The envelope travels as base64 text.
  - Every failure raised inside the handler is a `Fault` whose kind is kept.
    The failure message is derived from it.
  - The Triple-DES block transformation is a parameter `Cipher`. The round
    trip, "only sealed envelopes open" and tamper evidence are proved for every
    cipher that is a permutation under each key.
- **Integrity hashing** (`HashHandler`). The file variant reads the file in
  4096-octet chunks. The hash is the SHA-256 digest as 64 lower-case hex digits.
  Text is hashed as its UTF-8 encoding. A provided hash matches when it equals
  the calculated one after lower-casing. SHA-256 is a parameter too.
- **Web-layer helpers** (`App`). This covers the upload filter on the seven
  image extensions and the name an encrypted upload is stored under.

The supporting codecs are modelled precisely and their round trips are proved:

- base64 (RFC 4648, section 4);
- lower-case hex;
- UTF-8 (RFC 3629, which refuses surrogates);
- PKCS#7 padding (RFC 5652, section 6.3);
- CBC mode (NIST SP 800-38A, section 6.2).

Files:

- `wrappers.dfy`: `Option`/`Result`.
- `bytes.dfy`: octets and their exclusive or.
- `ascii.dfy`: case mapping.
- `base64.dfy`, `hex.dfy`, `utf8.dfy`: the codecs.
- `blockcipher.dfy`: the abstract block cipher.
- `pkcs7.dfy`, `cbc.dfy`: padding and chaining.
- `crypto_handler.dfy`, `hash_handler.dfy`, `app.dfy`: the three source modules.

Two behaviours of the source are worth stating plainly:

- The source has no separate key-size error. `validate_key` raises the size
  error inside its own `try`, and its `except` re-wraps it
  (app/crypto_handler.py:41-47). So both refusals read "Invalid key format: …".
- `decrypt_image` does no length check before decrypting. Short or unaligned
  envelopes fail inside the cipher library or `unpad`
  (app/crypto_handler.py:127-131):
  - fewer than 8 octets fail in the cipher constructor, which wants an 8-octet IV;
  - an unaligned body fails in CBC decryption;
  - an envelope of exactly one IV fails in `unpad`.

  `CryptoHandler.Open` models these three distinct faults.

The file variant and the in-memory variant of hash verification use different
messages. The file variant reports "Hash verified successfully" or "Hash
mismatch: File integrity compromised". The in-memory variant reports "Integrity
verified successfully" or "Integrity check failed". Both are modelled as written.

## Model

| member | source | states |
|---|---|---|
| CryptoHandler.GenerateKey | app/crypto_handler.py:27-33 | The key text of 24 drawn octets is 32 characters long, and validating it gives back exactly those 24 octets. |
| CryptoHandler.ValidateKey | app/crypto_handler.py:36-47 | A key text is accepted iff it is base64 of exactly 24 octets, and then those octets are the key. Every refusal has the kind "Invalid key format". |
| CryptoHandler.ValidKeyTexts | app/crypto_handler.py:27-47 | The accepted key texts are exactly the texts key generation can produce. |
| CryptoHandler.WrongSizeKeysRejected | app/crypto_handler.py:42-44 | Well-formed base64 of any octet count other than 24 is refused with the size error. |
| Pkcs7.Pad | app/crypto_handler.py:77 | The padded image is the image followed by 1 to 8 octets, each equal to the number added. The total is the next multiple of 8 strictly above the image length. |
| Pkcs7.Unpad | app/crypto_handler.py:131 | Unpadding fails on empty input, on input that is not a multiple of 8, and on a last octet of 0 or above 8 (iff in each case). On success it removes 1 to 8 octets and keeps a prefix. |
| Pkcs7.UnpadPad | app/crypto_handler.py:77-131 | Unpadding a padded image gives back the image. |
| Pkcs7.PadUnpad | app/crypto_handler.py:131 | Whatever unpads successfully is the padding of its result, so no other input shape is accepted. |
| Pkcs7.UnpadRejectsMixedRun | app/crypto_handler.py:131 | Unpadding rejects a pad run whose octets differ from the last octet, with the PKCS#7 error. |
| Cbc.Encrypt | app/crypto_handler.py:74-78 | CBC encryption preserves the length of the padded data. |
| Cbc.EncryptChains | app/crypto_handler.py:74-78 | Ciphertext block i is the encipherment of plaintext block i combined with ciphertext block i-1, where block -1 is the IV. |
| Cbc.Decrypt | app/crypto_handler.py:130 | CBC decryption preserves length. DecryptBlocks gives its block equation, and DecryptEncrypt/EncryptDecrypt make it the inverse of encryption. |
| Cbc.DecryptBlocks | app/crypto_handler.py:127-130 | Plaintext block i is the decipherment of ciphertext block i combined with the preceding ciphertext block or the IV. |
| Cbc.DecryptEncrypt | app/crypto_handler.py:127-130 | Under a permutation cipher, CBC decryption undoes CBC encryption with the same key and IV. |
| Cbc.EncryptDecrypt | app/crypto_handler.py:127-130 | Under a permutation cipher, CBC encryption undoes CBC decryption, so every aligned ciphertext is the encryption of its decryption. |
| Base64.Encode | app/crypto_handler.py:90 | Base64 text has 4 characters for every started group of 3 octets. |
| Base64.Decode | app/crypto_handler.py:120 | Strict base64 decoding accepts only whole 4-character groups, and its output length lies between three quarters of the text's length less two and three quarters of it. DecodeEncode and EncodeDecode make it the exact inverse of Encode. |
| Base64.DecodeSize | app/crypto_handler.py:120 | A decoded text yields exactly 3 octets per 4-character group, less one for each '=' among its last two characters. |
| Base64.DecodeEncode | app/crypto_handler.py:120 | Decoding the base64 text of any octets gives back those octets. |
| Base64.EncodeDecode | app/crypto_handler.py:120 | Any text that decodes is the canonical encoding of what it decodes to. |
| Base64.DecodeIff | app/crypto_handler.py:120 | A text decodes to given octets iff it is their encoding. |
| CryptoHandler.Seal | app/crypto_handler.py:71-81 | The envelope starts with the IV. Its length is the IV plus the padded image length. |
| CryptoHandler.EncryptImage | app/crypto_handler.py:50-100 | Encryption succeeds iff the key is valid. On success the base64 text decodes to IV ‖ CBC(pad(image)), and the sizes are the image length and the envelope length. On failure the fault is the key fault, under "Encryption failed: Invalid key format: ". |
| CryptoHandler.DistinctIvsDistinctEnvelopes | app/crypto_handler.py:71-90 | Encrypting the same image under two different IVs gives different envelope texts. |
| CryptoHandler.EncryptImageFile | app/crypto_handler.py:152-156 | The file variant of encryption succeeds exactly on a valid key and otherwise reports the key's fault. On success it writes the IV-prefixed seal of the image, returns that envelope's base64 text and the image size, and file decryption with the same key turns what it wrote back into the image. |
| CryptoHandler.Open | app/crypto_handler.py:123-131 | Opening a short envelope fails for the IV length. An unaligned body fails for alignment. A lone IV fails as zero-length unpadding. An opened image is 1 to 8 octets shorter than the body. |
| CryptoHandler.OpenPadding | app/crypto_handler.py:130-131 | An aligned envelope opens iff its decryption is well padded. A last octet of 0 or above 8 gives the padding error. A mixed pad run gives the PKCS#7 error. |
| CryptoHandler.OpenSeal | app/crypto_handler.py:123-131 | Opening a sealed envelope under the same key gives back the image. |
| CryptoHandler.SealOpen | app/crypto_handler.py:123-131 | Every envelope that opens is exactly the seal of its image under its own IV. |
| CryptoHandler.TamperEvident | app/crypto_handler.py:123-131 | Two different envelopes that share their IV or their ciphertext never both open to the same image. |
| CryptoHandler.DecryptImage | app/crypto_handler.py:103-149 | Decryption reports the key fault first, then a base64 failure of the envelope text. Past those, it succeeds iff the envelope opens, and an opening fault is reported as is. On success it returns the base64 of the opened image and its size. Failures read "Decryption failed: …". |
| CryptoHandler.EncryptDecryptRoundTrip | app/crypto_handler.py:50-149 | Decrypting the text encryption produced, with the same key, succeeds with the base64 of the original image and its size. |
| CryptoHandler.DecryptImageFile | app/crypto_handler.py:159-194 | A refused key gives its fault. Under a valid key, file decryption succeeds iff the envelope opens; it then writes the opened image, of the reported size and shorter than the envelope. An opening fault is reported as is. Failures read "Decryption failed: …". |
| CryptoHandler.FileAgreesWithText | app/crypto_handler.py:159-194 | The file variant on envelope octets agrees with the in-memory variant on their base64 text: same success, same image, same size, same fault and message. |
| CryptoHandler.FileRoundTrip | app/crypto_handler.py:152-194 | What file encryption writes, file decryption with the same key turns back into the image. |
| Hex.DecodeEncode | app/hash_handler.py:35 | The hex rendering loses nothing: decoding it gives back the octets. |
| HashHandler.HexDigest | app/hash_handler.py:35 | A rendered digest is 64 lower-case hex digits that decode back to the digest. |
| Utf8.Encode | app/hash_handler.py:62-63 | UTF-8 encoding of a text succeeds iff it holds no surrogate. It takes 1 to 4 octets per code point. |
| Utf8.DecodeEncode | app/hash_handler.py:62-63 | Strict UTF-8 decoding of an encoded text gives back the text. |
| Utf8.EncodeAscii | app/hash_handler.py:62-63 | An ASCII text encodes to its own code points, one octet each. |
| HashHandler.GenerateHashFromData | app/hash_handler.py:51-78 | Hashing data succeeds iff it is octets or a surrogate-free text. The hash is the rendered digest of the octets, or of the text's UTF-8 encoding. Failures carry the "Hash generation failed: " prefix. |
| HashHandler.TextHashedAsUtf8 | app/hash_handler.py:62-65 | An ASCII text and its octets have the same digest record. |
| HashHandler.ReadChunk | app/hash_handler.py:32 | One read returns the next at most 4096 octets of the file. It is empty only at the end, and short only at the end. |
| HashHandler.GenerateHash | app/hash_handler.py:17-48 | Hashing a file reads chunks that concatenate to the file, all full except the last, none empty. The record equals hashing the file's octets in one go. An unreadable file gives the prefixed failure. |
| HashHandler.VerifyHashData | app/hash_handler.py:116-148 | A hash failure passes through unchanged. Otherwise the calculated hash is reported and the provided one echoed. They match iff the lower-cased provided hash equals the calculated one, with the matching message. |
| HashHandler.UpperCaseDigestMatches | app/hash_handler.py:134 | The upper-cased form of the correct digest still matches. |
| HashHandler.WrongLengthNeverMatches | app/hash_handler.py:134 | A provided hash that is not 64 characters long never matches. |
| HashHandler.VerifyHash | app/hash_handler.py:81-113 | File verification agrees with in-memory verification of the file's octets on the match and the calculated hash, using the file variant's messages. An unreadable file gives the prefixed failure. |
| App.Extension | app/app.py:34 | The extension is absent iff the name has no '.'. Otherwise it is the '.'-free tail after the last '.'. |
| App.AllowedFile | app/app.py:32-34 | The filter accepts a name iff its last '.' is followed by text whose lower case is an allowed extension. |
| App.ExtensionAfterLastDot | app/app.py:34 | The extension is the text after the one position holding the last '.'. A name without an extension has no such position. |
| App.AcceptedExtensions | app/app.py:20-34 | Whatever the stem, stem + "." + ext is accepted iff the lower case of ext is one of png, jpg, jpeg, gif, bmp, webp, tiff. |
| App.ExtensionAppend | app/app.py:34 | Appending "." + ext, with ext free of '.', makes ext the extension whatever the stem. |
| App.AllowedFileIgnoresCase | app/app.py:34 | ASCII upper-casing of a name does not change the filter's verdict. |
| App.OnlyLastExtensionCounts | app/app.py:34 | "photo.png.exe" is refused and "a.tar.png" is accepted. |
| App.UpperCaseExtensionAllowed | app/app.py:34 | "X.PNG" is accepted. |
| App.MissingExtensionRefused | app/app.py:34 | A name with no '.' is refused, and so is the same name ending in '.'. |
| App.EncryptedFilename | app/app.py:105 | The stored name is "encrypted_", then the sanitised upload name, then ".enc", and is 14 characters longer. |
| App.EncryptedFilenameFacts | app/app.py:105 | Distinct sanitised names give distinct stored names. A stored name never passes the upload filter. |

## Left out

- Triple-DES itself is not modelled. The block transformation is the parameter `Cipher`, and the round-trip results assume it is a permutation under each key.
- The cipher library's refusal of degenerate keys is not modelled. That refusal covers a key whose thirds make it single DES. It is raised when the cipher is created, so:
  - `encrypt_image` would report "Encryption failed: …" (app/crypto_handler.py:74);
  - `decrypt_image` and `decrypt_image_file` would report "Decryption failed: …" (app/crypto_handler.py:127, 174);
  - it comes before the IV-length check, so under such a key the source never reports `CryptoHandler.Open`'s IV-length fault.
- SHA-256 (FIPS 180-4) is not modelled. It is a parameter from octets to 32-octet digests.
- `generate_multiple_hashes` (SHA-1 and MD5) is left out. It is outside the modelled core.
- Values that are not text or octets are not modelled. A provided hash is a text (`string`), and hashed data is octets or a text (`HashHandler.Input`). Two `except` branches of the source are therefore not modelled:
  - `verify_hash_data` reports "Integrity verification failed: …" when the provided hash has no `lower` method (app/hash_handler.py:134, 144-148). This can happen: app/app.py:195-207 passes the JSON value `hash` straight in, and a non-empty non-text value such as `5` or `true` passes the emptiness guard at app/app.py:197.
  - `verify_hash` reports "Hash verification failed: …" in the same way (app/hash_handler.py:98, 109-113).
  - `generate_hash_from_data` reports "Hash generation failed: …" when hashlib refuses a value that is neither text nor octets (app/hash_handler.py:65, 74-78). The routes only pass it decoded octets.
- Random draws are parameters: the 24 key octets and the 8-octet IV.
- File reading and writing is left out. Files are their contents. A failed read of the file being hashed is the `Unreadable` case. Write failures and read failures in the cipher handler are not modelled.
- `secure_filename` (app/app.py:93) is not modelled. `App.EncryptedFilename` takes the already-sanitised name. Sanitising is not injective ("a b.png" and "a_b.png" both become "a_b.png"), so distinct uploads can share a stored name. Two uploads with the same name also share one, and the second overwrites the first (app/app.py:110).
- The Flask routes, JSON responses, upload folders, `run.py`, `config.py` and the browser script are outside the core.
- Floating-point size reporting in the routes is left out.
- Exception texts: `Describe` uses one representative library message per fault kind. Library versions vary in wording, and the model keeps the kind. Likewise, one text ("Incorrect padding") stands for every base64 error message Python can give, for a key and for an envelope alike. The surrogate failure of hashing text is reported without the offending character and its position, which Python's message names.
- Python's `base64.b64decode` silently discards characters outside the alphabet and accepts non-zero pad bits. The model's decoder is strict RFC 4648. Every statement about the handler's own output is therefore unaffected, but texts the lenient decoder would also take are modelled as refused.
- `str.lower()` is modelled as ASCII lower-casing. Both verdicts that use it still agree with Python's full Unicode mapping:
  - A calculated hash is lower-case hex, and the allowed extensions are ASCII letters. So a match needs a lower-cased text made only of those characters.
  - Outside ASCII, only U+212A (Kelvin sign) lower-cases to an ASCII text, namely "k".
  - "k" is neither a hex digit nor a letter of any allowed extension.
  - U+0130 lower-cases to "i" followed by the non-ASCII U+0307.
  - Every other non-ASCII character lower-cases to non-ASCII text.
  - So under either mapping, a non-ASCII character blocks a match.
- `str.upper()` is modelled as ASCII upper-casing, which is not Python's mapping: `"a.tıff".upper() == "A.TIFF"`, and that flips `allowed_file`. The source never upper-cases a name. `App.AllowedFileIgnoresCase` and `App.UpperCaseExtensionAllowed` speak of ASCII upper case only.
- CryptoHandler.DecryptImageFile: the model does not say that a missing input file is reported before a bad key. File reading is outside the model.
