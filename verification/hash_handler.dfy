/**
  The integrity check of `HashHandler`: SHA-256 digests rendered as lower-case
  hex, and a case-insensitive comparison against a digest the user supplies.
  SHA-256 itself (FIPS 180-4) is not modelled: it is a parameter, any function
  from octet strings to 32-octet digests. Feeding a hasher several chunks is
  the same as feeding it their concatenation, so the streaming hasher's state
  is modelled as the octets fed to it so far.
*/
module HashHandler {
  import opened Wrappers
  import opened Bytes
  import opened Ascii
  import Hex
  import Utf8

  const DIGEST_SIZE: nat := 32

  type Digest = d: seq<byte> | |d| == DIGEST_SIZE
    witness seq(32, _ => 0 as byte)

  type Sha256 = seq<byte> -> Digest

  /** Octets `generate_hash` asks for per `read` call. */
  const CHUNK_SIZE: nat := 4096

  const Algorithm: string := "SHA-256"
  const GeneratedMessage: string := "Hash generated successfully"
  const FailurePrefix: string := "Hash generation failed: "

  /** The hex rendering of a digest: 64 lower-case hex digits that determine it. */
  function HexDigest(d: Digest): (h: string)
    ensures |h| == 2 * DIGEST_SIZE
    ensures IsLower(h)
    ensures forall i :: 0 <= i < |h| ==> Hex.IsLowerHexDigit(h[i])
    ensures Hex.Decode(h) == Some(d)
  {
    Hex.DecodeEncode(d);
    Hex.Encode(d)
  }

  /** The records the handler returns, one constructor per dictionary shape. */
  datatype HashRecord =
    | HashGenerated(hash: string, algorithm: string, message: string)
    | HashVerified(matches: bool, calculatedHash: string, providedHash: string, message: string)
    | HashFailed(message: string)
  {
    predicate Success()
    {
      !HashFailed?
    }
  }

  /** What hashing in memory is given: octets, or a text as its code points. */
  datatype Input = Octets(bytes: seq<byte>) | Text(points: seq<Utf8.CodePoint>)

  /** A `str` is hashed as its UTF-8 encoding, which fails on a lone surrogate. */
  function InputOctets(data: Input): Option<seq<byte>>
  {
    match data
    case Octets(bytes) => Some(bytes)
    case Text(points) => Utf8.Encode(points)
  }

  function GenerateHashFromData(sha: Sha256, data: Input): (r: HashRecord)
    ensures r.Success() <==> data.Octets? || forall i :: 0 <= i < |data.points| ==> !Utf8.IsSurrogate(data.points[i])
    ensures r.Success() ==> r.HashGenerated? && r.algorithm == "SHA-256" && r.message == "Hash generated successfully"
    ensures data.Octets? ==> r.hash == HexDigest(sha(data.bytes))
    ensures data.Text? && r.Success() ==> r.hash == HexDigest(sha(Utf8.Encode(data.points).value))
    ensures r.Success() ==> |r.hash| == 64 && IsLower(r.hash)
    ensures !r.Success() ==> FailurePrefix <= r.message
  {
    match InputOctets(data)
    case None => HashFailed(FailurePrefix + "'utf-8' codec can't encode character: surrogates not allowed")
    case Some(octets) => HashGenerated(HexDigest(sha(octets)), Algorithm, GeneratedMessage)
  }

  /** A text and its UTF-8 octets have the same digest, and an ASCII text's
      octets are its code points. */
  lemma TextHashedAsUtf8(sha: Sha256, points: seq<Utf8.CodePoint>)
    requires forall i :: 0 <= i < |points| ==> points[i] < 0x80
    ensures var octets := seq(|points|, i requires 0 <= i < |points| => points[i] as byte);
      GenerateHashFromData(sha, Text(points)) == GenerateHashFromData(sha, Octets(octets))
  {
    Utf8.EncodeAscii(points);
    var octets := seq(|points|, i requires 0 <= i < |points| => points[i] as byte);
    assert Utf8.Encode(points).value == octets;
  }

  // ---------------------------------------------------------------- files

  /** A file as opening it for binary reading finds it: its contents, or the reason it cannot be read. */
  datatype FileRead = Contents(bytes: seq<byte>) | Unreadable(reason: string)

  /** One read of at most 4096 octets at offset `pos`: empty only at the end of the file. */
  function ReadChunk(contents: seq<byte>, pos: nat): (chunk: seq<byte>)
    requires pos <= |contents|
    ensures |chunk| <= CHUNK_SIZE
    ensures chunk == [] <==> pos == |contents|
    ensures |chunk| < CHUNK_SIZE ==> pos + |chunk| == |contents|
    ensures pos + |chunk| <= |contents| && contents[pos..pos + |chunk|] == chunk
  {
    if |contents| - pos <= CHUNK_SIZE then contents[pos..] else contents[pos..pos + CHUNK_SIZE]
  }

  function Concat(chunks: seq<seq<byte>>): seq<byte>
  {
    if |chunks| == 0 then [] else Concat(chunks[..|chunks| - 1]) + chunks[|chunks| - 1]
  }

  /** Hash a file by reading it in 4096-octet chunks. Also returns the chunks
      read: none empty, none over 4096 octets, all but the last full, and
      together exactly the file, so the digest is the one-shot digest. */
  method GenerateHash(sha: Sha256, file: FileRead) returns (r: HashRecord, chunks: seq<seq<byte>>)
    ensures file.Unreadable? ==> r == HashFailed(FailurePrefix + file.reason) && chunks == []
    ensures file.Contents? ==> r == GenerateHashFromData(sha, Octets(file.bytes))
    ensures file.Contents? ==> Concat(chunks) == file.bytes
    ensures forall i :: 0 <= i < |chunks| ==> 0 < |chunks[i]| <= CHUNK_SIZE
    ensures forall i :: 0 <= i < |chunks| - 1 ==> |chunks[i]| == CHUNK_SIZE
  {
    chunks := [];
    if file.Unreadable? {
      return HashFailed(FailurePrefix + file.reason), chunks;
    }
    var contents := file.bytes;
    var fed: seq<byte> := [];
    var pos: nat := 0;
    var chunk := ReadChunk(contents, pos);
    while chunk != []
      invariant pos <= |contents|
      invariant fed == contents[..pos]
      invariant Concat(chunks) == fed
      invariant chunk == ReadChunk(contents, pos)
      invariant forall i :: 0 <= i < |chunks| ==> 0 < |chunks[i]| <= CHUNK_SIZE
      invariant forall i :: 0 <= i < |chunks| - 1 ==> |chunks[i]| == CHUNK_SIZE
      invariant |chunks| > 0 && |chunks[|chunks| - 1]| < CHUNK_SIZE ==> pos == |contents|
      decreases |contents| - pos
    {
      assert (chunks + [chunk])[..|chunks|] == chunks;
      fed := fed + chunk;
      chunks := chunks + [chunk];
      assert contents[..pos + |chunk|] == contents[..pos] + chunk;
      pos := pos + |chunk|;
      chunk := ReadChunk(contents, pos);
    }
    assert fed == contents;
    r := HashGenerated(HexDigest(sha(fed)), Algorithm, GeneratedMessage);
  }

  // ---------------------------------------------------------------- verification

  /** The comparison of a calculated and a provided digest: equal once both are lower-cased. */
  predicate SameDigestText(calculated: string, provided: string)
  {
    Lower(calculated) == Lower(provided)
  }

  function VerifyHashData(sha: Sha256, data: Input, provided: string): (r: HashRecord)
    ensures GenerateHashFromData(sha, data).HashFailed? ==> r == GenerateHashFromData(sha, data)
    ensures GenerateHashFromData(sha, data).Success() ==>
      && r.HashVerified?
      && r.calculatedHash == GenerateHashFromData(sha, data).hash
      && r.providedHash == provided
      && (r.matches <==> Lower(provided) == r.calculatedHash)
      && r.message == (if r.matches then "Integrity verified successfully" else "Integrity check failed")
  {
    var generated := GenerateHashFromData(sha, data);
    if !generated.HashGenerated? then generated
    else
      var calculated := generated.hash;
      LowerFacts(calculated);
      var matches := SameDigestText(calculated, provided);
      HashVerified(matches, calculated, provided,
        if matches then "Integrity verified successfully" else "Integrity check failed")
  }

  /** Data verified against the upper-cased form of its own digest still matches. */
  lemma UpperCaseDigestMatches(sha: Sha256, bytes: seq<byte>)
    ensures VerifyHashData(sha, Octets(bytes), Upper(HexDigest(sha(bytes)))).matches
  {
    var h := HexDigest(sha(bytes));
    LowerOfUpper(h);
    LowerFacts(h);
  }

  /** A provided hash that is not 64 characters long never matches. */
  lemma WrongLengthNeverMatches(sha: Sha256, data: Input, provided: string)
    requires |provided| != 2 * DIGEST_SIZE
    requires GenerateHashFromData(sha, data).Success()
    ensures !VerifyHashData(sha, data, provided).matches
  {
    LowerFacts(provided);
  }

  /** Verification of a file: the file's hash generation, then the same comparison. */
  method VerifyHash(sha: Sha256, file: FileRead, provided: string) returns (r: HashRecord)
    ensures file.Unreadable? ==> r == HashFailed(FailurePrefix + file.reason)
    ensures file.Contents? ==>
      var onData := VerifyHashData(sha, Octets(file.bytes), provided);
      && r.HashVerified?
      && r.matches == onData.matches
      && r.calculatedHash == onData.calculatedHash
      && r.providedHash == provided
      && r.message == (if r.matches then "Hash verified successfully" else "Hash mismatch: File integrity compromised")
  {
    var generated, _ := GenerateHash(sha, file);
    if !generated.HashGenerated? {
      return generated;
    }
    var calculated := generated.hash;
    var matches := SameDigestText(calculated, provided);
    r := HashVerified(matches, calculated, provided,
      if matches then "Hash verified successfully" else "Hash mismatch: File integrity compromised");
  }
}
