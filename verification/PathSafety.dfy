/** Content-addressed URIs and paths (packages/artifact-store/src/path-safety.ts and hash.ts). */
module PathSafety {
  import opened Wrappers
  import opened Hex
  import Fips180

  datatype Compression = NONE | GZIP | ZSTD

  datatype PathError = INVALID_URI | INVALID_HASH

  datatype CasUri = CasUri(contentHash: string, extension: string)

  const PREFIX: string := "cas://sha256/"

  predicate IsSha256Hex(s: string) {
    |s| == 64 && forall i :: 0 <= i < |s| ==> IsLowerHex(s[i])
  }

  /** The printed digest of any content is a valid name. */
  lemma DigestTextIsName(bytes: seq<Fips180.Byte>)
    ensures IsSha256Hex(Text(Fips180.Sha256(bytes)))
  {
    hide Fips180.Sha256;
  }

  predicate IsAnyCaseHash(s: string) {
    |s| == 64 && forall i :: 0 <= i < |s| ==> IsHex(s[i])
  }

  /** `toLowerCase` on hexadecimal digits. */
  function LowerChar(c: char): char
  {
    if 'A' <= c <= 'Z' then c - 'A' + 'a' else c
  }

  function Lower(s: string): (t: string)
    ensures |t| == |s| && forall i :: 0 <= i < |s| ==> t[i] == LowerChar(s[i])
  {
    seq(|s|, i requires 0 <= i < |s| => LowerChar(s[i]))
  }

  /** White space and line terminators of ECMA-262, which `trim` removes. */
  predicate IsSpace(c: char) {
    c in {'\t', '\n', '\U{0B}', '\U{0C}', '\r', ' ', '\U{A0}', '\U{1680}', '\U{2028}', '\U{2029}',
          '\U{202F}', '\U{205F}', '\U{3000}', '\U{FEFF}'}
    || '\U{2000}' <= c <= '\U{200A}'
  }

  function TrimStart(s: string): string {
    if s != "" && IsSpace(s[0]) then TrimStart(s[1..]) else s
  }

  function TrimEnd(s: string): string {
    if s != "" && IsSpace(s[|s| - 1]) then TrimEnd(s[..|s| - 1]) else s
  }

  function Trim(s: string): string {
    TrimEnd(TrimStart(s))
  }

  function ExtensionForCompression(c: Compression): string {
    match c
    case NONE => ".bin"
    case GZIP => ".bin.gz"
    case ZSTD => ".bin.zst"
  }

  function CompressionFromExtension(extension: string): Result<Compression, PathError> {
    if extension == ".bin.gz" then Ok(GZIP)
    else if extension == ".bin.zst" then Ok(ZSTD)
    else if extension == ".bin" || extension == "" then Ok(NONE)
    else Err(INVALID_URI)
  }

  function UriForHash(contentHash: string, c: Compression): string {
    PREFIX + Lower(contentHash) + ExtensionForCompression(c)
  }

  predicate IsKnownExtension(extension: string) {
    extension == "" || extension == ".bin" || extension == ".bin.gz" || extension == ".bin.zst"
  }

  function ParseCasUri(storageUri: string): Result<CasUri, PathError> {
    var s := Trim(storageUri);
    if && |s| >= |PREFIX| + 64
       && s[..|PREFIX|] == PREFIX
       && IsAnyCaseHash(s[|PREFIX|..|PREFIX| + 64])
       && IsKnownExtension(s[|PREFIX| + 64..])
    then Ok(CasUri(Lower(s[|PREFIX|..|PREFIX| + 64]), s[|PREFIX| + 64..]))
    else Err(INVALID_URI)
  }

  /** The regular expression: exactly these texts are accepted, and each is split in the one way possible. */
  lemma ParseAcceptsExactly(storageUri: string, hash: string, extension: string)
    requires IsAnyCaseHash(hash) && IsKnownExtension(extension)
    requires Trim(storageUri) == PREFIX + hash + extension
    ensures ParseCasUri(storageUri) == Ok(CasUri(Lower(hash), extension))
  {
    var s := Trim(storageUri);
    assert s[..|PREFIX|] == PREFIX;
    assert s[|PREFIX|..|PREFIX| + 64] == hash;
    assert s[|PREFIX| + 64..] == extension;
  }

  lemma ParseAcceptsOnly(storageUri: string)
    requires ParseCasUri(storageUri).Ok?
    ensures exists hash, extension ::
              && IsAnyCaseHash(hash) && IsKnownExtension(extension)
              && Trim(storageUri) == PREFIX + hash + extension
  {
    var s := Trim(storageUri);
    assert s == PREFIX + s[|PREFIX|..|PREFIX| + 64] + s[|PREFIX| + 64..];
  }

  lemma TrimKeepsTight(s: string)
    requires s != "" && !IsSpace(s[0]) && !IsSpace(s[|s| - 1])
    ensures Trim(s) == s
  {
  }

  /** A URI the store hands out parses to the hash and the codec it was made from. */
  lemma UriRoundTrip(contentHash: string, c: Compression)
    requires IsAnyCaseHash(contentHash)
    ensures ParseCasUri(UriForHash(contentHash, c)) == Ok(CasUri(Lower(contentHash), ExtensionForCompression(c)))
    ensures CompressionFromExtension(ExtensionForCompression(c)) == Ok(c)
  {
    var uri := UriForHash(contentHash, c);
    TrimKeepsTight(uri);
    LowerTwice(contentHash);
    hide Trim, ParseCasUri;
    ParseAcceptsExactly(uri, Lower(contentHash), ExtensionForCompression(c));
  }

  lemma LowerConcat(s: string, t: string)
    ensures Lower(s + t) == Lower(s) + Lower(t)
  {
  }

  lemma ConcatParts(p: string, a: string, b: string, x: string, y: string)
    requires |a| == |x|
    ensures p + a + b == p + x + y <==> a == x && b == y
  {
    assert (p + a + b)[|p|..|p| + |a|] == a && (p + a + b)[|p| + |a|..] == b;
    assert (p + x + y)[|p|..|p| + |a|] == x && (p + x + y)[|p| + |a|..] == y;
  }

  lemma UriParts(storageUri: string) returns (written: string)
    requires ParseCasUri(storageUri).Ok?
    ensures var CasUri(hash, extension) := ParseCasUri(storageUri).value;
            Trim(storageUri) == PREFIX + written + extension && IsAnyCaseHash(written) && hash == Lower(written)
            && IsKnownExtension(extension)
  {
    var s := Trim(storageUri);
    written := s[|PREFIX|..|PREFIX| + 64];
    assert s == PREFIX + written + s[|PREFIX| + 64..];
  }

  lemma LowerParts(written: string, extension: string)
    requires IsKnownExtension(extension)
    ensures Lower(PREFIX + written + extension) == PREFIX + Lower(written) + extension
    ensures Lower(Lower(written)) == Lower(written)
  {
    assert Lower(PREFIX) == PREFIX && Lower(extension) == extension;
    hide Lower;
    LowerConcat(PREFIX + written, extension);
    LowerConcat(PREFIX, written);
    LowerTwice(written);
  }

  lemma LowerTwice(s: string)
    ensures Lower(Lower(s)) == Lower(s)
  {
  }

  lemma ExtensionRoundTrip(extension: string)
    requires IsKnownExtension(extension)
    ensures CompressionFromExtension(extension).Ok?
    ensures extension == ExtensionForCompression(CompressionFromExtension(extension).value) <==> extension != ""
  {
  }

  /** Rebuilding the URI from its parts gives the trimmed text back exactly for lower-case hashes with an extension. */
  lemma UriCanonical(storageUri: string)
    requires ParseCasUri(storageUri).Ok?
    ensures var CasUri(hash, extension) := ParseCasUri(storageUri).value;
            CompressionFromExtension(extension).Ok?
            && (UriForHash(hash, CompressionFromExtension(extension).value) == Trim(storageUri)
                <==> extension != "" && Lower(Trim(storageUri)) == Trim(storageUri))
  {
    var CasUri(hash, extension) := ParseCasUri(storageUri).value;
    var written := UriParts(storageUri);
    ExtensionRoundTrip(extension);
    var c := CompressionFromExtension(extension).value;
    assert UriForHash(hash, c) == PREFIX + Lower(hash) + ExtensionForCompression(c);
    hide *;
    LowerParts(written, extension);
    ConcatParts(PREFIX, Lower(written), extension, written, extension);
    ConcatParts(PREFIX, Lower(written), ExtensionForCompression(c), written, extension);
  }

  /** A file below the artifact root: the shard directory, then the file name. */
  datatype Location = Location(shard: string, file: string)

  function ResolveContentAddressedPath(contentHash: string, extension: string): Result<Location, PathError> {
    var hash := Lower(Trim(contentHash));
    if IsSha256Hex(hash) then Ok(Location(hash[..2], hash + extension)) else Err(INVALID_HASH)
  }

  /** Different artifacts never share a file: the location gives back the hash and the extension. */
  lemma LocationsAreDistinct(h1: string, e1: string, h2: string, e2: string)
    requires IsSha256Hex(h1) && IsSha256Hex(h2)
    ensures ResolveContentAddressedPath(h1, e1).Ok?
    ensures ResolveContentAddressedPath(h1, e1) == ResolveContentAddressedPath(h2, e2) <==> h1 == h2 && e1 == e2
  {
    TrimKeepsTight(h1);
    TrimKeepsTight(h2);
    assert Lower(h1) == h1 && Lower(h2) == h2;
    assert (h1 + e1)[..64] == h1 && (h1 + e1)[64..] == e1;
    assert (h2 + e2)[..64] == h2 && (h2 + e2)[64..] == e2;
  }

  /**
    What a stored artifact is called: the codec's own ending, in the URI and in the file under the first two digits.
   */
  lemma StoredNames(hash: string, c: Compression)
    requires IsSha256Hex(hash)
    ensures var ending := match c case NONE => ".bin" case GZIP => ".bin.gz" case ZSTD => ".bin.zst";
      && UriForHash(hash, c) == "cas://sha256/" + hash + ending
      && ResolveContentAddressedPath(hash, ExtensionForCompression(c)) ==
        Ok(Location([hash[0], hash[1]], hash + ending))
      && CompressionFromExtension(ending) == Ok(c)
  {
    TrimKeepsTight(hash);
    assert Lower(hash) == hash && hash[..2] == [hash[0], hash[1]];
  }

  /** An ending says which codec reads the file; a URI without one is read plain, and no other ending is known. */
  lemma EndingsExactly(ending: string)
    ensures CompressionFromExtension(ending) == Ok(GZIP) <==> ending == ".bin.gz"
    ensures CompressionFromExtension(ending) == Ok(ZSTD) <==> ending == ".bin.zst"
    ensures CompressionFromExtension(ending) == Ok(NONE) <==> ending == ".bin" || ending == ""
    ensures CompressionFromExtension(ending).Err? <==> ending !in {"", ".bin", ".bin.gz", ".bin.zst"}
  {
    assert |".bin.gz"| == 7 && |".bin.zst"| == 8 && |".bin"| == 4;
  }
}
