/**
 * What the CMS code calls but does not contain: hashes, keys, certificates and path building,
 * as values and functions that are parameters of everything else. The OID tables of oid/oid.go.
 */
module Environment {
  import opened Bytes

  datatype Hash = MD5 | SHA1 | SHA256 | SHA384 | SHA512

  datatype KeyAlgorithm = RSA | ECDSA | OtherKey

  datatype SignatureAlgorithm =
    | WithRSA(hash: Hash)
    | WithECDSA(hash: Hash)
    | DSAWithSHA1

  /**
   * An x509.Certificate. `pub` is the PKIX encoding of its key, None when it cannot be
   * marshalled; `serial` holds the content octets of the INTEGER; times are in nanoseconds;
   * `issuerUrls` comes from the Authority Information Access extension.
   */
  datatype Certificate = Certificate(
    raw: bytes,
    rawIssuer: bytes,
    rawSubject: bytes,
    serial: bytes,
    pub: Option<bytes>,
    keyAlg: KeyAlgorithm,
    subjectKeyIds: seq<bytes>,
    notBefore: int,
    notAfter: int,
    issuerUrls: seq<string>)

  type Chains = seq<seq<Certificate>>

  /** The parts of x509.VerifyOptions the code sets itself. */
  datatype VerifyOptions = VerifyOptions(currentTime: Option<int>, timestamping: bool)

  /** A crypto.Signer: its marshalled public key and what it answers to a digest. */
  datatype Signer = Signer(pub: Option<bytes>, sign: (bytes, Hash) -> Option<bytes>)

  datatype Crypto = Crypto(
    hash: (Hash, bytes) -> bytes,
    available: Hash -> bool,
    parseCertificate: bytes -> Option<Certificate>,
    checkSignature: (Certificate, SignatureAlgorithm, bytes, bytes) -> bool,
    verifyChain: (Certificate, VerifyOptions, set<Certificate>) -> Option<Chains>)

  // ---------------------------------------------------------------- oid/oid.go

  const OID_SHA1: bytes := [0x2B, 0x0E, 0x03, 0x02, 0x1A]
  const OID_MD5: bytes := [0x2A, 0x86, 0x48, 0x86, 0xF7, 0x0D, 0x02, 0x05]
  const OID_SHA256: bytes := [0x60, 0x86, 0x48, 0x01, 0x65, 0x03, 0x04, 0x02, 0x01]
  const OID_SHA384: bytes := [0x60, 0x86, 0x48, 0x01, 0x65, 0x03, 0x04, 0x02, 0x02]
  const OID_SHA512: bytes := [0x60, 0x86, 0x48, 0x01, 0x65, 0x03, 0x04, 0x02, 0x03]

  const OID_RSA: bytes := [0x2A, 0x86, 0x48, 0x86, 0xF7, 0x0D, 0x01, 0x01, 0x01]
  const OID_ECDSA: bytes := [0x2A, 0x86, 0x48, 0xCE, 0x3D, 0x02, 0x01]

  const OID_MD5_RSA: bytes := [0x2A, 0x86, 0x48, 0x86, 0xF7, 0x0D, 0x01, 0x01, 0x04]
  const OID_SHA1_RSA: bytes := [0x2A, 0x86, 0x48, 0x86, 0xF7, 0x0D, 0x01, 0x01, 0x05]
  const OID_SHA256_RSA: bytes := [0x2A, 0x86, 0x48, 0x86, 0xF7, 0x0D, 0x01, 0x01, 0x0B]
  const OID_SHA384_RSA: bytes := [0x2A, 0x86, 0x48, 0x86, 0xF7, 0x0D, 0x01, 0x01, 0x0C]
  const OID_SHA512_RSA: bytes := [0x2A, 0x86, 0x48, 0x86, 0xF7, 0x0D, 0x01, 0x01, 0x0D]
  const OID_DSA_SHA1: bytes := [0x2A, 0x86, 0x48, 0xCE, 0x38, 0x04, 0x03]
  const OID_ECDSA_SHA1: bytes := [0x2A, 0x86, 0x48, 0xCE, 0x3D, 0x04, 0x01]
  const OID_ECDSA_SHA256: bytes := [0x2A, 0x86, 0x48, 0xCE, 0x3D, 0x04, 0x03, 0x02]
  const OID_ECDSA_SHA384: bytes := [0x2A, 0x86, 0x48, 0xCE, 0x3D, 0x04, 0x03, 0x03]
  const OID_ECDSA_SHA512: bytes := [0x2A, 0x86, 0x48, 0xCE, 0x3D, 0x04, 0x03, 0x04]

  /** DigestAlgorithmToCryptoHash. */
  function DigestToHash(oid: bytes): Option<Hash> {
    if oid == OID_SHA1 then Some(SHA1)
    else if oid == OID_MD5 then Some(MD5)
    else if oid == OID_SHA256 then Some(SHA256)
    else if oid == OID_SHA384 then Some(SHA384)
    else if oid == OID_SHA512 then Some(SHA512)
    else None
  }

  /** CryptoHashToDigestAlgorithm. */
  function HashToDigest(h: Hash): bytes {
    match h
    case SHA1 => OID_SHA1
    case MD5 => OID_MD5
    case SHA256 => OID_SHA256
    case SHA384 => OID_SHA384
    case SHA512 => OID_SHA512
  }

  /** The two digest maps are inverse to each other. */
  lemma DigestMapsInverse(oid: bytes, h: Hash)
    ensures DigestToHash(oid) == Some(h) <==> oid == HashToDigest(h)
  {
    assert OID_SHA256[8] != OID_SHA384[8] && OID_SHA384[8] != OID_SHA512[8] && OID_SHA256[8] != OID_SHA512[8];
    assert |OID_SHA1| == 5 && |OID_MD5| == 8 && |OID_SHA256| == 9 && |OID_SHA384| == 9 && |OID_SHA512| == 9;
  }

  /** X509PublicKeyAndDigestAlgorithmToSignatureAlgorithm. */
  function SignatureOid(key: KeyAlgorithm, digest: bytes): Option<bytes> {
    match (key, DigestToHash(digest))
    case (RSA, Some(SHA1)) => Some(OID_SHA1_RSA)
    case (RSA, Some(MD5)) => Some(OID_MD5_RSA)
    case (RSA, Some(SHA256)) => Some(OID_SHA256_RSA)
    case (RSA, Some(SHA384)) => Some(OID_SHA384_RSA)
    case (RSA, Some(SHA512)) => Some(OID_SHA512_RSA)
    case (ECDSA, Some(SHA1)) => Some(OID_ECDSA_SHA1)
    case (ECDSA, Some(SHA256)) => Some(OID_ECDSA_SHA256)
    case (ECDSA, Some(SHA384)) => Some(OID_ECDSA_SHA384)
    case (ECDSA, Some(SHA512)) => Some(OID_ECDSA_SHA512)
    case _ => None
  }

  /** SignatureAlgorithmToX509SignatureAlgorithm. */
  function KnownSignature(sig: bytes): Option<SignatureAlgorithm> {
    if sig == OID_SHA1_RSA then Some(WithRSA(SHA1))
    else if sig == OID_MD5_RSA then Some(WithRSA(MD5))
    else if sig == OID_SHA256_RSA then Some(WithRSA(SHA256))
    else if sig == OID_SHA384_RSA then Some(WithRSA(SHA384))
    else if sig == OID_SHA512_RSA then Some(WithRSA(SHA512))
    else if sig == OID_ECDSA_SHA1 then Some(WithECDSA(SHA1))
    else if sig == OID_ECDSA_SHA256 then Some(WithECDSA(SHA256))
    else if sig == OID_ECDSA_SHA384 then Some(WithECDSA(SHA384))
    else if sig == OID_ECDSA_SHA512 then Some(WithECDSA(SHA512))
    else if sig == OID_DSA_SHA1 then Some(DSAWithSHA1)
    else None
  }

  /** X509SignatureAlgorithm: by signature OID, else by key OID and digest OID. */
  function X509Signature(sig: bytes, digest: bytes): Option<SignatureAlgorithm> {
    if KnownSignature(sig).Some? then KnownSignature(sig)
    else if sig == OID_RSA then
      match DigestToHash(digest)
      case Some(h) => Some(WithRSA(h))
      case None => None
    else if sig == OID_ECDSA then
      match DigestToHash(digest)
      case Some(MD5) => None
      case Some(h) => Some(WithECDSA(h))
      case None => None
    else None
  }

  /** The signature algorithm of a key with a digest. */
  function KeySignature(key: KeyAlgorithm, h: Hash): Option<SignatureAlgorithm> {
    match key
    case RSA => Some(WithRSA(h))
    case ECDSA => if h.MD5? then None else Some(WithECDSA(h))
    case OtherKey => None
  }

  /** The OID chosen for signing is read back as that key's algorithm with that digest. */
  lemma SignatureTablesAgree(key: KeyAlgorithm, h: Hash)
    ensures var oid := SignatureOid(key, HashToDigest(h));
            && (oid.Some? <==> KeySignature(key, h).Some?)
            && (oid.Some? ==> X509Signature(oid.value, HashToDigest(h)) == KeySignature(key, h))
  {
    DigestMapsInverse(HashToDigest(h), h);
    assert OID_SHA1_RSA[8] == 5 && OID_MD5_RSA[8] == 4 && OID_SHA256_RSA[8] == 11 && OID_SHA384_RSA[8] == 12
      && OID_SHA512_RSA[8] == 13;
    assert |OID_ECDSA_SHA1| == 7 && |OID_SHA1_RSA| == 9 && |OID_ECDSA_SHA256| == 8;
    assert OID_ECDSA_SHA256[7] == 2 && OID_ECDSA_SHA384[7] == 3 && OID_ECDSA_SHA512[7] == 4;
  }
  /** A signature OID that names a key and this digest, or a key OID next to the OID of this digest. */
  predicate NamesAlgorithm(sig: bytes, digest: bytes, key: KeyAlgorithm, h: Hash) {
    || SignatureOid(key, HashToDigest(h)) == Some(sig)
    || (digest == HashToDigest(h) && ((key == RSA && sig == OID_RSA) || (key == ECDSA && sig == OID_ECDSA && h != MD5)))
  }

  /**
   * X509SignatureAlgorithm, for every pair of OIDs: the key and the digest that the signature OID
   * names, or the key it names with the digest that the other one names. Nothing else is an
   * algorithm, but for DSA with SHA-1.
   */
  lemma AlgorithmNamed(sig: bytes, digest: bytes, h: Hash)
    ensures X509Signature(sig, digest) == Some(WithRSA(h)) <==> NamesAlgorithm(sig, digest, RSA, h)
    ensures X509Signature(sig, digest) == Some(WithECDSA(h)) <==> NamesAlgorithm(sig, digest, ECDSA, h)
    ensures X509Signature(sig, digest) == Some(DSAWithSHA1) <==> sig == OID_DSA_SHA1
    ensures SignatureOid(ECDSA, HashToDigest(MD5)).None? && SignatureOid(OtherKey, digest).None?
  {
    hide DigestToHash, HashToDigest;
    DigestMapsInverse(digest, h);
    DigestMapsInverse(HashToDigest(h), h);
    DigestMapsInverse(HashToDigest(MD5), MD5);
    SignatureOidsDiffer();
  }

  lemma SignatureOidsDiffer()
    ensures |OID_SHA1_RSA| == 9 && |OID_MD5_RSA| == 9 && |OID_SHA256_RSA| == 9 && |OID_SHA384_RSA| == 9
    ensures |OID_SHA512_RSA| == 9 && |OID_RSA| == 9 && |OID_ECDSA| == 7 && |OID_DSA_SHA1| == 7
    ensures |OID_ECDSA_SHA1| == 7 && |OID_ECDSA_SHA256| == 8 && |OID_ECDSA_SHA384| == 8 && |OID_ECDSA_SHA512| == 8
    ensures OID_RSA[8] == 1 && OID_MD5_RSA[8] == 4 && OID_SHA1_RSA[8] == 5 && OID_SHA256_RSA[8] == 11
    ensures OID_SHA384_RSA[8] == 12 && OID_SHA512_RSA[8] == 13
    ensures OID_ECDSA[5] == 2 && OID_ECDSA_SHA1[5] == 4 && OID_DSA_SHA1[5] == 4
    ensures OID_ECDSA_SHA1[4] == 0x3D && OID_DSA_SHA1[4] == 0x38
    ensures OID_ECDSA_SHA256[7] == 2 && OID_ECDSA_SHA384[7] == 3 && OID_ECDSA_SHA512[7] == 4
  {
  }

  /** A key OID in the place of the signature OID, with each digest. */
  lemma KeyOidWithDigest(h: Hash)
    ensures X509Signature(OID_RSA, HashToDigest(h)) == Some(WithRSA(h))
    ensures X509Signature(OID_ECDSA, HashToDigest(h)) == if h == MD5 then None else Some(WithECDSA(h))
  {
    hide HashToDigest, DigestToHash;
    SignatureOidsDiffer();
    DigestMapsInverse(HashToDigest(h), h);
  }
}
