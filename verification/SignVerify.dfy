/**
 * The library's promise: what was signed verifies. For every message, every run of AddSignerInfo
 * calls and every content type but those of 32 octets, in memory and after ToDER and
 * ParseSignedData, attached and detached.
 */
module SignVerify {
  import opened Bytes
  import opened Lengths
  import opened NormalForm
  import opened Order
  import opened Asn1
  import opened Attributes
  import opened Cms
  import opened WireProofs
  import opened Environment
  import opened Signing
  import opened SigningProofs
  import opened Nesting
  import opened Verification
  import opened VerifySoundness
  import Ber

  // ---------------------------------------------------------------- what is asked of the surroundings

  /** SHA-256 digests have 32 octets. */
  ghost predicate Sha256Length(env: Crypto) {
    forall m {:trigger env.hash(SHA256, m)} :: |env.hash(SHA256, m)| == 32
  }

  /** What this signer makes of a digest passes the check under every certificate x509 reads for its key. */
  ghost predicate Correct(env: Crypto, signer: Signer) {
    forall cert: Certificate, m: bytes {:trigger env.hash(SHA256, m), cert.pub} ::
      signer.sign(env.hash(SHA256, m), SHA256).Some? && cert.pub.Some? && cert.pub == signer.pub
      && env.parseCertificate(cert.raw) == Some(cert) && KeySignature(cert.keyAlg, SHA256).Some? ==>
        env.checkSignature(cert, KeySignature(cert.keyAlg, SHA256).value, m,
                           signer.sign(env.hash(SHA256, m), SHA256).value)
  }

  /** A certificate as x509 holds it: DER, one TLV for certificate and issuer, a minimal serial. */
  ghost predicate ProperCertificate(env: Crypto, c: Certificate) {
    && Unmarshal(c.raw) == Ok(Split(CertRaw(c), [])) && CertRaw(c).id == SEQUENCE && IsDer(c.raw)
    && env.parseCertificate(c.raw) == Some(c)
    && Unmarshal(c.rawIssuer).Ok? && Unmarshal(c.rawIssuer).value.rest == [] && IsDer(c.rawIssuer)
    && ValidInteger(c.serial) && |c.serial| < MAX_READABLE
  }

  /** x509 reads such a certificate back. */
  lemma ProperRead(env: Crypto, c: Certificate)
    requires ProperCertificate(env, c)
    ensures env.parseCertificate(c.raw) == Some(c)
  {
    hide Unmarshal, IsDer, ValidInteger, CertRaw;
  }

  function CertRaw(c: Certificate): RawValue {
    if Unmarshal(c.raw).Ok? then Unmarshal(c.raw).value.value else NIL_RAW
  }

  /** Issuer and serial number tell certificates apart. */
  ghost predicate Distinguishable(known: set<Certificate>) {
    forall a, b :: a in known && b in known && a.rawIssuer == b.rawIssuer && a.serial == b.serial ==> a == b
  }

  /** The chain check accepts a certificate whenever the given ones are among the intermediates. */
  ghost predicate ChainAccepts(env: Crypto, cert: Certificate, opts: VerifyOptions, base: set<Certificate>) {
    forall pool {:trigger env.verifyChain(cert, opts, pool)} :: base <= pool ==> env.verifyChain(cert, opts, pool).Some?
  }

  // ---------------------------------------------------------------- a signer added by this library

  /** A SignerInfo as AddSignerInfo makes it for `cert`, but for the signature. */
  ghost predicate MadeShape(env: Crypto, si: SignerInfo, cert: Certificate, typ: bytes, econtent: bytes,
      time: RawValue)
  {
    && si.version == VERSION_1 && NewSid(cert) == Ok(si.sid)
    && si.digestAlg == DIGEST_ALGORITHM && env.available(SHA256) && |econtent| < MAX_READABLE
    && SignatureOid(cert.keyAlg, OID_SHA256) == Some(si.sigAlg.oid) && si.sigAlg.params.None?
    && IsTime(time)
    && si.signedAttrs == Some(SortAttributes(GeneratedAttributes(time, env.hash(SHA256, econtent), typ)))
    && Small(si.signedAttrs.value)
  }

  /** Such a SignerInfo whose signature passes the check on the octets that the verifier rebuilds. */
  ghost predicate SignedBy(env: Crypto, si: SignerInfo, cert: Certificate, typ: bytes, econtent: bytes,
      time: RawValue)
  {
    && MadeShape(env, si, cert, typ, econtent, time)
    && KeySignature(cert.keyAlg, SHA256).Some?
    && MarshaledForVerification(si.signedAttrs.value).Ok?
    && env.checkSignature(cert, KeySignature(cert.keyAlg, SHA256).value,
                          MarshaledForVerification(si.signedAttrs.value).value, si.signature)
  }

  lemma OwnTlv(id: bytes, c: bytes)
    requires |id| == 1 && id[0] % 32 != 31 && |c| < GO_INT_LIMIT
    ensures |c| < MAX_READABLE ==> Unmarshal(Tlv(id, c)) == Ok(Asn1.Split(Raw(id, c), []))
    ensures |c| >= MAX_READABLE ==> Unmarshal(Tlv(id, c)).Err?
  {
    hide Unmarshal, Tlv, EncodeLength, Ber.ReadLength;
    if |c| < MAX_READABLE {
      UnmarshalTlv(id, c, []);
      assert Tlv(id, c) + [] == Tlv(id, c);
    } else if Unmarshal(Tlv(id, c)).Ok? {
      var p := Unmarshal(Tlv(id, c)).value;
      UnmarshalInverse(Tlv(id, c));
      ParsedSmall(p.value);
      GoodIdNonEmpty(p.value);
      assert Tlv(id, c) + [] == Tlv(id, c);
      TlvPrefixFree(p.value.id, p.value.content, p.rest, id, c, []);
    }
  }

  lemma TlvBound(id: bytes, c: bytes)
    requires |id| == 1 && |c| < GO_INT_LIMIT
    ensures |Tlv(id, c)| <= |c| + 10
  {
    IntOctetCount(|c|);
  }

  lemma SingleBound(typ: bytes, v: RawValue)
    requires |v.full| + |typ| < GO_INT_LIMIT - 100
    ensures |EncodeAttribute(Single(typ, v))| <= |typ| + |v.full| + 30
  {
    hide Tlv;
    TlvBound(OID, typ);
    TlvBound(SET, v.full);
    TlvSize(SET, v.full);
    var s := Single(typ, v);
    assert MarshalRaw(s.value) == Tlv(SET, v.full);
    TlvBound(SEQUENCE, Tlv(OID, typ) + Tlv(SET, v.full));
  }

  /** The generated attributes are hardly longer than the content type. */
  lemma GeneratedBound(time: RawValue, digest: bytes, typ: bytes)
    requires IsTime(time) && |digest| == 32 && |typ| < MAX_READABLE
    ensures |InOrder(SortAttributes(GeneratedAttributes(time, digest, typ)))| <= |typ| + 300
  {
    hide Tlv, EncodeAttribute, SortBy, ValueKey, Single, IsTime;
    var g := GeneratedAttributes(time, digest, typ);
    var stored := SortAttributes(g);
    SingleTypes(time, digest, typ);
    TimeShape(time);
    TlvBound(OCTET_STRING, digest);
    TlvBound(OID, typ);
    SingleBound(SIGNING_TIME, time);
    SingleBound(MESSAGE_DIGEST, Raw(OCTET_STRING, digest));
    SingleBound(CONTENT_TYPE, Raw(OID, typ));
    SortByKeys(g, ValueKey);
    MappedPermuted(g, stored, EncodeAttribute);
    FlattenLength(Mapped(g, EncodeAttribute), Mapped(stored, EncodeAttribute));
    ThreeInOrder(g);
  }

  lemma ThreeInOrder(g: seq<Attribute>)
    requires |g| == 3
    ensures |InOrder(g)| == |EncodeAttribute(g[0])| + |EncodeAttribute(g[1])| + |EncodeAttribute(g[2])|
  {
    hide EncodeAttribute;
    InOrderFirst(g);
    InOrderFirst(g[1..]);
    InOrderFirst(g[1..][1..]);
    assert g[1..][1..][1..] == [];
  }

  lemma UnwrappedOk(field: bytes)
    requires Unwrapped(field).Ok? && |field| < GO_INT_LIMIT
    ensures |field| < MAX_READABLE && Unwrapped(field) == Ok(field)
  {
    hide Unmarshal, Tlv;
    OwnTlv(SEQUENCE, field);
  }

  /** A signature over the generated attributes is one over what the verifier rebuilds. */
  lemma SignedOctets(time: RawValue, digest: bytes, typ: bytes)
    requires IsTime(time) && |digest| == 32 && |typ| < MAX_READABLE
    requires MarshaledForSigning(SortAttributes(GeneratedAttributes(time, digest, typ))).Ok?
    ensures var stored := SortAttributes(GeneratedAttributes(time, digest, typ));
            Small(stored) && (MarshaledForSigning(stored) == MarshaledForVerification(stored) <==> |typ| != 32)
  {
    hide Tlv, SortAttributes, GeneratedAttributes, EncodeAttribute, Unwrapped, Flatten, Sort, IsTime;
    var stored := SortAttributes(GeneratedAttributes(time, digest, typ));
    GeneratedBound(time, digest, typ);
    var ks := Mapped(stored, EncodeAttribute);
    SortIsSorted(ks);
    FlattenLength(Sort(ks), ks);
    TlvBound(SET, Flatten(Sort(ks)));
    UnwrappedOk(Tlv(SET, Flatten(Sort(ks))));
    EqualTlvSize(SET, Flatten(Sort(ks)), Flatten(ks));
    SignedIsVerified(time, digest, typ);
  }

  lemma NewContent(typ: bytes, data: bytes)
    requires |data| < GO_INT_LIMIT
    ensures EContentValue(NewEncapContent(typ, data)).Ok?
      ==> EContentValue(NewEncapContent(typ, data)) == Ok(Some(data))
    ensures |data| < MAX_READABLE <==> EContentValue(NewEncapContent(typ, data)).Ok?
  {
    hide Unmarshal, Tlv;
    OwnTlv(OCTET_STRING, data);
  }

  lemma OwnTlvNoCopy(s: bytes, x: RawValue)
    requires Unmarshal(s) == Ok(Asn1.Split(x, []))
    ensures s == x.full && IsParsed(x)
  {
    hide Unmarshal, IsParsed;
    UnmarshalInverse(s);
    assert x.full + [] == x.full;
  }

  /** The SignerInfo of AddSignerInfo: its parts, and whose digest was signed. */
  lemma MadeParts(env: Crypto, typ: bytes, data: bytes, cert: Certificate, signer: Signer, now: Clock)
    returns (time: RawValue)
    requires Sha256Length(env) && |data| < GO_INT_LIMIT && |typ| < MAX_READABLE
    requires MakeSigner(env, NewEncapContent(typ, data), cert, signer, now).Ok?
    ensures var si := MakeSigner(env, NewEncapContent(typ, data), cert, signer, now).value;
            && ClockValue(now) == Ok(time) && MadeShape(env, si, cert, typ, data, time) && si.unsignedAttrs.None?
            && var signed := MarshaledForSigning(si.signedAttrs.value);
            && signed.Ok? && signer.sign(env.hash(SHA256, signed.value), SHA256) == Some(si.signature)
            && (signed == MarshaledForVerification(si.signedAttrs.value) <==> |typ| != 32)
  {
    hide NewSid, EContentValue, NewEncapContent, BuildAttributes, MarshaledForSigning, MarshaledForVerification,
      GeneratedAttributes, SortAttributes, IsTime, SignatureOid, DigestToHash, Small;
    EncapType(typ, data);
    NewContent(typ, data);
    DigestMapsInverse(OID_SHA256, SHA256);
    var digest := env.hash(SHA256, data);
    assert |digest| == 32;
    ClockUsed(now, digest, typ);
    time := ClockValue(now).value;
    BuiltAttributes(now, digest, typ);
    SignedOctets(time, digest, typ);
  }

  /**
   * The signature passes the check on the octets that were signed, for every content type. These
   * are the octets the verifier rebuilds exactly when the content type does not take 32 octets, and
   * then the SignerInfo is a valid one.
   */
  lemma MadeSigner(env: Crypto, typ: bytes, data: bytes, cert: Certificate, signer: Signer, now: Clock)
    returns (time: RawValue)
    requires Sha256Length(env) && Correct(env, signer) && cert.pub.Some? && cert.pub == signer.pub
    requires env.parseCertificate(cert.raw) == Some(cert)
    requires |data| < GO_INT_LIMIT && |typ| < MAX_READABLE
    requires MakeSigner(env, NewEncapContent(typ, data), cert, signer, now).Ok?
    ensures var si := MakeSigner(env, NewEncapContent(typ, data), cert, signer, now).value;
            && si.signedAttrs.Some? && si.unsignedAttrs.None? && KeySignature(cert.keyAlg, SHA256).Some?
            && var signed := MarshaledForSigning(si.signedAttrs.value);
            && signed.Ok?
            && env.checkSignature(cert, KeySignature(cert.keyAlg, SHA256).value, signed.value, si.signature)
            && (signed == MarshaledForVerification(si.signedAttrs.value) <==> |typ| != 32)
            && (|typ| != 32 ==> SignedBy(env, si, cert, typ, data, time))
  {
    hide NewSid, MakeSigner, NewEncapContent, MarshaledForSigning, MarshaledForVerification, GeneratedAttributes,
      SortAttributes, Small, IsTime, SignatureOid, KeySignature, DigestToHash, X509Signature;
    time := MadeParts(env, typ, data, cert, signer, now);
    DigestMapsInverse(OID_SHA256, SHA256);
    SignatureTablesAgree(cert.keyAlg, SHA256);
    var si := MakeSigner(env, NewEncapContent(typ, data), cert, signer, now).value;
    assert signer.sign(env.hash(SHA256, MarshaledForSigning(si.signedAttrs.value).value), SHA256).Some?;
  }

  lemma EncapType(typ: bytes, data: bytes)
    ensures NewEncapContent(typ, data).typ == typ
  {
  }

  lemma ClockUsed(now: Clock, digest: bytes, typ: bytes)
    requires BuildAttributes(now, digest, typ).Ok?
    ensures ClockValue(now).Ok?
  {
    hide NewAttribute, SortAttributes;
  }

  // ---------------------------------------------------------------- such a signer is accepted

  lemma SidShape(env: Crypto, c: Certificate)
    requires ProperCertificate(env, c) && NewSid(c).Ok?
    ensures var issuer := Unmarshal(c.rawIssuer).value.value;
            var vs := [Some(issuer), Some(Raw(INTEGER, c.serial))];
            && NewSid(c).value == Raw(SEQUENCE, FieldsBytes(vs))
            && issuer.full == c.rawIssuer && IsParsed(NewSid(c).value) && IsParsed(issuer)
               && IsParsed(Raw(INTEGER, c.serial))
  {
    hide Unmarshal, Tlv, FieldsBytes, IsDer, ValidInteger, IsParsed, CertRaw;
    var issuer := Unmarshal(c.rawIssuer).value.value;
    var vs := [Some(issuer), Some(Raw(INTEGER, c.serial))];
    OwnTlvNoCopy(c.rawIssuer, issuer);
    ParsedSmall(issuer);
    SmallRaw(INTEGER, c.serial);
    TlvBound(INTEGER, c.serial);
    ParsedFullBound(issuer);
    assert vs[1..] == [Some(Raw(INTEGER, c.serial))];
    TwoFieldsBytes(issuer, Raw(INTEGER, c.serial));
    OwnTlv(SEQUENCE, FieldsBytes(vs));
    SequenceParsed(FieldsBytes(vs));
  }

  lemma SequenceParsed(content: bytes)
    requires Unmarshal(Tlv(SEQUENCE, content)) == Ok(Asn1.Split(Raw(SEQUENCE, content), []))
    ensures IsParsed(Raw(SEQUENCE, content))
  {
    hide Unmarshal, IsParsed, Tlv;
    UnmarshalInverse(Tlv(SEQUENCE, content));
  }

  lemma ParsedFullBound(rv: RawValue)
    requires IsParsed(rv)
    ensures |rv.full| < 2 * MAX_READABLE
  {
    hide Ber.ReadHighTag;
    SmallOctetCount(|rv.content|);
  }

  lemma TwoFieldsBytes(a: RawValue, b: RawValue)
    ensures FieldsBytes([Some(a), Some(b)]) == a.full + b.full
  {
    assert [Some(a), Some(b)][1..] == [Some(b)] && [Some(b)][1..] == [];
    assert FieldsBytes([Some(b)]) == b.full + [];
    assert b.full + [] == b.full;
  }

  /** The signer identifier names the certificate it was made from. */
  lemma SidNames(env: Crypto, c: Certificate)
    requires ProperCertificate(env, c) && NewSid(c).Ok?
    ensures IssuerAndSerial(NewSid(c).value) == Ok((c.rawIssuer, c.serial))
  {
    hide Unmarshal, Tlv, FieldsBytes, IsDer, ValidInteger, IsParsed, NewSid, CertRaw, ParseFields;
    var issuer := Unmarshal(c.rawIssuer).value.value;
    var vs := [Some(issuer), Some(Raw(INTEGER, c.serial))];
    SidShape(env, c);
    var sid := NewSid(c).value;
    UnmarshalRaw(sid, []);
    assert sid.full + [] == sid.full;
    assert Conforms(vs, ISSUER_SERIAL_SCHEMA) by {
      assert vs[1..] == [Some(Raw(INTEGER, c.serial))] && ISSUER_SERIAL_SCHEMA[1..] == [Tagged(INTEGER)];
      assert Conforms([Some(Raw(INTEGER, c.serial))], [Tagged(INTEGER)]);
    }
    FieldsRoundTrip(vs, ISSUER_SERIAL_SCHEMA);
  }

  lemma SignedAttributesFound(typ: bytes, digest: bytes, time: RawValue, si: SignerInfo)
    requires si.signedAttrs == Some(SortAttributes(GeneratedAttributes(time, digest, typ)))
    requires IsTime(time) && |digest| == 32 && |typ| < MAX_READABLE && ValidOid(typ)
    ensures ContentTypeAttribute(si) == Ok(typ) && MessageDigestAttribute(si) == Ok(digest)
  {
    hide Tlv, SortAttributes, GeneratedAttributes, GetOnly, Unmarshal, ValidOid, IsTime, IsParsed;
    TimeShape(time);
    GeneratedFound(time, digest, typ);
    OwnTlv(OID, typ);
  }

  /** Every check of verify.go on a SignerInfo of ours passes and ends at the signing certificate. */
  lemma SignerChecks(env: Crypto, si: SignerInfo, cert: Certificate, typ: bytes, econtent: bytes, time: RawValue,
      certs: seq<Certificate>, known: set<Certificate>)
    requires Sha256Length(env) && SignedBy(env, si, cert, typ, econtent, time) && ProperCertificate(env, cert)
    requires cert in certs && (forall c :: c in certs ==> c in known) && Distinguishable(known)
    requires ValidOid(typ) && |typ| < MAX_READABLE
    ensures CheckSigner(env, si, certs, typ, econtent) == Ok(cert)
  {
    hide NewSid, MarshaledForVerification, GeneratedAttributes, SortAttributes, Small, IsTime, SignatureOid,
      KeySignature, DigestToHash, X509Signature, ValidOid, ContentTypeAttribute, MessageDigestAttribute,
      IssuerAndSerial, FirstByIssuer, ProperCertificate;
    var digest := env.hash(SHA256, econtent);
    assert |digest| == 32;
    SignedAttributesFound(typ, digest, time, si);
    DigestMapsInverse(OID_SHA256, SHA256);
    SidNames(env, cert);
    ByIssuerFound(certs, cert.rawIssuer, cert.serial);
    SignatureTablesAgree(cert.keyAlg, SHA256);
    assert FindCertificate(si, certs) == Ok(cert);
    assert SignedMessage(env, si, typ, econtent) == MarshaledForVerification(si.signedAttrs.value);
  }

  /** Without timestamps, a list of checked signers with accepted chains verifies. */
  lemma {:induction false} PlainSignersVerify(w: World, sis: seq<SignerInfo>, certs: seq<Certificate>, typ: bytes,
      econtent: bytes, opts: VerifyOptions, pool: set<Certificate>)
    requires forall si :: si in sis ==>
               && si.unsignedAttrs.None?
               && CheckSigner(w.crypto, si, certs, typ, econtent).Ok?
               && w.crypto.verifyChain(CheckSigner(w.crypto, si, certs, typ, econtent).value, opts, pool).Some?
    ensures var v := VerifySigners(w, sis, certs, typ, econtent, opts, pool);
            v.result.Ok? && |v.result.value| == |sis| && v.pool == pool
    decreases |sis|
  {
    hide CheckSigner, VerifySigner;
    if sis == [] {
    } else {
      PlainSigner(w, sis[0], certs, typ, econtent, opts, pool);
      PlainSignersVerify(w, sis[1..], certs, typ, econtent, opts, pool);
    }
  }

  lemma PlainSigner(w: World, si: SignerInfo, certs: seq<Certificate>, typ: bytes, econtent: bytes,
      opts: VerifyOptions, pool: set<Certificate>)
    requires si.unsignedAttrs.None? && CheckSigner(w.crypto, si, certs, typ, econtent).Ok?
    requires w.crypto.verifyChain(CheckSigner(w.crypto, si, certs, typ, econtent).value, opts, pool).Some?
    ensures var v := VerifySigner(w, si, certs, typ, econtent, opts, pool); v.result.Ok? && v.pool == pool
  {
    hide CheckSigner, GetTimestamp;
    assert HasTimestamp(si) == Ok(false);
    assert WithTime(opts, None) == opts;
  }
}
