/**
 * Exactly which content types AddSignerInfo can sign so that Verify accepts: all but those whose
 * identifier takes 32 octets (protocol.go:714-751, verify.go:118-135).
 */
module ContentTypes {
  import opened Bytes
  import opened NormalForm
  import opened Asn1
  import opened Attributes
  import opened Cms
  import opened Environment
  import opened Timestamp
  import opened Signing
  import opened SigningProofs
  import opened Verification
  import opened VerifySoundness
  import opened SignVerify
  import opened EndToEnd
  import opened SignedMessages

  /** The signature made for `signed` does not pass for `rebuilt` as well, unless their digests are the same. */
  ghost predicate ExactOn(env: Crypto, signer: Signer, signed: bytes, rebuilt: bytes) {
    var signature := signer.sign(env.hash(SHA256, signed), SHA256);
    forall cert: Certificate, algo: SignatureAlgorithm ::
      signature.Some? && cert.pub.Some? && cert.pub == signer.pub && env.parseCertificate(cert.raw) == Some(cert)
      && env.checkSignature(cert, algo, rebuilt, signature.value)
      ==> env.hash(SHA256, rebuilt) == env.hash(SHA256, signed)
  }

  /** It does so for the octets that are signed and rebuilt for these attributes. */
  ghost predicate OrderExact(env: Crypto, signer: Signer, attrs: seq<Attribute>) {
    var s := MarshaledForSigning(attrs);
    var v := MarshaledForVerification(attrs);
    s.Ok? && v.Ok? ==> ExactOn(env, signer, s.value, v.value)
  }

  /** It does so for the attributes that this call makes. */
  ghost predicate CallExact(env: Crypto, call: SignCall, typ: bytes, data: bytes) {
    ClockValue(call.now).Ok? ==>
      OrderExact(env, call.signer,
                 SortAttributes(GeneratedAttributes(ClockValue(call.now).value, env.hash(SHA256, data), typ)))
  }

  ghost predicate CallsExact(env: Crypto, calls: seq<SignCall>, typ: bytes, data: bytes) {
    forall call :: call in calls ==> CallExact(env, call, typ, data)
  }

  /** The digest tells the signed octets from the rebuilt ones, unless they are the same. */
  predicate OrderSeen(env: Crypto, attrs: seq<Attribute>) {
    var s := MarshaledForSigning(attrs);
    var v := MarshaledForVerification(attrs);
    s.Ok? && v.Ok? && env.hash(SHA256, s.value) == env.hash(SHA256, v.value) ==> s == v
  }

  /** It does so for the attributes that this call makes. */
  predicate CallSeen(env: Crypto, call: SignCall, typ: bytes, data: bytes) {
    ClockValue(call.now).Ok? ==>
      OrderSeen(env, SortAttributes(GeneratedAttributes(ClockValue(call.now).value, env.hash(SHA256, data), typ)))
  }

  ghost predicate CallsSeen(env: Crypto, calls: seq<SignCall>, typ: bytes, data: bytes) {
    forall call :: call in calls ==> CallSeen(env, call, typ, data)
  }

  /** With a content type of 32 octets the signature is checked over other octets than were signed. */
  lemma SignerFails(env: Crypto, si: SignerInfo, raws: seq<RawValue>, certs: seq<Certificate>, typ: bytes,
      data: bytes, known: set<Certificate>, c: Certificate, call: SignCall)
    requires Sha256Length(env) && |data| < GO_INT_LIMIT && |typ| == 32
    requires MadeWith(env, si, raws, typ, data, known, c, call)
    requires CallExact(env, call, typ, data) && CallSeen(env, call, typ, data)
    requires c in certs && (forall x :: x in certs ==> x in known) && Distinguishable(known)
    ensures CheckSigner(env, si, certs, typ, data).Err?
  {
    hide NewSid, MarshaledForVerification, MarshaledForSigning, GeneratedAttributes, SortAttributes, Small, IsTime,
      MakeSigner, X509Signature, SignedMessage, IssuerAndSerial, FirstByIssuer, ProperCertificate, CertRaw,
      NewEncapContent;
    var time := MadeParts(env, typ, data, c, call.signer, call.now);
    var digest := env.hash(SHA256, data);
    assert |digest| == 32;
    var stored := SortAttributes(GeneratedAttributes(time, digest, typ));
    SignedOctets(time, digest, typ);
    ProperRead(env, c);
    assert OrderSeen(env, stored) && OrderExact(env, call.signer, stored);
    SidNames(env, c);
    ByIssuerFound(certs, c.rawIssuer, c.serial);
    assert FindCertificate(si, certs) == Ok(c);
    if CheckSigner(env, si, certs, typ, data).Ok? {
      MessageIsRebuilt(env, si, typ, data);
    }
  }

  lemma MessageIsRebuilt(env: Crypto, si: SignerInfo, typ: bytes, data: bytes)
    requires si.signedAttrs.Some? && SignedMessage(env, si, typ, data).Ok?
    ensures SignedMessage(env, si, typ, data) == MarshaledForVerification(si.signedAttrs.value)
  {
    hide MarshaledForVerification, ContentTypeAttribute, MessageDigestAttribute, AvailableHash;
  }

  lemma FirstSignerDecides(w: World, sis: seq<SignerInfo>, certs: seq<Certificate>, typ: bytes, econtent: bytes,
      opts: VerifyOptions, pool: set<Certificate>)
    requires sis != [] && CheckSigner(w.crypto, sis[0], certs, typ, econtent).Err?
    ensures VerifySigners(w, sis, certs, typ, econtent, opts, pool).result.Err?
  {
    hide CheckSigner, OptionalTimestamp;
  }

  lemma MadeNamed(env: Crypto, si: SignerInfo, raws: seq<RawValue>, typ: bytes, data: bytes, known: set<Certificate>,
      c: Certificate, call: SignCall)
    requires MadeWith(env, si, raws, typ, data, known, c, call)
    ensures c in known && ProperCertificate(env, c) && CertRaw(c) in raws
  {
    hide ProperCertificate, CertRaw, MakeSigner;
  }

  lemma BuiltFails(w: World, sd: SignedData, typ: bytes, data: bytes, known: set<Certificate>, calls: seq<SignCall>,
      opts: VerifyOptions, pool: set<Certificate>)
    requires Sha256Length(w.crypto) && |data| < GO_INT_LIMIT && |typ| == 32
    requires CallsExact(w.crypto, calls, typ, data) && CallsSeen(w.crypto, calls, typ, data) && Distinguishable(known)
    requires Built(w.crypto, sd, typ, data, known, calls) && sd.signerInfos != []
    ensures VerifyContent(w, sd, data, opts, pool).result.Err?
  {
    hide ProperCertificate, CertRaw, CheckSigner, VerifySigners, ParseAll, CertsKnown, LargestSize, MadeWith, CallExact,
      CallSeen, Sha256Length, Distinguishable;
    var env := w.crypto;
    var si := sd.signerInfos[0];
    CertsParse(env, CertList(sd), known);
    var certs := ParseAll(env, CertList(sd)).value;
    assert SignerMade(env, si, CertList(sd), typ, data, known, calls);
    var c, call :| call in calls && MadeWith(env, si, CertList(sd), typ, data, known, c, call);
    assert CallSeen(env, call, typ, data) && CallExact(env, call, typ, data);
    MadeNamed(env, si, CertList(sd), typ, data, known, c, call);
    SignerFails(env, si, CertList(sd), certs, typ, data, known, c, call);
    FirstSignerDecides(w, sd.signerInfos, certs, typ, data, opts, pool + AsSet(certs));
  }

  lemma DetachedBuilt(env: Crypto, sd: SignedData, typ: bytes, data: bytes, known: set<Certificate>,
      calls: seq<SignCall>)
    requires Built(env, sd, typ, data, known, calls)
    ensures Built(env, Detach(sd), typ, data, known, calls) && Detach(sd).signerInfos == sd.signerInfos
  {
    hide SignerMade, CertsKnown;
    assert CertList(Detach(sd)) == CertList(sd);
  }

  /**
   * For every message and sequence of AddSignerInfo calls with a success: what was signed verifies
   * exactly when the content type does not take 32 octets.
   */
  lemma VerifiesExactly(w: World, calls: seq<SignCall>, typ: bytes, data: bytes, known: set<Certificate>,
      opts: VerifyOptions, pool: set<Certificate>)
    requires Setting(w, calls, typ, data, known)
    requires CallsExact(w.crypto, calls, typ, data) && CallsSeen(w.crypto, calls, typ, data)
    requires ChainsAccepted(w.crypto, Message(w, calls, typ, data), known, opts)
    requires Successes(w.crypto, NewSigned(NewEncapContent(typ, data)), calls) > 0
    ensures var sd := Message(w, calls, typ, data);
            && (Verify(w, sd, opts, pool).result.Ok? <==> |typ| != 32)
            && (VerifyDetached(w, Detach(sd), data, opts, pool).result.Ok? <==> |typ| != 32)
  {
    hide Built, Fresh, Message, Successes, VerifyContent, EContentValue, NewEncapContent, ChainsAccepted,
      Distinguishable, ProperCertificate, GoodCalls, ValidOid, LargestSize, CallsExact, CallsSeen, Sha256Length;
    if |typ| != 32 {
      SignedVerifies(w, calls, typ, data, known, opts, pool);
    } else {
      var sd := Message(w, calls, typ, data);
      MessageBuilt(w, calls, typ, data, known);
      FreshContent(sd, typ, data);
      NewContent(typ, data);
      BuiltFails(w, sd, typ, data, known, calls, opts, pool);
      DetachedBuilt(w.crypto, sd, typ, data, known, calls);
      BuiltFails(w, Detach(sd), typ, data, known, calls, opts, pool);
    }
  }
}
