/** The main results on signing: what AddSignerInfo signed, Verify and VerifyDetached accept. */
module SignedMessages {
  import opened Bytes
  import opened Lengths
  import opened NormalForm
  import opened Order
  import opened Asn1
  import opened Attributes
  import opened Cms
  import opened WireProofs
  import opened Environment
  import opened Signing
  import opened SigningProofs
  import opened Verification
  import opened SignVerify
  import opened EndToEnd

  // ---------------------------------------------------------------- our output is well-formed DER

  lemma OidsValid()
    ensures ValidOid(OID_SHA256) && ValidOid(OID_SHA256_RSA) && ValidOid(OID_ECDSA_SHA256)
    ensures ValidOid(CONTENT_TYPE) && ValidOid(MESSAGE_DIGEST) && ValidOid(SIGNING_TIME) && ValidOid(DATA)
  {
    hide ValidOid;
    NineArcs(CONTENT_TYPE);
    NineArcs(MESSAGE_DIGEST);
    NineArcs(SIGNING_TIME);
    NineArcs(OID_SHA256_RSA);
    NineArcs(DATA);
    Sha256OidValid();
    EcdsaOidValid();
  }

  lemma Sha256OidValid()
    ensures ValidOid(OID_SHA256)
  {
    hide Base128;
    var c := OID_SHA256;
    LastArcs(c, 3);
    assert c[1..][2..] == c[3..];
    TwoOctetArc(c[1..]);
    OneArc(c);
  }

  /** One-octet arcs from position `i` to the end. */
  lemma {:induction false} LastArcs(c: bytes, i: nat)
    requires i <= |c| && forall j :: i <= j < |c| ==> c[j] < 0x80
    ensures Arcs(c[i..])
    decreases |c| - i
  {
    if i >= |c| {
    } else {
      LastArcs(c, i + 1);
      assert c[i..][1..] == c[i + 1..];
      OneArc(c[i..]);
    }
  }

  lemma EcdsaOidValid()
    ensures ValidOid(OID_ECDSA_SHA256)
  {
    hide Base128;
    var c := OID_ECDSA_SHA256;
    LastArcs(c, 5);
    assert c[3..][2..] == c[5..];
    TwoOctetArc(c[3..]);
    assert c[1..][2..] == c[3..];
    TwoOctetArc(c[1..]);
    OneArc(c);
  }

  lemma SignatureOidValid(key: KeyAlgorithm)
    ensures SignatureOid(key, OID_SHA256).Some? ==> ValidOid(SignatureOid(key, OID_SHA256).value)
  {
    hide ValidOid;
    OidsValid();
    DigestMapsInverse(OID_SHA256, SHA256);
  }

  lemma SidWritable(env: Crypto, c: Certificate)
    requires ProperCertificate(env, c) && NewSid(c).Ok?
    ensures IsParsed(NewSid(c).value) && IsDer(NewSid(c).value.full)
  {
    hide Unmarshal, Tlv, FieldsBytes, IsDer, IsDerSeq, ValidInteger, IsParsed, NewSid, CertRaw;
    SidShape(env, c);
    var issuer := Unmarshal(c.rawIssuer).value.value;
    var vs := [Some(issuer), Some(Raw(INTEGER, c.serial))];
    DerPrimitive(INTEGER, c.serial);
    DerFields(vs);
    DerConstructed(SEQUENCE, FieldsBytes(vs));
  }

  lemma StoredSmall(attrs: seq<Attribute>, a: Attribute)
    requires Small(attrs) && a in attrs
    ensures |EncodeAttribute(a)| < MAX_READABLE
  {
    hide EncodeAttribute, Tlv, Flatten;
    var i :| 0 <= i < |attrs| && attrs[i] == a;
    TlvSize(SET, InOrder(attrs));
    FlattenPart(Mapped(attrs, EncodeAttribute), i);
  }

  lemma SingleWritable(typ: bytes, v: RawValue)
    requires ValidOid(typ) && IsDer(v.full) && |EncodeAttribute(Single(typ, v))| < MAX_READABLE
    ensures WfAttribute(Single(typ, v)) && IsDer(Single(typ, v).value.full)
  {
    hide ValidOid, IsDer, IsDerSeq, Tlv;
    TlvSize(SET, v.full);
    assert MarshalRaw(Single(typ, v).value) == Tlv(SET, v.full);
    TlvSize(SEQUENCE, Tlv(OID, typ) + Tlv(SET, v.full));
    SmallRaw(SET, v.full);
    DerWrapped(SET, v.full);
  }

  lemma AttributesWritable(time: RawValue, digest: bytes, typ: bytes)
    requires IsTime(time) && |digest| == 32 && ValidOid(typ) && |typ| < MAX_READABLE
    requires Small(SortAttributes(GeneratedAttributes(time, digest, typ)))
    ensures var attrs := Some(SortAttributes(GeneratedAttributes(time, digest, typ)));
            WfAttributes(attrs) && DeepAttributes(attrs)
  {
    hide ValidOid, IsDer, Tlv, Single, WfAttribute, EncodeAttribute, SortBy, Small;
    var g := GeneratedAttributes(time, digest, typ);
    var stored := SortAttributes(g);
    OidsValid();
    DerPrimitive(time.id, time.content);
    DerPrimitive(OCTET_STRING, digest);
    DerPrimitive(OID, typ);
    forall a | a in stored
      ensures WfAttribute(a) && IsDer(a.value.full)
    {
      StoredSmall(stored, a);
      SortByMember(g, ValueKey, a);
      if a == g[0] {
        SingleWritable(SIGNING_TIME, time);
      } else if a == g[1] {
        SingleWritable(MESSAGE_DIGEST, Raw(OCTET_STRING, digest));
      } else {
        SingleWritable(CONTENT_TYPE, Raw(OID, typ));
      }
    }
  }

  lemma SignerWritable(env: Crypto, si: SignerInfo, c: Certificate, typ: bytes, data: bytes, time: RawValue)
    requires Sha256Length(env) && MadeShape(env, si, c, typ, data, time) && ProperCertificate(env, c)
    requires si.unsignedAttrs.None? && ValidOid(typ) && |typ| < MAX_READABLE
    ensures WfSigner(si) && DeepSigner(si)
  {
    hide ValidOid, IsDer, NewSid, SortAttributes, GeneratedAttributes, IsTime, Small, SignatureOid, ProperCertificate,
      IsParsed;
    OidsValid();
    SignatureOidValid(c.keyAlg);
    SidWritable(env, c);
    var digest := env.hash(SHA256, data);
    assert |digest| == 32;
    AttributesWritable(time, digest, typ);
  }

  lemma SignedShape(env: Crypto, si: SignerInfo, c: Certificate, typ: bytes, data: bytes, time: RawValue)
    requires SignedBy(env, si, c, typ, data, time)
    ensures MadeShape(env, si, c, typ, data, time)
  {
    hide MadeShape, MarshaledForVerification;
  }

  /** The encapsulated content of a message small enough to be read back. */
  lemma ContentWritable(sd: SignedData, typ: bytes, data: bytes)
    requires sd.eci == NewEncapContent(typ, data) || sd.eci == CanonEncap(NewEncapContent(typ, data))
    requires ValidOid(typ) && |ToDer(sd)| < MAX_READABLE
    ensures WfEncap(sd.eci) && IsDer(Completed(sd.eci.content.value).full)
  {
    hide ValidOid, IsDer, Tlv, FieldsBytes;
    InfoSize(sd);
    var vs := SignedFields(sd);
    TlvSize(SEQUENCE, FieldsBytes(vs));
    FieldPart(vs, 2);
    var es := EncapFields(sd.eci);
    TlvSize(SEQUENCE, FieldsBytes(es));
    FieldPart(es, 1);
    var octets := Tlv(OCTET_STRING, data);
    var rv := Completed(sd.eci.content.value);
    assert rv == Raw(CONTEXT_0, octets);
    RawParsed(CONTEXT_0, octets);
    TlvSize(OCTET_STRING, data);
    DerPrimitive(OCTET_STRING, data);
    DerWrapped(CONTEXT_0, octets);
  }

  lemma InfoSize(sd: SignedData)
    requires |ToDer(sd)| < MAX_READABLE
    ensures |SignedRaw(sd).full| < MAX_READABLE
  {
    hide Tlv, FieldsBytes, SignedRaw, IsParsed, DecodeInfo;
    InfoRoundTrip(sd);
  }

  lemma CertsWritable(env: Crypto, sd: SignedData, known: set<Certificate>)
    requires CertsKnown(env, CertList(sd), known)
    ensures WfRaws(sd.certs) && DeepRaws(sd.certs)
  {
    hide ProperCertificate, CertRaw, IsParsed, IsDer;
    forall rv | rv in CertList(sd)
      ensures IsParsed(rv) && IsDer(rv.full)
    {
      var c :| c in known && ProperCertificate(env, c) && CertRaw(c) == rv;
      ProperParses(env, c);
    }
  }

  lemma MessageWritable(env: Crypto, sd: SignedData, typ: bytes, data: bytes, known: set<Certificate>)
    requires Sha256Length(env) && Ready(env, sd, typ, data, known) && ValidOid(typ) && |typ| < MAX_READABLE
    requires sd.version in {VERSION_1, VERSION_3} && sd.crls.None?
    requires forall a :: a in sd.digestAlgs ==> a == DIGEST_ALGORITHM
    requires WfEncap(sd.eci) && (sd.eci.content.Some? ==> IsDer(Completed(sd.eci.content.value).full))
    ensures WfSigned(sd) && DeepSigned(sd)
  {
    hide ProperCertificate, CertRaw, SignedBy, ValidOid, IsDer, WfSigner, DeepSigner, Completed, WfEncap, CertsKnown,
      Sha256Length;
    OidsValid();
    CertsWritable(env, sd, known);
    forall si | si in sd.signerInfos
      ensures WfSigner(si) && DeepSigner(si)
    {
      assert SignerKnown(env, si, CertList(sd), typ, data, known);
      var c, time :| c in known && ProperCertificate(env, c) && CertRaw(c) in CertList(sd)
          && SignedBy(env, si, c, typ, data, time);
      SignedShape(env, si, c, typ, data, time);
      SignerWritable(env, si, c, typ, data, time);
    }
  }

  // ---------------------------------------------------------------- the promise

  /** What is assumed about keys, certificates, hashing and the chain check. */
  ghost predicate Setting(w: World, calls: seq<SignCall>, typ: bytes, data: bytes, known: set<Certificate>) {
    && Sha256Length(w.crypto)
    && GoodCalls(w.crypto, calls, known)
    && (forall c :: c in known ==> ProperCertificate(w.crypto, c))
    && Distinguishable(known)
    && ValidOid(typ) && |typ| < MAX_READABLE && |data| < GO_INT_LIMIT
  }

  /** The message after all the calls. */
  function Message(w: World, calls: seq<SignCall>, typ: bytes, data: bytes): SignedData {
    SignAll(w.crypto, NewSigned(NewEncapContent(typ, data)), calls)
  }

  lemma MessageBuilt(w: World, calls: seq<SignCall>, typ: bytes, data: bytes, known: set<Certificate>)
    requires Setting(w, calls, typ, data, known)
    ensures var sd := Message(w, calls, typ, data);
            && Built(w.crypto, sd, typ, data, known, calls) && Fresh(sd, typ, data)
            && |sd.signerInfos| == Successes(w.crypto, NewSigned(NewEncapContent(typ, data)), calls)
  {
    hide Built, Fresh, GoodCalls, SignAll, Successes, ProperCertificate, Distinguishable, NewEncapContent;
    StartBuilt(w.crypto, typ, data, known, calls);
    RunBuilt(w.crypto, NewSigned(NewEncapContent(typ, data)), calls, typ, data, known, calls);
  }

  lemma MessageReady(w: World, calls: seq<SignCall>, typ: bytes, data: bytes, known: set<Certificate>)
    requires Setting(w, calls, typ, data, known) && |typ| != 32
    ensures var sd := Message(w, calls, typ, data);
            && Ready(w.crypto, sd, typ, data, known) && Fresh(sd, typ, data)
            && |sd.signerInfos| == Successes(w.crypto, NewSigned(NewEncapContent(typ, data)), calls)
  {
    hide Ready, Built, Fresh, GoodCalls, Message, Successes, ProperCertificate, Distinguishable, NewEncapContent;
    MessageBuilt(w, calls, typ, data, known);
    BuiltReady(w.crypto, Message(w, calls, typ, data), typ, data, known, calls);
  }

  lemma ReadableContent(env: Crypto, sd: SignedData, typ: bytes, data: bytes, known: set<Certificate>)
    requires Ready(env, sd, typ, data, known) && sd.signerInfos != [] && sd.eci == NewEncapContent(typ, data)
    ensures EContentValue(sd.eci) == Ok(Some(data))
  {
    hide ProperCertificate, CertRaw, EContentValue, NewEncapContent, CertsKnown;
    var si := sd.signerInfos[0];
    assert SignerKnown(env, si, CertList(sd), typ, data, known);
    var c, time :| c in known && ProperCertificate(env, c) && CertRaw(c) in CertList(sd)
        && SignedBy(env, si, c, typ, data, time);
    NewContent(typ, data);
  }

  /**
   * For every message, content type and sequence of AddSignerInfo calls of which at least one
   * succeeds: Verify accepts the message with one chain entry per successful call, and so does
   * VerifyDetached on the detached one.
   */
  lemma SignedVerifies(w: World, calls: seq<SignCall>, typ: bytes, data: bytes, known: set<Certificate>,
      opts: VerifyOptions, pool: set<Certificate>)
    requires Setting(w, calls, typ, data, known) && |typ| != 32
    requires ChainsAccepted(w.crypto, Message(w, calls, typ, data), known, opts)
    requires Successes(w.crypto, NewSigned(NewEncapContent(typ, data)), calls) > 0
    ensures var n := Successes(w.crypto, NewSigned(NewEncapContent(typ, data)), calls);
            var sd := Message(w, calls, typ, data);
            var attached := Verify(w, sd, opts, pool).result;
            var detached := VerifyDetached(w, Detach(sd), data, opts, pool).result;
            attached.Ok? && |attached.value| == n && detached.Ok? && |detached.value| == n
  {
    hide Ready, Fresh, Message, Successes, VerifyContent, EContentValue, NewEncapContent, ChainsAccepted,
      Distinguishable, ProperCertificate, GoodCalls, ValidOid, LargestSize;
    var sd := Message(w, calls, typ, data);
    MessageReady(w, calls, typ, data, known);
    FreshContent(sd, typ, data);
    ReadyContent(w.crypto, sd, typ, data, known);
    ReadyVerifies(w, sd, typ, data, known, opts, pool);
    DetachKeeps(w.crypto, sd, typ, data, known, opts);
    ReadyVerifies(w, Detach(sd), typ, data, known, opts, pool);
  }

  lemma FreshContent(sd: SignedData, typ: bytes, data: bytes)
    requires Fresh(sd, typ, data)
    ensures sd.eci == NewEncapContent(typ, data) && sd.version in {VERSION_1, VERSION_3} && sd.crls.None?
    ensures forall a :: a in sd.digestAlgs ==> a == DIGEST_ALGORITHM
  {
  }

  lemma ReadyContent(env: Crypto, sd: SignedData, typ: bytes, data: bytes, known: set<Certificate>)
    requires Ready(env, sd, typ, data, known) && Fresh(sd, typ, data) && sd.signerInfos != []
    ensures EContentValue(sd.eci) == Ok(Some(data))
  {
    hide Ready, EContentValue;
    FreshContent(sd, typ, data);
    ReadableContent(env, sd, typ, data, known);
  }

  lemma DetachKeeps(env: Crypto, sd: SignedData, typ: bytes, data: bytes, known: set<Certificate>, opts: VerifyOptions)
    requires Ready(env, sd, typ, data, known)
    ensures Ready(env, Detach(sd), typ, data, known) && Detach(sd).signerInfos == sd.signerInfos
    ensures ChainsAccepted(env, sd, known, opts) ==> ChainsAccepted(env, Detach(sd), known, opts)
  {
    hide SignerKnown, CertsKnown, ChainAccepts, CertRaw;
    assert CertList(Detach(sd)) == CertList(sd);
    assert CertsOf(Detach(sd), known) == CertsOf(sd, known);
  }

  lemma CanonKeeps(env: Crypto, sd: SignedData, typ: bytes, data: bytes, known: set<Certificate>, opts: VerifyOptions)
    requires Ready(env, sd, typ, data, known)
    ensures Ready(env, Canon(sd), typ, data, known) && |Canon(sd).signerInfos| == |sd.signerInfos|
    ensures ChainsAccepted(env, sd, known, opts) ==> ChainsAccepted(env, Canon(sd), known, opts)
    ensures EContentValue(Canon(sd).eci) == EContentValue(sd.eci)
    ensures sd.eci.content.None? ==> Canon(sd).eci.content.None?
  {
    hide Ready, ChainAccepts, CertRaw, EContentValue, SortBy, CertsOf, Completed;
    ReadyCanon(env, sd, typ, data, known);
    CanonContent(sd.eci);
  }

  /**
   * The example of ietf-cms/README.md: what Sign returned, parsed again, is accepted by Verify, with one chain
   * entry per successful call.
   */
  lemma ParsedMessageVerifies(w: World, calls: seq<SignCall>, typ: bytes, data: bytes, known: set<Certificate>,
      opts: VerifyOptions, pool: set<Certificate>)
    requires Setting(w, calls, typ, data, known) && |typ| != 32
    requires ChainsAccepted(w.crypto, Message(w, calls, typ, data), known, opts)
    requires Successes(w.crypto, NewSigned(NewEncapContent(typ, data)), calls) > 0
    requires |ToDer(Message(w, calls, typ, data))| < MAX_READABLE
    ensures var n := Successes(w.crypto, NewSigned(NewEncapContent(typ, data)), calls);
            var parsed := ParseSignedData(ToDer(Message(w, calls, typ, data)));
            && parsed.Ok? && Verify(w, parsed.value, opts, pool).result.Ok?
            && |Verify(w, parsed.value, opts, pool).result.value| == n
  {
    hide Ready, Fresh, Message, Successes, VerifyContent, EContentValue, NewEncapContent, ChainsAccepted,
      Distinguishable, ProperCertificate, GoodCalls, ValidOid, LargestSize, ToDer, ParseSignedData, Canon, WfSigned,
      DeepSigned, WfEncap, Completed, IsDer;
    var sd := Message(w, calls, typ, data);
    MessageReady(w, calls, typ, data, known);
    FreshContent(sd, typ, data);
    ReadyContent(w.crypto, sd, typ, data, known);
    ContentWritable(sd, typ, data);
    MessageWritable(w.crypto, sd, typ, data, known);
    ParseAfterToDer(sd);
    CanonKeeps(w.crypto, sd, typ, data, known, opts);
    ReadyVerifies(w, Canon(sd), typ, data, known, opts, pool);
  }

  /** The same for SignDetached and VerifyDetached. */
  lemma ParsedDetachedVerifies(w: World, calls: seq<SignCall>, typ: bytes, data: bytes, known: set<Certificate>,
      opts: VerifyOptions, pool: set<Certificate>)
    requires Setting(w, calls, typ, data, known) && |typ| != 32
    requires ChainsAccepted(w.crypto, Message(w, calls, typ, data), known, opts)
    requires Successes(w.crypto, NewSigned(NewEncapContent(typ, data)), calls) > 0
    requires |ToDer(Detach(Message(w, calls, typ, data)))| < MAX_READABLE
    ensures var n := Successes(w.crypto, NewSigned(NewEncapContent(typ, data)), calls);
            var parsed := ParseSignedData(ToDer(Detach(Message(w, calls, typ, data))));
            && parsed.Ok? && VerifyDetached(w, parsed.value, data, opts, pool).result.Ok?
            && |VerifyDetached(w, parsed.value, data, opts, pool).result.value| == n
  {
    hide Ready, Fresh, Message, Successes, VerifyContent, NewEncapContent, ChainsAccepted, Distinguishable,
      ProperCertificate, GoodCalls, ValidOid, LargestSize, ToDer, ParseSignedData, Canon, WfSigned, DeepSigned,
      Completed, IsDer, EContentValue;
    var sd := Message(w, calls, typ, data);
    MessageReady(w, calls, typ, data, known);
    FreshContent(sd, typ, data);
    DetachKeeps(w.crypto, sd, typ, data, known, opts);
    EncapType(typ, data);
    assert WfEncap(Detach(sd).eci);
    MessageWritable(w.crypto, Detach(sd), typ, data, known);
    ParseAfterToDer(Detach(sd));
    CanonKeeps(w.crypto, Detach(sd), typ, data, known, opts);
    ReadyVerifies(w, Canon(Detach(sd)), typ, data, known, opts, pool);
  }
}
