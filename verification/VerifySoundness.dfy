/** What a successful verification has checked, signer by signer, and that nothing else decides. */
module VerifySoundness {
  import opened Bytes
  import opened Errors
  import opened Asn1
  import opened Attributes
  import opened Cms
  import opened Environment
  import opened Timestamp
  import opened Signing
  import opened NormalForm
  import opened Nesting
  import opened Verification

  // ---------------------------------------------------------------- the signed octets

  /** The one value of an attribute type, with nothing else of that type. */
  ghost predicate OnlyValue(attrs: seq<Attribute>, oid: bytes, rv: RawValue) {
    exists i :: OnlyAt(attrs, oid, i) && DecodeAnySet(attrs[i].value) == Ok([rv])
  }

  /** The content type attribute of section 11.1 of RFC 5652: one value, the type of the content. */
  ghost predicate TypeMatches(attrs: seq<Attribute>, typ: bytes) {
    ValidOid(typ) && exists rv :: OnlyValue(attrs, CONTENT_TYPE, rv) && rv.full == Tlv(OID, typ)
  }

  /** The message digest attribute of section 11.2: one value, an OCTET STRING with this digest. */
  ghost predicate DigestMatches(attrs: seq<Attribute>, digest: bytes) {
    exists rv :: OnlyValue(attrs, MESSAGE_DIGEST, rv) && (rv.id == OCTET_STRING || rv.id == OCTET_STRING_COMPOUND)
                 && rv.content == digest
  }

  /** What section 5.4 of RFC 5652 asks of signed attributes. */
  ghost predicate AttributesMatch(env: Crypto, si: SignerInfo, attrs: seq<Attribute>, typ: bytes, econtent: bytes) {
    && TypeMatches(attrs, typ)
    && exists h :: DigestToHash(si.digestAlg.oid) == Some(h) && env.available(h)
                   && DigestMatches(attrs, env.hash(h, econtent))
  }

  /** The message under the signature, and what holds of it. */
  ghost predicate RightMessage(env: Crypto, si: SignerInfo, typ: bytes, econtent: bytes, message: bytes) {
    match si.signedAttrs
    case None => typ == DATA && message == econtent
    case Some(attrs) =>
      AttributesMatch(env, si, attrs, typ, econtent) && MarshaledForVerification(attrs) == Ok(message)
  }

  /** The checks of verify.go:72-121 pass exactly when the attributes match, or are missing for id-data. */
  lemma SignedMessageExactly(env: Crypto, si: SignerInfo, typ: bytes, econtent: bytes, message: bytes)
    ensures SignedMessage(env, si, typ, econtent) == Ok(message) <==> RightMessage(env, si, typ, econtent, message)
  {
    hide MarshaledForVerification, ContentTypeAttribute, MessageDigestAttribute, TypeMatches, DigestMatches,
      DigestToHash;
    if si.signedAttrs.Some? {
      ContentTypeExactly(si, typ);
      if SignerHash(env, si).Ok? {
        DigestExactly(si, env.hash(SignerHash(env, si).value, econtent));
      }
    }
  }

  lemma ContentTypeExactly(si: SignerInfo, typ: bytes)
    requires si.signedAttrs.Some?
    ensures ContentTypeAttribute(si) == Ok(typ) <==> TypeMatches(si.signedAttrs.value, typ)
  {
    hide GetOnly, Unmarshal, ValidOid, Tlv, OnlyValue;
    var attrs := si.signedAttrs.value;
    if ContentTypeAttribute(si) == Ok(typ) {
      var rv := GetOnly(si.signedAttrs, CONTENT_TYPE).value;
      OnlyFound(attrs, CONTENT_TYPE, rv);
      UnmarshalInverse(rv.full);
      assert Unmarshal(rv.full).value.value.full + [] == Unmarshal(rv.full).value.value.full;
    }
    if TypeMatches(attrs, typ) {
      var rv :| OnlyValue(attrs, CONTENT_TYPE, rv) && rv.full == Tlv(OID, typ);
      OnlyFound(attrs, CONTENT_TYPE, rv);
      ElementWhole(attrs, CONTENT_TYPE, rv);
      SameTlv(rv, typ);
    }
  }

  lemma DigestExactly(si: SignerInfo, digest: bytes)
    requires si.signedAttrs.Some?
    ensures MessageDigestAttribute(si) == Ok(digest) <==> DigestMatches(si.signedAttrs.value, digest)
  {
    hide GetOnly, OnlyValue;
    var attrs := si.signedAttrs.value;
    if MessageDigestAttribute(si) == Ok(digest) {
      OnlyFound(attrs, MESSAGE_DIGEST, GetOnly(si.signedAttrs, MESSAGE_DIGEST).value);
    }
    if DigestMatches(attrs, digest) {
      var rv :| OnlyValue(attrs, MESSAGE_DIGEST, rv) && (rv.id == OCTET_STRING || rv.id == OCTET_STRING_COMPOUND)
          && rv.content == digest;
      OnlyFound(attrs, MESSAGE_DIGEST, rv);
    }
  }

  lemma OnlyFound(attrs: seq<Attribute>, oid: bytes, rv: RawValue)
    ensures GetOnly(Some(attrs), oid) == Ok(rv) <==> OnlyValue(attrs, oid, rv)
  {
    hide GetOnly, DecodeAnySet;
    GetOnlyExact(Some(attrs), oid, rv);
  }

  /** An element of an attribute's set is one whole TLV. */
  lemma ElementWhole(attrs: seq<Attribute>, oid: bytes, rv: RawValue)
    requires OnlyValue(attrs, oid, rv)
    ensures IsParsed(rv) && Unmarshal(rv.full) == Ok(Asn1.Split(rv, []))
  {
    hide Unmarshal, IsParsed, UnmarshalAll;
    var i :| OnlyAt(attrs, oid, i) && DecodeAnySet(attrs[i].value) == Ok([rv]);
    UnmarshalAllInverse(attrs[i].value.content);
    assert IsParsed([rv][0]);
    UnmarshalRaw(rv, []);
    assert rv.full + [] == rv.full;
  }

  lemma SameTlv(rv: RawValue, content: bytes)
    requires IsParsed(rv) && rv.full == Tlv(OID, content)
    ensures rv == Raw(OID, content)
  {
    hide Tlv, Unmarshal;
    ParsedSmall(rv);
    GoodIdNonEmpty(rv);
    assert rv.full + [] == rv.full;
    UnmarshalRaw(rv, []);
    UnmarshalInverse(rv.full);
    TlvSize(OID, content);
    TlvPrefixFree(rv.id, rv.content, [], OID, content, []);
  }

  // ---------------------------------------------------------------- the certificate

  /** The certificates of a message are read exactly when each is a SEQUENCE that x509 reads, in order. */
  lemma {:induction false} CertificatesExactly(env: Crypto, raws: seq<RawValue>, certs: seq<Certificate>)
    ensures ParseAll(env, raws) == Ok(certs)
            <==> |certs| == |raws|
                 && forall i :: 0 <= i < |raws| ==>
                                  && (raws[i].id == [0x30] || raws[i].id == [0x10])
                                  && env.parseCertificate(raws[i].full) == Some(certs[i])
  {
    if raws == [] {
    } else if certs == [] {
    } else {
      CertificatesExactly(env, raws[1..], certs[1..]);
      assert certs == [certs[0]] + certs[1..];
    }
  }

  /** The signer identifier names this certificate. */
  predicate Names(si: SignerInfo, cert: Certificate) {
    || (si.version == VERSION_1 && IssuerAndSerial(si.sid) == Ok((cert.rawIssuer, cert.serial)))
    || (si.version == VERSION_3 && (si.sid.id == CONTEXT_0 || si.sid.id == CONTEXT_0_PRIMITIVE)
        && si.sid.content in cert.subjectKeyIds)
  }

  /** The first certificate of the message that the signer identifier names. */
  ghost predicate Identified(si: SignerInfo, certs: seq<Certificate>, cert: Certificate) {
    exists i :: 0 <= i < |certs| && FirstNamed(si, certs, i) && certs[i] == cert
  }

  predicate FirstNamed(si: SignerInfo, certs: seq<Certificate>, i: nat)
    requires i < |certs|
  {
    Names(si, certs[i]) && forall j :: 0 <= j < i ==> !Names(si, certs[j])
  }

  lemma {:induction false} IssuerPosition(certs: seq<Certificate>, issuer: bytes, serial: bytes) returns (i: nat)
    ensures i <= |certs|
    ensures forall j :: 0 <= j < i ==> !(certs[j].rawIssuer == issuer && certs[j].serial == serial)
    ensures i < |certs| ==> certs[i].rawIssuer == issuer && certs[i].serial == serial
    ensures FirstByIssuer(certs, issuer, serial) == if i < |certs| then Ok(certs[i]) else Err(NoCertificate)
  {
    if certs == [] || (certs[0].rawIssuer == issuer && certs[0].serial == serial) {
      i := 0;
    } else {
      var k := IssuerPosition(certs[1..], issuer, serial);
      i := k + 1;
      assert forall j :: 1 <= j < |certs| ==> certs[j] == certs[1..][j - 1];
    }
  }

  lemma {:induction false} KeyIdPosition(certs: seq<Certificate>, ski: bytes) returns (i: nat)
    ensures i <= |certs|
    ensures forall j :: 0 <= j < i ==> ski !in certs[j].subjectKeyIds
    ensures i < |certs| ==> ski in certs[i].subjectKeyIds
    ensures FirstByKeyId(certs, ski) == if i < |certs| then Ok(certs[i]) else Err(NoCertificate)
  {
    if certs == [] || ski in certs[0].subjectKeyIds {
      i := 0;
    } else {
      var k := KeyIdPosition(certs[1..], ski);
      i := k + 1;
      assert forall j :: 1 <= j < |certs| ==> certs[j] == certs[1..][j - 1];
    }
  }

  lemma VersionsDiffer()
    ensures VERSION_1 != VERSION_3
  {
    assert VERSION_1[0] != VERSION_3[0];
  }

  /**
   * FindCertificate returns a certificate exactly when it is the first one that the identifier
   * names; it fails exactly when the message has none.
   */
  lemma FoundExactly(si: SignerInfo, certs: seq<Certificate>, cert: Certificate)
    ensures FindCertificate(si, certs) == Ok(cert) <==> Identified(si, certs, cert)
    ensures FindCertificate(si, certs).Err? <==> forall c :: c in certs ==> !Names(si, c)
  {
    hide IssuerAndSerial, FirstByIssuer, FirstByKeyId;
    VersionsDiffer();
    if si.version == VERSION_1 && IssuerAndSerial(si.sid).Ok? {
      var isn := IssuerAndSerial(si.sid).value;
      var i := IssuerPosition(certs, isn.0, isn.1);
      FirstDecides(si, certs, i, cert);
    } else if si.version == VERSION_3 && (si.sid.id == CONTEXT_0 || si.sid.id == CONTEXT_0_PRIMITIVE) {
      var i := KeyIdPosition(certs, si.sid.content);
      FirstDecides(si, certs, i, cert);
    }
  }

  lemma FirstDecides(si: SignerInfo, certs: seq<Certificate>, i: nat, cert: Certificate)
    requires i <= |certs| && (forall j :: 0 <= j < i ==> !Names(si, certs[j]))
    requires i < |certs| ==> Names(si, certs[i])
    ensures Identified(si, certs, cert) <==> i < |certs| && certs[i] == cert
    ensures i == |certs| <==> forall c :: c in certs ==> !Names(si, c)
  {
    hide Names;
    if i < |certs| {
      assert FirstNamed(si, certs, i) && certs[i] in certs;
    }
  }

  lemma ByIssuerFound(certs: seq<Certificate>, issuer: bytes, serial: bytes)
    ensures FirstByIssuer(certs, issuer, serial).Ok? ==>
              var c := FirstByIssuer(certs, issuer, serial).value;
              c in certs && c.rawIssuer == issuer && c.serial == serial
    ensures FirstByIssuer(certs, issuer, serial).Err? ==>
              forall c :: c in certs ==> !(c.rawIssuer == issuer && c.serial == serial)
  {
    hide FirstByIssuer;
    var i := IssuerPosition(certs, issuer, serial);
  }

  // ---------------------------------------------------------------- the timestamp

  /**
   * The token of a signer: the only one, a SignedData of type id-ct-TSTInfo that verifies with these
   * options, over a version 1 TSTInfo whose imprint is that of this signature. The pool is the one
   * that its verification leaves behind.
   */
  ghost predicate TokenVerified(w: World, si: SignerInfo, opts: VerifyOptions, start: set<Certificate>, info: Info,
      pool: set<Certificate>)
  {
    exists rv, tst, octets ::
      && OnlyValue(UnsignedList(si), TIME_STAMP_TOKEN, rv)
      && ParseSignedData(rv.full) == Ok(tst)
      && HoldsInfo(w, tst.eci, octets, info) && info.version == 1
      && Verify(w, tst, opts, start).result.Ok? && Verify(w, tst, opts, start).pool == pool
      && ImprintOf(w.crypto, info, si.signature)
  }

  /** The content has the type id-ct-TSTInfo, and its octets are this TSTInfo. */
  predicate HoldsInfo(w: World, eci: EncapContent, octets: bytes, info: Info) {
    eci.typ == TST_INFO && EContentValue(eci) == Ok(Some(octets)) && w.parseInfo(octets) == Some(info)
  }

  function UnsignedList(si: SignerInfo): seq<Attribute> {
    if si.unsignedAttrs.Some? then si.unsignedAttrs.value else []
  }

  /** The imprint has no parameters to speak of, and stands for exactly these signature octets. */
  ghost predicate ImprintOf(env: Crypto, info: Info, signature: bytes) {
    && (ParamContent(info.imprint.alg) == [] || ParamFull(info.imprint.alg) == [])
    && exists h :: DigestToHash(info.imprint.alg.oid) == Some(h) && env.available(h)
                   && info.imprint.hashed == env.hash(h, signature)
  }

  lemma ImprintExactly(env: Crypto, info: Info, signature: bytes)
    ensures if ImprintOf(env, info, signature) then CheckImprint(env, info, signature) == Ok(info)
            else CheckImprint(env, info, signature).Err?
  {
    hide DigestToHash, HashToDigest;
    if DigestToHash(info.imprint.alg.oid).Some? {
      DigestMapsInverse(info.imprint.alg.oid, DigestToHash(info.imprint.alg.oid).value);
    }
  }

  lemma InfoExactly(w: World, eci: EncapContent, info: Info)
    ensures ParseInfo(w.parseInfo, eci) == Ok(info) <==> exists octets :: HoldsInfo(w, eci, octets, info)
  {
    hide EContentValue;
    if ParseInfo(w.parseInfo, eci) == Ok(info) {
      assert HoldsInfo(w, eci, EContentValue(eci).value.value, info);
    }
  }

  lemma TimestampExactly(w: World, si: SignerInfo, opts: VerifyOptions, start: set<Certificate>, info: Info,
      pool: set<Certificate>)
    ensures GetTimestamp(w, si, opts, start) == Verified(Ok(info), pool)
            <==> TokenVerified(w, si, opts, start, info, pool)
  {
    hide ParseSignedData, GetOnly, Verify, ParseInfo, CheckImprint, ImprintOf, OnlyValue, HoldsInfo, LargestSize,
      TokenSize;
    if GetTimestamp(w, si, opts, start) == Verified(Ok(info), pool) {
      var rv := Token(si).value;
      TokenFound(si, rv);
      var tst := OpenToken(w, rv.full).value;
      ImprintExactly(w.crypto, tst.1, si.signature);
      InfoExactly(w, tst.0.eci, tst.1);
      var octets :| HoldsInfo(w, tst.0.eci, octets, tst.1);
    }
    if TokenVerified(w, si, opts, start, info, pool) {
      var rv, tst, octets :|
        && OnlyValue(UnsignedList(si), TIME_STAMP_TOKEN, rv)
        && ParseSignedData(rv.full) == Ok(tst)
        && HoldsInfo(w, tst.eci, octets, info) && info.version == 1
        && Verify(w, tst, opts, start).result.Ok? && Verify(w, tst, opts, start).pool == pool
        && ImprintOf(w.crypto, info, si.signature);
      TokenFound(si, rv);
      InfoExactly(w, tst.eci, info);
      ImprintExactly(w.crypto, info, si.signature);
    }
  }

  lemma TokenFound(si: SignerInfo, rv: RawValue)
    ensures Token(si) == Ok(rv) <==> OnlyValue(UnsignedList(si), TIME_STAMP_TOKEN, rv)
  {
    hide DecodeAnySet;
    GetOnlyExact(si.unsignedAttrs, TIME_STAMP_TOKEN, rv);
  }

  // ---------------------------------------------------------------- one signer, all signers

  ghost predicate Stamped(si: SignerInfo) {
    exists i :: 0 <= i < |UnsignedList(si)| && UnsignedList(si)[i].typ == TIME_STAMP_TOKEN
  }

  /**
   * Everything that is checked for one SignerInfo before its chain entry is returned. A timestamp is
   * verified with the caller's time, and its own time stands in for the chain when there is none.
   */
  ghost predicate Accepted(w: World, si: SignerInfo, certs: seq<Certificate>, typ: bytes, econtent: bytes,
      opts: VerifyOptions, chains: Chains, cert: Certificate, info: Option<Info>, start: set<Certificate>,
      pool: set<Certificate>)
  {
    && Identified(si, certs, cert)
    && SignatureChecks(w.crypto, si, typ, econtent, cert)
    && (info.Some? <==> Stamped(si))
    && match info
       case None => pool == start && w.crypto.verifyChain(cert, opts, pool) == Some(chains)
       case Some(stamp) =>
         && TokenVerified(w, si, VerifyOptions(opts.currentTime, true), start, stamp, pool)
         && Accepts(stamp, cert.notBefore, cert.notAfter)
         && w.crypto.verifyChain(cert, VerifyOptions(TimeOr(opts.currentTime, stamp.genTime), opts.timestamping), pool)
            == Some(chains)
  }

  /** The stated time if there is one. */
  function TimeOr(stated: Option<int>, time: int): Option<int> {
    if stated.Some? then stated else Some(time)
  }

  /** The signature passes under this certificate on the right octets. */
  ghost predicate SignatureChecks(env: Crypto, si: SignerInfo, typ: bytes, econtent: bytes, cert: Certificate) {
    exists message, algo ::
      && RightMessage(env, si, typ, econtent, message)
      && X509Signature(si.sigAlg.oid, si.digestAlg.oid) == Some(algo)
      && env.checkSignature(cert, algo, message, si.signature)
  }

  lemma HasTimestampExact(si: SignerInfo)
    requires HasTimestamp(si).Ok?
    ensures HasTimestamp(si).value <==> Stamped(si)
  {
    hide Values;
    if si.unsignedAttrs.Some? {
      var attrs := si.unsignedAttrs.value;
      ValuesNone(attrs, TIME_STAMP_TOKEN);
      assert UnsignedList(si) == attrs;
      if Stamped(si) {
        var i :| 0 <= i < |attrs| && attrs[i].typ == TIME_STAMP_TOKEN;
        assert Values(attrs, TIME_STAMP_TOKEN).value != [];
      } else {
        assert forall j :: 0 <= j < |attrs| ==> UnsignedList(si)[j].typ != TIME_STAMP_TOKEN;
        assert Values(attrs, TIME_STAMP_TOKEN).value == [];
      }
    }
  }

  /** Without a token there is none to read, and one good token can be read. */
  lemma HasTimestampReadable(si: SignerInfo)
    ensures !Stamped(si) || Token(si).Ok? ==> HasTimestamp(si).Ok?
  {
    hide Values;
    if !Stamped(si) && si.unsignedAttrs.Some? {
      var attrs := si.unsignedAttrs.value;
      assert UnsignedList(si) == attrs;
      forall j | 0 <= j < |attrs|
        ensures attrs[j].typ != TIME_STAMP_TOKEN
      {
        assert UnsignedList(si)[j] == attrs[j];
      }
      ValuesAbsent(attrs, TIME_STAMP_TOKEN);
    }
  }

  /** Certificate and signature are accepted exactly when both checks of verify.go:72-135 hold. */
  lemma CheckSignerExactly(env: Crypto, si: SignerInfo, certs: seq<Certificate>, typ: bytes, econtent: bytes,
      cert: Certificate)
    ensures CheckSigner(env, si, certs, typ, econtent) == Ok(cert)
            <==> Identified(si, certs, cert) && SignatureChecks(env, si, typ, econtent, cert)
  {
    hide SignedMessage, FindCertificate, X509Signature, RightMessage, Identified, Names;
    FoundExactly(si, certs, cert);
    if SignedMessage(env, si, typ, econtent).Ok? {
      SignedMessageExactly(env, si, typ, econtent, SignedMessage(env, si, typ, econtent).value);
    }
    if SignatureChecks(env, si, typ, econtent, cert) {
      var message, algo :|
        && RightMessage(env, si, typ, econtent, message)
        && X509Signature(si.sigAlg.oid, si.digestAlg.oid) == Some(algo)
        && env.checkSignature(cert, algo, message, si.signature);
      SignedMessageExactly(env, si, typ, econtent, message);
    }
  }

  /** One round of the loop returns a chain entry exactly when everything it checks holds. */
  lemma SignerExactly(w: World, si: SignerInfo, certs: seq<Certificate>, typ: bytes, econtent: bytes,
      opts: VerifyOptions, start: set<Certificate>, chains: Chains, pool: set<Certificate>)
    ensures VerifySigner(w, si, certs, typ, econtent, opts, start) == Verified(Ok(chains), pool)
            <==> exists cert, info :: Accepted(w, si, certs, typ, econtent, opts, chains, cert, info, start, pool)
  {
    hide CheckSigner, GetTimestamp, Identified, SignatureChecks, TokenVerified, Stamped, HasTimestamp, Accepts,
      SignerSize;
    if VerifySigner(w, si, certs, typ, econtent, opts, start) == Verified(Ok(chains), pool) {
      var cert, info := SignerSound(w, si, certs, typ, econtent, opts, start);
    }
    if cert, info :| Accepted(w, si, certs, typ, econtent, opts, chains, cert, info, start, pool) {
      CheckSignerExactly(w.crypto, si, certs, typ, econtent, cert);
      if info.Some? {
        TimestampExactly(w, si, VerifyOptions(opts.currentTime, true), start, info.value, pool);
        TimestampToken(w, si, VerifyOptions(opts.currentTime, true), start);
      }
      HasTimestampReadable(si);
      HasTimestampExact(si);
    }
  }

  lemma TimestampToken(w: World, si: SignerInfo, opts: VerifyOptions, start: set<Certificate>)
    requires GetTimestamp(w, si, opts, start).result.Ok?
    ensures Token(si).Ok?
  {
    hide OpenToken, CheckImprint, Verify, GetOnly, TokenSize, LargestSize;
  }

  lemma SignerSound(w: World, si: SignerInfo, certs: seq<Certificate>, typ: bytes, econtent: bytes,
      opts: VerifyOptions, start: set<Certificate>)
    returns (cert: Certificate, info: Option<Info>)
    requires VerifySigner(w, si, certs, typ, econtent, opts, start).result.Ok?
    ensures var v := VerifySigner(w, si, certs, typ, econtent, opts, start);
            Accepted(w, si, certs, typ, econtent, opts, v.result.value, cert, info, start, v.pool)
  {
    hide CheckSigner, GetTimestamp, Identified, SignatureChecks, TokenVerified, Stamped, HasTimestamp, Accepts,
      SignerSize;
    cert := CheckSigner(w.crypto, si, certs, typ, econtent).value;
    CheckSignerExactly(w.crypto, si, certs, typ, econtent, cert);
    HasTimestampExact(si);
    var ts := OptionalTimestamp(w, si, opts, start);
    info := ts.result.value;
    if info.Some? {
      TimestampExactly(w, si, VerifyOptions(opts.currentTime, true), start, info.value, ts.pool);
    }
  }

  /**
   * An accepted timestamp: whenever in its interval the token was made, the certificate was valid,
   * for every accuracy below 2^63 nanoseconds.
   */
  lemma StampInsideValidity(w: World, si: SignerInfo, certs: seq<Certificate>, typ: bytes, econtent: bytes,
      opts: VerifyOptions, chains: Chains, cert: Certificate, info: Info, start: set<Certificate>,
      pool: set<Certificate>)
    requires Accepted(w, si, certs, typ, econtent, opts, chains, cert, Some(info), start, pool)
    requires Nanoseconds(info.accuracy) < 0x8000_0000_0000_0000
    ensures IntervalInside(info, cert.notBefore, cert.notAfter)
  {
    hide SignatureChecks, Identified, TokenVerified, Stamped, Accepts, IntervalInside;
    WindowGuards(info);
  }

  /** The pool only grows, through nested tokens as well. */
  lemma {:induction false} PoolGrows(w: World, sis: seq<SignerInfo>, certs: seq<Certificate>, typ: bytes,
      econtent: bytes, opts: VerifyOptions, pool: set<Certificate>)
    ensures pool <= VerifySigners(w, sis, certs, typ, econtent, opts, pool).pool
    decreases LargestSize(sis).p, LargestSize(sis).n, |sis|, 3
  {
    hide VerifySigner;
    if sis == [] {
    } else {
      SignerPoolGrows(w, sis[0], certs, typ, econtent, opts, pool);
      var first := VerifySigner(w, sis[0], certs, typ, econtent, opts, pool);
      PoolGrows(w, sis[1..], certs, typ, econtent, opts, first.pool);
    }
  }

  lemma {:induction false} SignerPoolGrows(w: World, si: SignerInfo, certs: seq<Certificate>, typ: bytes,
      econtent: bytes, opts: VerifyOptions, pool: set<Certificate>)
    ensures pool <= VerifySigner(w, si, certs, typ, econtent, opts, pool).pool
    decreases SignerSize(si).p, SignerSize(si).n, 0, 2
  {
    hide CheckSigner, CheckChain, GetTimestamp, HasTimestamp;
    TokenPoolGrows(w, si, opts.(timestamping := true), pool);
  }

  lemma {:induction false} TokenPoolGrows(w: World, si: SignerInfo, opts: VerifyOptions, pool: set<Certificate>)
    ensures pool <= GetTimestamp(w, si, opts, pool).pool
    decreases SignerSize(si).p, SignerSize(si).n, 0, 1
  {
    hide OpenToken, CheckImprint, Verify, GetOnly, TokenSize, LargestSize;
    if Token(si).Err? || OpenToken(w, Token(si).value.full).Err? {
    } else {
      OpenedSmaller(w, Token(si).value.full);
      MessagePoolGrows(w, OpenToken(w, Token(si).value.full).value.0, opts, pool);
    }
  }

  lemma {:induction false} MessagePoolGrows(w: World, sd: SignedData, opts: VerifyOptions, pool: set<Certificate>)
    ensures pool <= Verify(w, sd, opts, pool).pool
    decreases LargestSize(sd.signerInfos).p, LargestSize(sd.signerInfos).n, |sd.signerInfos|, 5
  {
    hide EContentValue, X509Certificates, VerifySigners, LargestSize;
    if EContentValue(sd.eci).Ok? && EContentValue(sd.eci).value.Some? && X509Certificates(w.crypto, sd).Ok? {
      var certs := X509Certificates(w.crypto, sd).value;
      PoolGrows(w, sd.signerInfos, certs, sd.eci.typ, EContentValue(sd.eci).value.value, opts, pool + AsSet(certs));
    }
  }

  /** Each signer's acceptance, with a pool between the one at the start and the one at the end. */
  ghost predicate AcceptedWithin(w: World, si: SignerInfo, certs: seq<Certificate>, typ: bytes, econtent: bytes,
      opts: VerifyOptions, chains: Chains, low: set<Certificate>, high: set<Certificate>)
  {
    exists cert, info, start, pool :: low <= start <= pool <= high
        && Accepted(w, si, certs, typ, econtent, opts, chains, cert, info, start, pool)
  }

  lemma {:induction false} SignersSound(w: World, sis: seq<SignerInfo>, certs: seq<Certificate>, typ: bytes,
      econtent: bytes, opts: VerifyOptions, pool: set<Certificate>)
    requires VerifySigners(w, sis, certs, typ, econtent, opts, pool).result.Ok?
    ensures var v := VerifySigners(w, sis, certs, typ, econtent, opts, pool);
            && |v.result.value| == |sis|
            && forall i :: 0 <= i < |sis| ==>
                             AcceptedWithin(w, sis[i], certs, typ, econtent, opts, v.result.value[i], pool, v.pool)
    decreases |sis|
  {
    hide VerifySigner, Accepted;
    if sis == [] {
    } else {
      var first := VerifySigner(w, sis[0], certs, typ, econtent, opts, pool);
      var cert, info := SignerSound(w, sis[0], certs, typ, econtent, opts, pool);
      SignerPoolGrows(w, sis[0], certs, typ, econtent, opts, pool);
      PoolGrows(w, sis[1..], certs, typ, econtent, opts, first.pool);
      SignersSound(w, sis[1..], certs, typ, econtent, opts, first.pool);
      var v := VerifySigners(w, sis, certs, typ, econtent, opts, pool);
      var rest := VerifySigners(w, sis[1..], certs, typ, econtent, opts, first.pool);
      forall i | 0 <= i < |sis|
        ensures AcceptedWithin(w, sis[i], certs, typ, econtent, opts, v.result.value[i], pool, v.pool)
      {
        if i == 0 {
          assert Accepted(w, sis[0], certs, typ, econtent, opts, v.result.value[0], cert, info, pool, first.pool);
        } else {
          var chains := rest.result.value[i - 1];
          assert AcceptedWithin(w, sis[1..][i - 1], certs, typ, econtent, opts, chains, first.pool, rest.pool);
          WidenPool(w, sis[i], certs, typ, econtent, opts, v.result.value[i], first.pool, pool, v.pool);
        }
      }
    }
  }

  lemma WidenPool(w: World, si: SignerInfo, certs: seq<Certificate>, typ: bytes, econtent: bytes, opts: VerifyOptions,
      chains: Chains, low: set<Certificate>, lower: set<Certificate>, high: set<Certificate>)
    requires AcceptedWithin(w, si, certs, typ, econtent, opts, chains, low, high) && lower <= low
    ensures AcceptedWithin(w, si, certs, typ, econtent, opts, chains, lower, high)
  {
    hide Accepted;
  }

  /**
   * Success of verify: at least one signer, one chain entry per SignerInfo in order, and every
   * signer accepted with all certificates of the message among the intermediates.
   */
  lemma VerifySound(w: World, sd: SignedData, econtent: bytes, opts: VerifyOptions, pool: set<Certificate>)
    requires VerifyContent(w, sd, econtent, opts, pool).result.Ok?
    ensures var v := VerifyContent(w, sd, econtent, opts, pool);
            && sd.signerInfos != []
            && |v.result.value| == |sd.signerInfos|
            && X509Certificates(w.crypto, sd).Ok?
            && var certs := X509Certificates(w.crypto, sd).value;
            && forall i :: 0 <= i < |sd.signerInfos| ==>
                 AcceptedWithin(w, sd.signerInfos[i], certs, sd.eci.typ, econtent, opts, v.result.value[i],
                                pool + AsSet(certs), v.pool)
  {
    hide X509Certificates, VerifySigners, AcceptedWithin;
    var certs := X509Certificates(w.crypto, sd).value;
    SignersSound(w, sd.signerInfos, certs, sd.eci.typ, econtent, opts, pool + AsSet(certs));
  }
}
