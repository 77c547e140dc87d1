/**
 * Sign, add timestamps, verify: a message whose signers all received a token is accepted whenever
 * the tokens are, in memory and after ToDER and ParseSignedData (timestamp.go, verify.go).
 */
module Timestamped {
  import opened Bytes
  import opened Lengths
  import opened NormalForm
  import opened Order
  import opened Asn1
  import opened Attributes
  import opened Cms
  import opened WireProofs
  import opened Environment
  import opened Timestamp
  import opened Signing
  import opened SigningProofs
  import opened Verification
  import opened VerifySoundness
  import opened SignVerify
  import opened EndToEnd
  import opened SignedMessages
  import opened Tokens

  // ---------------------------------------------------------------- what is asked of a token

  /**
   * The token verifies by itself, with version 1, its interval lies inside the certificate's
   * validity and the chain is accepted at its time, whenever the certificates of the message are
   * among the intermediates.
   */
  ghost predicate TokenAccepted(w: World, si: SignerInfo, c: Certificate, opts: VerifyOptions, base: set<Certificate>) {
    && OpenedInfo(w, si).Ok?
    && var tst := OpenedInfo(w, si).value.0;
    var info := OpenedInfo(w, si).value.1;
    && info.version == 1
    && (forall pool {:trigger Verify(w, tst, opts.(timestamping := true), pool)} ::
          base <= pool ==> Verify(w, tst, opts.(timestamping := true), pool).result.Ok?)
    && Accepts(info, c.notBefore, c.notAfter)
    && ChainAccepts(w.crypto, c, VerifyOptions(TimeOr(opts.currentTime, info.genTime), opts.timestamping), base)
  }

  /** `si` is a signer of ours with the one token that was fetched for it. */
  ghost predicate StampedBy(w: World, si: SignerInfo, before: SignerInfo, x: Exchange, c: Certificate, typ: bytes,
      data: bytes, time: RawValue)
  {
    && before.unsignedAttrs.None? && SignedBy(w.crypto, before, c, typ, data, time)
    && FetchTs(w.crypto, w.parseInfo, before, x).Ok?
    && si == AddUnsigned(before, FetchTs(w.crypto, w.parseInfo, before, x).value)
  }

  ghost predicate SignerStamped(w: World, si: SignerInfo, raws: seq<RawValue>, typ: bytes, data: bytes,
      known: set<Certificate>)
  {
    exists before, x, c, time ::
      c in known && ProperCertificate(w.crypto, c) && CertRaw(c) in raws
          && StampedBy(w, si, before, x, c, typ, data, time)
  }

  /** What verification needs of a timestamped message; it does not look at any order. */
  ghost predicate ReadyStamped(w: World, sd: SignedData, typ: bytes, data: bytes, known: set<Certificate>) {
    && sd.eci.typ == typ
    && CertsKnown(w.crypto, CertList(sd), known)
    && forall si :: si in sd.signerInfos ==> SignerStamped(w, si, CertList(sd), typ, data, known)
  }

  /** Every token is accepted with the certificate that its signer names. */
  ghost predicate TokensAccepted(w: World, sd: SignedData, known: set<Certificate>, opts: VerifyOptions) {
    forall si, c :: si in sd.signerInfos && c in known && NewSid(c) == Ok(si.sid) ==>
                      TokenAccepted(w, si, c, opts, CertsOf(sd, known))
  }

  // ---------------------------------------------------------------- one signer

  lemma StampedSigned(w: World, si: SignerInfo, before: SignerInfo, x: Exchange, c: Certificate, typ: bytes,
      data: bytes, time: RawValue)
    requires StampedBy(w, si, before, x, c, typ, data, time)
    ensures SignedBy(w.crypto, si, c, typ, data, time) && NewSid(c) == Ok(si.sid) && !Stamped(before)
      && si.signature == before.signature
  {
    hide NewSid, SortAttributes, GeneratedAttributes, IsTime, Small, MarshaledForVerification, KeySignature,
      SignatureOid, FetchTs;
  }

  lemma StampedSigner(w: World, si: SignerInfo, before: SignerInfo, x: Exchange, c: Certificate,
      certs: seq<Certificate>, typ: bytes, data: bytes, time: RawValue, opts: VerifyOptions, base: set<Certificate>,
      pool: set<Certificate>)
    requires StampedBy(w, si, before, x, c, typ, data, time) && CheckSigner(w.crypto, si, certs, typ, data) == Ok(c)
    requires TokenAccepted(w, si, c, opts, base) && base <= pool
    ensures var v := VerifySigner(w, si, certs, typ, data, opts, pool); v.result.Ok? && base <= v.pool
  {
    hide CheckSigner, FetchTs, GetTimestamp, Verify, SignedBy, OpenedInfo, Accepts, LargestSize, ChainAccepts,
      Stamped;
    var tsOpts := opts.(timestamping := true);
    StampedSigned(w, si, before, x, c, typ, data, time);
    AttachedTokenChecks(w, before, x, tsOpts, pool);
    TokenPoolGrows(w, si, tsOpts, pool);
    OpenedHasTimestamp(w, si);
    var info := OpenedInfo(w, si).value.1;
    var ts := GetTimestamp(w, si, tsOpts, pool);
    assert ts.result == Ok(info);
    ChainFound(w.crypto, c, info, opts, base, ts.pool);
  }

  lemma OpenedHasTimestamp(w: World, si: SignerInfo)
    requires OpenedInfo(w, si).Ok?
    ensures HasTimestamp(si) == Ok(true)
  {
    hide GetValues, ParseSignedData, ParseInfo;
  }

  lemma ChainFound(env: Crypto, c: Certificate, info: Info, opts: VerifyOptions, base: set<Certificate>,
      pool: set<Certificate>)
    requires Accepts(info, c.notBefore, c.notAfter) && base <= pool
    requires ChainAccepts(env, c, VerifyOptions(TimeOr(opts.currentTime, info.genTime), opts.timestamping), base)
    ensures CheckChain(env, c, Some(info), opts, pool).Ok?
  {
    hide Accepts;
  }

  // ---------------------------------------------------------------- all signers

  ghost predicate SignerReady(w: World, si: SignerInfo, certs: seq<Certificate>, typ: bytes, data: bytes,
      opts: VerifyOptions, base: set<Certificate>)
  {
    exists before, x, c, time ::
      StampedBy(w, si, before, x, c, typ, data, time) && CheckSigner(w.crypto, si, certs, typ, data) == Ok(c)
      && TokenAccepted(w, si, c, opts, base)
  }

  lemma {:induction false} StampedSignersVerify(w: World, sis: seq<SignerInfo>, certs: seq<Certificate>, typ: bytes,
      data: bytes, opts: VerifyOptions, base: set<Certificate>, pool: set<Certificate>)
    requires base <= pool && forall si :: si in sis ==> SignerReady(w, si, certs, typ, data, opts, base)
    ensures var v := VerifySigners(w, sis, certs, typ, data, opts, pool);
            v.result.Ok? && |v.result.value| == |sis|
    decreases |sis|
  {
    hide CheckSigner, VerifySigner, StampedBy, TokenAccepted;
    if sis == [] {
    } else {
      assert SignerReady(w, sis[0], certs, typ, data, opts, base);
      var before, x, c, time :|
        StampedBy(w, sis[0], before, x, c, typ, data, time) && CheckSigner(w.crypto, sis[0], certs, typ, data) == Ok(c)
        && TokenAccepted(w, sis[0], c, opts, base);
      StampedSigner(w, sis[0], before, x, c, certs, typ, data, time, opts, base, pool);
      var next := VerifySigner(w, sis[0], certs, typ, data, opts, pool).pool;
      StampedSignersVerify(w, sis[1..], certs, typ, data, opts, base, next);
    }
  }

  lemma StampedMessageVerifies(w: World, sd: SignedData, typ: bytes, data: bytes, known: set<Certificate>,
      opts: VerifyOptions, pool: set<Certificate>)
    requires Sha256Length(w.crypto) && ValidOid(typ) && |typ| < MAX_READABLE
    requires ReadyStamped(w, sd, typ, data, known) && sd.signerInfos != []
    requires Distinguishable(known) && TokensAccepted(w, sd, known, opts)
    requires forall c :: c in known ==> ProperCertificate(w.crypto, c)
    ensures var v := VerifyContent(w, sd, data, opts, pool);
            v.result.Ok? && |v.result.value| == |sd.signerInfos|
  {
    hide ProperCertificate, CertRaw, StampedBy, Distinguishable, CheckSigner, VerifySigners, ParseAll, Sha256Length,
      ValidOid, CertsKnown, LargestSize, TokenAccepted, NewSid, SignedBy;
    var env := w.crypto;
    CertsParse(env, CertList(sd), known);
    var certs := ParseAll(env, CertList(sd)).value;
    var base := CertsOf(sd, known);
    forall si | si in sd.signerInfos
      ensures SignerReady(w, si, certs, typ, data, opts, base)
    {
      assert SignerStamped(w, si, CertList(sd), typ, data, known);
      var before, x, c, time :|
        c in known && ProperCertificate(env, c) && CertRaw(c) in CertList(sd)
            && StampedBy(w, si, before, x, c, typ, data, time);
      StampedSigned(w, si, before, x, c, typ, data, time);
      SignerChecks(env, si, c, typ, data, time, certs, known);
      assert TokenAccepted(w, si, c, opts, base);
    }
    CertsCovered(env, sd, known, certs, pool);
    StampedSignersVerify(w, sd.signerInfos, certs, typ, data, opts, base, pool + AsSet(certs));
  }

  lemma CertsCovered(env: Crypto, sd: SignedData, known: set<Certificate>, certs: seq<Certificate>,
      pool: set<Certificate>)
    requires forall c :: c in known && ProperCertificate(env, c) && CertRaw(c) in CertList(sd) ==> c in certs
    requires forall c :: c in known ==> ProperCertificate(env, c)
    ensures CertsOf(sd, known) <= pool + AsSet(certs)
  {
    hide ProperCertificate, CertRaw;
  }

  // ---------------------------------------------------------------- from the signed message

  lemma StampingReady(w: World, sd: SignedData, xs: seq<Exchange>, typ: bytes, data: bytes, known: set<Certificate>)
    requires Ready(w.crypto, sd, typ, data, known) && AddTimestamps(w.crypto, w.parseInfo, sd, xs).error.None?
    ensures var stamped := AddTimestamps(w.crypto, w.parseInfo, sd, xs).sd;
            && ReadyStamped(w, stamped, typ, data, known) && |stamped.signerInfos| == |sd.signerInfos|
            && stamped == sd.(signerInfos := stamped.signerInfos)
  {
    hide ProperCertificate, CertRaw, SignedBy, CertsKnown, FetchTs, FetchAll;
    var stamped := AddTimestamps(w.crypto, w.parseInfo, sd, xs).sd;
    SameList(sd, stamped);
    FetchedEach(w.crypto, w.parseInfo, sd.signerInfos, xs);
    forall si | si in stamped.signerInfos
      ensures SignerStamped(w, si, CertList(stamped), typ, data, known)
    {
      var i :| 0 <= i < |stamped.signerInfos| && stamped.signerInfos[i] == si;
      var before := sd.signerInfos[i];
      assert SignerKnown(w.crypto, before, CertList(sd), typ, data, known);
      var c, time :| c in known && ProperCertificate(w.crypto, c) && CertRaw(c) in CertList(sd)
                     && SignedBy(w.crypto, before, c, typ, data, time);
      assert StampedBy(w, si, before, xs[i], c, typ, data, time);
    }
  }

  /** The message after all the calls and one round of timestamps. */
  function StampedMessage(w: World, calls: seq<SignCall>, typ: bytes, data: bytes, xs: seq<Exchange>): Step {
    AddTimestamps(w.crypto, w.parseInfo, Message(w, calls, typ, data), xs)
  }

  /**
   * Signing, then AddTimestamps: if every signer got a token and the tokens are acceptable, Verify
   * accepts the message with one chain entry per signer, and VerifyDetached the detached one.
   */
  lemma TimestampedVerifies(w: World, calls: seq<SignCall>, typ: bytes, data: bytes, known: set<Certificate>,
      xs: seq<Exchange>, opts: VerifyOptions, pool: set<Certificate>)
    requires Setting(w, calls, typ, data, known) && |typ| != 32
    requires Successes(w.crypto, NewSigned(NewEncapContent(typ, data)), calls) > 0
    requires StampedMessage(w, calls, typ, data, xs).error.None?
    requires TokensAccepted(w, StampedMessage(w, calls, typ, data, xs).sd, known, opts)
    ensures var n := Successes(w.crypto, NewSigned(NewEncapContent(typ, data)), calls);
            var sd := StampedMessage(w, calls, typ, data, xs).sd;
            var attached := Verify(w, sd, opts, pool).result;
            var detached := VerifyDetached(w, Detach(sd), data, opts, pool).result;
            attached.Ok? && |attached.value| == n && detached.Ok? && |detached.value| == n
  {
    hide Ready, ReadyStamped, Fresh, Message, Successes, VerifyContent, EContentValue, NewEncapContent,
      TokensAccepted, Distinguishable, ProperCertificate, GoodCalls, ValidOid, LargestSize, AddTimestamps;
    var plain := Message(w, calls, typ, data);
    var sd := StampedMessage(w, calls, typ, data, xs).sd;
    MessageReady(w, calls, typ, data, known);
    FreshContent(plain, typ, data);
    ReadyContent(w.crypto, plain, typ, data, known);
    StampingReady(w, plain, xs, typ, data, known);
    StampedMessageVerifies(w, sd, typ, data, known, opts, pool);
    DetachStamped(w, sd, typ, data, known, opts);
    StampedMessageVerifies(w, Detach(sd), typ, data, known, opts, pool);
  }

  lemma DetachStamped(w: World, sd: SignedData, typ: bytes, data: bytes, known: set<Certificate>, opts: VerifyOptions)
    requires ReadyStamped(w, sd, typ, data, known)
    ensures ReadyStamped(w, Detach(sd), typ, data, known) && Detach(sd).signerInfos == sd.signerInfos
    ensures TokensAccepted(w, sd, known, opts) ==> TokensAccepted(w, Detach(sd), known, opts)
  {
    hide SignerStamped, CertsKnown, TokenAccepted, CertRaw, NewSid;
    assert CertList(Detach(sd)) == CertList(sd);
    assert CertsOf(Detach(sd), known) == CertsOf(sd, known);
  }

  // ---------------------------------------------------------------- through the wire

  lemma TokenOidValid()
    ensures ValidOid(TIME_STAMP_TOKEN)
  {
    hide Base128;
    var c := TIME_STAMP_TOKEN;
    LastArcs(c, 6);
    assert c[3..][3..] == c[6..];
    ThreeOctetArc(c[3..]);
    assert c[1..][2..] == c[3..];
    TwoOctetArc(c[1..]);
    OneArc(c);
  }

  /** A token inside a message of readable size is of readable size. */
  lemma TokenSmall(sd: SignedData, si: SignerInfo, a: Attribute)
    requires |ToDer(sd)| < MAX_READABLE && si in sd.signerInfos && a in UnsignedList(si)
    ensures |EncodeAttribute(a)| < MAX_READABLE
  {
    hide Tlv, FieldsBytes, SetOf, EncodeAttribute, SignedFields, SignerFields;
    InfoSize(sd);
    var vs := SignedFields(sd);
    TlvSize(SEQUENCE, FieldsBytes(vs));
    var all := SetOf(sd.signerInfos, SignerKey);
    assert |vs| == 6 && vs[5] == Some(Raw(SET, all)) by { LastSigned(sd); }
    FieldPart(vs, 5);
    TlvSize(SET, all);
    SetElement(sd.signerInfos, SignerKey, si);
    var fs := SignerFields(si);
    var tokens := SetOf(UnsignedList(si), EncodeAttribute);
    TlvSize(SEQUENCE, FieldsBytes(fs));
    assert |fs| == 7 && fs[6] == Some(Raw(CONTEXT_1, tokens)) by { LastSigner(si); }
    FieldPart(fs, 6);
    TlvSize(CONTEXT_1, tokens);
    SetElement(UnsignedList(si), EncodeAttribute, a);
  }

  lemma LastSigned(sd: SignedData)
    ensures |SignedFields(sd)| == 6 && SignedFields(sd)[5] == Some(Raw(SET, SetOf(sd.signerInfos, SignerKey)))
  {
    hide Tlv, SetOf, FieldsBytes;
  }

  lemma LastSigner(si: SignerInfo)
    requires si.unsignedAttrs.Some?
    ensures |SignerFields(si)| == 7
    ensures SignerFields(si)[6] == Some(Raw(CONTEXT_1, SetOf(si.unsignedAttrs.value, EncodeAttribute)))
  {
    hide Tlv, SetOf, FieldsBytes;
  }

  lemma StampedUnsigned(w: World, si: SignerInfo, before: SignerInfo, x: Exchange, c: Certificate, typ: bytes,
      data: bytes, time: RawValue)
    returns (a: Attribute)
    requires StampedBy(w, si, before, x, c, typ, data, time)
    ensures si == before.(unsignedAttrs := Some([a])) && FetchTs(w.crypto, w.parseInfo, before, x) == Ok(a)
    ensures CanonSigner(si) == si
  {
    hide SignedBy, FetchTs, EncodeAttribute;
    a := FetchTs(w.crypto, w.parseInfo, before, x).value;
    assert [] + [a] == [a];
    assert SortBy([a], EncodeAttribute) == [a] by {
      assert [a][..0] == [];
    }
  }

  lemma StampedWritable(w: World, sd: SignedData, si: SignerInfo, before: SignerInfo, x: Exchange, c: Certificate,
      typ: bytes, data: bytes, time: RawValue)
    requires Sha256Length(w.crypto) && ProperCertificate(w.crypto, c) && ValidOid(typ) && |typ| < MAX_READABLE
    requires StampedBy(w, si, before, x, c, typ, data, time) && si in sd.signerInfos && |ToDer(sd)| < MAX_READABLE
    ensures WfSigner(si) && DeepSigner(si)
  {
    hide ProperCertificate, SignedBy, FetchTs, Sha256Length, ValidOid, WfAttribute, IsDer, Single, EncodeAttribute,
      ToDer, ParseSignedData, ParseInfo, CheckImprint, IsParsed, WfAlg, DeepAlg, ValidInt64;
    var a := StampedUnsigned(w, si, before, x, c, typ, data, time);
    SignedShape(w.crypto, before, c, typ, data, time);
    SignerWritable(w.crypto, before, c, typ, data, time);
    TokenSmall(sd, si, a);
    TokenOidValid();
    var rv, tst, info := FetchedToken(w, before, x);
    SingleWritable(TIME_STAMP_TOKEN, rv);
  }

  lemma StampedMessageWritable(w: World, sd: SignedData, typ: bytes, data: bytes, known: set<Certificate>)
    requires Sha256Length(w.crypto) && ReadyStamped(w, sd, typ, data, known) && ValidOid(typ) && |typ| < MAX_READABLE
    requires sd.version in {VERSION_1, VERSION_3} && sd.crls.None?
    requires forall a :: a in sd.digestAlgs ==> a == DIGEST_ALGORITHM
    requires WfEncap(sd.eci) && (sd.eci.content.Some? ==> IsDer(Completed(sd.eci.content.value).full))
    requires |ToDer(sd)| < MAX_READABLE
    ensures WfSigned(sd) && DeepSigned(sd)
  {
    hide ProperCertificate, CertRaw, StampedBy, ValidOid, IsDer, WfSigner, DeepSigner, Completed, WfEncap, CertsKnown,
      Sha256Length, ToDer, NewEncapContent;
    OidsValid();
    CertsWritable(w.crypto, sd, known);
    forall si | si in sd.signerInfos
      ensures WfSigner(si) && DeepSigner(si)
    {
      assert SignerStamped(w, si, CertList(sd), typ, data, known);
      var before, x, c, time :|
        c in known && ProperCertificate(w.crypto, c) && CertRaw(c) in CertList(sd)
            && StampedBy(w, si, before, x, c, typ, data, time);
      StampedWritable(w, sd, si, before, x, c, typ, data, time);
    }
  }

  /** DER order changes nothing here either. */
  lemma StampedCanon(w: World, sd: SignedData, typ: bytes, data: bytes, known: set<Certificate>, opts: VerifyOptions)
    requires ReadyStamped(w, sd, typ, data, known)
    ensures ReadyStamped(w, Canon(sd), typ, data, known) && |Canon(sd).signerInfos| == |sd.signerInfos|
    ensures TokensAccepted(w, sd, known, opts) ==> TokensAccepted(w, Canon(sd), known, opts)
  {
    hide ProperCertificate, CertRaw, StampedBy, SortBy, CanonSigner, CanonEncap, Completed, TokenAccepted, NewSid;
    var cn := Canon(sd);
    CanonType(sd.eci);
    CanonCerts(sd);
    assert CertsOf(cn, known) == CertsOf(sd, known);
    var sorted := SortBy(sd.signerInfos, SignerKey);
    forall si | si in cn.signerInfos
      ensures SignerStamped(w, si, CertList(cn), typ, data, known) && si in sd.signerInfos
    {
      var i :| 0 <= i < |sorted| && CanonSigner(sorted[i]) == si;
      SortByMember(sd.signerInfos, SignerKey, sorted[i]);
      assert SignerStamped(w, sorted[i], CertList(sd), typ, data, known);
      var before, x, c, time :|
        c in known && ProperCertificate(w.crypto, c) && CertRaw(c) in CertList(sd)
            && StampedBy(w, sorted[i], before, x, c, typ, data, time);
      var a := StampedUnsigned(w, sorted[i], before, x, c, typ, data, time);
      assert CertRaw(c) in CertList(cn);
    }
  }

  lemma CanonCerts(sd: SignedData)
    ensures forall rv :: rv in CertList(Canon(sd)) <==> rv in CertList(sd)
  {
    hide SortBy;
    forall rv
      ensures rv in CertList(Canon(sd)) <==> rv in CertList(sd)
    {
      if sd.certs.Some? {
        SortByMember(sd.certs.value, RawKey, rv);
      }
    }
  }

  /** The timestamped message, marshalled and parsed again, is accepted as well. */
  lemma ParsedTimestampedVerifies(w: World, calls: seq<SignCall>, typ: bytes, data: bytes, known: set<Certificate>,
      xs: seq<Exchange>, opts: VerifyOptions, pool: set<Certificate>)
    requires Setting(w, calls, typ, data, known) && |typ| != 32
    requires Successes(w.crypto, NewSigned(NewEncapContent(typ, data)), calls) > 0
    requires StampedMessage(w, calls, typ, data, xs).error.None?
    requires TokensAccepted(w, StampedMessage(w, calls, typ, data, xs).sd, known, opts)
    requires |ToDer(StampedMessage(w, calls, typ, data, xs).sd)| < MAX_READABLE
    ensures var n := Successes(w.crypto, NewSigned(NewEncapContent(typ, data)), calls);
            var parsed := ParseSignedData(ToDer(StampedMessage(w, calls, typ, data, xs).sd));
            && parsed.Ok? && Verify(w, parsed.value, opts, pool).result.Ok?
            && |Verify(w, parsed.value, opts, pool).result.value| == n
  {
    hide Ready, ReadyStamped, Fresh, Message, Successes, VerifyContent, EContentValue, NewEncapContent,
      TokensAccepted, Distinguishable, ProperCertificate, GoodCalls, ValidOid, LargestSize, AddTimestamps, ToDer,
      ParseSignedData, Canon, WfSigned, DeepSigned;
    var plain := Message(w, calls, typ, data);
    var sd := StampedMessage(w, calls, typ, data, xs).sd;
    MessageReady(w, calls, typ, data, known);
    FreshContent(plain, typ, data);
    ReadyContent(w.crypto, plain, typ, data, known);
    StampingReady(w, plain, xs, typ, data, known);
    ContentWritable(sd, typ, data);
    StampedMessageWritable(w, sd, typ, data, known);
    ParseAfterToDer(sd);
    StampedCanon(w, sd, typ, data, known, opts);
    CanonValue(sd);
    StampedMessageVerifies(w, Canon(sd), typ, data, known, opts, pool);
  }

  /** And so is the detached one: what SignDetached with timestamps leaves on the wire. */
  lemma ParsedDetachedTimestampedVerifies(w: World, calls: seq<SignCall>, typ: bytes, data: bytes,
      known: set<Certificate>, xs: seq<Exchange>, opts: VerifyOptions, pool: set<Certificate>)
    requires Setting(w, calls, typ, data, known) && |typ| != 32
    requires Successes(w.crypto, NewSigned(NewEncapContent(typ, data)), calls) > 0
    requires StampedMessage(w, calls, typ, data, xs).error.None?
    requires TokensAccepted(w, StampedMessage(w, calls, typ, data, xs).sd, known, opts)
    requires |ToDer(Detach(StampedMessage(w, calls, typ, data, xs).sd))| < MAX_READABLE
    ensures var n := Successes(w.crypto, NewSigned(NewEncapContent(typ, data)), calls);
            var parsed := ParseSignedData(ToDer(Detach(StampedMessage(w, calls, typ, data, xs).sd)));
            && parsed.Ok? && VerifyDetached(w, parsed.value, data, opts, pool).result.Ok?
            && |VerifyDetached(w, parsed.value, data, opts, pool).result.value| == n
  {
    hide Ready, ReadyStamped, Fresh, Message, Successes, VerifyContent, NewEncapContent, TokensAccepted,
      Distinguishable, ProperCertificate, GoodCalls, ValidOid, LargestSize, AddTimestamps, ToDer, ParseSignedData,
      Canon, WfSigned, DeepSigned, IsDer, Completed;
    var plain := Message(w, calls, typ, data);
    var sd := Detach(StampedMessage(w, calls, typ, data, xs).sd);
    MessageReady(w, calls, typ, data, known);
    FreshContent(plain, typ, data);
    EncapType(typ, data);
    StampingReady(w, plain, xs, typ, data, known);
    DetachStamped(w, StampedMessage(w, calls, typ, data, xs).sd, typ, data, known, opts);
    assert WfEncap(sd.eci);
    StampedMessageWritable(w, sd, typ, data, known);
    ParseAfterToDer(sd);
    StampedCanon(w, sd, typ, data, known, opts);
    CanonDetached(sd);
    StampedMessageVerifies(w, Canon(sd), typ, data, known, opts, pool);
  }

  lemma CanonDetached(sd: SignedData)
    ensures sd.eci.content.None? <==> Canon(sd).eci.content.None?
  {
    hide SortBy, Completed;
  }

  lemma CanonValue(sd: SignedData)
    ensures EContentValue(Canon(sd).eci) == EContentValue(sd.eci)
  {
    hide EContentValue, SortBy, Completed, CanonEncap;
    CanonContent(sd.eci);
  }
}
