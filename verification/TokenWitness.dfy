/**
 * A timestamp service made of this library's own signing: a round of timestamps that succeeds, with
 * tokens that verify.
 */
module TokenWitness {
  import opened Bytes
  import opened Lengths
  import opened NormalForm
  import opened Order
  import opened Asn1
  import opened Attributes
  import opened Cms
  import opened WireProofs
  import opened Environment
  import opened Timestamp
  import opened Signing
  import opened SigningProofs
  import opened Verification
  import opened VerifySoundness
  import opened SignVerify
  import opened EndToEnd
  import opened SignedMessages
  import opened SignSucceeds
  import opened Tokens
  import opened Timestamped
  import opened CommandSign
  import opened Witnesses
  import Ber

  const NONCE: bytes := [1]

  /** Every TSTInfo of this service: version 1, the digest of all messages, time and accuracy zero. */
  function StampInfo(): Info {
    Info(1, MessageImprint(DIGEST_ALGORITHM, SomeWorld().crypto.hash(SHA256, [])), 0, Accuracy(0, 0, 0), Some(NONCE))
  }

  /**
   * The surroundings: chains are always accepted, or, when the certificate has aged, for timestamping
   * and at a stated time inside its validity.
   */
  function StampWorld(aged: bool): World {
    World(SomeWorld().crypto.(verifyChain := (c: Certificate, o: VerifyOptions, p: set<Certificate>) =>
                                if !aged || o.timestamping || InValidity(c, o.currentTime) then Some([]) else None),
          octets => Some(StampInfo()))
  }

  predicate InValidity(c: Certificate, time: Option<int>) {
    time.Some? && c.notBefore <= time.value <= c.notAfter
  }

  /** The token: an empty TSTInfo, signed like any message. */
  function TokenData(aged: bool, now: Clock): SignedData {
    Message(StampWorld(aged), [SomeCall(now)], TST_INFO, [])
  }

  const GRANTED: RawValue := Raw(SEQUENCE, Tlv(INTEGER, [0]))

  function ReplyFields(aged: bool, now: Clock): seq<Option<RawValue>> {
    [Some(GRANTED), Some(InfoRaw(ToContentInfo(TokenData(aged, now))))]
  }

  function StampReply(aged: bool, now: Clock): bytes {
    Tlv(SEQUENCE, FieldsBytes(ReplyFields(aged, now)))
  }

  function StampExchange(aged: bool, now: Clock): Exchange {
    Exchange(NONCE, Some(StampReply(aged, now)))
  }

  // ---------------------------------------------------------------- the token verifies

  lemma StampUsable(aged: bool)
    ensures Usable(StampWorld(aged).crypto, SOME_CERTIFICATE)
  {
    hide CertRaw, IsDer, Unmarshal;
    SomeCertificateProper();
  }

  lemma StampSetting(aged: bool, now: Clock, typ: bytes, data: bytes)
    requires ValidOid(typ) && |typ| < MAX_READABLE - 400 && |data| < MAX_READABLE && !now.Unrepresentable?
    ensures Setting(StampWorld(aged), [SomeCall(now)], typ, data, {SOME_CERTIFICATE})
    ensures Complete(StampWorld(aged).crypto, SomeCall(now))
  {
    hide Usable, CertRaw, ValidOid, IsDer, Unmarshal;
    StampUsable(aged);
    UsableProper(StampWorld(aged).crypto, SOME_CERTIFICATE);
    assert SomeCall(now).chain[0] == SOME_CERTIFICATE;
  }

  lemma AnyChain(aged: bool, sd: SignedData, opts: VerifyOptions)
    requires !aged || opts.timestamping
    ensures ChainsAccepted(StampWorld(aged).crypto, sd, {SOME_CERTIFICATE}, opts)
  {
    hide CertRaw;
  }

  lemma TstOidValid()
    ensures ValidOid(TST_INFO)
  {
    hide Base128;
    var c := TST_INFO;
    LastArcs(c, 6);
    assert c[3..][3..] == c[6..];
    ThreeOctetArc(c[3..]);
    assert c[1..][2..] == c[3..];
    TwoOctetArc(c[1..]);
    OneArc(c);
  }

  /** A message of this signer, field by field. */
  lemma OneSignedShape(aged: bool, now: Clock, typ: bytes, data: bytes) returns (si: SignerInfo)
    requires ValidOid(typ) && |typ| < MAX_READABLE - 400 && |data| < MAX_READABLE && !now.Unrepresentable?
    ensures var start := NewSigned(NewEncapContent(typ, data));
            AddSignerInfo(StampWorld(aged).crypto, start, [SOME_CERTIFICATE], SomeCall(now).signer, now)
            == Step(SignedData(start.version, [DIGEST_ALGORITHM], NewEncapContent(typ, data),
                               Some([Raw(SEQUENCE, [])]), None, [si]), None)
    ensures MakeSigner(StampWorld(aged).crypto, NewEncapContent(typ, data), SOME_CERTIFICATE, SomeCall(now).signer, now)
            == Ok(si)
  {
    hide MakeSigner, NewEncapContent, Usable, Unmarshal, AddCertificate, AddChain, CertRaw, Sha256Length, Complete,
      Setting, Successes, ValidOid;
    var call := SomeCall(now);
    var env := StampWorld(aged).crypto;
    var start := NewSigned(NewEncapContent(typ, data));
    StampSetting(aged, now, typ, data);
    SettingLength(StampWorld(aged), [call], typ, data, {SOME_CERTIFICATE});
    FirstCallSucceeds(env, call, typ, data);
    FirstAdded(start);
    var added := AddChain(start, [SOME_CERTIFICATE], [], None);
    si := MakeSigner(env, added.sd.eci, SOME_CERTIFICATE, call.signer, now).value;
    MadeDigest(env, added.sd.eci, SOME_CERTIFICATE, call.signer, now);
    assert [] + [si] == [si];
  }

  /** The token field by field. */
  lemma TokenShape(aged: bool, now: Clock) returns (si: SignerInfo)
    requires !now.Unrepresentable?
    ensures TokenData(aged, now) == SignedData(VERSION_3, [DIGEST_ALGORITHM], NewEncapContent(TST_INFO, []),
                                         Some([Raw(SEQUENCE, [])]), None, [si])
    ensures MakeSigner(StampWorld(aged).crypto, NewEncapContent(TST_INFO, []), SOME_CERTIFICATE,
                       SomeCall(now).signer, now) == Ok(si)
  {
    hide MakeSigner, NewEncapContent, TokenData, ValidOid, AddSignerInfo;
    TstOidValid();
    MessageIsFirst(StampWorld(aged), SomeCall(now), TST_INFO, []);
    EncapType(TST_INFO, []);
    TokenIsMessage(aged, now);
    si := OneSignedShape(aged, now, TST_INFO, []);
    assert TST_INFO != DATA by { assert |TST_INFO| == 11 && |DATA| == 9; }
  }

  lemma TokenIsMessage(aged: bool, now: Clock)
    ensures TokenData(aged, now) == Message(StampWorld(aged), [SomeCall(now)], TST_INFO, [])
  {
  }

  lemma FirstAdded(sd: SignedData)
    requires sd.certs.None?
    ensures var r := AddChain(sd, [SOME_CERTIFICATE], [], None);
            && r.sd == sd.(certs := Some([Raw(SEQUENCE, [])]))
            && (r.leaf.Ok? && r.leaf.value.Some? ==> r.leaf.value.value == SOME_CERTIFICATE)
  {
    hide AddCertificate, AddChain;
    OneInChain(sd, SOME_CERTIFICATE, []);
    FirstCertificate(sd);
  }

  lemma FirstCertificate(sd: SignedData)
    requires sd.certs.None?
    ensures AddCertificate(sd, SOME_CERTIFICATE).sd == sd.(certs := Some([Raw(SEQUENCE, [])]))
  {
    hide Unmarshal;
    EmptySequence();
    assert [] + [Raw(SEQUENCE, [])] == [Raw(SEQUENCE, [])];
  }

  lemma SignerBound(aged: bool, si: SignerInfo, now: Clock, typ: bytes, data: bytes)
    requires MakeSigner(StampWorld(aged).crypto, NewEncapContent(typ, data), SOME_CERTIFICATE,
                        SomeCall(now).signer, now) == Ok(si)
    requires |typ| <= 100 && |data| < GO_INT_LIMIT
    ensures |FieldsBytes(SignerFields(si))| <= 7000 && |SignerRaw(si).full| <= 10000
  {
    hide Tlv, FieldsBytes, NewEncapContent, MakeSigner, NewSid, MarshaledForSigning, MarshaledForVerification, Small,
      GeneratedAttributes, SortAttributes, IsTime, SignatureOid, InOrder, AlgRaw, ClockValue;
    var env := StampWorld(aged).crypto;
    var time := MadeParts(env, typ, data, SOME_CERTIFICATE, SomeCall(now).signer, now);
    var vs := SignerFields(si);
    SomeSid();
    TlvBound(INTEGER, si.version);
    AlgBound(si.digestAlg);
    SignatureOidShort();
    AlgBound(si.sigAlg);
    assert |env.hash(SHA256, data)| == 32;
    GeneratedBound(time, env.hash(SHA256, data), typ);
    TlvBound(CONTEXT_0, InOrder(si.signedAttrs.value));
    TlvBound(OCTET_STRING, si.signature);
    FieldsBound(vs, 1000);
    TlvBound(SEQUENCE, FieldsBytes(vs));
  }

  lemma SignatureOidShort()
    ensures SignatureOid(RSA, OID_SHA256).Some? ==> |SignatureOid(RSA, OID_SHA256).value| <= 16
  {
  }

  lemma SomeSid()
    ensures NewSid(SOME_CERTIFICATE).Ok? ==> |NewSid(SOME_CERTIFICATE).value.full| <= 100
  {
    hide Unmarshal, Tlv, IsParsed, FieldsBytes, IsDer, CertRaw;
    SomeCertificateProper();
    UsableProper(SomeWorld().crypto, SOME_CERTIFICATE);
    if NewSid(SOME_CERTIFICATE).Ok? {
      SidShape(SomeWorld().crypto, SOME_CERTIFICATE);
      EmptySequence();
      TlvBound(INTEGER, SOME_CERTIFICATE.serial);
      TwoFieldsBytes(Unmarshal(SOME_CERTIFICATE.rawIssuer).value.value, Raw(INTEGER, SOME_CERTIFICATE.serial));
      TlvBound(SEQUENCE, EMPTY_SEQUENCE + Tlv(INTEGER, SOME_CERTIFICATE.serial));
    }
  }

  lemma TokenBound(aged: bool, now: Clock)
    requires !now.Unrepresentable?
    ensures |ToDer(TokenData(aged, now))| <= 200100
  {
    hide AlgRaw, SignerRaw, EncapRaw, TokenData, MakeSigner, ToDer;
    var si := TokenShape(aged, now);
    SignerBound(aged, si, now, TST_INFO, []);
    EncapBound(TST_INFO, []);
    MessageBound(TokenData(aged, now), si, 10000);
  }

  /** The size of a message with one signer. */
  lemma MessageBound(sd: SignedData, si: SignerInfo, n: nat)
    requires |sd.version| == 1 && sd.digestAlgs == [DIGEST_ALGORITHM] && sd.crls.None? && sd.signerInfos == [si]
    requires sd.certs == Some([]) || sd.certs == Some([Raw(SEQUENCE, [])])
    requires |SignerRaw(si).full| <= n && |EncapRaw(sd.eci).full| <= n && 1000 <= n <= 0x1000_0000
    ensures |ToDer(sd)| <= 12 * n + 1000
  {
    hide Tlv, FieldsBytes, AlgRaw, SignerRaw, EncapRaw, SetOf;
    var vs := SignedFields(sd);
    SetOfOne(si, SignerKey);
    TlvBound(SET, SetOf(sd.signerInfos, SignerKey));
    AlgBound(DIGEST_ALGORITHM);
    SetOfOne(DIGEST_ALGORITHM, AlgKey);
    TlvBound(SET, SetOf(sd.digestAlgs, AlgKey));
    SetOfOne(Raw(SEQUENCE, []), RawKey);
    TlvBound(SEQUENCE, []);
    TlvBound(CONTEXT_0, SetOf(sd.certs.value, RawKey));
    TlvBound(INTEGER, sd.version);
    FieldsBound(vs, n + 10);
    SmallToDer(sd);
  }

  lemma EncapBound(typ: bytes, data: bytes)
    requires |typ| <= 100 && |data| < MAX_READABLE
    ensures |EncapRaw(NewEncapContent(typ, data)).full| <= 2 * |data| + 400
    ensures |EncapRaw(NewEncapContent(typ, data).(content := None)).full| <= 400
  {
    hide Tlv, FieldsBytes;
    var e := NewEncapContent(typ, data);
    var gone := e.(content := None);
    TlvBound(OID, typ);
    TlvBound(OCTET_STRING, data);
    TlvBound(CONTEXT_0, Tlv(OCTET_STRING, data));
    FieldsBound(EncapFields(e), |data| + 120);
    TlvBound(SEQUENCE, FieldsBytes(EncapFields(e)));
    FieldsBound(EncapFields(gone), 120);
    TlvBound(SEQUENCE, FieldsBytes(EncapFields(gone)));
  }

  lemma TokenSucceeds(aged: bool, now: Clock)
    requires !now.Unrepresentable?
    ensures Successes(StampWorld(aged).crypto, NewSigned(NewEncapContent(TST_INFO, [])), [SomeCall(now)]) > 0
  {
    hide Complete, NewEncapContent, Successes;
    TstOidValid();
    StampSetting(aged, now, TST_INFO, []);
    FirstCallSucceeds(StampWorld(aged).crypto, SomeCall(now), TST_INFO, []);
  }

  lemma TokenVerifies(aged: bool, now: Clock, opts: VerifyOptions, pool: set<Certificate>)
    requires !now.Unrepresentable? && (!aged || opts.timestamping)
    ensures ParseSignedData(ToDer(TokenData(aged, now))).Ok?
    ensures Verify(StampWorld(aged), ParseSignedData(ToDer(TokenData(aged, now))).value, opts, pool).result.Ok?
  {
    hide Setting, Message, Verify, ParseSignedData, ToDer, NewEncapContent, Complete, ChainsAccepted, Successes,
      LargestSize;
    TokenBound(aged, now);
    TokenSucceeds(aged, now);
    TstOidValid();
    StampSetting(aged, now, TST_INFO, []);
    AnyChain(aged, Message(StampWorld(aged), [SomeCall(now)], TST_INFO, []), opts);
    ParsedMessageVerifies(StampWorld(aged), [SomeCall(now)], TST_INFO, [], {SOME_CERTIFICATE}, opts, pool);
  }

  // ---------------------------------------------------------------- the reply is accepted

  lemma TokenWritable(aged: bool, now: Clock)
    requires !now.Unrepresentable?
    ensures WfSigned(TokenData(aged, now)) && DeepSigned(TokenData(aged, now))
    ensures EContentValue(TokenData(aged, now).eci) == Ok(Some([]))
  {
    hide Setting, Message, ToDer, NewEncapContent, Complete, Successes, Ready, Fresh, WfEncap, EContentValue,
      Completed, IsDer, DeepSigned, WfSigned;
    var w, call, known := StampWorld(aged), SomeCall(now), {SOME_CERTIFICATE};
    var sd := TokenData(aged, now);
    TokenBound(aged, now);
    TokenSucceeds(aged, now);
    TstOidValid();
    StampSetting(aged, now, TST_INFO, []);
    MessageReady(w, [call], TST_INFO, [], known);
    FreshContent(sd, TST_INFO, []);
    ReadyContent(w.crypto, sd, TST_INFO, [], known);
    ContentWritable(sd, TST_INFO, []);
    assert Sha256Length(w.crypto) && ValidOid(TST_INFO) by { SettingLength(w, [call], TST_INFO, [], known); }
    MessageWritable(w.crypto, sd, TST_INFO, [], known);
  }

  lemma GrantedRead()
    ensures IsParsed(GRANTED) && DecodeStatus(GRANTED) == Ok([0]) && IsDer(GRANTED.full) && |GRANTED.full| <= 30
  {
    hide Tlv, IsParsed, FieldsBytes, ParseFields, IsDer, IsDerSeq;
    var vs: seq<Option<RawValue>> := [Some(Raw(INTEGER, [0])), None, None];
    TlvBound(INTEGER, [0]);
    TlvBound(SEQUENCE, Tlv(INTEGER, [0]));
    SmallRaw(INTEGER, [0]);
    SmallRaw(SEQUENCE, Tlv(INTEGER, [0]));
    StatusConforms(vs);
    FieldsRoundTrip(vs, STATUS_SCHEMA);
    OnlyFirst(Raw(INTEGER, [0]));
    DerPrimitive(INTEGER, [0]);
    DerWrapped(SEQUENCE, Tlv(INTEGER, [0]));
  }

  lemma OnlyFirst(a: RawValue)
    ensures FieldsBytes([Some(a), None, None]) == a.full
  {
    var vs: seq<Option<RawValue>> := [Some(a), None, None];
    assert NonePresent(vs[3..]);
    assert vs[2..][1..] == vs[3..] && NonePresent(vs[2..]);
    assert vs[1..][1..] == vs[2..] && NonePresent(vs[1..]);
    NonePresentBytes(vs[1..]);
    assert a.full + [] == a.full;
  }

  lemma StatusConforms(vs: seq<Option<RawValue>>)
    requires |vs| == 3 && vs[0].Some? && IsParsed(vs[0].value) && vs[0].value.id == INTEGER
    requires vs[1].None? && vs[2].None?
    ensures Conforms(vs, STATUS_SCHEMA)
  {
    hide IsParsed;
    var fs := STATUS_SCHEMA;
    assert fs[3..] == [] && vs[3..] == [] && Conforms(vs[3..], fs[3..]);
    assert vs[2..][1..] == vs[3..] && fs[2..][1..] == fs[3..] && Conforms(vs[2..], fs[2..]);
    assert NextIsNot(vs[3..], SEQUENCE) && NextIsNot(vs[2..], SEQUENCE);
    assert vs[1..][1..] == vs[2..] && fs[1..][1..] == fs[2..] && Conforms(vs[1..], fs[1..]);
  }

  lemma InfoIsSequence(ci: ContentInfo)
    ensures InfoRaw(ci).id == SEQUENCE
  {
    hide FieldsBytes;
  }

  lemma ReplyRead(aged: bool, now: Clock)
    requires !now.Unrepresentable?
    ensures var ci := ToContentInfo(TokenData(aged, now));
            var read := ci.(content := Completed(ci.content));
            && ParseResponse(StampReply(aged, now)) == Ok(Response([0], Some(read)))
            && SignedDataContent(read) == ParseSignedData(ToDer(TokenData(aged, now)))
            && InfoRaw(read) == InfoRaw(ci)
  {
    hide Tlv, IsParsed, FieldsBytes, ParseFields, IsDer, IsDerSeq, TokenData, ToContentInfo, InfoRaw, DecodeInfo,
      DecodeStatus, SignedDataContent, Ber.Ber2Der, Unmarshal, Conforms, WfParts, DeepSigned;
    var sd := TokenData(aged, now);
    var ci := ToContentInfo(sd);
    var vs := ReplyFields(aged, now);
    TokenBound(aged, now);
    TokenWritable(aged, now);
    GrantedRead();
    InfoRoundTrip(sd);
    DerInfo(sd);
    DerFields(vs);
    DerConstructed(SEQUENCE, FieldsBytes(vs));
    FieldsBound(vs, 200100);
    TlvBound(SEQUENCE, FieldsBytes(vs));
    Ber2DerFixed(StampReply(aged, now));
    OwnTlv(SEQUENCE, FieldsBytes(vs));
    InfoIsSequence(ci);
    ReplyConforms(vs);
    FieldsRoundTrip(vs, RESPONSE_SCHEMA);
    WritesSame(ci);
    Ber2DerFixed(ToDer(sd));
    UnmarshalRaw(InfoRaw(ci), []);
    assert InfoRaw(ci).full + [] == InfoRaw(ci).full;
  }

  lemma ReplyConforms(vs: seq<Option<RawValue>>)
    requires |vs| == 2 && vs[0].Some? && vs[1].Some? && IsParsed(vs[0].value) && IsParsed(vs[1].value)
    requires vs[0].value.id == SEQUENCE && vs[1].value.id == SEQUENCE
    ensures Conforms(vs, RESPONSE_SCHEMA)
  {
    hide IsParsed;
    var fs := RESPONSE_SCHEMA;
    assert fs[2..] == [] && vs[2..] == [] && Conforms(vs[2..], fs[2..]);
    assert vs[1..][1..] == vs[2..] && fs[1..][1..] == fs[2..] && Conforms(vs[1..], fs[1..]);
  }

  lemma WritesSame(ci: ContentInfo)
    ensures InfoRaw(ci.(content := Completed(ci.content))) == InfoRaw(ci)
  {
    hide Tlv, FieldsBytes;
    TlvNotEmpty(ci.content.id, ci.content.content);
  }

  lemma TlvNotEmpty(id: bytes, c: bytes)
    ensures Tlv(id, c) != []
  {
  }

  /** The TSTInfo matches the request for any signer with this digest. */
  lemma StampMatches(aged: bool, si: SignerInfo)
    requires si.digestAlg == DIGEST_ALGORITHM
    ensures TsRequest(StampWorld(aged).crypto, si, NONCE).Ok?
    ensures Matches(TsRequest(StampWorld(aged).crypto, si, NONCE).value, StampInfo()) == Some(true)
  {
    hide DigestToHash;
    DigestMapsInverse(OID_SHA256, SHA256);
  }

  lemma ReplyInfo(aged: bool, now: Clock)
    requires !now.Unrepresentable?
    ensures var ci := ToContentInfo(TokenData(aged, now));
            ResponseInfo(StampWorld(aged).parseInfo, Response([0], Some(ci.(content := Completed(ci.content)))))
            == Ok(StampInfo())
  {
    hide SignedDataContent, ParseSignedData, TokenData, ToContentInfo, EContentValue, StampReply, Canon, WfSigned,
      DeepSigned, ToDer, ParseResponse, Completed, InfoRaw;
    var sd := TokenData(aged, now);
    TokenBound(aged, now);
    TokenWritable(aged, now);
    ReplyRead(aged, now);
    ParseAfterToDer(sd);
    CanonValue(sd);
    CanonTypeKept(sd);
    TokenTyped(aged, now);
  }

  lemma FetchSteps(w: World, si: SignerInfo, x: Exchange, resp: Response, info: Info, a: Attribute)
    requires TsRequest(w.crypto, si, x.nonce).Ok? && x.reply.Some? && ParseResponse(x.reply.value) == Ok(resp)
    requires ResponseInfo(w.parseInfo, resp) == Ok(info) && resp.token.Some?
    requires Matches(TsRequest(w.crypto, si, x.nonce).value, info) == Some(true)
    requires NewAttribute(TIME_STAMP_TOKEN, InfoRaw(resp.token.value).full) == Ok(a)
    ensures FetchTs(w.crypto, w.parseInfo, si, x) == Ok(a)
  {
    hide TsRequest, ParseResponse, ResponseInfo, Matches, NewAttribute, InfoRaw;
  }

  /** The service's answer is accepted for every signer with this digest. */
  lemma FetchSucceeds(aged: bool, si: SignerInfo, now: Clock)
    requires !now.Unrepresentable? && si.digestAlg == DIGEST_ALGORITHM
    ensures var rv := InfoRaw(ToContentInfo(TokenData(aged, now)));
            && FetchTs(StampWorld(aged).crypto, StampWorld(aged).parseInfo, si, StampExchange(aged, now))
               == Ok(Single(TIME_STAMP_TOKEN, rv))
            && IsParsed(rv) && rv.full == ToDer(TokenData(aged, now))
  {
    hide ParseResponse, ResponseInfo, SignedDataContent, ParseSignedData, TokenData, ToContentInfo, InfoRaw, IsParsed,
      NewAttribute, StampReply, Single, Matches, TsRequest, FetchTs, Completed;
    var sd := TokenData(aged, now);
    var ci := ToContentInfo(sd);
    var rv := InfoRaw(ci);
    TokenBound(aged, now);
    InfoRoundTrip(sd);
    ReplyRead(aged, now);
    ReplyInfo(aged, now);
    StampMatches(aged, si);
    NewAttributeSingle(TIME_STAMP_TOKEN, rv, []);
    assert rv.full + [] == rv.full;
    var read := ci.(content := Completed(ci.content));
    FetchSteps(StampWorld(aged), si, StampExchange(aged, now), Response([0], Some(read)), StampInfo(),
               Single(TIME_STAMP_TOKEN, rv));
  }

  lemma CanonTypeKept(sd: SignedData)
    ensures Canon(sd).eci.typ == sd.eci.typ
  {
    hide SortBy, Completed;
  }

  lemma TokenTyped(aged: bool, now: Clock)
    requires !now.Unrepresentable?
    ensures TokenData(aged, now).eci.typ == TST_INFO
  {
    hide TokenData, MakeSigner;
    var si := TokenShape(aged, now);
    EncapType(TST_INFO, []);
  }

  // ---------------------------------------------------------------- the hypotheses meet

  /** The attached token opens to the service's message and its TSTInfo. */
  lemma StampOpened(aged: bool, si: SignerInfo, now: Clock)
    requires !now.Unrepresentable? && si.digestAlg == DIGEST_ALGORITHM && si.unsignedAttrs.None?
    ensures var a := FetchTs(StampWorld(aged).crypto, StampWorld(aged).parseInfo, si, StampExchange(aged, now));
            && a.Ok?
            && OpenedInfo(StampWorld(aged), AddUnsigned(si, a.value)) == Ok((Canon(TokenData(aged, now)), StampInfo()))
    ensures ParseSignedData(ToDer(TokenData(aged, now))) == Ok(Canon(TokenData(aged, now)))
  {
    hide FetchTs, ParseSignedData, ToDer, TokenData, InfoRaw, IsParsed, Single, GetOnly, EContentValue, Canon,
      WfSigned, DeepSigned;
    var sd := TokenData(aged, now);
    var rv := InfoRaw(ToContentInfo(sd));
    FetchSucceeds(aged, si, now);
    TokenBound(aged, now);
    TokenWritable(aged, now);
    ParseAfterToDer(sd);
    CanonValue(sd);
    CanonTypeKept(sd);
    TokenTyped(aged, now);
    var a := Single(TIME_STAMP_TOKEN, rv);
    AppendedOnly([], a, rv);
    assert [] + [a] == [a];
  }

  lemma StampAccepted(aged: bool, si: SignerInfo, now: Clock, c: Certificate, opts: VerifyOptions,
      base: set<Certificate>)
    requires !now.Unrepresentable? && si.digestAlg == DIGEST_ALGORITHM && si.unsignedAttrs.None?
    requires c == SOME_CERTIFICATE && (!aged || TimeOr(opts.currentTime, 0) == Some(0))
    ensures var a := FetchTs(StampWorld(aged).crypto, StampWorld(aged).parseInfo, si, StampExchange(aged, now));
            a.Ok? && TokenAccepted(StampWorld(aged), AddUnsigned(si, a.value), c, opts, base)
  {
    hide FetchTs, ParseSignedData, ToDer, TokenData, Verify, Canon, LargestSize, OpenedInfo, AddUnsigned, Accepts;
    var w := StampWorld(aged);
    var tst := Canon(TokenData(aged, now));
    StampOpened(aged, si, now);
    StampInTime();
    forall pool {:trigger Verify(w, tst, opts.(timestamping := true), pool)}
      ensures Verify(w, tst, opts.(timestamping := true), pool).result.Ok?
    {
      TokenVerifies(aged, now, opts.(timestamping := true), pool);
    }
  }

  lemma StampInTime()
    ensures Accepts(StampInfo(), 0, 0)
  {
  }

  lemma BuiltSigner(w: World, sd: SignedData, si: SignerInfo, typ: bytes, data: bytes, known: set<Certificate>,
      calls: seq<SignCall>)
    requires EndToEnd.Built(w.crypto, sd, typ, data, known, calls) && si in sd.signerInfos
    ensures si.digestAlg == DIGEST_ALGORITHM && si.unsignedAttrs.None?
  {
    hide ProperCertificate, CertRaw, CertsKnown, MakeSigner, NewEncapContent;
    assert SignerMade(w.crypto, si, CertList(sd), typ, data, known, calls);
    var c, call :| call in calls && MadeWith(w.crypto, si, CertList(sd), typ, data, known, c, call);
    MadeDigest(w.crypto, NewEncapContent(typ, data), c, call.signer, call.now);
    MadeNames(w.crypto, NewEncapContent(typ, data), c, call.signer, call.now);
    MadePlain(w.crypto, NewEncapContent(typ, data), c, call.signer, call.now);
  }

  lemma MadePlain(env: Crypto, eci: EncapContent, cert: Certificate, signer: Signer, now: Clock)
    ensures var made := MakeSigner(env, eci, cert, signer, now);
            made.Ok? ==> made.value.unsignedAttrs.None?
  {
    hide NewSid, EContentValue, SignatureOid, AvailableHash, BuildAttributes, MarshaledForSigning;
  }

  /** The message has a signer, and none of its signers has a token. */
  lemma PlainMessage(aged: bool, data: bytes, now: Clock)
    requires |data| < MAX_READABLE && !now.Unrepresentable?
    ensures var w, calls := StampWorld(aged), [SomeCall(now)];
            && Setting(w, calls, DATA, data, {SOME_CERTIFICATE})
            && Successes(w.crypto, NewSigned(NewEncapContent(DATA, data)), calls) == 1
            && |Message(w, calls, DATA, data).signerInfos| == 1
            && Message(w, calls, DATA, data).signerInfos[0].digestAlg == DIGEST_ALGORITHM
            && Message(w, calls, DATA, data).signerInfos[0].unsignedAttrs.None?
  {
    hide Setting, Message, NewEncapContent, Complete, Successes, EndToEnd.Built, Fresh, StampWorld, SomeCall;
    OidsValid();
    StampSetting(aged, now, DATA, data);
    assert Sha256Length(StampWorld(aged).crypto) by {
      SettingLength(StampWorld(aged), [SomeCall(now)], DATA, data, {SOME_CERTIFICATE});
    }
    FirstCallSucceeds(StampWorld(aged).crypto, SomeCall(now), DATA, data);
    MessageBuilt(StampWorld(aged), [SomeCall(now)], DATA, data, {SOME_CERTIFICATE});
    var sd := Message(StampWorld(aged), [SomeCall(now)], DATA, data);
    BuiltSigner(StampWorld(aged), sd, sd.signerInfos[0], DATA, data, {SOME_CERTIFICATE}, [SomeCall(now)]);
  }

  /** All that TimestampedVerifies asks for holds together, for every content. */
  lemma TimestampsMet(aged: bool, data: bytes, now: Clock, opts: VerifyOptions)
    requires |data| < MAX_READABLE && !now.Unrepresentable? && (!aged || TimeOr(opts.currentTime, 0) == Some(0))
    ensures var w, calls, known := StampWorld(aged), [SomeCall(now)], {SOME_CERTIFICATE};
            var step := StampedMessage(w, calls, DATA, data, [StampExchange(aged, now)]);
            && Setting(w, calls, DATA, data, known)
            && Successes(w.crypto, NewSigned(NewEncapContent(DATA, data)), calls) > 0
            && step.error.None? && TokensAccepted(w, step.sd, known, opts)
  {
    hide Setting, Message, NewEncapContent, Successes, FetchTs, TokenAccepted, NewSid, CertsOf, StampExchange,
      StampWorld, SomeCall, Single;
    var w, calls, known := StampWorld(aged), [SomeCall(now)], {SOME_CERTIFICATE};
    var plain := Message(w, calls, DATA, data);
    PlainMessage(aged, data, now);
    var si := plain.signerInfos[0];
    FetchSucceeds(aged, si, now);
    OneStamp(w, plain, StampExchange(aged, now));
    var stamped := StampedMessage(w, calls, DATA, data, [StampExchange(aged, now)]).sd;
    forall c | c in known
      ensures TokenAccepted(w, stamped.signerInfos[0], c, opts, CertsOf(stamped, known))
    {
      StampAccepted(aged, si, now, c, opts, CertsOf(stamped, known));
    }
  }

  lemma OneStamp(w: World, sd: SignedData, x: Exchange)
    requires |sd.signerInfos| == 1 && FetchTs(w.crypto, w.parseInfo, sd.signerInfos[0], x).Ok?
    ensures var step := AddTimestamps(w.crypto, w.parseInfo, sd, [x]);
            var si := sd.signerInfos[0];
            step == Step(sd.(signerInfos := [AddUnsigned(si, FetchTs(w.crypto, w.parseInfo, si, x).value)]), None)
  {
    hide FetchTs, FetchAll;
    AllOrNothing(w, sd, [x]);
    FetchedEach(w.crypto, w.parseInfo, sd.signerInfos, [x]);
  }

  /** The aged certificate passes no chain check without a time. */
  lemma AgedRejected(sd: SignedData, econtent: bytes, pool: set<Certificate>)
    requires forall si :: si in sd.signerInfos ==> si.unsignedAttrs.None?
    ensures VerifyContent(StampWorld(true), sd, econtent, VerifyOptions(None, false), pool).result.Err?
  {
    hide VerifyContent, AcceptedWithin, X509Certificates, SomeWorld;
    var w, opts := StampWorld(true), VerifyOptions(None, false);
    if VerifyContent(w, sd, econtent, opts, pool).result.Ok? {
      VerifySound(w, sd, econtent, opts, pool);
      var v, certs := VerifyContent(w, sd, econtent, opts, pool), X509Certificates(w.crypto, sd).value;
      assert AcceptedWithin(w, sd.signerInfos[0], certs, sd.eci.typ, econtent, opts, v.result.value[0],
                            pool + AsSet(certs), v.pool);
      NoneAccepted(w, sd.signerInfos[0], certs, sd.eci.typ, econtent, v.result.value[0], pool + AsSet(certs), v.pool);
    }
  }

  lemma NoneAccepted(w: World, si: SignerInfo, certs: seq<Certificate>, typ: bytes, econtent: bytes, chains: Chains,
      low: set<Certificate>, high: set<Certificate>)
    requires si.unsignedAttrs.None? && w == StampWorld(true)
    ensures !AcceptedWithin(w, si, certs, typ, econtent, VerifyOptions(None, false), chains, low, high)
  {
    hide Identified, SignatureChecks, TokenVerified, Accepts, SomeWorld;
    assert UnsignedList(si) == [];
  }

  /**
   * A signature that outlives its certificate: in one world the message does not verify without a
   * timestamp and no time stated, and does verify once a timestamp was added.
   */
  lemma StampOutlives(data: bytes, now: Clock, pool: set<Certificate>)
    requires |data| < MAX_READABLE && !now.Unrepresentable?
    ensures var w, calls, opts := StampWorld(true), [SomeCall(now)], VerifyOptions(None, false);
            var plain := Message(w, calls, DATA, data);
            var step := AddTimestamps(w.crypto, w.parseInfo, plain, [StampExchange(true, now)]);
            && Verify(w, plain, opts, pool).result.Err?
            && step.error.None? && Verify(w, step.sd, opts, pool).result.Ok?
  {
    hide Setting, Message, Successes, StampExchange, StampWorld, SomeCall, Verify, VerifyContent, AddTimestamps,
      TokensAccepted, EContentValue, VerifyDetached, LargestSize;
    var w, calls, known := StampWorld(true), [SomeCall(now)], {SOME_CERTIFICATE};
    var opts := VerifyOptions(None, false);
    var plain := Message(w, calls, DATA, data);
    PlainMessage(true, data, now);
    AgedNotVerified(plain, pool);
    TimestampsMet(true, data, now, opts);
    TimestampedVerifies(w, calls, DATA, data, known, [StampExchange(true, now)], opts, pool);
  }

  lemma AgedNotVerified(sd: SignedData, pool: set<Certificate>)
    requires forall si :: si in sd.signerInfos ==> si.unsignedAttrs.None?
    ensures Verify(StampWorld(true), sd, VerifyOptions(None, false), pool).result.Err?
  {
    hide VerifyContent, EContentValue, StampWorld, LargestSize;
    if EContentValue(sd.eci).Ok? && EContentValue(sd.eci).value.Some? {
      AgedRejected(sd, EContentValue(sd.eci).value.value, pool);
    }
  }
}
