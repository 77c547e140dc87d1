/** Concrete surroundings and inputs for the hypotheses and the exceptions of the main results. */
module Witnesses {
  import opened Bytes
  import opened Lengths
  import opened NormalForm
  import opened Order
  import opened Asn1
  import opened Attributes
  import opened Cms
  import opened Environment
  import opened Signing
  import opened SigningProofs
  import opened Verification
  import opened SignVerify
  import opened EndToEnd
  import opened SignedMessages
  import opened SignSucceeds
  import opened WireProofs
  import opened Nesting
  import Ber
  import opened ContentTypes

  // ---------------------------------------------------------------- a content type of 32 octets

  function Repeated(b: byte): (r: bytes)
    ensures |r| == 32 && forall i :: 0 <= i < 32 ==> r[i] == b
  {
    seq(32, i => b)
  }

  /** 1.2 followed by 31 arcs of 42. */
  function LongType(): (typ: bytes)
    ensures |typ| == 32
  {
    Repeated(0x2A)
  }

  /** A digest that tells one message from all others. */
  function Told(special: bytes, m: bytes): (d: bytes)
    ensures |d| == 32
  {
    if m == special then Repeated(1) else Repeated(0)
  }

  /** Signatures are digests, and the check compares them and the algorithm. */
  function TellingWorld(special: bytes): World {
    World(Crypto((h, m) => Told(special, m), h => true, raw => Some(SOME_CERTIFICATE),
                 (c: Certificate, a, m, s) => s == Told(special, m) && Some(a) == KeySignature(c.keyAlg, SHA256),
                 (c, o, p) => Some([])),
          octets => None)
  }

  function TellingCall(now: Clock): SignCall {
    SignCall([SOME_CERTIFICATE], Signer(Some([]), (d, h) => Some(d)), now)
  }

  /** What is signed at `now` for the empty message with the long content type. */
  function LongSigned(now: Clock): bytes
    requires ClockValue(now).Ok?
  {
    var stored := SortAttributes(GeneratedAttributes(ClockValue(now).value, Repeated(0), LongType()));
    var signed := MarshaledForSigning(stored);
    if signed.Ok? then signed.value else []
  }

  lemma LongTypeValid()
    ensures ValidOid(LongType()) && |LongType()| == 32
  {
    LastArcs(LongType(), 0);
    assert LongType()[0..] == LongType();
  }

  lemma RepeatedDiffer()
    ensures Repeated(1) != Repeated(0)
  {
    assert Repeated(1)[0] == 1 && Repeated(0)[0] == 0;
  }

  /** What is signed is not empty, and it is all there is to sign. */
  lemma LongSignedNotEmpty(now: Clock)
    requires !now.Unrepresentable?
    ensures ClockValue(now).Ok? && LongSigned(now) != []
    ensures MarshaledForSigning(SortAttributes(GeneratedAttributes(ClockValue(now).value, Repeated(0), LongType())))
            == Ok(LongSigned(now))
  {
    hide MarshaledForSigning, SortAttributes, GeneratedAttributes, Small, Sort, Flatten, Tlv, EncodeAttribute, IsTime,
      ValidOid;
    var time := ClockValue(now).value;
    var stored := SortAttributes(GeneratedAttributes(time, Repeated(0), LongType()));
    ClockIsTime(now);
    LongTypeValid();
    GeneratedSmall(time, Repeated(0), LongType());
    SigningValue(stored);
    TlvSize(SET, Flatten(Sort(Mapped(stored, EncodeAttribute))));
  }

  /** The digest tells what is signed from everything else. */
  lemma SignedTold(special: bytes, attrs: seq<Attribute>)
    requires MarshaledForSigning(attrs) == Ok(special)
    ensures OrderSeen(TellingWorld(special).crypto, attrs)
  {
    hide MarshaledForSigning, MarshaledForVerification, Repeated;
    RepeatedDiffer();
  }

  lemma LongOrderSeen(now: Clock)
    requires !now.Unrepresentable?
    ensures CallSeen(TellingWorld(LongSigned(now)).crypto, TellingCall(now), LongType(), [])
  {
    hide MarshaledForSigning, MarshaledForVerification, SortAttributes, GeneratedAttributes, LongSigned, OrderSeen,
      Repeated;
    var special := LongSigned(now);
    LongSignedNotEmpty(now);
    assert TellingWorld(special).crypto.hash(SHA256, []) == Repeated(0);
    SignedTold(special, SortAttributes(GeneratedAttributes(ClockValue(now).value, Repeated(0), LongType())));
  }

  lemma ClockIsTime(now: Clock)
    requires !now.Unrepresentable?
    ensures ClockValue(now).Ok? && IsTime(ClockValue(now).value)
  {
  }

  lemma TellingCorrect(special: bytes, now: Clock)
    ensures Correct(TellingWorld(special).crypto, TellingCall(now).signer)
  {
    hide Told;
  }

  lemma LongSetting(now: Clock)
    requires !now.Unrepresentable?
    ensures var w, call := TellingWorld(LongSigned(now)), TellingCall(now);
            Setting(w, [call], LongType(), [], {SOME_CERTIFICATE}) && Complete(w.crypto, call)
  {
    hide Usable, CertRaw, ValidOid, Unmarshal, Told, ProperCertificate, Correct, LongSigned;
    TellingProper(LongSigned(now));
    TellingCorrect(LongSigned(now), now);
    LongTypeValid();
    assert TellingCall(now).chain[0] == SOME_CERTIFICATE;
  }

  lemma LongExact(special: bytes, now: Clock)
    ensures CallsExact(TellingWorld(special).crypto, [TellingCall(now)], LongType(), [])
  {
    hide Told, MarshaledForSigning, MarshaledForVerification, SortAttributes, GeneratedAttributes;
  }

  lemma LongChains(special: bytes, sd: SignedData, opts: VerifyOptions)
    ensures ChainsAccepted(TellingWorld(special).crypto, sd, {SOME_CERTIFICATE}, opts)
  {
    hide CertRaw;
  }

  /**
   * The failing half of the main result on content types happens: with this content type and all
   * hypotheses met, AddSignerInfo succeeds and Verify rejects what it made.
   */
  lemma LongTypeFails(now: Clock, opts: VerifyOptions, pool: set<Certificate>)
    requires !now.Unrepresentable?
    ensures var w, call, known := TellingWorld(LongSigned(now)), TellingCall(now), {SOME_CERTIFICATE};
            var start := NewSigned(NewEncapContent(LongType(), []));
            var step := AddSignerInfo(w.crypto, start, call.chain, call.signer, now);
            && Setting(w, [call], LongType(), [], known) && Complete(w.crypto, call)
            && CallsExact(w.crypto, [call], LongType(), []) && CallsSeen(w.crypto, [call], LongType(), [])
            && ChainsAccepted(w.crypto, Message(w, [call], LongType(), []), known, opts)
            && step.error.None? && Verify(w, step.sd, opts, pool).result.Err?
  {
    hide Setting, Complete, CallsExact, ChainsAccepted, AddSignerInfo, NewEncapContent, Message, CallSeen, Verify,
      VerifyDetached, LargestSize, Sha256Length, TellingWorld, Detach;
    var w, call, known := TellingWorld(LongSigned(now)), TellingCall(now), {SOME_CERTIFICATE};
    LongSetting(now);
    LongExact(LongSigned(now), now);
    LongOrderSeen(now);
    LongChains(LongSigned(now), Message(w, [call], LongType(), []), opts);
    assert Sha256Length(w.crypto) by { SettingLength(w, [call], LongType(), [], known); }
    FirstCallSucceeds(w.crypto, call, LongType(), []);
    MessageIsFirst(w, call, LongType(), []);
    VerifiesExactly(w, [call], LongType(), [], known, opts, pool);
  }

  lemma SettingLength(w: World, calls: seq<SignCall>, typ: bytes, data: bytes, known: set<Certificate>)
    requires Setting(w, calls, typ, data, known)
    ensures Sha256Length(w.crypto) && ValidOid(typ)
  {
    hide ValidOid;
  }

  lemma MessageIsFirst(w: World, call: SignCall, typ: bytes, data: bytes)
    ensures Message(w, [call], typ, data)
            == AddSignerInfo(w.crypto, NewSigned(NewEncapContent(typ, data)), call.chain, call.signer, call.now).sd
  {
    hide AddSignerInfo, NewEncapContent;
    OneCall(w.crypto, NewSigned(NewEncapContent(typ, data)), call);
  }

  lemma TellingProper(special: bytes)
    ensures Usable(TellingWorld(special).crypto, SOME_CERTIFICATE)
    ensures ProperCertificate(TellingWorld(special).crypto, SOME_CERTIFICATE)
  {
    hide Unmarshal;
    EmptySequence();
  }

  // ---------------------------------------------------------------- sizes of small structures

  lemma {:induction false} FieldsBound(vs: seq<Option<RawValue>>, m: nat)
    requires forall i :: 0 <= i < |vs| && vs[i].Some? ==> |vs[i].value.full| <= m
    ensures |FieldsBytes(vs)| <= |vs| * m
  {
    hide IsParsed;
    if vs == [] {
      assert 0 * m == 0;
    } else {
      FieldsBound(vs[1..], m);
      OneMoreTimes(|vs[1..]|, m);
      assert |FieldsBytes(vs)| <= m + |FieldsBytes(vs[1..])|;
    }
  }

  lemma OneMoreTimes(n: nat, m: nat)
    ensures (n + 1) * m == m + n * m
  {
  }

  lemma SetOfOne<T>(x: T, key: T -> bytes)
    ensures SetOf([x], key) == key(x) && SetOf([], key) == []
  {
    var ks := Mapped([x], key);
    assert ks == [key(x)] && ks[..0] == [] && ks[1..] == [];
    assert Sort(ks) == [key(x)];
    assert Flatten([key(x)]) == key(x) + [] == key(x);
    assert Mapped<T, bytes>([], key) == [];
  }

  lemma AlgBound(a: AlgorithmIdentifier)
    requires |a.oid| <= 16 && a.params.None?
    ensures |AlgRaw(a).full| <= 100
  {
    hide Tlv, FieldsBytes;
    TlvBound(OID, a.oid);
    FieldsBound(AlgFields(a), 26);
    TlvBound(SEQUENCE, FieldsBytes(AlgFields(a)));
  }

  // ---------------------------------------------------------------- content lost on the way

  /** A [0] without a child, and an element after it that the reader of the struct skips. */
  function OddEncap(): bytes {
    Tlv(OID, DATA) + (Tlv(CONTEXT_0, []) + Tlv([0x05], []))
  }

  function OddFields(): seq<Option<RawValue>> {
    [Some(Raw(INTEGER, [1])), Some(Raw(SET, [])), Some(Raw(SEQUENCE, OddEncap())), None, None, Some(Raw(SET, []))]
  }

  function OddSigned(): RawValue {
    Raw(SEQUENCE, FieldsBytes(OddFields()))
  }

  /** The message with these fields. */
  function OddMessage(): bytes {
    InfoRaw(ContentInfo(SIGNED_DATA, RawValue(CONTEXT_0, OddSigned().full, []))).full
  }

  /** What is read from it. */
  function OddRead(): SignedData {
    SignedData([1], [], EncapContent(DATA, Some(Raw(CONTEXT_0, []))), None, None, [])
  }

  lemma OddSizes()
    ensures |OddEncap()| <= 100 && |FieldsBytes(OddFields())| <= 1000 && |OddSigned().full| <= 1010
    ensures |OddMessage()| <= 5000
  {
    hide Tlv, FieldsBytes, ReadTlvHeader;
    TlvBound(OID, DATA);
    TlvBound(CONTEXT_0, []);
    TlvBound([0x05], []);
    TlvBound(INTEGER, [1]);
    TlvBound(SET, []);
    TlvBound(SEQUENCE, OddEncap());
    FieldsBound(OddFields(), 120);
    TlvBound(SEQUENCE, FieldsBytes(OddFields()));
    TlvBound(OID, SIGNED_DATA);
    TlvBound(CONTEXT_0, OddSigned().full);
    var ci := ContentInfo(SIGNED_DATA, RawValue(CONTEXT_0, OddSigned().full, []));
    FieldsBound(InfoFields(ci), 1020);
    TlvBound(SEQUENCE, FieldsBytes(InfoFields(ci)));
  }

  lemma OddEncapRead()
    ensures DecodeEncap(Raw(SEQUENCE, OddEncap())) == Ok(OddRead().eci)
  {
    hide Tlv, IsParsed, ReadTlvHeader, Unmarshal, ValidOid;
    OidsValid();
    var zero := Raw(CONTEXT_0, []);
    var rest := zero.full + Tlv([0x05], []);
    SmallRaw(OID, DATA);
    SmallRaw(CONTEXT_0, []);
    PresentField(Raw(OID, DATA), rest, Tagged(OID));
    EmptyExplicit(zero, Tlv([0x05], []));
    assert ENCAP_SCHEMA[1..] == [OptExplicit0] && [OptExplicit0][1..] == [];
    assert ParseFields(Tlv([0x05], []), []) == Ok([]);
    assert ParseFields(rest, [OptExplicit0]) == Ok([Some(zero)] + []);
  }

  lemma EmptyExplicit(zero: RawValue, more: bytes)
    requires zero == Raw(CONTEXT_0, []) && IsParsed(zero) && more == Tlv([0x05], [])
    ensures ParseField(zero.full + more, OptExplicit0) == Ok(FieldRead(Some(zero), more))
  {
    hide ReadTlvHeader, Unmarshal, IsParsed;
    ParsedHeader(zero, more);
    UnmarshalRaw(zero, more);
    TlvSize([0x05], []);
  }

  lemma OddSignedRead()
    ensures DecodeSigned(OddSigned()) == Ok(OddRead()) && IsParsed(OddSigned())
  {
    hide Tlv, IsParsed, FieldsBytes, ParseFields, DecodeEncap, DecodeAlg, DecodeSigner, Conforms;
    OddSizes();
    SmallRaw(INTEGER, [1]);
    SmallRaw(SET, []);
    SmallRaw(SEQUENCE, OddEncap());
    SmallRaw(SEQUENCE, FieldsBytes(OddFields()));
    SixConform(OddFields());
    FieldsRoundTrip(OddFields(), SIGNED_SCHEMA);
    OddEncapRead();
    assert UnmarshalAll([]) == Ok([]);
  }

  lemma OddDer()
    ensures IsDer(OddMessage())
  {
    hide Tlv, IsDer, IsDerSeq, FieldsBytes;
    OddSizes();
    DerPrimitive(OID, DATA);
    DerPrimitive([0x05], []);
    DerSeqNil();
    DerConstructed(CONTEXT_0, []);
    DerConstructed(SET, []);
    assert Tlv([0x05], []) + [] == Tlv([0x05], []);
    DerSeqCons(Tlv([0x05], []), []);
    DerSeqCons(Tlv(CONTEXT_0, []), Tlv([0x05], []));
    DerSeqCons(Tlv(OID, DATA), Tlv(CONTEXT_0, []) + Tlv([0x05], []));
    DerConstructed(SEQUENCE, OddEncap());
    DerPrimitive(INTEGER, [1]);
    DerFields(OddFields());
    DerConstructed(SEQUENCE, FieldsBytes(OddFields()));
    DerWrapped(CONTEXT_0, OddSigned().full);
    DerPrimitive(OID, SIGNED_DATA);
    var vs := InfoFields(ContentInfo(SIGNED_DATA, RawValue(CONTEXT_0, OddSigned().full, [])));
    DerFields(vs);
    DerConstructed(SEQUENCE, FieldsBytes(vs));
  }

  lemma OddInfoRead()
    ensures var ci := ContentInfo(SIGNED_DATA, Raw(CONTEXT_0, OddSigned().full));
            DecodeInfo(Raw(SEQUENCE, FieldsBytes(InfoFields(ci)))) == Ok(ci)
    ensures var ci := ContentInfo(SIGNED_DATA, Raw(CONTEXT_0, OddSigned().full));
            InfoRaw(ci).full == OddMessage() && IsParsed(InfoRaw(ci))
  {
    hide Tlv, IsParsed, FieldsBytes, ParseFields, ValidOid, Conforms, OddSigned;
    OddSizes();
    var content := OddSigned().full;
    var ci := ContentInfo(SIGNED_DATA, Raw(CONTEXT_0, content));
    SmallRaw(OID, SIGNED_DATA);
    SmallRaw(CONTEXT_0, content);
    SignedDataOid();
    OddNotEmpty();
    TwoConform(Raw(OID, SIGNED_DATA), Raw(CONTEXT_0, content));
    ParsedNonEmpty(Raw(CONTEXT_0, content));
    FieldsRoundTrip(InfoFields(ci), INFO_SCHEMA);
    TlvSize(SEQUENCE, FieldsBytes(InfoFields(ci)));
    SmallRaw(SEQUENCE, FieldsBytes(InfoFields(ci)));
  }

  lemma OddNotEmpty()
    ensures OddSigned().full != []
  {
    hide FieldsBytes;
  }

  lemma TwoConform(a: RawValue, b: RawValue)
    requires IsParsed(a) && IsParsed(b) && a.id == OID && b.id == CONTEXT_0 && b.content != []
    ensures Conforms([Some(a), Some(b)], INFO_SCHEMA)
  {
    hide IsParsed;
    assert [Some(a), Some(b)][1..] == [Some(b)] && INFO_SCHEMA[1..] == [Explicit0];
    assert Conforms([Some(b)], [Explicit0]);
  }

  lemma OddReadSmall()
    ensures |ToDer(OddRead())| < MAX_READABLE
  {
    hide Tlv, FieldsBytes;
    var sd := OddRead();
    SetOfOne(DIGEST_ALGORITHM, AlgKey);
    NoneSet(SignerKey);
    TlvBound(OID, DATA);
    TlvBound(CONTEXT_0, []);
    FieldsBound(EncapFields(sd.eci), 20);
    TlvBound(SEQUENCE, FieldsBytes(EncapFields(sd.eci)));
    TlvBound(INTEGER, [1]);
    TlvBound(SET, []);
    FieldsBound(SignedFields(sd), 100);
    SmallToDer(sd);
  }

  lemma NoneSet<T>(key: T -> bytes)
    ensures SetOf([], key) == []
  {
    assert Mapped<T, bytes>([], key) == [];
  }

  lemma SmallToDer(sd: SignedData)
    requires |FieldsBytes(SignedFields(sd))| < MAX_READABLE
    ensures |ToDer(sd)| <= 2 * |FieldsBytes(SignedFields(sd))| + 100
  {
    hide Tlv, FieldsBytes, SignedFields;
    TlvBound(SEQUENCE, FieldsBytes(SignedFields(sd)));
    TlvBound(OID, SIGNED_DATA);
    TlvBound(CONTEXT_0, SignedRaw(sd).full);
    var vs := InfoFields(ToContentInfo(sd));
    FieldsBound(vs, |FieldsBytes(SignedFields(sd))| + 20);
    TlvBound(SEQUENCE, FieldsBytes(vs));
  }

  /** The exception to the round trip is real: this message is read, written, and then not read. */
  lemma ContentLost()
    ensures ParseSignedData(OddMessage()) == Ok(OddRead())
    ensures ParseSignedData(ToDer(OddRead())).Err?
  {
    hide Tlv, IsParsed, FieldsBytes, IsDer, Ber.Ber2Der, Unmarshal, DecodeInfo, DecodeSigned, ToDer;
    var ci := ContentInfo(SIGNED_DATA, Raw(CONTEXT_0, OddSigned().full));
    OddSizes();
    OddDer();
    Ber2DerFixed(OddMessage());
    OddInfoRead();
    OddSignedRead();
    UnmarshalRaw(InfoRaw(ci), []);
    UnmarshalRaw(OddSigned(), []);
    assert OddMessage() + [] == OddMessage() && OddSigned().full + [] == OddSigned().full;
    OddReadSmall();
    Reparsed(OddMessage());
  }

  // ---------------------------------------------------------------- a message octet by octet

  function SmallSigner(): SignerInfo {
    SignerInfo([1], Raw(SEQUENCE, []), AlgorithmIdentifier([0x2A], None), Some([]), AlgorithmIdentifier([0x2B], None),
               [0xFF], Some([]))
  }

  function SmallSigned(): SignedData {
    SignedData([1], [AlgorithmIdentifier([0x2A], None)],
               EncapContent([0x2A], Some(RawValue(CONTEXT_0, [4, 1, 65], []))), Some([Raw(SEQUENCE, [])]), Some([]),
               [SmallSigner()])
  }

  /** version, sid, digestAlgorithm, signedAttrs, signatureAlgorithm, signature, unsignedAttrs. */
  function SignerOctets(): bytes {
    [0x02, 1, 1] + ([0x30, 0] + (AlgOctets(0x2A)
    + ([0xA0, 0] + (AlgOctets(0x2B) + ([0x04, 1, 0xFF] + [0xA1, 0])))))
  }

  function AlgOctets(b: byte): bytes {
    [0x30, 3, 0x06, 1, b]
  }

  /** version, digestAlgorithms, encapContentInfo, certificates, crls, signerInfos. */
  function SignedOctets(): bytes {
    [0x02, 1, 1] + (([0x31, 5] + AlgOctets(0x2A)) + ([0x30, 8, 0x06, 1, 0x2A, 0xA0, 3, 0x04, 1, 65]
    + ([0xA0, 2, 0x30, 0] + ([0xA1, 0] + ([0x31, 24, 0x30, 22] + SignerOctets())))))
  }

  lemma ShortTlv(id: bytes, c: bytes, full: bytes)
    requires |id| == 1 && |c| < 128 && full == [id[0], |c|] + c
    ensures Tlv(id, c) == full
  {
  }

  /** Field `k` in front of the octets of those after it. */
  lemma FieldsFrom(vs: seq<Option<RawValue>>, k: nat, full: bytes, rest: bytes)
    requires k < |vs| && vs[k].Some? && vs[k].value.full == full && FieldsBytes(vs[k + 1..]) == rest
    ensures FieldsBytes(vs[k..]) == full + rest
  {
    assert vs[k..][1..] == vs[k + 1..];
  }

  lemma LastField(vs: seq<Option<RawValue>>, full: bytes)
    requires vs != [] && vs[|vs| - 1].Some? && vs[|vs| - 1].value.full == full
    ensures FieldsBytes(vs[|vs| - 1..]) == full
  {
    assert vs[|vs| - 1..][1..] == [];
    assert full + [] == full;
  }

  lemma AlgWritten(b: byte)
    ensures AlgRaw(AlgorithmIdentifier([b], None)).full == AlgOctets(b)
  {
    hide Tlv;
    var vs := AlgFields(AlgorithmIdentifier([b], None));
    ShortTlv(OID, [b], [0x06, 1, b]);
    assert vs[1..][1..] == [] && NonePresent(vs[1..]);
    NonePresentBytes(vs[1..]);
    assert FieldsBytes(vs) == [0x06, 1, b] by { assert [0x06, 1, b] + [] == [0x06, 1, b]; }
    ShortTlv(SEQUENCE, [0x06, 1, b], AlgOctets(b));
  }

  lemma NothingInOrder()
    ensures InOrder([]) == []
  {
  }

  /** A written SignerInfo: the fields in the order of section 5.3 of RFC 5652, with their tags. */
  lemma SignerWritten()
    ensures SignerRaw(SmallSigner()).full == [0x30, 22] + SignerOctets()
  {
    hide FieldsBytes, SetOf, InOrder, AlgRaw, Tlv, AlgOctets;
    var vs := SignerFields(SmallSigner());
    NoneSet(EncodeAttribute);
    NothingInOrder();
    AlgWritten(0x2A);
    AlgWritten(0x2B);
    ShortTlv(CONTEXT_1, [], [0xA1, 0]);
    ShortTlv(OCTET_STRING, [0xFF], [0x04, 1, 0xFF]);
    ShortTlv(CONTEXT_0, [], [0xA0, 0]);
    ShortTlv(SEQUENCE, [], [0x30, 0]);
    ShortTlv(INTEGER, [1], [0x02, 1, 1]);
    LastField(vs, [0xA1, 0]);
    FieldsFrom(vs, 5, [0x04, 1, 0xFF], [0xA1, 0]);
    FieldsFrom(vs, 4, AlgOctets(0x2B), [0x04, 1, 0xFF] + [0xA1, 0]);
    FieldsFrom(vs, 3, [0xA0, 0], AlgOctets(0x2B) + ([0x04, 1, 0xFF] + [0xA1, 0]));
    var tail := [0xA0, 0] + (AlgOctets(0x2B) + ([0x04, 1, 0xFF] + [0xA1, 0]));
    FieldsFrom(vs, 2, AlgOctets(0x2A), tail);
    FieldsFrom(vs, 1, [0x30, 0], AlgOctets(0x2A) + tail);
    FieldsFrom(vs, 0, [0x02, 1, 1], [0x30, 0] + (AlgOctets(0x2A) + tail));
    assert vs[0..] == vs;
    OctetCounts();
    ShortTlv(SEQUENCE, SignerOctets(), [0x30, 22] + SignerOctets());
  }

  lemma OctetCounts()
    ensures |SignerOctets()| == 22 && |SignedOctets()| == 52 && |SIGNED_DATA| == 9
  {
  }

  lemma EncapWritten()
    ensures EncapRaw(SmallSigned().eci).full == [0x30, 8, 0x06, 1, 0x2A, 0xA0, 3, 0x04, 1, 65]
  {
    hide FieldsBytes, Tlv;
    ShortTlv(OID, [0x2A], [0x06, 1, 0x2A]);
    ShortTlv(CONTEXT_0, [4, 1, 65], [0xA0, 3, 4, 1, 65]);
    TwoFieldsBytes(Raw(OID, [0x2A]), Raw(CONTEXT_0, [4, 1, 65]));
    var body := [0x06, 1, 0x2A, 0xA0, 3, 0x04, 1, 65];
    assert FieldsBytes(EncapFields(SmallSigned().eci)) == body;
    ShortTlv(SEQUENCE, body, [0x30, 8, 0x06, 1, 0x2A, 0xA0, 3, 0x04, 1, 65]);
  }

  /** The sets of the message, each with one element or none. */
  lemma SetsWritten()
    ensures SetOf(SmallSigned().digestAlgs, AlgKey) == AlgOctets(0x2A)
    ensures SetOf(SmallSigned().certs.value, RawKey) == [0x30, 0] && SetOf(SmallSigned().crls.value, RawKey) == []
    ensures SetOf(SmallSigned().signerInfos, SignerKey) == [0x30, 22] + SignerOctets()
  {
    hide SetOf, AlgRaw, SignerRaw, Tlv, AlgOctets, SignerOctets;
    AlgWritten(0x2A);
    SignerWritten();
    ShortTlv(SEQUENCE, [], [0x30, 0]);
    SetOfOne(AlgorithmIdentifier([0x2A], None), AlgKey);
    SetOfOne(Raw(SEQUENCE, []), RawKey);
    SetOfOne(SmallSigner(), SignerKey);
    NoneSet(RawKey);
  }

  lemma SignedWritten()
    ensures FieldsBytes(SignedFields(SmallSigned())) == SignedOctets()
  {
    hide FieldsBytes, SetOf, EncapRaw, Tlv, AlgOctets, SignerOctets;
    var vs := SignedFields(SmallSigned());
    var eci: bytes := [0x30, 8, 0x06, 1, 0x2A, 0xA0, 3, 0x04, 1, 65];
    var set1 := [0x31, 24, 0x30, 22] + SignerOctets();
    SetsWritten();
    EncapWritten();
    OctetCounts();
    assert |AlgOctets(0x2A)| == 5 by { AlgCount(); }
    ShortTlv(SET, [0x30, 22] + SignerOctets(), set1);
    ShortTlv(CONTEXT_1, [], [0xA1, 0]);
    ShortTlv(CONTEXT_0, [0x30, 0], [0xA0, 2, 0x30, 0]);
    ShortTlv(SET, AlgOctets(0x2A), [0x31, 5] + AlgOctets(0x2A));
    ShortTlv(INTEGER, [1], [0x02, 1, 1]);
    LastField(vs, set1);
    FieldsFrom(vs, 4, [0xA1, 0], set1);
    FieldsFrom(vs, 3, [0xA0, 2, 0x30, 0], [0xA1, 0] + set1);
    FieldsFrom(vs, 2, eci, [0xA0, 2, 0x30, 0] + ([0xA1, 0] + set1));
    var tail := eci + ([0xA0, 2, 0x30, 0] + ([0xA1, 0] + set1));
    FieldsFrom(vs, 1, [0x31, 5] + AlgOctets(0x2A), tail);
    FieldsFrom(vs, 0, [0x02, 1, 1], ([0x31, 5] + AlgOctets(0x2A)) + tail);
    assert vs[0..] == vs;
  }

  lemma AlgCount()
    ensures |AlgOctets(0x2A)| == 5
  {
  }

  /** A written message: the fields in the order of section 5.1 of RFC 5652 inside a ContentInfo. */
  lemma MessageWritten()
    ensures ToDer(SmallSigned())
            == [0x30, 67] + ([0x06, 9] + SIGNED_DATA + ([0xA0, 54] + ([0x30, 52] + SignedOctets())))
  {
    hide FieldsBytes, SignedFields, Tlv, SignedOctets, SignerOctets;
    var inner := [0x30, 52] + SignedOctets();
    OctetCounts();
    SignedWritten();
    ShortTlv(SEQUENCE, SignedOctets(), inner);
    ShortTlv(CONTEXT_0, inner, [0xA0, 54] + inner);
    ShortTlv(OID, SIGNED_DATA, [0x06, 9] + SIGNED_DATA);
    TwoFieldsBytes(Raw(OID, SIGNED_DATA), Raw(CONTEXT_0, inner));
    var body := [0x06, 9] + SIGNED_DATA + ([0xA0, 54] + inner);
    ShortTlv(SEQUENCE, body, [0x30, 67] + body);
  }

  function SmallAttribute(): Attribute {
    Single([0x2A], Raw(OCTET_STRING, [9]))
  }

  const SMALL_ATTRIBUTE: bytes := [0x30, 8, 0x06, 1, 0x2A, 0x31, 3, 0x04, 1, 9]

  /** A written attribute: its type and a SET with its value. */
  lemma AttributeWritten()
    ensures EncodeAttribute(SmallAttribute()) == SMALL_ATTRIBUTE
  {
    hide Tlv;
    ShortTlv(OCTET_STRING, [9], [0x04, 1, 9]);
    ShortTlv(SET, [0x04, 1, 9], [0x31, 3, 0x04, 1, 9]);
    ShortTlv(OID, [0x2A], [0x06, 1, 0x2A]);
    ShortTlv(SEQUENCE, [0x06, 1, 0x2A] + [0x31, 3, 0x04, 1, 9], SMALL_ATTRIBUTE);
  }

  /** What is signed and verified when there is only this attribute: a SET of it, under its own tag. */
  lemma AttributesWritten()
    ensures MarshaledForSigning([SmallAttribute()]) == Ok([0x31, 10] + SMALL_ATTRIBUTE)
    ensures MarshaledForVerification([SmallAttribute()]) == Ok([0x31, 10] + SMALL_ATTRIBUTE)
  {
    hide Tlv, MarshaledForSigning, MarshaledForVerification, EncodeAttribute, SmallAttribute, Sort, Flatten, InOrder;
    var a := SmallAttribute();
    AttributeWritten();
    SetOfOne(a, EncodeAttribute);
    OneInOrder(a);
    ShortTlv(SET, SMALL_ATTRIBUTE, [0x31, 10] + SMALL_ATTRIBUTE);
    assert Flatten(Sort(Mapped([a], EncodeAttribute))) == SetOf([a], EncodeAttribute);
    SigningValue([a]);
    VerificationValue([a]);
  }

  lemma OneInOrder(a: Attribute)
    ensures InOrder([a]) == EncodeAttribute(a)
  {
    hide EncodeAttribute;
    var ks := Mapped([a], EncodeAttribute);
    assert ks == [EncodeAttribute(a)] && ks[1..] == [];
    assert Flatten(ks) == EncodeAttribute(a) + [] == EncodeAttribute(a);
  }
}
