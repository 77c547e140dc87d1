/**
 * Reading back what was marshalled: ParseSignedData after ToDER, through BER2DER and every
 * struct, gives the same SignedData with its sets in DER order.
 */
module WireProofs {
  import opened Bytes
  import opened Lengths
  import opened Ber
  import opened NormalForm
  import opened Order
  import opened Asn1
  import opened Attributes
  import opened Cms

  // ---------------------------------------------------------------- sizes

  lemma {:induction false} FieldPart(vs: seq<Option<RawValue>>, i: nat)
    requires i < |vs| && vs[i].Some?
    ensures |vs[i].value.full| <= |FieldsBytes(vs)|
  {
    if i == 0 {
    } else {
      FieldPart(vs[1..], i - 1);
    }
  }

  lemma RawParsed(id: bytes, content: bytes)
    requires |id| == 1 && id[0] % 32 != 31
    requires |Raw(id, content).full| <= MAX_READABLE
    ensures IsParsed(Raw(id, content)) && |content| < |Raw(id, content).full|
  {
    hide EncodeLength;
  }

  // ---------------------------------------------------------------- lists

  lemma {:induction false} FlattenRaws<T>(xs: seq<T>, raw: T -> RawValue, key: T -> bytes)
    requires forall x :: key(x) == raw(x).full
    ensures Flatten(Mapped(xs, key)) == Concat(Mapped(xs, raw))
  {
    if xs == [] {
    } else {
      FlattenRaws(xs[1..], raw, key);
      assert Mapped(xs, key)[1..] == Mapped(xs[1..], key);
      assert Mapped(xs, raw)[1..] == Mapped(xs[1..], raw);
    }
  }

  lemma {:induction false} DecodeAllMap<T, U>(xs: seq<T>, raw: T -> RawValue, decode: RawValue -> CmsOutcome<U>,
      ys: seq<U>)
    requires |xs| == |ys|
    requires forall i :: 0 <= i < |xs| ==> decode(raw(xs[i])) == Ok(ys[i])
    ensures DecodeAll(Mapped(xs, raw), decode) == Ok(ys)
  {
    if xs == [] {
    } else {
      DecodeAllMap(xs[1..], raw, decode, ys[1..]);
      assert Mapped(xs, raw)[1..] == Mapped(xs[1..], raw);
      assert ys == [ys[0]] + ys[1..];
    }
  }

  /** A SEQUENCE OF written in order is read back in order. */
  lemma ListRoundTrip<T, U>(id: bytes, xs: seq<T>, raw: T -> RawValue, key: T -> bytes,
      decode: RawValue -> CmsOutcome<U>, ys: seq<U>)
    requires |xs| == |ys|
    requires forall x :: key(x) == raw(x).full
    requires forall i :: 0 <= i < |xs| ==> IsParsed(raw(xs[i])) && decode(raw(xs[i])) == Ok(ys[i])
    ensures DecodeList(Raw(id, Flatten(Mapped(xs, key))), decode) == Ok(ys)
  {
    hide IsParsed, Tlv, Flatten, Concat, DecodeAll;
    FlattenRaws(xs, raw, key);
    UnmarshalAllConcat(Mapped(xs, raw));
    DecodeAllMap(xs, raw, decode, ys);
  }

  lemma SortedMembers<T>(xs: seq<T>, key: T -> bytes, i: nat)
    requires i < |xs|
    ensures SortBy(xs, key)[i] in xs
  {
    hide SortBy;
    SortByKeys(xs, key);
    assert SortBy(xs, key)[i] in multiset(SortBy(xs, key));
  }

  /** A SET OF is written sorted, so it is read back sorted. */
  lemma SetRoundTrip<T, U>(id: bytes, xs: seq<T>, raw: T -> RawValue, key: T -> bytes,
      decode: RawValue -> CmsOutcome<U>, canon: T -> U)
    requires forall x :: key(x) == raw(x).full
    requires forall x :: x in xs ==> IsParsed(raw(x)) && decode(raw(x)) == Ok(canon(x))
    ensures DecodeList(Raw(id, SetOf(xs, key)), decode) == Ok(Mapped(SortBy(xs, key), canon))
  {
    hide IsParsed, Tlv, Flatten, DecodeList, SortBy, Sort;
    var sorted := SortBy(xs, key);
    SortByKeys(xs, key);
    forall i | 0 <= i < |sorted|
      ensures IsParsed(raw(sorted[i])) && decode(raw(sorted[i])) == Ok(Mapped(sorted, canon)[i])
    {
      SortedMembers(xs, key, i);
    }
    ListRoundTrip(id, sorted, raw, key, decode, Mapped(sorted, canon));
  }

  lemma MappedIdentity<T>(xs: seq<T>, f: T -> T)
    requires forall x :: x in xs ==> f(x) == x
    ensures Mapped(xs, f) == xs
  {
  }

  lemma SetElement<T>(xs: seq<T>, key: T -> bytes, x: T)
    requires x in xs
    ensures |key(x)| <= |SetOf(xs, key)|
  {
    hide Sort;
    var i :| 0 <= i < |xs| && xs[i] == x;
    SortIsSorted(Mapped(xs, key));
    assert Mapped(xs, key)[i] in multiset(Mapped(xs, key));
    assert key(x) in Sort(Mapped(xs, key));
    var j :| 0 <= j < |xs| && Sort(Mapped(xs, key))[j] == key(x);
    FlattenPart(Sort(Mapped(xs, key)), j);
  }

  // ---------------------------------------------------------------- values that can be written

  predicate WfAlg(a: AlgorithmIdentifier) {
    ValidOid(a.oid) && (a.params.Some? ==> IsParsed(a.params.value))
  }

  predicate WfAttribute(a: Attribute) {
    ValidOid(a.typ) && IsParsed(a.value)
  }

  predicate WfAttributes(attrs: AttributeList) {
    attrs.Some? ==> forall a :: a in attrs.value ==> WfAttribute(a)
  }

  predicate WfEncap(e: EncapContent) {
    ValidOid(e.typ) &&
    (e.content.Some? ==>
       e.content.value.id == CONTEXT_0 && e.content.value.content != [] && IsParsed(Completed(e.content.value)))
  }

  predicate WfSigner(si: SignerInfo) {
    && ValidInt64(si.version)
    && IsParsed(si.sid)
    && WfAlg(si.digestAlg) && WfAlg(si.sigAlg)
    && WfAttributes(si.signedAttrs) && WfAttributes(si.unsignedAttrs)
  }

  predicate WfRaws(rvs: Option<seq<RawValue>>) {
    rvs.Some? ==> forall rv :: rv in rvs.value ==> IsParsed(rv)
  }

  /** All of a message but its encapsulated content. */
  predicate WfParts(sd: SignedData) {
    && ValidInt64(sd.version)
    && (forall a :: a in sd.digestAlgs ==> WfAlg(a))
    && WfRaws(sd.certs) && WfRaws(sd.crls)
    && (forall si :: si in sd.signerInfos ==> WfSigner(si))
  }

  predicate WfSigned(sd: SignedData) {
    WfParts(sd) && WfEncap(sd.eci)
  }

  // ---------------------------------------------------------------- what comes back

  function CanonAttributes(attrs: AttributeList): AttributeList {
    if attrs.None? then None else Some(SortBy(attrs.value, EncodeAttribute))
  }

  /** Signed attributes keep their stored order, unsigned ones are sorted. */
  function CanonSigner(si: SignerInfo): SignerInfo {
    si.(unsignedAttrs := CanonAttributes(si.unsignedAttrs))
  }

  function CanonEncap(e: EncapContent): EncapContent {
    if e.content.None? then e else e.(content := Some(Completed(e.content.value)))
  }

  function CanonRaws(rvs: Option<seq<RawValue>>): Option<seq<RawValue>> {
    if rvs.None? then None else Some(SortBy(rvs.value, RawKey))
  }

  function Canon(sd: SignedData): SignedData {
    SignedData(sd.version, SortBy(sd.digestAlgs, AlgKey), CanonEncap(sd.eci), CanonRaws(sd.certs), CanonRaws(sd.crls),
               Mapped(SortBy(sd.signerInfos, SignerKey), CanonSigner))
  }

  // ---------------------------------------------------------------- struct by struct

  lemma AlgRoundTrip(a: AlgorithmIdentifier)
    requires WfAlg(a) && |AlgRaw(a).full| < MAX_READABLE
    ensures IsParsed(AlgRaw(a)) && DecodeAlg(AlgRaw(a)) == Ok(a)
  {
    hide ValidOid, Tlv, FieldsBytes, ParseFields, IsParsed;
    var vs := AlgFields(a);
    RawParsed(SEQUENCE, FieldsBytes(vs));
    FieldPart(vs, 0);
    RawParsed(OID, a.oid);
    assert Conforms(vs, ALG_SCHEMA) by {
      assert vs[1..] == [a.params] && ALG_SCHEMA[1..] == [OptAny];
      assert Conforms([a.params], [OptAny]);
    }
    FieldsRoundTrip(vs, ALG_SCHEMA);
  }

  lemma AttributeRoundTrip(a: Attribute)
    requires WfAttribute(a) && |AttributeRaw(a).full| < MAX_READABLE
    ensures IsParsed(AttributeRaw(a)) && DecodeAttribute(AttributeRaw(a)) == Ok(a)
  {
    hide ValidOid, Tlv, FieldsBytes, ParseFields, IsParsed;
    var vs := AttributeFields(a);
    ParsedNonEmpty(a.value);
    RawParsed(SEQUENCE, FieldsBytes(vs));
    FieldPart(vs, 0);
    RawParsed(OID, a.typ);
    assert Conforms(vs, ATTRIBUTE_SCHEMA) by {
      assert vs[1..] == [Some(a.value)] && ATTRIBUTE_SCHEMA[1..] == [AnyValue];
      assert Conforms([Some(a.value)], [AnyValue]);
    }
    FieldsRoundTrip(vs, ATTRIBUTE_SCHEMA);
  }

  /** The encoding that is sorted and signed is the one written to the wire. */
  lemma AttributeKeys()
    ensures forall a :: EncodeAttribute(a) == AttributeRaw(a).full
  {
    forall a: Attribute
      ensures EncodeAttribute(a) == AttributeRaw(a).full
    {
      AttributeKey(a);
    }
  }

  lemma AttributeKey(a: Attribute)
    ensures EncodeAttribute(a) == AttributeRaw(a).full
  {
    hide Tlv, MarshalRaw;
    var vs := AttributeFields(a);
    var t := MarshalRaw(a.value);
    assert vs[1..] == [Some(Completed(a.value))] && vs[1..][1..] == [];
    assert FieldsBytes(vs[1..]) == t by {
      assert t + [] == t;
      assert FieldsBytes([]) == [];
    }
    assert FieldsBytes(vs) == Tlv(OID, a.typ) + t;
  }

  lemma EncapRoundTrip(e: EncapContent)
    requires WfEncap(e) && |EncapRaw(e).full| < MAX_READABLE
    ensures IsParsed(EncapRaw(e)) && DecodeEncap(EncapRaw(e)) == Ok(CanonEncap(e))
  {
    hide ValidOid, Tlv, FieldsBytes, ParseFields, IsParsed, Completed;
    var vs := EncapFields(e);
    RawParsed(SEQUENCE, FieldsBytes(vs));
    FieldPart(vs, 0);
    RawParsed(OID, e.typ);
    assert Conforms(vs, ENCAP_SCHEMA) by {
      assert vs[1..] == [vs[1]] && ENCAP_SCHEMA[1..] == [OptExplicit0];
      CompletedKeeps(e);
      assert Conforms([vs[1]], [OptExplicit0]);
    }
    FieldsRoundTrip(vs, ENCAP_SCHEMA);
  }

  lemma CompletedKeeps(e: EncapContent)
    ensures e.content.Some? ==>
              Completed(e.content.value).id == e.content.value.id
                  && Completed(e.content.value).content == e.content.value.content
  {
  }

  lemma OptionalAttributes(id: bytes, attrs: seq<Attribute>, content: bytes)
    requires WfAttributes(Some(attrs)) && |content| < MAX_READABLE
    ensures content == InOrder(attrs) ==> DecodeList(Raw(id, content), DecodeAttribute) == Ok(attrs)
    ensures content == SetOf(attrs, EncodeAttribute) ==>
              DecodeList(Raw(id, content), DecodeAttribute) == Ok(SortBy(attrs, EncodeAttribute))
  {
    hide IsParsed, Tlv, DecodeList, SetOf, WfAttribute, EncodeAttribute, DecodeAttribute, AttributeRaw, SortBy, Flatten;
    AttributeKeys();
    if content == InOrder(attrs) {
      forall i | 0 <= i < |attrs|
        ensures IsParsed(AttributeRaw(attrs[i])) && DecodeAttribute(AttributeRaw(attrs[i])) == Ok(attrs[i])
      {
        FlattenPart(Mapped(attrs, EncodeAttribute), i);
        AttributeRoundTrip(attrs[i]);
      }
      ListRoundTrip(id, attrs, AttributeRaw, EncodeAttribute, DecodeAttribute, attrs);
    }
    if content == SetOf(attrs, EncodeAttribute) {
      forall a | a in attrs
        ensures IsParsed(AttributeRaw(a)) && DecodeAttribute(AttributeRaw(a)) == Ok(Same(a))
      {
        SetElement(attrs, EncodeAttribute, a);
        AttributeRoundTrip(a);
      }
      SetRoundTrip(id, attrs, AttributeRaw, EncodeAttribute, DecodeAttribute, Same);
      MappedIdentity(SortBy(attrs, EncodeAttribute), Same);
    }
  }

  function Same<T>(x: T): T {
    x
  }

  lemma TaggedPart(vs: seq<Option<RawValue>>, i: nat, id: bytes, content: bytes)
    requires i < |vs| && vs[i] == Some(Raw(id, content)) && |FieldsBytes(vs)| < MAX_READABLE
    requires |id| == 1 && id[0] % 32 != 31
    ensures IsParsed(vs[i].value) && |content| < MAX_READABLE && |vs[i].value.full| < MAX_READABLE
      && vs[i].value.id == id
  {
    hide Tlv, FieldsBytes, IsParsed;
    FieldPart(vs, i);
    RawParsed(id, content);
  }

  lemma SignerConforms(si: SignerInfo)
    requires WfSigner(si) && |SignerRaw(si).full| < MAX_READABLE
    ensures Conforms(SignerFields(si), SIGNER_SCHEMA) && IsParsed(SignerRaw(si))
    ensures |AlgRaw(si.digestAlg).full| < MAX_READABLE && |AlgRaw(si.sigAlg).full| < MAX_READABLE
    ensures si.signedAttrs.Some? ==> |InOrder(si.signedAttrs.value)| < MAX_READABLE
    ensures si.unsignedAttrs.Some? ==> |SetOf(si.unsignedAttrs.value, EncodeAttribute)| < MAX_READABLE
  {
    hide Tlv, FieldsBytes, IsParsed, InOrder, SetOf, Conforms, WfAttributes, WfAlg, ValidInt64, AlgFields;
    var vs := SignerFields(si);
    RawParsed(SEQUENCE, FieldsBytes(vs));
    TaggedPart(vs, 0, INTEGER, si.version);
    TaggedPart(vs, 2, SEQUENCE, FieldsBytes(AlgFields(si.digestAlg)));
    TaggedPart(vs, 4, SEQUENCE, FieldsBytes(AlgFields(si.sigAlg)));
    TaggedPart(vs, 5, OCTET_STRING, si.signature);
    if si.signedAttrs.Some? {
      TaggedPart(vs, 3, CONTEXT_0, InOrder(si.signedAttrs.value));
    }
    if si.unsignedAttrs.Some? {
      TaggedPart(vs, 6, CONTEXT_1, SetOf(si.unsignedAttrs.value, EncodeAttribute));
    }
    SevenConform(vs);
  }

  /** A list of values conforms when each does and an absent one is followed by another identifier. */
  lemma SevenConform(vs: seq<Option<RawValue>>)
    requires |vs| == 7
    requires forall i :: 0 <= i < 7 && vs[i].Some? ==> IsParsed(vs[i].value)
    requires vs[0].Some? && vs[1].Some? && vs[2].Some? && vs[4].Some? && vs[5].Some?
    requires vs[0].value.id == INTEGER && vs[2].value.id == SEQUENCE && vs[4].value.id == SEQUENCE
    requires vs[5].value.id == OCTET_STRING
    requires vs[3].Some? ==> vs[3].value.id == CONTEXT_0
    requires vs[6].Some? ==> vs[6].value.id == CONTEXT_1
    ensures Conforms(vs, SIGNER_SCHEMA)
  {
    hide IsParsed;
    var fs := SIGNER_SCHEMA;
    assert fs[7..] == [] && vs[7..] == [];
    assert Conforms(vs[7..], fs[7..]);
    assert vs[6..][1..] == vs[7..] && fs[6..][1..] == fs[7..];
    assert NextIsNot(vs[7..], CONTEXT_1);
    assert Conforms(vs[6..], fs[6..]);
    assert vs[5..][1..] == vs[6..] && fs[5..][1..] == fs[6..];
    assert Conforms(vs[5..], fs[5..]);
    assert vs[4..][1..] == vs[5..] && fs[4..][1..] == fs[5..];
    assert Conforms(vs[4..], fs[4..]);
    assert vs[3..][1..] == vs[4..] && fs[3..][1..] == fs[4..];
    assert NextIsNot(vs[4..], CONTEXT_0);
    assert Conforms(vs[3..], fs[3..]);
    assert vs[2..][1..] == vs[3..] && fs[2..][1..] == fs[3..];
    assert Conforms(vs[2..], fs[2..]);
    assert vs[1..][1..] == vs[2..] && fs[1..][1..] == fs[2..];
    assert Conforms(vs[1..], fs[1..]);
  }

  lemma SignerRoundTrip(si: SignerInfo)
    requires WfSigner(si) && |SignerRaw(si).full| < MAX_READABLE
    ensures IsParsed(SignerRaw(si)) && DecodeSigner(SignerRaw(si)) == Ok(CanonSigner(si))
  {
    hide Tlv, FieldsBytes, IsParsed, AlgRaw, WfAttributes, DecodeList, InOrder, SetOf, Conforms, ValidInt64,
      DecodeAlg, ParseFields, SortBy, WfAlg;
    SignerConforms(si);
    FieldsRoundTrip(SignerFields(si), SIGNER_SCHEMA);
    AlgRoundTrip(si.digestAlg);
    AlgRoundTrip(si.sigAlg);
    if si.signedAttrs.Some? {
      OptionalAttributes(CONTEXT_0, si.signedAttrs.value, InOrder(si.signedAttrs.value));
    }
    if si.unsignedAttrs.Some? {
      OptionalAttributes(CONTEXT_1, si.unsignedAttrs.value, SetOf(si.unsignedAttrs.value, EncodeAttribute));
    }
  }

  lemma SixConform(vs: seq<Option<RawValue>>)
    requires |vs| == 6
    requires forall i :: 0 <= i < 6 && vs[i].Some? ==> IsParsed(vs[i].value)
    requires vs[0].Some? && vs[1].Some? && vs[2].Some? && vs[5].Some?
    requires vs[0].value.id == INTEGER && vs[1].value.id == SET && vs[2].value.id == SEQUENCE && vs[5].value.id == SET
    requires vs[3].Some? ==> vs[3].value.id == CONTEXT_0
    requires vs[4].Some? ==> vs[4].value.id == CONTEXT_1
    ensures Conforms(vs, SIGNED_SCHEMA)
  {
    hide IsParsed;
    var fs := SIGNED_SCHEMA;
    assert fs[6..] == [] && vs[6..] == [];
    assert Conforms(vs[6..], fs[6..]);
    assert vs[5..][1..] == vs[6..] && fs[5..][1..] == fs[6..];
    assert Conforms(vs[5..], fs[5..]);
    assert vs[4..][1..] == vs[5..] && fs[4..][1..] == fs[5..];
    assert NextIsNot(vs[5..], CONTEXT_1) && NextIsNot(vs[5..], CONTEXT_0);
    assert Conforms(vs[4..], fs[4..]);
    assert vs[3..][1..] == vs[4..] && fs[3..][1..] == fs[4..];
    assert NextIsNot(vs[4..], CONTEXT_0);
    assert Conforms(vs[3..], fs[3..]);
    assert vs[2..][1..] == vs[3..] && fs[2..][1..] == fs[3..];
    assert Conforms(vs[2..], fs[2..]);
    assert vs[1..][1..] == vs[2..] && fs[1..][1..] == fs[2..];
    assert Conforms(vs[1..], fs[1..]);
  }

  lemma OptionalRaws(id: bytes, rvs: seq<RawValue>)
    requires WfRaws(Some(rvs))
    ensures DecodeList(Raw(id, SetOf(rvs, RawKey)), DecodeRaw) == Ok(SortBy(rvs, RawKey))
  {
    hide IsParsed, Tlv, DecodeList, SetOf, SortBy;
    assert forall x: RawValue :: RawKey(x) == Same(x).full;
    SetRoundTrip(id, rvs, Same, RawKey, DecodeRaw, Same);
    MappedIdentity(SortBy(rvs, RawKey), Same);
  }

  lemma DigestAlgorithms(id: bytes, algs: seq<AlgorithmIdentifier>)
    requires forall a :: a in algs ==> WfAlg(a)
    requires |SetOf(algs, AlgKey)| < MAX_READABLE
    ensures DecodeList(Raw(id, SetOf(algs, AlgKey)), DecodeAlg) == Ok(SortBy(algs, AlgKey))
  {
    hide IsParsed, Tlv, DecodeList, SetOf, SortBy, WfAlg, AlgRaw, DecodeAlg;
    assert forall x: AlgorithmIdentifier :: AlgKey(x) == AlgRaw(x).full;
    forall a | a in algs
      ensures IsParsed(AlgRaw(a)) && DecodeAlg(AlgRaw(a)) == Ok(Same(a))
    {
      SetElement(algs, AlgKey, a);
      AlgRoundTrip(a);
    }
    SetRoundTrip(id, algs, AlgRaw, AlgKey, DecodeAlg, Same);
    MappedIdentity(SortBy(algs, AlgKey), Same);
  }

  lemma SignerInfos(id: bytes, sis: seq<SignerInfo>)
    requires forall si :: si in sis ==> WfSigner(si)
    requires |SetOf(sis, SignerKey)| < MAX_READABLE
    ensures DecodeList(Raw(id, SetOf(sis, SignerKey)), DecodeSigner) == Ok(Mapped(SortBy(sis, SignerKey), CanonSigner))
  {
    hide IsParsed, Tlv, DecodeList, SetOf, SortBy, WfSigner, SignerRaw, DecodeSigner, CanonSigner;
    assert forall x: SignerInfo :: SignerKey(x) == SignerRaw(x).full;
    forall si | si in sis
      ensures IsParsed(SignerRaw(si)) && DecodeSigner(SignerRaw(si)) == Ok(CanonSigner(si))
    {
      SetElement(sis, SignerKey, si);
      SignerRoundTrip(si);
    }
    SetRoundTrip(id, sis, SignerRaw, SignerKey, DecodeSigner, CanonSigner);
  }

  lemma SignedConforms(sd: SignedData)
    requires WfParts(sd) && |SignedRaw(sd).full| < MAX_READABLE
    ensures Conforms(SignedFields(sd), SIGNED_SCHEMA) && IsParsed(SignedRaw(sd))
    ensures |SetOf(sd.digestAlgs, AlgKey)| < MAX_READABLE && |SetOf(sd.signerInfos, SignerKey)| < MAX_READABLE
    ensures |EncapRaw(sd.eci).full| < MAX_READABLE
  {
    hide Tlv, FieldsBytes, IsParsed, SetOf, Conforms, ValidInt64, WfAlg, WfEncap, WfSigner, WfRaws, EncapFields;
    var vs := SignedFields(sd);
    RawParsed(SEQUENCE, FieldsBytes(vs));
    TaggedPart(vs, 0, INTEGER, sd.version);
    TaggedPart(vs, 1, SET, SetOf(sd.digestAlgs, AlgKey));
    TaggedPart(vs, 2, SEQUENCE, FieldsBytes(EncapFields(sd.eci)));
    TaggedPart(vs, 5, SET, SetOf(sd.signerInfos, SignerKey));
    if sd.certs.Some? {
      TaggedPart(vs, 3, CONTEXT_0, SetOf(sd.certs.value, RawKey));
    }
    if sd.crls.Some? {
      TaggedPart(vs, 4, CONTEXT_1, SetOf(sd.crls.value, RawKey));
    }
    SixConform(vs);
  }

  lemma SignedRoundTrip(sd: SignedData)
    requires WfSigned(sd) && |SignedRaw(sd).full| < MAX_READABLE
    ensures IsParsed(SignedRaw(sd)) && DecodeSigned(SignedRaw(sd)) == Ok(Canon(sd))
  {
    hide Tlv, FieldsBytes, IsParsed, EncapRaw, SetOf, Conforms, ValidInt64, WfAlg, WfEncap, WfSigner, WfRaws,
      DecodeList, ParseFields, SortBy, DecodeEncap, CanonSigner, CanonEncap;
    SignedConforms(sd);
    FieldsRoundTrip(SignedFields(sd), SIGNED_SCHEMA);
    DigestAlgorithms(SET, sd.digestAlgs);
    EncapRoundTrip(sd.eci);
    SignerInfos(SET, sd.signerInfos);
    if sd.certs.Some? {
      OptionalRaws(CONTEXT_0, sd.certs.value);
    }
    if sd.crls.Some? {
      OptionalRaws(CONTEXT_1, sd.crls.value);
    }
  }

  // ---------------------------------------------------------------- the outer wrapping

  lemma InfoRoundTrip(sd: SignedData)
    requires |ToDer(sd)| < MAX_READABLE
    ensures var ci := ToContentInfo(sd);
            && IsParsed(InfoRaw(ci))
            && DecodeInfo(InfoRaw(ci)) == Ok(ci.(content := Completed(ci.content)))
            && |SignedRaw(sd).full| < MAX_READABLE
  {
    hide Tlv, FieldsBytes, ParseFields, IsParsed, SignedRaw, ValidOid;
    var ci := ToContentInfo(sd);
    var der := SignedRaw(sd).full;
    var vs := InfoFields(ci);
    RawParsed(SEQUENCE, FieldsBytes(vs));
    FieldPart(vs, 0);
    RawParsed(OID, SIGNED_DATA);
    FieldPart(vs, 1);
    assert vs[1] == Some(Raw(CONTEXT_0, der));
    RawParsed(CONTEXT_0, der);
    SignedNonEmpty(sd);
    SignedDataOid();
    assert Conforms(vs, INFO_SCHEMA) by {
      assert vs[1..] == [vs[1]] && INFO_SCHEMA[1..] == [Explicit0];
      assert Conforms([vs[1]], [Explicit0]);
    }
    FieldsRoundTrip(vs, INFO_SCHEMA);
  }

  lemma SignedNonEmpty(sd: SignedData)
    ensures SignedRaw(sd).full != []
  {
    hide FieldsBytes, SignedFields;
  }

  lemma SignedDataOid()
    ensures ValidOid(SIGNED_DATA)
  {
    NineArcs(SIGNED_DATA);
  }

  /** 1.2.840.113549.1.x.y in octets: arcs of one, two and three octets. */
  lemma NineArcs(c: bytes)
    requires |c| == 9 && c[..6] == [0x2A, 0x86, 0x48, 0x86, 0xF7, 0x0D]
    requires c[6] < 0x80 && c[7] < 0x80 && c[8] < 0x80
    ensures ValidOid(c)
  {
    assert c[0] == c[..6][0] && c[1] == c[..6][1] && c[2] == c[..6][2];
    assert c[3] == c[..6][3] && c[4] == c[..6][4] && c[5] == c[..6][5];
    OneArc(c[8..]);
    assert Arcs(c[8..][1..]);
    assert c[7..][1..] == c[8..];
    OneArc(c[7..]);
    assert c[6..][1..] == c[7..];
    OneArc(c[6..]);
    assert c[3..][3..] == c[6..];
    ThreeOctetArc(c[3..]);
    assert c[1..][2..] == c[3..];
    TwoOctetArc(c[1..]);
    OneArc(c);
  }

  lemma OneArc(c: bytes)
    requires c != [] && c[0] < 0x80 && Arcs(c[1..])
    ensures Arcs(c)
  {
    assert ReadHighTag(c, 0) == Ok(1);
    assert c[..1] == [c[0]];
  }

  lemma TwoOctetArc(c: bytes)
    requires |c| >= 2 && c[0] > 0x80 && c[1] < 0x80 && Arcs(c[2..])
    ensures Arcs(c)
  {
    assert ReadHighTag(c, 1) == Ok(2);
    assert ReadHighTag(c, 0) == Ok(2);
  }

  lemma ThreeOctetArc(c: bytes)
    requires |c| >= 3 && c[0] > 0x80 && c[1] >= 0x80 && c[2] < 0x80 && Arcs(c[3..])
    ensures Arcs(c)
  {
    assert ReadHighTag(c, 2) == Ok(3);
    assert ReadHighTag(c, 1) == Ok(3);
    assert ReadHighTag(c, 0) == Ok(3);
  }

  // ---------------------------------------------------------------- BER2DER leaves it alone

  /** The octets of one well-formed DER object. */
  ghost predicate IsDer(d: bytes) {
    exists o :: ValidObj(o) && Der(o) == d
  }

  ghost predicate IsDerSeq(d: bytes) {
    exists os :: ValidObjs(os) && DerSeq(os) == d
  }

  lemma DerPrimitive(id: bytes, content: bytes)
    requires |id| == 1 && id[0] % 32 != 31 && !IsConstructed(id[0]) && |content| < MAX_READABLE
    ensures IsDer(Tlv(id, content))
  {
    var o := Primitive(id, |content|, content);
    assert ValidObj(o) && Der(o) == Tlv(id, content);
  }

  lemma DerConstructed(id: bytes, content: bytes)
    requires |id| == 1 && id[0] % 32 != 31 && IsConstructed(id[0]) && IsDerSeq(content)
    ensures IsDer(Tlv(id, content))
  {
    var os :| ValidObjs(os) && DerSeq(os) == content;
    var o := Structured(id, os);
    assert ValidObj(o) && Der(o) == Tlv(id, content);
  }

  lemma DerSeqCons(d: bytes, rest: bytes)
    requires IsDer(d) && IsDerSeq(rest)
    ensures IsDerSeq(d + rest)
  {
    hide ValidObj, Der;
    var o :| ValidObj(o) && Der(o) == d;
    var os :| ValidObjs(os) && DerSeq(os) == rest;
    assert ([o] + os)[1..] == os;
    assert ValidObjs([o] + os) && DerSeq([o] + os) == d + rest;
  }

  lemma DerSeqNil()
    ensures IsDerSeq([])
  {
    assert ValidObjs([]) && DerSeq([]) == [];
  }

  lemma {:induction false} DerFields(vs: seq<Option<RawValue>>)
    requires forall i :: 0 <= i < |vs| && vs[i].Some? ==> IsDer(vs[i].value.full)
    ensures IsDerSeq(FieldsBytes(vs))
  {
    hide IsDer, IsDerSeq;
    if vs == [] {
      DerSeqNil();
    } else {
      DerFields(vs[1..]);
      if vs[0].Some? {
        DerSeqCons(vs[0].value.full, FieldsBytes(vs[1..]));
      } else {
        assert [] + FieldsBytes(vs[1..]) == FieldsBytes(vs[1..]);
      }
    }
  }

  lemma {:induction false} DerFlatten(ks: seq<bytes>)
    requires forall i :: 0 <= i < |ks| ==> IsDer(ks[i])
    ensures IsDerSeq(Flatten(ks))
  {
    hide IsDer, IsDerSeq;
    if ks == [] {
      DerSeqNil();
    } else {
      DerFlatten(ks[1..]);
      DerSeqCons(ks[0], Flatten(ks[1..]));
    }
  }

  lemma DerSetOf<T>(xs: seq<T>, key: T -> bytes)
    requires forall x :: x in xs ==> IsDer(key(x))
    ensures IsDerSeq(SetOf(xs, key))
  {
    hide IsDer, IsDerSeq, Sort, Flatten;
    var ks := Mapped(xs, key);
    SortIsSorted(ks);
    forall i | 0 <= i < |xs|
      ensures IsDer(Sort(ks)[i])
    {
      assert Sort(ks)[i] in multiset(Sort(ks));
      assert Sort(ks)[i] in ks;
    }
    DerFlatten(Sort(ks));
  }

  ghost predicate DeepAlg(a: AlgorithmIdentifier) {
    a.params.Some? ==> IsDer(a.params.value.full)
  }

  ghost predicate DeepAttributes(attrs: AttributeList) {
    attrs.Some? ==> forall a :: a in attrs.value ==> IsDer(a.value.full)
  }

  ghost predicate DeepSigner(si: SignerInfo) {
    && IsDer(si.sid.full)
    && DeepAlg(si.digestAlg) && DeepAlg(si.sigAlg)
    && DeepAttributes(si.signedAttrs) && DeepAttributes(si.unsignedAttrs)
  }

  ghost predicate DeepRaws(rvs: Option<seq<RawValue>>) {
    rvs.Some? ==> forall rv :: rv in rvs.value ==> IsDer(rv.full)
  }

  /** Every raw value held is DER all the way down, as parsed input and our own output are. */
  ghost predicate DeepSigned(sd: SignedData) {
    && (forall a :: a in sd.digestAlgs ==> DeepAlg(a))
    && (sd.eci.content.Some? ==> IsDer(Completed(sd.eci.content.value).full))
    && DeepRaws(sd.certs) && DeepRaws(sd.crls)
    && (forall si :: si in sd.signerInfos ==> DeepSigner(si))
  }

  lemma DerAlg(a: AlgorithmIdentifier)
    requires WfAlg(a) && DeepAlg(a) && |AlgRaw(a).full| < MAX_READABLE
    ensures IsDer(AlgRaw(a).full)
  {
    hide IsDer, IsDerSeq, Tlv, FieldsBytes, ValidOid;
    var vs := AlgFields(a);
    RawParsed(SEQUENCE, FieldsBytes(vs));
    TaggedPart(vs, 0, OID, a.oid);
    DerPrimitive(OID, a.oid);
    DerFields(vs);
    DerConstructed(SEQUENCE, FieldsBytes(vs));
  }

  lemma DerAttribute(a: Attribute)
    requires WfAttribute(a) && IsDer(a.value.full) && |AttributeRaw(a).full| < MAX_READABLE
    ensures IsDer(AttributeRaw(a).full)
  {
    hide IsDer, IsDerSeq, Tlv, FieldsBytes, ValidOid, IsParsed;
    var vs := AttributeFields(a);
    ParsedNonEmpty(a.value);
    RawParsed(SEQUENCE, FieldsBytes(vs));
    TaggedPart(vs, 0, OID, a.typ);
    DerPrimitive(OID, a.typ);
    DerFields(vs);
    DerConstructed(SEQUENCE, FieldsBytes(vs));
  }

  lemma DerAttributesOrdered(attrs: seq<Attribute>)
    requires WfAttributes(Some(attrs)) && DeepAttributes(Some(attrs)) && |InOrder(attrs)| < MAX_READABLE
    ensures IsDer(Tlv(CONTEXT_0, InOrder(attrs)))
  {
    hide IsDer, IsDerSeq, Tlv, EncodeAttribute, AttributeRaw, WfAttribute, Flatten;
    AttributeKeys();
    var ks := Mapped(attrs, EncodeAttribute);
    forall i | 0 <= i < |ks|
      ensures IsDer(ks[i])
    {
      FlattenPart(ks, i);
      DerAttribute(attrs[i]);
    }
    DerFlatten(ks);
    DerConstructed(CONTEXT_0, InOrder(attrs));
  }

  lemma DerAttributesSorted(attrs: seq<Attribute>)
    requires WfAttributes(Some(attrs)) && DeepAttributes(Some(attrs)) && |SetOf(attrs, EncodeAttribute)| < MAX_READABLE
    ensures IsDer(Tlv(CONTEXT_1, SetOf(attrs, EncodeAttribute)))
  {
    hide IsDer, IsDerSeq, Tlv, EncodeAttribute, AttributeRaw, WfAttribute, SetOf;
    AttributeKeys();
    forall a | a in attrs
      ensures IsDer(EncodeAttribute(a))
    {
      SetElement(attrs, EncodeAttribute, a);
      DerAttribute(a);
    }
    DerSetOf(attrs, EncodeAttribute);
    DerConstructed(CONTEXT_1, SetOf(attrs, EncodeAttribute));
  }

  lemma DerSigner(si: SignerInfo)
    requires WfSigner(si) && DeepSigner(si) && |SignerRaw(si).full| < MAX_READABLE
    ensures IsDer(SignerRaw(si).full)
  {
    hide IsDer, IsDerSeq, Tlv, FieldsBytes, InOrder, SetOf, WfAttributes, WfAlg, ValidInt64, AlgRaw, IsParsed,
      DeepAttributes, DeepAlg, Conforms;
    var vs := SignerFields(si);
    SignerConforms(si);
    RawParsed(SEQUENCE, FieldsBytes(vs));
    TaggedPart(vs, 0, INTEGER, si.version);
    DerPrimitive(INTEGER, si.version);
    DerAlg(si.digestAlg);
    DerAlg(si.sigAlg);
    TaggedPart(vs, 5, OCTET_STRING, si.signature);
    DerPrimitive(OCTET_STRING, si.signature);
    if si.signedAttrs.Some? {
      DerAttributesOrdered(si.signedAttrs.value);
    }
    if si.unsignedAttrs.Some? {
      DerAttributesSorted(si.unsignedAttrs.value);
    }
    DerFields(vs);
    DerConstructed(SEQUENCE, FieldsBytes(vs));
  }

  lemma DerEncap(e: EncapContent)
    requires |EncapRaw(e).full| < MAX_READABLE
    requires e.content.Some? ==> IsDer(Completed(e.content.value).full)
    ensures IsDer(EncapRaw(e).full)
  {
    hide IsDer, IsDerSeq, Tlv, FieldsBytes, ValidOid, IsParsed, Completed;
    var vs := EncapFields(e);
    RawParsed(SEQUENCE, FieldsBytes(vs));
    TaggedPart(vs, 0, OID, e.typ);
    DerPrimitive(OID, e.typ);
    DerFields(vs);
    DerConstructed(SEQUENCE, FieldsBytes(vs));
  }

  lemma DerRaws(id: bytes, rvs: seq<RawValue>)
    requires |id| == 1 && id[0] % 32 != 31 && IsConstructed(id[0]) && DeepRaws(Some(rvs))
    ensures IsDer(Tlv(id, SetOf(rvs, RawKey)))
  {
    hide IsDer, IsDerSeq, Tlv, SetOf;
    DerSetOf(rvs, RawKey);
    DerConstructed(id, SetOf(rvs, RawKey));
  }

  lemma DerSets(sd: SignedData)
    requires WfParts(sd) && DeepSigned(sd) && |SignedRaw(sd).full| < MAX_READABLE
    ensures IsDer(Tlv(SET, SetOf(sd.digestAlgs, AlgKey))) && IsDer(Tlv(SET, SetOf(sd.signerInfos, SignerKey)))
  {
    hide IsDer, IsDerSeq, Tlv, SetOf, WfAlg, WfSigner, DeepAlg, DeepSigner, AlgRaw, SignerRaw, SignedRaw, WfEncap,
      WfRaws, Conforms, EncapRaw;
    SignedConforms(sd);
    forall a | a in sd.digestAlgs ensures IsDer(AlgKey(a)) {
      SetElement(sd.digestAlgs, AlgKey, a);
      DerAlg(a);
    }
    DerSetOf(sd.digestAlgs, AlgKey);
    DerConstructed(SET, SetOf(sd.digestAlgs, AlgKey));
    forall si | si in sd.signerInfos ensures IsDer(SignerKey(si)) {
      SetElement(sd.signerInfos, SignerKey, si);
      DerSigner(si);
    }
    DerSetOf(sd.signerInfos, SignerKey);
    DerConstructed(SET, SetOf(sd.signerInfos, SignerKey));
  }

  lemma DerSigned(sd: SignedData)
    requires WfParts(sd) && DeepSigned(sd) && |SignedRaw(sd).full| < MAX_READABLE
    ensures IsDer(SignedRaw(sd).full)
  {
    hide IsDer, IsDerSeq, Tlv, FieldsBytes, SetOf, WfAlg, WfSigner, DeepAlg, DeepSigner, EncapRaw, WfEncap, WfRaws,
      Conforms, DeepRaws, ValidInt64;
    var vs := SignedFields(sd);
    SignedConforms(sd);
    DerSets(sd);
    RawParsed(SEQUENCE, FieldsBytes(vs));
    TaggedPart(vs, 0, INTEGER, sd.version);
    DerPrimitive(INTEGER, sd.version);
    DerEncap(sd.eci);
    if sd.certs.Some? {
      DerRaws(CONTEXT_0, sd.certs.value);
    }
    if sd.crls.Some? {
      DerRaws(CONTEXT_1, sd.crls.value);
    }
    DerFields(vs);
    DerConstructed(SEQUENCE, FieldsBytes(vs));
  }

  lemma DerWrapped(id: bytes, d: bytes)
    requires |id| == 1 && id[0] % 32 != 31 && IsConstructed(id[0]) && IsDer(d)
    ensures IsDer(Tlv(id, d))
  {
    hide IsDer, IsDerSeq, Tlv;
    DerSeqNil();
    DerSeqCons(d, []);
    assert d + [] == d;
    DerConstructed(id, d);
  }

  lemma DerInfo(sd: SignedData)
    requires WfParts(sd) && DeepSigned(sd) && |ToDer(sd)| < MAX_READABLE
    ensures IsDer(ToDer(sd))
  {
    hide IsDer, IsDerSeq, Tlv, FieldsBytes, SignedRaw, WfParts, DeepSigned, IsParsed, DecodeInfo;
    var vs := InfoFields(ToContentInfo(sd));
    InfoRoundTrip(sd);
    DerSigned(sd);
    SignedNonEmpty(sd);
    DerPrimitive(OID, SIGNED_DATA);
    DerWrapped(CONTEXT_0, SignedRaw(sd).full);
    assert vs[1].value.full == Tlv(CONTEXT_0, SignedRaw(sd).full);
    DerFields(vs);
    DerConstructed(SEQUENCE, FieldsBytes(vs));
  }

  lemma Ber2DerFixed(d: bytes)
    requires IsDer(d) && |d| < MAX_READABLE
    ensures Ber2Der(d) == Ok(d)
  {
    hide Parse, Der, ValidObj, Body;
    var o :| ValidObj(o) && Der(o) == d;
    DerIsTlv(o);
    ReadsBack(o, []);
    assert d + [] == d;
  }

  /**
   * ParseSignedData after ToDER gives the SignedData back, its SETs in DER order and everything
   * else unchanged.
   */
  lemma ParseAfterToDer(sd: SignedData)
    requires WfSigned(sd) && DeepSigned(sd) && |ToDer(sd)| < MAX_READABLE
    ensures ParseSignedData(ToDer(sd)) == Ok(Canon(sd))
  {
    hide Ber2Der, Tlv, WfParts, WfEncap, DeepSigned, InfoRaw, SignedRaw, Canon, DecodeInfo, DecodeSigned, Unmarshal,
      IsParsed, IsDer;
    var der := ToDer(sd);
    InfoRoundTrip(sd);
    DerInfo(sd);
    Ber2DerFixed(der);
    SignedRoundTrip(sd);
    UnmarshalRaw(InfoRaw(ToContentInfo(sd)), []);
    UnmarshalRaw(SignedRaw(sd), []);
    assert der + [] == der && SignedRaw(sd).full + [] == SignedRaw(sd).full;
  }

  /** An explicit [0] without a child is written again but not read again. */
  lemma EmptyEncapUnread(e: EncapContent)
    requires ValidOid(e.typ) && |EncapRaw(e).full| < MAX_READABLE
    requires e.content.Some? && IsParsed(e.content.value) && e.content.value.content == []
    ensures DecodeEncap(EncapRaw(e)).Err?
  {
    hide ValidOid, Tlv, FieldsBytes, IsParsed, ReadTlvHeader, Unmarshal;
    var vs := EncapFields(e);
    var rv := e.content.value;
    ParsedNonEmpty(rv);
    RawParsed(SEQUENCE, FieldsBytes(vs));
    FieldPart(vs, 0);
    RawParsed(OID, e.typ);
    OneField(rv);
    assert vs[1..] == [Some(rv)] && ENCAP_SCHEMA[1..] == [OptExplicit0];
    assert FieldsBytes(vs) == Raw(OID, e.typ).full + rv.full by { FirstField(vs); }
    PresentField(Raw(OID, e.typ), rv.full, Tagged(OID));
    ParsedHeader(rv, []);
    assert rv.full + [] == rv.full;
    assert ParseFields(rv.full, [OptExplicit0]).Err?;
  }

  lemma OneField(rv: RawValue)
    ensures FieldsBytes([Some(rv)]) == rv.full
  {
    assert [Some(rv)][1..] == [];
    assert rv.full + [] == rv.full;
  }

  lemma FirstField(vs: seq<Option<RawValue>>)
    requires vs != [] && vs[0].Some?
    ensures FieldsBytes(vs) == vs[0].value.full + FieldsBytes(vs[1..])
  {
  }

  /** So a message with such content is the one kind that does not survive ToDER. */
  lemma EmptyContentUnread(sd: SignedData)
    requires WfParts(sd) && DeepSigned(sd) && |ToDer(sd)| < MAX_READABLE && ValidOid(sd.eci.typ)
    requires sd.eci.content.Some? && IsParsed(sd.eci.content.value) && sd.eci.content.value.content == []
    ensures ParseSignedData(ToDer(sd)).Err?
  {
    hide Ber2Der, Tlv, WfParts, DeepSigned, InfoRaw, SignedRaw, DecodeInfo, DecodeSigned, Unmarshal, IsParsed, IsDer,
      ValidOid;
    var der := ToDer(sd);
    InfoRoundTrip(sd);
    DerInfo(sd);
    Ber2DerFixed(der);
    SignedUnread(sd);
    UnmarshalRaw(InfoRaw(ToContentInfo(sd)), []);
    assert InfoRaw(ToContentInfo(sd)).full + [] == InfoRaw(ToContentInfo(sd)).full;
    UnmarshalRaw(SignedRaw(sd), []);
    assert SignedRaw(sd).full + [] == SignedRaw(sd).full;
  }

  lemma SignedUnread(sd: SignedData)
    requires WfParts(sd) && |SignedRaw(sd).full| < MAX_READABLE && ValidOid(sd.eci.typ)
    requires sd.eci.content.Some? && IsParsed(sd.eci.content.value) && sd.eci.content.value.content == []
    ensures IsParsed(SignedRaw(sd)) && DecodeSigned(SignedRaw(sd)).Err?
  {
    hide Tlv, FieldsBytes, IsParsed, EncapRaw, SetOf, Conforms, ValidInt64, WfParts, DecodeList, ParseFields, SortBy,
      DecodeEncap, ValidOid;
    SignedConforms(sd);
    FieldsRoundTrip(SignedFields(sd), SIGNED_SCHEMA);
    EmptyEncapUnread(sd.eci);
  }
}
