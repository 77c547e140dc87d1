/**
 * The CMS structures of protocol.go and their DER: SignerInfo, SignedData and ContentInfo as
 * asn1.Marshal writes them and asn1.Unmarshal reads them.
 */
module Cms {
  import opened Bytes
  import opened Errors
  import opened NormalForm
  import opened Order
  import opened Asn1
  import opened Attributes
  import Ber

  // 1.2.840.113549.1.7.1 and .2
  const DATA: bytes := [0x2A, 0x86, 0x48, 0x86, 0xF7, 0x0D, 0x01, 0x07, 0x01]
  const SIGNED_DATA: bytes := [0x2A, 0x86, 0x48, 0x86, 0xF7, 0x0D, 0x01, 0x07, 0x02]

  datatype AlgorithmIdentifier = AlgorithmIdentifier(oid: bytes, params: Option<RawValue>)

  /** The content is None when EContent is the zero RawValue, whose Bytes are nil. */
  datatype EncapContent = EncapContent(typ: bytes, content: Option<RawValue>)

  datatype SignerInfo = SignerInfo(
    version: bytes,
    sid: RawValue,
    digestAlg: AlgorithmIdentifier,
    signedAttrs: AttributeList,
    sigAlg: AlgorithmIdentifier,
    signature: bytes,
    unsignedAttrs: AttributeList)

  datatype SignedData = SignedData(
    version: bytes,
    digestAlgs: seq<AlgorithmIdentifier>,
    eci: EncapContent,
    certs: Option<seq<RawValue>>,
    crls: Option<seq<RawValue>>,
    signerInfos: seq<SignerInfo>)

  datatype ContentInfo = ContentInfo(typ: bytes, content: RawValue)

  // ---------------------------------------------------------------- encapsulated content

  /** NewEncapsulatedContentInfo: `[0] { OCTET STRING }`, not yet marshalled. */
  function NewEncapContent(typ: bytes, content: bytes): EncapContent {
    EncapContent(typ, Some(RawValue(CONTEXT_0, Tlv(OCTET_STRING, content), [])))
  }

  /** The sub-strings of a constructed OCTET STRING, joined. */
  function JoinChunks(s: bytes): CmsOutcome<bytes>
    decreases |s|
  {
    if s == [] then Ok([])
    else
      var p :- Unmarshal(s);
      if p.value.id != OCTET_STRING then Err(BadClassOrTag)
      else
        var rest :- JoinChunks(p.rest);
        Ok(p.value.content + rest)
  }

  /**
   * EContentValue. A joined value without octets is a nil slice in Go, the same as missing
   * content; an empty primitive value is not.
   */
  function EContentValue(eci: EncapContent): CmsOutcome<Option<bytes>> {
    if eci.content.None? then Ok(None)
    else
      var p :- Unmarshal(eci.content.value.content);
      if p.rest != [] then Err(TrailingData)
      else if p.value.id == OCTET_STRING then Ok(Some(p.value.content))
      else if p.value.id == OCTET_STRING_COMPOUND then
        var joined :- JoinChunks(p.value.content);
        Ok(if joined == [] then None else Some(joined))
      else Err(BadClassOrTag)
  }

  /** EContentValue (protocol.go:139-186). */
  method GetEContentValue(eci: EncapContent) returns (r: CmsOutcome<Option<bytes>>)
    ensures r == EContentValue(eci)
  {
    hide Unmarshal;
    if eci.content.None? {
      return Ok(None);
    }
    var outer := Unmarshal(eci.content.value.content);
    if outer.Err? {
      return Err(outer.error);
    }
    if |outer.value.rest| > 0 {
      return Err(TrailingData);
    }
    var octets := outer.value.value;
    if octets.id == OCTET_STRING {
      return Ok(Some(octets.content));
    }
    if octets.id != OCTET_STRING_COMPOUND {
      return Err(BadClassOrTag);
    }
    var value: bytes := [];
    var rest := octets.content;
    ghost var all := JoinChunks(rest);
    assert all.Ok? ==> [] + all.value == all.value;
    while |rest| > 0
      invariant all == match JoinChunks(rest) case Ok(more) => Ok(value + more) case Err(e) => Err(e)
      decreases |rest|
    {
      var p := Unmarshal(rest);
      if p.Err? {
        return Err(p.error);
      }
      if p.value.value.id != OCTET_STRING {
        return Err(BadClassOrTag);
      }
      ghost var more := JoinChunks(p.value.rest);
      if more.Ok? {
        assert value + (p.value.value.content + more.value) == (value + p.value.value.content) + more.value;
      }
      value := value + p.value.value.content;
      rest := p.value.rest;
    }
    assert value + [] == value;
    return Ok(if value == [] then None else Some(value));
  }

  // ---------------------------------------------------------------- written structures

  function SetOf<T>(xs: seq<T>, key: T -> bytes): bytes {
    Flatten(Sort(Mapped(xs, key)))
  }

  function AlgFields(a: AlgorithmIdentifier): seq<Option<RawValue>> {
    [Some(Raw(OID, a.oid)), a.params]
  }

  const ALG_SCHEMA := [Tagged(OID), OptAny]

  function AlgRaw(a: AlgorithmIdentifier): RawValue {
    Raw(SEQUENCE, FieldsBytes(AlgFields(a)))
  }

  function AlgKey(a: AlgorithmIdentifier): bytes {
    AlgRaw(a).full
  }

  function AttributeFields(a: Attribute): seq<Option<RawValue>> {
    [Some(Raw(OID, a.typ)), Some(Completed(a.value))]
  }

  const ATTRIBUTE_SCHEMA := [Tagged(OID), AnyValue]

  function AttributeRaw(a: Attribute): RawValue {
    Raw(SEQUENCE, FieldsBytes(AttributeFields(a)))
  }

  function EncapFields(e: EncapContent): seq<Option<RawValue>> {
    [Some(Raw(OID, e.typ)),
     if e.content.None? then None else Some(Completed(e.content.value))]
  }

  /** A RawValue with the FullBytes that Marshal gives it. */
  function Completed(rv: RawValue): RawValue {
    rv.(full := MarshalRaw(rv))
  }

  const ENCAP_SCHEMA := [Tagged(OID), OptExplicit0]

  function EncapRaw(e: EncapContent): RawValue {
    Raw(SEQUENCE, FieldsBytes(EncapFields(e)))
  }

  function SignerFields(si: SignerInfo): seq<Option<RawValue>> {
    [Some(Raw(INTEGER, si.version)),
     Some(si.sid),
     Some(AlgRaw(si.digestAlg)),
     if si.signedAttrs.None? then None else Some(Raw(CONTEXT_0, InOrder(si.signedAttrs.value))),
     Some(AlgRaw(si.sigAlg)),
     Some(Raw(OCTET_STRING, si.signature)),
     if si.unsignedAttrs.None? then None
     else Some(Raw(CONTEXT_1, SetOf(si.unsignedAttrs.value, EncodeAttribute)))]
  }

  const SIGNER_SCHEMA := [Tagged(INTEGER), AnyValue, Tagged(SEQUENCE), OptTagged(CONTEXT_0),
                          Tagged(SEQUENCE), Tagged(OCTET_STRING), OptTagged(CONTEXT_1)]

  function SignerRaw(si: SignerInfo): RawValue {
    Raw(SEQUENCE, FieldsBytes(SignerFields(si)))
  }

  function SignerKey(si: SignerInfo): bytes {
    SignerRaw(si).full
  }

  function RawKey(rv: RawValue): bytes {
    rv.full
  }

  function SignedFields(sd: SignedData): seq<Option<RawValue>> {
    [Some(Raw(INTEGER, sd.version)),
     Some(Raw(SET, SetOf(sd.digestAlgs, AlgKey))),
     Some(EncapRaw(sd.eci)),
     if sd.certs.None? then None else Some(Raw(CONTEXT_0, SetOf(sd.certs.value, RawKey))),
     if sd.crls.None? then None else Some(Raw(CONTEXT_1, SetOf(sd.crls.value, RawKey))),
     Some(Raw(SET, SetOf(sd.signerInfos, SignerKey)))]
  }

  const SIGNED_SCHEMA := [Tagged(INTEGER), Tagged(SET), Tagged(SEQUENCE), OptTagged(CONTEXT_0),
                          OptTagged(CONTEXT_1), Tagged(SET)]

  function SignedRaw(sd: SignedData): RawValue {
    Raw(SEQUENCE, FieldsBytes(SignedFields(sd)))
  }

  function InfoFields(ci: ContentInfo): seq<Option<RawValue>> {
    [Some(Raw(OID, ci.typ)), Some(Completed(ci.content))]
  }

  const INFO_SCHEMA := [Tagged(OID), Explicit0]

  function InfoRaw(ci: ContentInfo): RawValue {
    Raw(SEQUENCE, FieldsBytes(InfoFields(ci)))
  }

  function ToContentInfo(sd: SignedData): ContentInfo {
    ContentInfo(SIGNED_DATA, RawValue(CONTEXT_0, SignedRaw(sd).full, []))
  }

  /** ToDER. */
  function ToDer(sd: SignedData): bytes {
    InfoRaw(ToContentInfo(sd)).full
  }

  // ---------------------------------------------------------------- read structures

  function DecodeAll<T>(rvs: seq<RawValue>, decode: RawValue -> CmsOutcome<T>): (r: CmsOutcome<seq<T>>)
    ensures r.Ok? ==> |r.value| == |rvs| && forall i :: 0 <= i < |rvs| ==> decode(rvs[i]) == Ok(r.value[i])
  {
    if rvs == [] then Ok([])
    else
      var first :- decode(rvs[0]);
      var rest :- DecodeAll(rvs[1..], decode);
      Ok([first] + rest)
  }

  /** SEQUENCE OF or SET OF, element by element in the order found. */
  function DecodeList<T>(rv: RawValue, decode: RawValue -> CmsOutcome<T>): CmsOutcome<seq<T>> {
    var rvs :- UnmarshalAll(rv.content);
    DecodeAll(rvs, decode)
  }

  function DecodeOptional<T>(v: Option<RawValue>, decode: RawValue -> CmsOutcome<T>): CmsOutcome<Option<seq<T>>> {
    if v.None? then Ok(None)
    else
      var list :- DecodeList(v.value, decode);
      Ok(Some(list))
  }

  /** The fields of a struct held in a SEQUENCE. */
  function DecodeStruct(rv: RawValue, schema: seq<Field>): (r: CmsOutcome<seq<Option<RawValue>>>)
    ensures r.Ok? ==> |r.value| == |schema|
  {
    if rv.id != SEQUENCE then Err(BadAsn1) else ParseFields(rv.content, schema)
  }

  function DecodeAlg(rv: RawValue): CmsOutcome<AlgorithmIdentifier> {
    var vs :- DecodeStruct(rv, ALG_SCHEMA);
    if vs[0].None? || !ValidOid(vs[0].value.content) then Err(BadAsn1)
    else Ok(AlgorithmIdentifier(vs[0].value.content, vs[1]))
  }

  function DecodeAttribute(rv: RawValue): CmsOutcome<Attribute> {
    var vs :- DecodeStruct(rv, ATTRIBUTE_SCHEMA);
    if vs[0].None? || !ValidOid(vs[0].value.content) || vs[1].None? then Err(BadAsn1)
    else Ok(Attribute(vs[0].value.content, vs[1].value))
  }

  function DecodeEncap(rv: RawValue): CmsOutcome<EncapContent> {
    var vs :- DecodeStruct(rv, ENCAP_SCHEMA);
    if vs[0].None? || !ValidOid(vs[0].value.content) then Err(BadAsn1)
    else Ok(EncapContent(vs[0].value.content, vs[1]))
  }

  predicate ValidInt64(c: bytes) {
    ValidInteger(c) && |c| <= 8
  }

  function DecodeSigner(rv: RawValue): CmsOutcome<SignerInfo> {
    var vs :- DecodeStruct(rv, SIGNER_SCHEMA);
    if vs[0].None? || !ValidInt64(vs[0].value.content) || vs[1].None? || vs[2].None? || vs[4].None? || vs[5].None?
    then Err(BadAsn1)
    else
      var digestAlg :- DecodeAlg(vs[2].value);
      var signedAttrs :- DecodeOptional(vs[3], DecodeAttribute);
      var sigAlg :- DecodeAlg(vs[4].value);
      var unsignedAttrs :- DecodeOptional(vs[6], DecodeAttribute);
      Ok(SignerInfo(vs[0].value.content, vs[1].value, digestAlg, signedAttrs, sigAlg, vs[5].value.content,
                    unsignedAttrs))
  }

  function DecodeRaw(rv: RawValue): CmsOutcome<RawValue> {
    Ok(rv)
  }

  function DecodeSigned(rv: RawValue): CmsOutcome<SignedData> {
    var vs :- DecodeStruct(rv, SIGNED_SCHEMA);
    if vs[0].None? || !ValidInt64(vs[0].value.content) || vs[1].None? || vs[2].None? || vs[5].None?
    then Err(BadAsn1)
    else
      var digestAlgs :- DecodeList(vs[1].value, DecodeAlg);
      var eci :- DecodeEncap(vs[2].value);
      var certs :- DecodeOptional(vs[3], DecodeRaw);
      var crls :- DecodeOptional(vs[4], DecodeRaw);
      var signerInfos :- DecodeList(vs[5].value, DecodeSigner);
      Ok(SignedData(vs[0].value.content, digestAlgs, eci, certs, crls, signerInfos))
  }

  function DecodeInfo(rv: RawValue): CmsOutcome<ContentInfo> {
    var vs :- DecodeStruct(rv, INFO_SCHEMA);
    if vs[0].None? || !ValidOid(vs[0].value.content) || vs[1].None? then Err(BadAsn1)
    else Ok(ContentInfo(vs[0].value.content, vs[1].value))
  }

  /** One TLV, decoded, with nothing after it. */
  function UnmarshalWhole<T>(s: bytes, decode: RawValue -> CmsOutcome<T>): CmsOutcome<T> {
    var p :- Unmarshal(s);
    var v :- decode(p.value);
    if p.rest != [] then Err(TrailingData) else Ok(v)
  }

  /** ParseContentInfo: BER2DER first, so DER is all that encoding/asn1 sees. */
  function ParseContentInfo(ber: bytes): CmsOutcome<ContentInfo> {
    var der := Ber.Ber2Der(ber);
    if der.Err? then Err(BerFailure(der.error)) else UnmarshalWhole(der.value, DecodeInfo)
  }

  function SignedDataContent(ci: ContentInfo): CmsOutcome<SignedData> {
    if ci.typ != SIGNED_DATA then Err(WrongType) else UnmarshalWhole(ci.content.content, DecodeSigned)
  }

  function ParseSignedData(ber: bytes): CmsOutcome<SignedData> {
    var ci :- ParseContentInfo(ber);
    SignedDataContent(ci)
  }
}
