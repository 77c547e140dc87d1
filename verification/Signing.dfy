/** Building a SignedData: protocol.go:610-800 and signed_data.go:57-78 as state changes. */
module Signing {
  import opened Bytes
  import opened Errors
  import opened NormalForm
  import opened Asn1
  import opened Attributes
  import opened Cms
  import opened Environment
  import opened Timestamp

  const VERSION_1: bytes := [0x01]
  const VERSION_3: bytes := [0x03]

  /** The UTC time as asn1.Marshal writes it: 13 octets up to 2049, 15 from 2050 on. */
  datatype Clock = Utc(text: UtcText) | Generalized(long: GeneralizedText) | Unrepresentable

  type UtcText = t: bytes | |t| == 13 witness [0, 0, 0, 0, 0, 0, 0, 0, 0, 0, 0, 0, 0]
  type GeneralizedText = t: bytes | |t| == 15 witness [0, 0, 0, 0, 0, 0, 0, 0, 0, 0, 0, 0, 0, 0, 0]

  function ClockValue(now: Clock): CmsOutcome<RawValue> {
    match now
    case Utc(text) => Ok(Raw(UTC_TIME, text))
    case Generalized(long) => Ok(Raw(GENERALIZED_TIME, long))
    case Unrepresentable => Err(BadAsn1)
  }

  /** A state and the error, if any, that the call returned. */
  datatype Step = Step(sd: SignedData, error: Option<CmsError>)

  // ---------------------------------------------------------------- NewSignedData

  function NewSigned(eci: EncapContent): SignedData {
    SignedData(if eci.typ == DATA then VERSION_1 else VERSION_3, [], eci, None, None, [])
  }

  // ---------------------------------------------------------------- certificates

  function CertList(sd: SignedData): seq<RawValue> {
    if sd.certs.Some? then sd.certs.value else []
  }

  /**
   * AddCertificate. The duplicate test sets the content octets of what is there against the whole
   * encoding of what is added.
   */
  function AddCertificate(sd: SignedData, cert: Certificate): Step {
    if exists i :: 0 <= i < |CertList(sd)| && CertList(sd)[i].content == cert.raw then
      Step(sd, Some(CertificateAlreadyAdded))
    else
      match Unmarshal(cert.raw)
      case Err(e) => Step(sd, Some(e))
      case Ok(p) => Step(sd.(certs := Some(CertList(sd) + [p.value])), None)
  }

  function AddCertificates(sd: SignedData, certs: seq<Certificate>): Step
    decreases |certs|
  {
    if certs == [] then Step(sd, None)
    else
      var first := AddCertificate(sd, certs[0]);
      if first.error.Some? then first else AddCertificates(first.sd, certs[1..])
  }

  /** SetCertificates. */
  function ReplaceCertificates(sd: SignedData, certs: seq<Certificate>): Step {
    AddCertificates(sd.(certs := Some([])), certs)
  }

  /** Detached. */
  function Detach(sd: SignedData): SignedData {
    sd.(eci := sd.eci.(content := None))
  }

  // ---------------------------------------------------------------- AddSignerInfo

  datatype ChainStep = ChainStep(sd: SignedData, leaf: CmsOutcome<Option<Certificate>>)

  /** The loop over the chain: adds every certificate, remembers the last one with the signer's key. */
  function AddChain(sd: SignedData, chain: seq<Certificate>, pub: bytes, leaf: Option<Certificate>): ChainStep
    decreases |chain|
  {
    if chain == [] then ChainStep(sd, Ok(leaf))
    else
      var added := AddCertificate(sd, chain[0]);
      if added.error.Some? then ChainStep(added.sd, Err(added.error.value))
      else if chain[0].pub.None? then ChainStep(added.sd, Err(KeyFailure))
      else AddChain(added.sd, chain[1..], pub, if chain[0].pub.value == pub then Some(chain[0]) else leaf)
  }

  const ISSUER_SERIAL_SCHEMA := [AnyValue, Tagged(INTEGER)]

  /** NewIssuerAndSerialNumber. */
  function NewSid(cert: Certificate): CmsOutcome<RawValue> {
    var issuer :- Unmarshal(cert.rawIssuer);
    var p :- Unmarshal(Tlv(SEQUENCE, FieldsBytes([Some(issuer.value), Some(Raw(INTEGER, cert.serial))])));
    Ok(p.value)
  }

  /** The digest is SHA-256 for every key: the key's octets, not the key, are looked at. */
  const DIGEST_ALGORITHM := AlgorithmIdentifier(OID_SHA256, None)

  /** The three attributes in the order they are handed to sortAttributes. */
  function GeneratedAttributes(time: RawValue, digest: bytes, typ: bytes): (attrs: seq<Attribute>)
    ensures |attrs| == 3
  {
    [Single(SIGNING_TIME, time), Single(MESSAGE_DIGEST, Raw(OCTET_STRING, digest)), Single(CONTENT_TYPE, Raw(OID, typ))]
  }

  function BuildAttributes(now: Clock, digest: bytes, typ: bytes): CmsOutcome<seq<Attribute>> {
    var time :- ClockValue(now);
    var st :- NewAttribute(SIGNING_TIME, time.full);
    var md :- NewAttribute(MESSAGE_DIGEST, Tlv(OCTET_STRING, digest));
    var ct :- NewAttribute(CONTENT_TYPE, Tlv(OID, typ));
    Ok(SortAttributes([st, md, ct]))
  }

  /** From the found certificate to the finished SignerInfo. */
  function MakeSigner(env: Crypto, eci: EncapContent, cert: Certificate, signer: Signer,
      now: Clock): CmsOutcome<SignerInfo>
  {
    var sid :- NewSid(cert);
    var sigOid := SignatureOid(cert.keyAlg, DIGEST_ALGORITHM.oid);
    if sigOid.None? then Err(Unsupported)
    else
      var content :- EContentValue(eci);
      if content.None? then Err(AlreadyDetached)
      else
        var h :- AvailableHash(env, DIGEST_ALGORITHM.oid);
        var attrs :- BuildAttributes(now, env.hash(h, content.value), eci.typ);
        var message :- MarshaledForSigning(attrs);
        match signer.sign(env.hash(h, message), h)
        case None => Err(KeyFailure)
        case Some(signature) =>
          Ok(SignerInfo(VERSION_1, sid, DIGEST_ALGORITHM, Some(attrs),
                        AlgorithmIdentifier(sigOid.value, None), signature, None))
  }

  /** addDigestAlgorithm. */
  function AddDigest(algs: seq<AlgorithmIdentifier>, a: AlgorithmIdentifier): seq<AlgorithmIdentifier> {
    if exists i :: 0 <= i < |algs| && algs[i].oid == a.oid then algs else algs + [a]
  }

  function AddSignerInfo(env: Crypto, sd: SignedData, chain: seq<Certificate>, signer: Signer, now: Clock): Step {
    if signer.pub.None? then Step(sd, Some(KeyFailure))
    else
      var added := AddChain(sd, chain, signer.pub.value, None);
      match added.leaf
      case Err(e) => Step(added.sd, Some(e))
      case Ok(None) => Step(added.sd, Some(NoCertificate))
      case Ok(Some(cert)) =>
        match MakeSigner(env, added.sd.eci, cert, signer, now)
        case Err(e) => Step(added.sd, Some(e))
        case Ok(si) =>
          Step(added.sd.(digestAlgs := AddDigest(added.sd.digestAlgs, si.digestAlg),
                         signerInfos := added.sd.signerInfos + [si]), None)
  }

  // ---------------------------------------------------------------- timestamps

  /** Hash of a SignerInfo. */
  function SignerHash(env: Crypto, si: SignerInfo): CmsOutcome<Hash> {
    AvailableHash(env, si.digestAlg.oid)
  }

  /** tsRequest, with the nonce drawn. */
  function TsRequest(env: Crypto, si: SignerInfo, nonce: bytes): CmsOutcome<Request> {
    var h :- SignerHash(env, si);
    var mi :- NewMessageImprint(env, h, si.signature);
    Ok(Request(mi, Some(nonce)))
  }

  /** What the service sent back, before it is parsed; None when the exchange failed. */
  datatype Exchange = Exchange(nonce: bytes, reply: Option<bytes>)

  /** fetchTS. */
  function FetchTs(env: Crypto, parse: bytes -> Option<Info>, si: SignerInfo, x: Exchange): CmsOutcome<Attribute> {
    var req :- TsRequest(env, si, x.nonce);
    if x.reply.None? then Err(ResponseFailure)
    else
      var resp :- ParseResponse(x.reply.value);
      var info :- ResponseInfo(parse, resp);
      match Matches(req, info)
      case None => Err(NilDereference)
      case Some(false) => Err(ImprintMismatch)
      case Some(true) =>
        if resp.token.None? then Err(WrongType)
        else NewAttribute(TIME_STAMP_TOKEN, InfoRaw(resp.token.value).full)
  }

  function AddUnsigned(si: SignerInfo, a: Attribute): SignerInfo {
    si.(unsignedAttrs := Some((if si.unsignedAttrs.Some? then si.unsignedAttrs.value else []) + [a]))
  }

  /** One token for each SignerInfo, in order, or the first error. A missing answer is an error. */
  function FetchAll(env: Crypto, parse: bytes -> Option<Info>, sis: seq<SignerInfo>,
      xs: seq<Exchange>): (r: CmsOutcome<seq<Attribute>>)
    ensures r.Ok? ==> |r.value| == |sis| <= |xs|
  {
    if sis == [] then Ok([])
    else if xs == [] then Err(ResponseFailure)
    else
      var first :- FetchTs(env, parse, sis[0], xs[0]);
      var rest :- FetchAll(env, parse, sis[1..], xs[1..]);
      Ok([first] + rest)
  }

  lemma {:induction false} FetchedEach(env: Crypto, parse: bytes -> Option<Info>, sis: seq<SignerInfo>,
      xs: seq<Exchange>)
    ensures FetchAll(env, parse, sis, xs).Ok? ==>
              forall i :: 0 <= i < |sis| ==>
                            FetchTs(env, parse, sis[i], xs[i]) == Ok(FetchAll(env, parse, sis, xs).value[i])
  {
    hide FetchTs;
    if sis == [] || xs == [] {
    } else {
      FetchedEach(env, parse, sis[1..], xs[1..]);
      assert forall i :: 1 <= i < |sis| && i < |xs| ==> sis[i] == sis[1..][i - 1] && xs[i] == xs[1..][i - 1];
    }
  }

  function AttachAll(sis: seq<SignerInfo>, attrs: seq<Attribute>): (r: seq<SignerInfo>)
    requires |sis| == |attrs|
    ensures |r| == |sis| && forall i :: 0 <= i < |sis| ==> r[i] == AddUnsigned(sis[i], attrs[i])
  {
    seq(|sis|, i requires 0 <= i < |sis| => AddUnsigned(sis[i], attrs[i]))
  }

  /** AddTimestamps: all tokens are fetched before the first one is attached. */
  function AddTimestamps(env: Crypto, parse: bytes -> Option<Info>, sd: SignedData, xs: seq<Exchange>): Step {
    match FetchAll(env, parse, sd.signerInfos, xs)
    case Err(e) => Step(sd, Some(e))
    case Ok(attrs) => Step(sd.(signerInfos := AttachAll(sd.signerInfos, attrs)), None)
  }

}
