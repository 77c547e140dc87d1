/**
 * Verify, VerifyDetached and getTimestamp (verify.go, timestamp.go:80-129) as functions that
 * thread the shared pool of intermediate certificates. They call each other on ever smaller
 * timestamp tokens, so they end on every message.
 */
module Verification {
  import opened Bytes
  import opened Errors
  import opened Asn1
  import opened Attributes
  import opened Cms
  import opened Environment
  import opened Timestamp
  import opened Signing
  import opened Nesting
  import Ber

  /** The program's surroundings: cryptography, certificates and the TSTInfo reader. */
  datatype World = World(crypto: Crypto, parseInfo: bytes -> Option<Info>)

  // ---------------------------------------------------------------- finding the certificate

  function ParseAll(env: Crypto, raws: seq<RawValue>): (r: CmsOutcome<seq<Certificate>>)
    ensures r.Ok? ==> |r.value| == |raws|
    ensures r.Ok? ==> forall i :: 0 <= i < |raws| ==> env.parseCertificate(raws[i].full) == Some(r.value[i])
  {
    if raws == [] then Ok([])
    else if raws[0].id != SEQUENCE && raws[0].id != [0x10] then Err(Unsupported)
    else
      match env.parseCertificate(raws[0].full)
      case None => Err(BadAsn1)
      case Some(cert) =>
        var rest :- ParseAll(env, raws[1..]);
        Ok([cert] + rest)
  }

  /** X509Certificates. */
  function X509Certificates(env: Crypto, sd: SignedData): CmsOutcome<seq<Certificate>> {
    ParseAll(env, CertList(sd))
  }

  /** issuerAndSerialNumberSID: the issuer's octets and the serial number's. */
  function IssuerAndSerial(sid: RawValue): CmsOutcome<(bytes, bytes)> {
    if sid.id != SEQUENCE && sid.id != [0x10] then Err(WrongType)
    else
      var p :- Unmarshal(sid.full);
      var vs :- DecodeStruct(p.value, ISSUER_SERIAL_SCHEMA);
      if vs[0].None? || vs[1].None? || !ValidInteger(vs[1].value.content) then Err(BadAsn1)
      else if p.rest != [] then Err(TrailingData)
      else Ok((vs[0].value.full, vs[1].value.content))
  }

  function FirstByIssuer(certs: seq<Certificate>, issuer: bytes, serial: bytes): CmsOutcome<Certificate> {
    if certs == [] then Err(NoCertificate)
    else if certs[0].rawIssuer == issuer && certs[0].serial == serial then Ok(certs[0])
    else FirstByIssuer(certs[1..], issuer, serial)
  }

  function FirstByKeyId(certs: seq<Certificate>, ski: bytes): CmsOutcome<Certificate> {
    if certs == [] then Err(NoCertificate)
    else if ski in certs[0].subjectKeyIds then Ok(certs[0])
    else FirstByKeyId(certs[1..], ski)
  }

  /** FindCertificate. */
  function FindCertificate(si: SignerInfo, certs: seq<Certificate>): CmsOutcome<Certificate> {
    if si.version == VERSION_1 then
      var isn :- IssuerAndSerial(si.sid);
      FirstByIssuer(certs, isn.0, isn.1)
    else if si.version == VERSION_3 then
      if si.sid.id != CONTEXT_0 && si.sid.id != CONTEXT_0_PRIMITIVE then Err(WrongType)
      else FirstByKeyId(certs, si.sid.content)
    else Err(Unsupported)
  }

  // ---------------------------------------------------------------- one signature

  /** GetContentTypeAttribute. */
  function ContentTypeAttribute(si: SignerInfo): CmsOutcome<bytes> {
    var rv :- GetOnly(si.signedAttrs, CONTENT_TYPE);
    var p :- Unmarshal(rv.full);
    if p.value.id != OID || !ValidOid(p.value.content) then Err(BadAsn1)
    else if p.rest != [] then Err(TrailingData)
    else Ok(p.value.content)
  }

  /** GetMessageDigestAttribute. */
  function MessageDigestAttribute(si: SignerInfo): CmsOutcome<bytes> {
    var rv :- GetOnly(si.signedAttrs, MESSAGE_DIGEST);
    if rv.id != OCTET_STRING && rv.id != OCTET_STRING_COMPOUND then Err(BadClassOrTag) else Ok(rv.content)
  }

  /** The octets under the signature, once the mandatory attributes were checked (verify.go:72-121). */
  function SignedMessage(env: Crypto, si: SignerInfo, typ: bytes, econtent: bytes): CmsOutcome<bytes> {
    if si.signedAttrs.None? then
      if typ != DATA then Err(MissingSignedAttrs) else Ok(econtent)
    else
      var ct :- ContentTypeAttribute(si);
      if ct != typ then Err(ContentTypeMismatch)
      else
        var h :- SignerHash(env, si);
        var md :- MessageDigestAttribute(si);
        if md != env.hash(h, econtent) then Err(DigestMismatch)
        else MarshaledForVerification(si.signedAttrs.value)
  }

  /** Certificate and signature of one SignerInfo (verify.go:72-135). */
  function CheckSigner(env: Crypto, si: SignerInfo, certs: seq<Certificate>, typ: bytes,
      econtent: bytes): CmsOutcome<Certificate>
  {
    var message :- SignedMessage(env, si, typ, econtent);
    var cert :- FindCertificate(si, certs);
    match X509Signature(si.sigAlg.oid, si.digestAlg.oid)
    case None => Err(Unsupported)
    case Some(algo) => if env.checkSignature(cert, algo, message, si.signature) then Ok(cert) else Err(BadSignature)
  }

  /** hasTimestamp. */
  function HasTimestamp(si: SignerInfo): CmsOutcome<bool> {
    var vals :- GetValues(si.unsignedAttrs, TIME_STAMP_TOKEN);
    Ok(|vals| > 0)
  }

  /** The options for the chain: the stated time stands in when the caller gave none. */
  function WithTime(opts: VerifyOptions, info: Option<Info>): VerifyOptions {
    if info.Some? && opts.currentTime.None? then opts.(currentTime := Some(info.value.genTime)) else opts
  }

  /** The window check and the chain (verify.go:153-169). */
  function CheckChain(env: Crypto, cert: Certificate, info: Option<Info>, opts: VerifyOptions,
      pool: set<Certificate>): CmsOutcome<Chains>
  {
    if info.Some? && !Accepts(info.value, cert.notBefore, cert.notAfter) then Err(CertificateExpired)
    else
      match env.verifyChain(cert, WithTime(opts, info), pool)
      case None => Err(ChainRejected)
      case Some(chains) => Ok(chains)
  }

  // ---------------------------------------------------------------- the recursion

  datatype Verified<+T> = Verified(result: CmsOutcome<T>, pool: set<Certificate>)

  function Token(si: SignerInfo): CmsOutcome<RawValue> {
    GetOnly(si.unsignedAttrs, TIME_STAMP_TOKEN)
  }

  /** The size of the token a signer carries. */
  function SignerSize(si: SignerInfo): Size {
    if Token(si).Ok? then TokenSize(Token(si).value.full) else Size(0, 0)
  }

  function LargestSize(sis: seq<SignerInfo>): (m: Size)
    ensures forall i :: 0 <= i < |sis| ==> AtMost(SignerSize(sis[i]), m)
    ensures m == Size(0, 0) || exists i :: 0 <= i < |sis| && SignerSize(sis[i]) == m
  {
    if sis == [] then Size(0, 0)
    else
      var rest := LargestSize(sis[1..]);
      if Smaller(rest, SignerSize(sis[0])) then SignerSize(sis[0]) else rest
  }

  /** The signers inside a token are all below the token itself. */
  lemma InnerSmaller(token: bytes)
    requires ParseSignedData(token).Ok?
    ensures Smaller(LargestSize(ParseSignedData(token).value.signerInfos), TokenSize(token))
  {
    hide ParseSignedData, TokenSize, GetOnly;
    var sis := ParseSignedData(token).value.signerInfos;
    var m := LargestSize(sis);
    if m == Size(0, 0) {
      TokenNotEmpty(token);
    } else {
      var i :| 0 <= i < |sis| && SignerSize(sis[i]) == m;
      NestedTokenSmaller(token, sis[i], TIME_STAMP_TOKEN);
    }
  }

  lemma TokenNotEmpty(token: bytes)
    requires ParseSignedData(token).Ok?
    ensures TokenSize(token).n >= 1
  {
    hide Ber.Parse, Ber.Der, UnmarshalWhole, SignedDataContent, MaxPrimitive, Nodes;
  }

  /** What verification of a token does before the nested signatures are looked at. */
  function OpenToken(w: World, token: bytes): CmsOutcome<(SignedData, Info)> {
    var tst :- ParseSignedData(token);
    var info :- ParseInfo(w.parseInfo, tst.eci);
    if info.version != 1 then Err(Unsupported) else Ok((tst, info))
  }

  lemma OpenedSmaller(w: World, token: bytes)
    requires OpenToken(w, token).Ok?
    ensures Smaller(LargestSize(OpenToken(w, token).value.0.signerInfos), TokenSize(token))
  {
    hide ParseSignedData, TokenSize, LargestSize, ParseInfo;
    InnerSmaller(token);
  }

  /** The token's imprint against the signature it is attached to (timestamp.go:105-116). */
  function CheckImprint(env: Crypto, info: Info, signature: bytes): CmsOutcome<Info> {
    var h :- AvailableHash(env, info.imprint.alg.oid);
    var mi :- NewMessageImprint(env, h, signature);
    if Equal(mi, info.imprint) then Ok(info) else Err(ImprintMismatch)
  }

  /** getTimestamp. */
  function GetTimestamp(w: World, si: SignerInfo, opts: VerifyOptions, pool: set<Certificate>): Verified<Info>
    decreases SignerSize(si).p, SignerSize(si).n, 0, 0
  {
    match Token(si)
    case Err(e) => Verified(Err(e), pool)
    case Ok(rv) =>
      match OpenToken(w, rv.full)
      case Err(e) => Verified(Err(e), pool)
      case Ok(tst) =>
        OpenedSmaller(w, rv.full);
        var inner := Verify(w, tst.0, opts, pool);
        match inner.result
        case Err(e) => Verified(Err(e), inner.pool)
        case Ok(_) => Verified(CheckImprint(w.crypto, tst.1, si.signature), inner.pool)
  }

  /** The timestamp of a signer, when it has one. */
  function OptionalTimestamp(w: World, si: SignerInfo, opts: VerifyOptions,
      pool: set<Certificate>): Verified<Option<Info>>
    decreases SignerSize(si).p, SignerSize(si).n, 0, 1
  {
    match HasTimestamp(si)
    case Err(e) => Verified(Err(e), pool)
    case Ok(false) => Verified(Ok(None), pool)
    case Ok(true) =>
      var ts := GetTimestamp(w, si, opts.(timestamping := true), pool);
      match ts.result
      case Err(e) => Verified(Err(e), ts.pool)
      case Ok(info) => Verified(Ok(Some(info)), ts.pool)
  }

  /** One round of the loop over SignerInfos. */
  function VerifySigner(w: World, si: SignerInfo, certs: seq<Certificate>, typ: bytes, econtent: bytes,
      opts: VerifyOptions, pool: set<Certificate>): Verified<Chains>
    decreases SignerSize(si).p, SignerSize(si).n, 0, 2
  {
    match CheckSigner(w.crypto, si, certs, typ, econtent)
    case Err(e) => Verified(Err(e), pool)
    case Ok(cert) =>
      var ts := OptionalTimestamp(w, si, opts, pool);
      match ts.result
      case Err(e) => Verified(Err(e), ts.pool)
      case Ok(info) => Verified(CheckChain(w.crypto, cert, info, opts, ts.pool), ts.pool)
  }

  function VerifySigners(w: World, sis: seq<SignerInfo>, certs: seq<Certificate>, typ: bytes, econtent: bytes,
      opts: VerifyOptions, pool: set<Certificate>): Verified<seq<Chains>>
    decreases LargestSize(sis).p, LargestSize(sis).n, |sis|, 3
  {
    if sis == [] then Verified(Ok([]), pool)
    else
      var first := VerifySigner(w, sis[0], certs, typ, econtent, opts, pool);
      match first.result
      case Err(e) => Verified(Err(e), first.pool)
      case Ok(chains) =>
        var rest := VerifySigners(w, sis[1..], certs, typ, econtent, opts, first.pool);
        match rest.result
        case Err(e) => Verified(Err(e), rest.pool)
        case Ok(more) => Verified(Ok([chains] + more), rest.pool)
  }

  /** verify. */
  function VerifyContent(w: World, sd: SignedData, econtent: bytes, opts: VerifyOptions,
      pool: set<Certificate>): Verified<seq<Chains>>
    decreases LargestSize(sd.signerInfos).p, LargestSize(sd.signerInfos).n, |sd.signerInfos|, 4
  {
    if sd.signerInfos == [] then Verified(Err(NoSignatures), pool)
    else
      match X509Certificates(w.crypto, sd)
      case Err(e) => Verified(Err(e), pool)
      case Ok(certs) =>
        VerifySigners(w, sd.signerInfos, certs, sd.eci.typ, econtent, opts, pool + AsSet(certs))
  }

  function AsSet<T(==)>(xs: seq<T>): set<T> {
    set x | x in xs
  }

  /** Verify. */
  function Verify(w: World, sd: SignedData, opts: VerifyOptions, pool: set<Certificate>): Verified<seq<Chains>>
    decreases LargestSize(sd.signerInfos).p, LargestSize(sd.signerInfos).n, |sd.signerInfos|, 5
  {
    match EContentValue(sd.eci)
    case Err(e) => Verified(Err(e), pool)
    case Ok(None) => Verified(Err(DetachedSignature), pool)
    case Ok(Some(econtent)) => VerifyContent(w, sd, econtent, opts, pool)
  }

  /** VerifyDetached. */
  function VerifyDetached(w: World, sd: SignedData, message: bytes, opts: VerifyOptions,
      pool: set<Certificate>): Verified<seq<Chains>>
  {
    if sd.eci.content.Some? then Verified(Err(NotDetached), pool)
    else VerifyContent(w, sd, message, opts, pool)
  }
}
