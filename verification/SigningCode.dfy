/**
 * SignedData as the object it is in protocol.go and signed_data.go: methods that update its
 * fields, each computing the state change of module Signing.
 */
module SigningCode {
  import opened Bytes
  import opened Errors
  import opened Asn1
  import opened Attributes
  import opened Cms
  import opened Environment
  import opened Timestamp
  import opened Signing
  import opened Order
  import opened NormalForm

  /** Updating element `i` moves the border between the signers with a token and those without. */
  lemma AttachOne(sis: seq<SignerInfo>, attrs: seq<Attribute>, i: nat, now: seq<SignerInfo>)
    requires |sis| == |attrs| && i < |sis| && now == AttachAll(sis, attrs)[..i] + sis[i..]
    ensures now[i] == sis[i]
    ensures now[i := AddUnsigned(sis[i], attrs[i])] == AttachAll(sis, attrs)[..i + 1] + sis[i + 1..]
  {
    hide AddUnsigned;
  }

  class SignedDataObject {
    var version: bytes
    var digestAlgorithms: seq<AlgorithmIdentifier>
    var encapContentInfo: EncapContent
    var certificates: Option<seq<RawValue>>
    var crls: Option<seq<RawValue>>
    var signerInfos: seq<SignerInfo>

    function Value(): SignedData
      reads this
    {
      SignedData(version, digestAlgorithms, encapContentInfo, certificates, crls, signerInfos)
    }

    /** NewSignedData (protocol.go:611-625). */
    constructor (eci: EncapContent)
      ensures Value() == NewSigned(eci)
    {
      version := if eci.typ == DATA then VERSION_1 else VERSION_3;
      digestAlgorithms := [];
      encapContentInfo := eci;
      certificates := None;
      crls := None;
      signerInfos := [];
    }

    /** AddCertificate (protocol.go:774-789). */
    method AddCert(cert: Certificate) returns (err: Option<CmsError>)
      modifies this
      ensures Step(Value(), err) == AddCertificate(old(Value()), cert)
    {
      hide Unmarshal;
      var existing := if certificates.Some? then certificates.value else [];
      var i := 0;
      while i < |existing|
        invariant 0 <= i <= |existing|
        invariant forall j :: 0 <= j < i ==> existing[j].content != cert.raw
      {
        if existing[i].content == cert.raw {
          assert CertList(Value())[i].content == cert.raw;
          return Some(CertificateAlreadyAdded);
        }
        i := i + 1;
      }
      match Unmarshal(cert.raw) {
        case Err(e) => return Some(e);
        case Ok(p) =>
          certificates := Some(existing + [p.value]);
          return None;
      }
    }

    /** SetCertificates (signed_data.go:59-67). */
    method SetCertificates(certs: seq<Certificate>) returns (err: Option<CmsError>)
      modifies this
      ensures Step(Value(), err) == ReplaceCertificates(old(Value()), certs)
    {
      hide AddCertificate;
      certificates := Some([]);
      ghost var start := Value();
      var i := 0;
      assert certs[0..] == certs;
      while i < |certs|
        invariant 0 <= i <= |certs|
        invariant AddCertificates(start, certs) == AddCertificates(Value(), certs[i..])
      {
        assert certs[i..][1..] == certs[i + 1..];
        var e := AddCert(certs[i]);
        if e.Some? {
          return e;
        }
        i := i + 1;
      }
      return None;
    }

    /** Detached (signed_data.go:71-73). */
    method Detached()
      modifies this
      ensures Value() == Detach(old(Value()))
    {
      encapContentInfo := encapContentInfo.(content := None);
    }

    /** addDigestAlgorithm (protocol.go:792-800). */
    method AddDigestAlgorithm(algo: AlgorithmIdentifier)
      modifies this`digestAlgorithms
      ensures digestAlgorithms == AddDigest(old(digestAlgorithms), algo)
    {
      var i := 0;
      while i < |digestAlgorithms|
        invariant 0 <= i <= |digestAlgorithms|
        invariant digestAlgorithms == old(digestAlgorithms)
        invariant forall j :: 0 <= j < i ==> digestAlgorithms[j].oid != algo.oid
      {
        if digestAlgorithms[i].oid == algo.oid {
          return;
        }
        i := i + 1;
      }
      digestAlgorithms := digestAlgorithms + [algo];
    }

    /** The loop over the chain (protocol.go:640-652). */
    method AddCertChain(chain: seq<Certificate>, pub: bytes) returns (leaf: CmsOutcome<Option<Certificate>>)
      modifies this
      ensures ChainStep(Value(), leaf) == AddChain(old(Value()), chain, pub, None)
    {
      hide AddCertificate;
      var cert: Option<Certificate> := None;
      var i := 0;
      assert chain[0..] == chain;
      while i < |chain|
        invariant 0 <= i <= |chain|
        invariant AddChain(old(Value()), chain, pub, None) == AddChain(Value(), chain[i..], pub, cert)
      {
        assert chain[i..][1..] == chain[i + 1..];
        var e := AddCert(chain[i]);
        if e.Some? {
          return Err(e.value);
        }
        if chain[i].pub.None? {
          return Err(KeyFailure);
        }
        if chain[i].pub.value == pub {
          cert := Some(chain[i]);
        }
        i := i + 1;
      }
      return Ok(cert);
    }

    /** AddSignerInfo (protocol.go:628-738). */
    method AddSigner(env: Crypto, chain: seq<Certificate>, signer: Signer, now: Clock) returns (err: Option<CmsError>)
      modifies this
      ensures Step(Value(), err) == AddSignerInfo(env, old(Value()), chain, signer, now)
    {
      hide AddChain, MakeSigner, AddDigest;
      if signer.pub.None? {
        return Some(KeyFailure);
      }
      var leaf := AddCertChain(chain, signer.pub.value);
      if leaf.Err? {
        return Some(leaf.error);
      }
      if leaf.value.None? {
        return Some(NoCertificate);
      }
      var made := BuildSigner(env, encapContentInfo, leaf.value.value, signer, now);
      if made.Err? {
        return Some(made.error);
      }
      AddDigestAlgorithm(made.value.digestAlg);
      signerInfos := signerInfos + [made.value];
      return None;
    }

    /** AddTimestamps (timestamp.go:17-36): two loops, so that a failure adds nothing. */
    method Timestamp(env: Crypto, parse: bytes -> Option<Info>, xs: seq<Exchange>) returns (err: Option<CmsError>)
      modifies this
      ensures Step(Value(), err) == AddTimestamps(env, parse, old(Value()), xs)
    {
      hide FetchAll;
      var attrs := FetchTokens(env, parse, signerInfos, xs);
      if attrs.Err? {
        return Some(attrs.error);
      }
      AppendTokens(attrs.value);
      return None;
    }

    /** The second loop: one token appended to each SignerInfo in place. */
    method AppendTokens(attrs: seq<Attribute>)
      requires |attrs| == |signerInfos|
      modifies this`signerInfos
      ensures signerInfos == AttachAll(old(signerInfos), attrs)
    {
      hide AddUnsigned, AttachAll;
      ghost var was := signerInfos;
      ghost var goal := AttachAll(was, attrs);
      var i := 0;
      assert was[0..] == was;
      while i < |attrs|
        invariant 0 <= i <= |attrs| && |signerInfos| == |attrs|
        invariant signerInfos == goal[..i] + was[i..]
      {
        AttachOne(was, attrs, i, signerInfos);
        signerInfos := signerInfos[i := AddUnsigned(signerInfos[i], attrs[i])];
        i := i + 1;
      }
      assert goal[..i] == goal;
    }
  }

  /** Puts the tokens already fetched in front. */
  function WithTokens(attrs: seq<Attribute>, r: CmsOutcome<seq<Attribute>>): CmsOutcome<seq<Attribute>> {
    match r
    case Ok(more) => Ok(attrs + more)
    case Err(e) => Err(e)
  }

  lemma NoTokensYet(r: CmsOutcome<seq<Attribute>>)
    ensures WithTokens([], r) == r
  {
    if r.Ok? {
      assert [] + r.value == r.value;
    }
  }

  /** One unfolding of the fetching, behind the tokens already there. */
  lemma FetchStep(env: Crypto, parse: bytes -> Option<Info>, sis: seq<SignerInfo>, xs: seq<Exchange>,
      attrs: seq<Attribute>)
    requires sis != []
    ensures xs == [] ==> FetchAll(env, parse, sis, xs) == Err(ResponseFailure)
    ensures xs != [] && FetchTs(env, parse, sis[0], xs[0]).Err? ==>
              FetchAll(env, parse, sis, xs) == Err(FetchTs(env, parse, sis[0], xs[0]).error)
    ensures xs != [] && FetchTs(env, parse, sis[0], xs[0]).Ok? ==>
              var a := FetchTs(env, parse, sis[0], xs[0]).value;
              WithTokens(attrs, FetchAll(env, parse, sis, xs))
              == WithTokens(attrs + [a], FetchAll(env, parse, sis[1..], xs[1..]))
  {
    hide FetchTs;
    if xs != [] && FetchTs(env, parse, sis[0], xs[0]).Ok? && FetchAll(env, parse, sis[1..], xs[1..]).Ok? {
      var a := FetchTs(env, parse, sis[0], xs[0]).value;
      var more := FetchAll(env, parse, sis[1..], xs[1..]).value;
      assert attrs + ([a] + more) == (attrs + [a]) + more;
    }
  }

  lemma FetchDone(env: Crypto, parse: bytes -> Option<Info>, xs: seq<Exchange>, attrs: seq<Attribute>)
    ensures WithTokens(attrs, FetchAll(env, parse, [], xs)) == Ok(attrs)
  {
    hide FetchTs;
    assert attrs + [] == attrs;
  }

  /** The first loop of AddTimestamps: every token is fetched before any is attached. */
  method FetchTokens(env: Crypto, parse: bytes -> Option<Info>, sis: seq<SignerInfo>, xs: seq<Exchange>)
    returns (r: CmsOutcome<seq<Attribute>>)
    ensures r == FetchAll(env, parse, sis, xs)
  {
    hide FetchTs, FetchAll;
    var attrs: seq<Attribute> := [];
    var i := 0;
    ghost var all := FetchAll(env, parse, sis, xs);
    assert sis[0..] == sis && xs[0..] == xs;
    NoTokensYet(all);
    while i < |sis|
      invariant 0 <= i <= |sis| && i <= |xs|
      invariant all == WithTokens(attrs, FetchAll(env, parse, sis[i..], xs[i..]))
    {
      FetchStep(env, parse, sis[i..], xs[i..], attrs);
      if i == |xs| {
        return Err(ResponseFailure);
      }
      assert sis[i..][1..] == sis[i + 1..] && xs[i..][1..] == xs[i + 1..];
      var a := FetchTs(env, parse, sis[i], xs[i]);
      if a.Err? {
        return Err(a.error);
      }
      attrs := attrs + [a.value];
      i := i + 1;
    }
    assert sis[i..] == [];
    FetchDone(env, parse, xs[i..], attrs);
    return Ok(attrs);
  }

  /** The SignerInfo of AddSignerInfo (protocol.go:657-731), its attributes sorted in place. */
  method BuildSigner(env: Crypto, eci: EncapContent, cert: Certificate, signer: Signer, now: Clock)
    returns (r: CmsOutcome<SignerInfo>)
    ensures r == MakeSigner(env, eci, cert, signer, now)
  {
    hide NewSid, EContentValue, MarshaledForSigning, NewAttribute, SortAttributes, SignatureOid, AvailableHash,
      ClockValue;
    var sid := NewSid(cert);
    if sid.Err? {
      return Err(sid.error);
    }
    var sigOid := SignatureOid(cert.keyAlg, DIGEST_ALGORITHM.oid);
    if sigOid.None? {
      return Err(Unsupported);
    }
    var content := GetEContentValue(eci);
    if content.Err? {
      return Err(content.error);
    }
    if content.value.None? {
      return Err(AlreadyDetached);
    }
    var h := AvailableHash(env, DIGEST_ALGORITHM.oid);
    if h.Err? {
      return Err(h.error);
    }
    var attrs := SignedAttributes(now, env.hash(h.value, content.value.value), eci.typ);
    if attrs.Err? {
      return Err(attrs.error);
    }
    var message := MarshaledForSigning(attrs.value);
    if message.Err? {
      return Err(message.error);
    }
    var signature := signer.sign(env.hash(h.value, message.value), h.value);
    if signature.None? {
      return Err(KeyFailure);
    }
    return Ok(SignerInfo(VERSION_1, sid.value, DIGEST_ALGORITHM, Some(attrs.value),
                         AlgorithmIdentifier(sigOid.value, None), signature.value, None));
  }

  method SignedAttributes(now: Clock, digest: bytes, typ: bytes) returns (r: CmsOutcome<seq<Attribute>>)
    ensures r == BuildAttributes(now, digest, typ)
  {
    hide NewAttribute, SortBy, ClockValue, Tlv;
    var time := ClockValue(now);
    if time.Err? {
      return Err(time.error);
    }
    var st := NewAttribute(SIGNING_TIME, time.value.full);
    if st.Err? {
      return Err(st.error);
    }
    var md := NewAttribute(MESSAGE_DIGEST, Tlv(OCTET_STRING, digest));
    if md.Err? {
      return Err(md.error);
    }
    var ct := NewAttribute(CONTENT_TYPE, Tlv(OID, typ));
    if ct.Err? {
      return Err(ct.error);
    }
    var attrs := new Attribute[] [st.value, md.value, ct.value];
    assert attrs[..] == [st.value, md.value, ct.value];
    SortInPlace(attrs);
    return Ok(attrs[..]);
  }
}
