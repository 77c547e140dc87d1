/** What holds of a SignedData after any sequence of calls that build it. */
module Runs {
  import opened Bytes
  import opened Lengths
  import opened NormalForm
  import opened Asn1
  import opened Attributes
  import opened Cms
  import opened WireProofs
  import opened Environment
  import opened Timestamp
  import opened Signing
  import opened SigningProofs
  import opened Verification
  import opened VerifySoundness
  import opened SignVerify
  import opened EndToEnd
  import opened Tokens

  /** A call on the object; Reload writes it with ToDER and goes on with what ParseSignedData makes of that. */
  datatype Op =
    | AddSigner(call: SignCall)
    | SetCertificates(certs: seq<Certificate>)
    | RemoveContent
    | Stamp(exchanges: seq<Exchange>)
    | Reload

  function Apply(w: World, sd: SignedData, op: Op): Step {
    match op
    case AddSigner(call) => AddSignerInfo(w.crypto, sd, call.chain, call.signer, call.now)
    case SetCertificates(certs) => ReplaceCertificates(sd, certs)
    case RemoveContent => Step(Detach(sd), None)
    case Stamp(xs) => AddTimestamps(w.crypto, w.parseInfo, sd, xs)
    case Reload => Reloaded(sd)
  }

  function Reloaded(sd: SignedData): Step {
    match ParseSignedData(ToDer(sd))
    case Ok(parsed) => Step(parsed, None)
    case Err(e) => Step(sd, Some(e))
  }

  function Run(w: World, sd: SignedData, ops: seq<Op>): SignedData
    decreases |ops|
  {
    if ops == [] then sd else Run(w, Apply(w, sd, ops[0]).sd, ops[1..])
  }

  /** Every message that the run writes and reads again is below 2^31 octets; BER2DER reads no longer ones. */
  predicate Readable(w: World, sd: SignedData, ops: seq<Op>)
    decreases |ops|
  {
    ops == []
    || ((ops[0].Reload? ==> |ToDer(sd)| < MAX_READABLE) && Readable(w, Apply(w, sd, ops[0]).sd, ops[1..]))
  }

  /** Without a Reload there is no such message. */
  lemma {:induction false} CallsReadable(w: World, sd: SignedData, ops: seq<Op>)
    requires forall op :: op in ops ==> !op.Reload?
    ensures Readable(w, sd, ops)
    decreases |ops|
  {
    hide Apply;
    if ops == [] {
    } else {
      CallsReadable(w, Apply(w, sd, ops[0]).sd, ops[1..]);
    }
  }

  // ---------------------------------------------------------------- failures

  lemma CertificateOnly(sd: SignedData, cert: Certificate)
    ensures SameButCerts(AddCertificate(sd, cert).sd, sd)
  {
    hide Unmarshal;
  }

  lemma {:induction false} CertificatesOnly(sd: SignedData, certs: seq<Certificate>)
    ensures SameButCerts(AddCertificates(sd, certs).sd, sd)
    decreases |certs|
  {
    hide AddCertificate;
    if certs == [] {
    } else {
      CertificateOnly(sd, certs[0]);
      CertificatesOnly(AddCertificate(sd, certs[0]).sd, certs[1..]);
    }
  }

  lemma {:induction false} ChainOnly(sd: SignedData, chain: seq<Certificate>, pub: bytes, leaf: Option<Certificate>)
    ensures SameButCerts(AddChain(sd, chain, pub, leaf).sd, sd)
    ensures AddChain(sd, chain, pub, leaf).leaf.Ok? ==>
              |CertList(AddChain(sd, chain, pub, leaf).sd)| == |CertList(sd)| + |chain|
    decreases |chain|
  {
    hide Unmarshal;
    if chain == [] {
    } else {
      CertificateOnly(sd, chain[0]);
      var added := AddCertificate(sd, chain[0]);
      if added.error.None? && chain[0].pub.Some? {
        ChainOnly(added.sd, chain[1..], pub, if chain[0].pub.value == pub then Some(chain[0]) else leaf);
      }
    }
  }

  /** A failed AddSignerInfo leaves nothing behind but certificates of its chain. */
  lemma FailureKeepsState(env: Crypto, sd: SignedData, call: SignCall)
    ensures var step := AddSignerInfo(env, sd, call.chain, call.signer, call.now);
            step.error.Some? ==> SameButCerts(step.sd, sd)
  {
    hide AddChain, MakeSigner;
    if call.signer.pub.Some? {
      ChainOnly(sd, call.chain, call.signer.pub.value, None);
    }
  }

  /** After Detached no call can add a signer. */
  lemma DetachedRefuses(env: Crypto, sd: SignedData, call: SignCall)
    requires sd.eci.content.None?
    ensures AddSignerInfo(env, sd, call.chain, call.signer, call.now).error.Some?
  {
    hide AddChain, NewSid, Unmarshal, BuildAttributes, MarshaledForSigning, AvailableHash;
    if call.signer.pub.Some? {
      ChainOnly(sd, call.chain, call.signer.pub.value, None);
    }
  }

  // ---------------------------------------------------------------- the invariant

  /** A signer of this message: SHA-256, and the digest and type attributes of the original content. */
  predicate OurSigner(env: Crypto, si: SignerInfo, typ: bytes, data: bytes) {
    && si.digestAlg == DIGEST_ALGORITHM
    && GetOnly(si.signedAttrs, MESSAGE_DIGEST) == Ok(Raw(OCTET_STRING, env.hash(SHA256, data)))
    && GetOnly(si.signedAttrs, CONTENT_TYPE) == Ok(Raw(OID, typ))
    && forall i :: 0 <= i < |UnsignedList(si)| ==> UnsignedList(si)[i].typ == TIME_STAMP_TOKEN
  }

  /** The content as NewSignedData makes it, or as it is read back. */
  predicate SameContent(e: EncapContent, typ: bytes, data: bytes) {
    e == NewEncapContent(typ, data) || e == CanonEncap(NewEncapContent(typ, data))
  }

  /**
   * DigestAlgorithms holds each algorithm used by a SignerInfo once and no other; every signer
   * carries the digest of the original content; the content is the original one or gone.
   */
  predicate Consistent(env: Crypto, sd: SignedData, typ: bytes, data: bytes) {
    && sd.eci.typ == typ
    && (sd.eci.content.Some? ==> SameContent(sd.eci, typ, data))
    && sd.version == (if typ == DATA then VERSION_1 else VERSION_3)
    && sd.crls.None?
    && sd.digestAlgs == (if sd.signerInfos == [] then [] else [DIGEST_ALGORITHM])
    && forall i :: 0 <= i < |sd.signerInfos| ==> OurSigner(env, sd.signerInfos[i], typ, data)
  }

  lemma MadeIsOurs(env: Crypto, cert: Certificate, signer: Signer, now: Clock, typ: bytes, data: bytes)
    requires Sha256Length(env) && |data| < GO_INT_LIMIT && |typ| < MAX_READABLE
    requires MakeSigner(env, NewEncapContent(typ, data), cert, signer, now).Ok?
    ensures OurSigner(env, MakeSigner(env, NewEncapContent(typ, data), cert, signer, now).value, typ, data)
  {
    hide NewSid, EContentValue, NewEncapContent, BuildAttributes, MarshaledForSigning, GeneratedAttributes,
      SortAttributes, IsTime, SignatureOid, DigestToHash, GetOnly, IsParsed;
    EncapType(typ, data);
    NewContent(typ, data);
    DigestMapsInverse(OID_SHA256, SHA256);
    var digest := env.hash(SHA256, data);
    assert |digest| == 32;
    ClockUsed(now, digest, typ);
    BuiltAttributes(now, digest, typ);
    TimeShape(ClockValue(now).value);
    GeneratedFound(ClockValue(now).value, digest, typ);
  }

  lemma SameValue(e: EncapContent, typ: bytes, data: bytes)
    requires SameContent(e, typ, data)
    ensures e.typ == typ && EContentValue(e) == EContentValue(NewEncapContent(typ, data))
  {
    hide EContentValue, NewEncapContent, CanonEncap;
    EncapType(typ, data);
    CanonType(NewEncapContent(typ, data));
    CanonContent(NewEncapContent(typ, data));
  }

  /** Reading back once more changes nothing. */
  lemma CanonSameContent(e: EncapContent, typ: bytes, data: bytes)
    requires SameContent(e, typ, data)
    ensures SameContent(CanonEncap(e), typ, data)
  {
    hide Tlv;
    TlvSize(CONTEXT_0, Tlv(OCTET_STRING, data));
  }

  /** Signing looks at the type and the value of the content, which are the same in both forms. */
  lemma SameMade(env: Crypto, eci: EncapContent, cert: Certificate, signer: Signer, now: Clock, typ: bytes,
      data: bytes)
    requires SameContent(eci, typ, data)
    ensures MakeSigner(env, eci, cert, signer, now)
            == MakeSigner(env, NewEncapContent(typ, data), cert, signer, now)
  {
    hide NewSid, EContentValue, NewEncapContent, BuildAttributes, MarshaledForSigning, SignatureOid, SameContent,
      AvailableHash;
    SameValue(eci, typ, data);
    EncapType(typ, data);
  }

  lemma HasContent(env: Crypto, eci: EncapContent, cert: Certificate, signer: Signer, now: Clock)
    requires MakeSigner(env, eci, cert, signer, now).Ok?
    ensures eci.content.Some? && MakeSigner(env, eci, cert, signer, now).value.unsignedAttrs.None?
  {
    hide NewSid, SignatureOid, AvailableHash, BuildAttributes, MarshaledForSigning, Unmarshal;
  }

  lemma SignerKeepsConsistent(env: Crypto, sd: SignedData, call: SignCall, typ: bytes, data: bytes)
    requires Sha256Length(env) && |data| < GO_INT_LIMIT && |typ| < MAX_READABLE && Consistent(env, sd, typ, data)
    ensures Consistent(env, AddSignerInfo(env, sd, call.chain, call.signer, call.now).sd, typ, data)
  {
    hide AddChain, MakeSigner, OurSigner, NewEncapContent, SameContent;
    if call.signer.pub.Some? {
      ChainOnly(sd, call.chain, call.signer.pub.value, None);
      var added := AddChain(sd, call.chain, call.signer.pub.value, None);
      if added.leaf.Ok? && added.leaf.value.Some? {
        var cert := added.leaf.value.value;
        var made := MakeSigner(env, added.sd.eci, cert, call.signer, call.now);
        if made.Ok? {
          HasContent(env, added.sd.eci, cert, call.signer, call.now);
          SameMade(env, added.sd.eci, cert, call.signer, call.now, typ, data);
          MadeIsOurs(env, cert, call.signer, call.now, typ, data);
          MadeDigest(env, added.sd.eci, cert, call.signer, call.now);
          DigestOnce(sd.digestAlgs, sd.signerInfos);
        }
      }
    }
  }

  lemma DigestOnce(algs: seq<AlgorithmIdentifier>, sis: seq<SignerInfo>)
    requires algs == (if sis == [] then [] else [DIGEST_ALGORITHM])
    ensures AddDigest(algs, DIGEST_ALGORITHM) == [DIGEST_ALGORITHM]
  {
    if sis != [] {
      assert algs[0].oid == DIGEST_ALGORITHM.oid;
    }
  }

  lemma StampKeepsConsistent(w: World, sd: SignedData, xs: seq<Exchange>, typ: bytes, data: bytes)
    requires Consistent(w.crypto, sd, typ, data)
    ensures Consistent(w.crypto, AddTimestamps(w.crypto, w.parseInfo, sd, xs).sd, typ, data)
  {
    hide AddTimestamps, GetOnly, SameContent, OurSigner;
    AllOrNothing(w, sd, xs);
    var step := AddTimestamps(w.crypto, w.parseInfo, sd, xs);
    if step.error.None? {
      forall i | 0 <= i < |sd.signerInfos|
        ensures OurSigner(w.crypto, step.sd.signerInfos[i], typ, data)
      {
        assert OneMoreToken(sd.signerInfos[i], step.sd.signerInfos[i]);
        TokenKeepsOurs(w.crypto, sd.signerInfos[i], step.sd.signerInfos[i], typ, data);
      }
    }
  }

  lemma TokenKeepsOurs(env: Crypto, before: SignerInfo, after: SignerInfo, typ: bytes, data: bytes)
    requires OurSigner(env, before, typ, data) && OneMoreToken(before, after)
    ensures OurSigner(env, after, typ, data)
  {
    hide GetOnly;
    var n := |UnsignedList(before)|;
    forall i | 0 <= i < |UnsignedList(after)|
      ensures UnsignedList(after)[i].typ == TIME_STAMP_TOKEN
    {
      assert i < n ==> UnsignedList(after)[i] == UnsignedList(after)[..n][i] == UnsignedList(before)[i];
    }
  }

  lemma StepKeepsConsistent(w: World, sd: SignedData, op: Op, typ: bytes, data: bytes)
    requires Sha256Length(w.crypto) && |data| < GO_INT_LIMIT && |typ| < MAX_READABLE
      && Consistent(w.crypto, sd, typ, data) && !op.Reload?
    ensures Consistent(w.crypto, Apply(w, sd, op).sd, typ, data)
  {
    hide AddSignerInfo, AddTimestamps, AddCertificates, OurSigner, SameContent;
    match op
    case AddSigner(call) => SignerKeepsConsistent(w.crypto, sd, call, typ, data);
    case SetCertificates(certs) => CertificatesOnly(sd.(certs := Some([])), certs);
    case RemoveContent =>
    case Stamp(xs) => StampKeepsConsistent(w, sd, xs, typ, data);
  }

  /** Every state reached by calls on the object is consistent, whatever was called and whatever failed. */
  lemma {:induction false} RunConsistent(w: World, sd: SignedData, ops: seq<Op>, typ: bytes, data: bytes)
    requires Sha256Length(w.crypto) && |data| < GO_INT_LIMIT && |typ| < MAX_READABLE
      && Consistent(w.crypto, sd, typ, data) && forall op :: op in ops ==> !op.Reload?
    ensures Consistent(w.crypto, Run(w, sd, ops), typ, data)
    decreases |ops|
  {
    hide Apply, Consistent;
    if ops == [] {
    } else {
      StepKeepsConsistent(w, sd, ops[0], typ, data);
      RunConsistent(w, Apply(w, sd, ops[0]).sd, ops[1..], typ, data);
    }
  }

  lemma ReachableConsistent(w: World, ops: seq<Op>, typ: bytes, data: bytes)
    requires Sha256Length(w.crypto) && |data| < GO_INT_LIMIT && |typ| < MAX_READABLE
    requires forall op :: op in ops ==> !op.Reload?
    ensures Consistent(w.crypto, Run(w, NewSigned(NewEncapContent(typ, data)), ops), typ, data)
  {
    hide Run;
    RunConsistent(w, NewSigned(NewEncapContent(typ, data)), ops, typ, data);
  }
}
