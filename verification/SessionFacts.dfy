/**
 * What else is told of every session: which of Verify and VerifyDetached takes its result, and what
 * each signer recorded (verify.go:18-42, protocol.go:683-731).
 */
module SessionFacts {
  import opened Bytes
  import opened Lengths
  import opened NormalForm
  import opened Asn1
  import opened Attributes
  import opened Cms
  import opened WireProofs
  import opened Environment
  import opened Timestamp
  import opened Signing
  import opened SigningProofs
  import opened Verification
  import opened VerifySoundness
  import opened SignVerify
  import opened EndToEnd
  import opened Tokens
  import opened Timestamped
  import opened Runs
  import opened Sessions
  import opened Acceptance
  import Errors

  // ---------------------------------------------------------------- attached or detached

  lemma StepForm(w: World, sd: SignedData, op: Op, typ: bytes, data: bytes, known: set<Certificate>, ops: seq<Op>)
    requires Surroundings(w, ops, typ, data, known) && (op.Reload? ==> |ToDer(sd)| < MAX_READABLE)
    requires Assembled(w, sd, typ, data, known, ops) && Consistent(w.crypto, sd, typ, data)
    ensures Apply(w, sd, op).sd.eci.content.None? <==> sd.eci.content.None? || op.RemoveContent?
  {
    hide Surroundings, Assembled, Consistent, AddChain, MakeSigner, AddCertificates, AddTimestamps, Canon, ToDer,
      Reloaded, AddDigest;
    match op
    case AddSigner(call) =>
      if call.signer.pub.Some? {
        ChainOnly(sd, call.chain, call.signer.pub.value, None);
      }
    case SetCertificates(certs) => CertificatesOnly(sd.(certs := Some([])), certs);
    case RemoveContent =>
    case Stamp(xs) => AllOrNothing(w, sd, xs);
    case Reload =>
      ReloadKeeps(w, sd, typ, data, known, ops);
      CanonDetached(sd);
  }

  lemma {:induction false} RunForm(w: World, sd: SignedData, ops: seq<Op>, typ: bytes, data: bytes,
      known: set<Certificate>, all: seq<Op>)
    requires Surroundings(w, all, typ, data, known) && Readable(w, sd, ops)
    requires forall i :: 0 <= i < |ops| ==> ops[i] in all
    requires Assembled(w, sd, typ, data, known, all) && Consistent(w.crypto, sd, typ, data)
    ensures Run(w, sd, ops).eci.content.None? <==> sd.eci.content.None? || RemoveContent in ops
    decreases |ops|
  {
    hide Assembled, Consistent, GoodOp, Apply, Sha256Length, Distinguishable, ValidOid, ProperCertificate, ToDer;
    if ops == [] {
    } else {
      StepForm(w, sd, ops[0], typ, data, known, all);
      StepKeeps(w, sd, ops[0], typ, data, known, all);
      RunForm(w, Apply(w, sd, ops[0]).sd, ops[1..], typ, data, known, all);
    }
  }

  /** The content is gone after a session exactly when Detached was called at some point. */
  lemma DetachedOnce(w: World, ops: seq<Op>, typ: bytes, data: bytes, known: set<Certificate>)
    requires SessionSetting(w, ops, typ, data, known)
    ensures Finished(w, ops, typ, data).eci.content.None? <==> RemoveContent in ops
  {
    hide Surroundings, Readable, Run, CertsKnown;
    var start := NewSigned(NewEncapContent(typ, data));
    StartAssembled(w, ops, typ, data, known);
    RunForm(w, start, ops, typ, data, known, ops);
  }

  lemma StartAssembled(w: World, ops: seq<Op>, typ: bytes, data: bytes, known: set<Certificate>)
    ensures var start := NewSigned(NewEncapContent(typ, data));
            Assembled(w, start, typ, data, known, ops) && Consistent(w.crypto, start, typ, data)
  {
    hide ProperCertificate, CertRaw, SignerFrom;
  }

  /** The result of a session, as it is and as it comes out of ToDER and ParseSignedData, has this content or none. */
  lemma ParsedForm(w: World, ops: seq<Op>, typ: bytes, data: bytes, known: set<Certificate>)
    requires SessionSetting(w, ops, typ, data, known) && |ToDer(Finished(w, ops, typ, data))| < MAX_READABLE
    ensures var sd := Finished(w, ops, typ, data);
            && ParseSignedData(ToDer(sd)) == Ok(Canon(sd))
            && (Canon(sd).eci.content.None? <==> sd.eci.content.None?)
  {
    hide Surroundings, Readable, Assembled, Consistent, Finished, Canon, ToDer, ParseSignedData, WfSigned, DeepSigned;
    var sd := Finished(w, ops, typ, data);
    FinishedAssembled(w, ops, typ, data, known);
    AssembledWritable(w, sd, ops, typ, data, known);
    ParseAfterToDer(sd);
    CanonDetached(sd);
  }

  /**
   * The wrong operation refuses the result of a session and verifies nothing: VerifyDetached unless
   * Detached was called, whatever message it is given, and Verify once it was. The same holds after
   * ToDER and ParseSignedData.
   */
  lemma WrongFormRefused(w: World, ops: seq<Op>, typ: bytes, data: bytes, known: set<Certificate>, message: bytes,
      opts: VerifyOptions, pool: set<Certificate>)
    requires SessionSetting(w, ops, typ, data, known) && |ToDer(Finished(w, ops, typ, data))| < MAX_READABLE
    ensures forall sd :: Ok(sd) == ParseSignedData(ToDer(Finished(w, ops, typ, data)))
                         || sd == Finished(w, ops, typ, data) ==>
              if RemoveContent in ops then Verify(w, sd, opts, pool) == Verified(Err(Errors.DetachedSignature), pool)
              else VerifyDetached(w, sd, message, opts, pool) == Verified(Err(Errors.NotDetached), pool)
  {
    hide SessionSetting, Finished, Canon, ToDer, ParseSignedData, Verify, VerifyDetached, LargestSize;
    var sd := Finished(w, ops, typ, data);
    DetachedOnce(w, ops, typ, data, known);
    ParsedForm(w, ops, typ, data, known);
    AttachedExactly(w, sd, opts, pool, [], pool);
    AttachedExactly(w, Canon(sd), opts, pool, [], pool);
    DetachedExactly(w, sd, message, opts, pool, [], pool);
    DetachedExactly(w, Canon(sd), message, opts, pool, [], pool);
  }

  // ---------------------------------------------------------------- another message

  /** A signer of ours looks at the message through its digest. */
  lemma DigestDecides(w: World, si: SignerInfo, certs: seq<Certificate>, typ: bytes, data: bytes, message: bytes,
      opts: VerifyOptions, pool: set<Certificate>)
    requires si.digestAlg == DIGEST_ALGORITHM && si.signedAttrs.Some?
    requires w.crypto.hash(SHA256, message) == w.crypto.hash(SHA256, data)
    ensures VerifySigner(w, si, certs, typ, message, opts, pool) == VerifySigner(w, si, certs, typ, data, opts, pool)
  {
    hide ContentTypeAttribute, MessageDigestAttribute, MarshaledForVerification, FindCertificate, OptionalTimestamp,
      CheckChain, X509Signature, SignerSize;
    assert DigestToHash(OID_SHA256) == Some(SHA256) by { DigestMapsInverse(OID_SHA256, SHA256); }
  }

  lemma {:induction false} DigestsDecide(w: World, sis: seq<SignerInfo>, certs: seq<Certificate>, typ: bytes,
      data: bytes, message: bytes, opts: VerifyOptions, pool: set<Certificate>)
    requires forall si :: si in sis ==> si.digestAlg == DIGEST_ALGORITHM && si.signedAttrs.Some?
    requires w.crypto.hash(SHA256, message) == w.crypto.hash(SHA256, data)
    ensures VerifySigners(w, sis, certs, typ, message, opts, pool)
            == VerifySigners(w, sis, certs, typ, data, opts, pool)
    decreases |sis|
  {
    hide VerifySigner, SignerSize;
    if sis == [] {
    } else {
      DigestDecides(w, sis[0], certs, typ, data, message, opts, pool);
      DigestsDecide(w, sis[1..], certs, typ, data, message, opts,
                    VerifySigner(w, sis[0], certs, typ, data, opts, pool).pool);
    }
  }

  /** The digest attribute of an accepted signer of ours is that of the message it was accepted for. */
  lemma DigestBound(w: World, si: SignerInfo, certs: seq<Certificate>, typ: bytes, data: bytes, message: bytes,
      opts: VerifyOptions, chains: Chains, low: set<Certificate>, high: set<Certificate>)
    requires OurSigner(w.crypto, si, typ, data) && AcceptedWithin(w, si, certs, typ, message, opts, chains, low, high)
    ensures w.crypto.hash(SHA256, message) == w.crypto.hash(SHA256, data)
  {
    hide Identified, TokenVerified, Stamped, Accepts, MarshaledForVerification, TypeMatches, OnlyValue, GetOnly,
      X509Signature;
    var cert, info, start, pool :|
      low <= start <= pool <= high && Accepted(w, si, certs, typ, message, opts, chains, cert, info, start, pool);
    assert DigestToHash(OID_SHA256) == Some(SHA256) by { DigestMapsInverse(OID_SHA256, SHA256); }
    NoAttributesNone(si.signedAttrs);
    var attrs := si.signedAttrs.value;
    assert DigestMatches(attrs, w.crypto.hash(SHA256, message));
    var rv :| OnlyValue(attrs, MESSAGE_DIGEST, rv) && rv.content == w.crypto.hash(SHA256, message);
    OnlyFound(attrs, MESSAGE_DIGEST, rv);
  }

  lemma NoAttributesNone(attrs: AttributeList)
    ensures GetOnly(attrs, MESSAGE_DIGEST).Ok? ==> attrs.Some?
  {
  }

  lemma OursSigned(env: Crypto, si: SignerInfo, typ: bytes, data: bytes)
    requires OurSigner(env, si, typ, data)
    ensures si.digestAlg == DIGEST_ALGORITHM && si.signedAttrs.Some?
  {
    hide GetOnly;
    NoAttributesNone(si.signedAttrs);
  }

  /** A message of ours verifies over `message` exactly when it does over its own content, and the digests agree. */
  lemma OtherMessage(w: World, sd: SignedData, typ: bytes, data: bytes, message: bytes, opts: VerifyOptions,
      pool: set<Certificate>)
    requires Consistent(w.crypto, sd, typ, data)
    ensures VerifyContent(w, sd, message, opts, pool).result.Ok?
            <==> VerifyContent(w, sd, data, opts, pool).result.Ok?
                 && w.crypto.hash(SHA256, message) == w.crypto.hash(SHA256, data)
  {
    hide VerifySigners, X509Certificates, AcceptedWithin, OurSigner, SameContent, LargestSize;
    forall si | si in sd.signerInfos
      ensures si.digestAlg == DIGEST_ALGORITHM && si.signedAttrs.Some?
    {
      var i :| 0 <= i < |sd.signerInfos| && sd.signerInfos[i] == si;
      OursSigned(w.crypto, si, typ, data);
    }
    if VerifyContent(w, sd, message, opts, pool).result.Ok? {
      VerifySound(w, sd, message, opts, pool);
      var v, certs := VerifyContent(w, sd, message, opts, pool), X509Certificates(w.crypto, sd).value;
      DigestBound(w, sd.signerInfos[0], certs, typ, data, message, opts, v.result.value[0], pool + AsSet(certs),
                  v.pool);
    }
    if w.crypto.hash(SHA256, message) == w.crypto.hash(SHA256, data) && X509Certificates(w.crypto, sd).Ok? {
      var certs := X509Certificates(w.crypto, sd).value;
      DigestsDecide(w, sd.signerInfos, certs, typ, data, message, opts, pool + AsSet(certs));
    }
  }

  /**
   * Verify and VerifyDetached on the result of any session, attached or not, with any message: which
   * of them succeeds, and for which message.
   */
  lemma FormAndMessageDecide(w: World, ops: seq<Op>, typ: bytes, data: bytes, known: set<Certificate>, message: bytes,
      opts: VerifyOptions, pool: set<Certificate>)
    requires SessionSetting(w, ops, typ, data, known) && ChecksPass(w, Finished(w, ops, typ, data), known, opts)
    requires |typ| != 32
    ensures var sd := Finished(w, ops, typ, data);
            && (Verify(w, sd, opts, pool).result.Ok? <==> RemoveContent !in ops && Acceptable(sd, known))
            && (VerifyDetached(w, sd, message, opts, pool).result.Ok?
                <==> RemoveContent in ops && Acceptable(sd, known)
                     && w.crypto.hash(SHA256, message) == w.crypto.hash(SHA256, data))
  {
    hide SessionSetting, Finished, ChecksPass, Acceptable, Verify, VerifyContent, Telling, Assembled, Consistent,
      LargestSize;
    var sd := Finished(w, ops, typ, data);
    DetachedOnce(w, ops, typ, data, known);
    SessionDecides(w, ops, typ, data, known, opts, pool);
    FinishedAssembled(w, ops, typ, data, known);
    AttachedExactly(w, sd, opts, pool, [], pool);
    OtherMessage(w, sd, typ, data, message, opts, pool);
  }

  /** The same for what comes out of ToDER and ParseSignedData. */
  lemma ParsedFormAndMessageDecide(w: World, ops: seq<Op>, typ: bytes, data: bytes, known: set<Certificate>,
      message: bytes, opts: VerifyOptions, pool: set<Certificate>)
    requires SessionSetting(w, ops, typ, data, known) && ChecksPass(w, Finished(w, ops, typ, data), known, opts)
    requires |typ| != 32 && |ToDer(Finished(w, ops, typ, data))| < MAX_READABLE
    ensures var sd := Finished(w, ops, typ, data);
            var parsed := ParseSignedData(ToDer(sd));
            && parsed.Ok?
            && (Verify(w, parsed.value, opts, pool).result.Ok? <==> RemoveContent !in ops && Acceptable(sd, known))
            && (VerifyDetached(w, parsed.value, message, opts, pool).result.Ok?
                <==> RemoveContent in ops && Acceptable(sd, known)
                     && w.crypto.hash(SHA256, message) == w.crypto.hash(SHA256, data))
  {
    hide SessionSetting, Finished, ChecksPass, Acceptable, Verify, VerifyContent, Telling, Assembled, Consistent,
      LargestSize, Canon, ToDer, ParseSignedData;
    var sd := Finished(w, ops, typ, data);
    DetachedOnce(w, ops, typ, data, known);
    ParsedForm(w, ops, typ, data, known);
    ParsedSessionDecides(w, ops, typ, data, known, opts, pool);
    FinishedAssembled(w, ops, typ, data, known);
    CanonConsistent(w.crypto, sd, typ, data);
    AttachedExactly(w, Canon(sd), opts, pool, [], pool);
    OtherMessage(w, Canon(sd), typ, data, message, opts, pool);
  }

  // ---------------------------------------------------------------- what a signer recorded

  /** The signing time of the signer is the clock's, as UTCTime or GeneralizedTime. */
  predicate TimeRecorded(si: SignerInfo, now: Clock) {
    var time := GetOnly(si.signedAttrs, SIGNING_TIME);
    && time.Ok?
    && match now
       case Utc(text) => time.value.id == [0x17] && time.value.content == text
       case Generalized(long) => time.value.id == [0x18] && time.value.content == long
       case Unrepresentable => false
  }

  lemma MadeRecords(env: Crypto, eci: EncapContent, cert: Certificate, signer: Signer, now: Clock)
    requires Sha256Length(env) && |eci.typ| < MAX_READABLE && MakeSigner(env, eci, cert, signer, now).Ok?
    ensures TimeRecorded(MakeSigner(env, eci, cert, signer, now).value, now)
  {
    hide NewSid, EContentValue, GetOnly, SignatureOid, MarshaledForSigning, GeneratedAttributes, SortAttributes,
      DigestToHash, IsParsed;
    DigestMapsInverse(OID_SHA256, SHA256);
    var digest := env.hash(SHA256, EContentValue(eci).value.value);
    assert |digest| == 32;
    ClockUsed(now, digest, eci.typ);
    BuiltAttributes(now, digest, eci.typ);
    TimeShape(ClockValue(now).value);
    GeneratedFound(ClockValue(now).value, digest, eci.typ);
  }

  /** A successful AddSignerInfo, on any SignedData, adds one signer, and that one records the time of the call. */
  lemma NewSignerTime(env: Crypto, sd: SignedData, call: SignCall)
    requires Sha256Length(env) && |sd.eci.typ| < MAX_READABLE
    ensures var step := AddSignerInfo(env, sd, call.chain, call.signer, call.now);
            step.error.None? ==>
              && |step.sd.signerInfos| == |sd.signerInfos| + 1
              && step.sd.signerInfos[..|sd.signerInfos|] == sd.signerInfos
              && TimeRecorded(step.sd.signerInfos[|sd.signerInfos|], call.now)
  {
    hide AddChain, MakeSigner, TimeRecorded, AddDigest, Sha256Length;
    if AddSignerInfo(env, sd, call.chain, call.signer, call.now).error.None? {
      var pub := call.signer.pub.value;
      ChainOnly(sd, call.chain, pub, None);
      var added := AddChain(sd, call.chain, pub, None);
      MadeRecords(env, added.sd.eci, added.leaf.value.value, call.signer, call.now);
    }
  }

  /** One of the calls of the session made this signer with the key of `c`, and its time is recorded. */
  ghost predicate RecordedBy(w: World, si: SignerInfo, c: Certificate, call: SignCall, typ: bytes, data: bytes,
      known: set<Certificate>, ops: seq<Op>)
  {
    && AddSigner(call) in ops && c in known && c.pub.Some? && c.pub == call.signer.pub
    && NewSid(c) == Ok(si.sid) && TimeRecorded(si, call.now) && OurSigner(w.crypto, si, typ, data)
  }

  lemma OriginRecords(w: World, si: SignerInfo, before: SignerInfo, c: Certificate, call: SignCall, typ: bytes,
      data: bytes, known: set<Certificate>)
    requires Origin(w, si, before, c, call, typ, data, known)
    requires Sha256Length(w.crypto) && |typ| < MAX_READABLE && |data| < GO_INT_LIMIT
    ensures NewSid(c) == Ok(si.sid) && TimeRecorded(si, call.now)
  {
    hide ProperCertificate, MakeSigner, NewEncapContent, FetchTs, NewSid, GetOnly, Sha256Length;
    OriginSid(w, si, before, c, call, typ, data, known);
    EncapType(typ, data);
    MadeRecords(w.crypto, NewEncapContent(typ, data), c, call.signer, call.now);
  }

  lemma AssembledRecords(w: World, sd: SignedData, si: SignerInfo, ops: seq<Op>, typ: bytes, data: bytes,
      known: set<Certificate>)
    requires Surroundings(w, ops, typ, data, known) && Assembled(w, sd, typ, data, known, ops)
    requires Consistent(w.crypto, sd, typ, data) && si in sd.signerInfos
    ensures exists c, call :: RecordedBy(w, si, c, call, typ, data, known, ops)
  {
    hide ProperCertificate, CertRaw, Origin, CertsKnown, GoodOps, Distinguishable, ValidOid, Sha256Length, TimeRecorded,
      OurSigner, NewSid, SameContent;
    assert SignerFrom(w, si, typ, data, known, ops);
    var before, c, call :| AddSigner(call) in ops && Origin(w, si, before, c, call, typ, data, known);
    OriginRecords(w, si, before, c, call, typ, data, known);
    OriginKey(w, si, before, c, call, typ, data, known);
    assert RecordedBy(w, si, c, call, typ, data, known, ops);
  }

  lemma OriginKey(w: World, si: SignerInfo, before: SignerInfo, c: Certificate, call: SignCall, typ: bytes,
      data: bytes, known: set<Certificate>)
    requires Origin(w, si, before, c, call, typ, data, known)
    ensures c in known && c.pub.Some? && c.pub == call.signer.pub
  {
    hide ProperCertificate, MakeSigner, TokensFetched;
  }

  /**
   * Every signer in the result of a session, before and after ToDER and ParseSignedData, tells the
   * certificate and the time of the call that made it, and the digest and the type of the message.
   */
  lemma SessionRecords(w: World, ops: seq<Op>, typ: bytes, data: bytes, known: set<Certificate>)
    requires SessionSetting(w, ops, typ, data, known) && |ToDer(Finished(w, ops, typ, data))| < MAX_READABLE
    ensures forall si :: si in Finished(w, ops, typ, data).signerInfos ==>
                           exists c, call :: RecordedBy(w, si, c, call, typ, data, known, ops)
    ensures var parsed := ParseSignedData(ToDer(Finished(w, ops, typ, data)));
            && parsed.Ok? && |parsed.value.signerInfos| == |Finished(w, ops, typ, data).signerInfos|
            && forall si :: si in parsed.value.signerInfos ==>
                              exists c, call :: RecordedBy(w, si, c, call, typ, data, known, ops)
  {
    hide Surroundings, Readable, Assembled, Consistent, Finished, Canon, ToDer, ParseSignedData, RecordedBy;
    var sd := Finished(w, ops, typ, data);
    FinishedAssembled(w, ops, typ, data, known);
    ParsedForm(w, ops, typ, data, known);
    CanonAssembled(w, sd, ops, typ, data, known);
    CanonConsistent(w.crypto, sd, typ, data);
    CanonSigners(sd);
    forall si | si in sd.signerInfos
      ensures exists c, call :: RecordedBy(w, si, c, call, typ, data, known, ops)
    {
      AssembledRecords(w, sd, si, ops, typ, data, known);
    }
    forall si | si in Canon(sd).signerInfos
      ensures exists c, call :: RecordedBy(w, si, c, call, typ, data, known, ops)
    {
      AssembledRecords(w, Canon(sd), si, ops, typ, data, known);
    }
  }
}
