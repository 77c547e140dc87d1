/**
 * Every way to build a message, and exactly which results verify: any sequence of AddSignerInfo,
 * SetCertificates, Detached and AddTimestamps calls, failed ones included, with ToDER and
 * ParseSignedData between them or at the end (signed_data.go, sign.go, timestamp.go, verify.go, command_sign.go).
 */
module Sessions {
  import opened Bytes
  import opened Lengths
  import opened NormalForm
  import opened Order
  import opened Asn1
  import opened Attributes
  import opened Cms
  import opened WireProofs
  import opened Environment
  import opened Timestamp
  import opened Signing
  import opened SigningProofs
  import opened Verification
  import opened VerifySoundness
  import opened SignVerify
  import opened EndToEnd
  import opened SignedMessages
  import opened ContentTypes
  import opened Tokens
  import opened Timestamped
  import opened Runs

  // ---------------------------------------------------------------- where the signers come from

  /** Only known certificates are added, and keys sign correctly. */
  ghost predicate GoodOp(env: Crypto, op: Op, known: set<Certificate>) {
    match op
    case AddSigner(call) => GoodCall(env, call, known)
    case SetCertificates(certs) => forall c :: c in certs ==> c in known && ProperCertificate(env, c)
    case RemoveContent => true
    case Stamp(_) => true
    case Reload => true
  }

  ghost predicate GoodOps(env: Crypto, ops: seq<Op>, known: set<Certificate>) {
    forall op :: op in ops ==> GoodOp(env, op, known)
  }

  /** `si` is `before` with any number of tokens that were fetched for it. */
  ghost predicate TokensFetched(w: World, before: SignerInfo, si: SignerInfo) {
    && before.unsignedAttrs.None?
    && si == before.(unsignedAttrs := si.unsignedAttrs)
    && (si.unsignedAttrs.Some? ==> si.unsignedAttrs.value != [])
    && forall a :: a in UnsignedList(si) ==> exists x :: FetchTs(w.crypto, w.parseInfo, before, x) == Ok(a)
  }

  /** `si` was made by `call` with the key of `c`, whether or not `c` is still in the message. */
  ghost predicate Origin(w: World, si: SignerInfo, before: SignerInfo, c: Certificate, call: SignCall, typ: bytes,
      data: bytes, known: set<Certificate>)
  {
    && c in known && ProperCertificate(w.crypto, c) && c.pub.Some? && c.pub == call.signer.pub
    && MakeSigner(w.crypto, NewEncapContent(typ, data), c, call.signer, call.now) == Ok(before)
    && TokensFetched(w, before, si)
  }

  ghost predicate SignerFrom(w: World, si: SignerInfo, typ: bytes, data: bytes, known: set<Certificate>, ops: seq<Op>) {
    exists before, c, call :: AddSigner(call) in ops && Origin(w, si, before, c, call, typ, data, known)
  }

  /** What every sequence of good calls leaves behind; no order is looked at. */
  ghost predicate Assembled(w: World, sd: SignedData, typ: bytes, data: bytes, known: set<Certificate>, ops: seq<Op>) {
    && sd.eci.typ == typ
    && CertsKnown(w.crypto, CertList(sd), known)
    && forall si :: si in sd.signerInfos ==> SignerFrom(w, si, typ, data, known, ops)
  }

  lemma FetchIgnoresTokens(w: World, before: SignerInfo, si: SignerInfo, x: Exchange)
    requires si == before.(unsignedAttrs := si.unsignedAttrs)
    ensures FetchTs(w.crypto, w.parseInfo, si, x) == FetchTs(w.crypto, w.parseInfo, before, x)
  {
    hide ParseResponse, ResponseInfo, Matches, NewMessageImprint, AvailableHash, NewAttribute, InfoRaw;
  }

  lemma SignerKeepsAssembled(w: World, sd: SignedData, call: SignCall, typ: bytes, data: bytes,
      known: set<Certificate>, ops: seq<Op>)
    requires GoodCall(w.crypto, call, known) && AddSigner(call) in ops
    requires Assembled(w, sd, typ, data, known, ops) && Consistent(w.crypto, sd, typ, data)
    ensures Assembled(w, AddSignerInfo(w.crypto, sd, call.chain, call.signer, call.now).sd, typ, data, known, ops)
  {
    hide ProperCertificate, CertRaw, CertsKnown, NewEncapContent, Correct, AddChain, MakeSigner, SignerFrom, CertList,
      OurSigner, SameContent;
    if call.signer.pub.Some? {
      var pub := call.signer.pub.value;
      ChainAdded(w.crypto, sd, call.chain, pub, None, known);
      var added := AddChain(sd, call.chain, pub, None);
      if added.leaf.Ok? && added.leaf.value.Some? {
        var cert := added.leaf.value.value;
        var made := MakeSigner(w.crypto, added.sd.eci, cert, call.signer, call.now);
        if made.Ok? {
          HasContent(w.crypto, added.sd.eci, cert, call.signer, call.now);
          SameMade(w.crypto, added.sd.eci, cert, call.signer, call.now, typ, data);
          FreshOrigin(w, made.value, cert, call, typ, data, known, ops);
          SameList(added.sd, AddSignerInfo(w.crypto, sd, call.chain, call.signer, call.now).sd);
        }
      }
    }
  }

  lemma FreshOrigin(w: World, si: SignerInfo, c: Certificate, call: SignCall, typ: bytes, data: bytes,
      known: set<Certificate>, ops: seq<Op>)
    requires c in known && ProperCertificate(w.crypto, c) && c.pub.Some? && c.pub == call.signer.pub
    requires MakeSigner(w.crypto, NewEncapContent(typ, data), c, call.signer, call.now) == Ok(si)
    requires si.unsignedAttrs.None? && AddSigner(call) in ops
    ensures SignerFrom(w, si, typ, data, known, ops)
  {
    hide ProperCertificate, MakeSigner, NewEncapContent, FetchTs;
    assert Origin(w, si, si, c, call, typ, data, known);
  }

  lemma {:induction false} CertificatesKeepKnown(env: Crypto, sd: SignedData, certs: seq<Certificate>,
      known: set<Certificate>)
    requires CertsKnown(env, CertList(sd), known)
    requires forall c :: c in certs ==> c in known && ProperCertificate(env, c)
    ensures CertsKnown(env, CertList(AddCertificates(sd, certs).sd), known)
    decreases |certs|
  {
    hide ProperCertificate, CertRaw, AddCertificate, CertsKnown, CertList;
    if certs == [] {
    } else {
      CertificateAdded(env, sd, certs[0], known);
      CertificatesKeepKnown(env, AddCertificate(sd, certs[0]).sd, certs[1..], known);
    }
  }

  lemma StampKeepsAssembled(w: World, sd: SignedData, xs: seq<Exchange>, typ: bytes, data: bytes,
      known: set<Certificate>, ops: seq<Op>)
    requires Assembled(w, sd, typ, data, known, ops)
    ensures Assembled(w, AddTimestamps(w.crypto, w.parseInfo, sd, xs).sd, typ, data, known, ops)
  {
    hide ProperCertificate, CertRaw, CertsKnown, FetchTs, FetchAll, SignerFrom;
    var fetched := FetchAll(w.crypto, w.parseInfo, sd.signerInfos, xs);
    FetchedEach(w.crypto, w.parseInfo, sd.signerInfos, xs);
    if fetched.Ok? {
      var stamped := AddTimestamps(w.crypto, w.parseInfo, sd, xs).sd;
      SameList(sd, stamped);
      forall si | si in stamped.signerInfos
        ensures SignerFrom(w, si, typ, data, known, ops)
      {
        var i :| 0 <= i < |stamped.signerInfos| && stamped.signerInfos[i] == si;
        OneMoreFrom(w, sd.signerInfos[i], xs[i], fetched.value[i], typ, data, known, ops);
      }
    }
  }

  lemma OneMoreFrom(w: World, si: SignerInfo, x: Exchange, a: Attribute, typ: bytes, data: bytes,
      known: set<Certificate>, ops: seq<Op>)
    requires SignerFrom(w, si, typ, data, known, ops) && FetchTs(w.crypto, w.parseInfo, si, x) == Ok(a)
    ensures SignerFrom(w, AddUnsigned(si, a), typ, data, known, ops)
  {
    hide ProperCertificate, MakeSigner, NewEncapContent, FetchTs;
    var before, c, call :| AddSigner(call) in ops && Origin(w, si, before, c, call, typ, data, known);
    var more := AddUnsigned(si, a);
    FetchIgnoresTokens(w, before, si, x);
    assert UnsignedList(more) == UnsignedList(si) + [a];
    forall b | b in UnsignedList(more)
      ensures exists y :: FetchTs(w.crypto, w.parseInfo, before, y) == Ok(b)
    {
      if b == a {
        assert FetchTs(w.crypto, w.parseInfo, before, x) == Ok(b);
      } else {
        assert b in UnsignedList(si);
      }
    }
    assert Origin(w, more, before, c, call, typ, data, known);
  }

  lemma OpKeepsAssembled(w: World, sd: SignedData, op: Op, typ: bytes, data: bytes, known: set<Certificate>,
      ops: seq<Op>)
    requires GoodOp(w.crypto, op, known) && op in ops && !op.Reload?
    requires Assembled(w, sd, typ, data, known, ops) && Consistent(w.crypto, sd, typ, data)
    ensures Assembled(w, Apply(w, sd, op).sd, typ, data, known, ops)
  {
    hide ProperCertificate, CertRaw, AddSignerInfo, AddTimestamps, AddCertificates, SignerFrom, Consistent, GoodCall;
    match op
    case AddSigner(call) => SignerKeepsAssembled(w, sd, call, typ, data, known, ops);
    case SetCertificates(certs) =>
      CertificatesOnly(sd.(certs := Some([])), certs);
      CertificatesKeepKnown(w.crypto, sd.(certs := Some([])), certs, known);
    case RemoveContent =>
      assert CertList(Detach(sd)) == CertList(sd);
    case Stamp(xs) => StampKeepsAssembled(w, sd, xs, typ, data, known, ops);
  }

  /** Writing and reading back keeps the signers, up to the order of their tokens, and the certificates. */
  lemma ReloadKeeps(w: World, sd: SignedData, typ: bytes, data: bytes, known: set<Certificate>, ops: seq<Op>)
    requires Surroundings(w, ops, typ, data, known) && |ToDer(sd)| < MAX_READABLE
    requires Assembled(w, sd, typ, data, known, ops) && Consistent(w.crypto, sd, typ, data)
    ensures Reloaded(sd) == Step(Canon(sd), None)
    ensures Assembled(w, Canon(sd), typ, data, known, ops) && Consistent(w.crypto, Canon(sd), typ, data)
  {
    hide Surroundings, Assembled, Consistent, Canon, ToDer, ParseSignedData, WfSigned, DeepSigned;
    AssembledWritable(w, sd, ops, typ, data, known);
    ParseAfterToDer(sd);
    CanonAssembled(w, sd, ops, typ, data, known);
    CanonConsistent(w.crypto, sd, typ, data);
  }

  lemma CanonConsistent(env: Crypto, sd: SignedData, typ: bytes, data: bytes)
    requires Consistent(env, sd, typ, data)
    ensures Consistent(env, Canon(sd), typ, data)
  {
    hide OurSigner, CanonSigner, SameContent, CanonEncap, SortBy;
    CanonSigners(sd);
    CanonDigests(sd.digestAlgs);
    CanonType(sd.eci);
    CanonDetached(sd);
    if sd.eci.content.Some? {
      CanonSameContent(sd.eci, typ, data);
    }
    forall i | 0 <= i < |Canon(sd).signerInfos|
      ensures OurSigner(env, Canon(sd).signerInfos[i], typ, data)
    {
      assert Canon(sd).signerInfos[i] in Canon(sd).signerInfos;
      var si :| si in sd.signerInfos && CanonSigner(si) == Canon(sd).signerInfos[i];
      CanonOurs(env, si, typ, data);
    }
  }

  lemma CanonDigests(algs: seq<AlgorithmIdentifier>)
    requires |algs| <= 1
    ensures SortBy(algs, AlgKey) == algs
  {
    if algs != [] {
      assert algs == [algs[0]] && algs[..0] == [];
    }
  }

  lemma CanonOurs(env: Crypto, si: SignerInfo, typ: bytes, data: bytes)
    requires OurSigner(env, si, typ, data)
    ensures OurSigner(env, CanonSigner(si), typ, data)
  {
    hide GetOnly, CanonSigner;
    CanonSignerSame(si);
    forall i | 0 <= i < |UnsignedList(CanonSigner(si))|
      ensures UnsignedList(CanonSigner(si))[i].typ == TIME_STAMP_TOKEN
    {
      assert UnsignedList(CanonSigner(si))[i] in UnsignedList(si);
    }
  }

  lemma StepKeeps(w: World, sd: SignedData, op: Op, typ: bytes, data: bytes, known: set<Certificate>, ops: seq<Op>)
    requires Surroundings(w, ops, typ, data, known) && GoodOp(w.crypto, op, known) && op in ops
    requires Assembled(w, sd, typ, data, known, ops) && Consistent(w.crypto, sd, typ, data)
    requires op.Reload? ==> |ToDer(sd)| < MAX_READABLE
    ensures Assembled(w, Apply(w, sd, op).sd, typ, data, known, ops)
    ensures Consistent(w.crypto, Apply(w, sd, op).sd, typ, data)
  {
    hide Assembled, Consistent, Reloaded, ToDer, GoodOp, Sha256Length, GoodOps, Distinguishable, ValidOid,
      ProperCertificate, AddSignerInfo, AddTimestamps, ReplaceCertificates, Detach;
    if op.Reload? {
      ReloadKeeps(w, sd, typ, data, known, ops);
    } else {
      OpKeepsAssembled(w, sd, op, typ, data, known, ops);
      StepKeepsConsistent(w, sd, op, typ, data);
    }
  }

  lemma {:induction false} RunAssembled(w: World, sd: SignedData, ops: seq<Op>, typ: bytes, data: bytes,
      known: set<Certificate>, all: seq<Op>)
    requires Surroundings(w, all, typ, data, known) && Readable(w, sd, ops)
    requires forall i :: 0 <= i < |ops| ==> ops[i] in all
    requires Assembled(w, sd, typ, data, known, all) && Consistent(w.crypto, sd, typ, data)
    ensures Assembled(w, Run(w, sd, ops), typ, data, known, all) && Consistent(w.crypto, Run(w, sd, ops), typ, data)
    decreases |ops|
  {
    hide Assembled, Consistent, GoodOp, Apply, Sha256Length, Distinguishable, ValidOid, ProperCertificate, ToDer;
    if ops == [] {
    } else {
      StepKeeps(w, sd, ops[0], typ, data, known, all);
      RunAssembled(w, Apply(w, sd, ops[0]).sd, ops[1..], typ, data, known, all);
    }
  }

  // ---------------------------------------------------------------- what decides

  /** The surroundings of a session, and what it writes and reads again is not too long. */
  ghost predicate SessionSetting(w: World, ops: seq<Op>, typ: bytes, data: bytes, known: set<Certificate>) {
    Surroundings(w, ops, typ, data, known) && Readable(w, NewSigned(NewEncapContent(typ, data)), ops)
  }

  ghost predicate Surroundings(w: World, ops: seq<Op>, typ: bytes, data: bytes, known: set<Certificate>) {
    && Sha256Length(w.crypto)
    && GoodOps(w.crypto, ops, known)
    && (forall c :: c in known ==> ProperCertificate(w.crypto, c))
    && Distinguishable(known)
    && ValidOid(typ) && |typ| < MAX_READABLE && |data| < GO_INT_LIMIT
  }

  /** Keys and digests are exact enough to notice a wrong order of attributes. */
  ghost predicate Telling(env: Crypto, ops: seq<Op>, typ: bytes, data: bytes) {
    forall call :: AddSigner(call) in ops ==> CallExact(env, call, typ, data) && CallSeen(env, call, typ, data)
  }

  /** Chains and tokens are acceptable for the certificates that the signers name. */
  ghost predicate ChecksPass(w: World, sd: SignedData, known: set<Certificate>, opts: VerifyOptions) {
    forall si, c :: si in sd.signerInfos && c in known && NewSid(c) == Ok(si.sid) ==>
                      SignerPasses(w, si, c, opts, CertsOf(sd, known))
  }

  ghost predicate SignerPasses(w: World, si: SignerInfo, c: Certificate, opts: VerifyOptions, base: set<Certificate>) {
    && (UnsignedList(si) == [] ==> ChainAccepts(w.crypto, c, opts, base))
    && (|UnsignedList(si)| == 1 ==> TokenAccepted(w, si, c, opts, base))
  }

  ghost predicate CertPresent(si: SignerInfo, raws: seq<RawValue>, known: set<Certificate>) {
    exists c :: c in known && NewSid(c) == Ok(si.sid) && CertRaw(c) in raws
  }

  /** There is a signer, and each has its certificate in the message and at most one token. */
  ghost predicate Acceptable(sd: SignedData, known: set<Certificate>) {
    && sd.signerInfos != []
    && forall si :: si in sd.signerInfos ==> CertPresent(si, CertList(sd), known) && |UnsignedList(si)| <= 1
  }

  /** Two certificates with the same signer identifier are the same. */
  lemma SidUnique(env: Crypto, c: Certificate, d: Certificate, sid: RawValue, known: set<Certificate>)
    requires c in known && d in known && Distinguishable(known)
    requires ProperCertificate(env, c) && ProperCertificate(env, d)
    requires NewSid(c) == Ok(sid) && NewSid(d) == Ok(sid)
    ensures c == d
  {
    hide ProperCertificate, NewSid, IssuerAndSerial;
    SidNames(env, c);
    SidNames(env, d);
  }

  // ---------------------------------------------------------------- acceptable messages verify

  ghost predicate Passes(w: World, si: SignerInfo, certs: seq<Certificate>, typ: bytes, data: bytes,
      opts: VerifyOptions, base: set<Certificate>)
  {
    forall pool {:trigger VerifySigner(w, si, certs, typ, data, opts, pool)} :: base <= pool ==>
      var v := VerifySigner(w, si, certs, typ, data, opts, pool);
      v.result.Ok? && base <= v.pool
  }

  lemma {:induction false} PassingSignersVerify(w: World, sis: seq<SignerInfo>, certs: seq<Certificate>, typ: bytes,
      data: bytes, opts: VerifyOptions, base: set<Certificate>, pool: set<Certificate>)
    requires base <= pool && forall si :: si in sis ==> Passes(w, si, certs, typ, data, opts, base)
    ensures var v := VerifySigners(w, sis, certs, typ, data, opts, pool);
            v.result.Ok? && |v.result.value| == |sis|
    decreases |sis|
  {
    hide VerifySigner;
    if sis == [] {
    } else {
      assert Passes(w, sis[0], certs, typ, data, opts, base);
      PassingSignersVerify(w, sis[1..], certs, typ, data, opts, base,
                           VerifySigner(w, sis[0], certs, typ, data, opts, pool).pool);
    }
  }

  lemma TokensKeepSigned(w: World, before: SignerInfo, si: SignerInfo, c: Certificate, typ: bytes, data: bytes,
      time: RawValue)
    requires TokensFetched(w, before, si) && SignedBy(w.crypto, before, c, typ, data, time)
    ensures SignedBy(w.crypto, si, c, typ, data, time)
  {
    hide FetchTs, NewSid, SortAttributes, GeneratedAttributes, IsTime, Small, MarshaledForVerification, KeySignature,
      SignatureOid;
  }

  lemma OriginSid(w: World, si: SignerInfo, before: SignerInfo, c: Certificate, call: SignCall, typ: bytes,
      data: bytes, known: set<Certificate>)
    requires Origin(w, si, before, c, call, typ, data, known)
    requires Sha256Length(w.crypto) && |data| < GO_INT_LIMIT && |typ| < MAX_READABLE
    ensures NewSid(c) == Ok(si.sid) && si.version == VERSION_1 && |data| < MAX_READABLE
  {
    hide ProperCertificate, MakeSigner, NewEncapContent, FetchTs, NewSid, SortAttributes, GeneratedAttributes, IsTime,
      Small, MarshaledForSigning, MarshaledForVerification, SignatureOid, ClockValue;
    var time := MadeParts(w.crypto, typ, data, c, call.signer, call.now);
  }

  /** One signer with its certificate in the message and at most one acceptable token. */
  lemma SignerAccepted(w: World, si: SignerInfo, before: SignerInfo, c: Certificate, call: SignCall,
      certs: seq<Certificate>, typ: bytes, data: bytes, known: set<Certificate>, opts: VerifyOptions,
      base: set<Certificate>)
    requires Origin(w, si, before, c, call, typ, data, known) && Correct(w.crypto, call.signer)
    requires Sha256Length(w.crypto) && ValidOid(typ) && |typ| < MAX_READABLE && |typ| != 32 && |data| < GO_INT_LIMIT
    requires c in certs && (forall d :: d in certs ==> d in known) && Distinguishable(known)
    requires |UnsignedList(si)| <= 1 && SignerPasses(w, si, c, opts, base)
    ensures Passes(w, si, certs, typ, data, opts, base)
  {
    hide ProperCertificate, MakeSigner, NewEncapContent, FetchTs, SignedBy, CheckSigner, VerifySigner, Correct,
      ValidOid, MarshaledForSigning, MarshaledForVerification, KeySignature, TokenAccepted, ChainAccepts,
      Sha256Length;
    ProperRead(w.crypto, c);
    var time := MadeSigner(w.crypto, typ, data, c, call.signer, call.now);
    TokensKeepSigned(w, before, si, c, typ, data, time);
    SignerChecks(w.crypto, si, c, typ, data, time, certs, known);
    forall pool {:trigger VerifySigner(w, si, certs, typ, data, opts, pool)} | base <= pool
      ensures VerifySigner(w, si, certs, typ, data, opts, pool).result.Ok?
      ensures base <= VerifySigner(w, si, certs, typ, data, opts, pool).pool
    {
      if UnsignedList(si) == [] {
        ChainGiven(w.crypto, c, opts, base, pool);
        PlainSigner(w, si, certs, typ, data, opts, pool);
      } else {
        var a := UnsignedList(si)[0];
        assert a in UnsignedList(si);
        var x :| FetchTs(w.crypto, w.parseInfo, before, x) == Ok(a);
        assert UnsignedList(si) == [a] && [] + [a] == [a];
        assert StampedBy(w, si, before, x, c, typ, data, time);
        StampedSigner(w, si, before, x, c, certs, typ, data, time, opts, base, pool);
      }
    }
  }

  lemma ChainGiven(env: Crypto, c: Certificate, opts: VerifyOptions, base: set<Certificate>, pool: set<Certificate>)
    requires ChainAccepts(env, c, opts, base) && base <= pool
    ensures env.verifyChain(c, opts, pool).Some?
  {
  }

  lemma OriginCert(w: World, si: SignerInfo, before: SignerInfo, c: Certificate, call: SignCall, typ: bytes,
      data: bytes, known: set<Certificate>, raws: seq<RawValue>)
    requires Origin(w, si, before, c, call, typ, data, known) && Distinguishable(known)
    requires Sha256Length(w.crypto) && |data| < GO_INT_LIMIT && |typ| < MAX_READABLE
    requires CertPresent(si, raws, known) && forall d :: d in known ==> ProperCertificate(w.crypto, d)
    ensures CertRaw(c) in raws
  {
    hide ProperCertificate, MakeSigner, NewSid, CertRaw, Distinguishable, TokensFetched;
    OriginSid(w, si, before, c, call, typ, data, known);
    var d :| d in known && NewSid(d) == Ok(si.sid) && CertRaw(d) in raws;
    SidUnique(w.crypto, c, d, si.sid, known);
  }

  lemma AcceptableVerifies(w: World, sd: SignedData, ops: seq<Op>, typ: bytes, data: bytes, known: set<Certificate>,
      opts: VerifyOptions, pool: set<Certificate>)
    requires Surroundings(w, ops, typ, data, known) && Assembled(w, sd, typ, data, known, ops)
    requires ChecksPass(w, sd, known, opts) && Acceptable(sd, known) && |typ| != 32
    ensures var v := VerifyContent(w, sd, data, opts, pool);
            v.result.Ok? && |v.result.value| == |sd.signerInfos|
  {
    hide ProperCertificate, CertRaw, Origin, Distinguishable, VerifySigners, ParseAll, Sha256Length, ValidOid,
      CertsKnown, LargestSize, SignerPasses, NewSid, Passes, CertPresent, Correct;
    var env := w.crypto;
    CertsParse(env, CertList(sd), known);
    var certs := ParseAll(env, CertList(sd)).value;
    var base := CertsOf(sd, known);
    forall si | si in sd.signerInfos
      ensures Passes(w, si, certs, typ, data, opts, base)
    {
      assert SignerFrom(w, si, typ, data, known, ops);
      var before, c, call :| AddSigner(call) in ops && Origin(w, si, before, c, call, typ, data, known);
      OriginCert(w, si, before, c, call, typ, data, known, CertList(sd));
      OriginSid(w, si, before, c, call, typ, data, known);
      OriginKnown(w, si, before, c, call, typ, data, known);
      assert GoodOp(env, AddSigner(call), known);
      assert SignerPasses(w, si, c, opts, base);
      SignerAccepted(w, si, before, c, call, certs, typ, data, known, opts, base);
    }
    CertsCovered(env, sd, known, certs, pool);
    PassingSignersVerify(w, sd.signerInfos, certs, typ, data, opts, base, pool + AsSet(certs));
  }

  lemma OriginKnown(w: World, si: SignerInfo, before: SignerInfo, c: Certificate, call: SignCall, typ: bytes,
      data: bytes, known: set<Certificate>)
    requires Origin(w, si, before, c, call, typ, data, known)
    ensures c in known && ProperCertificate(w.crypto, c)
  {
    hide ProperCertificate, MakeSigner, TokensFetched;
  }

  // ---------------------------------------------------------------- verified messages are acceptable

  /** All tokens of a signer of ours have the token type. */
  lemma OnlyTokens(w: World, before: SignerInfo, si: SignerInfo)
    requires TokensFetched(w, before, si)
    ensures forall i :: 0 <= i < |UnsignedList(si)| ==> UnsignedList(si)[i].typ == TIME_STAMP_TOKEN
  {
    hide FetchTs;
    forall i | 0 <= i < |UnsignedList(si)|
      ensures UnsignedList(si)[i].typ == TIME_STAMP_TOKEN
    {
      assert UnsignedList(si)[i] in UnsignedList(si);
      var x :| FetchTs(w.crypto, w.parseInfo, before, x) == Ok(UnsignedList(si)[i]);
      FetchedType(w.crypto, w.parseInfo, before, x);
    }
  }

  lemma OneGoodToken(w: World, si: SignerInfo, opts: VerifyOptions, start: set<Certificate>, info: Info,
      pool: set<Certificate>)
    returns (rv: RawValue)
    requires TokenVerified(w, si, opts, start, info, pool)
    ensures OnlyValue(UnsignedList(si), TIME_STAMP_TOKEN, rv)
  {
    hide ParseSignedData, HoldsInfo, Verify, ImprintOf, OnlyValue;
    var token, tst, octets :|
      && OnlyValue(UnsignedList(si), TIME_STAMP_TOKEN, token)
      && ParseSignedData(token.full) == Ok(tst)
      && HoldsInfo(w, tst.eci, octets, info) && info.version == 1
      && Verify(w, tst, opts, start).result.Ok? && Verify(w, tst, opts, start).pool == pool
      && ImprintOf(w.crypto, info, si.signature);
    rv := token;
  }

  lemma OneTokenOnly(w: World, si: SignerInfo, opts: VerifyOptions, start: set<Certificate>, info: Option<Info>,
      pool: set<Certificate>)
    requires forall i :: 0 <= i < |UnsignedList(si)| ==> UnsignedList(si)[i].typ == TIME_STAMP_TOKEN
    requires info.Some? <==> Stamped(si)
    requires info.Some? ==> TokenVerified(w, si, opts, start, info.value, pool)
    ensures |UnsignedList(si)| <= 1
  {
    hide TokenVerified, DecodeAnySet;
    var list := UnsignedList(si);
    if list != [] {
      assert list[0].typ == TIME_STAMP_TOKEN;
      var rv := OneGoodToken(w, si, opts, start, info.value, pool);
      var i :| OnlyAt(list, TIME_STAMP_TOKEN, i) && DecodeAnySet(list[i].value) == Ok([rv]);
      assert list[|list| - 1].typ == TIME_STAMP_TOKEN;
    }
  }

  /** With a content type of 32 octets no such signature passes over the rebuilt octets. */
  lemma WrongOrderNoticed(w: World, si: SignerInfo, before: SignerInfo, c: Certificate, call: SignCall, typ: bytes,
      data: bytes, known: set<Certificate>, message: bytes, algo: SignatureAlgorithm)
    requires Origin(w, si, before, c, call, typ, data, known) && Sha256Length(w.crypto)
    requires |typ| == 32 && |data| < GO_INT_LIMIT
    requires CallExact(w.crypto, call, typ, data) && CallSeen(w.crypto, call, typ, data)
    requires RightMessage(w.crypto, si, typ, data, message)
    ensures !w.crypto.checkSignature(c, algo, message, si.signature)
  {
    hide ProperCertificate, MakeSigner, NewEncapContent, FetchTs, NewSid, SortAttributes, GeneratedAttributes, IsTime,
      Small, MarshaledForSigning, MarshaledForVerification, SignatureOid, AttributesMatch;
    var time := MadeParts(w.crypto, typ, data, c, call.signer, call.now);
    var stored := SortAttributes(GeneratedAttributes(time, w.crypto.hash(SHA256, data), typ));
    ProperRead(w.crypto, c);
    assert OrderSeen(w.crypto, stored) && OrderExact(w.crypto, call.signer, stored);
    var signed := MarshaledForSigning(stored);
    assert signed.Ok? && call.signer.sign(w.crypto.hash(SHA256, signed.value), SHA256) == Some(si.signature);
  }

  lemma OneNamed(si: SignerInfo, certs: seq<Certificate>, cert: Certificate, c: Certificate)
    requires Identified(si, certs, cert) && si.version == VERSION_1
    requires IssuerAndSerial(si.sid) == Ok((c.rawIssuer, c.serial))
    ensures cert in certs && cert.rawIssuer == c.rawIssuer && cert.serial == c.serial
  {
    hide IssuerAndSerial;
    VersionsDiffer();
  }

  /** What Verify found out about one signer, against where the signer came from. */
  lemma AcceptedAcceptable(w: World, si: SignerInfo, sd: SignedData, certs: seq<Certificate>, ops: seq<Op>,
      typ: bytes, data: bytes, known: set<Certificate>, opts: VerifyOptions, chains: Chains, low: set<Certificate>,
      high: set<Certificate>)
    requires Surroundings(w, ops, typ, data, known) && SignerFrom(w, si, typ, data, known, ops)
    requires AcceptedWithin(w, si, certs, typ, data, opts, chains, low, high)
    requires forall c :: c in certs ==> c in known && CertRaw(c) in CertList(sd)
    ensures CertPresent(si, CertList(sd), known) && |UnsignedList(si)| <= 1
    ensures Telling(w.crypto, ops, typ, data) ==> |typ| != 32
  {
    hide ProperCertificate, CertRaw, NewSid, RightMessage, X509Signature, TokenVerified, Stamped, Accepts, Identified,
      TokensFetched, MakeSigner, Sha256Length, ValidOid, IssuerAndSerial, GoodOps, CallExact, CallSeen;
    var before, c, call :| AddSigner(call) in ops && Origin(w, si, before, c, call, typ, data, known);
    var cert, info, start, pool :|
      low <= start <= pool <= high && Accepted(w, si, certs, typ, data, opts, chains, cert, info, start, pool);
    OriginSid(w, si, before, c, call, typ, data, known);
    SidNames(w.crypto, c);
    OneNamed(si, certs, cert, c);
    OnlyTokens(w, before, si);
    OneTokenOnly(w, si, VerifyOptions(opts.currentTime, true), start, info, pool);
    var message, algo :|
      && RightMessage(w.crypto, si, typ, data, message)
      && X509Signature(si.sigAlg.oid, si.digestAlg.oid) == Some(algo)
      && w.crypto.checkSignature(cert, algo, message, si.signature);
    if Telling(w.crypto, ops, typ, data) && |typ| == 32 {
      WrongOrderNoticed(w, si, before, c, call, typ, data, known, message, algo);
    }
  }

  lemma VerifiedAcceptable(w: World, sd: SignedData, ops: seq<Op>, typ: bytes, data: bytes, known: set<Certificate>,
      opts: VerifyOptions, pool: set<Certificate>)
    requires Surroundings(w, ops, typ, data, known) && Assembled(w, sd, typ, data, known, ops)
    requires VerifyContent(w, sd, data, opts, pool).result.Ok?
    ensures Acceptable(sd, known) && (Telling(w.crypto, ops, typ, data) ==> |typ| != 32)
  {
    hide ProperCertificate, CertRaw, CertsKnown, VerifyContent, AcceptedWithin, SignerFrom, CertPresent,
      Surroundings, Telling, ParseAll;
    VerifySound(w, sd, data, opts, pool);
    CertsParse(w.crypto, CertList(sd), known);
    var v := VerifyContent(w, sd, data, opts, pool);
    var certs := X509Certificates(w.crypto, sd).value;
    forall si | si in sd.signerInfos
      ensures CertPresent(si, CertList(sd), known) && |UnsignedList(si)| <= 1
      ensures Telling(w.crypto, ops, typ, data) ==> |typ| != 32
    {
      var i :| 0 <= i < |sd.signerInfos| && sd.signerInfos[i] == si;
      AcceptedAcceptable(w, si, sd, certs, ops, typ, data, known, opts, v.result.value[i], pool + AsSet(certs), v.pool);
    }
    assert sd.signerInfos[0] in sd.signerInfos;
  }

  /** The outcome of verify on a message of ours, in both directions. */
  ghost predicate Decided(w: World, sd: SignedData, ops: seq<Op>, typ: bytes, data: bytes, known: set<Certificate>,
      r: CmsOutcome<seq<Chains>>)
  {
    && (|typ| != 32 ==> (r.Ok? <==> Acceptable(sd, known)))
    && (|typ| == 32 && Telling(w.crypto, ops, typ, data) ==> r.Err?)
    && (r.Ok? ==> |r.value| == |sd.signerInfos|)
  }

  lemma AssembledDecides(w: World, sd: SignedData, ops: seq<Op>, typ: bytes, data: bytes, known: set<Certificate>,
      opts: VerifyOptions, pool: set<Certificate>)
    requires Surroundings(w, ops, typ, data, known) && Assembled(w, sd, typ, data, known, ops)
    requires ChecksPass(w, sd, known, opts)
    ensures Decided(w, sd, ops, typ, data, known, VerifyContent(w, sd, data, opts, pool).result)
  {
    hide Surroundings, Assembled, ChecksPass, Acceptable, Telling, VerifyContent, AcceptedWithin;
    if VerifyContent(w, sd, data, opts, pool).result.Ok? {
      VerifiedAcceptable(w, sd, ops, typ, data, known, opts, pool);
      VerifySound(w, sd, data, opts, pool);
    }
    if |typ| != 32 && Acceptable(sd, known) {
      AcceptableVerifies(w, sd, ops, typ, data, known, opts, pool);
    }
  }

  // ---------------------------------------------------------------- in memory

  /** What the receiver does: Verify when the content came along, VerifyDetached when it did not. */
  function Answer(w: World, sd: SignedData, data: bytes, opts: VerifyOptions, pool: set<Certificate>)
      : CmsOutcome<seq<Chains>>
  {
    if sd.eci.content.Some? then Verify(w, sd, opts, pool).result else VerifyDetached(w, sd, data, opts, pool).result
  }

  function Finished(w: World, ops: seq<Op>, typ: bytes, data: bytes): SignedData {
    Run(w, NewSigned(NewEncapContent(typ, data)), ops)
  }

  lemma FinishedAssembled(w: World, ops: seq<Op>, typ: bytes, data: bytes, known: set<Certificate>)
    requires SessionSetting(w, ops, typ, data, known)
    ensures Assembled(w, Finished(w, ops, typ, data), typ, data, known, ops)
    ensures Consistent(w.crypto, Finished(w, ops, typ, data), typ, data)
  {
    hide ProperCertificate, CertRaw, SignerFrom, Run, GoodOp, Readable, Distinguishable, ValidOid, Sha256Length;
    RunAssembled(w, NewSigned(NewEncapContent(typ, data)), ops, typ, data, known, ops);
  }

  /** The content of a message with a signer is readable. */
  lemma SignerHasContent(w: World, sd: SignedData, ops: seq<Op>, typ: bytes, data: bytes, known: set<Certificate>)
    requires Surroundings(w, ops, typ, data, known) && Assembled(w, sd, typ, data, known, ops)
    requires sd.signerInfos != []
    ensures EContentValue(NewEncapContent(typ, data)) == Ok(Some(data))
  {
    hide ProperCertificate, CertRaw, Origin, CertsKnown, EContentValue, NewEncapContent, GoodOps, Distinguishable,
      ValidOid, Sha256Length;
    var si := sd.signerInfos[0];
    assert SignerFrom(w, si, typ, data, known, ops);
    var before, c, call :| AddSigner(call) in ops && Origin(w, si, before, c, call, typ, data, known);
    OriginSid(w, si, before, c, call, typ, data, known);
    NewContent(typ, data);
  }

  /** Whatever form the content has, its value is the original message. */
  lemma ConsistentValue(env: Crypto, sd: SignedData, typ: bytes, data: bytes)
    requires Consistent(env, sd, typ, data) && sd.eci.content.Some?
    ensures EContentValue(sd.eci) == EContentValue(NewEncapContent(typ, data))
  {
    hide OurSigner, SameContent, NewEncapContent, EContentValue;
    SameValue(sd.eci, typ, data);
  }

  /** The answer is that of verify on the original content, whichever form the message has. */
  lemma AnswerIsVerify(w: World, sd: SignedData, data: bytes, opts: VerifyOptions, pool: set<Certificate>)
    requires sd.signerInfos != [] && sd.eci.content.Some? ==> EContentValue(sd.eci) == Ok(Some(data))
    ensures sd.signerInfos != [] ==> Answer(w, sd, data, opts, pool) == VerifyContent(w, sd, data, opts, pool).result
    ensures sd.signerInfos == [] ==>
              Answer(w, sd, data, opts, pool).Err? && VerifyContent(w, sd, data, opts, pool).result.Err?
  {
    hide EContentValue, VerifySigners, X509Certificates, LargestSize;
    if sd.eci.content.Some? && EContentValue(sd.eci).Ok? && EContentValue(sd.eci).value.Some? {
      var econtent := EContentValue(sd.eci).value.value;
      assert Verify(w, sd, opts, pool) == VerifyContent(w, sd, econtent, opts, pool);
      assert sd.signerInfos == [] ==> VerifyContent(w, sd, econtent, opts, pool).result.Err?;
    }
  }

  lemma NoSignersDecided(w: World, sd: SignedData, ops: seq<Op>, typ: bytes, data: bytes, known: set<Certificate>,
      r: CmsOutcome<seq<Chains>>)
    requires sd.signerInfos == [] && r.Err?
    ensures Decided(w, sd, ops, typ, data, known, r)
  {
    hide Telling;
  }

  /**
   * For every sequence of calls and reloads: the message, attached or detached, verifies exactly when it has a
   * signer, every signer's certificate is among those set last, and no signer has two tokens,
   * provided the content type does not take 32 octets. With 32 octets it does not verify.
   */
  lemma SessionDecides(w: World, ops: seq<Op>, typ: bytes, data: bytes, known: set<Certificate>, opts: VerifyOptions,
      pool: set<Certificate>)
    requires SessionSetting(w, ops, typ, data, known) && ChecksPass(w, Finished(w, ops, typ, data), known, opts)
    ensures var sd := Finished(w, ops, typ, data);
            Decided(w, sd, ops, typ, data, known, Answer(w, sd, data, opts, pool))
  {
    hide Surroundings, Readable, Assembled, Consistent, Finished, ChecksPass, Decided, Answer, EContentValue,
      NewEncapContent, OurSigner, VerifyContent;
    var sd := Finished(w, ops, typ, data);
    FinishedAssembled(w, ops, typ, data, known);
    if sd.signerInfos != [] && sd.eci.content.Some? {
      SignerHasContent(w, sd, ops, typ, data, known);
      ConsistentValue(w.crypto, sd, typ, data);
    }
    AnswerIsVerify(w, sd, data, opts, pool);
    AssembledDecides(w, sd, ops, typ, data, known, opts, pool);
    if sd.signerInfos == [] {
      NoSignersDecided(w, sd, ops, typ, data, known, Answer(w, sd, data, opts, pool));
    }
  }

  // ---------------------------------------------------------------- through the wire

  lemma TokenWritable(w: World, sd: SignedData, si: SignerInfo, before: SignerInfo, a: Attribute)
    requires TokensFetched(w, before, si) && si in sd.signerInfos && a in UnsignedList(si) && |ToDer(sd)| < MAX_READABLE
    ensures WfAttribute(a) && IsDer(a.value.full)
  {
    hide FetchTs, WfAttribute, IsDer, Single, EncodeAttribute, ToDer, ParseSignedData, ParseInfo, CheckImprint,
      IsParsed, ValidOid;
    var x :| FetchTs(w.crypto, w.parseInfo, before, x) == Ok(a);
    TokenSmall(sd, si, a);
    TokenOidValid();
    var rv, tst, info := FetchedToken(w, before, x);
    SingleWritable(TIME_STAMP_TOKEN, rv);
  }

  lemma OriginWritable(w: World, sd: SignedData, si: SignerInfo, before: SignerInfo, c: Certificate, call: SignCall,
      typ: bytes, data: bytes, known: set<Certificate>)
    requires Origin(w, si, before, c, call, typ, data, known) && Sha256Length(w.crypto) && |data| < GO_INT_LIMIT
    requires ValidOid(typ) && |typ| < MAX_READABLE && si in sd.signerInfos && |ToDer(sd)| < MAX_READABLE
    ensures WfSigner(si) && DeepSigner(si)
  {
    hide ProperCertificate, MakeSigner, NewEncapContent, FetchTs, MadeShape, MarshaledForSigning,
      MarshaledForVerification, ValidOid, WfAttribute, IsDer, ToDer, WfAlg, DeepAlg, ValidInt64, IsParsed, ClockValue;
    var time := MadeParts(w.crypto, typ, data, c, call.signer, call.now);
    SignerWritable(w.crypto, before, c, typ, data, time);
    forall a | a in UnsignedList(si)
      ensures WfAttribute(a) && IsDer(a.value.full)
    {
      TokenWritable(w, sd, si, before, a);
    }
  }

  lemma AssembledWritable(w: World, sd: SignedData, ops: seq<Op>, typ: bytes, data: bytes, known: set<Certificate>)
    requires Surroundings(w, ops, typ, data, known) && Assembled(w, sd, typ, data, known, ops)
    requires Consistent(w.crypto, sd, typ, data) && |ToDer(sd)| < MAX_READABLE
    ensures WfSigned(sd) && DeepSigned(sd)
  {
    hide ProperCertificate, CertRaw, Origin, CertsKnown, NewEncapContent, OurSigner, GoodOps, Distinguishable,
      ValidOid, ToDer, IsDer, Completed, WfSigner, DeepSigner, WfEncap, WfAlg, DeepAlg, Sha256Length;
    OidsValid();
    CertsWritable(w.crypto, sd, known);
    if sd.eci.content.Some? {
      ContentWritable(sd, typ, data);
    } else {
      NoContentWritable(sd.eci);
    }
    forall si | si in sd.signerInfos
      ensures WfSigner(si) && DeepSigner(si)
    {
      assert SignerFrom(w, si, typ, data, known, ops);
      var before, c, call :| AddSigner(call) in ops && Origin(w, si, before, c, call, typ, data, known);
      OriginWritable(w, sd, si, before, c, call, typ, data, known);
    }
    assert WfAlg(DIGEST_ALGORITHM) && DeepAlg(DIGEST_ALGORITHM) by { DigestWritable(); }
  }

  lemma NoContentWritable(e: EncapContent)
    requires e.content.None? && ValidOid(e.typ)
    ensures WfEncap(e)
  {
    hide ValidOid;
  }

  lemma DigestWritable()
    ensures WfAlg(DIGEST_ALGORITHM) && DeepAlg(DIGEST_ALGORITHM)
  {
    hide ValidOid;
    OidsValid();
  }

  /** Sorting a signer's tokens changes no check. */
  lemma CanonSignerSame(si: SignerInfo)
    ensures var cn := CanonSigner(si);
            && cn == si.(unsignedAttrs := cn.unsignedAttrs)
            && |UnsignedList(cn)| == |UnsignedList(si)|
            && (cn.unsignedAttrs.Some? <==> si.unsignedAttrs.Some?)
            && (forall a :: a in UnsignedList(cn) <==> a in UnsignedList(si))
            && (|UnsignedList(si)| <= 1 ==> cn == si)
  {
    hide EncodeAttribute;
    if si.unsignedAttrs.Some? {
      var list := si.unsignedAttrs.value;
      forall a
        ensures a in SortBy(list, EncodeAttribute) <==> a in list
      {
        SortByMember(list, EncodeAttribute, a);
      }
      if |list| == 1 {
        assert list == [list[0]] && list[..0] == [];
      }
    }
  }

  lemma CanonFrom(w: World, si: SignerInfo, typ: bytes, data: bytes, known: set<Certificate>, ops: seq<Op>)
    requires SignerFrom(w, si, typ, data, known, ops)
    ensures SignerFrom(w, CanonSigner(si), typ, data, known, ops)
  {
    hide ProperCertificate, MakeSigner, NewEncapContent, FetchTs, CanonSigner;
    CanonSignerSame(si);
    var before, c, call :| AddSigner(call) in ops && Origin(w, si, before, c, call, typ, data, known);
    var cn := CanonSigner(si);
    assert TokensFetched(w, before, cn) by {
      forall a | a in UnsignedList(cn)
        ensures exists x :: FetchTs(w.crypto, w.parseInfo, before, x) == Ok(a)
      {
        assert a in UnsignedList(si);
      }
    }
    assert Origin(w, cn, before, c, call, typ, data, known);
  }

  /** The signers of the canonical message are those of the original one, each with its tokens sorted. */
  lemma CanonSigners(sd: SignedData)
    ensures |Canon(sd).signerInfos| == |sd.signerInfos|
    ensures forall si :: si in sd.signerInfos ==> CanonSigner(si) in Canon(sd).signerInfos
    ensures forall cn :: cn in Canon(sd).signerInfos ==> exists si :: si in sd.signerInfos && CanonSigner(si) == cn
  {
    hide CanonSigner, SortBy, SignerKey;
    var sorted := SortBy(sd.signerInfos, SignerKey);
    forall si | si in sd.signerInfos
      ensures CanonSigner(si) in Canon(sd).signerInfos
    {
      SortByMember(sd.signerInfos, SignerKey, si);
      var i :| 0 <= i < |sorted| && sorted[i] == si;
      assert Canon(sd).signerInfos[i] == CanonSigner(si);
    }
    forall cn | cn in Canon(sd).signerInfos
      ensures exists si :: si in sd.signerInfos && CanonSigner(si) == cn
    {
      var i :| 0 <= i < |sorted| && CanonSigner(sorted[i]) == cn;
      SortByMember(sd.signerInfos, SignerKey, sorted[i]);
    }
  }

  lemma CanonSame(sd: SignedData, known: set<Certificate>)
    ensures CertsOf(Canon(sd), known) == CertsOf(sd, known)
    ensures Acceptable(Canon(sd), known) <==> Acceptable(sd, known)
  {
    hide CertRaw, Canon, CanonSigner, CertPresent, CertList;
    CanonCerts(sd);
    CanonSigners(sd);
    forall si | si in sd.signerInfos
      ensures CertPresent(CanonSigner(si), CertList(Canon(sd)), known) <==> CertPresent(si, CertList(sd), known)
      ensures |UnsignedList(CanonSigner(si))| == |UnsignedList(si)| && CanonSigner(si) in Canon(sd).signerInfos
    {
      CanonSignerSame(si);
      SamePresence(CanonSigner(si), si, CertList(Canon(sd)), CertList(sd), known);
    }
    forall cn | cn in Canon(sd).signerInfos
      ensures exists si :: si in sd.signerInfos && CanonSigner(si) == cn
    {
    }
  }

  lemma SamePresence(a: SignerInfo, b: SignerInfo, x: seq<RawValue>, y: seq<RawValue>, known: set<Certificate>)
    requires a.sid == b.sid && forall rv :: rv in x <==> rv in y
    ensures CertPresent(a, x, known) <==> CertPresent(b, y, known)
  {
    hide CertRaw, NewSid;
  }

  lemma CanonAssembled(w: World, sd: SignedData, ops: seq<Op>, typ: bytes, data: bytes, known: set<Certificate>)
    requires Assembled(w, sd, typ, data, known, ops)
    ensures Assembled(w, Canon(sd), typ, data, known, ops)
  {
    hide ProperCertificate, CertRaw, SignerFrom, CanonSigner, SortBy, CanonEncap, Completed, SignerKey;
    CanonType(sd.eci);
    CanonCerts(sd);
    CanonSigners(sd);
    forall cn | cn in Canon(sd).signerInfos
      ensures SignerFrom(w, cn, typ, data, known, ops)
    {
      var si :| si in sd.signerInfos && CanonSigner(si) == cn;
      CanonFrom(w, si, typ, data, known, ops);
    }
  }

  lemma CanonChecks(w: World, sd: SignedData, known: set<Certificate>, opts: VerifyOptions)
    requires ChecksPass(w, sd, known, opts)
    ensures ChecksPass(w, Canon(sd), known, opts)
  {
    hide Canon, CertRaw, CanonSigner, SignerPasses, NewSid, CertsOf;
    CanonSigners(sd);
    CanonSame(sd, known);
    forall cn, c | cn in Canon(sd).signerInfos && c in known && NewSid(c) == Ok(cn.sid)
      ensures SignerPasses(w, cn, c, opts, CertsOf(Canon(sd), known))
    {
      var si :| si in sd.signerInfos && CanonSigner(si) == cn;
      CanonSignerSame(si);
      CanonPasses(w, si, c, opts, CertsOf(sd, known));
    }
  }

  lemma CanonPasses(w: World, si: SignerInfo, c: Certificate, opts: VerifyOptions, base: set<Certificate>)
    requires SignerPasses(w, si, c, opts, base)
    ensures SignerPasses(w, CanonSigner(si), c, opts, base)
  {
    hide CanonSigner, TokenAccepted, ChainAccepts;
    CanonSignerSame(si);
  }

  /** The same for what comes out of ToDER and goes through ParseSignedData. */
  lemma ParsedSessionDecides(w: World, ops: seq<Op>, typ: bytes, data: bytes, known: set<Certificate>,
      opts: VerifyOptions, pool: set<Certificate>)
    requires SessionSetting(w, ops, typ, data, known) && ChecksPass(w, Finished(w, ops, typ, data), known, opts)
    requires |ToDer(Finished(w, ops, typ, data))| < MAX_READABLE
    ensures var sd := Finished(w, ops, typ, data);
            var parsed := ParseSignedData(ToDer(sd));
            parsed.Ok? && Decided(w, sd, ops, typ, data, known, Answer(w, parsed.value, data, opts, pool))
  {
    hide Surroundings, Readable, Assembled, Consistent, Finished, ChecksPass, Acceptable, Answer, EContentValue,
      NewEncapContent, OurSigner, VerifyContent, ToDer, ParseSignedData, Canon, WfSigned, DeepSigned, Telling;
    var sd := Finished(w, ops, typ, data);
    var cn := Canon(sd);
    FinishedAssembled(w, ops, typ, data, known);
    AssembledWritable(w, sd, ops, typ, data, known);
    ParseAfterToDer(sd);
    CanonAssembled(w, sd, ops, typ, data, known);
    CanonChecks(w, sd, known, opts);
    CanonSame(sd, known);
    CanonSigners(sd);
    CanonValue(sd);
    CanonDetached(sd);
    if cn.signerInfos != [] && sd.eci.content.Some? {
      SignerHasContent(w, cn, ops, typ, data, known);
      ConsistentValue(w.crypto, sd, typ, data);
    }
    AnswerIsVerify(w, cn, data, opts, pool);
    AssembledDecides(w, cn, ops, typ, data, known, opts, pool);
  }
}
