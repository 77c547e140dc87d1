/** Sign, marshal, parse and verify, over every run of AddSignerInfo calls. */
module EndToEnd {
  import opened Bytes
  import opened Lengths
  import opened NormalForm
  import opened Order
  import opened Asn1
  import opened Attributes
  import opened Cms
  import opened WireProofs
  import opened Environment
  import opened Timestamp
  import opened Signing
  import opened Verification
  import opened SignVerify

  datatype SignCall = SignCall(chain: seq<Certificate>, signer: Signer, now: Clock)

  /** The state after a sequence of AddSignerInfo calls, failed ones included. */
  function SignAll(env: Crypto, sd: SignedData, calls: seq<SignCall>): SignedData
    decreases |calls|
  {
    if calls == [] then sd
    else SignAll(env, AddSignerInfo(env, sd, calls[0].chain, calls[0].signer, calls[0].now).sd, calls[1..])
  }

  /** How many of the calls succeed. */
  function Successes(env: Crypto, sd: SignedData, calls: seq<SignCall>): nat
    decreases |calls|
  {
    if calls == [] then 0
    else
      var step := AddSignerInfo(env, sd, calls[0].chain, calls[0].signer, calls[0].now);
      (if step.error.None? then 1 else 0) + Successes(env, step.sd, calls[1..])
  }

  // ---------------------------------------------------------------- adding certificates

  /** Everything but the certificates is the same. */
  predicate SameButCerts(a: SignedData, b: SignedData) {
    a == b.(certs := a.certs)
  }

  /** Each raw certificate in the message is one of the known ones. */
  ghost predicate CertsKnown(env: Crypto, raws: seq<RawValue>, known: set<Certificate>) {
    forall rv :: rv in raws ==> exists c :: c in known && ProperCertificate(env, c) && CertRaw(c) == rv
  }

  lemma CertificateAdded(env: Crypto, sd: SignedData, cert: Certificate, known: set<Certificate>)
    requires CertsKnown(env, CertList(sd), known) && cert in known && ProperCertificate(env, cert)
    ensures var step := AddCertificate(sd, cert);
            && SameButCerts(step.sd, sd)
            && CertsKnown(env, CertList(step.sd), known)
            && (forall rv :: rv in CertList(sd) ==> rv in CertList(step.sd))
            && (step.error.None? ==> CertRaw(cert) in CertList(step.sd))
  {
    hide Unmarshal, IsDer, ValidInteger;
  }

  /** The loop of AddSignerInfo over the chain touches only the certificates. */
  lemma {:induction false} ChainAdded(env: Crypto, sd: SignedData, chain: seq<Certificate>, pub: bytes,
      leaf: Option<Certificate>, known: set<Certificate>)
    requires CertsKnown(env, CertList(sd), known)
    requires forall c :: c in chain ==> c in known && ProperCertificate(env, c)
    requires leaf.Some? ==> leaf.value in known && ProperCertificate(env, leaf.value)
                            && leaf.value.pub == Some(pub) && CertRaw(leaf.value) in CertList(sd)
    ensures var r := AddChain(sd, chain, pub, leaf);
            && SameButCerts(r.sd, sd)
            && CertsKnown(env, CertList(r.sd), known)
            && (forall rv :: rv in CertList(sd) ==> rv in CertList(r.sd))
            && (r.leaf.Ok? && r.leaf.value.Some? ==>
                  && r.leaf.value.value in known && ProperCertificate(env, r.leaf.value.value)
                  && r.leaf.value.value.pub == Some(pub) && CertRaw(r.leaf.value.value) in CertList(r.sd))
    decreases |chain|
  {
    hide ProperCertificate, CertRaw, AddCertificate, CertsKnown, CertList;
    if chain == [] {
    } else {
      CertificateAdded(env, sd, chain[0], known);
      var added := AddCertificate(sd, chain[0]);
      if added.error.None? && chain[0].pub.Some? {
        var next := if chain[0].pub.value == pub then Some(chain[0]) else leaf;
        ChainAdded(env, added.sd, chain[1..], pub, next, known);
      }
    }
  }

  // ---------------------------------------------------------------- the state of a signing run

  /** A signer of ours whose certificate is in the message. */
  ghost predicate SignerKnown(env: Crypto, si: SignerInfo, raws: seq<RawValue>, typ: bytes, data: bytes,
      known: set<Certificate>)
  {
    && si.unsignedAttrs.None?
    && exists c, time ::
         c in known && ProperCertificate(env, c) && CertRaw(c) in raws && SignedBy(env, si, c, typ, data, time)
  }

  /** What verification of `data` needs of a message; it does not look at any order. */
  ghost predicate Ready(env: Crypto, sd: SignedData, typ: bytes, data: bytes, known: set<Certificate>) {
    && sd.eci.typ == typ
    && CertsKnown(env, CertList(sd), known)
    && forall si :: si in sd.signerInfos ==> SignerKnown(env, si, CertList(sd), typ, data, known)
  }

  ghost predicate GoodCall(env: Crypto, call: SignCall, known: set<Certificate>) {
    Correct(env, call.signer) && forall c :: c in call.chain ==> c in known && ProperCertificate(env, c)
  }

  ghost predicate GoodCalls(env: Crypto, calls: seq<SignCall>, known: set<Certificate>) {
    forall i :: 0 <= i < |calls| ==> GoodCall(env, calls[i], known)
  }

  lemma MoreCertsKnown(env: Crypto, si: SignerInfo, raws: seq<RawValue>, more: seq<RawValue>, typ: bytes, data: bytes,
      known: set<Certificate>)
    requires SignerKnown(env, si, raws, typ, data, known) && (forall rv :: rv in raws ==> rv in more)
    ensures SignerKnown(env, si, more, typ, data, known)
  {
    hide ProperCertificate, CertRaw, SignedBy;
    var c, time :| c in known && ProperCertificate(env, c) && CertRaw(c) in raws
        && SignedBy(env, si, c, typ, data, time);
    assert CertRaw(c) in more;
  }

  /** The rest of the state of a run. */
  predicate Fresh(sd: SignedData, typ: bytes, data: bytes) {
    && sd.eci == NewEncapContent(typ, data)
    && sd.version == (if typ == DATA then VERSION_1 else VERSION_3)
    && sd.crls.None?
    && forall a :: a in sd.digestAlgs ==> a == DIGEST_ALGORITHM
  }

  /** A signer that one of the calls made with the key of a certificate in the message. */
  ghost predicate SignerMade(env: Crypto, si: SignerInfo, raws: seq<RawValue>, typ: bytes, data: bytes,
      known: set<Certificate>, calls: seq<SignCall>)
  {
    exists c, call :: call in calls && MadeWith(env, si, raws, typ, data, known, c, call)
  }

  ghost predicate MadeWith(env: Crypto, si: SignerInfo, raws: seq<RawValue>, typ: bytes, data: bytes,
      known: set<Certificate>, c: Certificate, call: SignCall)
  {
    && c in known && ProperCertificate(env, c) && CertRaw(c) in raws
    && c.pub.Some? && c.pub == call.signer.pub
    && MakeSigner(env, NewEncapContent(typ, data), c, call.signer, call.now) == Ok(si)
  }

  /** The state of a signing run, for every content type. */
  ghost predicate Built(env: Crypto, sd: SignedData, typ: bytes, data: bytes, known: set<Certificate>,
      calls: seq<SignCall>)
  {
    && sd.eci.typ == typ
    && CertsKnown(env, CertList(sd), known)
    && forall si :: si in sd.signerInfos ==> SignerMade(env, si, CertList(sd), typ, data, known, calls)
  }

  lemma MoreCertsMade(env: Crypto, si: SignerInfo, raws: seq<RawValue>, more: seq<RawValue>, typ: bytes, data: bytes,
      known: set<Certificate>, calls: seq<SignCall>)
    requires SignerMade(env, si, raws, typ, data, known, calls) && (forall rv :: rv in raws ==> rv in more)
    ensures SignerMade(env, si, more, typ, data, known, calls)
  {
    hide ProperCertificate, CertRaw, MakeSigner, NewEncapContent;
    var c, call :| call in calls && MadeWith(env, si, raws, typ, data, known, c, call);
    assert MadeWith(env, si, more, typ, data, known, c, call);
  }

  lemma CallKeepsBuilt(env: Crypto, sd: SignedData, call: SignCall, typ: bytes, data: bytes, known: set<Certificate>,
      calls: seq<SignCall>)
    requires GoodCall(env, call, known) && call in calls
    requires Built(env, sd, typ, data, known, calls) && Fresh(sd, typ, data)
    ensures var step := AddSignerInfo(env, sd, call.chain, call.signer, call.now);
            && Built(env, step.sd, typ, data, known, calls) && Fresh(step.sd, typ, data)
            && |step.sd.signerInfos| == |sd.signerInfos| + (if step.error.None? then 1 else 0)
  {
    hide ProperCertificate, CertRaw, CertsKnown, NewEncapContent, Correct, AddChain, MakeSigner, SignerMade, CertList;
    if call.signer.pub.Some? {
      var pub := call.signer.pub.value;
      ChainAdded(env, sd, call.chain, pub, None, known);
      var added := AddChain(sd, call.chain, pub, None);
      forall si | si in sd.signerInfos
        ensures SignerMade(env, si, CertList(added.sd), typ, data, known, calls)
      {
        MoreCertsMade(env, si, CertList(sd), CertList(added.sd), typ, data, known, calls);
      }
      if added.leaf.Ok? && added.leaf.value.Some? {
        var cert := added.leaf.value.value;
        var made := MakeSigner(env, added.sd.eci, cert, call.signer, call.now);
        if made.Ok? {
          assert MadeWith(env, made.value, CertList(added.sd), typ, data, known, cert, call);
          NewSignerMade(env, made.value, cert, call, CertList(added.sd), typ, data, known, calls);
          MadeDigest(env, added.sd.eci, cert, call.signer, call.now);
          SameList(added.sd, AddSignerInfo(env, sd, call.chain, call.signer, call.now).sd);
        }
      }
    }
  }

  lemma NewSignerMade(env: Crypto, si: SignerInfo, c: Certificate, call: SignCall, raws: seq<RawValue>, typ: bytes,
      data: bytes, known: set<Certificate>, calls: seq<SignCall>)
    requires call in calls && MadeWith(env, si, raws, typ, data, known, c, call)
    ensures SignerMade(env, si, raws, typ, data, known, calls)
  {
    hide MadeWith;
  }

  lemma MadeDigest(env: Crypto, eci: EncapContent, cert: Certificate, signer: Signer, now: Clock)
    requires MakeSigner(env, eci, cert, signer, now).Ok?
    ensures MakeSigner(env, eci, cert, signer, now).value.digestAlg == DIGEST_ALGORITHM
  {
    hide NewSid, EContentValue, BuildAttributes, MarshaledForSigning, SignatureOid, AvailableHash;
  }

  lemma SameList(a: SignedData, b: SignedData)
    requires a.certs == b.certs
    ensures CertList(a) == CertList(b)
  {
  }

  /** The state after a run, whatever the content type. */
  lemma {:induction false} RunBuilt(env: Crypto, sd: SignedData, calls: seq<SignCall>, typ: bytes, data: bytes,
      known: set<Certificate>, all: seq<SignCall>)
    requires GoodCalls(env, calls, known) && forall i :: 0 <= i < |calls| ==> calls[i] in all
    requires Built(env, sd, typ, data, known, all) && Fresh(sd, typ, data)
    ensures var end := SignAll(env, sd, calls);
            && Built(env, end, typ, data, known, all) && Fresh(end, typ, data)
            && |end.signerInfos| == |sd.signerInfos| + Successes(env, sd, calls)
    decreases |calls|
  {
    hide Built, Fresh, GoodCall, AddSignerInfo;
    if calls == [] {
    } else {
      CallKeepsBuilt(env, sd, calls[0], typ, data, known, all);
      var step := AddSignerInfo(env, sd, calls[0].chain, calls[0].signer, calls[0].now);
      assert GoodCalls(env, calls[1..], known);
      RunBuilt(env, step.sd, calls[1..], typ, data, known, all);
    }
  }

  lemma StartBuilt(env: Crypto, typ: bytes, data: bytes, known: set<Certificate>, calls: seq<SignCall>)
    ensures var sd := NewSigned(NewEncapContent(typ, data));
            Built(env, sd, typ, data, known, calls) && Fresh(sd, typ, data)
  {
    hide ProperCertificate, CertRaw, SignerMade;
  }

  /** For content types of other than 32 octets every signer made is a valid one. */
  lemma BuiltReady(env: Crypto, sd: SignedData, typ: bytes, data: bytes, known: set<Certificate>, calls: seq<SignCall>)
    requires Sha256Length(env) && GoodCalls(env, calls, known)
    requires |data| < GO_INT_LIMIT && |typ| < MAX_READABLE && |typ| != 32
    requires Built(env, sd, typ, data, known, calls)
    ensures Ready(env, sd, typ, data, known)
  {
    hide ProperCertificate, CertRaw, CertsKnown, NewEncapContent, Correct, MakeSigner, SignerKnown, SignedBy;
    forall si | si in sd.signerInfos
      ensures SignerKnown(env, si, CertList(sd), typ, data, known)
    {
      assert SignerMade(env, si, CertList(sd), typ, data, known, calls);
      var c, call :| call in calls && MadeWith(env, si, CertList(sd), typ, data, known, c, call);
      assert GoodCall(env, call, known);
      ProperRead(env, c);
      var time := MadeSigner(env, typ, data, c, call.signer, call.now);
      NewSignerKnown(env, si, c, CertList(sd), typ, data, time, known);
    }
  }

  lemma NewSignerKnown(env: Crypto, si: SignerInfo, c: Certificate, raws: seq<RawValue>, typ: bytes, data: bytes,
      time: RawValue, known: set<Certificate>)
    requires c in known && ProperCertificate(env, c) && CertRaw(c) in raws && SignedBy(env, si, c, typ, data, time)
    requires si.unsignedAttrs.None?
    ensures SignerKnown(env, si, raws, typ, data, known)
  {
    hide ProperCertificate, CertRaw, SignedBy;
  }

  // ---------------------------------------------------------------- ready messages verify

  /** The known certificates that are in the message. */
  ghost function CertsOf(sd: SignedData, known: set<Certificate>): set<Certificate> {
    set c | c in known && CertRaw(c) in CertList(sd)
  }

  lemma ProperParses(env: Crypto, c: Certificate)
    requires ProperCertificate(env, c)
    ensures CertRaw(c).id == SEQUENCE && CertRaw(c).full == c.raw && env.parseCertificate(CertRaw(c).full) == Some(c)
    ensures IsParsed(CertRaw(c)) && IsDer(CertRaw(c).full)
  {
    hide Unmarshal, IsDer, IsParsed, ValidInteger;
    OwnTlvNoCopy(c.raw, CertRaw(c));
  }

  lemma {:induction false} CertsParse(env: Crypto, raws: seq<RawValue>, known: set<Certificate>)
    requires CertsKnown(env, raws, known)
    ensures ParseAll(env, raws).Ok?
    ensures forall c :: c in ParseAll(env, raws).value ==> c in known && CertRaw(c) in raws
    ensures forall c :: c in known && ProperCertificate(env, c) && CertRaw(c) in raws ==> c in ParseAll(env, raws).value
  {
    hide ProperCertificate, CertRaw;
    if raws == [] {
    } else {
      assert raws[0] in raws;
      var c0 :| c0 in known && ProperCertificate(env, c0) && CertRaw(c0) == raws[0];
      ProperParses(env, c0);
      forall rv | rv in raws[1..]
        ensures exists c :: c in known && ProperCertificate(env, c) && CertRaw(c) == rv
      {
        assert rv in raws;
      }
      CertsParse(env, raws[1..], known);
      forall c | c in known && ProperCertificate(env, c) && CertRaw(c) in raws
        ensures c in ParseAll(env, raws).value
      {
        if CertRaw(c) == raws[0] {
          ProperParses(env, c);
        } else {
          assert CertRaw(c) in raws[1..];
        }
      }
    }
  }

  /** The chain check accepts every known signer, given the certificates of the message. */
  ghost predicate ChainsAccepted(env: Crypto, sd: SignedData, known: set<Certificate>, opts: VerifyOptions) {
    forall c :: c in known ==> ChainAccepts(env, c, opts, CertsOf(sd, known))
  }

  lemma ReadyVerifies(w: World, sd: SignedData, typ: bytes, data: bytes, known: set<Certificate>, opts: VerifyOptions,
      pool: set<Certificate>)
    requires Sha256Length(w.crypto) && ValidOid(typ) && |typ| < MAX_READABLE
    requires Ready(w.crypto, sd, typ, data, known) && sd.signerInfos != []
    requires Distinguishable(known) && ChainsAccepted(w.crypto, sd, known, opts)
    requires forall c :: c in known ==> ProperCertificate(w.crypto, c)
    ensures var v := VerifyContent(w, sd, data, opts, pool);
            v.result.Ok? && |v.result.value| == |sd.signerInfos|
  {
    hide ProperCertificate, CertRaw, SignedBy, Distinguishable, CheckSigner, VerifySigners, ParseAll, Sha256Length,
      ValidOid, CertsKnown, LargestSize;
    var env := w.crypto;
    CertsParse(env, CertList(sd), known);
    var certs := ParseAll(env, CertList(sd)).value;
    forall si | si in sd.signerInfos
      ensures si.unsignedAttrs.None? && CheckSigner(env, si, certs, typ, data).Ok?
      ensures env.verifyChain(CheckSigner(env, si, certs, typ, data).value, opts, pool + AsSet(certs)).Some?
    {
      assert SignerKnown(env, si, CertList(sd), typ, data, known);
      var c, time :| c in known && ProperCertificate(env, c) && CertRaw(c) in CertList(sd)
          && SignedBy(env, si, c, typ, data, time);
      SignerChecks(env, si, c, typ, data, time, certs, known);
      assert CertsOf(sd, known) <= pool + AsSet(certs);
      assert ChainAccepts(env, c, opts, CertsOf(sd, known));
    }
    PlainSignersVerify(w, sd.signerInfos, certs, typ, data, opts, pool + AsSet(certs));
  }

  // ---------------------------------------------------------------- through the wire

  lemma PlainSignerCanon(si: SignerInfo)
    requires si.unsignedAttrs.None?
    ensures CanonSigner(si) == si
  {
  }

  lemma SortByMember<T>(xs: seq<T>, key: T -> bytes, x: T)
    ensures x in SortBy(xs, key) <==> x in xs
  {
    hide SortBy;
    SortByKeys(xs, key);
    assert x in SortBy(xs, key) <==> x in multiset(SortBy(xs, key));
    assert x in xs <==> x in multiset(xs);
  }

  /** DER order changes nothing that verification looks at. */
  lemma ReadyCanon(env: Crypto, sd: SignedData, typ: bytes, data: bytes, known: set<Certificate>)
    requires Ready(env, sd, typ, data, known)
    ensures var c := Canon(sd);
            && Ready(env, c, typ, data, known)
            && |c.signerInfos| == |sd.signerInfos|
            && CertsOf(c, known) == CertsOf(sd, known)
  {
    hide ProperCertificate, CertRaw, SignedBy, SortBy, CanonSigner, CanonEncap, Completed;
    var cn := Canon(sd);
    CanonType(sd.eci);
    forall rv
      ensures rv in CertList(cn) <==> rv in CertList(sd)
    {
      if sd.certs.Some? {
        SortByMember(sd.certs.value, RawKey, rv);
      }
    }
    var sorted := SortBy(sd.signerInfos, SignerKey);
    forall si | si in cn.signerInfos
      ensures SignerKnown(env, si, CertList(cn), typ, data, known)
    {
      var i :| 0 <= i < |sorted| && CanonSigner(sorted[i]) == si;
      SortByMember(sd.signerInfos, SignerKey, sorted[i]);
      PlainSignerCanon(sorted[i]);
      MoreCertsKnown(env, si, CertList(sd), CertList(cn), typ, data, known);
    }
  }

  lemma CanonType(e: EncapContent)
    ensures CanonEncap(e).typ == e.typ
  {
  }

  lemma CanonContent(e: EncapContent)
    ensures EContentValue(CanonEncap(e)) == EContentValue(e)
  {
    hide Unmarshal, JoinChunks;
  }
}
