/**
 * The program's own way through the library: sign, detach, timestamp, set the certificates, write
 * (command_sign.go:56-87); parse and verify (command_verify.go).
 */
module CommandSign {
  import opened Bytes
  import opened Lengths
  import opened Order
  import opened Asn1
  import opened Attributes
  import opened Cms
  import opened Environment
  import opened Timestamp
  import opened Signing
  import opened VerifySoundness
  import opened SignVerify
  import opened EndToEnd
  import opened Tokens
  import opened Runs
  import opened Sessions
  import opened IncludeCerts
  import opened Verification

  /** One signature with the identity's certificate, then what the flags ask for, then its chain. */
  function CommandOps(cert: Certificate, signer: Signer, now: Clock, detach: bool, stamps: Option<seq<Exchange>>,
      chain: seq<Certificate>): seq<Op>
  {
    [AddSigner(SignCall([cert], signer, now))]
    + (if detach then [RemoveContent] else [])
    + (if stamps.Some? then [Stamp(stamps.value)] else [])
    + [SetCertificates(chain)]
  }

  /** The program stops at the first error, so only such sequences leave an output. */
  predicate AllSucceed(w: World, sd: SignedData, ops: seq<Op>)
    decreases |ops|
  {
    ops == [] || (Apply(w, sd, ops[0]).error.None? && AllSucceed(w, Apply(w, sd, ops[0]).sd, ops[1..]))
  }

  lemma {:induction false} RunSplit(w: World, sd: SignedData, a: seq<Op>, b: seq<Op>)
    ensures Run(w, sd, a + b) == Run(w, Run(w, sd, a), b)
    ensures AllSucceed(w, sd, a + b) <==> AllSucceed(w, sd, a) && AllSucceed(w, Run(w, sd, a), b)
    decreases |a|
  {
    hide Apply;
    if a == [] {
      assert [] + b == b;
    } else {
      assert (a + b)[0] == a[0] && (a + b)[1..] == a[1..] + b;
      RunSplit(w, Apply(w, sd, a[0]).sd, a[1..], b);
    }
  }

  lemma RunOne(w: World, sd: SignedData, op: Op)
    ensures Run(w, sd, [op]) == Apply(w, sd, op).sd
    ensures AllSucceed(w, sd, [op]) <==> Apply(w, sd, op).error.None?
  {
    hide Apply;
    assert [op][1..] == [];
  }

  /** The one signer of the message, named by its certificate, with a token or without. */
  ghost predicate OneSigner(sd: SignedData, cert: Certificate, tokens: nat) {
    && |sd.signerInfos| == 1
    && NewSid(cert) == Ok(sd.signerInfos[0].sid)
    && |UnsignedList(sd.signerInfos[0])| == tokens
  }

  lemma SignedOnce(w: World, cert: Certificate, signer: Signer, now: Clock, data: bytes)
    requires Apply(w, NewSigned(NewEncapContent(DATA, data)), AddSigner(SignCall([cert], signer, now))).error.None?
    ensures var step := Apply(w, NewSigned(NewEncapContent(DATA, data)), AddSigner(SignCall([cert], signer, now)));
            OneSigner(step.sd, cert, 0)
  {
    hide AddCertificate, NewSid, MakeSigner, NewEncapContent;
    var sd := NewSigned(NewEncapContent(DATA, data));
    var pub := signer.pub.value;
    var added := AddCertificate(sd, cert);
    CertificateOnly(sd, cert);
    OneInChain(sd, cert, pub);
    MadeNames(w.crypto, added.sd.eci, cert, signer, now);
  }

  lemma OneInChain(sd: SignedData, cert: Certificate, pub: bytes)
    ensures var r := AddChain(sd, [cert], pub, None);
            && r.sd == AddCertificate(sd, cert).sd
            && (r.leaf.Ok? && r.leaf.value.Some? ==> r.leaf.value.value == cert)
  {
    hide AddCertificate;
    assert [cert][1..] == [];
  }

  lemma MadeNames(env: Crypto, eci: EncapContent, cert: Certificate, signer: Signer, now: Clock)
    ensures var made := MakeSigner(env, eci, cert, signer, now);
            made.Ok? ==> NewSid(cert) == Ok(made.value.sid) && UnsignedList(made.value) == []
  {
    hide NewSid, EContentValue, SignatureOid, AvailableHash, BuildAttributes, MarshaledForSigning;
  }

  lemma StampedOnce(w: World, sd: SignedData, xs: seq<Exchange>, cert: Certificate)
    requires OneSigner(sd, cert, 0) && Apply(w, sd, Stamp(xs)).error.None?
    ensures OneSigner(Apply(w, sd, Stamp(xs)).sd, cert, 1)
  {
    hide AddTimestamps, NewSid;
    AllOrNothing(w, sd, xs);
    assert OneMoreToken(sd.signerInfos[0], Apply(w, sd, Stamp(xs)).sd.signerInfos[0]);
  }

  lemma OneAdded(sd: SignedData, cert: Certificate)
    requires AddCertificate(sd, cert).error.None?
    ensures CertList(AddCertificate(sd, cert).sd) == CertList(sd) + [CertRaw(cert)]
  {
    hide Unmarshal;
  }

  /** A list that was set without an error is exactly what the message holds. */
  lemma {:induction false} ChainSet(sd: SignedData, chain: seq<Certificate>)
    requires AddCertificates(sd, chain).error.None?
    ensures CertList(AddCertificates(sd, chain).sd) == CertList(sd) + Mapped(chain, CertRaw)
    decreases |chain|
  {
    hide AddCertificate, CertRaw, CertList, Mapped;
    if chain == [] {
      assert Mapped(chain, CertRaw) == [] by { NothingMapped(CertRaw); }
    } else {
      var first := AddCertificate(sd, chain[0]);
      OneAdded(sd, chain[0]);
      ChainSet(first.sd, chain[1..]);
      MappedHead(chain, CertRaw);
      MappedTail(chain, CertRaw);
      assert Mapped(chain, CertRaw) == [CertRaw(chain[0])] + Mapped(chain, CertRaw)[1..];
    }
  }

  lemma NothingMapped<T, U>(f: T -> U)
    ensures Mapped([], f) == []
  {
  }

  lemma MappedHead<T, U>(xs: seq<T>, f: T -> U)
    requires xs != []
    ensures |Mapped(xs, f)| == |xs| && Mapped(xs, f)[0] == f(xs[0])
  {
  }

  lemma SetCertificatesKeeps(w: World, sd: SignedData, chain: seq<Certificate>)
    requires Apply(w, sd, SetCertificates(chain)).error.None?
    ensures var done := Apply(w, sd, SetCertificates(chain)).sd;
            done.signerInfos == sd.signerInfos && CertList(done) == Mapped(chain, CertRaw)
  {
    hide AddCertificates, CertRaw;
    ChainSet(sd.(certs := Some([])), chain);
    CertificatesOnly(sd.(certs := Some([])), chain);
  }

  lemma RawTellsCertificate(env: Crypto, c: Certificate, d: Certificate)
    requires ProperCertificate(env, c) && ProperCertificate(env, d) && CertRaw(c) == CertRaw(d)
    ensures c == d
  {
    hide ProperCertificate, CertRaw;
    ProperParses(env, c);
    ProperParses(env, d);
  }

  function StampedIf(w: World, sd: SignedData, stamps: Option<seq<Exchange>>): Step {
    match stamps
    case None => Step(sd, None)
    case Some(xs) => Apply(w, sd, Stamp(xs))
  }

  /** The operations one after the other. */
  lemma CommandSteps(w: World, start: SignedData, cert: Certificate, signer: Signer, now: Clock, detach: bool,
      stamps: Option<seq<Exchange>>, chain: seq<Certificate>)
    ensures var ops := CommandOps(cert, signer, now, detach, stamps, chain);
            var signed := Apply(w, start, AddSigner(SignCall([cert], signer, now)));
            var stamped := StampedIf(w, if detach then Detach(signed.sd) else signed.sd, stamps);
            var done := Apply(w, stamped.sd, SetCertificates(chain));
            && Run(w, start, ops) == done.sd
            && (AllSucceed(w, start, ops) <==> signed.error.None? && stamped.error.None? && done.error.None?)
  {
    hide AddSignerInfo, ReplaceCertificates, AddTimestamps, Run, AllSucceed;
    var first := [AddSigner(SignCall([cert], signer, now))];
    var second := if detach then [RemoveContent] else [];
    var third := if stamps.Some? then [Stamp(stamps.value)] else [];
    RunSplit(w, start, first + second + third, [SetCertificates(chain)]);
    RunSplit(w, start, first + second, third);
    RunSplit(w, start, first, second);
    RunOne(w, start, first[0]);
    var signed := Run(w, start, first);
    RunNothing(w, signed);
    RunOne(w, signed, RemoveContent);
    var kept := Run(w, signed, second);
    RunNothing(w, kept);
    if stamps.Some? {
      RunOne(w, kept, third[0]);
    }
    RunOne(w, Run(w, kept, third), SetCertificates(chain));
  }

  lemma RunNothing(w: World, sd: SignedData)
    ensures Run(w, sd, []) == sd && AllSucceed(w, sd, [])
  {
  }

  lemma CommandState(w: World, cert: Certificate, signer: Signer, now: Clock, detach: bool,
      stamps: Option<seq<Exchange>>, chain: seq<Certificate>, data: bytes)
    requires AllSucceed(w, NewSigned(NewEncapContent(DATA, data)), CommandOps(cert, signer, now, detach, stamps, chain))
    ensures var sd := Finished(w, CommandOps(cert, signer, now, detach, stamps, chain), DATA, data);
            && OneSigner(sd, cert, if stamps.Some? then 1 else 0) && CertList(sd) == Mapped(chain, CertRaw)
            && sd.eci == if detach then NewEncapContent(DATA, data).(content := None) else NewEncapContent(DATA, data)
  {
    hide Apply, NewEncapContent, AllSucceed, Run, OneSigner, CertRaw, CommandOps;
    var start := NewSigned(NewEncapContent(DATA, data));
    CommandSteps(w, start, cert, signer, now, detach, stamps, chain);
    SignedOnce(w, cert, signer, now, data);
    var signed := Apply(w, start, AddSigner(SignCall([cert], signer, now))).sd;
    var kept := if detach then Detach(signed) else signed;
    SameSigner(signed, kept, cert, 0);
    var stamped := StampedIf(w, kept, stamps).sd;
    if stamps.Some? {
      StampedOnce(w, kept, stamps.value, cert);
    }
    SetCertificatesKeeps(w, stamped, chain);
    ContentStays(w, start, SignCall([cert], signer, now), kept, stamps, chain);
    SameSigner(stamped, Apply(w, stamped, SetCertificates(chain)).sd, cert, if stamps.Some? then 1 else 0);
  }

  /** Only Detached changes the content. */
  lemma ContentStays(w: World, start: SignedData, call: SignCall, kept: SignedData, stamps: Option<seq<Exchange>>,
      chain: seq<Certificate>)
    ensures Apply(w, start, AddSigner(call)).sd.eci == start.eci
    ensures var stamped := StampedIf(w, kept, stamps).sd;
            stamped.eci == kept.eci && Apply(w, stamped, SetCertificates(chain)).sd.eci == stamped.eci
  {
    hide AddChain, MakeSigner, AddCertificates, AddTimestamps, AddDigest;
    if call.signer.pub.Some? {
      ChainOnly(start, call.chain, call.signer.pub.value, None);
    }
    if stamps.Some? {
      AllOrNothing(w, kept, stamps.value);
    }
    var stamped := StampedIf(w, kept, stamps).sd;
    CertificatesOnly(stamped.(certs := Some([])), chain);
  }

  lemma SameSigner(a: SignedData, b: SignedData, cert: Certificate, tokens: nat)
    requires OneSigner(a, cert, tokens) && a.signerInfos == b.signerInfos
    ensures OneSigner(b, cert, tokens)
  {
    hide NewSid;
  }

  lemma PresentExactly(env: Crypto, si: SignerInfo, cert: Certificate, chain: seq<Certificate>, known: set<Certificate>)
    requires NewSid(cert) == Ok(si.sid) && cert in known && Distinguishable(known)
    requires forall c :: c in known ==> ProperCertificate(env, c)
    requires forall c :: c in chain ==> c in known
    ensures CertPresent(si, Mapped(chain, CertRaw), known) <==> cert in chain
  {
    hide CertRaw, NewSid, ProperCertificate, Distinguishable;
    var raws := Mapped(chain, CertRaw);
    if cert in chain {
      var i :| 0 <= i < |chain| && chain[i] == cert;
      assert raws[i] == CertRaw(cert);
    }
    if d :| d in known && NewSid(d) == Ok(si.sid) && CertRaw(d) in raws {
      SidUnique(env, cert, d, si.sid, known);
      var i :| 0 <= i < |chain| && raws[i] == CertRaw(d);
      RawTellsCertificate(env, chain[i], d);
    }
  }

  lemma OneSignerAcceptable(sd: SignedData, cert: Certificate, tokens: nat, known: set<Certificate>)
    requires OneSigner(sd, cert, tokens) && tokens <= 1
    ensures Acceptable(sd, known) <==> CertPresent(sd.signerInfos[0], CertList(sd), known)
  {
    hide CertPresent, NewSid;
    assert forall si :: si in sd.signerInfos <==> si == sd.signerInfos[0];
  }

  /** Whether the written message verifies hangs on one thing: is the signing certificate in the list? */
  lemma CommandAcceptable(w: World, cert: Certificate, signer: Signer, now: Clock, detach: bool,
      stamps: Option<seq<Exchange>>, chain: seq<Certificate>, data: bytes, known: set<Certificate>)
    requires var ops := CommandOps(cert, signer, now, detach, stamps, chain);
             SessionSetting(w, ops, DATA, data, known) && AllSucceed(w, NewSigned(NewEncapContent(DATA, data)), ops)
    ensures Acceptable(Finished(w, CommandOps(cert, signer, now, detach, stamps, chain), DATA, data), known)
            <==> cert in chain
  {
    hide AllSucceed, Finished, CertRaw, NewSid, ProperCertificate, Distinguishable, NewEncapContent, CertList,
      GoodOps, CommandOps, Acceptable, CertPresent, ValidOid, Sha256Length;
    var ops := CommandOps(cert, signer, now, detach, stamps, chain);
    var sd := Finished(w, ops, DATA, data);
    CommandState(w, cert, signer, now, detach, stamps, chain, data);
    CommandKnown(w, cert, signer, now, detach, stamps, chain, known);
    OneSignerAcceptable(sd, cert, if stamps.Some? then 1 else 0, known);
    PresentExactly(w.crypto, sd.signerInfos[0], cert, chain, known);
  }

  lemma CommandKnown(w: World, cert: Certificate, signer: Signer, now: Clock, detach: bool,
      stamps: Option<seq<Exchange>>, chain: seq<Certificate>, known: set<Certificate>)
    requires GoodOps(w.crypto, CommandOps(cert, signer, now, detach, stamps, chain), known)
    ensures cert in known && ProperCertificate(w.crypto, cert)
    ensures forall c :: c in chain ==> c in known && ProperCertificate(w.crypto, c)
  {
    hide ProperCertificate, Correct;
    var ops := CommandOps(cert, signer, now, detach, stamps, chain);
    assert ops[0] in ops && ops[|ops| - 1] in ops;
    assert GoodOp(w.crypto, AddSigner(SignCall([cert], signer, now)), known);
    assert GoodOp(w.crypto, SetCertificates(chain), known);
    assert cert in [cert];
  }

  /**
   * What the program writes is parsed and verified by the program, detached or not, stamped or not,
   * exactly when the list of certificates it was told to include holds the signing certificate.
   */
  lemma CommandDecides(w: World, cert: Certificate, signer: Signer, now: Clock, detach: bool,
      stamps: Option<seq<Exchange>>, chain: seq<Certificate>, data: bytes, known: set<Certificate>,
      opts: VerifyOptions, pool: set<Certificate>)
    requires var ops := CommandOps(cert, signer, now, detach, stamps, chain);
             && SessionSetting(w, ops, DATA, data, known) && AllSucceed(w, NewSigned(NewEncapContent(DATA, data)), ops)
             && ChecksPass(w, Finished(w, ops, DATA, data), known, opts)
             && |ToDer(Finished(w, ops, DATA, data))| < MAX_READABLE
    ensures var ops := CommandOps(cert, signer, now, detach, stamps, chain);
            var parsed := ParseSignedData(ToDer(Finished(w, ops, DATA, data)));
            parsed.Ok? && (Answer(w, parsed.value, data, opts, pool).Ok? <==> cert in chain)
  {
    hide Surroundings, Readable, AllSucceed, Finished, Acceptable, Answer, NewEncapContent, ToDer, ParseSignedData,
      Telling, ChecksPass, CommandOps;
    var ops := CommandOps(cert, signer, now, detach, stamps, chain);
    CommandAcceptable(w, cert, signer, now, detach, stamps, chain, data, known);
    ParsedSessionDecides(w, ops, DATA, data, known, opts, pool);
    assert |DATA| == 9;
  }
  /**
   * The same from the option: for a chain that begins with the signing certificate, what the program
   * writes verifies with every option but 0 and, if that certificate is self-issued, but those that
   * keep nothing above it and take it for the root.
   */
  lemma OptionDecides(w: World, signer: Signer, now: Clock, detach: bool, stamps: Option<seq<Exchange>>, option: int,
      chain: seq<Certificate>, data: bytes, known: set<Certificate>, opts: VerifyOptions, pool: set<Certificate>)
    requires chain != []
    requires var ops := CommandOps(chain[0], signer, now, detach, stamps, Included(option, chain));
             && SessionSetting(w, ops, DATA, data, known) && AllSucceed(w, NewSigned(NewEncapContent(DATA, data)), ops)
             && ChecksPass(w, Finished(w, ops, DATA, data), known, opts)
             && |ToDer(Finished(w, ops, DATA, data))| < MAX_READABLE
    ensures var ops := CommandOps(chain[0], signer, now, detach, stamps, Included(option, chain));
            var parsed := ParseSignedData(ToDer(Finished(w, ops, DATA, data)));
            parsed.Ok? && (Answer(w, parsed.value, data, opts, pool).Ok? <==> KeepsLeaf(option, chain))
  {
    hide SessionSetting, AllSucceed, Finished, Answer, NewEncapContent, ToDer, ParseSignedData, ChecksPass, CommandOps,
      Included, KeepsLeaf;
    CommandDecides(w, chain[0], signer, now, detach, stamps, Included(option, chain), data, known, opts, pool);
    LeafIncluded(option, chain);
  }
}
