/**
 * verify.go as written: a loop over the SignerInfos that appends chains, a pool of intermediates
 * shared by pointer with nested verifications, and a copy of the options per signature.
 */
module VerifyCode {
  import opened Bytes
  import opened Errors
  import opened Asn1
  import opened Attributes
  import opened Cms
  import opened Environment
  import opened Timestamp
  import opened Nesting
  import opened Verification

  /** An x509.CertPool. */
  class CertPool {
    var certs: set<Certificate>

    constructor ()
      ensures certs == {}
    {
      certs := {};
    }

    method AddCert(cert: Certificate)
      modifies this
      ensures certs == old(certs) + {cert}
    {
      certs := certs + {cert};
    }
  }

  /** A result together with the pool it left behind, as the specification states them. */
  predicate Returns<T(==)>(v: Verified<T>, r: CmsOutcome<T>, certs: set<Certificate>) {
    v.result == r && v.pool == certs
  }

  /** Puts chains already collected in front. */
  function After(chains: seq<Chains>, v: Verified<seq<Chains>>): Verified<seq<Chains>> {
    match v.result
    case Ok(more) => Verified(Ok(chains + more), v.pool)
    case Err(e) => v
  }

  /** Verify (verify.go:18-28). */
  method VerifyAttached(w: World, sd: SignedData, opts: VerifyOptions, pool: CertPool)
    returns (r: CmsOutcome<seq<Chains>>)
    modifies pool
    ensures Returns(Verify(w, sd, opts, old(pool.certs)), r, pool.certs)
    decreases LargestSize(sd.signerInfos).p, LargestSize(sd.signerInfos).n, |sd.signerInfos|, 5
  {
    hide EContentValue, VerifyContent, LargestSize;
    var econtent := GetEContentValue(sd.eci);
    if econtent.Err? {
      return Err(econtent.error);
    }
    if econtent.value.None? {
      return Err(DetachedSignature);
    }
    r := VerifyMessage(w, sd, econtent.value.value, opts, pool);
  }

  /** VerifyDetached (verify.go:37-42). */
  method VerifyDetachedMessage(w: World, sd: SignedData, message: bytes, opts: VerifyOptions, pool: CertPool)
    returns (r: CmsOutcome<seq<Chains>>)
    modifies pool
    ensures Returns(VerifyDetached(w, sd, message, opts, old(pool.certs)), r, pool.certs)
  {
    hide VerifyContent, LargestSize;
    if sd.eci.content.Some? {
      return Err(NotDetached);
    }
    r := VerifyMessage(w, sd, message, opts, pool);
  }

  /** The certificates of the message join the caller's pool (verify.go:58-60). */
  method AddAll(certs: seq<Certificate>, pool: CertPool)
    modifies pool
    ensures pool.certs == old(pool.certs) + AsSet(certs)
  {
    var i := 0;
    while i < |certs|
      invariant 0 <= i <= |certs|
      invariant pool.certs == old(pool.certs) + AsSet(certs[..i])
    {
      pool.AddCert(certs[i]);
      assert certs[..i + 1] == certs[..i] + [certs[i]];
      i := i + 1;
    }
    assert certs[..i] == certs;
  }

  /** verify (verify.go:44-174). */
  method VerifyMessage(w: World, sd: SignedData, econtent: bytes, opts: VerifyOptions, pool: CertPool)
    returns (r: CmsOutcome<seq<Chains>>)
    modifies pool
    ensures Returns(VerifyContent(w, sd, econtent, opts, old(pool.certs)), r, pool.certs)
    decreases LargestSize(sd.signerInfos).p, LargestSize(sd.signerInfos).n, |sd.signerInfos|, 4
  {
    hide VerifySigner, VerifySigners, SignerSize;
    if |sd.signerInfos| == 0 {
      return Err(NoSignatures);
    }
    var certs := X509Certificates(w.crypto, sd);
    if certs.Err? {
      return Err(certs.error);
    }
    AddAll(certs.value, pool);
    var chains: seq<Chains> := [];
    ghost var goal := VerifySigners(w, sd.signerInfos, certs.value, sd.eci.typ, econtent, opts, pool.certs);
    var sis := sd.signerInfos;
    var i := 0;
    assert sis[0..] == sis;
    AfterNone(goal);
    while i < |sis|
      invariant 0 <= i <= |sis|
      invariant goal == After(chains, VerifySigners(w, sis[i..], certs.value, sd.eci.typ, econtent, opts, pool.certs))
    {
      assert sis[i..][1..] == sis[i + 1..];
      SizeBelow(sis, i);
      SignersStep(w, sis[i..], certs.value, sd.eci.typ, econtent, opts, pool.certs);
      var chain := VerifyOne(w, sis[i], certs.value, sd.eci.typ, econtent, opts, pool);
      if chain.Err? {
        return Err(chain.error);
      }
      ghost var rest := VerifySigners(w, sis[i + 1..], certs.value, sd.eci.typ, econtent, opts, pool.certs);
      AfterStep(chains, chain.value, rest);
      chains := chains + [chain.value];
      i := i + 1;
    }
    SignersDone(w, sis[i..], certs.value, sd.eci.typ, econtent, opts, pool.certs);
    assert chains + [] == chains;
    return Ok(chains);
  }

  lemma SizeBelow(sis: seq<SignerInfo>, i: nat)
    requires i < |sis|
    ensures AtMost(SignerSize(sis[i]), LargestSize(sis))
  {
  }

  lemma AfterNone(v: Verified<seq<Chains>>)
    ensures After([], v) == v
  {
    if v.result.Ok? {
      assert [] + v.result.value == v.result.value;
    }
  }

  lemma AfterStep(chains: seq<Chains>, chain: Chains, rest: Verified<seq<Chains>>)
    ensures After(chains, After([chain], rest)) == After(chains + [chain], rest)
  {
    if rest.result.Ok? {
      assert chains + ([chain] + rest.result.value) == (chains + [chain]) + rest.result.value;
    }
  }

  /** One unfolding of the loop. */
  lemma SignersStep(w: World, sis: seq<SignerInfo>, certs: seq<Certificate>, typ: bytes, econtent: bytes,
      opts: VerifyOptions, pool: set<Certificate>)
    requires sis != []
    ensures var first := VerifySigner(w, sis[0], certs, typ, econtent, opts, pool);
            var all := VerifySigners(w, sis, certs, typ, econtent, opts, pool);
            && (first.result.Err? ==> all == Verified(Err(first.result.error), first.pool))
            && (first.result.Ok? ==>
                  var rest := VerifySigners(w, sis[1..], certs, typ, econtent, opts, first.pool);
                  all == After([first.result.value], rest))
  {
    hide VerifySigner, SignerSize;
  }

  lemma SignersDone(w: World, sis: seq<SignerInfo>, certs: seq<Certificate>, typ: bytes, econtent: bytes,
      opts: VerifyOptions, pool: set<Certificate>)
    requires sis == []
    ensures VerifySigners(w, sis, certs, typ, econtent, opts, pool) == Verified(Ok([]), pool)
  {
  }

  /** The loop body (verify.go:70-169). */
  method VerifyOne(w: World, si: SignerInfo, certs: seq<Certificate>, typ: bytes, econtent: bytes,
      opts: VerifyOptions, pool: CertPool)
    returns (r: CmsOutcome<Chains>)
    modifies pool
    ensures Returns(VerifySigner(w, si, certs, typ, econtent, opts, old(pool.certs)), r, pool.certs)
    decreases SignerSize(si).p, SignerSize(si).n, 0, 2
  {
    hide CheckSigner, GetTimestamp, HasTimestamp, GetOnly, TokenSize, Accepts;
    var cert := CheckSigner(w.crypto, si, certs, typ, econtent);
    if cert.Err? {
      return Err(cert.error);
    }
    var optsCopy := opts;
    var hasTs := HasTimestamp(si);
    if hasTs.Err? {
      return Err(hasTs.error);
    }
    if hasTs.value {
      var tsti := FindTimestamp(w, si, opts.(timestamping := true), pool);
      if tsti.Err? {
        return Err(tsti.error);
      }
      if !Accepts(tsti.value, cert.value.notBefore, cert.value.notAfter) {
        return Err(CertificateExpired);
      }
      if optsCopy.currentTime.None? {
        optsCopy := optsCopy.(currentTime := Some(tsti.value.genTime));
      }
    }
    var chain := w.crypto.verifyChain(cert.value, optsCopy, pool.certs);
    if chain.None? {
      return Err(ChainRejected);
    }
    return Ok(chain.value);
  }

  /** getTimestamp (timestamp.go:80-119). */
  method FindTimestamp(w: World, si: SignerInfo, opts: VerifyOptions, pool: CertPool) returns (r: CmsOutcome<Info>)
    modifies pool
    ensures Returns(GetTimestamp(w, si, opts, old(pool.certs)), r, pool.certs)
    decreases SignerSize(si).p, SignerSize(si).n, 0, 1
  {
    hide OpenToken, CheckImprint, Verify, GetOnly, TokenSize, LargestSize;
    var rawValue := Token(si);
    if rawValue.Err? {
      return Err(rawValue.error);
    }
    var tst := OpenToken(w, rawValue.value.full);
    if tst.Err? {
      return Err(tst.error);
    }
    OpenedSmaller(w, rawValue.value.full);
    var inner := VerifyAttached(w, tst.value.0, opts, pool);
    if inner.Err? {
      return Err(inner.error);
    }
    r := CheckImprint(w.crypto, tst.value.1, si.signature);
  }
}
