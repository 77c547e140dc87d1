/**
 * Exactly what Verify and VerifyDetached accept: the whole message at once, the time that decides,
 * and the form of the message (verify.go:18-174).
 */
module Acceptance {
  import opened Bytes
  import opened Errors
  import opened NormalForm
  import opened Asn1
  import opened Attributes
  import opened Cms
  import opened Environment
  import opened Timestamp
  import opened Signing
  import opened Verification
  import opened VerifySoundness
  import Ber

  // ---------------------------------------------------------------- all signers

  /** Signer after signer is accepted, each with the pool that the one before it left behind. */
  ghost predicate AllAccepted(w: World, sis: seq<SignerInfo>, certs: seq<Certificate>, typ: bytes, econtent: bytes,
      opts: VerifyOptions, chains: seq<Chains>, pools: seq<set<Certificate>>, start: set<Certificate>,
      pool: set<Certificate>)
  {
    && |chains| == |sis| && |pools| == |sis| + 1 && pools[0] == start && pools[|sis|] == pool
    && forall i :: 0 <= i < |sis| ==>
                     OneAccepted(w, sis[i], certs, typ, econtent, opts, chains[i], pools[i], pools[i + 1])
  }

  ghost predicate OneAccepted(w: World, si: SignerInfo, certs: seq<Certificate>, typ: bytes, econtent: bytes,
      opts: VerifyOptions, chains: Chains, start: set<Certificate>, pool: set<Certificate>)
  {
    exists cert, info :: Accepted(w, si, certs, typ, econtent, opts, chains, cert, info, start, pool)
  }

  lemma {:induction false} AcceptedInOrder(w: World, sis: seq<SignerInfo>, certs: seq<Certificate>, typ: bytes,
      econtent: bytes, opts: VerifyOptions, start: set<Certificate>)
    returns (pools: seq<set<Certificate>>)
    requires VerifySigners(w, sis, certs, typ, econtent, opts, start).result.Ok?
    ensures var v := VerifySigners(w, sis, certs, typ, econtent, opts, start);
            AllAccepted(w, sis, certs, typ, econtent, opts, v.result.value, pools, start, v.pool)
    decreases |sis|
  {
    hide VerifySigner, OneAccepted, SignerSize;
    if sis == [] {
      pools := [start];
    } else {
      var first := VerifySigner(w, sis[0], certs, typ, econtent, opts, start);
      SignerAcceptedOne(w, sis[0], certs, typ, econtent, opts, start, first.result.value, first.pool);
      var more := AcceptedInOrder(w, sis[1..], certs, typ, econtent, opts, first.pool);
      pools := [start] + more;
      var rest := VerifySigners(w, sis[1..], certs, typ, econtent, opts, first.pool).result.value;
      var chains := [first.result.value] + rest;
      forall i | 0 <= i < |sis|
        ensures OneAccepted(w, sis[i], certs, typ, econtent, opts, chains[i], pools[i], pools[i + 1])
      {
        if i > 0 {
          assert OneAccepted(w, sis[1..][i - 1], certs, typ, econtent, opts, rest[i - 1], more[i - 1], more[i]);
        }
      }
    }
  }

  lemma SignerAcceptedOne(w: World, si: SignerInfo, certs: seq<Certificate>, typ: bytes, econtent: bytes,
      opts: VerifyOptions, start: set<Certificate>, chains: Chains, pool: set<Certificate>)
    ensures VerifySigner(w, si, certs, typ, econtent, opts, start) == Verified(Ok(chains), pool)
            <==> OneAccepted(w, si, certs, typ, econtent, opts, chains, start, pool)
  {
    hide VerifySigner, Accepted;
    SignerExactly(w, si, certs, typ, econtent, opts, start, chains, pool);
  }

  lemma {:induction false} InOrderAccepted(w: World, sis: seq<SignerInfo>, certs: seq<Certificate>, typ: bytes,
      econtent: bytes, opts: VerifyOptions, chains: seq<Chains>, pools: seq<set<Certificate>>, start: set<Certificate>,
      pool: set<Certificate>)
    requires AllAccepted(w, sis, certs, typ, econtent, opts, chains, pools, start, pool)
    ensures VerifySigners(w, sis, certs, typ, econtent, opts, start) == Verified(Ok(chains), pool)
    decreases |sis|
  {
    hide VerifySigner, OneAccepted, SignerSize;
    if sis == [] {
      assert chains == [];
    } else {
      SignerAcceptedOne(w, sis[0], certs, typ, econtent, opts, start, chains[0], pools[1]);
      forall i | 0 <= i < |sis[1..]|
        ensures OneAccepted(w, sis[1..][i], certs, typ, econtent, opts, chains[1..][i], pools[1..][i],
                            pools[1..][i + 1])
      {
        assert OneAccepted(w, sis[i + 1], certs, typ, econtent, opts, chains[i + 1], pools[i + 1], pools[i + 2]);
      }
      InOrderAccepted(w, sis[1..], certs, typ, econtent, opts, chains[1..], pools[1..], pools[1], pool);
      assert chains == [chains[0]] + chains[1..];
    }
  }

  /** There is a signer, all certificates parse, and every signer is accepted, over this content. */
  ghost predicate MessageAccepted(w: World, sd: SignedData, econtent: bytes, opts: VerifyOptions, chains: seq<Chains>,
      start: set<Certificate>, pool: set<Certificate>)
  {
    && sd.signerInfos != []
    && exists certs, pools ::
         && X509Certificates(w.crypto, sd) == Ok(certs)
         && AllAccepted(w, sd.signerInfos, certs, sd.eci.typ, econtent, opts, chains, pools, start + AsSet(certs), pool)
  }

  lemma ContentExactly(w: World, sd: SignedData, econtent: bytes, opts: VerifyOptions, start: set<Certificate>,
      chains: seq<Chains>, pool: set<Certificate>)
    ensures VerifyContent(w, sd, econtent, opts, start) == Verified(Ok(chains), pool)
            <==> MessageAccepted(w, sd, econtent, opts, chains, start, pool)
  {
    hide X509Certificates, VerifySigners, AllAccepted, LargestSize;
    var typ, sis := sd.eci.typ, sd.signerInfos;
    if VerifyContent(w, sd, econtent, opts, start) == Verified(Ok(chains), pool) {
      var certs := X509Certificates(w.crypto, sd).value;
      var pools := AcceptedInOrder(w, sis, certs, typ, econtent, opts, start + AsSet(certs));
    }
    if MessageAccepted(w, sd, econtent, opts, chains, start, pool) {
      var certs, pools :|
        && X509Certificates(w.crypto, sd) == Ok(certs)
        && AllAccepted(w, sis, certs, typ, econtent, opts, chains, pools, start + AsSet(certs), pool);
      InOrderAccepted(w, sis, certs, typ, econtent, opts, chains, pools, start + AsSet(certs), pool);
    }
  }

  /** Verify accepts exactly the messages with content in them whose signers are all accepted over it. */
  lemma AttachedExactly(w: World, sd: SignedData, opts: VerifyOptions, start: set<Certificate>, chains: seq<Chains>,
      pool: set<Certificate>)
    ensures Verify(w, sd, opts, start) == Verified(Ok(chains), pool)
            <==> exists econtent :: EContentValue(sd.eci) == Ok(Some(econtent))
                                    && MessageAccepted(w, sd, econtent, opts, chains, start, pool)
    ensures sd.eci.content.None? ==> Verify(w, sd, opts, start) == Verified(Err(DetachedSignature), start)
  {
    hide EContentValue, VerifyContent, MessageAccepted, LargestSize;
    if sd.eci.content.None? {
      NoContentValue(sd.eci);
    }
    if EContentValue(sd.eci).Ok? && EContentValue(sd.eci).value.Some? {
      ContentExactly(w, sd, EContentValue(sd.eci).value.value, opts, start, chains, pool);
    }
  }

  lemma NoContentValue(eci: EncapContent)
    requires eci.content.None?
    ensures EContentValue(eci) == Ok(None)
  {
  }

  /**
   * VerifyDetached accepts exactly the messages without content whose signers are all accepted over
   * the given message. With content it is refused, whatever is given, and nothing is verified.
   */
  lemma DetachedExactly(w: World, sd: SignedData, message: bytes, opts: VerifyOptions, start: set<Certificate>,
      chains: seq<Chains>, pool: set<Certificate>)
    ensures VerifyDetached(w, sd, message, opts, start) == Verified(Ok(chains), pool)
            <==> sd.eci.content.None? && MessageAccepted(w, sd, message, opts, chains, start, pool)
    ensures sd.eci.content.Some? ==> VerifyDetached(w, sd, message, opts, start) == Verified(Err(NotDetached), start)
  {
    hide VerifyContent, MessageAccepted;
    ContentExactly(w, sd, message, opts, start, chains, pool);
  }

  // ---------------------------------------------------------------- the time that decides

  /**
   * A signer with a verified timestamp in the validity of its certificate: the chain is checked at
   * the caller's time, and without one at the time of the timestamp, and this alone decides.
   */
  lemma TimeDecides(w: World, si: SignerInfo, certs: seq<Certificate>, typ: bytes, econtent: bytes, opts: VerifyOptions,
      start: set<Certificate>, cert: Certificate, stamp: Info, pool: set<Certificate>)
    requires Identified(si, certs, cert) && SignatureChecks(w.crypto, si, typ, econtent, cert)
    requires TokenVerified(w, si, VerifyOptions(opts.currentTime, true), start, stamp, pool)
    requires Accepts(stamp, cert.notBefore, cert.notAfter)
    ensures var time := if opts.currentTime.Some? then opts.currentTime.value else stamp.genTime;
            VerifySigner(w, si, certs, typ, econtent, opts, start).result.Ok?
            <==> w.crypto.verifyChain(cert, VerifyOptions(Some(time), opts.timestamping), pool).Some?
  {
    hide VerifySigner, Identified, SignatureChecks, TokenVerified, Stamped, Accepts, SignerSize;
    var time := if opts.currentTime.Some? then opts.currentTime.value else stamp.genTime;
    var chain := w.crypto.verifyChain(cert, VerifyOptions(Some(time), opts.timestamping), pool);
    StampedByToken(w, si, VerifyOptions(opts.currentTime, true), start, stamp, pool);
    if chain.Some? {
      assert Accepted(w, si, certs, typ, econtent, opts, chain.value, cert, Some(stamp), start, pool);
      SignerExactly(w, si, certs, typ, econtent, opts, start, chain.value, pool);
    }
    var v := VerifySigner(w, si, certs, typ, econtent, opts, start);
    if v.result.Ok? {
      var c, i := SignerSound(w, si, certs, typ, econtent, opts, start);
      OneIdentified(si, certs, cert, c);
      OneToken(w, si, VerifyOptions(opts.currentTime, true), start, stamp, pool, i.value, v.pool);
    }
  }

  lemma StampedByToken(w: World, si: SignerInfo, opts: VerifyOptions, start: set<Certificate>, stamp: Info,
      pool: set<Certificate>)
    requires TokenVerified(w, si, opts, start, stamp, pool)
    ensures Stamped(si)
  {
    hide ParseSignedData, HoldsInfo, Verify, ImprintOf, DecodeAnySet;
  }

  lemma OneIdentified(si: SignerInfo, certs: seq<Certificate>, c: Certificate, d: Certificate)
    requires Identified(si, certs, c) && Identified(si, certs, d)
    ensures c == d
  {
    hide Names;
  }

  lemma OneToken(w: World, si: SignerInfo, opts: VerifyOptions, start: set<Certificate>, a: Info, p: set<Certificate>,
      b: Info, q: set<Certificate>)
    requires TokenVerified(w, si, opts, start, a, p) && TokenVerified(w, si, opts, start, b, q)
    ensures a == b && p == q
  {
    hide TokenVerified, GetTimestamp;
    TimestampExactly(w, si, opts, start, a, p);
    TimestampExactly(w, si, opts, start, b, q);
  }

  /** A chain check that looks at the validity of the certificate, at the present when no time is stated. */
  ghost predicate ChecksValidity(env: Crypto, present: int) {
    forall c, opts, pool {:trigger env.verifyChain(c, opts, pool)} ::
      env.verifyChain(c, opts, pool).Some? <==> c.notBefore <= TimeOr(opts.currentTime, present).value <= c.notAfter
  }

  /**
   * What a timestamp is for: with such a chain check and no stated time, a timestamped signer is
   * accepted whatever the present, provided the computed accuracy is not negative, and the same
   * signer without the token exactly while its certificate is valid. A stated time counts instead
   * of either.
   */
  lemma OutlivesCertificate(w: World, si: SignerInfo, certs: seq<Certificate>, typ: bytes, econtent: bytes,
      opts: VerifyOptions, start: set<Certificate>, cert: Certificate, stamp: Option<Info>, pool: set<Certificate>,
      present: int)
    requires ChecksValidity(w.crypto, present)
    requires Identified(si, certs, cert) && SignatureChecks(w.crypto, si, typ, econtent, cert)
    requires match stamp
             case None => !Stamped(si)
             case Some(i) =>
               && TokenVerified(w, si, VerifyOptions(opts.currentTime, true), start, i, pool)
               && Accepts(i, cert.notBefore, cert.notAfter) && Duration(i.accuracy) >= 0
    ensures VerifySigner(w, si, certs, typ, econtent, opts, start).result.Ok?
            <==> match opts.currentTime
                 case Some(t) => cert.notBefore <= t <= cert.notAfter
                 case None => stamp.Some? || cert.notBefore <= present <= cert.notAfter
  {
    hide VerifySigner, Identified, SignatureChecks, TokenVerified, Stamped, Accepts, Duration, SignerSize;
    match stamp
    case Some(i) =>
      TimeDecides(w, si, certs, typ, econtent, opts, start, cert, i, pool);
      StatedTimeInside(i);
    case None =>
      PlainDecides(w, si, certs, typ, econtent, opts, start, cert);
  }

  /** Without a token the chain check decides, with the caller's options as they are. */
  lemma PlainDecides(w: World, si: SignerInfo, certs: seq<Certificate>, typ: bytes, econtent: bytes,
      opts: VerifyOptions, start: set<Certificate>, cert: Certificate)
    requires Identified(si, certs, cert) && SignatureChecks(w.crypto, si, typ, econtent, cert) && !Stamped(si)
    ensures VerifySigner(w, si, certs, typ, econtent, opts, start).result.Ok?
            <==> w.crypto.verifyChain(cert, opts, start).Some?
  {
    hide VerifySigner, Identified, SignatureChecks, TokenVerified, Stamped, SignerSize;
    var chain := w.crypto.verifyChain(cert, opts, start);
    if chain.Some? {
      assert Accepted(w, si, certs, typ, econtent, opts, chain.value, cert, None, start, start);
      SignerExactly(w, si, certs, typ, econtent, opts, start, chain.value, start);
    }
    var v := VerifySigner(w, si, certs, typ, econtent, opts, start);
    if v.result.Ok? {
      var c, i := SignerSound(w, si, certs, typ, econtent, opts, start);
      OneIdentified(si, certs, cert, c);
    }
  }

  // ---------------------------------------------------------------- signer identifiers

  /**
   * A signer identifier is read as issuer and serial number exactly when it is a SEQUENCE that
   * begins with the issuer's TLV and an INTEGER; octets after these are ignored.
   */
  lemma SidExactly(sid: RawValue, issuer: bytes, serial: bytes)
    requires IsParsed(sid)
    ensures IssuerAndSerial(sid) == Ok((issuer, serial))
            <==> sid.id == SEQUENCE && ValidInteger(serial)
                 && exists name, rest :: SidContent(sid.content, name, serial, rest) && name.full == issuer
  {
    hide Unmarshal, IsParsed, ValidInteger, ParseFields, SidContent;
    assert sid.full + [] == sid.full;
    UnmarshalRaw(sid, []);
    if sid.id == SEQUENCE {
      SidFields(sid.content);
      if name, rest :| SidContent(sid.content, name, serial, rest) && name.full == issuer {
        SidFieldsFound(sid.content, name, serial, rest);
      }
    }
  }

  /** The content of a signer identifier: issuer, serial number, and what else there is. */
  predicate SidContent(content: bytes, name: RawValue, serial: bytes, rest: bytes) {
    IsParsed(name) && IsParsed(Raw(INTEGER, serial)) && content == name.full + (Tlv(INTEGER, serial) + rest)
  }

  lemma SidFields(content: bytes)
    ensures var r := ParseFields(content, ISSUER_SERIAL_SCHEMA);
            r.Ok? ==> r.value[0].Some? && r.value[1].Some?
                      && exists rest :: SidContent(content, r.value[0].value, r.value[1].value.content, rest)
  {
    hide Unmarshal, IsParsed, ReadTlvHeader, Tlv;
    var r := ParseFields(content, ISSUER_SERIAL_SCHEMA);
    if r.Ok? {
      assert ISSUER_SERIAL_SCHEMA[1..] == [Tagged(INTEGER)];
      var first := ParseField(content, AnyValue).value;
      UnmarshalInverse(content);
      assert ParseFields(first.rest, [Tagged(INTEGER)]).Ok?;
      var second := ParseField(first.rest, Tagged(INTEGER)).value;
      UnmarshalInverse(first.rest);
      TaggedId(first.rest);
      assert r.value == [first.value] + ParseFields(first.rest, [Tagged(INTEGER)]).value;
      IntegerTlv(second.value.value);
      assert SidContent(content, first.value.value, second.value.value.content, second.rest);
    }
  }

  lemma TaggedId(s: bytes)
    requires s != [] && ParseField(s, Tagged(INTEGER)).Ok?
    ensures ParseField(s, Tagged(INTEGER)).value.value.Some?
    ensures ParseField(s, Tagged(INTEGER)).value.value.value.id == INTEGER
  {
    hide Ber.ReadHighTag;
  }

  lemma IntegerTlv(rv: RawValue)
    requires IsParsed(rv) && rv.id == INTEGER
    ensures rv == Raw(INTEGER, rv.content)
  {
    hide Tlv;
  }

  lemma SidFieldsFound(content: bytes, name: RawValue, serial: bytes, rest: bytes)
    requires SidContent(content, name, serial, rest)
    ensures ParseFields(content, ISSUER_SERIAL_SCHEMA) == Ok([Some(name), Some(Raw(INTEGER, serial))])
  {
    hide Unmarshal, IsParsed, ReadTlvHeader, Tlv, ParseField;
    var number := Raw(INTEGER, serial);
    PresentField(name, Tlv(INTEGER, serial) + rest, AnyValue);
    PresentField(number, rest, Tagged(INTEGER));
    assert ISSUER_SERIAL_SCHEMA[1..] == [Tagged(INTEGER)] && [Tagged(INTEGER)][1..] == [];
    assert ParseFields(rest, []) == Ok([]);
    var tail := Tlv(INTEGER, serial) + rest;
    assert number.full + rest == tail;
    assert ParseFields(tail, [Tagged(INTEGER)]) == Ok([Some(number)]) by {
      assert ParseField(tail, [Tagged(INTEGER)][0]) == Ok(FieldRead(Some(number), rest));
      assert [Some(number)] + [] == [Some(number)];
    }
    assert ParseField(content, ISSUER_SERIAL_SCHEMA[0]) == Ok(FieldRead(Some(name), tail));
    assert [Some(name)] + [Some(number)] == [Some(name), Some(number)];
  }
}
