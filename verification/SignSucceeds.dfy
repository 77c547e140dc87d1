/**
 * When AddSignerInfo cannot fail (protocol.go:628-738), and that what the main results assume can
 * be met.
 */
module SignSucceeds {
  import opened Bytes
  import opened Lengths
  import opened NormalForm
  import opened Asn1
  import opened Attributes
  import opened Cms
  import opened WireProofs
  import opened Environment
  import opened Timestamp
  import opened Signing
  import opened SigningProofs
  import opened Verification
  import opened SignVerify
  import opened EndToEnd
  import opened SignedMessages

  /** No certificate is the content of one that is already there: what the duplicate test looks for. */
  ghost predicate NoClash(raws: seq<RawValue>, chain: seq<Certificate>) {
    && (forall rv, c :: rv in raws && c in chain ==> rv.content != c.raw)
    && forall i, j :: 0 <= i < j < |chain| ==> CertRaw(chain[i]).content != chain[j].raw
  }

  predicate HasKey(chain: seq<Certificate>, pub: bytes) {
    exists i :: 0 <= i < |chain| && chain[i].pub == Some(pub)
  }

  /** A chain without clashes is added whole, and its last certificate with the key is found. */
  lemma {:induction false} ChainSucceeds(sd: SignedData, chain: seq<Certificate>, pub: bytes, leaf: Option<Certificate>)
    requires NoClash(CertList(sd), chain)
    requires forall c :: c in chain ==> Unmarshal(c.raw).Ok? && c.pub.Some?
    ensures var r := AddChain(sd, chain, pub, leaf);
            && r.leaf.Ok? && |CertList(r.sd)| == |CertList(sd)| + |chain|
            && (r.leaf.value.Some? <==> leaf.Some? || HasKey(chain, pub))
            && (r.leaf.value.Some? ==> r.leaf == Ok(leaf) || r.leaf.value.value in chain)
    decreases |chain|
  {
    hide Unmarshal;
    if chain == [] {
    } else {
      var rest := chain[1..];
      var added := AddCertificate(sd, chain[0]);
      OneAdded(sd, chain[0]);
      assert NoClash(CertList(added.sd), rest) by {
        forall rv, c | rv in CertList(added.sd) && c in rest
          ensures rv.content != c.raw
        {
          var j :| 0 <= j < |rest| && rest[j] == c;
          assert chain[j + 1] == c;
        }
        assert forall i :: 0 <= i < |rest| ==> rest[i] == chain[i + 1];
      }
      ChainSucceeds(added.sd, rest, pub, if chain[0].pub.value == pub then Some(chain[0]) else leaf);
      KeySplit(chain, pub);
    }
  }

  lemma OneAdded(sd: SignedData, c: Certificate)
    requires Unmarshal(c.raw).Ok? && forall rv :: rv in CertList(sd) ==> rv.content != c.raw
    ensures AddCertificate(sd, c).error.None? && CertList(AddCertificate(sd, c).sd) == CertList(sd) + [CertRaw(c)]
  {
    hide Unmarshal;
  }

  /**
   * The duplicate test does not stop a certificate that is there already: after any successful
   * addition the same certificate is added once more.
   */
  lemma DuplicateAccepted(sd: SignedData, c: Certificate)
    requires AddCertificate(sd, c).error.None?
    ensures var once := AddCertificate(sd, c).sd;
            var twice := AddCertificate(once, c);
            twice.error.None? && CertList(twice.sd) == CertList(sd) + [CertRaw(c), CertRaw(c)]
  {
    hide Unmarshal;
    var once := AddCertificate(sd, c).sd;
    assert forall i :: 0 <= i < |CertList(sd)| ==> CertList(sd)[i].content != c.raw;
    OneAdded(sd, c);
    assert |CertRaw(c).content| < |c.raw|;
    OneAdded(once, c);
    assert CertList(sd) + [CertRaw(c)] + [CertRaw(c)] == CertList(sd) + [CertRaw(c), CertRaw(c)];
  }

  lemma KeySplit(chain: seq<Certificate>, pub: bytes)
    requires chain != []
    ensures HasKey(chain, pub) <==> chain[0].pub == Some(pub) || HasKey(chain[1..], pub)
  {
    if i :| 0 <= i < |chain| && chain[i].pub == Some(pub) {
      assert i > 0 ==> chain[1..][i - 1] == chain[i];
    }
    if i :| 0 <= i < |chain[1..]| && chain[1..][i].pub == Some(pub) {
      assert chain[i + 1] == chain[1..][i];
    }
  }

  /** A certificate whose name and serial number leave room for their wrapping, with a usable key. */
  ghost predicate Usable(env: Crypto, c: Certificate) {
    ProperCertificate(env, c) && |c.rawIssuer| + |c.serial| < MAX_READABLE - 100 && KeySignature(c.keyAlg, SHA256).Some?
  }

  lemma SidSucceeds(env: Crypto, c: Certificate)
    requires Usable(env, c)
    ensures NewSid(c).Ok?
  {
    hide Unmarshal, Tlv, FieldsBytes, IsDer, ValidInteger, CertRaw, KeySignature;
    var issuer := Unmarshal(c.rawIssuer).value.value;
    OwnTlvNoCopy(c.rawIssuer, issuer);
    TlvBound(INTEGER, c.serial);
    TwoFieldsBytes(issuer, Raw(INTEGER, c.serial));
    OwnTlv(SEQUENCE, FieldsBytes([Some(issuer), Some(Raw(INTEGER, c.serial))]));
  }

  lemma HashFound(env: Crypto)
    requires env.available(SHA256)
    ensures AvailableHash(env, DIGEST_ALGORITHM.oid) == Ok(SHA256)
  {
    hide DigestToHash;
    DigestMapsInverse(OID_SHA256, SHA256);
  }

  lemma SignatureFound(env: Crypto, c: Certificate)
    requires Usable(env, c)
    ensures SignatureOid(c.keyAlg, DIGEST_ALGORITHM.oid).Some?
  {
    hide ProperCertificate, SignatureOid, KeySignature, X509Signature;
    SignatureTablesAgree(c.keyAlg, SHA256);
  }

  lemma AttributesSucceed(now: Clock, digest: bytes, typ: bytes)
    requires !now.Unrepresentable? && |digest| == 32 && |typ| < MAX_READABLE - 400
    ensures BuildAttributes(now, digest, typ).Ok? && MarshaledForSigning(BuildAttributes(now, digest, typ).value).Ok?
  {
    hide BuildAttributes, MarshaledForSigning, GeneratedAttributes, SortAttributes, Small, IsTime;
    BuiltAttributes(now, digest, typ);
    GeneratedSmall(ClockValue(now).value, digest, typ);
    SigningValue(SortAttributes(GeneratedAttributes(ClockValue(now).value, digest, typ)));
  }

  /** Every step from the certificate to the finished SignerInfo succeeds. */
  lemma MakeSucceeds(env: Crypto, typ: bytes, data: bytes, c: Certificate, signer: Signer, now: Clock)
    requires Sha256Length(env) && Usable(env, c) && env.available(SHA256) && !now.Unrepresentable?
    requires |data| < MAX_READABLE && |typ| < MAX_READABLE - 400
    requires forall d: bytes :: |d| == 32 ==> signer.sign(d, SHA256).Some?
    ensures MakeSigner(env, NewEncapContent(typ, data), c, signer, now).Ok?
  {
    hide NewSid, EContentValue, NewEncapContent, BuildAttributes, MarshaledForSigning, SignatureOid, AvailableHash,
      Usable;
    SidSucceeds(env, c);
    EncapType(typ, data);
    NewContent(typ, data);
    SignatureFound(env, c);
    HashFound(env);
    var digest := env.hash(SHA256, data);
    assert |digest| == 32;
    AttributesSucceed(now, digest, typ);
    assert |env.hash(SHA256, MarshaledForSigning(BuildAttributes(now, digest, typ).value).value)| == 32;
  }

  lemma GeneratedSmall(time: RawValue, digest: bytes, typ: bytes)
    requires IsTime(time) && |digest| == 32 && |typ| < MAX_READABLE - 400
    ensures Small(SortAttributes(GeneratedAttributes(time, digest, typ)))
  {
    hide InOrder, SortAttributes, GeneratedAttributes, Tlv, IsTime;
    GeneratedBound(time, digest, typ);
    TlvBound(SET, InOrder(SortAttributes(GeneratedAttributes(time, digest, typ))));
  }

  /** A call that has all it needs. */
  ghost predicate Complete(env: Crypto, call: SignCall) {
    && env.available(SHA256) && !call.now.Unrepresentable?
    && (forall c :: c in call.chain ==> Usable(env, c) && c.pub.Some?)
    && NoClash([], call.chain)
    && call.signer.pub.Some? && HasKey(call.chain, call.signer.pub.value)
    && forall d: bytes :: |d| == 32 ==> call.signer.sign(d, SHA256).Some?
  }

  /** Sign does not fail: a complete call on a new message of readable size adds its signer. */
  lemma FirstCallSucceeds(env: Crypto, call: SignCall, typ: bytes, data: bytes)
    requires Sha256Length(env) && Complete(env, call) && |data| < MAX_READABLE && |typ| < MAX_READABLE - 400
    ensures var sd := NewSigned(NewEncapContent(typ, data));
            && AddSignerInfo(env, sd, call.chain, call.signer, call.now).error.None?
            && Successes(env, sd, [call]) == 1
  {
    hide AddChain, MakeSigner, Usable, NewEncapContent, CertRaw, Sha256Length;
    var sd := NewSigned(NewEncapContent(typ, data));
    var pub := call.signer.pub.value;
    forall c | c in call.chain
      ensures Unmarshal(c.raw).Ok?
    {
      UsableParses(env, c);
    }
    assert CertList(sd) == [];
    ChainSucceeds(sd, call.chain, pub, None);
    var added := AddChain(sd, call.chain, pub, None);
    ChainContent(sd, call.chain, pub, None);
    MakeSucceeds(env, typ, data, added.leaf.value.value, call.signer, call.now);
    assert [call][1..] == [];
  }

  lemma UsableParses(env: Crypto, c: Certificate)
    requires Usable(env, c)
    ensures Unmarshal(c.raw).Ok?
  {
    hide Unmarshal, IsDer, ValidInteger;
  }

  lemma {:induction false} ChainContent(sd: SignedData, chain: seq<Certificate>, pub: bytes, leaf: Option<Certificate>)
    ensures AddChain(sd, chain, pub, leaf).sd.eci == sd.eci
    decreases |chain|
  {
    hide Unmarshal;
    if chain == [] {
    } else {
      var added := AddCertificate(sd, chain[0]);
      if added.error.None? && chain[0].pub.Some? {
        ChainContent(added.sd, chain[1..], pub, if chain[0].pub.value == pub then Some(chain[0]) else leaf);
      }
    }
  }

  /**
   * Sign and Verify as one statement without a proviso of success: a complete call on a new
   * message of readable size adds a signer that verifies, attached and detached.
   */
  lemma SignThenVerify(w: World, call: SignCall, typ: bytes, data: bytes, known: set<Certificate>,
      opts: VerifyOptions, pool: set<Certificate>)
    requires Setting(w, [call], typ, data, known) && Complete(w.crypto, call)
    requires |data| < MAX_READABLE && |typ| < MAX_READABLE - 400 && |typ| != 32
    requires ChainsAccepted(w.crypto, Message(w, [call], typ, data), known, opts)
    ensures var start := NewSigned(NewEncapContent(typ, data));
            var step := AddSignerInfo(w.crypto, start, call.chain, call.signer, call.now);
            && step.error.None? && Verify(w, step.sd, opts, pool).result.Ok?
            && VerifyDetached(w, Detach(step.sd), data, opts, pool).result.Ok?
  {
    hide Complete, GoodCalls, ProperCertificate, Distinguishable, ChainsAccepted, AddSignerInfo, VerifyContent,
      NewEncapContent, EContentValue, ValidOid, LargestSize;
    FirstCallSucceeds(w.crypto, call, typ, data);
    SignedVerifies(w, [call], typ, data, known, opts, pool);
    OneCall(w.crypto, NewSigned(NewEncapContent(typ, data)), call);
  }

  lemma OneCall(env: Crypto, sd: SignedData, call: SignCall)
    ensures SignAll(env, sd, [call]) == AddSignerInfo(env, sd, call.chain, call.signer, call.now).sd
  {
    hide AddSignerInfo;
    assert [call][1..] == [];
  }

  // ---------------------------------------------------------------- the assumptions can be met

  const EMPTY_SEQUENCE: bytes := [0x30, 0x00]

  /** A self-signed certificate. */
  const SOME_CERTIFICATE :=
    Certificate(EMPTY_SEQUENCE, EMPTY_SEQUENCE, EMPTY_SEQUENCE, [1], Some([]), RSA, [], 0, 0, [])

  function SomeWorld(): World {
    World(Crypto((h, m) => seq(32, i => 0), h => true, raw => Some(SOME_CERTIFICATE),
                 (c: Certificate, a, m, s) => Some(a) == KeySignature(c.keyAlg, SHA256), (c, o, p) => Some([])),
          octets => None)
  }

  function SomeCall(now: Clock): SignCall {
    SignCall([SOME_CERTIFICATE], Signer(Some([]), (d, h) => Some([])), now)
  }

  lemma EmptySequence()
    ensures EMPTY_SEQUENCE == Tlv(SEQUENCE, []) && IsDer(EMPTY_SEQUENCE)
    ensures Unmarshal(EMPTY_SEQUENCE) == Ok(Asn1.Split(Raw(SEQUENCE, []), []))
  {
    hide Unmarshal, IsDer, IsDerSeq;
    DerSeqNil();
    DerConstructed(SEQUENCE, []);
    OwnTlv(SEQUENCE, []);
  }

  lemma SomeCertificateProper()
    ensures Usable(SomeWorld().crypto, SOME_CERTIFICATE) && CertRaw(SOME_CERTIFICATE) == Raw(SEQUENCE, [])
  {
    hide Unmarshal, IsDer;
    EmptySequence();
  }

  /** There are surroundings in which all that SignThenVerify asks for holds, for every content. */
  lemma AssumptionsMet(data: bytes, now: Clock, opts: VerifyOptions)
    requires |data| < MAX_READABLE && !now.Unrepresentable?
    ensures var w, call, known := SomeWorld(), SomeCall(now), {SOME_CERTIFICATE};
            && Setting(w, [call], DATA, data, known) && Complete(w.crypto, call)
            && ChainsAccepted(w.crypto, Message(w, [call], DATA, data), known, opts)
  {
    hide Usable, CertRaw, AddSignerInfo, ValidOid, IsDer, Unmarshal, NewEncapContent, Message;
    SomeCertificateProper();
    UsableProper(SomeWorld().crypto, SOME_CERTIFICATE);
    OidsValid();
    assert SomeCall(now).chain[0] == SOME_CERTIFICATE;
  }

  lemma UsableProper(env: Crypto, c: Certificate)
    requires Usable(env, c)
    ensures ProperCertificate(env, c)
  {
    hide ProperCertificate;
  }
}
