/**
 * Exactly when a chain of certificates is added and which certificate signs, and what a successful
 * AddSignerInfo leaves behind, field by field (protocol.go:628-800).
 */
module SigningFacts {
  import opened Bytes
  import opened Lengths
  import opened Order
  import opened NormalForm
  import opened Asn1
  import opened Attributes
  import opened Cms
  import opened Environment
  import opened Signing
  import opened SigningProofs
  import opened SignVerify
  import opened EndToEnd
  import opened Runs
  import opened SessionFacts

  // ---------------------------------------------------------------- certificates

  /** A certificate that is one TLV in front, and not the content octets of one that is there. */
  ghost predicate CanAdd(raws: seq<RawValue>, c: Certificate) {
    Unmarshal(c.raw).Ok? && forall rv :: rv in raws ==> rv.content != c.raw
  }

  lemma CertificateExactly(sd: SignedData, c: Certificate)
    ensures var step := AddCertificate(sd, c);
            if CanAdd(CertList(sd), c) then
              step == Step(sd.(certs := Some(CertList(sd) + [Unmarshal(c.raw).value.value])), None)
            else step.error.Some? && step.sd == sd
  {
    hide Unmarshal;
    if i :| 0 <= i < |CertList(sd)| && CertList(sd)[i].content == c.raw {
      assert CertList(sd)[i] in CertList(sd);
    }
  }

  /** One after the other, the certificates of the chain can be added, and have keys that can be marshalled. */
  ghost predicate ChainFits(raws: seq<RawValue>, chain: seq<Certificate>) {
    forall i :: 0 <= i < |chain| ==> chain[i].pub.Some? && CanAdd(raws + Mapped(chain[..i], CertRaw), chain[i])
  }

  /** The last certificate of the chain with this key. */
  ghost predicate LastWithKey(chain: seq<Certificate>, pub: bytes, k: int) {
    0 <= k < |chain| && chain[k].pub == Some(pub) && forall j :: k < j < |chain| ==> chain[j].pub != Some(pub)
  }

  ghost predicate NoneWithKey(chain: seq<Certificate>, pub: bytes) {
    forall j :: 0 <= j < |chain| ==> chain[j].pub != Some(pub)
  }

  lemma FitsFirst(raws: seq<RawValue>, chain: seq<Certificate>)
    requires chain != []
    ensures ChainFits(raws, chain)
            <==> chain[0].pub.Some? && CanAdd(raws, chain[0]) && ChainFits(raws + [CertRaw(chain[0])], chain[1..])
  {
    hide CanAdd, CertRaw, Mapped;
    var rest, more := chain[1..], raws + [CertRaw(chain[0])];
    NothingMapped(raws, chain);
    if ChainFits(raws, chain) {
      assert CanAdd(raws + Mapped(chain[..0], CertRaw), chain[0]);
      forall i | 0 <= i < |rest|
        ensures rest[i].pub.Some? && CanAdd(more + Mapped(rest[..i], CertRaw), rest[i])
      {
        PrefixMoves(raws, chain, i);
        assert CanAdd(raws + Mapped(chain[..i + 1], CertRaw), chain[i + 1]);
      }
    }
    if chain[0].pub.Some? && CanAdd(raws, chain[0]) && ChainFits(more, rest) {
      forall i | 0 <= i < |chain|
        ensures chain[i].pub.Some? && CanAdd(raws + Mapped(chain[..i], CertRaw), chain[i])
      {
        if i > 0 {
          PrefixMoves(raws, chain, i - 1);
          assert CanAdd(more + Mapped(rest[..i - 1], CertRaw), rest[i - 1]);
        }
      }
    }
  }

  lemma {:induction false} ChainFitsExactly(sd: SignedData, chain: seq<Certificate>, pub: bytes,
      leaf: Option<Certificate>)
    ensures var r := AddChain(sd, chain, pub, leaf);
            && (r.leaf.Ok? <==> ChainFits(CertList(sd), chain))
            && (r.leaf.Ok? ==> CertList(r.sd) == CertList(sd) + Mapped(chain, CertRaw))
    decreases |chain|
  {
    hide AddCertificate, CertRaw, CanAdd, CertList, ChainFits, Mapped;
    if chain == [] {
      NothingFits(CertList(sd));
    } else {
      FirstFits(sd, chain[0]);
      FitsFirst(CertList(sd), chain);
      MappedFirst(chain);
      var added := AddCertificate(sd, chain[0]);
      if added.error.None? && chain[0].pub.Some? {
        var next := if chain[0].pub.value == pub then Some(chain[0]) else leaf;
        ChainFitsExactly(added.sd, chain[1..], pub, next);
        assert CertList(sd) + Mapped(chain, CertRaw)
            == (CertList(sd) + [CertRaw(chain[0])]) + Mapped(chain[1..], CertRaw);
      }
    }
  }

  lemma NothingFits(raws: seq<RawValue>)
    ensures ChainFits(raws, []) && raws + Mapped<Certificate, RawValue>([], CertRaw) == raws
  {
    hide CertRaw;
  }

  lemma FirstFits(sd: SignedData, c: Certificate)
    ensures AddCertificate(sd, c).error.None? <==> CanAdd(CertList(sd), c)
    ensures CanAdd(CertList(sd), c) ==> CertList(AddCertificate(sd, c).sd) == CertList(sd) + [CertRaw(c)]
  {
    hide Unmarshal, CanAdd;
    CertificateExactly(sd, c);
    RawIsFirst(c);
    CanParse(CertList(sd), c);
  }

  lemma CanParse(raws: seq<RawValue>, c: Certificate)
    ensures CanAdd(raws, c) ==> Unmarshal(c.raw).Ok?
  {
    hide Unmarshal;
  }

  lemma {:induction false} ChainLeaf(sd: SignedData, chain: seq<Certificate>, pub: bytes, leaf: Option<Certificate>)
    requires AddChain(sd, chain, pub, leaf).leaf.Ok?
    ensures var found := AddChain(sd, chain, pub, leaf).leaf.value;
            && (forall k :: LastWithKey(chain, pub, k) ==> found == Some(chain[k]))
            && (NoneWithKey(chain, pub) ==> found == leaf)
    decreases |chain|
  {
    hide AddCertificate;
    if chain == [] {
    } else {
      var added := AddCertificate(sd, chain[0]);
      ChainLeaf(added.sd, chain[1..], pub, if chain[0].pub.value == pub then Some(chain[0]) else leaf);
      KeyFirst(chain, pub);
    }
  }

  /**
   * The loop over the chain succeeds exactly when every certificate fits; it then adds the whole
   * chain and nothing else, and picks the last certificate with the key, if there is one.
   */
  lemma ChainExactly(sd: SignedData, chain: seq<Certificate>, pub: bytes)
    ensures var r := AddChain(sd, chain, pub, None);
            && (r.leaf.Ok? <==> ChainFits(CertList(sd), chain))
            && SameButCerts(r.sd, sd)
            && (r.leaf.Ok? ==>
                  && CertList(r.sd) == CertList(sd) + Mapped(chain, CertRaw)
                  && (forall k :: LastWithKey(chain, pub, k) ==> r.leaf.value == Some(chain[k]))
                  && (NoneWithKey(chain, pub) ==> r.leaf.value == None))
  {
    hide AddChain, CertRaw, ChainFits, CertList;
    ChainFitsExactly(sd, chain, pub, None);
    ChainOnly(sd, chain, pub, None);
    if AddChain(sd, chain, pub, None).leaf.Ok? {
      ChainLeaf(sd, chain, pub, None);
    }
  }

  /** The first `n` of the certificates were added one after the other, and no further one can be. */
  ghost predicate AddedUpTo(raws: seq<RawValue>, certs: seq<Certificate>, n: nat, result: seq<RawValue>) {
    && n <= |certs| && result == raws + Mapped(certs[..n], CertRaw)
    && (forall i :: 0 <= i < n ==> CanAdd(raws + Mapped(certs[..i], CertRaw), certs[i]))
    && (n < |certs| ==> !CanAdd(result, certs[n]))
  }

  lemma {:induction false} ListExactly(sd: SignedData, certs: seq<Certificate>) returns (n: nat)
    ensures var r := AddCertificates(sd, certs);
            AddedUpTo(CertList(sd), certs, n, CertList(r.sd)) && (r.error.None? <==> n == |certs|)
    decreases |certs|
  {
    hide AddCertificate, CertRaw, CanAdd, CertList, Mapped;
    NothingMapped(CertList(sd), certs);
    if certs == [] {
      n := 0;
    } else {
      FirstFits(sd, certs[0]);
      CertificateFails(sd, certs[0]);
      var added := AddCertificate(sd, certs[0]);
      if added.error.Some? {
        n := 0;
      } else {
        var k := ListExactly(added.sd, certs[1..]);
        n := k + 1;
        AddedOneMore(CertList(sd), certs, k, CertList(AddCertificates(sd, certs).sd));
      }
    }
  }

  lemma CertificateFails(sd: SignedData, c: Certificate)
    ensures AddCertificate(sd, c).error.Some? ==> AddCertificate(sd, c).sd == sd
  {
    hide Unmarshal;
  }

  /** The first certificate moves from the list to those that are there. */
  lemma PrefixMoves(raws: seq<RawValue>, certs: seq<Certificate>, i: nat)
    requires i < |certs|
    ensures raws + Mapped(certs[..i + 1], CertRaw) == (raws + [CertRaw(certs[0])]) + Mapped(certs[1..][..i], CertRaw)
  {
    hide CertRaw, Mapped;
    var front := certs[..i + 1];
    MappedFirst(front);
    assert front[1..] == certs[1..][..i];
    var tail := Mapped(front[1..], CertRaw);
    assert raws + ([CertRaw(certs[0])] + tail) == (raws + [CertRaw(certs[0])]) + tail;
  }

  lemma NothingMapped(raws: seq<RawValue>, certs: seq<Certificate>)
    ensures raws + Mapped(certs[..0], CertRaw) == raws
  {
    hide CertRaw;
  }

  lemma AddedOneMore(raws: seq<RawValue>, certs: seq<Certificate>, k: nat, result: seq<RawValue>)
    requires certs != [] && CanAdd(raws, certs[0])
    requires AddedUpTo(raws + [CertRaw(certs[0])], certs[1..], k, result)
    ensures AddedUpTo(raws, certs, k + 1, result)
  {
    hide CanAdd, CertRaw, Mapped;
    var rest, more := certs[1..], raws + [CertRaw(certs[0])];
    PrefixMoves(raws, certs, k);
    forall i | 0 <= i < k + 1
      ensures CanAdd(raws + Mapped(certs[..i], CertRaw), certs[i])
    {
      if i == 0 {
        NothingMapped(raws, certs);
      } else {
        PrefixMoves(raws, certs, i - 1);
        assert CanAdd(more + Mapped(rest[..i - 1], CertRaw), rest[i - 1]);
      }
    }
  }

  /**
   * SetCertificates leaves exactly the certificates up to the first that cannot be added, however
   * many there were before, and reports whether these are all.
   */
  lemma SetExactly(sd: SignedData, certs: seq<Certificate>) returns (n: nat)
    ensures var r := ReplaceCertificates(sd, certs);
            && AddedUpTo([], certs, n, CertList(r.sd)) && (r.error.None? <==> n == |certs|)
            && SameButCerts(r.sd, sd)
  {
    hide AddCertificates, AddedUpTo;
    n := ListExactly(sd.(certs := Some([])), certs);
    CertificatesOnly(sd.(certs := Some([])), certs);
  }

  lemma RawIsFirst(c: Certificate)
    ensures Unmarshal(c.raw).Ok? ==> CertRaw(c) == Unmarshal(c.raw).value.value
  {
    hide Unmarshal;
  }

  lemma MappedFirst(chain: seq<Certificate>)
    requires chain != []
    ensures Mapped(chain, CertRaw) == [CertRaw(chain[0])] + Mapped(chain[1..], CertRaw)
  {
    hide CertRaw;
  }

  lemma KeyFirst(chain: seq<Certificate>, pub: bytes)
    requires chain != []
    ensures forall k :: LastWithKey(chain, pub, k) && k > 0 ==> LastWithKey(chain[1..], pub, k - 1)
    ensures LastWithKey(chain, pub, 0) ==> NoneWithKey(chain[1..], pub)
    ensures NoneWithKey(chain, pub) ==> NoneWithKey(chain[1..], pub) && chain[0].pub != Some(pub)
  {
    forall k | LastWithKey(chain, pub, k) && k > 0
      ensures LastWithKey(chain[1..], pub, k - 1)
    {
      assert chain[1..][k - 1] == chain[k];
    }
  }

  // ---------------------------------------------------------------- the new signer

  /**
   * The SignerInfo of AddSignerInfo field by field: version 1, issuer and serial number of the
   * certificate, SHA-256, the three attributes with what they hold, the algorithm of the key with
   * SHA-256, a signature over the attributes as they are marshalled for signing, nothing unsigned.
   */
  ghost predicate SignerHas(env: Crypto, si: SignerInfo, cert: Certificate, signer: Signer, typ: bytes, data: bytes,
      now: Clock)
  {
    && si.version == [0x01] && NewSid(cert) == Ok(si.sid)
    && si.digestAlg == AlgorithmIdentifier(HashToDigest(SHA256), None)
    && si.sigAlg.params.None? && SignatureOid(cert.keyAlg, HashToDigest(SHA256)) == Some(si.sigAlg.oid)
    && si.signedAttrs.Some? && |si.signedAttrs.value| == 3
    && TimeRecorded(si, now)
    && GetOnly(si.signedAttrs, MESSAGE_DIGEST) == Ok(Raw(OCTET_STRING, env.hash(SHA256, data)))
    && GetOnly(si.signedAttrs, CONTENT_TYPE) == Ok(Raw(OID, typ))
    && MarshaledForSigning(si.signedAttrs.value).Ok?
    && signer.sign(env.hash(SHA256, MarshaledForSigning(si.signedAttrs.value).value), SHA256) == Some(si.signature)
    && si.unsignedAttrs.None?
  }

  lemma MadeFields(env: Crypto, eci: EncapContent, cert: Certificate, signer: Signer, now: Clock)
    requires Sha256Length(env) && |eci.typ| < MAX_READABLE && MakeSigner(env, eci, cert, signer, now).Ok?
    ensures EContentValue(eci).Ok? && EContentValue(eci).value.Some?
    ensures SignerHas(env, MakeSigner(env, eci, cert, signer, now).value, cert, signer, eci.typ,
                      EContentValue(eci).value.value, now)
  {
    hide NewSid, EContentValue, GetOnly, SignatureOid, MarshaledForSigning, BuildAttributes, DigestToHash,
      TimeRecorded;
    DigestMapsInverse(OID_SHA256, SHA256);
    var digest := env.hash(SHA256, EContentValue(eci).value.value);
    assert |digest| == 32;
    MadeRecords(env, eci, cert, signer, now);
    BuiltFields(now, digest, eci.typ);
  }

  lemma BuiltFields(now: Clock, digest: bytes, typ: bytes)
    requires |digest| == 32 && |typ| < MAX_READABLE && BuildAttributes(now, digest, typ).Ok?
    ensures var attrs := BuildAttributes(now, digest, typ).value;
            && |attrs| == 3
            && GetOnly(Some(attrs), MESSAGE_DIGEST) == Ok(Raw(OCTET_STRING, digest))
            && GetOnly(Some(attrs), CONTENT_TYPE) == Ok(Raw(OID, typ))
  {
    hide GetOnly, GeneratedAttributes, SortAttributes, BuildAttributes, IsParsed, Tlv, ClockValue;
    ClockUsed(now, digest, typ);
    BuiltAttributes(now, digest, typ);
    TimeShape(ClockValue(now).value);
    GeneratedFound(ClockValue(now).value, digest, typ);
    SortedCount(GeneratedAttributes(ClockValue(now).value, digest, typ));
  }

  lemma SortedCount(attrs: seq<Attribute>)
    ensures |SortAttributes(attrs)| == |attrs|
  {
    hide ValueKey;
    SortByKeys(attrs, ValueKey);
  }

  /**
   * A successful AddSignerInfo, on any SignedData: the chain fits and is added whole, the last of
   * its certificates with the signer's key signs, the algorithm is listed, the signer is appended,
   * and everything else stays.
   */
  lemma SignerAdded(env: Crypto, sd: SignedData, call: SignCall) returns (k: int, data: bytes)
    requires Sha256Length(env) && |sd.eci.typ| < MAX_READABLE
    requires AddSignerInfo(env, sd, call.chain, call.signer, call.now).error.None?
    ensures call.signer.pub.Some? && LastWithKey(call.chain, call.signer.pub.value, k)
    ensures ChainFits(CertList(sd), call.chain) && EContentValue(sd.eci) == Ok(Some(data))
    ensures var end := AddSignerInfo(env, sd, call.chain, call.signer, call.now).sd;
            && CertList(end) == CertList(sd) + Mapped(call.chain, CertRaw)
            && |end.signerInfos| == |sd.signerInfos| + 1
            && end.signerInfos[..|sd.signerInfos|] == sd.signerInfos
            && SignerHas(env, end.signerInfos[|sd.signerInfos|], call.chain[k], call.signer, sd.eci.typ, data,
                            call.now)
            && (forall a :: a in end.digestAlgs ==> a in sd.digestAlgs || a == DIGEST_ALGORITHM)
            && (exists a :: a in end.digestAlgs && a.oid == HashToDigest(SHA256))
            && end == sd.(certs := end.certs, signerInfos := end.signerInfos, digestAlgs := end.digestAlgs)
  {
    hide AddChain, MakeSigner, SignerHas, Sha256Length, CertRaw, ChainFits, EContentValue, LastWithKey, NoneWithKey;
    var pub := call.signer.pub.value;
    var added := AddChain(sd, call.chain, pub, None);
    ChainExactly(sd, call.chain, pub);
    k := KeyOrNone(call.chain, pub);
    var made := MakeSigner(env, added.sd.eci, added.leaf.value.value, call.signer, call.now).value;
    MadeFields(env, added.sd.eci, added.leaf.value.value, call.signer, call.now);
    MadeDigest(env, added.sd.eci, added.leaf.value.value, call.signer, call.now);
    data := EContentValue(sd.eci).value.value;
    var end := AddSignerInfo(env, sd, call.chain, call.signer, call.now).sd;
    SameList(added.sd, end);
    DigestListed(added.sd.digestAlgs);
  }

  lemma {:induction false} KeyOrNone(chain: seq<Certificate>, pub: bytes) returns (k: int)
    ensures LastWithKey(chain, pub, k) || NoneWithKey(chain, pub)
  {
    if chain == [] {
      k := -1;
    } else if chain[|chain| - 1].pub == Some(pub) {
      k := |chain| - 1;
    } else {
      k := KeyOrNone(chain[..|chain| - 1], pub);
    }
  }

  lemma DigestListed(algs: seq<AlgorithmIdentifier>)
    ensures exists a :: a in AddDigest(algs, DIGEST_ALGORITHM) && a.oid == HashToDigest(SHA256)
    ensures forall a :: a in AddDigest(algs, DIGEST_ALGORITHM) ==> a in algs || a == DIGEST_ALGORITHM
  {
    if i :| 0 <= i < |algs| && algs[i].oid == DIGEST_ALGORITHM.oid {
      assert algs[i] in AddDigest(algs, DIGEST_ALGORITHM);
    } else {
      assert DIGEST_ALGORITHM in AddDigest(algs, DIGEST_ALGORITHM);
    }
  }
}
