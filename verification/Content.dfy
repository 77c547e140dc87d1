/**
 * Encapsulated content in pieces: an OCTET STRING split into any chunks, written in any length
 * form, is the same content to every reader (protocol.go:136-186, ber.go:57-75).
 */
module Content {
  import opened Bytes
  import opened Errors
  import opened Lengths
  import opened NormalForm
  import opened Order
  import opened Asn1
  import opened Attributes
  import opened Cms
  import opened WireProofs
  import opened Environment
  import opened SigningProofs
  import opened Verification
  import opened SignVerify
  import opened EndToEnd
  import opened SignedMessages
  import opened Nesting
  import Ber
  import BerProofs

  /** The chunks as primitive OCTET STRINGs, one after the other. */
  function Chunks(chunks: seq<bytes>): bytes {
    if chunks == [] then [] else Tlv(OCTET_STRING, chunks[0]) + Chunks(chunks[1..])
  }

  /** `[0] { constructed OCTET STRING { chunks } }`, as gpgsm writes it. */
  function ChunkedContent(typ: bytes, chunks: seq<bytes>): EncapContent {
    EncapContent(typ, Some(RawValue(CONTEXT_0, Tlv(OCTET_STRING_COMPOUND, Chunks(chunks)), [])))
  }

  lemma {:induction false} ChunksJoined(chunks: seq<bytes>)
    requires |Chunks(chunks)| < MAX_READABLE
    ensures JoinChunks(Chunks(chunks)) == Ok(Flatten(chunks)) && IsDerSeq(Chunks(chunks))
    ensures |Flatten(chunks)| <= |Chunks(chunks)|
  {
    hide Unmarshal, Tlv, IsDer, IsDerSeq;
    if chunks == [] {
      DerSeqNil();
    } else {
      TlvSize(OCTET_STRING, chunks[0]);
      UnmarshalTlv(OCTET_STRING, chunks[0], Chunks(chunks[1..]));
      ChunksJoined(chunks[1..]);
      DerPrimitive(OCTET_STRING, chunks[0]);
      DerSeqCons(Tlv(OCTET_STRING, chunks[0]), Chunks(chunks[1..]));
    }
  }

  /** The value is the concatenation; when that is empty, it reads as missing content. */
  lemma ChunkedValue(typ: bytes, chunks: seq<bytes>)
    requires |Chunks(chunks)| < MAX_READABLE
    ensures var m := Flatten(chunks);
            EContentValue(ChunkedContent(typ, chunks)) == Ok(if m == [] then None else Some(m))
  {
    hide Unmarshal, Tlv, Flatten, Chunks, JoinChunks, IsDerSeq;
    ChunksJoined(chunks);
    OwnTlv(OCTET_STRING_COMPOUND, Chunks(chunks));
  }

  predicate SmallChunks(chunks: seq<bytes>) {
    forall i :: 0 <= i < |chunks| ==> |chunks[i]| < MAX_READABLE
  }

  /** Sub-strings are joined exactly when they are primitive OCTET STRINGs, one after the other, and nothing else. */
  lemma JoinedExactly(s: bytes, joined: bytes)
    ensures JoinChunks(s) == Ok(joined)
            <==> exists chunks :: SmallChunks(chunks) && Chunks(chunks) == s && Flatten(chunks) == joined
  {
    hide Unmarshal, Tlv;
    if JoinChunks(s) == Ok(joined) {
      var chunks := ChunksFound(s);
    }
    if chunks :| SmallChunks(chunks) && Chunks(chunks) == s && Flatten(chunks) == joined {
      ChunksTaken(chunks);
    }
  }

  lemma {:induction false} ChunksFound(s: bytes) returns (chunks: seq<bytes>)
    requires JoinChunks(s).Ok?
    ensures SmallChunks(chunks) && Chunks(chunks) == s && Flatten(chunks) == JoinChunks(s).value
    decreases |s|
  {
    hide Unmarshal, Tlv, IsParsed;
    if s == [] {
      chunks := [];
    } else {
      var p := Unmarshal(s).value;
      UnmarshalInverse(s);
      ParsedSmall(p.value);
      var more := ChunksFound(p.rest);
      chunks := [p.value.content] + more;
      assert chunks[1..] == more;
      OctetString(p.value);
    }
  }

  lemma OctetString(rv: RawValue)
    requires IsParsed(rv) && rv.id == OCTET_STRING
    ensures rv.full == Tlv(OCTET_STRING, rv.content)
  {
  }

  lemma {:induction false} ChunksTaken(chunks: seq<bytes>)
    requires SmallChunks(chunks)
    ensures JoinChunks(Chunks(chunks)) == Ok(Flatten(chunks))
  {
    hide Unmarshal, Tlv;
    if chunks == [] {
    } else {
      TlvSize(OCTET_STRING, chunks[0]);
      UnmarshalTlv(OCTET_STRING, chunks[0], Chunks(chunks[1..]));
      ChunksTaken(chunks[1..]);
    }
  }

  /** The content is an OCTET STRING, primitive or constructed of primitive ones; the latter all empty is no value. */
  ghost predicate HoldsValue(octets: RawValue, value: Option<bytes>) {
    || (octets.id == [0x04] && value == Some(octets.content))
    || (octets.id == [0x24]
        && exists chunks :: SmallChunks(chunks) && Chunks(chunks) == octets.content
                            && value == if Flatten(chunks) == [] then None else Some(Flatten(chunks)))
  }

  /** EContentValue succeeds exactly on missing content and on one whole TLV that holds the value. */
  lemma ValueExactly(eci: EncapContent, value: Option<bytes>)
    ensures EContentValue(eci) == Ok(value)
            <==> match eci.content
                 case None => value == None
                 case Some(rv) => exists octets :: IsParsed(octets) && octets.full == rv.content
                                                   && HoldsValue(octets, value)
  {
    hide Unmarshal, IsParsed, JoinChunks, Flatten, Chunks, SmallChunks;
    if eci.content.Some? {
      var s := eci.content.value.content;
      if EContentValue(eci) == Ok(value) {
        var octets := Unmarshal(s).value.value;
        UnmarshalInverse(s);
        assert octets.full + [] == octets.full;
        if octets.id != OCTET_STRING {
          JoinedExactly(octets.content, JoinChunks(octets.content).value);
        }
        assert HoldsValue(octets, value);
      }
      if octets :| IsParsed(octets) && octets.full == s && HoldsValue(octets, value) {
        UnmarshalRaw(octets, []);
        assert octets.full + [] == octets.full;
        if octets.id != OCTET_STRING {
          var chunks :| SmallChunks(chunks) && Chunks(chunks) == octets.content
              && value == if Flatten(chunks) == [] then None else Some(Flatten(chunks));
          JoinedExactly(octets.content, Flatten(chunks));
        }
      }
    }
  }

  /** Split and unsplit content have the same value exactly when there is any. */
  lemma SplitAsUnsplit(typ: bytes, chunks: seq<bytes>)
    requires |Chunks(chunks)| < MAX_READABLE
    ensures EContentValue(ChunkedContent(typ, chunks)) == EContentValue(NewEncapContent(typ, Flatten(chunks)))
            <==> Flatten(chunks) != []
  {
    hide EContentValue, Flatten, Chunks, NewEncapContent, ChunkedContent;
    ChunkedValue(typ, chunks);
    assert |Flatten(chunks)| <= |Chunks(chunks)| by { ChunksJoined(chunks); }
    NewContent(typ, Flatten(chunks));
  }

  /** All ways to write one tree parse to the same message, whatever follows them. */
  lemma AnyFormParses(a: Ber.Ber, b: Ber.Ber, x: bytes, y: bytes)
    requires Ber.Admissible(a) && Ber.Admissible(b) && Ber.Erase(a) == Ber.Erase(b)
    ensures ParseSignedData(Ber.Encode(a) + x) == ParseSignedData(Ber.Encode(b) + y)
  {
    hide Ber.Ber2Der, Ber.Der, Ber.Encode, Ber.Admissible, Ber.Erase, UnmarshalWhole, SignedDataContent;
    NormalFormOfEncoding(a, x);
    NormalFormOfEncoding(b, y);
  }

  lemma ChunkedWritable(typ: bytes, chunks: seq<bytes>)
    requires ValidOid(typ) && |Tlv(OCTET_STRING_COMPOUND, Chunks(chunks))| < MAX_READABLE
    ensures var e := ChunkedContent(typ, chunks);
            WfEncap(e) && IsDer(Completed(e.content.value).full)
  {
    hide Tlv, Chunks, IsDer, IsDerSeq, ValidOid, IsParsed, Completed, ChunkedContent, JoinChunks, Flatten;
    var inner := Tlv(OCTET_STRING_COMPOUND, Chunks(chunks));
    TlvSize(OCTET_STRING_COMPOUND, Chunks(chunks));
    ChunksJoined(chunks);
    DerConstructed(OCTET_STRING_COMPOUND, Chunks(chunks));
    DerWrapped(CONTEXT_0, inner);
    SmallRaw(CONTEXT_0, inner);
    ChunkedShape(typ, chunks);
  }

  lemma ChunkedShape(typ: bytes, chunks: seq<bytes>)
    ensures var e := ChunkedContent(typ, chunks);
            var inner := Tlv(OCTET_STRING_COMPOUND, Chunks(chunks));
            && e.typ == typ && e.content.Some? && e.content.value.id == CONTEXT_0 && e.content.value.content == inner
            && inner != [] && Completed(e.content.value) == Raw(CONTEXT_0, inner)
  {
    hide Chunks;
  }

  lemma ContentSize(sd: SignedData, typ: bytes, chunks: seq<bytes>)
    requires sd.eci == ChunkedContent(typ, chunks) && |ToDer(sd)| < MAX_READABLE
    ensures |Tlv(OCTET_STRING_COMPOUND, Chunks(chunks))| < MAX_READABLE && |Chunks(chunks)| < MAX_READABLE
  {
    hide Tlv, FieldsBytes, Chunks;
    InfoSize(sd);
    var vs := SignedFields(sd);
    TlvSize(SEQUENCE, FieldsBytes(vs));
    FieldPart(vs, 2);
    var es := EncapFields(sd.eci);
    TlvSize(SEQUENCE, FieldsBytes(es));
    FieldPart(es, 1);
    TlvSize(CONTEXT_0, Tlv(OCTET_STRING_COMPOUND, Chunks(chunks)));
    TlvSize(OCTET_STRING_COMPOUND, Chunks(chunks));
  }

  /** Verification looks at the encapsulated content only through its value and its type. */
  lemma OnlyTheValue(w: World, a: SignedData, b: SignedData, opts: VerifyOptions, pool: set<Certificate>)
    requires a == b.(eci := a.eci) && a.eci.typ == b.eci.typ && EContentValue(a.eci) == EContentValue(b.eci)
    ensures Verify(w, a, opts, pool) == Verify(w, b, opts, pool)
  {
    hide EContentValue, VerifySigners, LargestSize, X509Certificates;
    assert X509Certificates(w.crypto, a) == X509Certificates(w.crypto, b) by { SameCertificates(w.crypto, a, b); }
  }

  lemma SameCertificates(env: Crypto, a: SignedData, b: SignedData)
    requires a.certs == b.certs
    ensures X509Certificates(env, a) == X509Certificates(env, b)
  {
    hide ParseAll;
  }

  lemma CanonOfChunked(sd: SignedData, e: EncapContent)
    ensures var c := Canon(sd.(eci := e));
            && c == Canon(sd).(eci := CanonEncap(e)) && c.eci.typ == e.typ && EContentValue(c.eci) == EContentValue(e)
  {
    hide EContentValue, SortBy, Completed;
    CanonContent(e);
  }

  lemma SameDer(x: bytes, y: bytes)
    requires Ber.Ber2Der(x) == Ber.Ber2Der(y)
    ensures ParseSignedData(x) == ParseSignedData(y)
  {
    hide Ber.Ber2Der, UnmarshalWhole, SignedDataContent;
  }

  lemma ErasedFixed(b: Ber.Ber, der: bytes)
    requires Ber.Admissible(b) && Ber.Der(Ber.Erase(b)) == der && |der| < MAX_READABLE
    ensures Ber.Ber2Der(der) == Ok(der)
  {
    hide Ber.Ber2Der, Ber.Der, Ber.Admissible, Ber.Erase, Ber.ValidObj;
    ErasedValid(b);
    Ber2DerFixed(der);
  }

  lemma EncapOid(e: EncapContent)
    requires WfEncap(e)
    ensures ValidOid(e.typ)
  {
  }

  /**
   * A message whose content is cut into any chunks and written in any admissible length forms
   * parses, and Verify answers as it does for the unsplit DER message, unless the content is
   * empty: then it takes the signature for a detached one.
   */
  lemma ChunkedMessageVerifies(w: World, sd: SignedData, chunks: seq<bytes>, b: Ber.Ber, rest: bytes,
      opts: VerifyOptions, pool: set<Certificate>)
    requires WfSigned(sd) && DeepSigned(sd) && sd.eci == NewEncapContent(sd.eci.typ, Flatten(chunks))
    requires |ToDer(sd)| < MAX_READABLE
    requires var chunked := sd.(eci := ChunkedContent(sd.eci.typ, chunks));
             |ToDer(chunked)| < MAX_READABLE && Ber.Admissible(b) && Ber.Der(Ber.Erase(b)) == ToDer(chunked)
    ensures var plain := ParseSignedData(ToDer(sd));
            var split := ParseSignedData(Ber.Encode(b) + rest);
            && plain.Ok? && split.Ok?
            && Verify(w, split.value, opts, pool)
               == if Flatten(chunks) == [] then Verified(Err(DetachedSignature), pool)
                  else Verify(w, plain.value, opts, pool)
  {
    hide Ber.Ber2Der, Ber.Der, Ber.Encode, Ber.Admissible, Ber.Erase, ToDer, Canon, EContentValue, NewEncapContent,
      VerifyContent, LargestSize, Flatten, WfEncap, IsDer, Completed, Chunks, WfSigner, DeepSigner, WfAlg, DeepAlg,
      Tlv, ChunkedContent, SignedDataContent, UnmarshalWhole;
    var typ := sd.eci.typ;
    var e := ChunkedContent(typ, chunks);
    var chunked := sd.(eci := e);
    ContentSize(chunked, typ, chunks);
    assert e.content.Some? && e.typ == typ by { ChunkedShape(typ, chunks); }
    assert ValidOid(typ) by { EncapOid(sd.eci); }
    ChunkedWritable(typ, chunks);
    ParseAfterToDer(sd);
    ParseAfterToDer(chunked);
    NormalFormOfEncoding(b, rest);
    assert Ber.Ber2Der(ToDer(chunked)) == Ok(ToDer(chunked)) by { ErasedFixed(b, ToDer(chunked)); }
    SameDer(Ber.Encode(b) + rest, ToDer(chunked));
    CanonOfChunked(sd, e);
    CanonOfChunked(sd, sd.eci);
    ChunkedValue(typ, chunks);
    assert |Flatten(chunks)| < MAX_READABLE by { ChunksJoined(chunks); }
    NewContent(typ, Flatten(chunks));
    assert sd.(eci := sd.eci) == sd;
    if Flatten(chunks) != [] {
      OnlyTheValue(w, Canon(chunked), Canon(sd), opts, pool);
    }
  }

  // ---------------------------------------------------------------- octets after the message

  /** Whatever follows a message is not looked at. */
  lemma TrailingIgnored(x: bytes, t: bytes)
    requires x != [] && Settled(Ber.Ber2Der(x))
    ensures ParseSignedData(x + t) == ParseSignedData(x)
  {
    hide Ber.Ber2Der, Settled, ParseSignedData;
    ExtensionIndependent(x, t);
    SameDer(x + t, x);
  }

  lemma {:induction false} FieldsError(s: bytes, fs: seq<Field>)
    ensures ParseFields(s, fs).Err? ==> ParseFields(s, fs).error == BadAsn1
    decreases |fs|
  {
    hide ReadTlvHeader, Unmarshal;
    if fs == [] {
    } else {
      HeaderError(s);
      if ParseField(s, fs[0]).Ok? {
        FieldsError(ParseField(s, fs[0]).value.rest, fs[1..]);
      }
    }
  }

  lemma HeaderError(s: bytes)
    ensures ReadTlvHeader(s).Err? ==> ReadTlvHeader(s).error == BadAsn1
    ensures Unmarshal(s).Err? ==> Unmarshal(s).error == BadAsn1
  {
    hide Ber.ReadTag, Ber.ReadLength, GoodId;
  }

  lemma InfoError(rv: RawValue)
    ensures DecodeInfo(rv).Err? ==> DecodeInfo(rv).error == BadAsn1
  {
    hide ParseFields, ValidOid;
    FieldsError(rv.content, INFO_SCHEMA);
  }

  /** So ParseContentInfo never finds trailing data: BER2DER has dropped it before. */
  lemma NeverTrailing(x: bytes)
    requires Ber.Ber2Der(x).Ok? ==> |Ber.Ber2Der(x).value| < GO_INT_LIMIT
    ensures ParseContentInfo(x) != Err(TrailingData)
  {
    hide Ber.Parse, Ber.Der, Unmarshal, DecodeInfo, Ber.ValidObj;
    if Ber.Ber2Der(x).Ok? && Unmarshal(Ber.Ber2Der(x).value).Ok? {
      var o := Ber.Parse(x).value.obj;
      BerProofs.ParseValid(x);
      OneObject(o);
      InfoError(Unmarshal(Ber.Der(o)).value.value);
    }
    if Ber.Ber2Der(x).Ok? {
      HeaderError(Ber.Ber2Der(x).value);
    }
  }

  lemma OneObject(o: Ber.Obj)
    requires Ber.ValidObj(o) && |Ber.Der(o)| < GO_INT_LIMIT && Unmarshal(Ber.Der(o)).Ok?
    ensures Unmarshal(Ber.Der(o)).value.rest == []
  {
    hide Ber.Der, Unmarshal, Ber.ValidObj;
    assert [o][1..] == [];
    assert Ber.DerSeq([o]) == Ber.Der(o) + [] == Ber.Der(o);
    assert Ber.ValidObjs([o]);
    SplitForest([o]);
  }
}
