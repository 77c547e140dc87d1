/** Fetching, attaching and checking timestamp tokens (timestamp.go:17-119). */
module Tokens {
  import opened Bytes
  import opened Lengths
  import opened NormalForm
  import opened Asn1
  import opened Attributes
  import opened Cms
  import opened WireProofs
  import opened Environment
  import opened Timestamp
  import opened Signing
  import opened SigningProofs
  import opened Nesting
  import opened Verification
  import opened VerifySoundness
  import opened SignVerify
  import Ber
  import BerProofs

  // ---------------------------------------------------------------- the imprint

  /** An answer that matches the request has its nonce and passes the imprint check on the same signature. */
  lemma MatchPassesCheck(env: Crypto, si: SignerInfo, nonce: bytes, info: Info)
    requires TsRequest(env, si, nonce).Ok? && Matches(TsRequest(env, si, nonce).value, info) == Some(true)
    ensures CheckImprint(env, info, si.signature) == Ok(info) && info.nonce == Some(nonce)
  {
    hide DigestToHash, HashToDigest;
    var h := SignerHash(env, si).value;
    DigestMapsInverse(HashToDigest(h), h);
  }

  // ---------------------------------------------------------------- the token survives re-encoding

  /** The content of a parsed answer's token is DER. */
  lemma TokenDeep(ber: bytes)
    requires ParseResponse(ber).Ok? && ParseResponse(ber).value.token.Some?
    ensures var ci := ParseResponse(ber).value.token.value;
            && ValidOid(ci.typ) && |ci.typ| < MAX_READABLE && DeepRaw(ci.content)
            && (ci.content.id == CONTEXT_0 || ci.content.content == [])
  {
    hide Unmarshal, ParseFields, Ber.Parse, Ber.Der, Ber.ValidObj, DecodeStatus, DeepRaw, ValidOid;
    var o := Ber.Parse(ber).value.obj;
    var der := Ber.Der(o);
    BerProofs.ParseValid(ber);
    WholeDeep(der, o);
    var rv := Unmarshal(der).value.value;
    SequenceContent(rv, SEQUENCE);
    FieldsDeep(rv.content, RESPONSE_SCHEMA);
    FieldIds(rv.content, RESPONSE_SCHEMA, 1);
    var token := ParseFields(rv.content, RESPONSE_SCHEMA).value[1].value;
    SequenceContent(token, SEQUENCE);
    FieldsDeep(token.content, INFO_SCHEMA);
    FieldIds(token.content, INFO_SCHEMA, 1);
    DeepSmall(ParseFields(token.content, INFO_SCHEMA).value[0].value);
  }

  lemma DeepSmall(rv: RawValue)
    requires DeepRaw(rv)
    ensures |rv.content| < MAX_READABLE && |rv.full| < 2 * MAX_READABLE && Completed(rv) == rv
  {
    hide IsDer, IsDerSeq, IsParsed;
    ParsedSmall(rv);
    ParsedFullBound(rv);
    ParsedNonEmpty(rv);
  }

  lemma InfoConforms(ci: ContentInfo)
    requires ValidOid(ci.typ) && |ci.typ| < MAX_READABLE && DeepRaw(ci.content)
    requires ci.content.id == CONTEXT_0 && ci.content.content != []
    ensures Conforms(InfoFields(ci), INFO_SCHEMA)
    ensures |FieldsBytes(InfoFields(ci))| < GO_INT_LIMIT && IsDerSeq(FieldsBytes(InfoFields(ci)))
  {
    hide ValidOid, IsDer, IsDerSeq, IsParsed, Tlv, FieldsBytes;
    var vs := InfoFields(ci);
    DeepSmall(ci.content);
    SmallRaw(OID, ci.typ);
    TlvBound(OID, ci.typ);
    TwoFieldsBytes(Raw(OID, ci.typ), ci.content);
    DerPrimitive(OID, ci.typ);
    DerFields(vs);
    assert vs[1..] == [Some(ci.content)] && INFO_SCHEMA[1..] == [Explicit0];
    assert Conforms([Some(ci.content)], [Explicit0]);
  }

  /** The marshalled token of an answer parses back to the same ContentInfo. */
  lemma TokenReparsed(ci: ContentInfo)
    requires ValidOid(ci.typ) && |ci.typ| < MAX_READABLE && DeepRaw(ci.content)
    requires ci.content.id == CONTEXT_0 && ci.content.content != []
    requires Unmarshal(InfoRaw(ci).full).Ok?
    ensures ParseContentInfo(InfoRaw(ci).full) == Ok(ci)
    ensures Unmarshal(InfoRaw(ci).full) == Ok(Asn1.Split(InfoRaw(ci), [])) && IsParsed(InfoRaw(ci))
    ensures IsDer(InfoRaw(ci).full) && Ber.Ber2Der(InfoRaw(ci).full) == Ok(InfoRaw(ci).full)
  {
    hide ValidOid, IsDer, IsDerSeq, IsParsed, Tlv, FieldsBytes, DeepRaw, Unmarshal, ParseFields, Conforms, Ber.Ber2Der;
    var body := FieldsBytes(InfoFields(ci));
    InfoConforms(ci);
    OwnTlv(SEQUENCE, body);
    SequenceParsed(body);
    FieldsRoundTrip(InfoFields(ci), INFO_SCHEMA);
    DeepSmall(ci.content);
    DerConstructed(SEQUENCE, body);
    SequenceFixed(body);
  }

  lemma SequenceFixed(body: bytes)
    requires IsDer(Tlv(SEQUENCE, body)) && |body| < MAX_READABLE
    ensures Ber.Ber2Der(Tlv(SEQUENCE, body)) == Ok(Tlv(SEQUENCE, body))
  {
    hide Ber.Parse, Ber.Der, Ber.ValidObj, Ber.Body, Tlv;
    var d := Tlv(SEQUENCE, body);
    var o: Ber.Obj :| Ber.ValidObj(o) && Ber.Der(o) == d;
    DerIsTlv(o);
    ObjTag(o);
    TlvBound(SEQUENCE, body);
    SequenceTag();
    assert d + [] == d;
    TlvPrefixFree(SEQUENCE, body, [], o.tag, Ber.Body(o), []);
    ReadsBack(o, []);
  }

  lemma SequenceTag()
    ensures Ber.ValidTag(SEQUENCE)
  {
  }

  /**
   * A fetched token, taken apart: a single-valued attribute whose value parses to a SignedData
   * with a TSTInfo that has the nonce of the request and stands for exactly this signature.
   */
  lemma FetchedToken(w: World, si: SignerInfo, x: Exchange)
    returns (rv: RawValue, tst: SignedData, info: Info)
    requires FetchTs(w.crypto, w.parseInfo, si, x).Ok?
    ensures FetchTs(w.crypto, w.parseInfo, si, x).value == Single(TIME_STAMP_TOKEN, rv)
    ensures IsParsed(rv) && IsDer(rv.full)
    ensures ParseSignedData(rv.full) == Ok(tst) && ParseInfo(w.parseInfo, tst.eci) == Ok(info)
    ensures CheckImprint(w.crypto, info, si.signature) == Ok(info) && info.nonce == Some(x.nonce)
  {
    hide ParseResponse, SignedDataContent, ParseInfo, Matches, TsRequest, CheckImprint, Unmarshal, DeepRaw, ValidOid,
      InfoRaw, IsParsed, NewAttribute, ParseContentInfo;
    var resp := ParseResponse(x.reply.value).value;
    info := ResponseInfo(w.parseInfo, resp).value;
    var ci := resp.token.value;
    tst := SignedDataContent(ci).value;
    rv := InfoRaw(ci);
    MatchPassesCheck(w.crypto, si, x.nonce, info);
    TokenDeep(x.reply.value);
    ContentNotEmpty(ci);
    AttributeUnmarshals(InfoRaw(ci).full);
    TokenReparsed(ci);
    NewAttributeSingle(TIME_STAMP_TOKEN, rv, []);
    assert rv.full + [] == rv.full;
  }

  lemma AttributeUnmarshals(der: bytes)
    requires NewAttribute(TIME_STAMP_TOKEN, der).Ok?
    ensures Unmarshal(der).Ok?
  {
    hide Unmarshal;
  }

  // ---------------------------------------------------------------- attached tokens

  lemma AppendedOnly(attrs: seq<Attribute>, a: Attribute, rv: RawValue)
    requires (forall i :: 0 <= i < |attrs| ==> attrs[i].typ != TIME_STAMP_TOKEN)
    requires a == Single(TIME_STAMP_TOKEN, rv) && IsParsed(rv)
    ensures GetOnly(Some(attrs + [a]), TIME_STAMP_TOKEN) == Ok(rv)
  {
    hide GetOnly, DecodeAnySet, IsParsed, Single;
    SingleType(rv);
    SingleDecodes(TIME_STAMP_TOKEN, rv);
    assert OnlyAt(attrs + [a], TIME_STAMP_TOKEN, |attrs|);
    assert (attrs + [a])[|attrs|] == a;
    GetOnlyExact(Some(attrs + [a]), TIME_STAMP_TOKEN, rv);
  }

  lemma SingleType(rv: RawValue)
    ensures Single(TIME_STAMP_TOKEN, rv).typ == TIME_STAMP_TOKEN
  {
  }

  /**
   * What fetchTS accepted, getTimestamp accepts on the unchanged signature: the imprint always
   * fits, so only the version and the token's own signatures decide.
   */
  lemma AttachedTokenChecks(w: World, si: SignerInfo, x: Exchange, opts: VerifyOptions, pool: set<Certificate>)
    requires FetchTs(w.crypto, w.parseInfo, si, x).Ok? && !Stamped(si)
    ensures var stamped := AddUnsigned(si, FetchTs(w.crypto, w.parseInfo, si, x).value);
            && OpenedInfo(w, stamped).Ok?
            && var tst := OpenedInfo(w, stamped).value.0;
            var info := OpenedInfo(w, stamped).value.1;
            && (GetTimestamp(w, stamped, opts, pool).result.Ok?
                <==> info.version == 1 && Verify(w, tst, opts, pool).result.Ok?)
            && (GetTimestamp(w, stamped, opts, pool).result.Ok?
               ==> GetTimestamp(w, stamped, opts, pool).result == Ok(info))
  {
    hide FetchTs, ParseSignedData, ParseInfo, CheckImprint, Verify, GetOnly, IsParsed, Single, LargestSize, TokenSize;
    var a := FetchTs(w.crypto, w.parseInfo, si, x).value;
    var rv, tst, info := FetchedToken(w, si, x);
    var stamped := AddUnsigned(si, a);
    assert forall i :: 0 <= i < |UnsignedList(si)| ==> UnsignedList(si)[i].typ != TIME_STAMP_TOKEN;
    AppendedOnly(UnsignedList(si), a, rv);
    assert stamped.unsignedAttrs == Some(UnsignedList(si) + [a]);
    assert Token(stamped) == Ok(rv);
  }

  /** The SignedData and TSTInfo inside a signer's token. */
  function OpenedInfo(w: World, si: SignerInfo): CmsOutcome<(SignedData, Info)> {
    var rv :- Token(si);
    var tst :- ParseSignedData(rv.full);
    var info :- ParseInfo(w.parseInfo, tst.eci);
    Ok((tst, info))
  }

  /** A second token on the same signer makes getTimestamp reject both. */
  lemma SecondTokenRejected(w: World, si: SignerInfo, a: Attribute, opts: VerifyOptions, pool: set<Certificate>)
    requires Stamped(si) && a.typ == TIME_STAMP_TOKEN
    ensures GetTimestamp(w, AddUnsigned(si, a), opts, pool).result.Err?
  {
    hide GetOnly, OpenToken, Verify, CheckImprint, DecodeAnySet, TokenSize, LargestSize;
    var attrs := UnsignedList(si);
    var more := attrs + [a];
    var i :| 0 <= i < |attrs| && attrs[i].typ == TIME_STAMP_TOKEN;
    assert more[i] == attrs[i] && more[|attrs|] == a;
    if GetOnly(Some(more), TIME_STAMP_TOKEN).Ok? {
      GetOnlyExact(Some(more), TIME_STAMP_TOKEN, GetOnly(Some(more), TIME_STAMP_TOKEN).value);
    }
    assert AddUnsigned(si, a).unsignedAttrs == Some(more);
  }

  lemma FetchedType(env: Crypto, parse: bytes -> Option<Info>, si: SignerInfo, x: Exchange)
    requires FetchTs(env, parse, si, x).Ok?
    ensures FetchTs(env, parse, si, x).value.typ == TIME_STAMP_TOKEN
  {
    hide TsRequest, ParseResponse, ResponseInfo, Matches, InfoRaw, Unmarshal;
  }

  /** AddTimestamps gives every SignerInfo exactly one more token, or changes nothing. */
  lemma AllOrNothing(w: World, sd: SignedData, xs: seq<Exchange>)
    ensures var step := AddTimestamps(w.crypto, w.parseInfo, sd, xs);
            if step.error.Some? then step.sd == sd
            else
              && step.sd == sd.(signerInfos := step.sd.signerInfos)
              && |step.sd.signerInfos| == |sd.signerInfos|
              && forall i :: 0 <= i < |sd.signerInfos| ==> OneMoreToken(sd.signerInfos[i], step.sd.signerInfos[i])
    ensures AddTimestamps(w.crypto, w.parseInfo, sd, xs).error.None? <==>
              |sd.signerInfos| <= |xs| &&
              forall i :: 0 <= i < |sd.signerInfos| ==> FetchTs(w.crypto, w.parseInfo, sd.signerInfos[i], xs[i]).Ok?
  {
    hide FetchTs, FetchAll;
    var fetched := FetchAll(w.crypto, w.parseInfo, sd.signerInfos, xs);
    FetchedEach(w.crypto, w.parseInfo, sd.signerInfos, xs);
    if fetched.Ok? {
      forall i | 0 <= i < |sd.signerInfos|
        ensures fetched.value[i].typ == TIME_STAMP_TOKEN
      {
        FetchedType(w.crypto, w.parseInfo, sd.signerInfos[i], xs[i]);
      }
    } else {
      FetchFails(w.crypto, w.parseInfo, sd.signerInfos, xs);
    }
  }

  predicate OneMoreToken(before: SignerInfo, after: SignerInfo) {
    && after == before.(unsignedAttrs := after.unsignedAttrs)
    && after.unsignedAttrs.Some?
    && |UnsignedList(after)| == |UnsignedList(before)| + 1
    && UnsignedList(after)[..|UnsignedList(before)|] == UnsignedList(before)
    && UnsignedList(after)[|UnsignedList(before)|].typ == TIME_STAMP_TOKEN
  }

  lemma {:induction false} FetchFails(env: Crypto, parse: bytes -> Option<Info>, sis: seq<SignerInfo>,
      xs: seq<Exchange>)
    requires FetchAll(env, parse, sis, xs).Err?
    ensures |sis| > |xs| || exists i :: 0 <= i < |sis| && FetchTs(env, parse, sis[i], xs[i]).Err?
  {
    hide FetchTs;
    if xs == [] || FetchTs(env, parse, sis[0], xs[0]).Err? {
    } else {
      FetchFails(env, parse, sis[1..], xs[1..]);
      if |sis| <= |xs| {
        var i :| 0 <= i < |sis[1..]| && FetchTs(env, parse, sis[1..][i], xs[1..][i]).Err?;
        assert sis[i + 1] == sis[1..][i] && xs[i + 1] == xs[1..][i];
      }
    }
  }

  /** Tokens from two successful rounds: every signer's timestamp is rejected from then on. */
  lemma SecondRoundRejected(w: World, sd: SignedData, xs: seq<Exchange>, ys: seq<Exchange>, opts: VerifyOptions,
      pool: set<Certificate>)
    requires AddTimestamps(w.crypto, w.parseInfo, sd, xs).error.None?
    requires AddTimestamps(w.crypto, w.parseInfo, AddTimestamps(w.crypto, w.parseInfo, sd, xs).sd, ys).error.None?
    ensures var twice := AddTimestamps(w.crypto, w.parseInfo, AddTimestamps(w.crypto, w.parseInfo, sd, xs).sd, ys).sd;
            forall si :: si in twice.signerInfos ==> GetTimestamp(w, si, opts, pool).result.Err?
  {
    hide FetchTs, FetchAll, GetTimestamp;
    var once := AddTimestamps(w.crypto, w.parseInfo, sd, xs).sd;
    var twice := AddTimestamps(w.crypto, w.parseInfo, once, ys).sd;
    AllOrNothing(w, sd, xs);
    FetchedEach(w.crypto, w.parseInfo, once.signerInfos, ys);
    forall si | si in twice.signerInfos
      ensures GetTimestamp(w, si, opts, pool).result.Err?
    {
      var i :| 0 <= i < |twice.signerInfos| && twice.signerInfos[i] == si;
      var a := FetchAll(w.crypto, w.parseInfo, once.signerInfos, ys).value[i];
      FetchedType(w.crypto, w.parseInfo, once.signerInfos[i], ys[i]);
      assert OneMoreToken(sd.signerInfos[i], once.signerInfos[i]);
      assert Stamped(once.signerInfos[i]) by {
        assert UnsignedList(once.signerInfos[i])[|UnsignedList(sd.signerInfos[i])|].typ == TIME_STAMP_TOKEN;
      }
      SecondTokenRejected(w, once.signerInfos[i], a, opts, pool);
    }
  }
}
