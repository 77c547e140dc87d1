/**
 * Exactly which answers of a timestamp service become a token: status granted, a SignedData over a
 * TSTInfo with the nonce and the imprint that were asked for (timestamp.go:38-58,
 * timestamp/timestamp.go:118-160).
 */
module Replies {
  import opened Bytes
  import opened Lengths
  import opened NormalForm
  import opened Asn1
  import opened Attributes
  import opened Cms
  import opened WireProofs
  import opened Environment
  import opened Timestamp
  import opened Signing
  import opened SigningProofs
  import opened Verification
  import opened VerifySoundness
  import Ber

  // ---------------------------------------------------------------- the answer in octets

  /** A PKIStatusInfo whose status is the number zero: granted, and nothing else. */
  ghost predicate GrantedStatus(status: RawValue) {
    exists number: RawValue, text: Option<RawValue>, bits: Option<RawValue> ::
      && status.id == SEQUENCE && ParseFields(status.content, STATUS_SCHEMA) == Ok([Some(number), text, bits])
      && number.content == [0]
      && (text.Some? ==> UnmarshalAll(text.value.content).Ok?)
      && (bits.Some? ==> ValidBitString(bits.value.content))
  }

  /** A ContentInfo of type id-signedData with this content. */
  ghost predicate SignedDataToken(token: RawValue, content: RawValue) {
    exists typ: RawValue ::
      && token.id == SEQUENCE && ParseFields(token.content, INFO_SCHEMA) == Ok([Some(typ), Some(content)])
      && typ.content == SIGNED_DATA
  }

  /** A TimeStampResp with that status and such a token, in any BER form, with nothing after it. */
  ghost predicate GrantedReply(reply: bytes, content: RawValue) {
    exists der: bytes, answer: RawValue, status: RawValue, token: RawValue ::
      && Ber.Ber2Der(reply) == Ok(der) && Unmarshal(der) == Ok(Asn1.Split(answer, []))
      && answer.id == SEQUENCE && ParseFields(answer.content, RESPONSE_SCHEMA) == Ok([Some(status), Some(token)])
      && GrantedStatus(status) && SignedDataToken(token, content)
  }

  lemma StatusExactly(status: RawValue)
    ensures DecodeStatus(status) == Ok([0]) <==> GrantedStatus(status)
  {
    hide ParseFields, UnmarshalAll, ValidBitString;
    if DecodeStatus(status) == Ok([0]) {
      var vs := ParseFields(status.content, STATUS_SCHEMA).value;
      assert vs == [Some(vs[0].value), vs[1], vs[2]];
    }
  }

  lemma TokenExactly(token: RawValue, content: RawValue)
    ensures DecodeInfo(token) == Ok(ContentInfo(SIGNED_DATA, content)) <==> SignedDataToken(token, content)
  {
    hide ParseFields, ValidOid;
    SignedDataOid();
    if DecodeInfo(token) == Ok(ContentInfo(SIGNED_DATA, content)) {
      var vs := ParseFields(token.content, INFO_SCHEMA).value;
      assert vs == [Some(vs[0].value), Some(content)];
    }
  }

  lemma ReplyExactly(reply: bytes, content: RawValue)
    ensures ParseResponse(reply) == Ok(Response([0], Some(ContentInfo(SIGNED_DATA, content))))
            <==> GrantedReply(reply, content)
  {
    hide ParseFields, Ber.Ber2Der, Unmarshal, DecodeStatus, DecodeInfo, GrantedStatus, SignedDataToken;
    if ParseResponse(reply) == Ok(Response([0], Some(ContentInfo(SIGNED_DATA, content)))) {
      var der := Ber.Ber2Der(reply).value;
      var answer := Unmarshal(der).value.value;
      var vs := ParseFields(answer.content, RESPONSE_SCHEMA).value;
      assert vs == [Some(vs[0].value), Some(vs[1].value)];
      StatusExactly(vs[0].value);
      TokenExactly(vs[1].value, content);
    }
    if GrantedReply(reply, content) {
      var der, answer, status, token :|
        && Ber.Ber2Der(reply) == Ok(der) && Unmarshal(der) == Ok(Asn1.Split(answer, []))
        && answer.id == SEQUENCE && ParseFields(answer.content, RESPONSE_SCHEMA) == Ok([Some(status), Some(token)])
        && GrantedStatus(status) && SignedDataToken(token, content);
      StatusExactly(status);
      TokenExactly(token, content);
    }
  }

  // ---------------------------------------------------------------- the token fits

  /** What is read of a struct is no longer than the octets it was read from. */
  lemma {:induction false} FieldsShorter(s: bytes, fs: seq<Field>)
    ensures ParseFields(s, fs).Ok? ==> |FieldsBytes(ParseFields(s, fs).value)| <= |s|
    ensures ParseFields(s, fs).Ok? ==>
              forall i :: 0 <= i < |fs| && ParseFields(s, fs).value[i].Some? ==>
                            IsParsed(ParseFields(s, fs).value[i].value)
    decreases |fs|
  {
    hide ParseField, IsParsed;
    if fs == [] {
    } else if ParseField(s, fs[0]).Ok? {
      var first := ParseField(s, fs[0]).value;
      FieldShorter(s, fs[0]);
      FieldsShorter(first.rest, fs[1..]);
      if ParseFields(first.rest, fs[1..]).Ok? {
        var rest := ParseFields(first.rest, fs[1..]).value;
        var vs := [first.value] + rest;
        assert vs[1..] == rest;
      }
    }
  }

  lemma FieldShorter(s: bytes, f: Field)
    requires ParseField(s, f).Ok?
    ensures var r := ParseField(s, f).value;
            if r.value.Some? then IsParsed(r.value.value) && |r.value.value.full| + |r.rest| <= |s| else |r.rest| <= |s|
  {
    hide ReadTlvHeader, Unmarshal, IsParsed;
    if Unmarshal(s).Ok? {
      UnmarshalInverse(s);
    }
  }

  lemma TokenFits(reply: bytes, content: RawValue)
    requires GrantedReply(reply, content)
    ensures IsParsed(InfoRaw(ContentInfo(SIGNED_DATA, content)))
  {
    hide ParseFields, Ber.Ber2Der, Unmarshal, GrantedStatus, IsParsed, FieldsBytes, Tlv;
    var der, answer, status, token :|
      && Ber.Ber2Der(reply) == Ok(der) && Unmarshal(der) == Ok(Asn1.Split(answer, []))
      && answer.id == SEQUENCE && ParseFields(answer.content, RESPONSE_SCHEMA) == Ok([Some(status), Some(token)])
      && GrantedStatus(status) && SignedDataToken(token, content);
    FieldsShorter(answer.content, RESPONSE_SCHEMA);
    assert IsParsed([Some(status), Some(token)][1].value);
    TokenParsed(token, content);
  }

  lemma TokenParsed(token: RawValue, content: RawValue)
    requires SignedDataToken(token, content) && IsParsed(token)
    ensures IsParsed(InfoRaw(ContentInfo(SIGNED_DATA, content)))
  {
    hide ParseFields, IsParsed, FieldsBytes, Tlv;
    var typ :|
      && token.id == SEQUENCE && ParseFields(token.content, INFO_SCHEMA) == Ok([Some(typ), Some(content)])
      && typ.content == SIGNED_DATA;
    var vs := [Some(typ), Some(content)];
    FieldsShorter(token.content, INFO_SCHEMA);
    assert IsParsed(vs[0].value) && IsParsed(vs[1].value);
    ParsedSize(token);
    FirstIsOid(token.content);
    OidTlv(typ);
    ParsedNonEmpty(content);
    assert InfoFields(ContentInfo(SIGNED_DATA, content)) == vs;
    SmallRaw(SEQUENCE, FieldsBytes(vs));
  }

  lemma ParsedSize(rv: RawValue)
    requires IsParsed(rv)
    ensures |rv.content| < MAX_READABLE
  {
  }

  lemma OidTlv(rv: RawValue)
    requires IsParsed(rv) && rv.id == OID
    ensures rv == Raw(OID, rv.content)
  {
    hide Tlv;
  }

  lemma FirstIsOid(s: bytes)
    requires ParseFields(s, INFO_SCHEMA).Ok?
    ensures ParseFields(s, INFO_SCHEMA).value[0].Some? && ParseFields(s, INFO_SCHEMA).value[0].value.id == OID
  {
    hide ParseFields, ReadTlvHeader, Unmarshal;
    OneField(s, INFO_SCHEMA);
    TaggedOid(s);
  }

  lemma OneField(s: bytes, fs: seq<Field>)
    requires fs != [] && ParseFields(s, fs).Ok?
    ensures ParseField(s, fs[0]).Ok? && ParseField(s, fs[0]).value.value == ParseFields(s, fs).value[0]
  {
    hide ParseField;
  }

  lemma TaggedOid(s: bytes)
    requires ParseField(s, Tagged(OID)).Ok?
    ensures ParseField(s, Tagged(OID)).value.value.Some? && ParseField(s, Tagged(OID)).value.value.value.id == OID
  {
    hide Ber.ReadHighTag;
  }

  // ---------------------------------------------------------------- the answer against the request

  /** The TSTInfo has the nonce that was sent, and the digest of the signature by the signer's algorithm. */
  ghost predicate Answers(env: Crypto, si: SignerInfo, nonce: bytes, info: Info) {
    && info.nonce == Some(nonce)
    && info.imprint.alg.oid == si.digestAlg.oid
    && (ParamContent(info.imprint.alg) == [] || ParamFull(info.imprint.alg) == [])
    && exists h :: DigestToHash(si.digestAlg.oid) == Some(h) && env.available(h)
                   && info.imprint.hashed == env.hash(h, si.signature)
  }

  lemma MatchExactly(env: Crypto, si: SignerInfo, nonce: bytes, info: Info)
    ensures TsRequest(env, si, nonce).Ok? && Matches(TsRequest(env, si, nonce).value, info) == Some(true)
            <==> Answers(env, si, nonce, info)
  {
    hide DigestToHash, HashToDigest;
    if DigestToHash(si.digestAlg.oid).Some? {
      DigestMapsInverse(si.digestAlg.oid, DigestToHash(si.digestAlg.oid).value);
    }
  }

  /** The request of a signer never has a nil nonce, so comparing nonces does not panic. */
  lemma NoNilNonce(env: Crypto, si: SignerInfo, nonce: bytes, info: Info)
    ensures TsRequest(env, si, nonce).Ok? ==> Matches(TsRequest(env, si, nonce).value, info).Some?
  {
    hide Equal, SignerHash, NewMessageImprint;
  }

  /** The reply was granted with this token, whose TSTInfo answers the request. */
  ghost predicate GoodExchange(w: World, si: SignerInfo, x: Exchange, content: RawValue) {
    && x.reply.Some? && GrantedReply(x.reply.value, content)
    && exists sd, octets, info ::
         && SignedDataContent(ContentInfo(SIGNED_DATA, content)) == Ok(sd)
         && HoldsInfo(w, sd.eci, octets, info) && Answers(w.crypto, si, x.nonce, info)
  }

  /** The attribute with the token that has this content. */
  function TokenOf(content: RawValue): Attribute {
    Single(TIME_STAMP_TOKEN, InfoRaw(ContentInfo(SIGNED_DATA, content)))
  }

  /**
   * fetchTS returns an attribute exactly when the reply was granted with a token for this request,
   * and the attribute holds that token.
   */
  lemma FetchExactly(w: World, si: SignerInfo, x: Exchange, a: Attribute)
    ensures FetchTs(w.crypto, w.parseInfo, si, x) == Ok(a)
            <==> exists content :: GoodExchange(w, si, x, content)
                                   && a == TokenOf(content)
  {
    hide ParseResponse, SignedDataContent, HoldsInfo, Answers, Single, InfoRaw, GrantedReply, TsRequest, Matches,
      ParseInfo, NewAttribute;
    if FetchTs(w.crypto, w.parseInfo, si, x) == Ok(a) {
      FetchSound(w, si, x);
    }
    if content :| GoodExchange(w, si, x, content) && a == TokenOf(content) {
      FetchComplete(w, si, x, content);
    }
  }

  lemma TokenAttribute(reply: bytes, content: RawValue)
    requires GrantedReply(reply, content)
    ensures NewAttribute(TIME_STAMP_TOKEN, InfoRaw(ContentInfo(SIGNED_DATA, content)).full) == Ok(TokenOf(content))
  {
    hide InfoRaw, GrantedReply, NewAttribute, Single, IsParsed;
    var rv := InfoRaw(ContentInfo(SIGNED_DATA, content));
    TokenFits(reply, content);
    NewAttributeSingle(TIME_STAMP_TOKEN, rv, []);
    assert rv.full + [] == rv.full;
  }

  lemma FetchSound(w: World, si: SignerInfo, x: Exchange)
    requires FetchTs(w.crypto, w.parseInfo, si, x).Ok?
    ensures exists content :: GoodExchange(w, si, x, content)
                              && FetchTs(w.crypto, w.parseInfo, si, x) == Ok(TokenOf(content))
  {
    hide ParseResponse, HoldsInfo, Answers, Single, InfoRaw, GrantedReply, TsRequest, Matches, ParseInfo,
      NewAttribute, UnmarshalWhole;
    var resp := ParseResponse(x.reply.value).value;
    var ci := resp.token.value;
    var sd := SignedDataContent(ci).value;
    var info := ResponseInfo(w.parseInfo, resp).value;
    assert ci == ContentInfo(SIGNED_DATA, ci.content);
    ReplyExactly(x.reply.value, ci.content);
    InfoExactly(w, sd.eci, info);
    var octets :| HoldsInfo(w, sd.eci, octets, info);
    MatchExactly(w.crypto, si, x.nonce, info);
    TokenAttribute(x.reply.value, ci.content);
    assert GoodExchange(w, si, x, ci.content);
  }

  lemma FetchComplete(w: World, si: SignerInfo, x: Exchange, content: RawValue)
    requires GoodExchange(w, si, x, content)
    ensures FetchTs(w.crypto, w.parseInfo, si, x) == Ok(TokenOf(content))
  {
    hide ParseResponse, SignedDataContent, HoldsInfo, Answers, Single, InfoRaw, GrantedReply, TsRequest, Matches,
      ParseInfo, NewAttribute;
    var sd, octets, info :|
      && SignedDataContent(ContentInfo(SIGNED_DATA, content)) == Ok(sd)
      && HoldsInfo(w, sd.eci, octets, info) && Answers(w.crypto, si, x.nonce, info);
    ReplyExactly(x.reply.value, content);
    InfoExactly(w, sd.eci, info);
    MatchExactly(w.crypto, si, x.nonce, info);
    TokenAttribute(x.reply.value, content);
  }
}
