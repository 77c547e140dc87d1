/** RFC 3161 tokens (timestamp/timestamp.go): imprints, requests, answers and the time window. */
module Timestamp {
  import opened Bytes
  import opened Errors
  import opened Asn1
  import opened Cms
  import opened Environment
  import Ber

  // 1.2.840.113549.1.9.16.1.4
  const TST_INFO: bytes := [0x2A, 0x86, 0x48, 0x86, 0xF7, 0x0D, 0x01, 0x09, 0x10, 0x01, 0x04]

  datatype MessageImprint = MessageImprint(alg: AlgorithmIdentifier, hashed: bytes)

  datatype Accuracy = Accuracy(seconds: int, millis: int, micros: int)

  /** The fields of TSTInfo that are looked at; `genTime` in nanoseconds. */
  datatype Info = Info(version: int, imprint: MessageImprint, genTime: int, accuracy: Accuracy, nonce: Option<bytes>)

  datatype Request = Request(imprint: MessageImprint, nonce: Option<bytes>)

  datatype Response = Response(status: bytes, token: Option<ContentInfo>)

  // ---------------------------------------------------------------- message imprints

  function NewMessageImprint(env: Crypto, h: Hash, data: bytes): CmsOutcome<MessageImprint> {
    if !env.available(h) then Err(Unsupported)
    else Ok(MessageImprint(AlgorithmIdentifier(HashToDigest(h), None), env.hash(h, data)))
  }

  /** The hash a digest OID stands for, when the program has it. */
  function AvailableHash(env: Crypto, digest: bytes): CmsOutcome<Hash> {
    match DigestToHash(digest)
    case Some(h) => if env.available(h) then Ok(h) else Err(Unsupported)
    case None => Err(Unsupported)
  }

  function ParamContent(a: AlgorithmIdentifier): bytes {
    if a.params.Some? then a.params.value.content else []
  }

  function ParamFull(a: AlgorithmIdentifier): bytes {
    if a.params.Some? then a.params.value.full else []
  }

  /** MessageImprint.Equal: parameters count only when one side has content in them. */
  predicate Equal(a: MessageImprint, b: MessageImprint) {
    && a.alg.oid == b.alg.oid
    && (ParamContent(a.alg) != [] || ParamContent(b.alg) != [] ==> ParamFull(a.alg) == ParamFull(b.alg))
    && a.hashed == b.hashed
  }

  /** Parameters as parsing leaves them: absent, or a TLV. */
  predicate ParsedImprint(a: MessageImprint) {
    a.alg.params.Some? ==> IsParsed(a.alg.params.value)
  }

  lemma SameFullSameContent(a: MessageImprint, b: MessageImprint)
    requires ParsedImprint(a) && ParsedImprint(b) && ParamFull(a.alg) == ParamFull(b.alg)
    ensures ParamContent(a.alg) == ParamContent(b.alg)
  {
    hide IsParsed;
    if a.alg.params.Some? {
      ParsedHeader(a.alg.params.value, []);
    }
    if b.alg.params.Some? {
      ParsedHeader(b.alg.params.value, []);
    }
    if a.alg.params.Some? && b.alg.params.Some? {
      UnmarshalRaw(a.alg.params.value, []);
      UnmarshalRaw(b.alg.params.value, []);
    }
  }

  /** Equal is reflexive and symmetric, and transitive on imprints whose parameters were parsed or left out. */
  lemma EqualIsEquivalence(a: MessageImprint, b: MessageImprint, c: MessageImprint)
    ensures Equal(a, a)
    ensures Equal(a, b) <==> Equal(b, a)
    ensures ParsedImprint(a) && ParsedImprint(b) && ParsedImprint(c) && Equal(a, b) && Equal(b, c) ==> Equal(a, c)
  {
    hide IsParsed, ParsedImprint;
    if ParsedImprint(a) && ParsedImprint(b) && ParsedImprint(c) && Equal(a, b) && Equal(b, c) {
      if ParamFull(a.alg) == ParamFull(b.alg) {
        SameFullSameContent(a, b);
      }
      if ParamFull(b.alg) == ParamFull(c.alg) {
        SameFullSameContent(b, c);
      }
    }
  }

  /** The step from `a` over `b` to `c` does not lose equality. */
  predicate PassesEquality(a: MessageImprint, b: MessageImprint, c: MessageImprint) {
    Equal(a, b) && Equal(b, c) ==> Equal(a, c)
  }

  /**
   * Among all imprints, built by hand as well, equality passes through `b` exactly when its
   * parameters have content: otherwise content without FullBytes, or with those of `b`, breaks it.
   */
  lemma TransitiveThrough(b: MessageImprint)
    ensures (forall a, c :: PassesEquality(a, b, c)) <==> ParamContent(b.alg) != []
  {
    if ParamContent(b.alg) == [] {
      var full := ParamFull(b.alg);
      var a := b.(alg := b.alg.(params := Some(RawValue([0x05], [0], full))));
      var c := b.(alg := b.alg.(params := Some(RawValue([0x05], [], full + [0]))));
      assert ParamFull(c.alg) != full by {
        assert |full + [0]| == |full| + 1;
      }
      assert !PassesEquality(a, b, c);
    }
  }

  /** Request.Matches; None stands for the panic of Cmp on a nil nonce against a set one. */
  function Matches(req: Request, info: Info): Option<bool> {
    if !Equal(req.imprint, info.imprint) then Some(false)
    else if req.nonce.Some? && info.nonce.None? then Some(false)
    else if req.nonce.None? && info.nonce.Some? then None
    else Some(req.nonce == info.nonce)
  }

  // ---------------------------------------------------------------- answers

  const BIT_STRING: bytes := [0x03]

  function Pow2(n: nat): nat {
    if n == 0 then 1 else 2 * Pow2(n - 1)
  }

  predicate ValidBitString(c: bytes) {
    c != [] && c[0] <= 7 && (if |c| == 1 then c[0] == 0 else Pow2(c[0]) != 0 && c[|c| - 1] % Pow2(c[0]) == 0)
  }

  const STATUS_SCHEMA := [Tagged(INTEGER), OptTagged(SEQUENCE), OptTagged(BIT_STRING)]
  const RESPONSE_SCHEMA := [Tagged(SEQUENCE), OptTagged(SEQUENCE)]

  function DecodeStatus(rv: RawValue): CmsOutcome<bytes> {
    var vs :- DecodeStruct(rv, STATUS_SCHEMA);
    if vs[0].None? || !ValidInt64(vs[0].value.content) then Err(BadAsn1)
    else if vs[1].Some? && UnmarshalAll(vs[1].value.content).Err? then Err(BadAsn1)
    else if vs[2].Some? && !ValidBitString(vs[2].value.content) then Err(BadAsn1)
    else Ok(vs[0].value.content)
  }

  function DecodeResponse(rv: RawValue): CmsOutcome<Response> {
    var vs :- DecodeStruct(rv, RESPONSE_SCHEMA);
    if vs[0].None? then Err(BadAsn1)
    else
      var status :- DecodeStatus(vs[0].value);
      if vs[1].None? then Ok(Response(status, None))
      else
        var token :- DecodeInfo(vs[1].value);
        Ok(Response(status, Some(token)))
  }

  /** ParseResponse. */
  function ParseResponse(ber: bytes): CmsOutcome<Response> {
    var der := Ber.Ber2Der(ber);
    if der.Err? then Err(BerFailure(der.error)) else UnmarshalWhole(der.value, DecodeResponse)
  }

  /** ParseInfo; how a TSTInfo is laid out in octets is a parameter. */
  function ParseInfo(parse: bytes -> Option<Info>, eci: EncapContent): CmsOutcome<Info> {
    if eci.typ != TST_INFO then Err(WrongType)
    else
      var content :- EContentValue(eci);
      match content
      case None => Err(MissingContent)
      case Some(octets) =>
        match parse(octets)
        case None => Err(BadAsn1)
        case Some(info) => Ok(info)
  }

  /** Response.Info: status zero, a SignedData token, and its content. */
  function ResponseInfo(parse: bytes -> Option<Info>, r: Response): CmsOutcome<Info> {
    if r.status != [0x00] then Err(ResponseFailure)
    else if r.token.None? then Err(WrongType)
    else
      var sd :- SignedDataContent(r.token.value);
      ParseInfo(parse, sd.eci)
  }

  // ---------------------------------------------------------------- the time window

  /** A time.Duration is an int64 count of nanoseconds; arithmetic on it wraps around. */
  function Wrap64(n: int): int {
    (n + 0x8000_0000_0000_0000) % 0x1_0000_0000_0000_0000 - 0x8000_0000_0000_0000
  }

  /** Accuracy.Duration as computed, one operation at a time. */
  function Duration(a: Accuracy): int {
    Wrap64(Wrap64(Wrap64(a.seconds * 1_000_000_000) + Wrap64(a.millis * 1_000_000)) + Wrap64(a.micros * 1000))
  }

  function Nanoseconds(a: Accuracy): int {
    a.seconds * 1_000_000_000 + a.millis * 1_000_000 + a.micros * 1000
  }

  function GenTimeMax(i: Info): int {
    i.genTime + Duration(i.accuracy)
  }

  function GenTimeMin(i: Info): int {
    i.genTime + Wrap64(-Duration(i.accuracy))
  }

  /** Info.Before. */
  predicate BeforeTime(i: Info, t: int) {
    GenTimeMax(i) < t || GenTimeMax(i) == t
  }

  /** Info.After. */
  predicate AfterTime(i: Info, t: int) {
    GenTimeMin(i) > t || GenTimeMin(i) == t
  }

  /** The validity check of verify.go on a timestamped signature. */
  predicate Accepts(i: Info, notBefore: int, notAfter: int) {
    BeforeTime(i, notAfter) && AfterTime(i, notBefore)
  }

  lemma WrapRange(n: int)
    ensures -0x8000_0000_0000_0000 <= Wrap64(n) < 0x8000_0000_0000_0000
    ensures -0x8000_0000_0000_0000 <= n < 0x8000_0000_0000_0000 ==> Wrap64(n) == n
  {
  }

  lemma WrapSum(m: int, n: int)
    ensures Wrap64(Wrap64(m) + Wrap64(n)) == Wrap64(m + n)
  {
    var w := 0x1_0000_0000_0000_0000;
    var h := 0x8000_0000_0000_0000;
    var a, b := (m + h) / w, (n + h) / w;
    assert Wrap64(m) == m - a * w && Wrap64(n) == n - b * w;
    WrapShift(m + n, a + b);
    assert Wrap64(m) + Wrap64(n) == m + n - (a + b) * w;
  }

  lemma WrapShift(n: int, k: int)
    ensures Wrap64(n - k * 0x1_0000_0000_0000_0000) == Wrap64(n)
  {
    var w := 0x1_0000_0000_0000_0000;
    var h := 0x8000_0000_0000_0000;
    var q := (n + h) / w;
    assert n + h == q * w + (n + h) % w;
    assert n - k * w + h == (q - k) * w + (n + h) % w;
  }

  /** The duration is the accuracy in nanoseconds, modulo 2^64. */
  lemma DurationValue(a: Accuracy)
    ensures Duration(a) == Wrap64(Nanoseconds(a))
    ensures -0x8000_0000_0000_0000 <= Nanoseconds(a) < 0x8000_0000_0000_0000 ==> Duration(a) == Nanoseconds(a)
  {
    hide Wrap64;
    WrapSum(a.seconds * 1_000_000_000, a.millis * 1_000_000);
    WrapSum(a.seconds * 1_000_000_000 + a.millis * 1_000_000, a.micros * 1000);
    WrapRange(Nanoseconds(a));
    WrapWrap(a.seconds * 1_000_000_000 + a.millis * 1_000_000);
  }

  lemma WrapWrap(n: int)
    ensures Wrap64(Wrap64(n)) == Wrap64(n)
  {
    WrapRange(n);
    WrapRange(Wrap64(n));
  }

  /** The instants at which the token may have been made. */
  predicate Within(i: Info, t: int) {
    i.genTime - Nanoseconds(i.accuracy) <= t <= i.genTime + Nanoseconds(i.accuracy)
  }

  /** The token was made inside the period, whenever in its interval that was. */
  ghost predicate IntervalInside(i: Info, notBefore: int, notAfter: int) {
    forall t {:trigger Within(i, t)} :: Within(i, t) ==> notBefore <= t <= notAfter
  }

  lemma DurationRange(a: Accuracy)
    ensures -0x8000_0000_0000_0000 <= Duration(a) < 0x8000_0000_0000_0000
    ensures Wrap64(-Duration(a)) == if Duration(a) == -0x8000_0000_0000_0000 then Duration(a) else -Duration(a)
  {
    hide Wrap64;
    DurationValue(a);
    WrapRange(Nanoseconds(a));
    WrapRange(-Duration(a));
    if Duration(a) == -0x8000_0000_0000_0000 {
      WrapShift(-Duration(a), 1);
      WrapRange(Duration(a));
    }
  }

  /** With a proper accuracy the check is exact for every period. */
  lemma WholeIntervalInside(i: Info, notBefore: int, notAfter: int)
    requires 0 <= Nanoseconds(i.accuracy) < 0x8000_0000_0000_0000
    ensures Accepts(i, notBefore, notAfter) <==> IntervalInside(i, notBefore, notAfter)
  {
    var a := Nanoseconds(i.accuracy);
    DurationValue(i.accuracy);
    WrapRange(-a);
    assert Within(i, i.genTime - a) && Within(i, i.genTime + a);
  }

  /**
   * Acceptance puts the whole interval inside the validity period, for every period, exactly when
   * the accuracy is below 2^63 nanoseconds. From there on the duration has wrapped around, and the
   * period that it spans is accepted although the interval does not fit.
   */
  lemma WindowGuards(i: Info)
    ensures (forall b, a {:trigger Accepts(i, b, a)} :: Accepts(i, b, a) ==> IntervalInside(i, b, a))
            <==> Nanoseconds(i.accuracy) < 0x8000_0000_0000_0000
  {
    hide Duration, Wrap64;
    var n := Nanoseconds(i.accuracy);
    DurationValue(i.accuracy);
    DurationRange(i.accuracy);
    if 0 <= n < 0x8000_0000_0000_0000 {
      forall b, a | Accepts(i, b, a)
        ensures IntervalInside(i, b, a)
      {
        WholeIntervalInside(i, b, a);
      }
    } else if n >= 0x8000_0000_0000_0000 {
      var b, a := GenTimeMin(i), GenTimeMax(i);
      assert Accepts(i, b, a);
      assert Within(i, i.genTime + n);
    }
  }

  /**
   * The check and the interval agree on every period exactly when the accuracy is neither negative
   * nor 2^63 nanoseconds and more.
   */
  lemma WindowExact(i: Info)
    ensures (forall b, a {:trigger Accepts(i, b, a)} :: Accepts(i, b, a) <==> IntervalInside(i, b, a))
            <==> 0 <= Nanoseconds(i.accuracy) < 0x8000_0000_0000_0000
  {
    hide Duration, Wrap64;
    var n := Nanoseconds(i.accuracy);
    WindowGuards(i);
    if 0 <= n < 0x8000_0000_0000_0000 {
      forall b, a
        ensures Accepts(i, b, a) <==> IntervalInside(i, b, a)
      {
        WholeIntervalInside(i, b, a);
      }
    } else if n < 0 {
      var b := GenTimeMin(i) + 1;
      assert !Accepts(i, b, GenTimeMax(i)) && IntervalInside(i, b, GenTimeMax(i));
    }
  }

  /**
   * An accuracy of 18446744074 seconds, 584 years, is computed as 290448384 nanoseconds and passes
   * for a certificate that is valid for two seconds.
   */
  lemma OverflowingAccuracy(i: Info)
    requires i.accuracy == Accuracy(18446744074, 0, 0)
    ensures Duration(i.accuracy) == 290448384 && Nanoseconds(i.accuracy) == 18446744074_000000000
    ensures Accepts(i, i.genTime - 1_000_000_000, i.genTime + 1_000_000_000)
    ensures !IntervalInside(i, i.genTime - 1_000_000_000, i.genTime + 1_000_000_000)
  {
    assert Within(i, i.genTime + 18446744074_000000000);
  }

  /**
   * Acceptance implies that the stated time itself is inside the period, for every period, exactly
   * when the computed duration is not negative. A negative or overflowing accuracy breaks it.
   */
  lemma StatedTimeInside(i: Info)
    ensures (forall b, a {:trigger Accepts(i, b, a)} :: Accepts(i, b, a) ==> b <= i.genTime <= a)
            <==> Duration(i.accuracy) >= 0
  {
    hide Duration, Wrap64;
    var d := Duration(i.accuracy);
    DurationRange(i.accuracy);
    if d == -0x8000_0000_0000_0000 {
      assert Accepts(i, i.genTime + d, i.genTime + d);
    } else if d < 0 {
      assert Accepts(i, i.genTime + 1, i.genTime + 1);
    }
  }
}
