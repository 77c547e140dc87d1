/**
 * Surroundings in which what the program asks for holds with every option, detached or not, stamped
 * or not: a certificate that signed itself.
 */
module CommandWitness {
  import opened Bytes
  import opened Lengths
  import opened NormalForm
  import opened Asn1
  import opened Attributes
  import opened Cms
  import opened WireProofs
  import opened Environment
  import opened Signing
  import opened VerifySoundness
  import opened SignVerify
  import opened EndToEnd
  import opened SignedMessages
  import opened SignSucceeds
  import opened Timestamped
  import opened Runs
  import opened Sessions
  import opened IncludeCerts
  import opened CommandSign
  import opened Witnesses
  import opened TokenWitness

  const LIMIT: nat := 10_000_000

  function Stamps(stamped: bool, now: Clock): Option<seq<Exchange>> {
    if stamped then Some([StampExchange(false, now)]) else None
  }

  function SelfSignedOps(now: Clock, detach: bool, stamped: bool, list: seq<Certificate>): seq<Op> {
    CommandOps(SOME_CERTIFICATE, SomeCall(now).signer, now, detach, Stamps(stamped, now), list)
  }

  // ---------------------------------------------------------------- the operations succeed

  lemma TokenSize(si: SignerInfo, rv: RawValue)
    requires si.unsignedAttrs.None? && |FieldsBytes(SignerFields(si))| <= 7000 && |rv.full| <= 200100
    ensures |SignerRaw(AddUnsigned(si, Single(TIME_STAMP_TOKEN, rv))).full| <= 2_000_000
  {
    hide FieldsBytes, Single, Tlv, AlgRaw, SetOf;
    var a := Single(TIME_STAMP_TOKEN, rv);
    var last := AddUnsigned(si, a);
    assert [] + [a] == [a];
    SetOfOne(a, EncodeAttribute);
    SingleBound(TIME_STAMP_TOKEN, rv);
    TlvBound(CONTEXT_1, EncodeAttribute(a));
    var vs := SignerFields(last);
    forall i | 0 <= i < |vs| && vs[i].Some?
      ensures |vs[i].value.full| <= 201000
    {
      if i < 6 {
        assert vs[i] == SignerFields(si)[i];
        FieldPart(SignerFields(si), i);
      }
    }
    FieldsBound(vs, 201000);
    TlvBound(SEQUENCE, FieldsBytes(vs));
  }

  lemma WithToken(sd: SignedData, si: SignerInfo, now: Clock) returns (last: SignerInfo)
    requires !now.Unrepresentable? && sd.signerInfos == [si]
    requires si.digestAlg == DIGEST_ALGORITHM && si.unsignedAttrs.None? && |FieldsBytes(SignerFields(si))| <= 7000
    ensures AddTimestamps(StampWorld(false).crypto, StampWorld(false).parseInfo, sd, [StampExchange(false, now)])
            == Step(sd.(signerInfos := [last]), None)
    ensures |SignerRaw(last).full| <= 2_000_000
    ensures forall opts, base :: SignerPasses(StampWorld(false), last, SOME_CERTIFICATE, opts, base)
  {
    hide FieldsBytes, SignerFields, SignerRaw, FetchTs, TokenAccepted, Single, StampExchange, StampWorld,
      AddTimestamps, ToDer, InfoRaw, IsParsed, SignerPasses;
    var a := FetchTs(StampWorld(false).crypto, StampWorld(false).parseInfo, si, StampExchange(false, now));
    FetchSucceeds(false, si, now);
    TokenBound(false, now);
    OneStamp(StampWorld(false), sd, StampExchange(false, now));
    last := AddUnsigned(si, a.value);
    TokenSize(si, InfoRaw(ToContentInfo(TokenData(false, now))));
    forall opts: VerifyOptions, base: set<Certificate>
      ensures SignerPasses(StampWorld(false), last, SOME_CERTIFICATE, opts, base)
    {
      StampAccepted(false, si, now, SOME_CERTIFICATE, opts, base);
      TokenPasses(last, opts, base);
    }
  }

  /** The signer with its token, if it gets one. */
  lemma StampedShape(sd: SignedData, si: SignerInfo, stamped: bool, now: Clock) returns (last: SignerInfo)
    requires !now.Unrepresentable? && sd.signerInfos == [si]
    requires si.digestAlg == DIGEST_ALGORITHM && si.unsignedAttrs.None? && |FieldsBytes(SignerFields(si))| <= 7000
    ensures StampedIf(StampWorld(false), sd, Stamps(stamped, now)) == Step(sd.(signerInfos := [last]), None)
    ensures |SignerRaw(last).full| <= 2_000_000
    ensures forall opts, base :: SignerPasses(StampWorld(false), last, SOME_CERTIFICATE, opts, base)
  {
    hide FieldsBytes, SignerFields, SignerRaw, StampExchange, StampWorld, AddTimestamps, SignerPasses;
    if stamped {
      last := WithToken(sd, si, now);
    } else {
      last := si;
      assert sd.(signerInfos := [si]) == sd;
      PlainSize(si);
      forall opts: VerifyOptions, base: set<Certificate>
        ensures SignerPasses(StampWorld(false), last, SOME_CERTIFICATE, opts, base)
      {
        PlainPasses(si, opts, base);
      }
    }
  }

  lemma PlainSize(si: SignerInfo)
    requires |FieldsBytes(SignerFields(si))| <= 7000
    ensures |SignerRaw(si).full| <= 10000
  {
    hide FieldsBytes, SignerFields, Tlv;
    TlvBound(SEQUENCE, FieldsBytes(SignerFields(si)));
  }

  lemma TokenPasses(si: SignerInfo, opts: VerifyOptions, base: set<Certificate>)
    requires |UnsignedList(si)| == 1 && TokenAccepted(StampWorld(false), si, SOME_CERTIFICATE, opts, base)
    ensures SignerPasses(StampWorld(false), si, SOME_CERTIFICATE, opts, base)
  {
    hide TokenAccepted;
  }

  lemma PlainPasses(si: SignerInfo, opts: VerifyOptions, base: set<Certificate>)
    requires si.unsignedAttrs.None?
    ensures SignerPasses(StampWorld(false), si, SOME_CERTIFICATE, opts, base)
  {
    hide TokenAccepted;
  }

  /** SetCertificates takes the list as it is. */
  lemma ListSet(sd: SignedData, list: seq<Certificate>)
    requires list == [] || list == [SOME_CERTIFICATE]
    ensures ReplaceCertificates(sd, list)
            == Step(sd.(certs := Some(if list == [] then [] else [Raw(SEQUENCE, [])])), None)
  {
    hide Unmarshal;
    var empty := sd.(certs := Some([]));
    EmptySequence();
    if list != [] {
      assert [] + [Raw(SEQUENCE, [])] == [Raw(SEQUENCE, [])];
      var added := sd.(certs := Some([Raw(SEQUENCE, [])]));
      assert AddCertificate(empty, SOME_CERTIFICATE) == Step(added, None);
      assert list[1..] == [] && AddCertificates(added, []) == Step(added, None);
    }
  }

  /** What the operations leave behind: all of them succeed, and the result is of readable size. */
  lemma SelfSignedRun(data: bytes, now: Clock, detach: bool, stamped: bool, list: seq<Certificate>)
    returns (last: SignerInfo)
    requires |data| <= LIMIT && !now.Unrepresentable? && (list == [] || list == [SOME_CERTIFICATE])
    ensures var start := NewSigned(NewEncapContent(DATA, data));
            var sd := Run(StampWorld(false), start, SelfSignedOps(now, detach, stamped, list));
            && AllSucceed(StampWorld(false), start, SelfSignedOps(now, detach, stamped, list))
            && sd.signerInfos == [last] && |ToDer(sd)| < MAX_READABLE
    ensures forall opts, base :: SignerPasses(StampWorld(false), last, SOME_CERTIFICATE, opts, base)
  {
    hide MakeSigner, NewEncapContent, AddSignerInfo, AddTimestamps, ReplaceCertificates, SignerPasses, Run, AllSucceed,
      CommandOps, StampWorld, SomeCall, Stamps, ValidOid, ToDer, FieldsBytes, SignerFields, EncapRaw, SignerRaw;
    var start := NewSigned(NewEncapContent(DATA, data));
    OidsValid();
    EncapType(DATA, data);
    EncapBound(DATA, data);
    var si := OneSignedShape(false, now, DATA, data);
    SignerBound(false, si, now, DATA, data);
    MadeDigest(StampWorld(false).crypto, NewEncapContent(DATA, data), SOME_CERTIFICATE, SomeCall(now).signer, now);
    MadePlain(StampWorld(false).crypto, NewEncapContent(DATA, data), SOME_CERTIFICATE, SomeCall(now).signer, now);
    CommandSteps(StampWorld(false), start, SOME_CERTIFICATE, SomeCall(now).signer, now, detach, Stamps(stamped, now),
                 list);
    var call := SignCall([SOME_CERTIFICATE], SomeCall(now).signer, now);
    var signed := Apply(StampWorld(false), start, AddSigner(call)).sd;
    var kept := if detach then Detach(signed) else signed;
    last := StampedShape(kept, si, stamped, now);
    ListSet(kept.(signerInfos := [last]), list);
    var done := kept.(signerInfos := [last], certs := Some(if list == [] then [] else [Raw(SEQUENCE, [])]));
    MessageBound(done, last, 20_001_000);
  }

  // ---------------------------------------------------------------- the surroundings

  lemma KeyCorrect(now: Clock)
    ensures Correct(StampWorld(false).crypto, SomeCall(now).signer)
  {
  }

  lemma OpShape(now: Clock, detach: bool, stamped: bool, list: seq<Certificate>, op: Op)
    requires op in SelfSignedOps(now, detach, stamped, list)
    ensures match op
            case AddSigner(call) => call == SomeCall(now)
            case SetCertificates(certs) => certs == list
            case RemoveContent => true
            case Stamp(_) => true
            case Reload => false
  {
    hide Stamps;
  }

  lemma SelfSignedSetting(data: bytes, now: Clock, detach: bool, stamped: bool, list: seq<Certificate>)
    requires |data| <= LIMIT && !now.Unrepresentable? && (list == [] || list == [SOME_CERTIFICATE])
    ensures SessionSetting(StampWorld(false), SelfSignedOps(now, detach, stamped, list), DATA, data, {SOME_CERTIFICATE})
  {
    hide Usable, ProperCertificate, ValidOid, Stamps, NewEncapContent, Run, Apply, CommandOps, Correct,
      SelfSignedOps;
    var ops := SelfSignedOps(now, detach, stamped, list);
    OidsValid();
    StampUsable(false);
    UsableProper(StampWorld(false).crypto, SOME_CERTIFICATE);
    KeyCorrect(now);
    forall op | op in ops
      ensures GoodOp(StampWorld(false).crypto, op, {SOME_CERTIFICATE}) && !op.Reload?
    {
      OpShape(now, detach, stamped, list, op);
      assert op.AddSigner? ==> op.call == SomeCall(now);
      assert op.SetCertificates? ==> forall c :: c in op.certs ==> c == SOME_CERTIFICATE;
    }
    CallsReadable(StampWorld(false), NewSigned(NewEncapContent(DATA, data)), ops);
  }

  /**
   * All that OptionDecides asks for holds together, for every option, and the answer is that of the
   * option alone: what the program writes for a certificate that signed itself verifies with -1 and
   * from 1 on, and does not with 0, with the default -2 or with anything below.
   */
  lemma SelfSignedNeedsAll(data: bytes, now: Clock, detach: bool, stamped: bool, option: int, opts: VerifyOptions,
      pool: set<Certificate>)
    requires |data| <= LIMIT && !now.Unrepresentable?
    ensures var w, known := StampWorld(false), {SOME_CERTIFICATE};
            var ops := SelfSignedOps(now, detach, stamped, Included(option, [SOME_CERTIFICATE]));
            var sd := Finished(w, ops, DATA, data);
            && SessionSetting(w, ops, DATA, data, known) && AllSucceed(w, NewSigned(NewEncapContent(DATA, data)), ops)
            && ChecksPass(w, sd, known, opts) && |ToDer(sd)| < MAX_READABLE
            && ParseSignedData(ToDer(sd)).Ok?
            && (Answer(w, ParseSignedData(ToDer(sd)).value, data, opts, pool).Ok? <==> option == -1 || option > 0)
  {
    hide SessionSetting, AllSucceed, Run, ToDer, ParseSignedData, Answer, NewEncapContent, CommandOps, SignerPasses,
      StampWorld, SomeCall, Stamps, CertsOf, NewSid;
    var w, list := StampWorld(false), Included(option, [SOME_CERTIFICATE]);
    assert list == [] || list == [SOME_CERTIFICATE] by { IncludedExactly(option, [SOME_CERTIFICATE]); }
    var last := SelfSignedRun(data, now, detach, stamped, list);
    SelfSignedSetting(data, now, detach, stamped, list);
    OptionDecides(w, SomeCall(now).signer, now, detach, Stamps(stamped, now), option, [SOME_CERTIFICATE], data,
                  {SOME_CERTIFICATE}, opts, pool);
  }
}
