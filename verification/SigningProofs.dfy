/**
 * What AddSignerInfo signs is what the verifier rebuilds, and exactly for which content types:
 * section 5.4 of RFC 5652 against protocol.go:256-296, 413 and 700-731.
 */
module SigningProofs {
  import opened Bytes
  import opened Lengths
  import opened NormalForm
  import opened Order
  import opened Asn1
  import opened Attributes
  import opened Signing

  /** A signing-time value: UTCTime or GeneralizedTime. */
  predicate IsTime(time: RawValue) {
    && time == Raw(time.id, time.content)
    && ((time.id == UTC_TIME && |time.content| == 13) || (time.id == GENERALIZED_TIME && |time.content| == 15))
  }

  lemma TimeShape(time: RawValue)
    requires IsTime(time)
    ensures time == Raw(time.id, time.content) && time.id in {UTC_TIME, GENERALIZED_TIME}
    ensures |time.full| in {15, 17} && time.full[0] >= 0x17 && IsParsed(time)
  {
  }

  lemma ShortTlv(id: bytes, c: bytes)
    requires |id| == 1
    ensures |c| < 128 ==> |Tlv(id, c)| == 2 + |c|
    ensures |c| >= 128 ==> |Tlv(id, c)| > 130
    ensures Tlv(id, c)[0] == id[0]
  {
  }

  lemma FirstOctetDecides(a: bytes, b: bytes)
    requires a != [] && b != [] && a[0] < b[0]
    ensures Leq(a, b) && !Leq(b, a)
  {
  }

  predicate AllWellFormed(attrs: seq<Attribute>) {
    forall i :: 0 <= i < |attrs| ==> WellFormed(attrs[i])
  }

  /** Time and digest always sort alike. */
  lemma TimeAndDigest(time: RawValue, digest: bytes, typ: bytes)
    requires IsTime(time) && |digest| == 32 && AllWellFormed(GeneratedAttributes(time, digest, typ))
    ensures var g := GeneratedAttributes(time, digest, typ);
            Agree(g[0], g[1]) && Agree(g[1], g[0])
  {
    hide Tlv, WellFormed, IsTime, Agree;
    var g := GeneratedAttributes(time, digest, typ);
    TimeShape(time);
    ShortTlv(OCTET_STRING, digest);
    DifferentLengthsAgree(g[0], g[1]);
    DifferentLengthsAgree(g[1], g[0]);
  }

  /** Time and content type sort alike, also when their values are equally long. */
  lemma TimeAndType(time: RawValue, digest: bytes, typ: bytes)
    requires IsTime(time) && AllWellFormed(GeneratedAttributes(time, digest, typ))
    ensures var g := GeneratedAttributes(time, digest, typ);
            Agree(g[0], g[2]) && Agree(g[2], g[0])
  {
    hide Tlv, WellFormed, IsTime, Leq, EncodeAttribute, Below;
    var g := GeneratedAttributes(time, digest, typ);
    var st, ct := g[0], g[2];
    TimeShape(time);
    ShortTlv(OID, typ);
    if |ct.value.content| == |st.value.content| {
      ContentTypeFirst();
      SameLengthOrder(ct, st);
      SameLengthOrder(st, ct);
      FirstOctetDecides(ct.value.content, st.value.content);
    } else {
      DifferentLengthsAgree(st, ct);
      DifferentLengthsAgree(ct, st);
    }
  }

  lemma ContentTypeFirst()
    ensures Below(CONTENT_TYPE, SIGNING_TIME) && Below(CONTENT_TYPE, MESSAGE_DIGEST)
    ensures CONTENT_TYPE != SIGNING_TIME && CONTENT_TYPE != MESSAGE_DIGEST && SIGNING_TIME != MESSAGE_DIGEST
  {
    var p := CONTENT_TYPE[..8];
    assert CONTENT_TYPE == p + [0x03] && SIGNING_TIME == p + [0x05] && MESSAGE_DIGEST == p + [0x04];
    BelowAfterPrefix(p, [0x03], [0x05]);
    BelowAfterPrefix(p, [0x03], [0x04]);
    assert CONTENT_TYPE[8] == 3 && SIGNING_TIME[8] == 5 && MESSAGE_DIGEST[8] == 4;
  }

  /** Digest and content type sort alike unless the content type takes 32 octets. */
  lemma DigestAndType(time: RawValue, digest: bytes, typ: bytes)
    requires |digest| == 32 && AllWellFormed(GeneratedAttributes(time, digest, typ))
    ensures var g := GeneratedAttributes(time, digest, typ);
            && (|typ| != 32 ==> Agree(g[1], g[2]) && Agree(g[2], g[1]))
            && (|typ| == 32 ==>
                  !Leq(ValueKey(g[2]), ValueKey(g[1])) && !Leq(EncodeAttribute(g[1]), EncodeAttribute(g[2])))
  {
    hide Tlv, WellFormed, Leq, EncodeAttribute, Below, Agree, ValueKey;
    var g := GeneratedAttributes(time, digest, typ);
    var md, ct := g[1], g[2];
    ShortTlv(OID, typ);
    ShortTlv(OCTET_STRING, digest);
    if |typ| == 32 {
      ContentTypeFirst();
      SameLengthOrder(ct, md);
      FirstOctetDecides(md.value.content, ct.value.content);
    } else {
      DifferentLengthsAgree(md, ct);
      DifferentLengthsAgree(ct, md);
    }
  }

  lemma GeneratedWellFormed(time: RawValue, digest: bytes, typ: bytes)
    requires Small(SortAttributes(GeneratedAttributes(time, digest, typ)))
    ensures AllWellFormed(GeneratedAttributes(time, digest, typ))
  {
    hide EncodeAttribute, SortBy, Tlv;
    var g := GeneratedAttributes(time, digest, typ);
    var stored := SortAttributes(g);
    SortByKeys(g, ValueKey);
    TlvSize(SET, InOrder(stored));
    forall i | 0 <= i < |g|
      ensures WellFormed(g[i])
    {
      assert g[i] in multiset(g);
      assert g[i] in stored;
      var j :| 0 <= j < |stored| && stored[j] == g[i];
      FlattenPart(Mapped(stored, EncodeAttribute), j);
    }
  }

  lemma PairFrom<T>(g: seq<T>, stored: seq<T>, i: nat, j: nat) returns (k: nat, l: nat)
    requires multiset(g) == multiset(stored) && i < j < |stored|
    ensures k < |g| && l < |g| && k != l && g[k] == stored[i] && g[l] == stored[j]
  {
    PermutedPair(g, stored, i, j);
    k, l :| 0 <= k < |g| && 0 <= l < |g| && k != l && g[k] == stored[i] && g[l] == stored[j];
  }

  /**
   * The octets AddSignerInfo signs and the octets the verifier rebuilds from the stored order are
   * the same for every content type except those whose identifier takes exactly 32 octets: then
   * the message-digest and content-type values are equally long, and sortAttributes, which looks
   * at values only, puts them the other way round than DER does.
   */
  lemma SignedIsVerified(time: RawValue, digest: bytes, typ: bytes)
    requires IsTime(time) && |digest| == 32
    requires Small(SortAttributes(GeneratedAttributes(time, digest, typ)))
    ensures var stored := SortAttributes(GeneratedAttributes(time, digest, typ));
            MarshaledForSigning(stored) == MarshaledForVerification(stored) <==> |typ| != 32
  {
    hide MarshaledForSigning, MarshaledForVerification, SortBy, Sort, Agree, Small, EncodeAttribute, AllWellFormed,
      IsTime, Leq, GeneratedAttributes, ValueKey;
    var g := GeneratedAttributes(time, digest, typ);
    var stored := SortAttributes(g);
    GeneratedWellFormed(time, digest, typ);
    SortByKeys(g, ValueKey);
    SortIsSorted(Mapped(g, ValueKey));
    SigningMatchesVerification(stored);
    if |typ| != 32 {
      forall i, j | 0 <= i < j < |stored|
        ensures Agree(stored[i], stored[j])
      {
        var k, l := PairFrom(g, stored, i, j);
        TypesAgree(time, digest, typ, k, l);
      }
      SortedTransfer(stored);
    } else {
      DigestAndType(time, digest, typ);
      WrongOrder(g, stored);
    }
  }

  lemma TypesAgree(time: RawValue, digest: bytes, typ: bytes, k: nat, l: nat)
    requires IsTime(time) && |digest| == 32 && |typ| != 32 && AllWellFormed(GeneratedAttributes(time, digest, typ))
    requires k < 3 && l < 3 && k != l
    ensures var g := GeneratedAttributes(time, digest, typ); Agree(g[k], g[l])
  {
    hide Agree, AllWellFormed, IsTime;
    TimeAndDigest(time, digest, typ);
    TimeAndType(time, digest, typ);
    DigestAndType(time, digest, typ);
  }

  lemma WrongOrder(g: seq<Attribute>, stored: seq<Attribute>)
    requires |g| == 3 && multiset(g) == multiset(stored) && Sorted(Mapped(stored, ValueKey))
    requires !Leq(ValueKey(g[2]), ValueKey(g[1])) && !Leq(EncodeAttribute(g[1]), EncodeAttribute(g[2]))
    ensures !Sorted(Mapped(stored, EncodeAttribute))
  {
    hide Leq, EncodeAttribute, ValueKey;
    assert g[1] in multiset(g) && g[2] in multiset(g);
    assert g[1] in stored && g[2] in stored;
    var i :| 0 <= i < |stored| && stored[i] == g[1];
    var j :| 0 <= j < |stored| && stored[j] == g[2];
    LeqReflexive(ValueKey(g[1]));
    assert i != j;
    if i < j {
      assert !Leq(Mapped(stored, EncodeAttribute)[i], Mapped(stored, EncodeAttribute)[j]);
    }
  }

  // ---------------------------------------------------------------- what AddSignerInfo leaves behind

  lemma BuiltAttributes(now: Clock, digest: bytes, typ: bytes)
    requires |digest| == 32 && |typ| < MAX_READABLE && ClockValue(now).Ok?
    ensures BuildAttributes(now, digest, typ)
      == Ok(SortAttributes(GeneratedAttributes(ClockValue(now).value, digest, typ)))
    ensures IsTime(ClockValue(now).value)
  {
    hide Tlv, SortBy, NewAttribute, Single, IsParsed;
    var time := ClockValue(now).value;
    TimeShape(time);
    NewAttributeSingle(SIGNING_TIME, time, []);
    assert time.full + [] == time.full;
    SmallRaw(OCTET_STRING, digest);
    NewAttributeSingle(MESSAGE_DIGEST, Raw(OCTET_STRING, digest), []);
    assert Tlv(OCTET_STRING, digest) + [] == Tlv(OCTET_STRING, digest);
    SmallRaw(OID, typ);
    NewAttributeSingle(CONTENT_TYPE, Raw(OID, typ), []);
    assert Tlv(OID, typ) + [] == Tlv(OID, typ);
  }

  lemma SmallRaw(id: bytes, content: bytes)
    requires |id| == 1 && id[0] % 32 != 31 && |content| < MAX_READABLE
    ensures IsParsed(Raw(id, content))
  {
    hide EncodeLength;
  }

  /** In a permutation of attributes of different types each type has one place. */
  lemma OnePlace(g: seq<Attribute>, stored: seq<Attribute>, m: nat) returns (i: nat)
    requires multiset(g) == multiset(stored) && m < |g|
    requires forall k, l :: 0 <= k < |g| && 0 <= l < |g| && k != l ==> g[k].typ != g[l].typ
    ensures OnlyAt(stored, g[m].typ, i) && stored[i] == g[m]
  {
    assert g[m] in multiset(g);
    assert g[m] in stored;
    i :| 0 <= i < |stored| && stored[i] == g[m];
    forall j | 0 <= j < |stored| && j != i
      ensures stored[j].typ != g[m].typ
    {
      var k, l := PairFrom(g, stored, if i < j then i else j, if i < j then j else i);
    }
  }

  /** Sorting keeps each generated attribute in exactly one place. */
  lemma OnlyGenerated(time: RawValue, digest: bytes, typ: bytes, m: nat)
    requires m < 3
    ensures var g := GeneratedAttributes(time, digest, typ);
            exists i :: OnlyAt(SortAttributes(g), g[m].typ, i) && SortAttributes(g)[i] == g[m]
  {
    hide SortBy, ValueKey, GeneratedAttributes, OnlyAt;
    var g := GeneratedAttributes(time, digest, typ);
    SortByKeys(g, ValueKey);
    ContentTypeFirst();
    SingleTypes(time, digest, typ);
    var i := OnePlace(g, SortAttributes(g), m);
  }

  /** The attribute of each type read back from a fresh SignerInfo is the one that was put in. */
  lemma GeneratedFound(time: RawValue, digest: bytes, typ: bytes)
    requires IsParsed(time) && |digest| < MAX_READABLE && |typ| < MAX_READABLE
    ensures var stored := Some(SortAttributes(GeneratedAttributes(time, digest, typ)));
            && GetOnly(stored, SIGNING_TIME) == Ok(time)
            && GetOnly(stored, MESSAGE_DIGEST) == Ok(Raw(OCTET_STRING, digest))
            && GetOnly(stored, CONTENT_TYPE) == Ok(Raw(OID, typ))
  {
    hide SortBy, ValueKey, DecodeAnySet, GetOnly, IsParsed, Tlv, Single, OnlyAt;
    var stored := SortAttributes(GeneratedAttributes(time, digest, typ));
    SmallRaw(OCTET_STRING, digest);
    SmallRaw(OID, typ);
    SingleTypes(time, digest, typ);
    OnlyGenerated(time, digest, typ, 0);
    SingleDecodes(SIGNING_TIME, time);
    GetOnlyExact(Some(stored), SIGNING_TIME, time);
    OnlyGenerated(time, digest, typ, 1);
    SingleDecodes(MESSAGE_DIGEST, Raw(OCTET_STRING, digest));
    GetOnlyExact(Some(stored), MESSAGE_DIGEST, Raw(OCTET_STRING, digest));
    OnlyGenerated(time, digest, typ, 2);
    SingleDecodes(CONTENT_TYPE, Raw(OID, typ));
    GetOnlyExact(Some(stored), CONTENT_TYPE, Raw(OID, typ));
  }

  lemma SingleTypes(time: RawValue, digest: bytes, typ: bytes)
    ensures var g := GeneratedAttributes(time, digest, typ);
            && g[0] == Single(SIGNING_TIME, time) && g[0].typ == SIGNING_TIME
            && g[1] == Single(MESSAGE_DIGEST, Raw(OCTET_STRING, digest)) && g[1].typ == MESSAGE_DIGEST
            && g[2] == Single(CONTENT_TYPE, Raw(OID, typ)) && g[2].typ == CONTENT_TYPE
  {
    hide Tlv;
  }
}
