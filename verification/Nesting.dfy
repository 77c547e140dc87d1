/**
 * What the parts of a parsed message are: DER all the way down, and, for tokens nested in
 * attributes, smaller than the message they were found in.
 */
module Nesting {
  import opened Bytes
  import opened Lengths
  import opened Ber
  import opened BerProofs
  import opened NormalForm
  import opened Asn1
  import opened Attributes
  import opened Cms
  import opened WireProofs

  // ---------------------------------------------------------------- splitting DER gives DER

  /** A TLV split off DER: its own octets are DER, and so is the content of a constructed one. */
  ghost predicate DeepRaw(rv: RawValue) {
    IsParsed(rv) && IsDer(rv.full) && (IsConstructed(rv.id[0]) ==> IsDerSeq(rv.content))
  }

  lemma GoodIdNonEmpty(rv: RawValue)
    requires IsParsed(rv)
    ensures rv.id != [] && ValidTag(rv.id)
  {
  }

  /** Unmarshal cuts printed objects where the printer joined them. */
  lemma SplitForest(os: seq<Obj>)
    requires ValidObjs(os) && |DerSeq(os)| < GO_INT_LIMIT && Unmarshal(DerSeq(os)).Ok?
    ensures os != []
    ensures var p := Unmarshal(DerSeq(os)).value;
            && p.value.full == Der(os[0]) && p.rest == DerSeq(os[1..])
            && p.value.id == os[0].tag && p.value.content == Body(os[0])
  {
    hide Unmarshal, Tlv, Der, Body, ValidObj, GoodId;
    var p := Unmarshal(DerSeq(os)).value;
    UnmarshalInverse(DerSeq(os));
    GoodIdNonEmpty(p.value);
    DerIsTlv(os[0]);
    ObjTag(os[0]);
    TlvPrefixFree(p.value.id, p.value.content, p.rest, os[0].tag, Body(os[0]), DerSeq(os[1..]));
  }

  lemma ObjTag(o: Obj)
    requires ValidObj(o)
    ensures ValidTag(o.tag) && (IsConstructed(o.tag[0]) <==> o.Structured?)
    ensures o.Structured? ==> ValidObjs(o.children) && Body(o) == DerSeq(o.children)
  {
  }

  lemma SplitDeep(s: bytes)
    requires IsDerSeq(s) && |s| < GO_INT_LIMIT && Unmarshal(s).Ok?
    ensures DeepRaw(Unmarshal(s).value.value) && IsDerSeq(Unmarshal(s).value.rest)
  {
    hide Unmarshal, Der, Body, ValidObj, IsParsed;
    var os: seq<Obj> :| ValidObjs(os) && DerSeq(os) == s;
    SplitForest(os);
    UnmarshalInverse(s);
    ObjTag(os[0]);
    GoodIdNonEmpty(Unmarshal(s).value.value);
  }

  lemma FieldDeep(s: bytes, f: Field)
    requires IsDerSeq(s) && |s| < GO_INT_LIMIT && ParseField(s, f).Ok?
    ensures var r := ParseField(s, f).value;
            IsDerSeq(r.rest) && (r.value.Some? ==> DeepRaw(r.value.value))
  {
    hide Unmarshal, IsDerSeq, DeepRaw, ReadTlvHeader;
    if s != [] && Unmarshal(s).Ok? {
      SplitDeep(s);
    }
  }

  lemma {:induction false} FieldsDeep(s: bytes, fs: seq<Field>)
    requires IsDerSeq(s) && |s| < GO_INT_LIMIT && ParseFields(s, fs).Ok?
    ensures forall i :: 0 <= i < |fs| && ParseFields(s, fs).value[i].Some? ==>
                          DeepRaw(ParseFields(s, fs).value[i].value)
    decreases |fs|
  {
    hide ParseField, IsDerSeq, DeepRaw;
    if fs == [] {
    } else {
      FieldDeep(s, fs[0]);
      FieldsDeep(ParseField(s, fs[0]).value.rest, fs[1..]);
    }
  }

  lemma {:induction false} AllDeep(s: bytes)
    requires IsDerSeq(s) && |s| < GO_INT_LIMIT && UnmarshalAll(s).Ok?
    ensures forall i :: 0 <= i < |UnmarshalAll(s).value| ==> DeepRaw(UnmarshalAll(s).value[i])
    decreases |s|
  {
    hide Unmarshal, IsDerSeq, DeepRaw;
    if s == [] {
    } else {
      SplitDeep(s);
      AllDeep(Unmarshal(s).value.rest);
    }
  }

  /** Only what Unmarshal can take is left in a struct field. */
  lemma {:induction false} FieldIds(s: bytes, fs: seq<Field>, i: nat)
    requires i < |fs| && ParseFields(s, fs).Ok? && ParseFields(s, fs).value[i].Some?
    ensures var v := ParseFields(s, fs).value[i].value;
            && (fs[i].Tagged? || fs[i].OptTagged? ==> v.id == fs[i].id)
            && (fs[i].Explicit0? || fs[i].OptExplicit0? ==>
                  v.id == CONTEXT_0 || (v.id == CONTEXT_0_PRIMITIVE && v.content == []))
    decreases |fs|
  {
    hide ParseField;
    if i == 0 {
      OneFieldId(s, fs[0]);
    } else {
      FieldIds(ParseField(s, fs[0]).value.rest, fs[1..], i - 1);
    }
  }

  lemma OneFieldId(s: bytes, f: Field)
    requires ParseField(s, f).Ok? && ParseField(s, f).value.value.Some?
    ensures var v := ParseField(s, f).value.value.value;
            && (f.Tagged? || f.OptTagged? ==> v.id == f.id)
            && (f.Explicit0? || f.OptExplicit0? ==>
                  v.id == CONTEXT_0 || (v.id == CONTEXT_0_PRIMITIVE && v.content == []))
  {
    hide ReadTlvHeader;
  }

  // ---------------------------------------------------------------- parsed structures are writable again

  lemma ParsedSmall(rv: RawValue)
    requires IsParsed(rv)
    ensures |rv.content| < MAX_READABLE < GO_INT_LIMIT && |rv.full| < GO_INT_LIMIT && rv.full != []
  {
    hide ReadHighTag, LengthOctets;
    SmallOctetCount(|rv.content|);
    ParsedNonEmpty(rv);
  }

  lemma SequenceContent(rv: RawValue, id: bytes)
    requires DeepRaw(rv) && rv.id == id && id != [] && IsConstructed(id[0])
    ensures IsDerSeq(rv.content) && |rv.content| < GO_INT_LIMIT
  {
    hide IsDerSeq, IsDer, IsParsed;
    ParsedSmall(rv);
  }

  lemma AlgDeep(rv: RawValue)
    requires DeepRaw(rv) && DecodeAlg(rv).Ok?
    ensures WfAlg(DecodeAlg(rv).value) && DeepAlg(DecodeAlg(rv).value)
  {
    hide ParseFields, IsDerSeq, IsDer, IsParsed, ValidOid;
    SequenceContent(rv, SEQUENCE);
    FieldsDeep(rv.content, ALG_SCHEMA);
  }

  lemma AttributeDeep(rv: RawValue)
    requires DeepRaw(rv) && DecodeAttribute(rv).Ok?
    ensures WfAttribute(DecodeAttribute(rv).value) && IsDer(DecodeAttribute(rv).value.value.full)
  {
    hide ParseFields, IsDerSeq, IsDer, IsParsed, ValidOid;
    SequenceContent(rv, SEQUENCE);
    FieldsDeep(rv.content, ATTRIBUTE_SCHEMA);
  }

  lemma AttributesDeep(v: Option<RawValue>, id: bytes)
    requires v.Some? ==> DeepRaw(v.value) && v.value.id == id
    requires id != [] && IsConstructed(id[0]) && DecodeOptional(v, DecodeAttribute).Ok?
    ensures WfAttributes(DecodeOptional(v, DecodeAttribute).value)
    ensures DeepAttributes(DecodeOptional(v, DecodeAttribute).value)
  {
    hide UnmarshalAll, IsDerSeq, IsDer, DeepRaw, DecodeAttribute, WfAttribute, DecodeAll;
    if v.Some? {
      SequenceContent(v.value, id);
      AllDeep(v.value.content);
      var rvs := UnmarshalAll(v.value.content).value;
      var attrs := DecodeAll(rvs, DecodeAttribute).value;
      forall i | 0 <= i < |rvs|
        ensures WfAttribute(attrs[i]) && IsDer(attrs[i].value.full)
      {
        AttributeDeep(rvs[i]);
      }
    }
  }

  lemma SignerDeep(rv: RawValue)
    requires DeepRaw(rv) && DecodeSigner(rv).Ok?
    ensures WfSigner(DecodeSigner(rv).value) && DeepSigner(DecodeSigner(rv).value)
  {
    hide ParseFields, IsDerSeq, IsDer, IsParsed, DecodeAlg, DecodeOptional, WfAlg, DeepAlg, WfAttributes,
      DeepAttributes, ValidInt64;
    SequenceContent(rv, SEQUENCE);
    FieldsDeep(rv.content, SIGNER_SCHEMA);
    var vs := ParseFields(rv.content, SIGNER_SCHEMA).value;
    AlgDeep(vs[2].value);
    AlgDeep(vs[4].value);
    if vs[3].Some? {
      FieldIds(rv.content, SIGNER_SCHEMA, 3);
    }
    AttributesDeep(vs[3], CONTEXT_0);
    if vs[6].Some? {
      FieldIds(rv.content, SIGNER_SCHEMA, 6);
    }
    AttributesDeep(vs[6], CONTEXT_1);
  }

  lemma EncapDeep(rv: RawValue)
    requires DeepRaw(rv) && DecodeEncap(rv).Ok?
    ensures var e := DecodeEncap(rv).value;
            && EncapRead(e)
            && (e.content.Some? ==> DeepRaw(e.content.value) && Completed(e.content.value) == e.content.value)
  {
    hide ParseFields, IsDerSeq, IsDer, IsParsed, ValidOid;
    SequenceContent(rv, SEQUENCE);
    FieldsDeep(rv.content, ENCAP_SCHEMA);
    var vs := ParseFields(rv.content, ENCAP_SCHEMA).value;
    if vs[1].Some? {
      FieldIds(rv.content, ENCAP_SCHEMA, 1);
      ParsedNonEmpty(vs[1].value);
    }
  }

  /** The struct fields of a SignedData found in DER. */
  lemma SignedFieldsDeep(rv: RawValue)
    requires DeepRaw(rv) && DecodeStruct(rv, SIGNED_SCHEMA).Ok?
    ensures var vs := DecodeStruct(rv, SIGNED_SCHEMA).value;
            && (forall i :: 0 <= i < 6 && vs[i].Some? ==> DeepRaw(vs[i].value))
            && (vs[1].Some? ==> vs[1].value.id == SET) && (vs[5].Some? ==> vs[5].value.id == SET)
            && (vs[3].Some? ==> vs[3].value.id == CONTEXT_0) && (vs[4].Some? ==> vs[4].value.id == CONTEXT_1)
  {
    hide ParseFields, IsDerSeq, DeepRaw;
    SequenceContent(rv, SEQUENCE);
    FieldsDeep(rv.content, SIGNED_SCHEMA);
    var vs := ParseFields(rv.content, SIGNED_SCHEMA).value;
    if vs[1].Some? { FieldIds(rv.content, SIGNED_SCHEMA, 1); }
    if vs[3].Some? { FieldIds(rv.content, SIGNED_SCHEMA, 3); }
    if vs[4].Some? { FieldIds(rv.content, SIGNED_SCHEMA, 4); }
    if vs[5].Some? { FieldIds(rv.content, SIGNED_SCHEMA, 5); }
  }

  lemma AlgsDeep(rv: RawValue)
    requires DeepRaw(rv) && rv.id == SET && DecodeList(rv, DecodeAlg).Ok?
    ensures forall a :: a in DecodeList(rv, DecodeAlg).value ==> WfAlg(a) && DeepAlg(a)
  {
    hide UnmarshalAll, IsDerSeq, DeepRaw, DecodeAlg, WfAlg, DeepAlg, DecodeAll;
    SequenceContent(rv, SET);
    AllDeep(rv.content);
    var rvs := UnmarshalAll(rv.content).value;
    forall i | 0 <= i < |rvs| ensures WfAlg(DecodeAlg(rvs[i]).value) && DeepAlg(DecodeAlg(rvs[i]).value) {
      AlgDeep(rvs[i]);
    }
  }

  lemma SignersDeep(rv: RawValue)
    requires DeepRaw(rv) && rv.id == SET && DecodeList(rv, DecodeSigner).Ok?
    ensures forall si :: si in DecodeList(rv, DecodeSigner).value ==> WfSigner(si) && DeepSigner(si)
  {
    hide UnmarshalAll, IsDerSeq, DeepRaw, DecodeSigner, WfSigner, DeepSigner, DecodeAll;
    SequenceContent(rv, SET);
    AllDeep(rv.content);
    var rvs := UnmarshalAll(rv.content).value;
    forall i | 0 <= i < |rvs| ensures WfSigner(DecodeSigner(rvs[i]).value) && DeepSigner(DecodeSigner(rvs[i]).value) {
      SignerDeep(rvs[i]);
    }
  }

  lemma RawsDeep(v: Option<RawValue>, id: bytes)
    requires v.Some? ==> DeepRaw(v.value) && v.value.id == id
    requires id != [] && IsConstructed(id[0]) && DecodeOptional(v, DecodeRaw).Ok?
    ensures WfRaws(DecodeOptional(v, DecodeRaw).value) && WireProofs.DeepRaws(DecodeOptional(v, DecodeRaw).value)
  {
    hide UnmarshalAll, IsDerSeq, DecodeAll, IsParsed, IsDer;
    if v.Some? {
      SequenceContent(v.value, id);
      AllDeep(v.value.content);
      var rvs := UnmarshalAll(v.value.content).value;
      var out := DecodeAll(rvs, DecodeRaw).value;
      assert forall i :: 0 <= i < |rvs| ==> DecodeRaw(rvs[i]) == Ok(out[i]);
      assert forall i :: 0 <= i < |rvs| ==> out[i] == rvs[i] && DeepRaw(rvs[i]);
    }
  }

  /** A SignedData found in DER is well formed and DER throughout. */
  lemma SignedDeep(rv: RawValue)
    requires DeepRaw(rv) && DecodeSigned(rv).Ok?
    ensures DeepSigned(DecodeSigned(rv).value) && WfParts(DecodeSigned(rv).value)
    ensures EncapRead(DecodeSigned(rv).value.eci)
  {
    hide DecodeStruct, DeepRaw, DecodeList, DecodeOptional, DecodeEncap, WfAlg, DeepAlg, WfSigner, DeepSigner, WfRaws,
      WireProofs.DeepRaws, ValidInt64, IsDer, EncapRead, Completed;
    SignedFieldsDeep(rv);
    var vs := DecodeStruct(rv, SIGNED_SCHEMA).value;
    AlgsDeep(vs[1].value);
    EncapDeep(vs[2].value);
    EncapContentDer(DecodeEncap(vs[2].value).value);
    RawsDeep(vs[3], CONTEXT_0);
    RawsDeep(vs[4], CONTEXT_1);
    SignersDeep(vs[5].value);
  }

  /** Encapsulated content as it is read: an explicit [0], or an empty one of either kind. */
  predicate EncapRead(e: EncapContent) {
    ValidOid(e.typ) &&
    (e.content.Some? ==>
       && IsParsed(e.content.value) && Completed(e.content.value) == e.content.value
       && (e.content.value.id == CONTEXT_0 || e.content.value.content == []))
  }

  lemma EncapContentDer(e: EncapContent)
    requires e.content.Some? ==> DeepRaw(e.content.value) && Completed(e.content.value) == e.content.value
    ensures e.content.Some? ==> IsDer(Completed(e.content.value).full)
  {
    hide IsDer, IsDerSeq, Completed;
  }

  // ---------------------------------------------------------------- parsed messages, marshalled again

  lemma WholeDeep(der: bytes, o: Obj)
    requires ValidObj(o) && der == Der(o) && Unmarshal(der).Ok? && Unmarshal(der).value.rest == []
    ensures DeepRaw(Unmarshal(der).value.value)
  {
    hide Unmarshal, Der, ValidObj, DeepRaw, IsParsed, IsDer;
    var p := Unmarshal(der).value;
    UnmarshalInverse(der);
    ParsedSmall(p.value);
    assert p.value.full + [] == p.value.full;
    assert IsDer(der) by { DerOf(o); }
    DerSeqNil();
    DerSeqCons(der, []);
    assert der + [] == der;
    SplitDeep(der);
  }

  lemma DerOf(o: Obj)
    requires ValidObj(o)
    ensures IsDer(Der(o))
  {
  }

  lemma ContentNotEmpty(ci: ContentInfo)
    requires SignedDataContent(ci).Ok?
    ensures ci.content.content != []
  {
    hide DecodeSigned;
  }

  /** Everything held by a message that ParseSignedData returned is well formed and DER all the way down. */
  lemma ParsedDeep(x: bytes)
    requires ParseSignedData(x).Ok?
    ensures var sd := ParseSignedData(x).value;
            DeepSigned(sd) && WfParts(sd) && EncapRead(sd.eci)
  {
    hide Parse, Der, ValidObj, Unmarshal, ParseFields, DecodeSigned, DeepRaw, ValidOid, DeepSigned, WfParts, EncapRead;
    var o := Parse(x).value.obj;
    var der := Der(o);
    ParseValid(x);
    WholeDeep(der, o);
    var rv := Unmarshal(der).value.value;
    SequenceContent(rv, SEQUENCE);
    FieldsDeep(rv.content, INFO_SCHEMA);
    FieldIds(rv.content, INFO_SCHEMA, 1);
    var ci := ParseContentInfo(x).value;
    ContentNotEmpty(ci);
    SequenceContent(ci.content, CONTEXT_0);
    SplitDeep(ci.content.content);
    SignedDeep(Unmarshal(ci.content.content).value.value);
  }

  /** The [0] around the content has something in it, or is missing. */
  predicate ContentHeld(e: EncapContent) {
    e.content.Some? ==> e.content.value.content != []
  }

  /**
   * A parsed message, marshalled and parsed again, is the same message with its sets in DER order,
   * exactly when its content is not an empty [0]; with an empty one it is rejected.
   */
  lemma Reparsed(x: bytes)
    requires ParseSignedData(x).Ok? && |ToDer(ParseSignedData(x).value)| < MAX_READABLE
    ensures var sd := ParseSignedData(x).value;
            && (ParseSignedData(ToDer(sd)).Ok? <==> ContentHeld(sd.eci))
            && (ParseSignedData(ToDer(sd)) == Ok(Canon(sd)) <==> ContentHeld(sd.eci))
  {
    hide ParseSignedData, ToDer, Canon, DeepSigned, WfParts, IsParsed, ValidOid;
    ParsedDeep(x);
    var sd := ParseSignedData(x).value;
    if ContentHeld(sd.eci) {
      ParseAfterToDer(sd);
    } else {
      EmptyContentUnread(sd);
    }
  }

  // ---------------------------------------------------------------- the size of a token

  function MaxPrimitive(o: Obj): nat
    decreases o, 0
  {
    match o
    case Primitive(_, _, content) => |content|
    case Structured(_, children) => MaxPrimitives(children)
  }

  function MaxPrimitives(os: seq<Obj>): nat
    decreases os, 1
  {
    if os == [] then 0
    else if MaxPrimitive(os[0]) >= MaxPrimitives(os[1..]) then MaxPrimitive(os[0]) else MaxPrimitives(os[1..])
  }

  function Nodes(o: Obj): (n: nat)
    ensures n >= 1
    decreases o, 0
  {
    match o
    case Primitive(_, _, _) => 1
    case Structured(_, children) => 1 + NodesOf(children)
  }

  function NodesOf(os: seq<Obj>): nat
    decreases os, 1
  {
    if os == [] then 0 else Nodes(os[0]) + NodesOf(os[1..])
  }

  /** Primitive contents are slices of the input behind at least two octets of header. */
  lemma {:induction false} ParseMaxPrimitive(s: bytes)
    requires Parse(s).Ok?
    ensures MaxPrimitive(Parse(s).value.obj) + 2 <= |s|
    decreases |s|, 0
  {
    hide ReadHeader, Parse, ParseWithin, ParseUntilEnd, IsConstructed;
    ParseInverse(s);
    var h := ReadHeader(s).value;
    if !IsConstructed(s[0]) {
    } else {
      if h.indefinite {
        UntilEndMaxPrimitive(s[h.start..]);
      } else {
        WithinMaxPrimitive(s[h.start..], h.length);
      }
    }
  }

  lemma {:induction false} WithinMaxPrimitive(s: bytes, want: int)
    requires ParseWithin(s, want).Ok?
    ensures MaxPrimitives(ParseWithin(s, want).value.objs) <= |s|
    decreases |s|, 1
  {
    hide Parse, ParseWithin, ParseUntilEnd, MaxPrimitive, WellNestedWithin;
    if want <= 0 {
      WithinNone(s, want);
    } else {
      WithinInverse(s, want);
      ParseMaxPrimitive(s);
      WithinMaxPrimitive(s[Parse(s).value.size..], want - Parse(s).value.size);
    }
  }

  lemma {:induction false} UntilEndMaxPrimitive(s: bytes)
    requires ParseUntilEnd(s).Ok?
    ensures MaxPrimitives(ParseUntilEnd(s).value.objs) <= |s|
    decreases |s|, 1
  {
    hide Parse, ParseWithin, ParseUntilEnd, MaxPrimitive;
    UntilEndInverse(s);
    ParseMaxPrimitive(s);
    var after := s[Parse(s).value.size..];
    if after[0] == 0 && after[1] == 0 {
    } else {
      UntilEndMaxPrimitive(after);
    }
  }

  /** The largest primitive content and the number of nodes; compared in that order. */
  datatype Size = Size(p: nat, n: nat)

  predicate Smaller(a: Size, b: Size) {
    a.p < b.p || (a.p == b.p && a.n < b.n)
  }

  predicate AtMost(a: Size, b: Size) {
    a == b || Smaller(a, b)
  }

  function TokenSize(token: bytes): Size {
    var p := Parse(token);
    if p.Err? then Size(0, 0) else Size(MaxPrimitive(p.value.obj), Nodes(p.value.obj))
  }

  /**
   * Octets that lie inside a printed tree of the given size: consecutive printed objects, or a
   * slice of some primitive content.
   */
  ghost predicate Inside(b: bytes, size: Size) {
    |b| <= size.p ||
    (exists os: seq<Obj> {:trigger DerSeq(os)} :: ValidObjs(os) && DerSeq(os) == b && MaxPrimitives(os) <= size.p
        && NodesOf(os) <= size.n)
  }

  lemma SplitInside(s: bytes, size: Size)
    requires Inside(s, size) && |s| < GO_INT_LIMIT && Unmarshal(s).Ok?
    ensures Inside(Unmarshal(s).value.rest, size) && Inside(Unmarshal(s).value.value.content, size)
  {
    hide Unmarshal, Der, Body, ValidObj, MaxPrimitive, Nodes;
    if |s| > size.p {
      var os: seq<Obj> :| ValidObjs(os) && DerSeq(os) == s && MaxPrimitives(os) <= size.p && NodesOf(os) <= size.n;
      SplitForest(os);
      ObjParts(os[0]);
      assert Inside(DerSeq(os[1..]), size);
      if os[0].Structured? {
        assert Inside(DerSeq(os[0].children), size);
      }
    }
  }

  lemma ObjParts(o: Obj)
    requires ValidObj(o)
    ensures o.Primitive? ==> |Body(o)| == MaxPrimitive(o)
    ensures o.Structured? ==>
              && ValidObjs(o.children) && Body(o) == DerSeq(o.children)
              && MaxPrimitive(o) == MaxPrimitives(o.children) && Nodes(o) == 1 + NodesOf(o.children)
  {
  }

  lemma {:induction false} FieldsInside(s: bytes, fs: seq<Field>, size: Size)
    requires Inside(s, size) && |s| < GO_INT_LIMIT && ParseFields(s, fs).Ok?
    ensures forall i :: 0 <= i < |fs| && ParseFields(s, fs).value[i].Some? ==>
                          Inside(ParseFields(s, fs).value[i].value.content, size)
                          && |ParseFields(s, fs).value[i].value.content| < GO_INT_LIMIT
    decreases |fs|
  {
    hide ParseField, Inside;
    if fs == [] {
    } else {
      FieldInside(s, fs[0], size);
      FieldsInside(ParseField(s, fs[0]).value.rest, fs[1..], size);
    }
  }

  lemma FieldInside(s: bytes, f: Field, size: Size)
    requires Inside(s, size) && |s| < GO_INT_LIMIT && ParseField(s, f).Ok?
    ensures var r := ParseField(s, f).value;
            && Inside(r.rest, size)
            && (r.value.Some? ==> Inside(r.value.value.content, size) && |r.value.value.content| < GO_INT_LIMIT)
  {
    hide Unmarshal, Inside, ReadTlvHeader;
    if s != [] && Unmarshal(s).Ok? {
      SplitInside(s, size);
    }
  }

  lemma {:induction false} AllInside(s: bytes, size: Size)
    requires Inside(s, size) && |s| < GO_INT_LIMIT && UnmarshalAll(s).Ok?
    ensures forall i :: 0 <= i < |UnmarshalAll(s).value| ==>
                          Inside(UnmarshalAll(s).value[i].content, size)
                              && |UnmarshalAll(s).value[i].content| < GO_INT_LIMIT
    decreases |s|
  {
    hide Unmarshal, Inside;
    if s == [] {
    } else {
      SplitInside(s, size);
      AllInside(Unmarshal(s).value.rest, size);
    }
  }

  /** A TLV found inside a tree is, read as a token, at most as large. */
  lemma {:induction false} ElementSize(s: bytes, size: Size, rv: RawValue)
    requires Inside(s, size) && |s| < GO_INT_LIMIT && UnmarshalAll(s).Ok? && rv in UnmarshalAll(s).value
    ensures AtMost(TokenSize(rv.full), size)
    decreases |s|
  {
    hide Unmarshal, Inside, TokenSize;
    var p := Unmarshal(s).value;
    SplitInside(s, size);
    if rv == p.value {
      FirstElementSize(s, size);
    } else {
      assert rv in UnmarshalAll(p.rest).value;
      ElementSize(p.rest, size, rv);
    }
  }

  lemma FirstElementSize(s: bytes, size: Size)
    requires Inside(s, size) && |s| < GO_INT_LIMIT && Unmarshal(s).Ok?
    ensures AtMost(TokenSize(Unmarshal(s).value.value.full), size)
  {
    hide Unmarshal, Der, Body, ValidObj, Parse, MaxPrimitive, Nodes;
    var rv := Unmarshal(s).value.value;
    UnmarshalInverse(s);
    if |s| <= size.p {
      if Parse(rv.full).Ok? {
        ParseMaxPrimitive(rv.full);
      }
    } else {
      var os: seq<Obj> :| ValidObjs(os) && DerSeq(os) == s && MaxPrimitives(os) <= size.p && NodesOf(os) <= size.n;
      SplitForest(os);
      ReadsBack(os[0], []);
      assert Der(os[0]) + [] == Der(os[0]);
    }
  }

  /** Every unsigned attribute of a message lies strictly inside the token it was parsed from. */
  lemma TokensShrink(token: bytes, si: SignerInfo, a: Attribute)
    requires ParseSignedData(token).Ok? && si in ParseSignedData(token).value.signerInfos
    requires si.unsignedAttrs.Some? && a in si.unsignedAttrs.value
    ensures var t := TokenSize(token);
            t.n >= 1 && Inside(a.value.content, Size(t.p, t.n - 1)) && |a.value.content| < GO_INT_LIMIT
  {
    hide Parse, Der, UnmarshalWhole, DecodeSigned, DecodeInfo, Inside, ValidObj, MaxPrimitive, Nodes;
    var o := Parse(token).value.obj;
    var t := TokenSize(token);
    var inner := Size(t.p, t.n - 1);
    ParseValid(token);
    InfoInside(Der(o), o);
    var ci := ParseContentInfo(token).value;
    SignedInside(ci.content.content, inner, si, a);
  }

  lemma InfoInside(der: bytes, o: Obj)
    requires ValidObj(o) && der == Der(o) && UnmarshalWhole(der, DecodeInfo).Ok?
    ensures var ci := UnmarshalWhole(der, DecodeInfo).value;
            Inside(ci.content.content, Size(MaxPrimitive(o), Nodes(o) - 1)) && |ci.content.content| < GO_INT_LIMIT
  {
    hide Unmarshal, ParseFields, Inside, Der, Body, ValidObj, MaxPrimitive, Nodes, ValidOid;
    var p := Unmarshal(der).value;
    var inner := Size(MaxPrimitive(o), Nodes(o) - 1);
    UnmarshalInverse(der);
    ParsedSmall(p.value);
    assert p.value.full + [] == p.value.full;
    RootInside(o);
    assert DerSeq([o]) == der by {
      assert [o][1..] == [] && Der(o) + [] == Der(o);
    }
    assert ValidObjs([o]);
    SplitForest([o]);
    FieldsInside(p.value.content, INFO_SCHEMA, inner);
  }

  lemma RootInside(o: Obj)
    requires ValidObj(o)
    ensures Inside(Body(o), Size(MaxPrimitive(o), Nodes(o) - 1))
  {
    hide ValidObj, Body, MaxPrimitive, Nodes;
    ObjParts(o);
    if o.Structured? {
      assert DerSeq(o.children) == Body(o);
    }
  }

  lemma SignedInside(s: bytes, size: Size, si: SignerInfo, a: Attribute)
    requires Inside(s, size) && |s| < GO_INT_LIMIT && UnmarshalWhole(s, DecodeSigned).Ok?
    requires si in UnmarshalWhole(s, DecodeSigned).value.signerInfos && si.unsignedAttrs.Some?
      && a in si.unsignedAttrs.value
    ensures Inside(a.value.content, size) && |a.value.content| < GO_INT_LIMIT
  {
    hide Unmarshal, ParseFields, Inside, DecodeList, DecodeOptional, DecodeEncap, DecodeSigner, ValidInt64;
    SplitInside(s, size);
    var rv := Unmarshal(s).value.value;
    FieldsInside(rv.content, SIGNED_SCHEMA, size);
    var vs := ParseFields(rv.content, SIGNED_SCHEMA).value;
    SignerListInside(vs[5].value, size, si, a);
  }

  lemma SignerListInside(rv: RawValue, size: Size, si: SignerInfo, a: Attribute)
    requires Inside(rv.content, size) && |rv.content| < GO_INT_LIMIT && DecodeList(rv, DecodeSigner).Ok?
    requires si in DecodeList(rv, DecodeSigner).value && si.unsignedAttrs.Some? && a in si.unsignedAttrs.value
    ensures Inside(a.value.content, size) && |a.value.content| < GO_INT_LIMIT
  {
    hide UnmarshalAll, Inside, DecodeSigner, DecodeAll;
    AllInside(rv.content, size);
    var rvs := UnmarshalAll(rv.content).value;
    var sis := DecodeAll(rvs, DecodeSigner).value;
    var i :| 0 <= i < |sis| && sis[i] == si;
    OneSignerInside(rvs[i], size, si, a);
  }

  lemma OneSignerInside(rv: RawValue, size: Size, si: SignerInfo, a: Attribute)
    requires Inside(rv.content, size) && |rv.content| < GO_INT_LIMIT && DecodeSigner(rv) == Ok(si)
    requires si.unsignedAttrs.Some? && a in si.unsignedAttrs.value
    ensures Inside(a.value.content, size) && |a.value.content| < GO_INT_LIMIT
  {
    hide ParseFields, Inside, DecodeAlg, DecodeList, ValidInt64;
    FieldsInside(rv.content, SIGNER_SCHEMA, size);
    var vs := ParseFields(rv.content, SIGNER_SCHEMA).value;
    AttributeListInside(vs[6].value, size, a);
  }

  lemma AttributeListInside(rv: RawValue, size: Size, a: Attribute)
    requires Inside(rv.content, size) && |rv.content| < GO_INT_LIMIT && DecodeList(rv, DecodeAttribute).Ok?
    requires a in DecodeList(rv, DecodeAttribute).value
    ensures Inside(a.value.content, size) && |a.value.content| < GO_INT_LIMIT
  {
    hide UnmarshalAll, Inside, DecodeAll, ParseFields;
    AllInside(rv.content, size);
    var rvs := UnmarshalAll(rv.content).value;
    var attrs := DecodeAll(rvs, DecodeAttribute).value;
    var i :| 0 <= i < |attrs| && attrs[i] == a;
    FieldsInside(rvs[i].content, ATTRIBUTE_SCHEMA, size);
  }

  /** The timestamp token a message carries is strictly smaller than the token the message came from. */
  lemma NestedTokenSmaller(token: bytes, si: SignerInfo, oid: bytes)
    requires ParseSignedData(token).Ok? && si in ParseSignedData(token).value.signerInfos
    requires GetOnly(si.unsignedAttrs, oid).Ok?
    ensures Smaller(TokenSize(GetOnly(si.unsignedAttrs, oid).value.full), TokenSize(token))
  {
    hide ParseSignedData, TokenSize, Inside, GetOnly, UnmarshalAll;
    var rv := GetOnly(si.unsignedAttrs, oid).value;
    GetOnlyExact(si.unsignedAttrs, oid, rv);
    var attrs := si.unsignedAttrs.value;
    var i :| OnlyAt(attrs, oid, i) && DecodeAnySet(attrs[i].value) == Ok([rv]);
    var t := TokenSize(token);
    TokensShrink(token, si, attrs[i]);
    assert rv in [rv];
    ElementSize(attrs[i].value.content, Size(t.p, t.n - 1), rv);
  }
}
