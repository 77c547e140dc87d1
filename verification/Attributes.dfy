/**
 * Attribute values (any_set.go) and the attribute encodings that are signed and verified
 * (protocol.go:201-349, 740-751).
 */
module Attributes {
  import opened Bytes
  import opened Errors
  import opened Lengths
  import opened NormalForm
  import opened Order
  import opened Asn1

  /** A type identifier, as OBJECT IDENTIFIER content octets, and the raw SET of values. */
  datatype Attribute = Attribute(typ: bytes, value: RawValue)

  /** A nil Go slice (the optional field is missing) is None. */
  type AttributeList = Option<seq<Attribute>>

  // 1.2.840.113549.1.9.3, .4, .5 and 1.2.840.113549.1.9.16.2.14
  const CONTENT_TYPE: bytes := [0x2A, 0x86, 0x48, 0x86, 0xF7, 0x0D, 0x01, 0x09, 0x03]
  const MESSAGE_DIGEST: bytes := [0x2A, 0x86, 0x48, 0x86, 0xF7, 0x0D, 0x01, 0x09, 0x04]
  const SIGNING_TIME: bytes := [0x2A, 0x86, 0x48, 0x86, 0xF7, 0x0D, 0x01, 0x09, 0x05]
  const TIME_STAMP_TOKEN: bytes := [0x2A, 0x86, 0x48, 0x86, 0xF7, 0x0D, 0x01, 0x09, 0x10, 0x02, 0x0E]

  const NIL_RAW := RawValue([0x00], [], [])

  // ---------------------------------------------------------------- any_set.go

  /** Class universal, tag 17; the compound flag is not looked at. */
  predicate IsSet(rv: RawValue) {
    rv.id == SET || rv.id == [0x11]
  }

  function DecodeAnySet(rv: RawValue): CmsOutcome<seq<RawValue>> {
    if !IsSet(rv) then Err(BadAsn1) else UnmarshalAll(rv.content)
  }

  function MarshalElements(elts: seq<RawValue>): bytes {
    if elts == [] then [] else MarshalRaw(elts[0]) + MarshalElements(elts[1..])
  }

  /**
   * AnySet.Encode on a destination that may hold something already: content is appended, and
   * FullBytes stays as it was unless it was empty.
   */
  function EncodeAnySet(elts: seq<RawValue>, dst: RawValue): RawValue {
    var content := dst.content + MarshalElements(elts);
    RawValue(SET, content, MarshalRaw(RawValue(SET, content, dst.full)))
  }

  lemma {:induction false} MarshalElementsParsed(elts: seq<RawValue>)
    requires AllParsed(elts)
    ensures MarshalElements(elts) == Concat(elts)
  {
    hide Tlv, GoodId;
    if elts == [] {
    } else {
      assert IsParsed(elts[0]);
      ParsedNonEmpty(elts[0]);
      MarshalElementsParsed(elts[1..]);
    }
  }

  lemma ParsedNonEmpty(rv: RawValue)
    requires IsParsed(rv)
    ensures rv.full != [] && MarshalRaw(rv) == rv.full
  {
  }

  /** A set is decoded exactly when it is one, and its elements are all TLVs, one after the other to the end. */
  lemma AnySetExactly(rv: RawValue, elts: seq<RawValue>)
    ensures DecodeAnySet(rv) == Ok(elts)
            <==> (rv.id == [0x31] || rv.id == [0x11]) && AllParsed(elts) && rv.content == Concat(elts)
  {
    hide UnmarshalAll, AllParsed, Concat;
    if DecodeAnySet(rv) == Ok(elts) {
      UnmarshalAllInverse(rv.content);
    }
    if AllParsed(elts) && rv.content == Concat(elts) {
      UnmarshalAllConcat(elts);
    }
  }

  /** Decoding after encoding gives the elements back exactly when the destination had no content. */
  lemma AnySetRoundTrip(elts: seq<RawValue>, dst: RawValue)
    requires AllParsed(elts)
    ensures DecodeAnySet(EncodeAnySet(elts, dst)) == Ok(elts) <==> dst.content == []
  {
    hide UnmarshalAll, AllParsed, Concat;
    MarshalElementsParsed(elts);
    UnmarshalAllConcat(elts);
    var content := dst.content + Concat(elts);
    if dst.content == [] {
      assert content == Concat(elts);
    } else if UnmarshalAll(content) == Ok(elts) {
      UnmarshalAllInverse(content);
    }
  }

  /** FullBytes is the encoding of the set exactly when there were none before, or the right ones. */
  lemma AnySetFullBytes(elts: seq<RawValue>, dst: RawValue)
    requires AllParsed(elts)
    ensures var rv := EncodeAnySet(elts, dst);
            rv.full == Tlv(SET, rv.content) <==> dst.full == [] || dst.full == Tlv(SET, dst.content + Concat(elts))
  {
    hide Tlv, AllParsed;
    MarshalElementsParsed(elts);
  }

  /** A RawValue the source passes by pointer. */
  class RawCell {
    var v: RawValue

    constructor (v: RawValue)
      ensures this.v == v
    {
      this.v := v;
    }
  }

  /** One unfolding, behind the octets already there. */
  lemma MarshalStep(front: bytes, elts: seq<RawValue>)
    requires elts != []
    ensures front + MarshalElements(elts) == (front + MarshalRaw(elts[0])) + MarshalElements(elts[1..])
  {
    hide MarshalRaw;
  }

  lemma MarshalDone(front: bytes)
    ensures front + MarshalElements([]) == front
  {
  }

  /** Encode (any_set.go:46-63). */
  method EncodeSet(elements: seq<RawValue>, dst: RawCell)
    modifies dst
    ensures dst.v == EncodeAnySet(elements, old(dst.v))
  {
    hide MarshalRaw, MarshalElements;
    dst.v := dst.v.(id := SET);
    var i := 0;
    assert elements[0..] == elements;
    while i < |elements|
      invariant 0 <= i <= |elements|
      invariant dst.v.id == SET && dst.v.full == old(dst.v.full)
      invariant dst.v.content + MarshalElements(elements[i..]) == old(dst.v.content) + MarshalElements(elements)
    {
      MarshalStep(dst.v.content, elements[i..]);
      assert elements[i..][1..] == elements[i + 1..];
      dst.v := dst.v.(content := dst.v.content + MarshalRaw(elements[i]));
      i := i + 1;
    }
    assert elements[i..] == [];
    MarshalDone(dst.v.content);
    dst.v := dst.v.(full := MarshalRaw(dst.v));
  }

  /** DecodeAnySet (any_set.go:20-42). */
  method DecodeSet(rv: RawValue) returns (r: CmsOutcome<seq<RawValue>>)
    ensures r == DecodeAnySet(rv)
  {
    hide Unmarshal;
    if !IsSet(rv) {
      return Err(BadAsn1);
    }
    var der := rv.content;
    var elements: seq<RawValue> := [];
    ghost var all := UnmarshalAll(der);
    assert all.Ok? ==> [] + all.value == all.value;
    while |der| > 0
      invariant UnmarshalAll(rv.content) == match UnmarshalAll(der) case Ok(more) => Ok(elements + more)
        case Err(e) => Err(e)
      decreases |der|
    {
      var p := Unmarshal(der);
      if p.Err? {
        return Err(p.error);
      }
      ghost var more := UnmarshalAll(p.value.rest);
      if more.Ok? {
        assert elements + ([p.value.value] + more.value) == (elements + [p.value.value]) + more.value;
      }
      elements := elements + [p.value.value];
      der := p.value.rest;
    }
    assert elements + [] == elements;
    return Ok(elements);
  }

  // ---------------------------------------------------------------- building and finding attributes

  /** NewAttribute, given the DER that asn1.Marshal made of the value. */
  function NewAttribute(typ: bytes, der: bytes): CmsOutcome<Attribute> {
    var p :- Unmarshal(der);
    Ok(Attribute(typ, EncodeAnySet([p.value], NIL_RAW)))
  }

  /** The attribute with one value, as it comes out of NewAttribute. */
  function Single(typ: bytes, value: RawValue): Attribute {
    Attribute(typ, Raw(SET, value.full))
  }

  lemma NewAttributeSingle(typ: bytes, value: RawValue, rest: bytes)
    requires IsParsed(value)
    ensures NewAttribute(typ, value.full + rest) == Ok(Single(typ, value))
  {
    hide Unmarshal, Tlv, GoodId;
    UnmarshalRaw(value, rest);
    ParsedNonEmpty(value);
    assert MarshalElements([value]) == value.full by {
      assert [value][1..] == [];
      assert value.full + [] == value.full;
    }
    assert NIL_RAW.content + value.full == value.full;
  }

  lemma SingleDecodes(typ: bytes, value: RawValue)
    requires IsParsed(value)
    ensures DecodeAnySet(Single(typ, value).value) == Ok([value])
  {
    hide Unmarshal, Tlv, GoodId;
    UnmarshalAllConcat([value]);
    assert Concat([value]) == value.full by {
      assert [value][1..] == [];
      assert value.full + [] == value.full;
    }
  }

  /** GetValues over the attributes present. */
  function Values(attrs: seq<Attribute>, oid: bytes): CmsOutcome<seq<seq<RawValue>>> {
    if attrs == [] then Ok([])
    else if attrs[0].typ == oid then
      var first :- DecodeAnySet(attrs[0].value);
      var rest :- Values(attrs[1..], oid);
      Ok([first] + rest)
    else Values(attrs[1..], oid)
  }

  function GetValues(attrs: AttributeList, oid: bytes): CmsOutcome<seq<seq<RawValue>>> {
    if attrs.None? then Ok([]) else Values(attrs.value, oid)
  }

  /** GetOnlyAttributeValueBytes. */
  function GetOnly(attrs: AttributeList, oid: bytes): CmsOutcome<RawValue> {
    var vals :- GetValues(attrs, oid);
    if |vals| != 1 then Err(BadAttributeCount)
    else if |vals[0]| != 1 then Err(BadElementCount)
    else Ok(vals[0][0])
  }

  /** `i` is the one position of type `oid`. */
  predicate OnlyAt(attrs: seq<Attribute>, oid: bytes, i: int) {
    0 <= i < |attrs| && forall j :: 0 <= j < |attrs| ==> (attrs[j].typ == oid <==> j == i)
  }

  lemma {:induction false} ValuesNone(attrs: seq<Attribute>, oid: bytes)
    requires Values(attrs, oid).Ok?
    ensures Values(attrs, oid).value == [] <==> forall j :: 0 <= j < |attrs| ==> attrs[j].typ != oid
  {
    hide DecodeAnySet;
    if attrs == [] {
    } else {
      if attrs[0].typ != oid {
        ValuesNone(attrs[1..], oid);
        forall j | 0 <= j < |attrs|
          ensures attrs[j].typ != oid || Values(attrs, oid).value != []
        {
          assert j > 0 ==> attrs[j] == attrs[1..][j - 1];
        }
      }
    }
  }

  lemma {:induction false} ValuesAbsent(attrs: seq<Attribute>, oid: bytes)
    requires forall j :: 0 <= j < |attrs| ==> attrs[j].typ != oid
    ensures Values(attrs, oid) == Ok([])
  {
    if attrs == [] {
    } else {
      ValuesAbsent(attrs[1..], oid);
    }
  }

  /** One decodable value set of the type: it sits at the only position of that type. */
  lemma {:induction false} ValuesOne(attrs: seq<Attribute>, oid: bytes, set1: seq<RawValue>)
    ensures Values(attrs, oid) == Ok([set1])
            <==> exists i :: OnlyAt(attrs, oid, i) && DecodeAnySet(attrs[i].value) == Ok(set1)
  {
    hide DecodeAnySet, Values;
    if attrs == [] {
      assert forall i :: !OnlyAt(attrs, oid, i) by { NowhereInEmpty(attrs, oid); }
      assert Values(attrs, oid) == Ok([]) by { ValuesAbsent(attrs, oid); }
    } else if attrs[0].typ == oid {
      ValuesOneHere(attrs, oid, set1);
    } else {
      ValuesOne(attrs[1..], oid, set1);
      ValuesSkip(attrs, oid);
      if i :| OnlyAt(attrs[1..], oid, i) && DecodeAnySet(attrs[1..][i].value) == Ok(set1) {
        assert OnlyAt(attrs, oid, i + 1);
      }
      if i :| OnlyAt(attrs, oid, i) && DecodeAnySet(attrs[i].value) == Ok(set1) {
        assert OnlyAt(attrs[1..], oid, i - 1);
      }
    }
  }

  lemma NowhereInEmpty(attrs: seq<Attribute>, oid: bytes)
    requires attrs == []
    ensures forall i :: !OnlyAt(attrs, oid, i)
  {
  }

  lemma ValuesSkip(attrs: seq<Attribute>, oid: bytes)
    requires attrs != [] && attrs[0].typ != oid
    ensures Values(attrs, oid) == Values(attrs[1..], oid)
    ensures forall i :: OnlyAt(attrs, oid, i) <==> OnlyAt(attrs[1..], oid, i - 1)
    ensures forall i :: OnlyAt(attrs[1..], oid, i) ==> OnlyAt(attrs, oid, i + 1)
  {
    hide DecodeAnySet;
    forall i
      ensures OnlyAt(attrs, oid, i) <==> OnlyAt(attrs[1..], oid, i - 1)
    {
      assert forall j :: 1 <= j < |attrs| ==> attrs[j] == attrs[1..][j - 1];
      if OnlyAt(attrs[1..], oid, i - 1) {
        forall j | 0 <= j < |attrs| ensures attrs[j].typ == oid <==> j == i {
          if j > 0 {
            assert attrs[j] == attrs[1..][j - 1];
          }
        }
      }
    }
  }

  lemma ValuesOneHere(attrs: seq<Attribute>, oid: bytes, set1: seq<RawValue>)
    requires attrs != [] && attrs[0].typ == oid
    ensures Values(attrs, oid) == Ok([set1])
            <==> exists i :: OnlyAt(attrs, oid, i) && DecodeAnySet(attrs[i].value) == Ok(set1)
  {
    hide DecodeAnySet;
    if Values(attrs, oid) == Ok([set1]) {
      var rest := Values(attrs[1..], oid);
      assert ([DecodeAnySet(attrs[0].value).value] + rest.value)[0] == set1;
      assert |rest.value| == 0;
      ValuesNone(attrs[1..], oid);
      assert OnlyAt(attrs, oid, 0) by {
        forall j | 0 < j < |attrs| ensures attrs[j].typ != oid {
          assert attrs[j] == attrs[1..][j - 1];
        }
      }
    }
    if i :| OnlyAt(attrs, oid, i) && DecodeAnySet(attrs[i].value) == Ok(set1) {
      assert i == 0;
      ValuesAbsent(attrs[1..], oid);
      assert [set1] + [] == [set1];
    }
  }

  /**
   * GetOnlyAttributeValueBytes succeeds with `rv` exactly when the type occurs once and its set
   * has the one element `rv`.
   */
  lemma GetOnlyExact(attrs: AttributeList, oid: bytes, rv: RawValue)
    ensures GetOnly(attrs, oid) == Ok(rv)
            <==> attrs.Some? &&
                 exists i :: OnlyAt(attrs.value, oid, i) && DecodeAnySet(attrs.value[i].value) == Ok([rv])
  {
    hide DecodeAnySet, Values;
    if attrs.Some? {
      ValuesOne(attrs.value, oid, [rv]);
      if GetOnly(attrs, oid) == Ok(rv) {
        var vals := Values(attrs.value, oid).value;
        assert vals == [[rv]] by {
          assert vals == [vals[0]] && vals[0] == [vals[0][0]];
        }
      }
    }
  }

  /**
   * The value given to NewAttribute is what GetOnlyAttributeValueBytes returns exactly when no
   * other attribute of the list has its type.
   */
  lemma NewAttributeFound(attrs: seq<Attribute>, i: nat, typ: bytes, value: RawValue, rest: bytes)
    requires IsParsed(value) && i < |attrs| && NewAttribute(typ, value.full + rest) == Ok(attrs[i])
    ensures GetOnly(Some(attrs), typ) == Ok(value) <==> OnlyAt(attrs, typ, i)
  {
    hide DecodeAnySet, GetOnly, NewAttribute, IsParsed, Single;
    NewAttributeSingle(typ, value, rest);
    SingleDecodes(typ, value);
    GetOnlyExact(Some(attrs), typ, value);
    assert attrs[i].typ == typ by { SingleHasType(typ, value); }
  }

  lemma SingleHasType(typ: bytes, value: RawValue)
    ensures Single(typ, value).typ == typ
  {
  }

  /** GetValues (protocol.go:320-338). */
  method CollectValues(attrs: AttributeList, oid: bytes) returns (r: CmsOutcome<seq<seq<RawValue>>>)
    ensures r == GetValues(attrs, oid)
  {
    hide DecodeAnySet;
    if attrs.None? {
      return Ok([]);
    }
    var list := attrs.value;
    var vals: seq<seq<RawValue>> := [];
    var i := 0;
    assert list[0..] == list;
    ghost var all := Values(list, oid);
    assert all.Ok? ==> [] + all.value == all.value;
    while i < |list|
      invariant 0 <= i <= |list|
      invariant all == match Values(list[i..], oid) case Ok(more) => Ok(vals + more) case Err(e) => Err(e)
    {
      assert list[i..][1..] == list[i + 1..];
      if list[i].typ == oid {
        var val := DecodeSet(list[i].value);
        if val.Err? {
          return Err(val.error);
        }
        ghost var more := Values(list[i + 1..], oid);
        if more.Ok? {
          assert vals + ([val.value] + more.value) == (vals + [val.value]) + more.value;
        }
        vals := vals + [val.value];
      }
      i := i + 1;
    }
    assert vals + [] == vals;
    return Ok(vals);
  }

  // ---------------------------------------------------------------- the signed encoding

  /** An Attribute as asn1.Marshal writes it. */
  function EncodeAttribute(a: Attribute): bytes {
    Tlv(SEQUENCE, Tlv(OID, a.typ) + MarshalRaw(a.value))
  }

  /** The encodings in the given order. */
  function InOrder(attrs: seq<Attribute>): bytes {
    Flatten(Mapped(attrs, EncodeAttribute))
  }

  /** asn1.Marshal of a one-field struct, unwrapped again to its content octets. */
  function Unwrapped(field: bytes): CmsOutcome<bytes> {
    var p :- Unmarshal(Tlv(SEQUENCE, field));
    Ok(p.value.content)
  }

  /** MarshaledForSigning: a SET OF, which asn1.Marshal sorts by encoding. */
  function MarshaledForSigning(attrs: seq<Attribute>): CmsOutcome<bytes> {
    Unwrapped(Tlv(SET, Flatten(Sort(Mapped(attrs, EncodeAttribute)))))
  }

  /** MarshaledForVerification: a SEQUENCE OF in received order, its first octet replaced by 0x31. */
  function MarshaledForVerification(attrs: seq<Attribute>): CmsOutcome<bytes> {
    var raw :- Unwrapped(Tlv(SEQUENCE, InOrder(attrs)));
    if raw == [] then Err(BadAsn1) else Ok(raw[0 := 0x31])
  }

  /** The attributes fit into what encoding/asn1 reads back. */
  predicate Small(attrs: seq<Attribute>) {
    |Tlv(SET, InOrder(attrs))| < MAX_READABLE
  }

  lemma UnwrappedValue(field: bytes)
    requires |field| < MAX_READABLE
    ensures Unwrapped(field) == Ok(field)
  {
    hide Unmarshal, Tlv;
    UnmarshalTlv(SEQUENCE, field, []);
    assert Tlv(SEQUENCE, field) + [] == Tlv(SEQUENCE, field);
  }

  function Without<T>(xs: seq<T>, k: nat): seq<T>
    requires k < |xs|
  {
    xs[..k] + xs[k + 1..]
  }

  lemma WithoutMultiset<T>(xs: seq<T>, k: nat)
    requires k < |xs|
    ensures multiset(Without(xs, k)) == multiset(xs) - multiset{xs[k]}
  {
    assert xs == xs[..k] + ([xs[k]] + xs[k + 1..]);
  }

  lemma {:induction false} FlattenLength(xs: seq<bytes>, ys: seq<bytes>)
    requires multiset(xs) == multiset(ys)
    ensures |Flatten(xs)| == |Flatten(ys)|
  {
    if xs == [] {
      NoElements(ys);
    } else {
      var i := SamePlace(xs, ys);
      FlattenPick(ys, i);
      FlattenLength(xs[1..], Without(ys, i));
    }
  }

  lemma NoElements<T>(ys: seq<T>)
    requires multiset(ys) == multiset{}
    ensures ys == []
  {
    assert |multiset(ys)| == |ys|;
  }

  /** Where the first element of a sequence sits in a permutation of it; the rest permutes the rest. */
  lemma SamePlace<T>(xs: seq<T>, ys: seq<T>) returns (i: nat)
    requires xs != [] && multiset(xs) == multiset(ys)
    ensures i < |ys| && ys[i] == xs[0] && multiset(xs[1..]) == multiset(Without(ys, i))
  {
    assert xs[0] in multiset(ys);
    assert xs[0] in ys;
    i :| 0 <= i < |ys| && ys[i] == xs[0];
    TailMultiset(xs);
    WithoutMultiset(ys, i);
  }

  lemma {:induction false} FlattenPick(ys: seq<bytes>, i: nat)
    requires i < |ys|
    ensures |Flatten(ys)| == |ys[i]| + |Flatten(Without(ys, i))|
  {
    if i == 0 {
      assert Without(ys, i) == ys[1..];
    } else {
      FlattenPick(ys[1..], i - 1);
      assert Without(ys, i)[0] == ys[0] && Without(ys, i)[1..] == Without(ys[1..], i - 1);
    }
  }

  lemma MappedTail<T, U>(xs: seq<T>, f: T -> U)
    requires xs != []
    ensures Mapped(xs, f)[1..] == Mapped(xs[1..], f)
  {
  }

  lemma MappedWithout<T, U>(ys: seq<T>, i: nat, f: T -> U)
    requires i < |ys|
    ensures Mapped(Without(ys, i), f) == Without(Mapped(ys, f), i)
  {
  }

  /** Two sequences that differ in the place of one element only. */
  lemma SameButOne<T>(us: seq<T>, vs: seq<T>, i: nat)
    requires us != [] && i < |vs| && us[0] == vs[i] && multiset(us[1..]) == multiset(Without(vs, i))
    ensures multiset(us) == multiset(vs)
  {
    assert us == [us[0]] + us[1..];
    assert vs == vs[..i] + ([vs[i]] + vs[i + 1..]);
  }

  /** Permuting values permutes what they are mapped to. */
  lemma {:induction false} MappedPermuted<T, U>(xs: seq<T>, ys: seq<T>, f: T -> U)
    requires multiset(xs) == multiset(ys)
    ensures multiset(Mapped(xs, f)) == multiset(Mapped(ys, f))
  {
    hide Mapped, Without;
    if xs == [] {
      NoElements(ys);
    } else {
      var i := SamePlace(xs, ys);
      MappedPermuted(xs[1..], Without(ys, i), f);
      MappedTail(xs, f);
      MappedWithout(ys, i, f);
      SameButOne(Mapped(xs, f), Mapped(ys, f), i);
    }
  }

  /** What is signed: the SET OF with the encodings in sorted order. */
  lemma SigningValue(attrs: seq<Attribute>)
    requires Small(attrs)
    ensures MarshaledForSigning(attrs) == Ok(Tlv(SET, Flatten(Sort(Mapped(attrs, EncodeAttribute)))))
  {
    hide Sort, Unwrapped, EncodeAttribute, Flatten;
    var ks := Mapped(attrs, EncodeAttribute);
    SortIsSorted(ks);
    FlattenLength(Sort(ks), ks);
    UnwrappedValue(Tlv(SET, Flatten(Sort(ks))));
  }

  /** What is verified: the SET OF with the encodings in received order. */
  lemma VerificationValue(attrs: seq<Attribute>)
    requires Small(attrs)
    ensures MarshaledForVerification(attrs) == Ok(Tlv(SET, InOrder(attrs)))
  {
    hide Sort, Unwrapped, InOrder, EncodeLength;
    var raw := Tlv(SEQUENCE, InOrder(attrs));
    UnwrappedValue(raw);
    assert raw[0 := 0x31] == Tlv(SET, InOrder(attrs));
  }

  function AttributeBody(a: Attribute): bytes {
    Tlv(OID, a.typ) + MarshalRaw(a.value)
  }

  lemma TlvSize(id: bytes, c: bytes)
    ensures |Tlv(id, c)| > |c|
  {
  }

  /** Encodings written one after the other can be told apart. */
  lemma {:induction false} InOrderInjective(a: seq<Attribute>, b: seq<Attribute>)
    requires |a| == |b| && InOrder(a) == InOrder(b) && |InOrder(a)| < GO_INT_LIMIT
    ensures Mapped(a, EncodeAttribute) == Mapped(b, EncodeAttribute)
  {
    hide Tlv, EncodeAttribute, InOrder, AttributeBody;
    if a == [] {
    } else {
      InOrderFirst(a);
      InOrderFirst(b);
      var c, d := AttributeBody(a[0]), AttributeBody(b[0]);
      TlvSize(SEQUENCE, c);
      TlvSize(SEQUENCE, d);
      TlvPrefixFree(SEQUENCE, c, InOrder(a[1..]), SEQUENCE, d, InOrder(b[1..]));
      InOrderInjective(a[1..], b[1..]);
      var ka, kb := Mapped(a, EncodeAttribute), Mapped(b, EncodeAttribute);
      assert ka[1..] == Mapped(a[1..], EncodeAttribute) && kb[1..] == Mapped(b[1..], EncodeAttribute);
      assert ka == [ka[0]] + ka[1..] && kb == [kb[0]] + kb[1..];
    }
  }

  lemma InOrderFirst(a: seq<Attribute>)
    requires a != []
    ensures InOrder(a) == EncodeAttribute(a[0]) + InOrder(a[1..])
    ensures EncodeAttribute(a[0]) == Tlv(SEQUENCE, AttributeBody(a[0]))
  {
    hide Tlv;
    assert Mapped(a, EncodeAttribute)[1..] == Mapped(a[1..], EncodeAttribute);
  }

  /**
   * Signer and verifier build the same octets from one list of attributes exactly when its
   * encodings stand in ascending order.
   */
  lemma SigningMatchesVerification(attrs: seq<Attribute>)
    requires Small(attrs)
    ensures MarshaledForSigning(attrs) == MarshaledForVerification(attrs) <==> Sorted(Mapped(attrs, EncodeAttribute))
  {
    hide Sort, MarshaledForSigning, MarshaledForVerification, EncodeAttribute, Sorted;
    var ks := Mapped(attrs, EncodeAttribute);
    var ordered := SortBy(attrs, EncodeAttribute);
    SigningValue(attrs);
    VerificationValue(attrs);
    SortByKeys(attrs, EncodeAttribute);
    SortFixed(ks);
    if Tlv(SET, InOrder(ordered)) == Tlv(SET, InOrder(attrs)) {
      SetContent(InOrder(ordered), InOrder(attrs));
      InOrderInjective(ordered, attrs);
    }
  }

  lemma SetContent(a: bytes, b: bytes)
    requires Tlv(SET, a) == Tlv(SET, b) && |Tlv(SET, b)| < MAX_READABLE
    ensures a == b && |a| < GO_INT_LIMIT
  {
    hide Tlv;
    TlvSize(SET, a);
    TlvSize(SET, b);
    assert Tlv(SET, a) + [] == Tlv(SET, b) + [];
    TlvPrefixFree(SET, a, [], SET, b, []);
  }

  // ---------------------------------------------------------------- sorting by value

  /** What sortAttributes compares: `RawValue.FullBytes`. */
  function ValueKey(a: Attribute): bytes {
    a.value.full
  }

  /** sortAttributes. Any sorting algorithm leaves the values in this order. */
  function SortAttributes(attrs: seq<Attribute>): seq<Attribute> {
    SortBy(attrs, ValueKey)
  }

  /** Both keys put the two attributes in the same order. */
  predicate Agree(a: Attribute, b: Attribute) {
    Leq(ValueKey(a), ValueKey(b)) <==> Leq(EncodeAttribute(a), EncodeAttribute(b))
  }

  /** A SET value and a type, both of readable size. */
  predicate WellFormed(a: Attribute) {
    a.value == Raw(SET, a.value.content) && |EncodeAttribute(a)| < GO_INT_LIMIT
  }

  lemma AttributeSizes(a: Attribute)
    requires WellFormed(a)
    ensures MarshalRaw(a.value) == a.value.full == Tlv(SET, a.value.content)
    ensures EncodeAttribute(a) == Tlv(SEQUENCE, Tlv(OID, a.typ) + a.value.full)
    ensures |a.value.content| < |a.value.full| < GO_INT_LIMIT
    ensures |Tlv(OID, a.typ) + a.value.full| < GO_INT_LIMIT
  {
    hide EncodeLength;
  }

  lemma SameTypeLength(t: bytes, u: bytes)
    requires |t| == |u|
    ensures |Tlv(OID, t)| == |Tlv(OID, u)|
  {
  }

  /**
   * With types of equal length and values of different lengths, the value encodings alone decide
   * the order of the whole encodings.
   */
  lemma DifferentLengthsAgree(a: Attribute, b: Attribute)
    requires WellFormed(a) && WellFormed(b) && |a.typ| == |b.typ|
    requires |a.value.content| != |b.value.content|
    ensures Agree(a, b)
  {
    hide Tlv, Leq;
    if |a.value.content| < |b.value.content| {
      ShorterValueFirst(a, b);
    } else {
      ShorterValueFirst(b, a);
    }
  }

  lemma ShorterValueFirst(a: Attribute, b: Attribute)
    requires WellFormed(a) && WellFormed(b) && |a.typ| == |b.typ|
    requires |a.value.content| < |b.value.content|
    ensures Leq(ValueKey(a), ValueKey(b)) && !Leq(ValueKey(b), ValueKey(a))
    ensures Leq(EncodeAttribute(a), EncodeAttribute(b)) && !Leq(EncodeAttribute(b), EncodeAttribute(a))
  {
    hide Tlv, Leq, EncodeAttribute;
    AttributeSizes(a);
    AttributeSizes(b);
    SameTypeLength(a.typ, b.typ);
    ShorterFirst(SET, a.value.content, b.value.content);
    LongerTlv(SET, a.value.content, b.value.content);
    ShorterFirst(SEQUENCE, Tlv(OID, a.typ) + a.value.full, Tlv(OID, b.typ) + b.value.full);
  }

  /** With values of equal length the types decide the whole order, the contents the value order. */
  lemma SameLengthOrder(a: Attribute, b: Attribute)
    requires WellFormed(a) && WellFormed(b) && |a.typ| == |b.typ|
    requires |a.value.content| == |b.value.content|
    ensures Leq(ValueKey(a), ValueKey(b)) <==> Leq(a.value.content, b.value.content)
    ensures Below(a.typ, b.typ) ==>
              Leq(EncodeAttribute(a), EncodeAttribute(b)) && !Leq(EncodeAttribute(b), EncodeAttribute(a))
  {
    hide Tlv, Leq, EncodeAttribute, Below, EncodeLength;
    AttributeSizes(a);
    AttributeSizes(b);
    SameTypeLength(a.typ, b.typ);
    SameLengthByContent(SET, a.value.content, b.value.content);
    assert |a.value.full| == |b.value.full| by { EqualTlvSize(SET, a.value.content, b.value.content); }
    var p, q := Tlv(OID, a.typ) + a.value.full, Tlv(OID, b.typ) + b.value.full;
    if Below(a.typ, b.typ) {
      TypesDecide(a.typ, b.typ, a.value.full, b.value.full);
      SameLengthByContent(SEQUENCE, p, q);
      SameLengthByContent(SEQUENCE, q, p);
    }
  }

  lemma EqualTlvSize(id: bytes, c: bytes, d: bytes)
    requires |c| == |d|
    ensures |Tlv(id, c)| == |Tlv(id, d)|
  {
  }

  lemma TypesDecide(t: bytes, u: bytes, x: bytes, y: bytes)
    requires |t| == |u| && Below(t, u)
    ensures Leq(Tlv(OID, t) + x, Tlv(OID, u) + y) && !Leq(Tlv(OID, u) + y, Tlv(OID, t) + x)
  {
    hide Leq, Below, EncodeLength;
    var p := OID + EncodeLength(|t|);
    BelowAfterPrefix(p, t, u);
    BelowLess(p + t, p + u, x, y);
  }

  /** When every two attributes agree, sorted by value is sorted by encoding. */
  lemma SortedTransfer(attrs: seq<Attribute>)
    requires forall i, j :: 0 <= i < j < |attrs| ==> Agree(attrs[i], attrs[j])
    ensures Sorted(Mapped(attrs, ValueKey)) <==> Sorted(Mapped(attrs, EncodeAttribute))
  {
    hide Leq, EncodeAttribute, ValueKey;
    var vs, es := Mapped(attrs, ValueKey), Mapped(attrs, EncodeAttribute);
    forall i, j | 0 <= i < j < |attrs|
      ensures Leq(vs[i], vs[j]) <==> Leq(es[i], es[j])
    {
      assert Agree(attrs[i], attrs[j]);
    }
    if Sorted(vs) {
      assert forall i, j :: 0 <= i < j < |es| ==> Leq(vs[i], vs[j]) && Leq(es[i], es[j]);
    }
    if Sorted(es) {
      assert forall i, j :: 0 <= i < j < |vs| ==> Leq(es[i], es[j]) && Leq(vs[i], vs[j]);
    }
  }

  lemma {:induction false} InsertAgree(xs: seq<Attribute>, x: Attribute)
    requires forall i :: 0 <= i < |xs| ==> Agree(xs[i], x)
    ensures InsertBy(xs, x, ValueKey) == InsertBy(xs, x, EncodeAttribute)
  {
    hide Leq, EncodeAttribute, ValueKey;
    if xs == [] {
    } else {
      InsertAgree(xs[..|xs| - 1], x);
      assert Agree(xs[|xs| - 1], x);
    }
  }

  lemma {:induction false} SortAgree(attrs: seq<Attribute>)
    requires forall i, j :: 0 <= i < j < |attrs| ==> Agree(attrs[i], attrs[j])
    ensures SortBy(attrs, ValueKey) == SortBy(attrs, EncodeAttribute)
  {
    hide Leq, EncodeAttribute, ValueKey, Agree, InsertBy;
    if attrs == [] {
    } else {
      var n := |attrs| - 1;
      var front := attrs[..n];
      SortAgree(front);
      SortByKeys(front, ValueKey);
      var sorted := SortBy(front, ValueKey);
      forall i | 0 <= i < |sorted|
        ensures Agree(sorted[i], attrs[n])
      {
        assert sorted[i] in multiset(sorted);
        assert sorted[i] in front;
        var j :| 0 <= j < |front| && front[j] == sorted[i];
        assert Agree(attrs[j], attrs[n]);
      }
      InsertAgree(sorted, attrs[n]);
    }
  }

  /**
   * sortAttributes, which looks at the values alone, gives the order of the whole encodings that
   * section 11.6 of X.690 asks for.
   */
  lemma SortsAgree(attrs: seq<Attribute>)
    requires forall i :: 0 <= i < |attrs| ==> WellFormed(attrs[i])
    requires forall i, j :: 0 <= i < |attrs| && 0 <= j < |attrs| ==> |attrs[i].typ| == |attrs[j].typ|
    requires forall i, j :: 0 <= i < j < |attrs| ==> |attrs[i].value.content| != |attrs[j].value.content|
    ensures SortAttributes(attrs) == SortBy(attrs, EncodeAttribute)
  {
    hide SortBy, WellFormed, Agree, EncodeAttribute;
    forall i, j | 0 <= i < j < |attrs|
      ensures Agree(attrs[i], attrs[j])
    {
      DifferentLengthsAgree(attrs[i], attrs[j]);
    }
    SortAgree(attrs);
  }

  /**
   * Section 5.4 of RFC 5652 as the source meets it: for any number of attributes whose types have
   * equal length and whose values have pairwise different lengths, what is signed after
   * sortAttributes is what is verified from the stored order.
   */
  lemma DistinctLengthsAgree(attrs: seq<Attribute>)
    requires Small(SortAttributes(attrs))
    requires forall i :: 0 <= i < |attrs| ==> WellFormed(attrs[i])
    requires forall i, j :: 0 <= i < |attrs| && 0 <= j < |attrs| ==> |attrs[i].typ| == |attrs[j].typ|
    requires forall i, j :: 0 <= i < j < |attrs| ==> |attrs[i].value.content| != |attrs[j].value.content|
    ensures var stored := SortAttributes(attrs);
            MarshaledForSigning(stored) == MarshaledForVerification(stored) && MarshaledForSigning(stored).Ok?
  {
    hide MarshaledForSigning, MarshaledForVerification, SortBy, Sort, WellFormed, Agree, Small, EncodeAttribute;
    var stored := SortAttributes(attrs);
    SortByKeys(attrs, ValueKey);
    SortIsSorted(Mapped(attrs, ValueKey));
    forall i, j | 0 <= i < j < |stored|
      ensures Agree(stored[i], stored[j])
    {
      PermutedPair(attrs, stored, i, j);
      var k, l :| 0 <= k < |attrs| && 0 <= l < |attrs| && k != l && attrs[k] == stored[i] && attrs[l] == stored[j];
      assert |attrs[k].value.content| != |attrs[l].value.content|;
      DifferentLengthsAgree(stored[i], stored[j]);
    }
    SortedTransfer(stored);
    SigningMatchesVerification(stored);
    VerificationValue(stored);
  }

  lemma WithoutIndex<T>(xs: seq<T>, k: nat, x: T) returns (l: nat)
    requires k < |xs| && x in multiset(Without(xs, k))
    ensures l < |xs| && l != k && xs[l] == x
  {
    var rest := Without(xs, k);
    assert x in rest;
    var m :| 0 <= m < |rest| && rest[m] == x;
    l := if m < k then m else m + 1;
  }

  /** Two positions of a permutation come from two positions of the original. */
  lemma PermutedPair<T>(xs: seq<T>, ys: seq<T>, i: nat, j: nat)
    requires multiset(xs) == multiset(ys) && i < j < |ys|
    ensures exists k, l :: 0 <= k < |xs| && 0 <= l < |xs| && k != l && xs[k] == ys[i] && xs[l] == ys[j]
  {
    assert ys[i] in multiset(xs);
    assert ys[i] in xs;
    var k :| 0 <= k < |xs| && xs[k] == ys[i];
    WithoutMultiset(xs, k);
    WithoutMultiset(ys, i);
    assert Without(ys, i)[j - 1] == ys[j];
    assert ys[j] in multiset(Without(ys, i));
    var l := WithoutIndex(xs, k, ys[j]);
  }

  /** sortAttributes (protocol.go:740-751) on the slice it sorts in place. */
  method SortInPlace(attrs: array<Attribute>)
    modifies attrs
    ensures attrs[..] == SortAttributes(old(attrs[..]))
  {
    hide Leq, InsertBy;
    ghost var was := attrs[..];
    var n := 0;
    while n < attrs.Length
      invariant 0 <= n <= attrs.Length
      invariant attrs[..n] == SortBy(was[..n], ValueKey)
      invariant attrs[n..] == was[n..]
    {
      assert attrs[n] == attrs[n..][0] == was[n];
      assert was[..n + 1][..n] == was[..n];
      assert attrs[n..][1..] == attrs[n + 1..];
      SiftDown(attrs, n);
      n := n + 1;
    }
    assert was[..n] == was && attrs[..n] == attrs[..];
  }

  /** One round: element `n` moves down past every larger one. */
  method SiftDown(attrs: array<Attribute>, n: nat)
    requires n < attrs.Length
    modifies attrs
    ensures attrs[..n + 1] == InsertBy(old(attrs[..n]), old(attrs[n]), ValueKey)
    ensures attrs[n + 1..] == old(attrs[n + 1..])
  {
    hide Leq, Less, InsertBy, ValueKey;
    ghost var done := attrs[..n];
    ghost var x := attrs[n];
    var k := n;
    InsertAll(done, x);
    while k > 0 && Less(ValueKey(attrs[k]), ValueKey(attrs[k - 1]))
      invariant 0 <= k <= n
      invariant attrs[..n + 1] == done[..k] + [x] + done[k..]
      invariant attrs[n + 1..] == old(attrs[n + 1..])
      invariant InsertBy(done, x, ValueKey) == InsertBy(done[..k], x, ValueKey) + done[k..]
    {
      ghost var before := attrs[..n + 1];
      Neighbours(before, done, x, k);
      assert before[k] == attrs[k] && before[k - 1] == attrs[k - 1];
      InsertDown(done, x, k);
      attrs[k - 1], attrs[k] := attrs[k], attrs[k - 1];
      assert attrs[..n + 1] == before[k - 1 := before[k]][k := before[k - 1]];
      Swapped(before, done, x, k);
      k := k - 1;
    }
    Neighbours(attrs[..n + 1], done, x, k);
    assert attrs[..n + 1][k] == attrs[k] && (k > 0 ==> attrs[..n + 1][k - 1] == attrs[k - 1]);
    InsertStop(done, x, k);
  }

  lemma InsertAll(done: seq<Attribute>, x: Attribute)
    ensures done + [x] == done[..|done|] + [x] + done[|done|..]
    ensures InsertBy(done, x, ValueKey) == InsertBy(done[..|done|], x, ValueKey) + done[|done|..]
  {
    assert done[..|done|] == done && done[|done|..] == [];
  }

  lemma InsertDown(done: seq<Attribute>, x: Attribute, k: nat)
    requires 0 < k <= |done| && Less(ValueKey(x), ValueKey(done[k - 1]))
    ensures InsertBy(done[..k], x, ValueKey) + done[k..] == InsertBy(done[..k - 1], x, ValueKey) + done[k - 1..]
  {
    hide Less, ValueKey;
    assert done[..k][..k - 1] == done[..k - 1];
    assert done[k - 1..] == [done[k - 1]] + done[k..];
  }

  lemma InsertStop(done: seq<Attribute>, x: Attribute, k: nat)
    requires k <= |done| && (k > 0 ==> !Less(ValueKey(x), ValueKey(done[k - 1])))
    ensures InsertBy(done[..k], x, ValueKey) == done[..k] + [x]
  {
    hide Less, ValueKey;
  }

  lemma Swapped<T>(xs: seq<T>, done: seq<T>, x: T, k: nat)
    requires 0 < k <= |done| && xs == done[..k] + [x] + done[k..]
    ensures xs[k - 1 := xs[k]][k := xs[k - 1]] == done[..k - 1] + [x] + done[k - 1..]
  {
  }

  lemma Neighbours<T>(xs: seq<T>, done: seq<T>, x: T, k: nat)
    requires k <= |done| && xs == done[..k] + [x] + done[k..]
    ensures xs[k] == x && (k > 0 ==> xs[k - 1] == done[k - 1])
  {
  }
}
