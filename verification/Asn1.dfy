/**
 * encoding/asn1 on asn1.RawValue: definite, minimal TLVs split and written, and structs read
 * field by field from a schema. Class, tag number and the compound flag of a RawValue are held
 * as its identifier octets.
 */
module Asn1 {
  import opened Bytes
  import opened Errors
  import opened Lengths
  import opened Ber
  import opened BerProofs
  import opened NormalForm

  type CmsOutcome<+T> = Errors.Outcome<T>

  const INTEGER: bytes := [0x02]
  const OCTET_STRING: bytes := [0x04]
  const OCTET_STRING_COMPOUND: bytes := [0x24]
  const OID: bytes := [0x06]
  const UTC_TIME: bytes := [0x17]
  const GENERALIZED_TIME: bytes := [0x18]
  const SEQUENCE: bytes := [0x30]
  const SET: bytes := [0x31]
  const CONTEXT_0: bytes := [0xA0]
  const CONTEXT_1: bytes := [0xA1]
  const CONTEXT_0_PRIMITIVE: bytes := [0x80]

  /** `full` is FullBytes: the whole TLV after parsing, empty on a value built by hand. */
  datatype RawValue = RawValue(id: bytes, content: bytes, full: bytes)

  // ---------------------------------------------------------------- identifiers and primitive values

  /** A base-128 number in minimal form that fits an int32. */
  predicate Base128(a: bytes) {
    && 1 <= |a| <= 5
    && a[0] != 0x80
    && a[|a| - 1] < 0x80
    && (forall i :: 0 <= i < |a| - 1 ==> a[i] >= 0x80)
    && (|a| == 5 ==> a[0] < 0x88)
  }

  /** Identifier octets that encoding/asn1 takes: high tag numbers only from 31 on. */
  predicate GoodId(id: bytes) {
    ValidTag(id) && (|id| == 1 || (Base128(id[1..]) && !(|id| == 2 && id[1] < 31)))
  }

  predicate Arcs(c: bytes)
    decreases |c|
  {
    c == [] ||
    (var e := ReadHighTag(c, 0); e.Ok? && Base128(c[..e.value]) && Arcs(c[e.value..]))
  }

  /** Content octets of an OBJECT IDENTIFIER. Equal identifiers have equal octets. */
  predicate ValidOid(c: bytes) {
    c != [] && Arcs(c)
  }

  /** Content octets of an INTEGER in minimal two's complement. Equal numbers have equal octets. */
  predicate ValidInteger(c: bytes) {
    && c != []
    && (|c| > 1 ==> !(c[0] == 0 && c[1] < 0x80) && !(c[0] == 0xFF && c[1] >= 0x80))
  }

  // ---------------------------------------------------------------- one TLV

  datatype TlvHeader = TlvHeader(id: bytes, start: nat, length: nat)

  /** parseTagAndLength: a minimal identifier and a definite, minimal length below 2^31. */
  function ReadTlvHeader(s: bytes): (r: CmsOutcome<TlvHeader>)
    ensures r.Ok? ==> 2 <= r.value.start <= |s|
  {
    var t := ReadTag(s);
    if t.Err? || !GoodId(s[..t.value]) then Err(BadAsn1)
    else
      var l := ReadLength(s[t.value..]);
      if l.Err? || l.value.indefinite || s[t.value..][..l.value.size] != EncodeLength(l.value.length) then Err(BadAsn1)
      else Ok(TlvHeader(s[..t.value], t.value + l.value.size, l.value.length))
  }

  datatype Split = Split(value: RawValue, rest: bytes)

  /** asn1.Unmarshal into a RawValue: the first TLV and what follows it. */
  function Unmarshal(s: bytes): (r: CmsOutcome<Split>)
    ensures r.Ok? ==> |r.value.rest| + 2 <= |s| && |r.value.value.content| + 2 <= |r.value.value.full| <= |s|
  {
    var h :- ReadTlvHeader(s);
    var end := h.start + h.length;
    if end > |s| then Err(BadAsn1)
    else Ok(Split(RawValue(h.id, s[h.start..end], s[..end]), s[end..]))
  }

  /** asn1.Marshal of a RawValue: FullBytes verbatim when there are any. */
  function MarshalRaw(rv: RawValue): bytes {
    if rv.full != [] then rv.full else Tlv(rv.id, rv.content)
  }

  /** A RawValue as Unmarshal returns it. */
  predicate IsParsed(rv: RawValue) {
    GoodId(rv.id) && |rv.content| < MAX_READABLE && rv.full == Tlv(rv.id, rv.content)
  }

  function Raw(id: bytes, content: bytes): (rv: RawValue)
    ensures rv.full == Tlv(id, content)
  {
    RawValue(id, content, Tlv(id, content))
  }

  lemma HeaderOfTlv(id: bytes, content: bytes, rest: bytes)
    requires GoodId(id) && |content| < MAX_READABLE
    ensures var lo := EncodeLength(|content|);
            ReadTlvHeader(Tlv(id, content) + rest) == Ok(TlvHeader(id, |id| + |lo|, |content|))
  {
    hide ReadTag, ReadLength, EncodeLength, LengthOctets, ValidTag, Base128;
    var n := |content|;
    var lo := EncodeLength(n);
    var s := Tlv(id, content) + rest;
    assert s == id + (lo + (content + rest));
    TagScan(id, lo + (content + rest));
    assert s[..|id|] == id && s[|id|..] == lo + (content + rest);
    PrinterIsMinimal(n);
    MinimalFits(n);
    LengthScan(MinimalForm(n), n, content + rest);
    assert (lo + (content + rest))[..|lo|] == lo;
  }

  lemma MinimalFits(n: nat)
    requires n < MAX_READABLE
    ensures FormFits(MinimalForm(n), n) && !MinimalForm(n).Indefinite?
  {
  }

  /** A written TLV is split off exactly, whatever follows. */
  lemma UnmarshalTlv(id: bytes, content: bytes, rest: bytes)
    requires GoodId(id) && |content| < MAX_READABLE
    ensures Unmarshal(Tlv(id, content) + rest) == Ok(Split(Raw(id, content), rest))
  {
    hide ReadTlvHeader, EncodeLength, GoodId;
    HeaderOfTlv(id, content, rest);
    var lo := EncodeLength(|content|);
    var s := Tlv(id, content) + rest;
    var start := |id| + |lo|;
    assert s == (id + lo) + content + rest;
    assert s[start..start + |content|] == content;
    assert s[..start + |content|] == Tlv(id, content);
    assert s[start + |content|..] == rest;
  }

  /** Whatever Unmarshal splits off is a TLV in written form. */
  lemma UnmarshalInverse(s: bytes)
    requires Unmarshal(s).Ok?
    ensures var p := Unmarshal(s).value;
            s == p.value.full + p.rest && IsParsed(p.value)
  {
    hide EncodeLength, LengthOctets, GoodId, FormFits, ReadTag, ReadLength;
    var t := ReadTag(s).value;
    var l := ReadLength(s[t..]).value;
    LengthRecovered(s[t..]);
    var h := ReadTlvHeader(s).value;
    var end := h.start + h.length;
    assert s[..end] == s[..t] + s[t..][..l.size] + s[h.start..end];
  }

  lemma UnmarshalRaw(rv: RawValue, rest: bytes)
    requires IsParsed(rv)
    ensures Unmarshal(rv.full + rest) == Ok(Split(rv, rest))
  {
    hide GoodId, Tlv;
    UnmarshalTlv(rv.id, rv.content, rest);
  }

  /** Unmarshal accepts exactly the written TLVs, and undoes Marshal. */
  lemma UnmarshalLanguage(s: bytes, rv: RawValue, rest: bytes)
    ensures Unmarshal(s) == Ok(Split(rv, rest)) <==> IsParsed(rv) && s == rv.full + rest
  {
    hide Unmarshal, IsParsed;
    if Unmarshal(s) == Ok(Split(rv, rest)) {
      UnmarshalInverse(s);
    }
    if IsParsed(rv) && s == rv.full + rest {
      UnmarshalRaw(rv, rest);
    }
  }

  // ---------------------------------------------------------------- consecutive TLVs

  /** The loops that consume a slice TLV by TLV, as in SEQUENCE OF and DecodeAnySet. */
  function UnmarshalAll(s: bytes): CmsOutcome<seq<RawValue>>
    decreases |s|
  {
    if s == [] then Ok([])
    else
      var p :- Unmarshal(s);
      var more :- UnmarshalAll(p.rest);
      Ok([p.value] + more)
  }

  function Concat(rvs: seq<RawValue>): bytes {
    if rvs == [] then [] else rvs[0].full + Concat(rvs[1..])
  }

  predicate AllParsed(rvs: seq<RawValue>) {
    forall i :: 0 <= i < |rvs| ==> IsParsed(rvs[i])
  }

  lemma {:induction false} UnmarshalAllConcat(rvs: seq<RawValue>)
    requires AllParsed(rvs)
    ensures UnmarshalAll(Concat(rvs)) == Ok(rvs)
  {
    hide Unmarshal, IsParsed;
    if rvs == [] {
    } else {
      UnmarshalRaw(rvs[0], Concat(rvs[1..]));
      UnmarshalAllConcat(rvs[1..]);
      assert rvs == [rvs[0]] + rvs[1..];
    }
  }

  lemma {:induction false} UnmarshalAllInverse(s: bytes)
    requires UnmarshalAll(s).Ok?
    ensures AllParsed(UnmarshalAll(s).value) && Concat(UnmarshalAll(s).value) == s
    decreases |s|
  {
    hide Unmarshal, IsParsed;
    if s == [] {
    } else {
      UnmarshalInverse(s);
      var p := Unmarshal(s).value;
      UnmarshalAllInverse(p.rest);
      var more := UnmarshalAll(p.rest).value;
      assert ([p.value] + more)[1..] == more;
    }
  }

  lemma {:induction false} ConcatAppend(a: seq<RawValue>, b: seq<RawValue>)
    ensures Concat(a + b) == Concat(a) + Concat(b)
  {
    if a == [] {
      assert [] + b == b;
    } else {
      assert (a + b)[0] == a[0] && (a + b)[1..] == a[1..] + b;
      ConcatAppend(a[1..], b);
    }
  }

  // ---------------------------------------------------------------- structs by schema

  /** How one struct field is found. */
  datatype Field =
    | AnyValue                // RawValue
    | Tagged(id: bytes)
    | OptTagged(id: bytes)    // optional with a tag of its own
    | OptAny                  // RawValue, optional
    | Explicit0               // RawValue, explicit,tag:0
    | OptExplicit0            // RawValue, optional,explicit,tag:0

  datatype FieldRead = FieldRead(value: Option<RawValue>, rest: bytes)

  /** An explicit [0]: constructed, or primitive and empty. */
  predicate MatchesExplicit0(h: TlvHeader) {
    h.id == CONTEXT_0 || (h.id == CONTEXT_0_PRIMITIVE && h.length == 0)
  }

  function Present(r: CmsOutcome<Split>): CmsOutcome<FieldRead> {
    match r
    case Ok(p) => Ok(FieldRead(Some(p.value), p.rest))
    case Err(e) => Err(e)
  }

  /** parseField on one struct field. */
  function ParseField(s: bytes, f: Field): (r: CmsOutcome<FieldRead>)
    ensures r.Ok? ==> |r.value.rest| <= |s|
  {
    if s == [] then
      if f.OptTagged? || f.OptAny? || f.OptExplicit0? then Ok(FieldRead(None, s)) else Err(BadAsn1)
    else
      var h :- ReadTlvHeader(s);
      match f
      case AnyValue => Present(Unmarshal(s))
      case OptAny => Present(Unmarshal(s))
      case Tagged(id) => if h.id == id then Present(Unmarshal(s)) else Err(BadAsn1)
      case OptTagged(id) => if h.id == id then Present(Unmarshal(s)) else Ok(FieldRead(None, s))
      case Explicit0 =>
        if h.start == |s| || !MatchesExplicit0(h) then Err(BadAsn1) else Present(Unmarshal(s))
      case OptExplicit0 =>
        if h.start == |s| then Err(BadAsn1)
        else if MatchesExplicit0(h) then Present(Unmarshal(s))
        else Ok(FieldRead(None, s))
  }

  /** The fields of a struct in order. Octets after the last field are ignored, as in Go. */
  function ParseFields(s: bytes, fs: seq<Field>): (r: CmsOutcome<seq<Option<RawValue>>>)
    ensures r.Ok? ==> |r.value| == |fs|
    decreases |fs|
  {
    if fs == [] then Ok([])
    else
      var first :- ParseField(s, fs[0]);
      var rest :- ParseFields(first.rest, fs[1..]);
      Ok([first.value] + rest)
  }

  /** A struct written field by field; an absent optional field writes nothing. */
  function FieldsBytes(vs: seq<Option<RawValue>>): bytes {
    if vs == [] then []
    else (if vs[0].Some? then vs[0].value.full else []) + FieldsBytes(vs[1..])
  }

  predicate NonePresent(vs: seq<Option<RawValue>>) {
    vs == [] || (vs[0].None? && NonePresent(vs[1..]))
  }

  /** The first value written has an identifier other than `id`. */
  predicate NextIsNot(vs: seq<Option<RawValue>>, id: bytes) {
    vs == [] || (if vs[0].Some? then vs[0].value.id != id else NextIsNot(vs[1..], id))
  }

  /** Values that a struct with this schema can hold and that its reader can tell apart. */
  predicate Conforms(vs: seq<Option<RawValue>>, fs: seq<Field>)
    decreases |vs|
  {
    && |vs| == |fs|
    && (vs != [] ==>
          && Conforms(vs[1..], fs[1..])
          && (vs[0].Some? ==> IsParsed(vs[0].value))
          && match fs[0]
             case AnyValue => vs[0].Some?
             case OptAny => vs[0].None? ==> NonePresent(vs[1..])
             case Tagged(id) => vs[0].Some? && vs[0].value.id == id
             case OptTagged(id) => if vs[0].Some? then vs[0].value.id == id else NextIsNot(vs[1..], id)
             case Explicit0 => vs[0].Some? && vs[0].value.id == CONTEXT_0 && vs[0].value.content != []
             case OptExplicit0 =>
               if vs[0].Some? then vs[0].value.id == CONTEXT_0 && vs[0].value.content != []
               else NonePresent(vs[1..]))
  }

  lemma {:induction false} NonePresentBytes(vs: seq<Option<RawValue>>)
    requires NonePresent(vs)
    ensures FieldsBytes(vs) == []
  {
    if vs == [] {
    } else {
      NonePresentBytes(vs[1..]);
    }
  }

  /** What is written next shows its identifier. */
  lemma {:induction false} NextHeader(vs: seq<Option<RawValue>>, fs: seq<Field>, id: bytes)
    requires Conforms(vs, fs) && NextIsNot(vs, id)
    ensures var s := FieldsBytes(vs);
            s == [] || (ReadTlvHeader(s).Ok? && ReadTlvHeader(s).value.id != id)
    decreases |vs|
  {
    hide ReadTlvHeader, IsParsed;
    if vs == [] {
    } else {
      if vs[0].Some? {
        ParsedHeader(vs[0].value, FieldsBytes(vs[1..]));
      } else {
        NextHeader(vs[1..], fs[1..], id);
        assert [] + FieldsBytes(vs[1..]) == FieldsBytes(vs[1..]);
      }
    }
  }

  lemma ParsedHeader(rv: RawValue, rest: bytes)
    requires IsParsed(rv)
    ensures ReadTlvHeader(rv.full + rest).Ok?
    ensures var h := ReadTlvHeader(rv.full + rest).value;
            h.id == rv.id && h.length == |rv.content| && h.start + h.length == |rv.full| && rv.full != []
  {
    hide ReadTlvHeader, GoodId;
    HeaderOfTlv(rv.id, rv.content, rest);
  }

  lemma PresentField(rv: RawValue, rest: bytes, f: Field)
    requires IsParsed(rv)
    requires match f
             case Tagged(id) => rv.id == id
             case OptTagged(id) => rv.id == id
             case Explicit0 => rv.id == CONTEXT_0 && rv.content != []
             case OptExplicit0 => rv.id == CONTEXT_0 && rv.content != []
             case _ => true
    ensures ParseField(rv.full + rest, f) == Ok(FieldRead(Some(rv), rest))
  {
    hide ReadTlvHeader, Unmarshal, IsParsed;
    ParsedHeader(rv, rest);
    UnmarshalRaw(rv, rest);
  }

  /** Reading a struct back from what was written returns every field. */
  lemma {:induction false} FieldsRoundTrip(vs: seq<Option<RawValue>>, fs: seq<Field>)
    requires Conforms(vs, fs)
    ensures ParseFields(FieldsBytes(vs), fs) == Ok(vs)
    decreases |vs|
  {
    hide ParseField, IsParsed, NonePresent, NextIsNot;
    if vs == [] {
    } else {
      var tail := FieldsBytes(vs[1..]);
      FieldsRoundTrip(vs[1..], fs[1..]);
      assert vs == [vs[0]] + vs[1..];
      if vs[0].Some? {
        PresentField(vs[0].value, tail, fs[0]);
      } else {
        AbsentField(vs, fs);
        assert [] + tail == tail;
      }
    }
  }

  lemma AbsentField(vs: seq<Option<RawValue>>, fs: seq<Field>)
    requires Conforms(vs, fs) && vs != [] && vs[0].None?
    ensures ParseField(FieldsBytes(vs[1..]), fs[0]) == Ok(FieldRead(None, FieldsBytes(vs[1..])))
  {
    hide ReadTlvHeader, Unmarshal, IsParsed;
    if fs[0].OptTagged? {
      NextHeader(vs[1..], fs[1..], fs[0].id);
    } else if fs[0].OptAny? || fs[0].OptExplicit0? {
      NonePresentBytes(vs[1..]);
    }
  }
}
