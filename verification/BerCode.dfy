/**
 * ber.go as written: offsets into one input slice, loops that append, a shared output buffer
 * and the package counter encodeIndent. Each method computes the function of module Ber.
 */
module BerCode {
  import opened Bytes
  import opened Lengths
  import opened Ber
  import opened BerProofs
  import opened NormalForm

  /** The package variable encodeIndent. */
  class Counter {
    var n: int

    constructor ()
      ensures n == 0
    {
      n := 0;
    }
  }

  // ---------------------------------------------------------------- encodeTo

  /** Both encodeTo methods (ber.go:18-54). A structured value nests one buffer per level. */
  method EncodeTo(o: Obj, out: Buffer, indent: Counter)
    modifies out, indent
    ensures out.data == old(out.data) + Der(o)
    ensures indent.n == old(indent.n)
    decreases o, 0
  {
    hide EncodeLength;
    match o {
      case Primitive(tag, length, content) =>
        out.Write(tag);
        WriteLength(out, length);
        out.Write(content);
        assert Der(o) == tag + EncodeLength(length) + content;
      case Structured(tag, children) =>
        indent.n := indent.n + 1;
        var inner := new Buffer();
        EncodeAll(children, inner, indent);
        indent.n := indent.n - 1;
        out.Write(tag);
        WriteLength(out, |inner.data|);
        out.Write(inner.data);
        assert Der(o) == tag + EncodeLength(|DerSeq(children)|) + DerSeq(children);
    }
  }

  /** The loop over `s.content` (ber.go:22-27). */
  method EncodeAll(children: seq<Obj>, inner: Buffer, indent: Counter)
    requires inner.data == []
    modifies inner, indent
    ensures inner.data == DerSeq(children)
    ensures indent.n == old(indent.n)
    decreases children, 1
  {
    hide Der;
    var i := 0;
    assert children[0..] == children && [] + DerSeq(children) == DerSeq(children);
    while i < |children|
      invariant 0 <= i <= |children|
      invariant indent.n == old(indent.n)
      invariant inner.data + DerSeq(children[i..]) == DerSeq(children)
    {
      DerSeqSplit(children, i);
      ghost var done := inner.data;
      EncodeTo(children[i], inner, indent);
      assert done + (Der(children[i]) + DerSeq(children[i + 1..])) == inner.data + DerSeq(children[i + 1..]);
      i := i + 1;
    }
    assert inner.data + [] == inner.data;
  }

  lemma DerSeqSplit(os: seq<Obj>, i: nat)
    requires i < |os|
    ensures DerSeq(os[i..]) == Der(os[i]) + DerSeq(os[i + 1..])
  {
    assert os[i..][1..] == os[i + 1..];
  }

  // ---------------------------------------------------------------- readObject

  function Shift(r: Outcome<Parsed>, offset: nat): Outcome<(Obj, nat)> {
    match r
    case Ok(p) => Ok((p.obj, offset + p.size))
    case Err(e) => Err(e)
  }

  /** Puts the objects already read, and the octets they took, in front. */
  function Before(objs: seq<Obj>, size: nat, r: Outcome<ParsedSeq>): Outcome<ParsedSeq> {
    match r
    case Ok(p) => Ok(ParsedSeq(objs + p.objs, size + p.size))
    case Err(e) => Err(e)
  }

  lemma HighTagAt(ber: bytes, start: nat, i: nat)
    requires start <= i <= |ber|
    ensures i == |ber| ==> ReadHighTag(ber[start..], i - start) == Err(IndexOutOfRange)
    ensures i < |ber| && ber[i] >= 0x80 ==>
              ReadHighTag(ber[start..], i - start) == ReadHighTag(ber[start..], i + 1 - start)
    ensures i < |ber| && ber[i] < 0x80 ==> ReadHighTag(ber[start..], i - start) == Ok(i + 1 - start)
  {
  }

  /** Identifier octets (ber.go:137-150); an index past the end is Go's panic. */
  method ScanTag(ber: bytes, tagStart: nat) returns (r: Outcome<nat>)
    requires tagStart <= |ber|
    ensures r == match ReadTag(ber[tagStart..]) case Ok(n) => Ok(tagStart + n) case Err(e) => Err(e)
  {
    if tagStart >= |ber| {
      return Err(IndexOutOfRange);
    }
    var b := ber[tagStart];
    var offset := tagStart + 1;
    if b % 32 == 0x1F {
      while offset < |ber| && ber[offset] >= 0x80
        invariant tagStart < offset <= |ber|
        invariant ReadTag(ber[tagStart..]) == ReadHighTag(ber[tagStart..], offset - tagStart)
      {
        HighTagAt(ber, tagStart, offset);
        offset := offset + 1;
      }
      HighTagAt(ber, tagStart, offset);
      if offset >= |ber| {
        return Err(IndexOutOfRange);
      }
      offset := offset + 1;
    }
    return Ok(offset);
  }

  /** Length octets (ber.go:160-186). */
  method ScanLength(ber: bytes, at: nat) returns (r: Outcome<LengthRead>)
    requires at <= |ber|
    ensures r == ReadLength(ber[at..])
  {
    if at >= |ber| {
      return Err(IndexOutOfRange);
    }
    var l := ber[at];
    var offset := at + 1;
    if l > 0x80 {
      var numberOfBytes := l - 0x80;
      if numberOfBytes > 4 {
        return Err(LengthTooLong);
      }
      if offset >= |ber| {
        return Err(IndexOutOfRange);
      }
      if numberOfBytes == 4 && ber[offset] > 0x7F {
        return Err(LengthNegative);
      }
      if ber[offset] == 0 {
        return Err(LengthLeadingZero);
      }
      var length: nat := 0;
      var i := 0;
      while i < numberOfBytes
        invariant 0 <= i <= numberOfBytes && offset == at + 1 + i <= |ber|
        invariant length == FromBigEndian(ber[at + 1..offset])
      {
        if offset >= |ber| {
          return Err(IndexOutOfRange);
        }
        assert ber[at + 1..offset + 1][..i] == ber[at + 1..offset];
        length := length * 256 + ber[offset];
        offset := offset + 1;
        i := i + 1;
      }
      assert ber[at..][1..1 + numberOfBytes] == ber[at + 1..offset];
      return Ok(LengthRead(1 + numberOfBytes, length, false));
    } else if l == 0x80 {
      return Ok(LengthRead(1, 0, true));
    } else {
      return Ok(LengthRead(1, l, false));
    }
  }

  method ScanHeader(ber: bytes, tagStart: nat) returns (r: Outcome<Header>)
    requires tagStart <= |ber|
    ensures r == ReadHeader(ber[tagStart..])
  {
    hide ReadTag, ReadLength, IsConstructed;
    var tag := ScanTag(ber, tagStart);
    if tag.Err? {
      return Err(tag.error);
    }
    assert ber[tagStart..][tag.value - tagStart..] == ber[tag.value..];
    var len := ScanLength(ber, tag.value);
    if len.Err? {
      return Err(len.error);
    }
    var offset := tag.value + len.value.size;
    var contentEnd := offset + len.value.length;
    if contentEnd > |ber| {
      return Err(LengthBeyondData);
    }
    if len.value.indefinite && !IsConstructed(ber[tagStart]) {
      return Err(IndefinitePrimitive);
    }
    return Ok(Header(tag.value - tagStart, offset - tagStart, len.value.length, len.value.indefinite));
  }

  /** isIndefiniteTermination (ber.go:242-248). */
  method IsIndefiniteTermination(ber: bytes, offset: nat) returns (r: Outcome<bool>)
    requires offset <= |ber|
    ensures r == var s := ber[offset..];
                 if |s| < 2 then Err(InvalidFormat) else Ok(s[0] == 0 && s[1] == 0)
  {
    if |ber| - offset < 2 {
      return Err(InvalidFormat);
    }
    return Ok(ber[offset] == 0 && ber[offset + 1] == 0);
  }

  /**
   * readObject (ber.go:135-240). It ends on every input: the octets after the offset get fewer
   * with every object, although a child may run past its parent and an indefinite value has no
   * end of its own.
   */
  method ReadObject(ber: bytes, tagStart: nat) returns (r: Outcome<(Obj, nat)>)
    requires tagStart <= |ber|
    ensures r == Shift(Parse(ber[tagStart..]), tagStart)
    ensures r.Ok? ==> tagStart + 2 <= r.value.1 <= |ber|
    decreases |ber| - tagStart, 1
  {
    hide ReadHeader, Parse, ParseWithin, ParseUntilEnd, IsConstructed;
    ghost var s := ber[tagStart..];
    var header := ScanHeader(ber, tagStart);
    HeaderFails(s);
    if header.Err? {
      return Err(header.error);
    }
    var h := header.value;
    ParseStep(s, h);
    var tagBytes := ber[tagStart..tagStart + h.tagLen];
    assert tagBytes == s[..h.tagLen];
    var offset := tagStart + h.start;
    var contentEnd := offset + h.length;
    if !IsConstructed(ber[tagStart]) {
      assert ber[offset..contentEnd] == s[h.start..h.start + h.length];
      return Ok((Primitive(tagBytes, h.length, ber[offset..contentEnd]), contentEnd));
    }
    assert ber[offset..] == s[h.start..];
    ParseBody(s, h);
    var body := ReadChildren(ber, offset, contentEnd, h.indefinite);
    if body.Err? {
      return Err(body.error);
    }
    if h.indefinite {
      contentEnd := body.value.1 + 2;
    }
    return Ok((Structured(tagBytes, body.value.0), contentEnd));
  }

  /** The loop of readObject over a constructed value (ber.go:207-227). */
  method ReadChildren(ber: bytes, start: nat, contentEnd: nat, indefinite: bool)
    returns (r: Outcome<(seq<Obj>, nat)>)
    requires start <= contentEnd <= |ber| && (indefinite ==> start == contentEnd)
    ensures var s := ber[start..];
            var want := if indefinite then ParseUntilEnd(s) else ParseWithin(s, contentEnd - start);
            r == match want case Ok(p) => Ok((p.objs, start + p.size)) case Err(e) => Err(e)
    decreases |ber| - start, 2
  {
    hide Parse, ParseWithin, ParseUntilEnd, WellNested, WellNestedWithin, WellNestedUntilEnd;
    var offset := start;
    var subObjects: seq<Obj> := [];
    ghost var goal := if indefinite then ParseUntilEnd(ber[start..]) else ParseWithin(ber[start..], contentEnd - start);
    BeforeNone(goal);
    while offset < contentEnd || indefinite
      invariant start <= offset <= |ber|
      invariant goal == Before(subObjects, offset - start,
                               if indefinite then ParseUntilEnd(ber[offset..])
                               else ParseWithin(ber[offset..], contentEnd - offset))
      decreases |ber| - offset
    {
      ghost var s := ber[offset..];
      if indefinite { UntilEndFails(s); } else { WithinFails(s, contentEnd - offset); }
      var sub := ReadObject(ber, offset);
      if sub.Err? {
        return Err(sub.error);
      }
      ghost var first := Parse(s).value;
      assert ber[sub.value.1..] == s[first.size..];
      if indefinite {
        var terminated := IsIndefiniteTermination(ber, sub.value.1);
        if terminated.Err? {
          return Err(terminated.error);
        }
        if terminated.value {
          UntilEndLast(s, first);
          return Ok((subObjects + [sub.value.0], sub.value.1));
        }
        if ParseUntilEnd(s[first.size..]).Ok? {
          UntilEndMore(s, first, ParseUntilEnd(s[first.size..]).value);
          BeforeStep(subObjects, offset - start, first, ParseUntilEnd(s[first.size..]).value);
        }
      } else if ParseWithin(s[first.size..], contentEnd - sub.value.1).Ok? {
        WithinStep(s, contentEnd - offset, first, ParseWithin(s[first.size..], contentEnd - sub.value.1).value);
        BeforeStep(subObjects, offset - start, first, ParseWithin(s[first.size..], contentEnd - sub.value.1).value);
      }
      subObjects := subObjects + [sub.value.0];
      offset := sub.value.1;
    }
    WithinNone(ber[offset..], contentEnd - offset);
    assert subObjects + [] == subObjects;
    return Ok((subObjects, offset));
  }

  lemma BeforeNone(r: Outcome<ParsedSeq>)
    ensures Before([], 0, r) == r
  {
    if r.Ok? {
      assert [] + r.value.objs == r.value.objs;
    }
  }

  lemma BeforeStep(objs: seq<Obj>, size: nat, first: Parsed, rest: ParsedSeq)
    ensures Before(objs, size, Ok(ParsedSeq([first.obj] + rest.objs, first.size + rest.size)))
            == Before(objs + [first.obj], size + first.size, Ok(rest))
  {
    assert objs + ([first.obj] + rest.objs) == (objs + [first.obj]) + rest.objs;
  }

  /** BER2DER (ber.go:57-75); octets after the first object are ignored. */
  method BER2DER(ber: bytes, indent: Counter) returns (r: Outcome<bytes>)
    modifies indent
    ensures r == Ber2Der(ber)
    ensures indent.n == old(indent.n)
  {
    hide Parse, Der;
    if |ber| == 0 {
      return Err(EmptyInput);
    }
    var out := new Buffer();
    assert ber[0..] == ber;
    var obj := ReadObject(ber, 0);
    if obj.Err? {
      return Err(obj.error);
    }
    EncodeTo(obj.value.0, out, indent);
    assert [] + Der(obj.value.0) == Der(obj.value.0);
    return Ok(out.data);
  }
}
