/**
 * What the transcoder guarantees: it accepts exactly the admissible encodings (up to nesting),
 * prints one normal form per tree, and is a fixed point on its own output.
 */
module BerProofs {
  import opened Bytes
  import opened Lengths
  import opened Ber

  // ---------------------------------------------------------------- identifiers

  lemma {:induction false} HighTagScan(tag: bytes, rest: bytes, i: nat)
    requires ValidTag(tag) && tag[0] % 32 == 31 && 1 <= i < |tag|
    ensures ReadHighTag(tag + rest, i) == Ok(|tag|)
    decreases |tag| - i
  {
    assert (tag + rest)[i] == tag[i];
    if i >= |tag| - 1 {
    } else {
      HighTagScan(tag, rest, i + 1);
    }
  }

  lemma TagScan(tag: bytes, rest: bytes)
    requires ValidTag(tag)
    ensures ReadTag(tag + rest) == Ok(|tag|)
  {
    assert (tag + rest)[0] == tag[0];
    if tag[0] % 32 == 31 {
      HighTagScan(tag, rest, 1);
    }
  }

  lemma {:induction false} HighTagRead(s: bytes, i: nat)
    requires 1 <= i <= |s| && ReadHighTag(s, i).Ok?
    ensures s[ReadHighTag(s, i).value - 1] < 0x80
    ensures forall j :: i <= j < ReadHighTag(s, i).value - 1 ==> s[j] >= 0x80
    decreases |s| - i
  {
    if s[i] < 0x80 {
    } else {
      HighTagRead(s, i + 1);
    }
  }

  lemma TagRead(s: bytes)
    requires ReadTag(s).Ok?
    ensures ValidTag(s[..ReadTag(s).value])
  {
    if s[0] % 32 == 31 {
      HighTagRead(s, 1);
    }
  }

  // ---------------------------------------------------------------- length octets

  /** The reader inverts every length form that fits, and takes exactly its octets. */
  lemma LengthScan(form: Form, n: nat, rest: bytes)
    requires FormFits(form, n)
    ensures ReadLength(LengthOctets(form, n) + rest)
            == Ok(LengthRead(|LengthOctets(form, n)|, if form.Indefinite? then 0 else n, form.Indefinite?))
  {
    if form.Long? {
      var k := OctetCount(n);
      var digits := BigEndian(n, k);
      var s := LengthOctets(form, n) + rest;
      SmallOctetCount(n);
      OctetCountLeast(n, k);
      BigEndianValue(n, k);
      FirstDigit(n);
      assert s[0] == 0x80 + k;
      assert s[1] == digits[0];
      assert s[1..1 + k] == digits;
      if k == 4 {
        TopDigitSmall(n);
      }
    }
  }

  lemma TopDigitSmall(n: nat)
    requires n < MAX_READABLE && OctetCount(n) == 4
    ensures BigEndian(n, 4)[0] <= 0x7F
  {
    DigitAt(n, 4, 0);
    assert Pow256(3) == 16777216 by {
      assert Pow256(1) == 256;
      assert Pow256(2) == 65536;
    }
  }

  /** The form a successfully read length was written in. */
  function FormRead(s: bytes): Form
    requires s != []
  {
    if s[0] > 0x80 then Long else if s[0] == 0x80 then Indefinite else Short
  }

  lemma LengthRecovered(s: bytes)
    requires ReadLength(s).Ok?
    ensures var l := ReadLength(s).value;
            && FormFits(FormRead(s), l.length)
            && s[..l.size] == LengthOctets(FormRead(s), l.length)
            && (FormRead(s).Indefinite? <==> l.indefinite)
            && l.length < MAX_READABLE
  {
    if s[0] > 0x80 {
      var n := s[0] - 0x80;
      var digits := s[1..1 + n];
      NoLeadingZeroCount(digits);
      BigEndianOfValue(digits);
      FourDigitsBound(digits);
      assert WithHighBit(n) == s[0];
      assert LengthOctets(Long, FromBigEndian(digits)) == [s[0]] + digits;
      assert s[..1 + n] == [s[0]] + digits;
    }
  }

  lemma FourDigitsBound(digits: bytes)
    requires 1 <= |digits| <= 4 && (|digits| == 4 ==> digits[0] <= 0x7F)
    ensures FromBigEndian(digits) < MAX_READABLE
  {
    FromBigEndianBound(digits);
    assert Pow256(1) == 256;
    assert Pow256(2) == 65536;
    assert Pow256(3) == 16777216;
    if |digits| < 4 {
      PowMonotone(|digits|, 3);
    } else {
      var three := digits[..3];
      var two := digits[..2];
      assert three[..2] == two && two[..1] == digits[..1];
      assert digits[..1] == [digits[0]] && FromBigEndian([digits[0]]) == digits[0] by {
        assert [digits[0]][..0] == [];
      }
      assert FromBigEndian(two) == 256 * FromBigEndian(two[..1]) + two[1];
      assert FromBigEndian(three) == 256 * FromBigEndian(two) + three[2];
    }
  }

  /** The printer's choice: short below 128, long from there on. */
  function MinimalForm(n: nat): Form {
    if n < 128 then Short else Long
  }

  lemma PrinterIsMinimal(n: nat)
    ensures EncodeLength(n) == LengthOctets(MinimalForm(n), n)
  {
  }

  /** Reading back what encodeLength wrote, for every length the reader admits and no other. */
  lemma LengthRoundTrip(n: nat, rest: bytes)
    requires OctetCount(n) <= 126
    ensures ReadLength(EncodeLength(n) + rest) == Ok(LengthRead(|EncodeLength(n)|, n, false))
            <==> n < MAX_READABLE
  {
    if n < MAX_READABLE {
      LengthScan(MinimalForm(n), n, rest);
    } else if ReadLength(EncodeLength(n) + rest) == Ok(LengthRead(|EncodeLength(n)|, n, false)) {
      LengthRecovered(EncodeLength(n) + rest);
    }
  }

  // ---------------------------------------------------------------- headers

  lemma HeaderScan(tag: bytes, form: Form, n: nat, rest: bytes)
    requires ValidTag(tag) && FormFits(form, n)
    requires form.Indefinite? ==> IsConstructed(tag[0])
    requires !form.Indefinite? ==> n <= |rest|
    ensures var lo := LengthOctets(form, n);
            && (tag + lo + rest)[..|tag|] == tag
            && (tag + lo + rest)[|tag| + |lo|..] == rest
            && ReadHeader(tag + lo + rest)
               == Ok(Header(|tag|, |tag| + |lo|, if form.Indefinite? then 0 else n, form.Indefinite?))
  {
    hide ReadTag, ReadLength, LengthOctets, ValidTag, FormFits, IsConstructed;
    var lo := LengthOctets(form, n);
    var s := tag + lo + rest;
    assert s == tag + (lo + rest);
    TagScan(tag, lo + rest);
    assert s[|tag|..] == lo + rest;
    LengthScan(form, n, rest);
    assert s[0] == tag[0];
  }

  /** The length form the header at the start of `s` was written with. */
  function HeaderForm(s: bytes): Form
    requires ReadHeader(s).Ok?
  {
    FormRead(s[ReadHeader(s).value.tagLen..])
  }

  lemma HeaderRecovered(s: bytes)
    requires ReadHeader(s).Ok?
    ensures var h := ReadHeader(s).value;
            var tag := s[..h.tagLen];
            && ValidTag(tag) && tag[0] == s[0]
            && FormFits(HeaderForm(s), h.length) && h.length < MAX_READABLE
            && (HeaderForm(s).Indefinite? <==> h.indefinite)
            && s[..h.start] == tag + LengthOctets(HeaderForm(s), h.length)
            && (h.indefinite ==> IsConstructed(s[0]))
  {
    hide ReadTag, ReadLength, LengthOctets, FormFits, ValidTag, IsConstructed, FormRead;
    var h := ReadHeader(s).value;
    TagRead(s);
    LengthRecovered(s[h.tagLen..]);
    assert s[..h.start] == s[..h.tagLen] + s[h.tagLen..][..h.start - h.tagLen];
  }

  // ---------------------------------------------------------------- completeness: written, then read

  lemma {:induction false} EncodeSize(b: Ber)
    requires Admissible(b)
    ensures |Encode(b)| >= 2
  {
  }

  /** Only the end-of-contents object is written with 00 00 in front. */
  lemma EndOfContentsOctets(b: Ber, rest: bytes)
    requires Admissible(b)
    ensures var s := Encode(b) + rest;
            |s| >= 2 && ((s[0] == 0 && s[1] == 0) <==> b == END_OF_CONTENTS)
  {
    var n := match b case Leaf(_, _, content) => |content| case Branch(_, _, parts) => |EncodeSeq(parts)|;
    var lo := LengthOctets(b.form, n);
    assert |lo| >= 1;
    assert Encode(b)[0] == b.tag[0];
    assert Encode(b)[|b.tag|] == lo[0];
    if b.tag[0] == 0 {
      assert b.tag == [0];
      assert Encode(b)[1] == lo[0];
      if b.form.Long? {
        SmallOctetCount(n);
      } else if b.form.Short? && lo[0] == 0 {
        assert b.Leaf? && b.content == [];
      }
    }
  }

  /** One unfolding of readObject, kind by kind. */
  lemma ParseStep(s: bytes, h: Header)
    requires ReadHeader(s) == Ok(h)
    ensures !IsConstructed(s[0]) ==>
              var end := h.start + h.length;
              Parse(s) == Ok(Parsed(Primitive(s[..h.tagLen], h.length, s[h.start..end]), end))
    ensures IsConstructed(s[0]) && h.indefinite && ParseUntilEnd(s[h.start..]).Ok? ==>
              var body := ParseUntilEnd(s[h.start..]).value;
              Parse(s) == Ok(Parsed(Structured(s[..h.tagLen], body.objs), h.start + body.size + 2))
    ensures IsConstructed(s[0]) && !h.indefinite && ParseWithin(s[h.start..], h.length).Ok? ==>
              var body := ParseWithin(s[h.start..], h.length).value;
              Parse(s) == Ok(Parsed(Structured(s[..h.tagLen], body.objs), h.start + h.length))
  {
    hide ReadHeader, ParseUntilEnd, ParseWithin;
  }

  lemma NestedStep(s: bytes, h: Header)
    requires ReadHeader(s) == Ok(h)
    ensures !IsConstructed(s[0]) ==> WellNested(s)
    ensures IsConstructed(s[0]) && h.indefinite ==> (WellNested(s) <==> WellNestedUntilEnd(s[h.start..]))
    ensures IsConstructed(s[0]) && !h.indefinite && ParseWithin(s[h.start..], h.length).Ok? ==>
              (WellNested(s) <==> WellNestedWithin(s[h.start..], h.length)
                                  && ParseWithin(s[h.start..], h.length).value.size == h.length)
  {
    hide ReadHeader, ParseUntilEnd, ParseWithin, WellNestedWithin, WellNestedUntilEnd;
  }

  lemma WithinStep(s: bytes, want: int, first: Parsed, rest: ParsedSeq)
    requires want > 0 && Parse(s) == Ok(first) && ParseWithin(s[first.size..], want - first.size) == Ok(rest)
    ensures ParseWithin(s, want) == Ok(ParsedSeq([first.obj] + rest.objs, first.size + rest.size))
    ensures WellNestedWithin(s, want) <==> WellNested(s) && WellNestedWithin(s[first.size..], want - first.size)
  {
    hide ReadHeader, Parse, WellNested;
  }

  lemma UntilEndLast(s: bytes, first: Parsed)
    requires Parse(s) == Ok(first) && |s| >= first.size + 2
    requires s[first.size] == 0 && s[first.size + 1] == 0
    ensures ParseUntilEnd(s) == Ok(ParsedSeq([first.obj], first.size))
    ensures WellNestedUntilEnd(s) <==> WellNested(s)
  {
    hide ReadHeader, Parse, WellNested;
  }

  lemma UntilEndMore(s: bytes, first: Parsed, rest: ParsedSeq)
    requires Parse(s) == Ok(first) && |s| >= first.size + 2
    requires !(s[first.size] == 0 && s[first.size + 1] == 0)
    requires ParseUntilEnd(s[first.size..]) == Ok(rest)
    ensures ParseUntilEnd(s) == Ok(ParsedSeq([first.obj] + rest.objs, first.size + rest.size))
    ensures WellNestedUntilEnd(s) <==> WellNested(s) && WellNestedUntilEnd(s[first.size..])
  {
    hide ReadHeader, Parse, WellNested;
  }

  /** Every admissible encoding, whatever follows it, is read as its tree and no octet more. */
  lemma {:induction false} ParseEncoded(b: Ber, rest: bytes)
    requires Admissible(b)
    ensures Parse(Encode(b) + rest) == Ok(Parsed(Erase(b), |Encode(b)|))
    ensures WellNested(Encode(b) + rest)
    decreases b, 0
  {
    match b
    case Leaf(tag, form, content) => ParseEncodedLeaf(tag, form, content, rest);
    case Branch(tag, form, parts) =>
      if form.Indefinite? {
        ParseUntilEndEncoded(parts, rest);
        ParseEncodedIndefinite(tag, parts, rest);
      } else {
        ParseWithinEncoded(parts, rest);
        ParseEncodedDefinite(tag, form, parts, rest);
      }
  }

  lemma ParseEncodedLeaf(tag: bytes, form: Form, content: bytes, rest: bytes)
    requires Admissible(Leaf(tag, form, content))
    ensures var b := Leaf(tag, form, content);
            Parse(Encode(b) + rest) == Ok(Parsed(Erase(b), |Encode(b)|)) && WellNested(Encode(b) + rest)
  {
    hide ReadHeader, Parse, ParseUntilEnd, ParseWithin, WellNested, WellNestedWithin, WellNestedUntilEnd;
    var lo := LengthOctets(form, |content|);
    var s := tag + lo + (content + rest);
    HeaderScan(tag, form, |content|, content + rest);
    assert Encode(Leaf(tag, form, content)) + rest == s;
    assert s[0] == tag[0];
    var h := ReadHeader(s).value;
    ParseStep(s, h);
    NestedStep(s, h);
    assert s[h.start..h.start + h.length] == content;
  }

  lemma ParseEncodedDefinite(tag: bytes, form: Form, parts: seq<Ber>, rest: bytes)
    requires ValidTag(tag) && IsConstructed(tag[0]) && !form.Indefinite?
    requires FormFits(form, |EncodeSeq(parts)|)
    requires var inner := EncodeSeq(parts);
             && ParseWithin(inner + rest, |inner|) == Ok(ParsedSeq(EraseSeq(parts), |inner|))
             && WellNestedWithin(inner + rest, |inner|)
    ensures var b := Branch(tag, form, parts);
            Parse(Encode(b) + rest) == Ok(Parsed(Erase(b), |Encode(b)|)) && WellNested(Encode(b) + rest)
  {
    hide ReadHeader, Parse, ParseUntilEnd, ParseWithin, WellNested, WellNestedWithin, WellNestedUntilEnd, ValidTag,
      FormFits, LengthOctets;
    var inner := EncodeSeq(parts);
    var s := tag + LengthOctets(form, |inner|) + (inner + rest);
    HeaderScan(tag, form, |inner|, inner + rest);
    EncodedDefinite(tag, form, parts, rest);
    assert s[0] == tag[0];
    ParseStep(s, ReadHeader(s).value);
    NestedStep(s, ReadHeader(s).value);
  }

  lemma EncodedDefinite(tag: bytes, form: Form, parts: seq<Ber>, rest: bytes)
    requires !form.Indefinite?
    ensures var b := Branch(tag, form, parts);
            var inner := EncodeSeq(parts);
            && |Encode(b)| == |tag| + |LengthOctets(form, |inner|)| + |inner|
            && Encode(b) + rest == tag + LengthOctets(form, |inner|) + (inner + rest)
  {
    hide LengthOctets;
    var inner := EncodeSeq(parts);
    assert Encode(Branch(tag, form, parts)) == tag + LengthOctets(form, |inner|) + inner;
  }

  lemma ParseEncodedIndefinite(tag: bytes, parts: seq<Ber>, rest: bytes)
    requires ValidTag(tag) && IsConstructed(tag[0])
    requires var inner := EncodeSeq(parts);
             && ParseUntilEnd(inner + ([0, 0] + rest)) == Ok(ParsedSeq(EraseSeq(parts), |inner|))
             && WellNestedUntilEnd(inner + ([0, 0] + rest))
    ensures var b := Branch(tag, Indefinite, parts);
            Parse(Encode(b) + rest) == Ok(Parsed(Erase(b), |Encode(b)|)) && WellNested(Encode(b) + rest)
  {
    hide ReadHeader, Parse, ParseUntilEnd, ParseWithin, WellNested, WellNestedWithin, WellNestedUntilEnd, ValidTag;
    var inner := EncodeSeq(parts);
    var tail := inner + ([0, 0] + rest);
    var s := tag + [0x80] + tail;
    HeaderScan(tag, Indefinite, 0, tail);
    EncodedIndefinite(tag, parts, rest);
    assert s[0] == tag[0];
    ParseStep(s, ReadHeader(s).value);
    NestedStep(s, ReadHeader(s).value);
  }

  lemma EncodedIndefinite(tag: bytes, parts: seq<Ber>, rest: bytes)
    ensures var b := Branch(tag, Indefinite, parts);
            && |Encode(b)| == |tag| + 1 + |EncodeSeq(parts)| + 2
            && Encode(b) + rest == tag + [0x80] + (EncodeSeq(parts) + ([0, 0] + rest))
  {
    hide EncodeSeq;
    assert Encode(Branch(tag, Indefinite, parts)) == tag + [0x80] + EncodeSeq(parts) + [0, 0];
  }

  lemma WithinNone(s: bytes, want: int)
    requires want <= 0
    ensures ParseWithin(s, want) == Ok(ParsedSeq([], 0)) && WellNestedWithin(s, want)
  {
  }

  lemma EncodeSplit(bs: seq<Ber>, rest: bytes)
    requires bs != []
    ensures var first := Encode(bs[0]);
            var tail := EncodeSeq(bs[1..]);
            && |EncodeSeq(bs)| == |first| + |tail|
            && EncodeSeq(bs) + rest == first + (tail + rest)
            && (EncodeSeq(bs) + rest)[|first|..] == tail + rest
            && EraseSeq(bs) == [Erase(bs[0])] + EraseSeq(bs[1..])
  {
    hide Encode, Erase;
    assert EncodeSeq(bs) + rest == Encode(bs[0]) + (EncodeSeq(bs[1..]) + rest);
  }

  lemma {:induction false} ParseWithinEncoded(bs: seq<Ber>, rest: bytes)
    requires AdmissibleSeq(bs)
    ensures ParseWithin(EncodeSeq(bs) + rest, |EncodeSeq(bs)|) == Ok(ParsedSeq(EraseSeq(bs), |EncodeSeq(bs)|))
    ensures WellNestedWithin(EncodeSeq(bs) + rest, |EncodeSeq(bs)|)
    decreases bs, 1
  {
    hide Parse, ParseUntilEnd, ParseWithin, WellNested, WellNestedWithin, WellNestedUntilEnd, Encode, Erase, Admissible;
    if bs == [] {
      WithinNone(EncodeSeq(bs) + rest, 0);
    } else {
      var first := Encode(bs[0]);
      var tail := EncodeSeq(bs[1..]);
      EncodeSize(bs[0]);
      EncodeSplit(bs, rest);
      ParseEncoded(bs[0], tail + rest);
      ParseWithinEncoded(bs[1..], rest);
      WithinStep(EncodeSeq(bs) + rest, |EncodeSeq(bs)|, Parsed(Erase(bs[0]), |first|),
                 ParsedSeq(EraseSeq(bs[1..]), |tail|));
    }
  }

  lemma {:induction false} ParseUntilEndEncoded(bs: seq<Ber>, rest: bytes)
    requires AdmissibleSeq(bs) && bs != [] && END_OF_CONTENTS !in bs[1..]
    ensures ParseUntilEnd(EncodeSeq(bs) + ([0, 0] + rest)) == Ok(ParsedSeq(EraseSeq(bs), |EncodeSeq(bs)|))
    ensures WellNestedUntilEnd(EncodeSeq(bs) + ([0, 0] + rest))
    decreases bs, 1
  {
    hide Parse, ParseUntilEnd, ParseWithin, WellNested, WellNestedWithin, WellNestedUntilEnd, Encode, Erase, Admissible;
    var stop := [0, 0] + rest;
    var first := Encode(bs[0]);
    var tail := EncodeSeq(bs[1..]) + stop;
    var s := EncodeSeq(bs) + stop;
    var p := Parsed(Erase(bs[0]), |first|);
    EncodeSplit(bs, stop);
    ParseEncoded(bs[0], tail);
    assert s[|first|] == tail[0] && s[|first| + 1] == tail[1];
    if |bs| == 1 {
      assert tail == stop;
      UntilEndLast(s, p);
      assert bs[1..] == [] && [Erase(bs[0])] + [] == [Erase(bs[0])];
    } else {
      NotTerminator(bs[1..], rest);
      assert END_OF_CONTENTS !in bs[1..][1..];
      ParseUntilEndEncoded(bs[1..], rest);
      UntilEndMore(s, p, ParsedSeq(EraseSeq(bs[1..]), |EncodeSeq(bs[1..])|));
    }
  }

  lemma NotTerminator(bs: seq<Ber>, rest: bytes)
    requires bs != [] && Admissible(bs[0]) && bs[0] != END_OF_CONTENTS
    ensures var s := EncodeSeq(bs) + ([0, 0] + rest);
            |s| >= 2 && !(s[0] == 0 && s[1] == 0)
  {
    EndOfContentsOctets(bs[0], EncodeSeq(bs[1..]) + ([0, 0] + rest));
    EncodeSplit(bs, [0, 0] + rest);
  }

  // ---------------------------------------------------------------- soundness: read, therefore written so

  /** What a successful readObject went through. */
  lemma ParseInverse(s: bytes)
    requires Parse(s).Ok?
    ensures ReadHeader(s).Ok?
    ensures var h := ReadHeader(s).value;
            if !IsConstructed(s[0]) then
              var end := h.start + h.length;
              Parse(s).value == Parsed(Primitive(s[..h.tagLen], h.length, s[h.start..end]), end)
            else if h.indefinite then
              var body := ParseUntilEnd(s[h.start..]);
              body.Ok?
              && Parse(s).value == Parsed(Structured(s[..h.tagLen], body.value.objs), h.start + body.value.size + 2)
            else
              var body := ParseWithin(s[h.start..], h.length);
              body.Ok? && Parse(s).value == Parsed(Structured(s[..h.tagLen], body.value.objs), h.start + h.length)
  {
    hide ReadHeader, ParseUntilEnd, ParseWithin, IsConstructed;
  }

  lemma WithinInverse(s: bytes, want: int)
    requires want > 0 && ParseWithin(s, want).Ok?
    ensures Parse(s).Ok?
    ensures var first := Parse(s).value;
            var rest := ParseWithin(s[first.size..], want - first.size);
            && rest.Ok?
            && ParseWithin(s, want).value == ParsedSeq([first.obj] + rest.value.objs, first.size + rest.value.size)
  {
    hide Parse;
  }

  lemma UntilEndInverse(s: bytes)
    requires ParseUntilEnd(s).Ok?
    ensures Parse(s).Ok?
    ensures var first := Parse(s).value;
            var after := s[first.size..];
            && |after| >= 2
            && if after[0] == 0 && after[1] == 0 then
                 ParseUntilEnd(s).value == ParsedSeq([first.obj], first.size)
               else
                 && ParseUntilEnd(after).Ok?
                 && ParseUntilEnd(s).value == ParsedSeq([first.obj] + ParseUntilEnd(after).value.objs,
                                                        first.size + ParseUntilEnd(after).value.size)
  {
    hide Parse;
  }

  /**
   * Every successful, well-nested read took exactly one of the admissible encodings of the tree
   * it returns.
   */
  lemma {:induction false} ParseSound(s: bytes) returns (b: Ber)
    requires Parse(s).Ok? && WellNested(s)
    ensures Admissible(b) && Erase(b) == Parse(s).value.obj && Encode(b) == s[..Parse(s).value.size]
    decreases |s|, 0
  {
    hide ReadHeader, Parse, ParseUntilEnd, ParseWithin, WellNested, WellNestedWithin, WellNestedUntilEnd, ValidTag,
      FormFits, LengthOctets, IsConstructed, HeaderForm;
    ParseInverse(s);
    HeaderRecovered(s);
    var h := ReadHeader(s).value;
    var tag := s[..h.tagLen];
    var form := HeaderForm(s);
    var inner := s[h.start..];
    NestedStep(s, h);
    if !IsConstructed(s[0]) {
      var content := s[h.start..h.start + h.length];
      b := Leaf(tag, form, content);
      assert s[..h.start + h.length] == s[..h.start] + content;
    } else if h.indefinite {
      var parts := UntilEndSound(inner);
      IndefiniteForm(h.length);
      IndefiniteForm(|EncodeSeq(parts)|);
      b := Branch(tag, form, parts);
      IndefiniteRebuilt(s, h.start, tag, parts);
    } else {
      var parts := WithinSound(inner, h.length);
      b := Branch(tag, form, parts);
      assert s[..h.start + h.length] == s[..h.start] + inner[..h.length];
    }
  }

  lemma IndefiniteForm(n: nat)
    ensures FormFits(Indefinite, n) && LengthOctets(Indefinite, n) == [0x80]
  {
  }

  lemma IndefiniteRebuilt(s: bytes, start: nat, tag: bytes, parts: seq<Ber>)
    requires start + |EncodeSeq(parts)| + 2 <= |s|
    requires s[..start] == tag + [0x80]
    requires var n := |EncodeSeq(parts)|;
             s[start..][..n] == EncodeSeq(parts) && s[start + n] == 0 && s[start + n + 1] == 0
    ensures Encode(Branch(tag, Indefinite, parts)) == s[..start + |EncodeSeq(parts)| + 2]
  {
    hide EncodeSeq;
    var n := |EncodeSeq(parts)|;
    assert s[..start + n + 2] == s[..start] + s[start..][..n] + [s[start + n], s[start + n + 1]];
  }

  lemma {:induction false} WithinSound(s: bytes, want: int) returns (bs: seq<Ber>)
    requires ParseWithin(s, want).Ok? && WellNestedWithin(s, want)
    ensures AdmissibleSeq(bs) && EraseSeq(bs) == ParseWithin(s, want).value.objs
    ensures EncodeSeq(bs) == s[..ParseWithin(s, want).value.size]
    decreases |s|, 1
  {
    hide Parse, ParseUntilEnd, ParseWithin, WellNested, WellNestedWithin, Encode, Erase, Admissible;
    if want <= 0 {
      WithinNone(s, want);
      bs := [];
    } else {
      WithinInverse(s, want);
      var first := Parse(s).value;
      var after := s[first.size..];
      var rest := ParseWithin(after, want - first.size).value;
      WithinStep(s, want, first, rest);
      var b := ParseSound(s);
      var more := WithinSound(after, want - first.size);
      bs := [b] + more;
      assert s[..first.size + rest.size] == s[..first.size] + after[..rest.size];
    }
  }

  lemma {:induction false} UntilEndSound(s: bytes) returns (bs: seq<Ber>)
    requires ParseUntilEnd(s).Ok? && WellNestedUntilEnd(s)
    ensures AdmissibleSeq(bs) && bs != [] && END_OF_CONTENTS !in bs[1..]
    ensures EraseSeq(bs) == ParseUntilEnd(s).value.objs
    ensures var n := ParseUntilEnd(s).value.size;
            EncodeSeq(bs) == s[..n] && s[n] == 0 && s[n + 1] == 0
    ensures s[0] == 0 && s[1] == 0 <==> bs[0] == END_OF_CONTENTS
    decreases |s|, 1
  {
    hide Parse, ParseUntilEnd, ParseWithin, WellNested, WellNestedUntilEnd, Encode, Erase, Admissible;
    UntilEndInverse(s);
    var first := Parse(s).value;
    var after := s[first.size..];
    var b: Ber;
    if after[0] == 0 && after[1] == 0 {
      UntilEndLast(s, first);
      b := ParseSound(s);
      bs := [b];
      assert EraseSeq([b][1..]) == [];
      assert EncodeSeq([b][1..]) == [];
    } else {
      var rest := ParseUntilEnd(after).value;
      UntilEndMore(s, first, rest);
      b := ParseSound(s);
      var more := UntilEndSound(after);
      bs := [b] + more;
      assert more == [more[0]] + more[1..];
      assert s[..first.size + rest.size] == s[..first.size] + after[..rest.size];
    }
    EndOfContentsOctets(b, after);
    assert Encode(b) + after == s;
  }

  /**
   * The language of readObject on well-nested input: it returns `o` after `n` octets exactly when
   * those octets are an admissible encoding of `o`.
   */
  lemma ParseLanguage(s: bytes, o: Obj, n: nat)
    requires n <= |s|
    ensures WellNested(s) && Parse(s) == Ok(Parsed(o, n))
            <==> exists b :: Admissible(b) && Erase(b) == o && Encode(b) == s[..n]
  {
    hide Parse, WellNested, Admissible, Erase, Encode;
    if WellNested(s) && Parse(s) == Ok(Parsed(o, n)) {
      var b := ParseSound(s);
    }
    if b :| Admissible(b) && Erase(b) == o && Encode(b) == s[..n] {
      ParseEncoded(b, s[n..]);
      assert s[..n] + s[n..] == s;
    }
  }

  // ---------------------------------------------------------------- what any successful read returns

  /** Also when badly nested, the tree has proper identifiers, kinds and recorded lengths. */
  lemma {:induction false} ParseValid(s: bytes)
    requires Parse(s).Ok?
    ensures ValidObj(Parse(s).value.obj)
    decreases |s|, 0
  {
    hide ReadHeader, Parse, ParseUntilEnd, ParseWithin, ValidTag, IsConstructed;
    ParseInverse(s);
    HeaderRecovered(s);
    var h := ReadHeader(s).value;
    if !IsConstructed(s[0]) {
    } else {
      if h.indefinite {
        UntilEndValid(s[h.start..]);
      } else {
        WithinValid(s[h.start..], h.length);
      }
    }
  }

  lemma {:induction false} WithinValid(s: bytes, want: int)
    requires ParseWithin(s, want).Ok?
    ensures ValidObjs(ParseWithin(s, want).value.objs)
    decreases |s|, 1
  {
    hide Parse, ParseWithin, ParseUntilEnd, ValidObj;
    if want <= 0 {
      WithinNone(s, want);
    } else {
      WithinInverse(s, want);
      ParseValid(s);
      WithinValid(s[Parse(s).value.size..], want - Parse(s).value.size);
    }
  }

  lemma {:induction false} UntilEndValid(s: bytes)
    requires ParseUntilEnd(s).Ok?
    ensures ValidObjs(ParseUntilEnd(s).value.objs)
    decreases |s|, 1
  {
    hide Parse, ParseUntilEnd, ParseWithin, ValidObj;
    UntilEndInverse(s);
    ParseValid(s);
    var after := s[Parse(s).value.size..];
    if after[0] == 0 && after[1] == 0 {
    } else {
      UntilEndValid(after);
    }
  }
}
