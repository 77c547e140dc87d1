/**
 * BER2DER as a normalisation: one output per tree, distinct outputs for distinct trees, a fixed
 * point on its own output, and no dependence on the octets after the object.
 */
module NormalForm {
  import opened Bytes
  import opened Lengths
  import opened Ber
  import opened BerProofs

  /** Lengths are Go ints; on a 64-bit platform they stay below this. */
  const GO_INT_LIMIT := 0x8000_0000_0000_0000

  // ---------------------------------------------------------------- prefix-freeness

  lemma IntOctetCount(n: nat)
    requires n < GO_INT_LIMIT
    ensures OctetCount(n) <= 8 && WithHighBit(OctetCount(n)) == 128 + OctetCount(n)
  {
    OctetCountLeast(n, 8);
    assert Pow256(8) == 0x1_0000_0000_0000_0000 by {
      assert Pow256(1) == 256;
      assert Pow256(2) == 65536;
      assert Pow256(4) == 65536 * 65536;
      assert Pow256(6) == 65536 * Pow256(4);
      assert Pow256(8) == 65536 * Pow256(6);
    }
  }

  /** No length encoding is a proper prefix of another. */
  lemma LengthPrefixFree(m: nat, n: nat, x: bytes, y: bytes)
    requires m < GO_INT_LIMIT && n < GO_INT_LIMIT
    requires EncodeLength(m) + x == EncodeLength(n) + y
    ensures m == n && x == y
  {
    IntOctetCount(m);
    IntOctetCount(n);
    var s := EncodeLength(m) + x;
    assert s[0] == EncodeLength(m)[0] == EncodeLength(n)[0];
    if m >= 128 {
      var k := OctetCount(m);
      assert k == OctetCount(n);
      assert s[1..1 + k] == BigEndian(m, k);
      assert s[1..1 + k] == BigEndian(n, k);
      OctetCountLeast(m, k);
      OctetCountLeast(n, k);
      BigEndianValue(m, k);
      BigEndianValue(n, k);
    }
    assert s[|EncodeLength(m)|..] == x && s[|EncodeLength(m)|..] == y;
  }

  lemma TagPrefixFree(t: bytes, u: bytes, x: bytes, y: bytes)
    requires ValidTag(t) && ValidTag(u) && t + x == u + y
    ensures t == u && x == y
  {
    TagScan(t, x);
    TagScan(u, y);
    assert (t + x)[..|t|] == t && (u + y)[..|u|] == u;
    assert (t + x)[|t|..] == x && (u + y)[|u|..] == y;
  }

  function Tlv(tag: bytes, content: bytes): bytes {
    tag + EncodeLength(|content|) + content
  }

  lemma TlvPrefixFree(t: bytes, c: bytes, x: bytes, u: bytes, d: bytes, y: bytes)
    requires ValidTag(t) && ValidTag(u) && |c| < GO_INT_LIMIT && |d| < GO_INT_LIMIT
    requires Tlv(t, c) + x == Tlv(u, d) + y
    ensures t == u && c == d && x == y
  {
    hide ValidTag, EncodeLength;
    assert Tlv(t, c) + x == t + (EncodeLength(|c|) + (c + x));
    assert Tlv(u, d) + y == u + (EncodeLength(|d|) + (d + y));
    TagPrefixFree(t, u, EncodeLength(|c|) + (c + x), EncodeLength(|d|) + (d + y));
    LengthPrefixFree(|c|, |d|, c + x, d + y);
    assert (c + x)[..|c|] == c && (d + y)[..|d|] == d;
    assert (c + x)[|c|..] == x && (d + y)[|d|..] == y;
  }

  lemma DerIsTlv(o: Obj)
    requires ValidObj(o)
    ensures Der(o) == Tlv(o.tag, Body(o)) && |Der(o)| >= |Body(o)| + 2
  {
  }

  /** The printer is injective: a normal form denotes one tree. */
  lemma {:induction false} DerInjective(a: Obj, b: Obj, x: bytes, y: bytes)
    requires ValidObj(a) && ValidObj(b) && |Der(a)| < GO_INT_LIMIT && |Der(b)| < GO_INT_LIMIT
    requires Der(a) + x == Der(b) + y
    ensures a == b && x == y
    decreases a, 0
  {
    hide Tlv, ValidTag;
    DerIsTlv(a);
    DerIsTlv(b);
    TlvPrefixFree(a.tag, Body(a), x, b.tag, Body(b), y);
    if a.Primitive? {
    } else {
      DerSeqInjective(a.children, b.children);
    }
  }

  lemma {:induction false} DerSeqInjective(a: seq<Obj>, b: seq<Obj>)
    requires ValidObjs(a) && ValidObjs(b) && DerSeq(a) == DerSeq(b) && |DerSeq(a)| < GO_INT_LIMIT
    ensures a == b
    decreases a, 1
  {
    hide Der, ValidObj;
    if a == [] || b == [] {
      if a != [] {
        DerIsTlv(a[0]);
      }
      if b != [] {
        DerIsTlv(b[0]);
      }
    } else {
      DerInjective(a[0], b[0], DerSeq(a[1..]), DerSeq(b[1..]));
      DerSeqInjective(a[1..], b[1..]);
      assert a == [a[0]] + a[1..] && b == [b[0]] + b[1..];
    }
  }

  // ---------------------------------------------------------------- the printer's output is admissible

  /** The tree written the way encodeTo writes it. */
  function Minimal(o: Obj): Ber
    decreases o, 0
  {
    match o
    case Primitive(tag, _, content) => Leaf(tag, MinimalForm(|content|), content)
    case Structured(tag, children) => Branch(tag, MinimalForm(|DerSeq(children)|), MinimalSeq(children))
  }

  function MinimalSeq(os: seq<Obj>): seq<Ber>
    decreases os, 1
  {
    if os == [] then [] else [Minimal(os[0])] + MinimalSeq(os[1..])
  }

  lemma {:induction false} MinimalFaithful(o: Obj)
    requires ValidObj(o) && |Body(o)| < MAX_READABLE
    ensures Admissible(Minimal(o)) && Encode(Minimal(o)) == Der(o) && Erase(Minimal(o)) == o
    decreases o, 0
  {
    hide ValidTag, LengthOctets, EncodeLength, IsConstructed;
    PrinterIsMinimal(|Body(o)|);
    if o.Primitive? {
    } else {
      MinimalSeqFaithful(o.children);
    }
  }

  lemma {:induction false} MinimalSeqFaithful(os: seq<Obj>)
    requires ValidObjs(os) && |DerSeq(os)| < MAX_READABLE
    ensures AdmissibleSeq(MinimalSeq(os)) && EncodeSeq(MinimalSeq(os)) == DerSeq(os) && EraseSeq(MinimalSeq(os)) == os
    decreases os, 1
  {
    hide Der, ValidObj, Encode, Erase, Admissible, Minimal;
    if os == [] {
    } else {
      DerIsTlv(os[0]);
      MinimalFaithful(os[0]);
      MinimalSeqFaithful(os[1..]);
      assert os == [os[0]] + os[1..];
      var ms := MinimalSeq(os);
      assert ms[0] == Minimal(os[0]) && ms[1..] == MinimalSeq(os[1..]);
    }
  }

  /** A printed tree reads back as itself and takes exactly the printed octets. */
  lemma ReadsBack(o: Obj, rest: bytes)
    requires ValidObj(o) && |Body(o)| < MAX_READABLE
    ensures Parse(Der(o) + rest) == Ok(Parsed(o, |Der(o)|))
  {
    hide Parse, ValidObj, Encode, Erase, Admissible, Minimal, WellNested, Der;
    MinimalFaithful(o);
    ParseEncoded(Minimal(o), rest);
  }

  /** Lengths of 2^31 and more are printed but not read. */
  lemma LongLengthUnread(n: nat, rest: bytes)
    requires MAX_READABLE <= n < GO_INT_LIMIT
    ensures ReadLength(EncodeLength(n) + rest).Err?
  {
    IntOctetCount(n);
    var s := EncodeLength(n) + rest;
    assert s[0] == 128 + OctetCount(n);
    OctetCountLeast(n, 3);
    assert Pow256(3) == 16777216 by {
      assert Pow256(1) == 256;
      assert Pow256(2) == 65536;
    }
    if OctetCount(n) == 4 {
      DigitAt(n, 4, 0);
      OctetCountLeast(n, 4);
      assert s[1] == BigEndian(n, 4)[0];
    }
  }

  // ---------------------------------------------------------------- BER2DER

  /** One normal form per tree, whatever length form each node was written in. */
  lemma NormalFormOfEncoding(b: Ber, rest: bytes)
    requires Admissible(b)
    ensures Ber2Der(Encode(b) + rest) == Ok(Der(Erase(b)))
  {
    hide Parse, Encode, Erase, Admissible, WellNested, Der;
    EncodeSize(b);
    ParseEncoded(b, rest);
  }

  /** Two admissible encodings have the same output exactly when they denote the same tree. */
  lemma SameOutputSameTree(a: Ber, b: Ber)
    requires Admissible(a) && Admissible(b)
    requires |Der(Erase(a))| < GO_INT_LIMIT && |Der(Erase(b))| < GO_INT_LIMIT
    ensures Ber2Der(Encode(a)) == Ber2Der(Encode(b)) <==> Erase(a) == Erase(b)
  {
    hide Parse, Encode, Erase, Admissible, WellNested, Der, Ber2Der, ValidObj;
    NormalFormOfEncoding(a, []);
    NormalFormOfEncoding(b, []);
    assert Encode(a) + [] == Encode(a) && Encode(b) + [] == Encode(b);
    if Der(Erase(a)) == Der(Erase(b)) {
      ErasedValid(a);
      ErasedValid(b);
      DerInjective(Erase(a), Erase(b), [], []);
    }
  }

  lemma ErasedValid(b: Ber)
    requires Admissible(b)
    ensures ValidObj(Erase(b))
  {
    hide Parse, Encode, Erase, Admissible, WellNested, ValidObj;
    ParseEncoded(b, []);
    ParseValid(Encode(b) + []);
  }

  /**
   * Whatever was accepted, nested well or badly, its output is a fixed point that is read to its
   * last octet, exactly when the outermost content is shorter than 2^31 octets. Otherwise the
   * output is not accepted at all.
   */
  lemma Idempotent(x: bytes)
    requires Ber2Der(x).Ok? && |Ber2Der(x).value| < GO_INT_LIMIT
    ensures var o := Parse(x).value.obj;
            var d := Ber2Der(x).value;
            && (Ber2Der(d) == Ok(d) <==> |Body(o)| < MAX_READABLE)
            && (Parse(d) == Ok(Parsed(o, |d|)) <==> |Body(o)| < MAX_READABLE)
            && (Ber2Der(d).Ok? <==> |Body(o)| < MAX_READABLE)
  {
    hide Parse, Der, ValidObj, Body;
    var o := Parse(x).value.obj;
    var d := Der(o);
    ParseValid(x);
    DerIsTlv(o);
    if |Body(o)| < MAX_READABLE {
      ReadsBack(o, []);
      assert d + [] == d;
    } else {
      LongBodyUnread(o);
    }
  }

  lemma LongBodyUnread(o: Obj)
    requires ValidObj(o) && MAX_READABLE <= |Body(o)| && |Der(o)| < GO_INT_LIMIT
    ensures Parse(Der(o)).Err?
  {
    hide EncodeLength;
    DerIsTlv(o);
    var n := |Body(o)|;
    assert Der(o) == o.tag + (EncodeLength(n) + Body(o));
    TagScan(o.tag, EncodeLength(n) + Body(o));
    LongLengthUnread(n, Body(o));
    HeaderErr(Der(o), o.tag, EncodeLength(n) + Body(o));
  }

  lemma HeaderErr(s: bytes, tag: bytes, rest: bytes)
    requires s == tag + rest && ReadTag(s) == Ok(|tag|) && ReadLength(rest).Err?
    ensures Parse(s).Err?
  {
    hide ReadTag, ReadLength, ParseWithin, ParseUntilEnd;
    assert s[|tag|..] == rest;
  }

  const HALF_LIMIT := 0x4000_0000

  /** An OCTET STRING of 2^30 zero octets. */
  function LongLeaf(): Ber {
    Leaf([0x04], Long, seq(HALF_LIMIT, i => 0))
  }

  /** Two of them in a SEQUENCE, which only the indefinite form can hold. */
  function LongInput(): Ber {
    Branch([0x30], Indefinite, [LongLeaf(), LongLeaf()])
  }

  lemma LongLeafShape()
    ensures Admissible(LongLeaf()) && LongLeaf() != END_OF_CONTENTS && ValidObj(Erase(LongLeaf()))
    ensures HALF_LIMIT <= |Der(Erase(LongLeaf()))| <= HALF_LIMIT + 10
  {
    var o := Erase(LongLeaf());
    assert |o.content| == HALF_LIMIT;
    DerIsTlv(o);
    IntOctetCount(HALF_LIMIT);
  }

  /** An input that is accepted with 2^31 octets of content and more: its output is rejected. */
  lemma LongOutputRejected()
    ensures Admissible(LongInput())
    ensures Ber2Der(Encode(LongInput())).Ok?
    ensures Ber2Der(Ber2Der(Encode(LongInput())).value).Err?
  {
    hide LongLeaf, Der, Encode, Parse, Erase, Admissible, ValidObj, Body, Ber2Der, WellNested;
    LongLeafShape();
    LongInputShape(LongLeaf());
    var b := LongInput();
    NormalFormOfEncoding(b, []);
    assert Encode(b) + [] == Encode(b);
    ParseEncoded(b, []);
    Ber2DerParses(Encode(b));
    Idempotent(Encode(b));
  }

  lemma LongInputShape(leaf: Ber)
    requires Admissible(leaf) && leaf != END_OF_CONTENTS && HALF_LIMIT <= |Der(Erase(leaf))| <= HALF_LIMIT + 10
    ensures var b := Branch([0x30], Indefinite, [leaf, leaf]);
            && Admissible(b) && MAX_READABLE <= |Body(Erase(b))| && |Der(Erase(b))| < GO_INT_LIMIT
  {
    hide Encode, Der, Admissible, ValidObj;
    var b := Branch([0x30], Indefinite, [leaf, leaf]);
    TwoLeaves(leaf);
    IntOctetCount(|Body(Erase(b))|);
    TwoLeavesPrinted(leaf);
  }

  lemma TwoLeaves(leaf: Ber)
    requires Admissible(leaf) && leaf != END_OF_CONTENTS
    ensures Admissible(Branch([0x30], Indefinite, [leaf, leaf]))
    ensures Erase(Branch([0x30], Indefinite, [leaf, leaf])) == Structured([0x30], [Erase(leaf), Erase(leaf)])
    ensures |DerSeq([Erase(leaf), Erase(leaf)])| == 2 * |Der(Erase(leaf))|
  {
    hide Encode, Der;
    assert [leaf, leaf][1..] == [leaf] && [leaf][1..] == [];
    assert AdmissibleSeq([leaf]);
    assert EraseSeq([leaf]) == [Erase(leaf)];
    var o := Erase(leaf);
    assert [o, o][1..] == [o] && [o][1..] == [];
    assert DerSeq([o]) == Der(o) + [];
  }

  lemma TwoLeavesPrinted(leaf: Ber)
    requires Admissible(leaf) && leaf != END_OF_CONTENTS && |Der(Erase(leaf))| <= HALF_LIMIT + 10
    ensures |Der(Erase(Branch([0x30], Indefinite, [leaf, leaf])))| < GO_INT_LIMIT
  {
    hide Encode, DerSeq, Erase, Admissible;
    TwoLeaves(leaf);
    IntOctetCount(|DerSeq([Erase(leaf), Erase(leaf)])|);
  }

  lemma Ber2DerParses(x: bytes)
    ensures Ber2Der(x).Ok? ==> Parse(x).Ok? && Ber2Der(x) == Ok(Der(Parse(x).value.obj))
  {
    hide Parse, Der;
  }

  // ---------------------------------------------------------------- trailing octets

  /** Outcomes that more input cannot change: success and the errors found in a header. */
  predicate Settled<T>(r: Outcome<T>) {
    r.Ok? || r.error in {LengthTooLong, LengthNegative, LengthLeadingZero, IndefinitePrimitive}
  }

  lemma {:induction false} HighTagExtends(s: bytes, t: bytes, i: nat)
    requires i <= |s| && ReadHighTag(s, i).Ok?
    ensures ReadHighTag(s + t, i) == ReadHighTag(s, i)
    decreases |s| - i
  {
    assert (s + t)[i] == s[i];
    if s[i] < 0x80 {
    } else {
      HighTagExtends(s, t, i + 1);
    }
  }

  lemma {:induction false} HighTagError(s: bytes, i: nat)
    requires i <= |s| && ReadHighTag(s, i).Err?
    ensures ReadHighTag(s, i).error == IndexOutOfRange
    decreases |s| - i
  {
    if i >= |s| || s[i] < 0x80 {
    } else {
      HighTagError(s, i + 1);
    }
  }

  lemma TagExtends(s: bytes, t: bytes)
    ensures if ReadTag(s).Ok? then ReadTag(s + t) == ReadTag(s) else !Settled(ReadTag(s))
  {
    if s != [] {
      assert (s + t)[0] == s[0];
      if s[0] % 32 == 31 {
        if ReadHighTag(s, 1).Ok? {
          HighTagExtends(s, t, 1);
        } else {
          HighTagError(s, 1);
        }
      }
    }
  }

  lemma LengthExtends(s: bytes, t: bytes)
    requires Settled(ReadLength(s))
    ensures ReadLength(s + t) == ReadLength(s)
  {
    assert (s + t)[0] == s[0];
    if s[0] > 0x80 && s[0] - 0x80 <= 4 {
      var n := s[0] - 0x80;
      assert (s + t)[1] == s[1];
      if 1 + n <= |s| {
        assert (s + t)[1..1 + n] == s[1..1 + n];
      }
    }
  }

  lemma HeaderExtends(s: bytes, t: bytes)
    requires Settled(ReadHeader(s))
    ensures ReadHeader(s + t) == ReadHeader(s)
    ensures ReadHeader(s).Ok? ==> (s + t)[ReadHeader(s).value.start..] == s[ReadHeader(s).value.start..] + t
  {
    hide ReadTag, ReadLength, IsConstructed;
    TagExtends(s, t);
    var n := ReadTag(s).value;
    assert (s + t)[n..] == s[n..] + t && (s + t)[0] == s[0];
    LengthExtends(s[n..], t);
  }

  lemma HeaderFails(s: bytes)
    ensures ReadHeader(s).Err? ==> Parse(s) == Err(ReadHeader(s).error)
  {
    hide ReadHeader, ParseWithin, ParseUntilEnd;
  }

  lemma ParseBody(s: bytes, h: Header)
    requires ReadHeader(s) == Ok(h) && IsConstructed(s[0])
    ensures h.indefinite && ParseUntilEnd(s[h.start..]).Err? ==> Parse(s) == Err(ParseUntilEnd(s[h.start..]).error)
    ensures !h.indefinite && ParseWithin(s[h.start..], h.length).Err?
      ==> Parse(s) == Err(ParseWithin(s[h.start..], h.length).error)
  {
    hide ReadHeader, ParseWithin, ParseUntilEnd, IsConstructed;
  }

  /** readObject does not look past the object it returns, through the whole recursion. */
  lemma {:induction false} ParseExtends(s: bytes, t: bytes)
    requires Settled(Parse(s))
    ensures Parse(s + t) == Parse(s)
    decreases |s|, 0
  {
    hide ReadHeader, Parse, ParseWithin, ParseUntilEnd, IsConstructed;
    HeaderFails(s);
    HeaderExtends(s, t);
    HeaderFails(s + t);
    if ReadHeader(s).Err? {
    } else {
      var h := ReadHeader(s).value;
      var inner := s[h.start..];
      assert (s + t)[0] == s[0] && (s + t)[..h.tagLen] == s[..h.tagLen];
      assert (s + t)[h.start..] == inner + t;
      ParseStep(s, h);
      ParseStep(s + t, h);
      if !IsConstructed(s[0]) {
        assert (s + t)[h.start..h.start + h.length] == s[h.start..h.start + h.length];
      } else {
        ParseBody(s, h);
        ParseBody(s + t, h);
        if h.indefinite {
          UntilEndExtends(inner, t);
        } else {
          WithinExtends(inner, t, h.length);
        }
      }
    }
  }

  lemma WithinFails(s: bytes, want: int)
    requires want > 0
    ensures Parse(s).Err? ==> ParseWithin(s, want) == Err(Parse(s).error)
    ensures Parse(s).Ok? && ParseWithin(s[Parse(s).value.size..], want - Parse(s).value.size).Err? ==>
              ParseWithin(s, want) == Err(ParseWithin(s[Parse(s).value.size..], want - Parse(s).value.size).error)
  {
    hide Parse;
  }

  lemma {:induction false} WithinExtends(s: bytes, t: bytes, want: int)
    requires Settled(ParseWithin(s, want))
    ensures ParseWithin(s + t, want) == ParseWithin(s, want)
    decreases |s|, 1
  {
    hide Parse, ParseWithin, ParseUntilEnd, WellNested, WellNestedWithin;
    if want <= 0 {
      WithinNone(s, want);
      WithinNone(s + t, want);
    } else {
      WithinFails(s, want);
      WithinFails(s + t, want);
      ParseExtends(s, t);
      if Parse(s).Ok? {
        var first := Parse(s).value;
        var after := s[first.size..];
        assert (s + t)[first.size..] == after + t;
        WithinExtends(after, t, want - first.size);
        if ParseWithin(after, want - first.size).Ok? {
          WithinStep(s, want, first, ParseWithin(after, want - first.size).value);
          WithinStep(s + t, want, first, ParseWithin(after, want - first.size).value);
        }
      }
    }
  }

  lemma UntilEndFails(s: bytes)
    ensures Parse(s).Err? ==> ParseUntilEnd(s) == Err(Parse(s).error)
    ensures Parse(s).Ok? ==>
              var after := s[Parse(s).value.size..];
              && (|after| < 2 ==> ParseUntilEnd(s) == Err(InvalidFormat))
              && (|after| >= 2 && !(after[0] == 0 && after[1] == 0) && ParseUntilEnd(after).Err? ==>
                    ParseUntilEnd(s) == Err(ParseUntilEnd(after).error))
  {
    hide Parse;
  }

  lemma {:induction false} UntilEndExtends(s: bytes, t: bytes)
    requires Settled(ParseUntilEnd(s))
    ensures ParseUntilEnd(s + t) == ParseUntilEnd(s)
    decreases |s|, 1
  {
    hide Parse, ParseWithin, ParseUntilEnd, WellNested, WellNestedUntilEnd;
    UntilEndFails(s);
    UntilEndFails(s + t);
    ParseExtends(s, t);
    if Parse(s).Err? {
    } else {
      var first := Parse(s).value;
      var after := s[first.size..];
      assert (s + t)[first.size..] == after + t;
      assert (s + t)[first.size] == after[0] && (s + t)[first.size + 1] == after[1];
      if after[0] == 0 && after[1] == 0 {
        UntilEndLast(s, first);
        UntilEndLast(s + t, first);
      } else {
        UntilEndExtends(after, t);
        if ParseUntilEnd(after).Ok? {
          UntilEndMore(s, first, ParseUntilEnd(after).value);
          UntilEndMore(s + t, first, ParseUntilEnd(after).value);
        }
      }
    }
  }

  /** Octets after the first object never change a result that did not ask for more input. */
  lemma ExtensionIndependent(x: bytes, t: bytes)
    requires x != [] && Settled(Ber2Der(x))
    ensures Ber2Der(x + t) == Ber2Der(x)
  {
    hide Parse, Der;
    ParseExtends(x, t);
  }

  /**
   * A definite parent does not confine its last child: 30 02 04 01 AA is accepted, the OCTET
   * STRING runs past the SEQUENCE, and the output is longer than what the parent announced.
   */
  lemma ChildMayOverrun()
    ensures Ber2Der([0x30, 2, 4, 1, 0xAA]) == Ok([0x30, 3, 4, 1, 0xAA])
    ensures Parse([0x30, 2, 4, 1, 0xAA]).value.size == 4
    ensures !WellNested([0x30, 2, 4, 1, 0xAA])
  {
    hide Parse, WellNested, Der, ReadHeader;
    var s: bytes := [0x30, 2, 4, 1, 0xAA];
    var inner: bytes := [4, 1, 0xAA];
    var child := Primitive([4], 1, [0xAA]);
    assert s[2..] == inner && s[..1] == [0x30];
    OverrunHeaders(s, inner);
    ChildRead(inner, child);
    OverrunRead(s, inner, child);
    OverrunPrinted(child);
  }

  lemma OverrunHeaders(s: bytes, inner: bytes)
    requires s == [0x30, 2, 4, 1, 0xAA] && inner == [4, 1, 0xAA]
    ensures ReadHeader(inner) == Ok(Header(1, 2, 1, false)) && ReadHeader(s) == Ok(Header(1, 2, 2, false))
  {
    assert inner[1..] == [1, 0xAA];
    assert s[1..] == [2, 4, 1, 0xAA];
  }

  lemma OverrunPrinted(child: Obj)
    requires child == Primitive([4], 1, [0xAA])
    ensures Der(Structured([0x30], [child])) == [0x30, 3, 4, 1, 0xAA]
  {
    assert DerSeq([child]) == [4, 1, 0xAA] by {
      assert [child][1..] == [];
      assert Der(child) == [4] + [1] + [0xAA];
    }
  }

  lemma ChildRead(inner: bytes, child: Obj)
    requires inner == [4, 1, 0xAA] && child == Primitive([4], 1, [0xAA])
    requires ReadHeader(inner) == Ok(Header(1, 2, 1, false))
    ensures ParseWithin(inner, 2) == Ok(ParsedSeq([child], 3))
  {
    hide ReadHeader, Parse, ParseWithin, WellNested, WellNestedWithin;
    ParseStep(inner, ReadHeader(inner).value);
    assert inner[..1] == [4] && inner[2..3] == [0xAA];
    WithinNone(inner[3..], -1);
    WithinStep(inner, 2, Parsed(child, 3), ParsedSeq([], 0));
    assert [child] + [] == [child];
  }

  lemma OverrunRead(s: bytes, inner: bytes, child: Obj)
    requires s == [0x30, 2, 4, 1, 0xAA] && s[2..] == inner && s[..1] == [0x30]
    requires ReadHeader(s) == Ok(Header(1, 2, 2, false))
    requires ParseWithin(inner, 2) == Ok(ParsedSeq([child], 3))
    ensures Parse(s) == Ok(Parsed(Structured([0x30], [child]), 4)) && !WellNested(s)
  {
    hide ReadHeader, Parse, ParseWithin, WellNested, WellNestedWithin;
    assert IsConstructed(s[0]);
    ParseStep(s, ReadHeader(s).value);
    NestedStep(s, ReadHeader(s).value);
  }
}
