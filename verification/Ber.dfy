/**
 * The BER reader and DER printer of ietf-cms/protocol/ber.go as functions on the octets that
 * start at the current offset. BerCode proves that the offset-based loops compute these.
 */
module Ber {
  import opened Bytes
  import opened Lengths

  datatype BerError =
    | EmptyInput
    | LengthTooLong
    | LengthNegative
    | LengthLeadingZero
    | LengthBeyondData
    | IndefinitePrimitive
    | InvalidFormat
    | IndexOutOfRange // a Go run-time panic, not an error value

  type Outcome<+T> = Result<T, BerError>

  /** asn1Primitive and asn1Structured. */
  datatype Obj =
    | Primitive(tag: bytes, length: nat, content: bytes)
    | Structured(tag: bytes, children: seq<Obj>)

  datatype Header = Header(tagLen: nat, start: nat, length: nat, indefinite: bool)

  datatype Parsed = Parsed(obj: Obj, size: nat)
  datatype ParsedSeq = ParsedSeq(objs: seq<Obj>, size: nat)

  /** Bit 6 of the first identifier octet: `b & 0x20`. */
  predicate IsConstructed(b: byte) {
    (b / 32) % 2 == 1
  }

  // ---------------------------------------------------------------- reader

  function ReadHighTag(s: bytes, i: nat): (r: Outcome<nat>)
    requires i <= |s|
    ensures r.Ok? ==> i < r.value <= |s|
    decreases |s| - i
  {
    if i == |s| then Err(IndexOutOfRange)
    else if s[i] >= 0x80 then ReadHighTag(s, i + 1)
    else Ok(i + 1)
  }

  /** The number of identifier octets at the start of `s`. */
  function ReadTag(s: bytes): (r: Outcome<nat>)
    ensures r.Ok? ==> 1 <= r.value <= |s|
  {
    if s == [] then Err(IndexOutOfRange)
    else if s[0] % 32 == 31 then ReadHighTag(s, 1)
    else Ok(1)
  }

  datatype LengthRead = LengthRead(size: nat, length: nat, indefinite: bool)

  /** The length octets at the start of `s` (ber.go:161-186). */
  function ReadLength(s: bytes): (r: Outcome<LengthRead>)
    ensures r.Ok? ==> 1 <= r.value.size <= |s|
    ensures r.Ok? && r.value.indefinite ==> r.value.size == 1 && r.value.length == 0
  {
    if s == [] then Err(IndexOutOfRange)
    else if s[0] > 0x80 then
      var n := s[0] - 0x80;
      if n > 4 then Err(LengthTooLong)
      else if |s| < 2 then Err(IndexOutOfRange)
      else if n == 4 && s[1] > 0x7F then Err(LengthNegative)
      else if s[1] == 0 then Err(LengthLeadingZero)
      else if |s| < 1 + n then Err(IndexOutOfRange)
      else Ok(LengthRead(1 + n, FromBigEndian(s[1..1 + n]), false))
    else if s[0] == 0x80 then Ok(LengthRead(1, 0, true))
    else Ok(LengthRead(1, s[0], false))
  }

  function ReadHeader(s: bytes): (r: Outcome<Header>)
    ensures r.Ok? ==> 1 <= r.value.tagLen < r.value.start <= r.value.start + r.value.length <= |s|
    ensures r.Ok? && r.value.indefinite ==> r.value.length == 0
  {
    var t :- ReadTag(s);
    var l :- ReadLength(s[t..]);
    if t + l.size + l.length > |s| then Err(LengthBeyondData)
    else if l.indefinite && !IsConstructed(s[0]) then Err(IndefinitePrimitive)
    else Ok(Header(t, t + l.size, l.length, l.indefinite))
  }

  /** readObject: the object at the start of `s` and the distance to the offset it returns. */
  function Parse(s: bytes): (r: Outcome<Parsed>)
    ensures r.Ok? ==> 2 <= r.value.size <= |s|
    decreases |s|, 0
  {
    var h :- ReadHeader(s);
    var tag := s[..h.tagLen];
    if !IsConstructed(s[0]) then
      Ok(Parsed(Primitive(tag, h.length, s[h.start..h.start + h.length]), h.start + h.length))
    else if h.indefinite then
      var body :- ParseUntilEnd(s[h.start..]);
      Ok(Parsed(Structured(tag, body.objs), h.start + body.size + 2))
    else
      var objs :- ParseWithin(s[h.start..], h.length);
      Ok(Parsed(Structured(tag, objs.objs), h.start + h.length))
  }

  /**
   * The loop over a definite value: reads objects while fewer than `want` octets have been
   * used. The last one may use more; `size` says how many were used in all.
   */
  function ParseWithin(s: bytes, want: int): (r: Outcome<ParsedSeq>)
    ensures r.Ok? ==> r.value.size <= |s| && r.value.size >= want
    decreases |s|, 1
  {
    if want <= 0 then Ok(ParsedSeq([], 0))
    else
      var first :- Parse(s);
      var rest :- ParseWithin(s[first.size..], want - first.size);
      Ok(ParsedSeq([first.obj] + rest.objs, first.size + rest.size))
  }

  /** The loop over an indefinite value: one object first, then a look for 00 00. */
  function ParseUntilEnd(s: bytes): (r: Outcome<ParsedSeq>)
    ensures r.Ok? ==> 2 <= r.value.size && r.value.size + 2 <= |s|
    decreases |s|, 1
  {
    var first :- Parse(s);
    var after := s[first.size..];
    if |after| < 2 then Err(InvalidFormat)
    else if after[0] == 0 && after[1] == 0 then Ok(ParsedSeq([first.obj], first.size))
    else
      var rest :- ParseUntilEnd(after);
      Ok(ParsedSeq([first.obj] + rest.objs, first.size + rest.size))
  }

  // ---------------------------------------------------------------- printer

  /** What encodeTo writes. */
  function Der(o: Obj): (d: bytes)
    decreases o, 0
  {
    match o
    case Primitive(tag, length, content) => tag + EncodeLength(length) + content
    case Structured(tag, children) =>
      var inner := DerSeq(children);
      tag + EncodeLength(|inner|) + inner
  }

  function DerSeq(os: seq<Obj>): bytes
    decreases os, 1
  {
    if os == [] then [] else Der(os[0]) + DerSeq(os[1..])
  }

  function Ber2Der(ber: bytes): Outcome<bytes> {
    if ber == [] then Err(EmptyInput)
    else
      var p :- Parse(ber);
      Ok(Der(p.obj))
  }

  // ---------------------------------------------------------------- well-formed identifiers and trees

  /** Identifier octets the reader takes in one piece (X.690 section 8.1.2). */
  predicate ValidTag(tag: bytes) {
    && tag != []
    && if tag[0] % 32 != 31 then |tag| == 1
       else |tag| >= 2
            && tag[|tag| - 1] < 0x80
            && forall i :: 1 <= i < |tag| - 1 ==> tag[i] >= 0x80
  }

  /** Trees the reader can return: kind bit, identifier and recorded length agree. */
  predicate ValidObj(o: Obj)
    decreases o, 0
  {
    && ValidTag(o.tag)
    && match o
       case Primitive(tag, length, content) =>
         !IsConstructed(tag[0]) && length == |content| && length < MAX_READABLE
       case Structured(tag, children) => IsConstructed(tag[0]) && ValidObjs(children)
  }

  predicate ValidObjs(os: seq<Obj>)
    decreases os, 1
  {
    os == [] || (ValidObj(os[0]) && ValidObjs(os[1..]))
  }

  /** The content octets that the printer wraps in identifier and length. */
  function Body(o: Obj): bytes {
    match o
    case Primitive(_, _, content) => content
    case Structured(_, children) => DerSeq(children)
  }

  // ---------------------------------------------------------------- every way to write a tree

  datatype Form = Short | Long | Indefinite

  /** A tree with one length form chosen for every node. */
  datatype Ber =
    | Leaf(tag: bytes, form: Form, content: bytes)
    | Branch(tag: bytes, form: Form, parts: seq<Ber>)

  function LengthOctets(form: Form, n: nat): bytes {
    match form
    case Short => [n % 256]
    case Long => [WithHighBit(OctetCount(n))] + BigEndian(n, OctetCount(n))
    case Indefinite => [0x80]
  }

  predicate FormFits(form: Form, n: nat) {
    match form
    case Short => n < 128
    case Long => 1 <= n < MAX_READABLE
    case Indefinite => true
  }

  function Encode(b: Ber): bytes
    decreases b, 0
  {
    match b
    case Leaf(tag, form, content) => tag + LengthOctets(form, |content|) + content
    case Branch(tag, form, parts) =>
      var inner := EncodeSeq(parts);
      tag + LengthOctets(form, |inner|) + inner + (if form.Indefinite? then [0, 0] else [])
  }

  function EncodeSeq(bs: seq<Ber>): bytes
    decreases bs, 1
  {
    if bs == [] then [] else Encode(bs[0]) + EncodeSeq(bs[1..])
  }

  function Erase(b: Ber): Obj
    decreases b, 0
  {
    match b
    case Leaf(tag, _, content) => Primitive(tag, |content|, content)
    case Branch(tag, _, parts) => Structured(tag, EraseSeq(parts))
  }

  function EraseSeq(bs: seq<Ber>): seq<Obj>
    decreases bs, 1
  {
    if bs == [] then [] else [Erase(bs[0])] + EraseSeq(bs[1..])
  }

  /** The end-of-contents octets read as an object. */
  const END_OF_CONTENTS := Leaf([0], Short, [])

  /**
   * The encodings readObject takes as written: X.690 section 8.1.3 with long lengths of at most
   * four octets and no leading zero, and at least one part in an indefinite value. Only the
   * first part of an indefinite value may be 00 00, because it is read before the terminator is
   * looked for.
   */
  predicate Admissible(b: Ber)
    decreases b, 0
  {
    && ValidTag(b.tag)
    && match b
       case Leaf(tag, form, content) =>
         !IsConstructed(tag[0]) && !form.Indefinite? && FormFits(form, |content|)
       case Branch(tag, form, parts) =>
         && IsConstructed(tag[0])
         && FormFits(form, |EncodeSeq(parts)|)
         && AdmissibleSeq(parts)
         && (form.Indefinite? ==> parts != [] && END_OF_CONTENTS !in parts[1..])
  }

  predicate AdmissibleSeq(bs: seq<Ber>)
    decreases bs, 1
  {
    bs == [] || (Admissible(bs[0]) && AdmissibleSeq(bs[1..]))
  }

  // ---------------------------------------------------------------- nesting

  /** Every definite value met while reading ends exactly where its last part ends. */
  predicate WellNested(s: bytes)
    decreases |s|, 0
  {
    var h := ReadHeader(s);
    h.Ok? && IsConstructed(s[0]) ==>
      var inner := s[h.value.start..];
      if h.value.indefinite then WellNestedUntilEnd(inner)
      else
        var body := ParseWithin(inner, h.value.length);
        WellNestedWithin(inner, h.value.length) && (body.Ok? ==> body.value.size == h.value.length)
  }

  predicate WellNestedWithin(s: bytes, want: int)
    decreases |s|, 1
  {
    want > 0 ==>
      WellNested(s) && (Parse(s).Ok? ==> WellNestedWithin(s[Parse(s).value.size..], want - Parse(s).value.size))
  }

  predicate WellNestedUntilEnd(s: bytes)
    decreases |s|, 1
  {
    WellNested(s) &&
    (Parse(s).Ok? ==>
       var after := s[Parse(s).value.size..];
       |after| >= 2 && !(after[0] == 0 && after[1] == 0) ==> WellNestedUntilEnd(after))
  }
}
