/**
 * The numbers behind octets: which contents encoding/asn1 takes for an INTEGER, for a tag number
 * and for an OBJECT IDENTIFIER (ITU-T X.690 sections 8.1.2.4, 8.3 and 8.19), and the identifiers of
 * oid/oid.go by their dotted numbers.
 */
module Numbers {
  import opened Bytes
  import opened Lengths
  import opened Asn1
  import opened Attributes
  import opened Cms
  import opened Environment
  import opened Timestamp
  import Ber

  // ---------------------------------------------------------------- INTEGER

  /** Two's complement, most significant octet first. */
  function IntegerValue(c: bytes): int
    requires c != []
  {
    FromBigEndian(c) - (if c[0] >= 0x80 then Pow256(|c|) else 0)
  }

  /** The shortest octets of a number. */
  function IntegerOctets(n: int): (c: bytes)
    ensures c != []
    decreases if n < 0 then -n else n
  {
    if -128 <= n < 128 then [n % 256] else IntegerOctets(n / 256) + [n % 256]
  }

  lemma ValueAppend(d: bytes, b: byte)
    requires d != []
    ensures IntegerValue(d + [b]) == 256 * IntegerValue(d) + b
  {
    assert (d + [b])[..|d|] == d;
  }

  lemma OneOctetValue(b: byte)
    ensures IntegerValue([b]) == if b >= 0x80 then b - 256 else b
  {
    assert [b][..0] == [];
    assert FromBigEndian([b]) == b;
    assert Pow256(1) == 256 * Pow256(0);
  }

  /** Every number has octets that encoding/asn1 takes. */
  lemma {:induction false} OctetsTaken(n: int)
    ensures ValidInteger(IntegerOctets(n)) && IntegerValue(IntegerOctets(n)) == n
    decreases if n < 0 then -n else n
  {
    if -128 <= n < 128 {
      OneOctetValue(n % 256);
    } else {
      OctetsTaken(n / 256);
      ValueAppend(IntegerOctets(n / 256), n % 256);
    }
  }

  /** A further octet on a minimal number takes it out of the range of one octet. */
  lemma BeyondOneOctet(d: bytes, b: byte)
    requires d != [] && ValidInteger(d + [b]) && IntegerOctets(IntegerValue(d)) == d
    ensures !(-128 <= 256 * IntegerValue(d) + b < 128)
  {
    hide IntegerValue;
    if |d| == 1 {
      OneOctetValue(d[0]);
      assert d == [d[0]];
    }
  }

  lemma OctetsStep(v: int, b: byte)
    requires !(-128 <= 256 * v + b < 128)
    ensures IntegerOctets(256 * v + b) == IntegerOctets(v) + [b]
  {
    var n := 256 * v + b;
    assert n / 256 == v && n % 256 == b;
  }

  /** Contents of an INTEGER are taken exactly when they are the shortest octets of their number. */
  lemma {:induction false} IntegerExactly(c: bytes)
    ensures ValidInteger(c) <==> c != [] && IntegerOctets(IntegerValue(c)) == c
  {
    hide IntegerValue, IntegerOctets;
    if c == [] {
    } else {
      OctetsTaken(IntegerValue(c));
      if |c| == 1 {
        OneOctetValue(c[0]);
        assert c == [c[0]];
        OneOctetNumber(c[0]);
      } else if ValidInteger(c) {
        var d, b := c[..|c| - 1], c[|c| - 1];
        assert c == d + [b];
        IntegerExactly(d);
        ValueAppend(d, b);
        BeyondOneOctet(d, b);
        OctetsStep(IntegerValue(d), b);
      }
    }
  }

  lemma OneOctetNumber(b: byte)
    ensures IntegerOctets(if b >= 0x80 then b - 256 else b) == [b]
  {
  }

  /** Numbers are compared by comparing their octets. */
  lemma SameNumber(a: bytes, b: bytes)
    requires ValidInteger(a) && ValidInteger(b)
    ensures IntegerValue(a) == IntegerValue(b) <==> a == b
  {
    hide ValidInteger, IntegerValue, IntegerOctets;
    IntegerExactly(a);
    IntegerExactly(b);
  }

  lemma {:induction false} OctetsLength(n: int, k: nat)
    requires k >= 1
    ensures |IntegerOctets(n)| <= k <==> -128 * Pow256(k - 1) <= n < 128 * Pow256(k - 1)
    decreases if n < 0 then -n else n
  {
    if -128 <= n < 128 {
    } else if k > 1 {
      OctetsLength(n / 256, k - 1);
      assert Pow256(k - 1) == 256 * Pow256(k - 2);
    }
  }

  /** Contents of an int field are taken exactly when their number fits 64 bits. */
  lemma Int64Exactly(c: bytes)
    ensures ValidInt64(c) <==>
            ValidInteger(c) && -0x8000_0000_0000_0000 <= IntegerValue(c) < 0x8000_0000_0000_0000
  {
    hide IntegerValue, IntegerOctets, ValidInteger;
    if ValidInteger(c) {
      IntegerExactly(c);
      OctetsLength(IntegerValue(c), 8);
      assert Pow256(7) == 0x100_0000_0000_0000 by { SeventhPower(); }
    }
  }

  lemma SeventhPower()
    ensures Pow256(7) == 0x100_0000_0000_0000
  {
    assert Pow256(3) == 0x100_0000;
    assert Pow256(5) == 0x100_0000_0000;
  }

  // ---------------------------------------------------------------- base 128

  /** Digits of a number with the high bit on every octet. */
  function Continued(n: nat): (ds: bytes)
    ensures ds != []
  {
    if n < 128 then [n + 128] else Continued(n / 128) + [n % 128 + 128]
  }

  /** The high bit is on every octet but the last. */
  function Base128Octets(n: nat): (ds: bytes)
    ensures ds != []
  {
    if n < 128 then [n] else Continued(n / 128) + [n % 128]
  }

  function Base128Value(a: bytes): nat {
    if a == [] then 0 else 128 * Base128Value(a[..|a| - 1]) + a[|a| - 1] % 128
  }

  lemma Base128Append(d: bytes, b: byte)
    ensures Base128Value(d + [b]) == 128 * Base128Value(d) + b % 128
  {
    assert (d + [b])[..|d|] == d;
  }

  lemma {:induction false} ContinuedShape(n: nat)
    requires n >= 1
    ensures var ds := Continued(n);
            Base128Value(ds) == n && ds[0] != 0x80 && forall i :: 0 <= i < |ds| ==> ds[i] >= 0x80
  {
    hide Base128Value;
    if n < 128 {
      OneDigit(n + 128);
    } else {
      ContinuedShape(n / 128);
      Base128Append(Continued(n / 128), n % 128 + 128);
    }
  }

  lemma OneDigit(b: byte)
    ensures Base128Value([b]) == b % 128
  {
    Base128Append([], b);
    NoDigits();
    assert [] + [b] == [b];
  }

  lemma NoDigits()
    ensures Base128Value([]) == 0
  {
  }

  lemma Base128Shape(n: nat)
    ensures var ds := Base128Octets(n);
            && Base128Value(ds) == n && (n > 0 ==> ds[0] != 0x80) && ds[|ds| - 1] < 0x80
            && forall i :: 0 <= i < |ds| - 1 ==> ds[i] >= 0x80
  {
    hide Base128Value, Continued;
    if n < 128 {
      OneDigit(n);
    } else {
      ContinuedShape(n / 128);
      Base128Append(Continued(n / 128), n % 128);
    }
  }

  lemma LastDigit(v: nat, r: nat)
    requires r < 128
    ensures (128 * v + r) / 128 == v && (128 * v + r) % 128 == r
  {
  }

  /** Digits with the high bit on, and no leading zero, are those of their value. */
  lemma {:induction false} ContinuedOf(a: bytes)
    requires a != [] && a[0] != 0x80 && forall i :: 0 <= i < |a| ==> a[i] >= 0x80
    ensures Base128Value(a) >= 1 && Continued(Base128Value(a)) == a
  {
    hide Base128Value;
    var d, b := a[..|a| - 1], a[|a| - 1];
    assert a == d + [b];
    Base128Append(d, b);
    LastDigit(Base128Value(d), b - 128);
    if d == [] {
      assert Base128Value([]) == 0 by { NoDigits(); }
    } else {
      ContinuedOf(d);
    }
  }

  function Pow128(k: nat): nat {
    if k == 0 then 1 else 128 * Pow128(k - 1)
  }

  /** The first digit bounds the value from both sides. */
  lemma {:induction false} ValueBetween(a: bytes)
    requires a != []
    ensures a[0] % 128 * Pow128(|a| - 1) <= Base128Value(a) < (a[0] % 128 + 1) * Pow128(|a| - 1)
  {
    hide Base128Value;
    var d, b := a[..|a| - 1], a[|a| - 1];
    assert a == d + [b];
    Base128Append(d, b);
    if d == [] {
      NoDigits();
    } else {
      ValueBetween(d);
      var x, p := a[0] % 128, Pow128(|d| - 1);
      Times128(x, p);
      Times128(x + 1, p);
      OneMoreDigit(Base128Value(d), x * p, (x + 1) * p, b % 128);
    }
  }

  lemma OneMoreDigit(v: nat, low: nat, high: nat, r: nat)
    requires low <= v < high && r < 128
    ensures 128 * low <= 128 * v + r < 128 * high
  {
  }

  lemma Times128(x: nat, p: nat)
    ensures x * (128 * p) == 128 * (x * p)
  {
  }

  lemma ShortestOctets(a: bytes)
    requires a != [] && a[0] != 0x80 && a[|a| - 1] < 0x80 && forall i :: 0 <= i < |a| - 1 ==> a[i] >= 0x80
    ensures Base128Octets(Base128Value(a)) == a
  {
    hide Base128Value, Base128Octets, Continued;
    var d, b := a[..|a| - 1], a[|a| - 1];
    Base128Append(d, b);
    if d == [] {
      NoDigits();
      ShortOctets(b);
    } else {
      ContinuedOf(d);
      LongOctets(Base128Value(d), b);
    }
    assert a == d + [b];
  }

  lemma ShortOctets(b: nat)
    requires b < 128
    ensures Base128Octets(b) == [b]
  {
  }

  lemma LongOctets(v: nat, b: nat)
    requires v >= 1 && b < 128
    ensures Base128Octets(128 * v + b) == Continued(v) + [b]
  {
    hide Continued;
    LastDigit(v, b);
  }

  /** A base-128 number is taken exactly when it is the shortest form of a number below 2^31. */
  lemma Base128Exactly(a: bytes)
    ensures Base128(a) <==> a != [] && Base128Value(a) < MAX_READABLE && Base128Octets(Base128Value(a)) == a
  {
    hide Base128Value, Base128Octets;
    if Base128(a) {
      ShortestOctets(a);
      FewDigits(a);
    }
    if a != [] && Base128Value(a) < MAX_READABLE && Base128Octets(Base128Value(a)) == a {
      Base128Shape(Base128Value(a));
      FewDigits(a);
      if |a| > 1 {
        ValueBetween(a);
        LeadingDigit(a);
      }
    }
  }

  lemma LeadingDigit(a: bytes)
    requires |a| > 1 && Base128Octets(Base128Value(a)) == a
    ensures Base128Value(a) > 0
  {
    hide Base128Value;
  }

  /** Five digits, the first below 8, hold the numbers below 2^31. */
  lemma FewDigits(a: bytes)
    requires a != []
    ensures a[0] > 0x80 ==> (Base128Value(a) < MAX_READABLE <==> |a| < 5 || (|a| == 5 && a[0] < 0x88))
    ensures |a| == 1 ==> Base128Value(a) < MAX_READABLE
  {
    hide Base128Value, Pow128;
    var x, p := a[0] % 128, Pow128(|a| - 1);
    ValueBetween(a);
    FourDigits();
    if |a| <= 4 {
      Pow128Monotone(|a| - 1, 3);
      Product(x + 1, p, 128, Pow128(3));
    } else if |a| == 5 {
      if x < 8 {
        Product(x + 1, p, 8, p);
      } else {
        Product(8, p, x, p);
      }
    } else if a[0] > 0x80 {
      Pow128Monotone(5, |a| - 1);
      Product(1, Pow128(5), x, p);
    }
  }

  lemma FourDigits()
    ensures Pow128(3) == 0x20_0000 && Pow128(4) == 0x1000_0000 && Pow128(5) == 0x8_0000_0000
  {
    assert Pow128(2) == 0x4000;
  }

  lemma Product(a: nat, b: nat, c: nat, d: nat)
    requires a <= c && b <= d
    ensures a * b <= c * d
  {
    assert a * b <= c * b;
    assert c * b <= c * d;
  }

  lemma {:induction false} Pow128Monotone(i: nat, j: nat)
    requires i <= j
    ensures 1 <= Pow128(i) <= Pow128(j)
    decreases j
  {
    if j == 0 {
    } else if i == j {
      Pow128Monotone(i - 1, j - 1);
    } else {
      Pow128Monotone(i, j - 1);
    }
  }
  // ---------------------------------------------------------------- OBJECT IDENTIFIER

  /** The numbers written one after the other. */
  function ArcsOctets(arcs: seq<nat>): bytes {
    if arcs == [] then [] else Base128Octets(arcs[0]) + ArcsOctets(arcs[1..])
  }

  predicate SmallArcs(arcs: seq<nat>) {
    forall i :: 0 <= i < |arcs| ==> arcs[i] < MAX_READABLE
  }

  /** The end of the first number is the first octet without the high bit. */
  lemma {:induction false} ArcScan(s: bytes, i: nat, e: nat)
    requires i < e <= |s| && s[e - 1] < 0x80 && forall j :: i <= j < e - 1 ==> s[j] >= 0x80
    ensures Ber.ReadHighTag(s, i) == Ok(e)
    decreases e - i
  {
    if i == e - 1 {
    } else {
      ArcScan(s, i + 1, e);
    }
  }

  lemma FirstArc(n: nat, rest: bytes)
    ensures Ber.ReadHighTag(Base128Octets(n) + rest, 0) == Ok(|Base128Octets(n)|)
  {
    hide Base128Octets;
    Base128Shape(n);
    var a := Base128Octets(n);
    ArcScan(a + rest, 0, |a|);
  }

  lemma ShortestTaken(n: nat)
    requires n < MAX_READABLE
    ensures Base128(Base128Octets(n))
  {
    hide Base128, Base128Octets;
    Base128Shape(n);
    Base128Exactly(Base128Octets(n));
  }

  lemma {:induction false} ArcsTaken(arcs: seq<nat>)
    requires SmallArcs(arcs)
    ensures Arcs(ArcsOctets(arcs))
  {
    hide Base128, Base128Octets;
    if arcs == [] {
    } else {
      var a, rest := Base128Octets(arcs[0]), ArcsOctets(arcs[1..]);
      FirstArc(arcs[0], rest);
      ShortestTaken(arcs[0]);
      ArcsTaken(arcs[1..]);
      assert (a + rest)[..|a|] == a && (a + rest)[|a|..] == rest;
    }
  }

  lemma {:induction false} ArcsFound(c: bytes) returns (arcs: seq<nat>)
    requires Arcs(c)
    ensures SmallArcs(arcs) && ArcsOctets(arcs) == c && (c != [] ==> arcs != [])
    decreases |c|
  {
    hide Base128, Base128Octets;
    if c == [] {
      arcs := [];
    } else {
      var e := Ber.ReadHighTag(c, 0).value;
      var n := Base128Value(c[..e]);
      Base128Exactly(c[..e]);
      var more := ArcsFound(c[e..]);
      arcs := [n] + more;
      assert arcs[1..] == more && c == c[..e] + c[e..];
    }
  }

  /** Contents of an OBJECT IDENTIFIER are taken exactly when they are numbers below 2^31 in shortest form. */
  lemma OidExactly(c: bytes)
    ensures ValidOid(c) <==> exists arcs :: arcs != [] && SmallArcs(arcs) && ArcsOctets(arcs) == c
  {
    hide Arcs;
    if ValidOid(c) {
      var arcs := ArcsFound(c);
    }
    if arcs :| arcs != [] && SmallArcs(arcs) && ArcsOctets(arcs) == c {
      ArcsTaken(arcs);
    }
  }

  /** Identifiers are compared by comparing their octets. */
  lemma {:induction false} SameArcs(a: seq<nat>, b: seq<nat>)
    ensures ArcsOctets(a) == ArcsOctets(b) <==> a == b
  {
    hide Base128Octets, Base128Value;
    if ArcsOctets(a) == ArcsOctets(b) && a != [] && b != [] {
      var x, y := Base128Octets(a[0]), Base128Octets(b[0]);
      FirstArc(a[0], ArcsOctets(a[1..]));
      FirstArc(b[0], ArcsOctets(b[1..]));
      assert x == ArcsOctets(a)[..|x|] && y == ArcsOctets(b)[..|y|];
      Base128Shape(a[0]);
      Base128Shape(b[0]);
      assert ArcsOctets(a[1..]) == ArcsOctets(a)[|x|..] && ArcsOctets(b[1..]) == ArcsOctets(b)[|y|..];
      SameArcs(a[1..], b[1..]);
      assert a == [a[0]] + a[1..] && b == [b[0]] + b[1..];
    }
  }

  /** Identifier octets are taken with tag numbers below 31 in the first octet and from 31 to 2^31 after it. */
  lemma IdentifierExactly(id: bytes)
    ensures GoodId(id) <==>
            && id != []
            && if id[0] % 32 != 31 then |id| == 1
               else exists n :: 31 <= n < MAX_READABLE && id[1..] == Base128Octets(n)
  {
    hide Base128, Base128Octets;
    if id != [] && id[0] % 32 == 31 {
      var a := id[1..];
      Base128Exactly(a);
      if GoodId(id) {
        HighNumber(a);
        assert id[1..] == Base128Octets(Base128Value(a));
      }
      if n :| 31 <= n < MAX_READABLE && a == Base128Octets(n) {
        Base128Shape(n);
        ShortestTaken(n);
        HighNumber(a);
        assert forall i :: 1 <= i < |id| - 1 ==> id[i] == a[i - 1];
      }
    }
  }

  lemma HighNumber(a: bytes)
    requires a != [] && Base128Octets(Base128Value(a)) == a
    ensures Base128Value(a) < 31 <==> |a| == 1 && a[0] < 31
  {
    hide Base128Value;
  }
  // ---------------------------------------------------------------- oid/oid.go

  /** A dotted identifier; its first two numbers share an octet. */
  function Dotted(arcs: seq<nat>): bytes
    requires |arcs| >= 2
  {
    ArcsOctets([40 * arcs[0] + arcs[1]] + arcs[2..])
  }

  /** The arcs above 127 in the identifiers of oid.go. */
  lemma LargeArcs()
    ensures Base128Octets(840) == [0x86, 0x48]
    ensures Base128Octets(113549) == [0x86, 0xF7, 0x0D]
    ensures Base128Octets(10045) == [0xCE, 0x3D] && Base128Octets(10040) == [0xCE, 0x38]
  {
  }

  lemma SmallArc(n: nat, more: seq<nat>)
    requires n < 128
    ensures ArcsOctets([n] + more) == [n] + ArcsOctets(more)
  {
    assert ([n] + more)[1..] == more;
  }

  lemma LargeArc(n: nat, more: seq<nat>)
    ensures ArcsOctets([n] + more) == Base128Octets(n) + ArcsOctets(more)
  {
    assert ([n] + more)[1..] == more;
  }

  /** Numbers below 128 are their own octets. */
  lemma {:induction false} SmallTail(arcs: seq<nat>, octets: bytes)
    requires |arcs| == |octets| && forall i :: 0 <= i < |arcs| ==> arcs[i] == octets[i] < 128
    ensures ArcsOctets(arcs) == octets
  {
    if arcs == [] {
    } else {
      SmallTail(arcs[1..], octets[1..]);
      assert octets == [octets[0]] + octets[1..];
    }
  }

  /** Identifiers below 1.2.840. */
  lemma UsDotted(n: nat, arcs: seq<nat>, octets: bytes)
    requires |arcs| == |octets| && forall i :: 0 <= i < |arcs| ==> arcs[i] == octets[i] < 128
    ensures Dotted([1, 2, 840, n] + arcs) == [0x2A, 0x86, 0x48] + Base128Octets(n) + octets
  {
    hide Base128Octets, ArcsOctets;
    LargeArcs();
    SmallTail(arcs, octets);
    LargeArc(n, arcs);
    LargeArc(840, [n] + arcs);
    SmallArc(42, [840] + ([n] + arcs));
    assert [40 * 1 + 2] + ([1, 2, 840, n] + arcs)[2..] == [42] + ([840] + ([n] + arcs));
  }

  /** Identifiers below 1.2.840.113549, RSA Security. */
  lemma RsaDotted(arcs: seq<nat>, octets: bytes)
    requires |arcs| == |octets| && forall i :: 0 <= i < |arcs| ==> arcs[i] == octets[i] < 128
    ensures Dotted([1, 2, 840, 113549] + arcs) == [0x2A, 0x86, 0x48, 0x86, 0xF7, 0x0D] + octets
  {
    hide Base128Octets, Dotted;
    LargeArcs();
    UsDotted(113549, arcs, octets);
  }

  /** Identifiers below 1.2.840.10045, ANSI X9.62, and 1.2.840.10040, X9.57. */
  lemma X9Dotted(arcs: seq<nat>, octets: bytes)
    requires |arcs| == |octets| && forall i :: 0 <= i < |arcs| ==> arcs[i] == octets[i] < 128
    ensures Dotted([1, 2, 840, 10045] + arcs) == [0x2A, 0x86, 0x48, 0xCE, 0x3D] + octets
    ensures Dotted([1, 2, 840, 10040] + arcs) == [0x2A, 0x86, 0x48, 0xCE, 0x38] + octets
  {
    hide Base128Octets, Dotted;
    LargeArcs();
    UsDotted(10045, arcs, octets);
    UsDotted(10040, arcs, octets);
  }

  /** The SHA-2 digests below 2.16.840.1.101.3.4.2, and SHA-1 at 1.3.14.3.2.26. */
  lemma DigestDotted(k: nat)
    requires k < 128
    ensures Dotted([2, 16, 840, 1, 101, 3, 4, 2, k]) == [0x60, 0x86, 0x48, 0x01, 0x65, 0x03, 0x04, 0x02, k]
    ensures Dotted([1, 3, 14, 3, 2, 26]) == [0x2B, 0x0E, 0x03, 0x02, 0x1A]
  {
    hide Base128Octets, ArcsOctets;
    LargeArcs();
    var tail: seq<nat> := [1, 101, 3, 4, 2, k];
    SmallTail(tail, [0x01, 0x65, 0x03, 0x04, 0x02, k]);
    LargeArc(840, tail);
    SmallArc(96, [840] + tail);
    assert [40 * 2 + 16] + [2, 16, 840, 1, 101, 3, 4, 2, k][2..] == [96] + ([840] + tail);
    SmallTail([43, 14, 3, 2, 26], [0x2B, 0x0E, 0x03, 0x02, 0x1A]);
    assert [40 * 1 + 3] + [1, 3, 14, 3, 2, 26][2..] == [43, 14, 3, 2, 26];
  }

  /** Content types and attribute types. */
  lemma TypeTable()
    ensures DATA == Dotted([1, 2, 840, 113549, 1, 7, 1]) && SIGNED_DATA == Dotted([1, 2, 840, 113549, 1, 7, 2])
    ensures TST_INFO == Dotted([1, 2, 840, 113549, 1, 9, 16, 1, 4])
    ensures CONTENT_TYPE == Dotted([1, 2, 840, 113549, 1, 9, 3])
    ensures MESSAGE_DIGEST == Dotted([1, 2, 840, 113549, 1, 9, 4])
    ensures SIGNING_TIME == Dotted([1, 2, 840, 113549, 1, 9, 5])
    ensures TIME_STAMP_TOKEN == Dotted([1, 2, 840, 113549, 1, 9, 16, 2, 14])
  {
    hide Dotted;
    RsaDotted([1, 7, 1], [1, 7, 1]);
    RsaDotted([1, 7, 2], [1, 7, 2]);
    RsaDotted([1, 9, 16, 1, 4], [1, 9, 16, 1, 4]);
    RsaDotted([1, 9, 3], [1, 9, 3]);
    RsaDotted([1, 9, 4], [1, 9, 4]);
    RsaDotted([1, 9, 5], [1, 9, 5]);
    RsaDotted([1, 9, 16, 2, 14], [1, 9, 16, 2, 14]);
    assert [1, 2, 840, 113549] + [1, 7, 1] == [1, 2, 840, 113549, 1, 7, 1];
    assert [1, 2, 840, 113549] + [1, 7, 2] == [1, 2, 840, 113549, 1, 7, 2];
    assert [1, 2, 840, 113549] + [1, 9, 16, 1, 4] == [1, 2, 840, 113549, 1, 9, 16, 1, 4];
    assert [1, 2, 840, 113549] + [1, 9, 3] == [1, 2, 840, 113549, 1, 9, 3];
    assert [1, 2, 840, 113549] + [1, 9, 4] == [1, 2, 840, 113549, 1, 9, 4];
    assert [1, 2, 840, 113549] + [1, 9, 5] == [1, 2, 840, 113549, 1, 9, 5];
    assert [1, 2, 840, 113549] + [1, 9, 16, 2, 14] == [1, 2, 840, 113549, 1, 9, 16, 2, 14];
  }

  /** The digest and the signature algorithm that each hash and key stand for. */
  lemma AlgorithmTable()
    ensures HashToDigest(SHA1) == Dotted([1, 3, 14, 3, 2, 26])
    ensures HashToDigest(MD5) == Dotted([1, 2, 840, 113549, 2, 5])
    ensures HashToDigest(SHA256) == Dotted([2, 16, 840, 1, 101, 3, 4, 2, 1])
    ensures HashToDigest(SHA384) == Dotted([2, 16, 840, 1, 101, 3, 4, 2, 2])
    ensures HashToDigest(SHA512) == Dotted([2, 16, 840, 1, 101, 3, 4, 2, 3])
    ensures SignatureOid(RSA, HashToDigest(MD5)) == Some(Dotted([1, 2, 840, 113549, 1, 1, 4]))
    ensures SignatureOid(RSA, HashToDigest(SHA1)) == Some(Dotted([1, 2, 840, 113549, 1, 1, 5]))
    ensures SignatureOid(RSA, HashToDigest(SHA256)) == Some(Dotted([1, 2, 840, 113549, 1, 1, 11]))
    ensures SignatureOid(RSA, HashToDigest(SHA384)) == Some(Dotted([1, 2, 840, 113549, 1, 1, 12]))
    ensures SignatureOid(RSA, HashToDigest(SHA512)) == Some(Dotted([1, 2, 840, 113549, 1, 1, 13]))
    ensures SignatureOid(ECDSA, HashToDigest(SHA1)) == Some(Dotted([1, 2, 840, 10045, 4, 1]))
    ensures SignatureOid(ECDSA, HashToDigest(SHA256)) == Some(Dotted([1, 2, 840, 10045, 4, 3, 2]))
    ensures SignatureOid(ECDSA, HashToDigest(SHA384)) == Some(Dotted([1, 2, 840, 10045, 4, 3, 3]))
    ensures SignatureOid(ECDSA, HashToDigest(SHA512)) == Some(Dotted([1, 2, 840, 10045, 4, 3, 4]))
    ensures OID_RSA == Dotted([1, 2, 840, 113549, 1, 1, 1]) && OID_ECDSA == Dotted([1, 2, 840, 10045, 2, 1])
    ensures OID_DSA_SHA1 == Dotted([1, 2, 840, 10040, 4, 3])
  {
    hide Dotted, DigestToHash;
    DigestNames();
    RsaAlgorithms();
    X9Algorithms();
  }

  lemma DigestNames()
    ensures HashToDigest(SHA1) == Dotted([1, 3, 14, 3, 2, 26])
    ensures HashToDigest(MD5) == Dotted([1, 2, 840, 113549, 2, 5])
    ensures HashToDigest(SHA256) == Dotted([2, 16, 840, 1, 101, 3, 4, 2, 1])
    ensures HashToDigest(SHA384) == Dotted([2, 16, 840, 1, 101, 3, 4, 2, 2])
    ensures HashToDigest(SHA512) == Dotted([2, 16, 840, 1, 101, 3, 4, 2, 3])
    ensures forall h :: DigestToHash(HashToDigest(h)) == Some(h)
  {
    hide Dotted;
    DigestDotted(1);
    DigestDotted(2);
    DigestDotted(3);
    RsaDotted([2, 5], [2, 5]);
    assert [1, 2, 840, 113549] + [2, 5] == [1, 2, 840, 113549, 2, 5];
    forall h
      ensures DigestToHash(HashToDigest(h)) == Some(h)
    {
      DigestMapsInverse(HashToDigest(h), h);
    }
  }

  lemma RsaAlgorithms()
    ensures OID_RSA == Dotted([1, 2, 840, 113549, 1, 1, 1]) && OID_MD5_RSA == Dotted([1, 2, 840, 113549, 1, 1, 4])
    ensures OID_SHA1_RSA == Dotted([1, 2, 840, 113549, 1, 1, 5])
    ensures OID_SHA256_RSA == Dotted([1, 2, 840, 113549, 1, 1, 11])
    ensures OID_SHA384_RSA == Dotted([1, 2, 840, 113549, 1, 1, 12])
    ensures OID_SHA512_RSA == Dotted([1, 2, 840, 113549, 1, 1, 13])
  {
    hide Dotted;
    forall k: nat | k < 128
      ensures Dotted([1, 2, 840, 113549, 1, 1, k]) == [0x2A, 0x86, 0x48, 0x86, 0xF7, 0x0D, 0x01, 0x01, k]
    {
      RsaDotted([1, 1, k], [1, 1, k]);
      assert [1, 2, 840, 113549] + [1, 1, k] == [1, 2, 840, 113549, 1, 1, k];
    }
  }

  lemma X9Algorithms()
    ensures OID_ECDSA == Dotted([1, 2, 840, 10045, 2, 1]) && OID_DSA_SHA1 == Dotted([1, 2, 840, 10040, 4, 3])
    ensures OID_ECDSA_SHA1 == Dotted([1, 2, 840, 10045, 4, 1])
    ensures OID_ECDSA_SHA256 == Dotted([1, 2, 840, 10045, 4, 3, 2])
    ensures OID_ECDSA_SHA384 == Dotted([1, 2, 840, 10045, 4, 3, 3])
    ensures OID_ECDSA_SHA512 == Dotted([1, 2, 840, 10045, 4, 3, 4])
  {
    hide Dotted;
    X9Dotted([2, 1], [2, 1]);
    X9Dotted([4, 1], [4, 1]);
    X9Dotted([4, 3], [4, 3]);
    assert [1, 2, 840, 10045] + [2, 1] == [1, 2, 840, 10045, 2, 1];
    assert [1, 2, 840, 10045] + [4, 1] == [1, 2, 840, 10045, 4, 1];
    assert [1, 2, 840, 10040] + [4, 3] == [1, 2, 840, 10040, 4, 3];
    forall k: nat | k < 128
      ensures Dotted([1, 2, 840, 10045, 4, 3, k]) == [0x2A, 0x86, 0x48, 0xCE, 0x3D, 0x04, 0x03, k]
    {
      X9Dotted([4, 3, k], [4, 3, k]);
      assert [1, 2, 840, 10045] + [4, 3, k] == [1, 2, 840, 10045, 4, 3, k];
    }
  }
}
