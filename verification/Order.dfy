/**
 * bytes.Compare, sorting by it, and the order of DER encodings (X.690 section 11.6).
 */
module Order {
  import opened Bytes
  import opened Lengths
  import opened NormalForm

  /** `bytes.Compare(a, b) <= 0`. */
  predicate Leq(a: bytes, b: bytes)
    decreases |a|
  {
    a == [] || (b != [] && (a[0] < b[0] || (a[0] == b[0] && Leq(a[1..], b[1..]))))
  }

  /** `bytes.Compare(a, b) < 0`. */
  predicate Less(a: bytes, b: bytes) {
    !Leq(b, a)
  }

  lemma {:induction false} LeqReflexive(a: bytes)
    ensures Leq(a, a)
    decreases |a|
  {
    if a == [] {
    } else {
      LeqReflexive(a[1..]);
    }
  }

  lemma {:induction false} LeqTotal(a: bytes, b: bytes)
    ensures Leq(a, b) || Leq(b, a)
    decreases |a|
  {
    if a == [] || b == [] || a[0] != b[0] {
    } else {
      LeqTotal(a[1..], b[1..]);
    }
  }

  lemma {:induction false} LeqAntisymmetric(a: bytes, b: bytes)
    requires Leq(a, b) && Leq(b, a)
    ensures a == b
    decreases |a|
  {
    if a == [] {
    } else {
      LeqAntisymmetric(a[1..], b[1..]);
      assert a == [a[0]] + a[1..] && b == [b[0]] + b[1..];
    }
  }

  lemma {:induction false} LeqTransitive(a: bytes, b: bytes, c: bytes)
    requires Leq(a, b) && Leq(b, c)
    ensures Leq(a, c)
    decreases |a|
  {
    if a == [] || a[0] != b[0] || b[0] != c[0] {
    } else {
      LeqTransitive(a[1..], b[1..], c[1..]);
    }
  }

  lemma {:induction false} LeqSamePrefix(p: bytes, x: bytes, y: bytes)
    ensures Leq(p + x, p + y) <==> Leq(x, y)
    decreases |p|
  {
    if p == [] {
      assert p + x == x && p + y == y;
    } else {
      assert (p + x)[1..] == p[1..] + x && (p + y)[1..] == p[1..] + y;
      LeqSamePrefix(p[1..], x, y);
    }
  }

  // ---------------------------------------------------------------- first difference

  /** `a` is below `b` at a position both have, so anything may follow either. */
  predicate Below(a: bytes, b: bytes)
    decreases |a|
  {
    a != [] && b != [] && (a[0] < b[0] || (a[0] == b[0] && Below(a[1..], b[1..])))
  }

  lemma {:induction false} BelowLess(a: bytes, b: bytes, x: bytes, y: bytes)
    requires Below(a, b)
    ensures Less(a + x, b + y) && Leq(a + x, b + y)
    decreases |a|
  {
    assert (a + x)[1..] == a[1..] + x && (b + y)[1..] == b[1..] + y;
    if a[0] != b[0] {
    } else {
      BelowLess(a[1..], b[1..], x, y);
    }
  }

  lemma {:induction false} BelowAfterPrefix(p: bytes, a: bytes, b: bytes)
    requires Below(a, b)
    ensures Below(p + a, p + b)
    decreases |p|
  {
    if p == [] {
      assert p + a == a && p + b == b;
    } else {
      assert (p + a)[1..] == p[1..] + a && (p + b)[1..] == p[1..] + b;
      BelowAfterPrefix(p[1..], a, b);
    }
  }

  lemma {:induction false} BelowExtend(a: bytes, b: bytes, x: bytes, y: bytes)
    requires Below(a, b)
    ensures Below(a + x, b + y)
    decreases |a|
  {
    assert (a + x)[1..] == a[1..] + x && (b + y)[1..] == b[1..] + y;
    if a[0] != b[0] {
    } else {
      BelowExtend(a[1..], b[1..], x, y);
    }
  }

  // ---------------------------------------------------------------- DER lengths keep numeric order

  lemma {:induction false} DigitsOrdered(m: nat, n: nat, k: nat)
    requires m < n < Pow256(k)
    ensures Below(BigEndian(m, k), BigEndian(n, k))
  {
    if k == 0 {
    } else {
      var p, q := BigEndian(m / 256, k - 1), BigEndian(n / 256, k - 1);
      if m / 256 < n / 256 {
        DigitsOrdered(m / 256, n / 256, k - 1);
        BelowExtend(p, q, [m % 256], [n % 256]);
      } else {
        BelowAfterPrefix(p, [m % 256], [n % 256]);
      }
    }
  }

  lemma {:induction false} OctetCountMonotone(m: nat, n: nat)
    requires m <= n
    ensures OctetCount(m) <= OctetCount(n)
    decreases n
  {
    if m <= 255 {
    } else {
      OctetCountMonotone(m / 256, n / 256);
    }
  }

  /** DER length octets compare as the lengths do. */
  lemma LengthsOrdered(m: nat, n: nat)
    requires m < n < GO_INT_LIMIT
    ensures Below(EncodeLength(m), EncodeLength(n))
  {
    IntOctetCount(m);
    IntOctetCount(n);
    if n >= 128 && m >= 128 {
      var j, k := OctetCount(m), OctetCount(n);
      OctetCountMonotone(m, n);
      if j == k {
        OctetCountLeast(n, k);
        DigitsOrdered(m, n, k);
        BelowAfterPrefix([128 + k], BigEndian(m, k), BigEndian(n, k));
      }
    }
  }

  /** Of two TLVs with the same identifier and different lengths the shorter comes first. */
  lemma ShorterFirst(id: bytes, a: bytes, b: bytes)
    requires |a| < |b| < GO_INT_LIMIT
    ensures Leq(Tlv(id, a), Tlv(id, b)) && !Leq(Tlv(id, b), Tlv(id, a))
  {
    hide Leq, Below, EncodeLength;
    LengthsOrdered(|a|, |b|);
    BelowAfterPrefix(id, EncodeLength(|a|), EncodeLength(|b|));
    BelowLess(id + EncodeLength(|a|), id + EncodeLength(|b|), a, b);
  }

  /** TLVs with the same identifier and the same length compare as their contents. */
  lemma SameLengthByContent(id: bytes, a: bytes, b: bytes)
    requires |a| == |b|
    ensures Leq(Tlv(id, a), Tlv(id, b)) <==> Leq(a, b)
  {
    hide Leq, EncodeLength;
    LeqSamePrefix(id + EncodeLength(|a|), a, b);
  }

  /** The octets of a TLV grow with its content. */
  lemma LongerTlv(id: bytes, a: bytes, b: bytes)
    requires |a| < |b|
    ensures |Tlv(id, a)| < |Tlv(id, b)|
  {
    OctetCountMonotone(|a|, |b|);
  }

  // ---------------------------------------------------------------- sorting

  predicate Sorted(xs: seq<bytes>) {
    forall i, j :: 0 <= i < j < |xs| ==> Leq(xs[i], xs[j])
  }

  /** Places `x` after every element not above it. */
  function Insert(xs: seq<bytes>, x: bytes): (r: seq<bytes>)
    ensures |r| == |xs| + 1
  {
    if xs == [] || Less(x, xs[|xs| - 1]) then
      if xs == [] then [x] else Insert(xs[..|xs| - 1], x) + [xs[|xs| - 1]]
    else xs + [x]
  }

  function Sort(xs: seq<bytes>): (r: seq<bytes>)
    ensures |r| == |xs|
  {
    if xs == [] then [] else Insert(Sort(xs[..|xs| - 1]), xs[|xs| - 1])
  }

  lemma {:induction false} InsertMultiset(xs: seq<bytes>, x: bytes)
    ensures multiset(Insert(xs, x)) == multiset(xs) + multiset{x}
  {
    if xs == [] || !Less(x, xs[|xs| - 1]) {
    } else {
      InsertMultiset(xs[..|xs| - 1], x);
      assert xs == xs[..|xs| - 1] + [xs[|xs| - 1]];
    }
  }

  lemma {:induction false} InsertSorted(xs: seq<bytes>, x: bytes)
    requires Sorted(xs)
    ensures Sorted(Insert(xs, x))
  {
    hide Leq;
    if xs == [] {
    } else if Less(x, xs[|xs| - 1]) {
      var front, last := xs[..|xs| - 1], xs[|xs| - 1];
      InsertSorted(front, x);
      InsertMultiset(front, x);
      LeqTotal(x, last);
      var ys := Insert(front, x);
      forall i | 0 <= i < |ys|
        ensures Leq(ys[i], last)
      {
        assert ys[i] in multiset(ys);
        assert ys[i] in multiset(front) || ys[i] == x;
      }
    } else {
      forall i | 0 <= i < |xs|
        ensures Leq(xs[i], x)
      {
        if i < |xs| - 1 {
          LeqTransitive(xs[i], xs[|xs| - 1], x);
        }
      }
    }
  }

  /** Sort is a sorted permutation. */
  lemma {:induction false} SortIsSorted(xs: seq<bytes>)
    ensures Sorted(Sort(xs)) && multiset(Sort(xs)) == multiset(xs)
  {
    hide Insert, Leq;
    if xs == [] {
    } else {
      SortIsSorted(xs[..|xs| - 1]);
      InsertSorted(Sort(xs[..|xs| - 1]), xs[|xs| - 1]);
      InsertMultiset(Sort(xs[..|xs| - 1]), xs[|xs| - 1]);
      assert xs == xs[..|xs| - 1] + [xs[|xs| - 1]];
    }
  }

  lemma HeadLeast(xs: seq<bytes>, x: bytes)
    requires Sorted(xs) && x in multiset(xs)
    ensures xs != [] && Leq(xs[0], x)
  {
    hide Leq;
    assert x in xs;
    var j :| 0 <= j < |xs| && xs[j] == x;
    LeqReflexive(x);
  }

  lemma TailMultiset<T>(xs: seq<T>)
    requires xs != []
    ensures multiset(xs[1..]) == multiset(xs) - multiset{xs[0]}
  {
    assert xs == [xs[0]] + xs[1..];
  }

  /** There is one sorted arrangement of a collection of encodings, however it is computed. */
  lemma {:induction false} SortedUnique(xs: seq<bytes>, ys: seq<bytes>)
    requires Sorted(xs) && Sorted(ys) && multiset(xs) == multiset(ys)
    ensures xs == ys
  {
    hide Leq;
    if xs == [] {
      assert |multiset(ys)| == |ys|;
    } else {
      assert xs[0] in multiset(xs);
      HeadLeast(ys, xs[0]);
      assert ys[0] in multiset(ys);
      HeadLeast(xs, ys[0]);
      LeqAntisymmetric(xs[0], ys[0]);
      TailMultiset(xs);
      TailMultiset(ys);
      SortedUnique(xs[1..], ys[1..]);
      assert xs == [xs[0]] + xs[1..] && ys == [ys[0]] + ys[1..];
    }
  }

  /** Sorting leaves a sequence alone exactly when it is sorted already. */
  lemma SortFixed(xs: seq<bytes>)
    ensures Sort(xs) == xs <==> Sorted(xs)
  {
    hide Sort, Leq;
    SortIsSorted(xs);
    if Sorted(xs) {
      SortedUnique(xs, Sort(xs));
    }
  }

  // ---------------------------------------------------------------- sorting values by an encoding

  function Mapped<T, U>(xs: seq<T>, f: T -> U): (ys: seq<U>)
    ensures |ys| == |xs| && forall i :: 0 <= i < |xs| ==> ys[i] == f(xs[i])
  {
    seq(|xs|, i requires 0 <= i < |xs| => f(xs[i]))
  }

  function InsertBy<T>(xs: seq<T>, x: T, key: T -> bytes): (r: seq<T>)
    ensures |r| == |xs| + 1
  {
    if xs == [] then [x]
    else if Less(key(x), key(xs[|xs| - 1])) then InsertBy(xs[..|xs| - 1], x, key) + [xs[|xs| - 1]]
    else xs + [x]
  }

  function SortBy<T>(xs: seq<T>, key: T -> bytes): (r: seq<T>)
    ensures |r| == |xs|
  {
    if xs == [] then [] else InsertBy(SortBy(xs[..|xs| - 1], key), xs[|xs| - 1], key)
  }

  lemma {:induction false} InsertByKeys<T>(xs: seq<T>, x: T, key: T -> bytes)
    ensures Mapped(InsertBy(xs, x, key), key) == Insert(Mapped(xs, key), key(x))
    ensures multiset(InsertBy(xs, x, key)) == multiset(xs) + multiset{x}
  {
    hide Leq;
    if xs == [] {
    } else {
      var front, last := xs[..|xs| - 1], xs[|xs| - 1];
      assert xs == front + [last];
      assert Mapped(xs, key)[..|xs| - 1] == Mapped(front, key);
      InsertByKeys(front, x, key);
    }
  }

  /** Sorting values by their encodings and sorting the encodings give the same octets. */
  lemma {:induction false} SortByKeys<T>(xs: seq<T>, key: T -> bytes)
    ensures Mapped(SortBy(xs, key), key) == Sort(Mapped(xs, key))
    ensures multiset(SortBy(xs, key)) == multiset(xs)
  {
    hide Insert, InsertBy;
    if xs == [] {
    } else {
      var front, last := xs[..|xs| - 1], xs[|xs| - 1];
      assert xs == front + [last];
      assert Mapped(xs, key)[..|xs| - 1] == Mapped(front, key);
      SortByKeys(front, key);
      InsertByKeys(SortBy(front, key), last, key);
    }
  }

  function Flatten(ks: seq<bytes>): bytes {
    if ks == [] then [] else ks[0] + Flatten(ks[1..])
  }

  lemma {:induction false} FlattenPart(ks: seq<bytes>, i: nat)
    requires i < |ks|
    ensures |ks[i]| <= |Flatten(ks)|
  {
    if i == 0 {
    } else {
      FlattenPart(ks[1..], i - 1);
    }
  }
}
