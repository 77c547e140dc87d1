/**
 * Length octets (ITU-T X.690, sections 8.1.3 and 10.1): the printer of ber.go, the reader's
 * base-256 loop, and the facts that tie them together.
 */
module Lengths {
  import opened Bytes

  const MAX_READABLE := 0x8000_0000

  function Pow256(k: nat): (p: nat)
    ensures p >= 1
  {
    if k == 0 then 1 else 256 * Pow256(k - 1)
  }

  /** Big-endian base-256 digits of `n`, exactly `k` of them, higher digits dropped. */
  function BigEndian(n: nat, k: nat): (ds: bytes)
    ensures |ds| == k
  {
    if k == 0 then [] else BigEndian(n / 256, k - 1) + [n % 256]
  }

  function FromBigEndian(ds: bytes): nat {
    if ds == [] then 0 else 256 * FromBigEndian(ds[..|ds| - 1]) + ds[|ds| - 1]
  }

  /** The octet count computed by lengthLength. */
  function OctetCount(n: nat): (k: nat)
    ensures k >= 1
  {
    if n <= 255 then 1 else 1 + OctetCount(n / 256)
  }

  /** `0x80 | byte(l)`. */
  function WithHighBit(l: nat): byte {
    if l % 256 >= 128 then l % 256 else 128 + l % 256
  }

  /** The octets encodeLength writes. */
  function EncodeLength(n: nat): (ds: bytes)
    ensures |ds| >= 1
  {
    if n >= 128 then [WithHighBit(OctetCount(n))] + BigEndian(n, OctetCount(n)) else [n]
  }

  // ---------------------------------------------------------------- base 256

  lemma {:induction false} BigEndianValue(n: nat, k: nat)
    requires n < Pow256(k)
    ensures FromBigEndian(BigEndian(n, k)) == n
  {
    if k == 0 {
    } else {
      BigEndianValue(n / 256, k - 1);
      assert BigEndian(n, k)[..k - 1] == BigEndian(n / 256, k - 1);
    }
  }

  lemma {:induction false} FromBigEndianBound(ds: bytes)
    ensures FromBigEndian(ds) < Pow256(|ds|)
  {
    if ds == [] {
    } else {
      FromBigEndianBound(ds[..|ds| - 1]);
    }
  }

  lemma {:induction false} BigEndianOfValue(ds: bytes)
    ensures BigEndian(FromBigEndian(ds), |ds|) == ds
  {
    if ds == [] {
    } else {
      BigEndianOfValue(ds[..|ds| - 1]);
      assert ds == ds[..|ds| - 1] + [ds[|ds| - 1]];
    }
  }

  /** A digit string whose first digit is not zero is as long as its value needs. */
  lemma {:induction false} NoLeadingZeroCount(ds: bytes)
    requires ds != [] && ds[0] != 0
    ensures OctetCount(FromBigEndian(ds)) == |ds| && FromBigEndian(ds) >= 1
  {
    if |ds| > 1 {
      var front := ds[..|ds| - 1];
      NoLeadingZeroCount(front);
      assert FromBigEndian(ds) / 256 == FromBigEndian(front);
    } else {
      assert FromBigEndian(ds[..0]) == 0;
    }
  }

  /** lengthLength is the least octet count whose range holds `n`. */
  lemma {:induction false} OctetCountLeast(n: nat, k: nat)
    requires k >= 1
    ensures n < Pow256(OctetCount(n))
    ensures n < Pow256(k) <==> OctetCount(n) <= k
  {
    if n > 255 {
      OctetCountLeast(n / 256, if k > 1 then k - 1 else 1);
    }
    assert Pow256(1) == 256 * Pow256(0);
    if n <= 255 {
      PowMonotone(1, k);
    } else if k == 1 {
    } else {
      assert n / 256 < Pow256(k - 1) <==> n < Pow256(k);
    }
  }

  lemma {:induction false} PowMonotone(i: nat, j: nat)
    requires i <= j
    ensures Pow256(i) <= Pow256(j)
    decreases j
  {
    if i == j {
    } else {
      PowMonotone(i, j - 1);
    }
  }

  /** The digits written for a long length carry no leading zero. */
  lemma {:induction false} FirstDigit(n: nat)
    requires n >= 1
    ensures BigEndian(n, OctetCount(n))[0] != 0
  {
    if n > 255 {
      FirstDigit(n / 256);
    } else {
      assert BigEndian(n / 256, 0) == [];
    }
  }

  /** The octet that the shift loop of marshalLongLength writes at position `j`. */
  lemma {:induction false} DigitAt(n: nat, k: nat, j: nat)
    requires j < k
    ensures BigEndian(n, k)[j] == (n / Pow256(k - 1 - j)) % 256
  {
    if j == k - 1 {
    } else {
      DigitAt(n / 256, k - 1, j);
      DivDiv(n, Pow256(k - 2 - j));
    }
  }

  lemma DivDiv(n: nat, p: nat)
    requires p >= 1
    ensures (n / 256) / p == n / (256 * p)
  {
    var q := n / 256;
    var r := q / p;
    assert n == 256 * q + n % 256 && q == p * r + q % p;
    DivUnique(n, 256 * p, r, 256 * (q % p) + n % 256);
  }

  lemma DivUnique(n: nat, d: nat, q: nat, r: nat)
    requires d >= 1 && n == d * q + r && r < d
    ensures n / d == q
  {
    var q' := n / d;
    assert n == d * q' + n % d;
    if q' < q {
      assert d * (q - q') >= d by { MulAtLeast(d, q - q'); }
    } else if q < q' {
      assert d * (q' - q) >= d by { MulAtLeast(d, q' - q); }
    }
  }

  lemma MulAtLeast(d: nat, m: nat)
    requires m >= 1
    ensures d * m >= d
  {
  }

  lemma SmallOctetCount(n: nat)
    requires n < MAX_READABLE
    ensures OctetCount(n) <= 4
    ensures WithHighBit(OctetCount(n)) == 128 + OctetCount(n)
  {
    OctetCountLeast(n, 4);
    assert Pow256(4) == 0x1_0000_0000 by {
      assert Pow256(1) == 256;
      assert Pow256(2) == 65536;
      assert Pow256(3) == 16777216;
    }
  }

  // ---------------------------------------------------------------- the printer as written

  /** lengthLength (ber.go:92-99). */
  method LengthLength(n: nat) returns (numBytes: nat)
    ensures numBytes == OctetCount(n)
    ensures n < Pow256(numBytes) && (numBytes > 1 ==> n >= Pow256(numBytes - 1))
  {
    numBytes := 1;
    var i := n;
    while i > 255
      invariant numBytes >= 1 && numBytes - 1 + OctetCount(i) == OctetCount(n)
    {
      numBytes := numBytes + 1;
      i := i / 256;
    }
    OctetCountLeast(n, numBytes);
    if numBytes > 1 {
      OctetCountLeast(n, numBytes - 1);
    }
  }

  /** marshalLongLength (ber.go:78-89): most significant digit first, one shift per octet. */
  method MarshalLongLength(out: Buffer, i: nat)
    modifies out
    ensures out.data == old(out.data) + BigEndian(i, OctetCount(i))
  {
    var count := LengthLength(i);
    var n := count;
    ghost var digits := BigEndian(i, count);
    assert digits[..0] == [];
    while n > 0
      invariant n <= count
      invariant out.data == old(out.data) + digits[..count - n]
    {
      DigitAt(i, count, count - n);
      out.WriteByte((i / Pow256(n - 1)) % 256);
      assert digits[..count - n + 1] == digits[..count - n] + [digits[count - n]];
      n := n - 1;
    }
    assert digits[..count] == digits;
  }

  /** encodeLength (ber.go:115-133). */
  method WriteLength(out: Buffer, length: nat)
    modifies out
    ensures out.data == old(out.data) + EncodeLength(length)
  {
    hide BigEndian, OctetCount, Pow256;
    if length >= 128 {
      var l := LengthLength(length);
      out.WriteByte(WithHighBit(l));
      MarshalLongLength(out, length);
    } else {
      out.WriteByte(length);
    }
  }
}
