/** Division, bytes and integers in network order. */
module Arithmetic {
  import opened Basics

  type Bytes = seq<Byte>

  lemma DivisionSplits(n: nat, d: nat)
    requires d >= 1
    ensures n == d * (n / d) + n % d && 0 <= n % d < d
  {}

  lemma Gap(d: nat, a: int, b: int)
    requires d >= 1 && a < b
    ensures d * b >= d * a + d
  {
    var k := b - a - 1;
    assert d * k >= 0;
    assert d * b == d * (a + 1 + k);
  }

  lemma QuotientIs(n: nat, d: nat, q: nat, r: nat)
    requires d >= 1 && n == d * q + r && r < d
    ensures n / d == q
  {
    var p := n / d;
    DivisionSplits(n, d);
    assert d * p + n % d == d * q + r;
    if p < q {
      Gap(d, p, q);
      assert false;
    } else if p > q {
      Gap(d, q, p);
      assert false;
    }
  }

  lemma Distribute(a: int, b: int, q: int, r: int)
    ensures a * (b * q + r) == (a * b) * q + a * r
  {}

  lemma DivDiv(n: nat, a: nat, b: nat)
    requires a >= 1 && b >= 1
    ensures a * b >= 1 && n / a / b == n / (a * b)
  {
    var m := n / a;
    var q, r, r0 := m / b, m % b, n % a;
    DivisionSplits(n, a);
    DivisionSplits(m, b);
    Gap(a, r, b);
    Distribute(a, b, q, r);
    assert a * b >= 1;
    QuotientIs(n, a * b, q, a * r + r0);
  }

  // ---------------------------------------------------------------- network order

  /** The low `8 * count` bits of `n`, most significant byte first. */
  function BigEndian(n: nat, count: nat): (bytes: Bytes)
    ensures |bytes| == count
    decreases count, n
  {
    if count == 0 then [] else BigEndian(n / 256, count - 1) + [n % 256]
  }

  function FromBigEndian(bytes: Bytes): nat {
    if bytes == [] then 0 else 256 * FromBigEndian(bytes[..|bytes| - 1]) + bytes[|bytes| - 1]
  }

  function Power256(k: nat): (p: nat)
    ensures p >= 1
  {
    if k == 0 then 1 else 256 * Power256(k - 1)
  }

  lemma {:induction false} BigEndianReadsBack(n: nat, count: nat)
    requires n < Power256(count)
    ensures FromBigEndian(BigEndian(n, count)) == n
  {
    if count > 0 {
      BigEndianReadsBack(n / 256, count - 1);
      assert BigEndian(n, count)[..count - 1] == BigEndian(n / 256, count - 1);
    }
  }

  lemma {:induction false} BigEndianAt(n: nat, count: nat, k: nat)
    requires k < count
    ensures BigEndian(n, count)[k] == (n / Power256(count - 1 - k)) % 256
  {
    if k < count - 1 {
      BigEndianAt(n / 256, count - 1, k);
      DivDiv(n, 256, Power256(count - 2 - k));
    }
  }

  lemma TwoBytes(n: nat)
    ensures BigEndian(n, 2) == [(n / 256) % 256, n % 256]
    ensures n < 65536 ==> FromBigEndian([(n / 256) % 256, n % 256]) == n
  {
    assert BigEndian(n / 256, 1) == [] + [(n / 256) % 256];
    assert Power256(2) == 65536;
    if n < 65536 {
      BigEndianReadsBack(n, 2);
    }
  }

  lemma FromTwoBytes(high: Byte, low: Byte)
    ensures FromBigEndian([high, low]) == 256 * (high as int) + low
  {
    assert [high, low][..1] == [high] && [high][..0] == [];
    assert FromBigEndian([high]) == high;
  }

  lemma EightBytes(n: nat)
    requires n < 0x1_0000_0000_0000_0000
    ensures FromBigEndian(BigEndian(n, 8)) == n
  {
    assert Power256(4) == 0x1_0000_0000;
    assert Power256(6) == 0x1_0000_0000_0000;
    assert Power256(8) == 0x1_0000_0000_0000_0000;
    BigEndianReadsBack(n, 8);
  }

  /** The byte order, on one value. */
  lemma BigEndianExample()
    ensures BigEndian(0x0102_0304_0506_0708, 8) == [1, 2, 3, 4, 5, 6, 7, 8]
    ensures FromBigEndian([1, 2, 3]) == 0x01_0203
  {
    var n := 0x0102_0304_0506_0708;
    assert Power256(4) == 0x1_0000_0000;
    BigEndianAt(n, 8, 0);
    BigEndianAt(n, 8, 1);
    BigEndianAt(n, 8, 2);
    BigEndianAt(n, 8, 3);
    BigEndianAt(n, 8, 4);
    BigEndianAt(n, 8, 5);
    BigEndianAt(n, 8, 6);
    BigEndianAt(n, 8, 7);
    assert [1, 2, 3][..2] == [1, 2] && [1, 2][..1] == [1] && [1][..0] == [];
  }
}
