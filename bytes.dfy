/** Byte-level vocabulary shared by the query side and the filter: Java bytes
    seen as unsigned values, Java `int` arithmetic, the unsigned byte-range
    comparison of `org.hbase.async.Bytes.memcmp`, big-endian integers and the
    decimal text `StringBuilder.append(int)` writes. */
module Bytes {

  /** A Java `byte` as `b & 0xFF` sees it. Two Java bytes are equal exactly
      when their unsigned values are. */
  type byte = x: int | 0 <= x < 256

  const TWO32: int := 0x1_0000_0000

  /** The values of a Java `int`. */
  type Int32 = x: int | -0x8000_0000 <= x < 0x8000_0000

  /** Java `int` wrap-around: the `int` congruent to `x` modulo 2^32. */
  function Wrap32(x: int): (r: Int32)
    ensures (r - x) % TWO32 == 0
    ensures -0x8000_0000 <= x < 0x8000_0000 ==> r == x
  {
    var m := x % TWO32;
    if m < 0x8000_0000 then m else m - TWO32
  }

  /** The unsigned reading of an `int`'s 32 bits (`x & 0xFFFFFFFFL`). */
  function Unsigned32(x: Int32): (u: nat)
    ensures u < TWO32 && (u - x) % TWO32 == 0
  {
    if x < 0 then x + TWO32 else x
  }

  /** `Bytes.memcmp(a, b, off, len)`: the unsigned difference of the first
      differing byte in `[off, off + len)`, or 0 when the ranges agree. */
  function MemCmp(a: seq<byte>, b: seq<byte>, off: nat, len: nat): int
    requires off + len <= |a| && off + len <= |b|
    decreases len
  {
    if len == 0 then 0
    else if a[off] != b[off] then a[off] as int - b[off] as int
    else MemCmp(a, b, off + 1, len - 1)
  }

  lemma {:induction false} MemCmpZeroIff(a: seq<byte>, b: seq<byte>, off: nat, len: nat)
    requires off + len <= |a| && off + len <= |b|
    ensures MemCmp(a, b, off, len) == 0 <==> a[off..off + len] == b[off..off + len]
    decreases len
  {
    if len > 0 {
      var sa, sb := a[off..off + len], b[off..off + len];
      assert sa[1..] == a[off + 1..off + len] && sb[1..] == b[off + 1..off + len];
      if a[off] == b[off] {
        MemCmpZeroIff(a, b, off + 1, len - 1);
        if sa[1..] == sb[1..] {
          assert forall i | 0 <= i < len :: sa[i] == sb[i] by {
            forall i | 0 < i < len ensures sa[i] == sb[i] {
              assert sa[i] == sa[1..][i - 1] && sb[i] == sb[1..][i - 1];
            }
          }
        }
      } else {
        assert sa[0] != sb[0];
      }
    }
  }

  lemma {:induction false} MemCmpAntisymmetric(a: seq<byte>, b: seq<byte>, off: nat, len: nat)
    requires off + len <= |a| && off + len <= |b|
    ensures MemCmp(a, b, off, len) == -MemCmp(b, a, off, len)
    decreases len
  {
    if len > 0 && a[off] == b[off] {
      MemCmpAntisymmetric(a, b, off + 1, len - 1);
    }
  }

  lemma {:induction false} MemCmpTransitive(a: seq<byte>, b: seq<byte>, c: seq<byte>, off: nat, len: nat)
    requires off + len <= |a| && off + len <= |b| && off + len <= |c|
    requires MemCmp(a, b, off, len) <= 0 && MemCmp(b, c, off, len) <= 0
    ensures MemCmp(a, c, off, len) <= 0
    ensures MemCmp(a, b, off, len) < 0 || MemCmp(b, c, off, len) < 0 ==> MemCmp(a, c, off, len) < 0
    decreases len
  {
    if len > 0 && a[off] == b[off] && b[off] == c[off] {
      MemCmpTransitive(a, b, c, off + 1, len - 1);
    }
  }

  /** `Bytes.memcmp(a, b)`: unsigned lexicographic order of byte strings,
      a proper prefix first. It is also the order the store keeps row keys
      in. */
  function Lex(a: seq<byte>, b: seq<byte>): int
    decreases |a|
  {
    if a == [] || b == [] then |a| - |b|
    else if a[0] != b[0] then a[0] as int - b[0] as int
    else Lex(a[1..], b[1..])
  }

  /** A common prefix does not change the order. */
  lemma {:induction false} LexCommonPrefix(p: seq<byte>, a: seq<byte>, b: seq<byte>)
    ensures Lex(p + a, p + b) == Lex(a, b)
    decreases |p|
  {
    if p != [] {
      assert (p + a)[0] == p[0] == (p + b)[0];
      assert (p + a)[1..] == p[1..] + a;
      assert (p + b)[1..] == p[1..] + b;
      LexCommonPrefix(p[1..], a, b);
      assert |p + a| > 0 && |p + b| > 0;
      assert Lex(p + a, p + b) == Lex((p + a)[1..], (p + b)[1..]);
    } else {
      assert p + a == a && p + b == b;
    }
  }

  lemma {:induction false} LexAntisymmetricSign(a: seq<byte>, b: seq<byte>)
    ensures Lex(a, b) == -Lex(b, a)
    decreases |a|
  {
    if a != [] && b != [] && a[0] == b[0] {
      LexAntisymmetricSign(a[1..], b[1..]);
    }
  }

  lemma {:induction false} LexTransitive(a: seq<byte>, b: seq<byte>, c: seq<byte>)
    requires Lex(a, b) <= 0 && Lex(b, c) <= 0
    ensures Lex(a, c) <= 0
    ensures Lex(a, b) < 0 || Lex(b, c) < 0 ==> Lex(a, c) < 0
    decreases |a|
  {
    if a != [] && b != [] && c != [] && a[0] == b[0] && b[0] == c[0] {
      LexTransitive(a[1..], b[1..], c[1..]);
    }
  }

  /** On strings of one length the order is `MemCmp` over the whole length. */
  lemma {:induction false} LexSameLength(a: seq<byte>, b: seq<byte>)
    requires |a| == |b|
    ensures Lex(a, b) == MemCmp(a, b, 0, |a|)
    decreases |a|
  {
    if a != [] && a[0] == b[0] {
      LexSameLength(a[1..], b[1..]);
      MemCmpShift(a, b, 1, |a| - 1);
    }
  }

  lemma {:induction false} MemCmpShift(a: seq<byte>, b: seq<byte>, off: nat, len: nat)
    requires 1 <= off && off + len <= |a| && off + len <= |b|
    ensures MemCmp(a, b, off, len) == MemCmp(a[1..], b[1..], off - 1, len)
    decreases len
  {
    if len > 0 && a[off] == b[off] {
      MemCmpShift(a, b, off + 1, len - 1);
    }
  }

  /** The unsigned big-endian number a byte string denotes. */
  function BigEndian(bs: seq<byte>): (n: nat)
    ensures n < Pow256(|bs|)
    decreases |bs|
  {
    if bs == [] then 0
    else
      var hi := BigEndian(bs[..|bs| - 1]);
      assert hi * 256 + bs[|bs| - 1] < Pow256(|bs|) by {
        MulMonotone(hi, Pow256(|bs| - 1) - 1, 256);
      }
      hi * 256 + bs[|bs| - 1]
  }

  lemma MulMonotone(x: nat, y: nat, k: nat)
    requires x <= y
    ensures x * k <= y * k
  {
  }

  function Pow256(n: nat): (p: nat)
    ensures p > 0
  {
    if n == 0 then 1 else 256 * Pow256(n - 1)
  }

  /** The two widths the row layout uses: 2-byte qualifiers, 4-byte times. */
  lemma Pow256Widths()
    ensures Pow256(2) == 0x1_0000 && Pow256(4) == TWO32
  {
    assert Pow256(1) == 256;
    assert Pow256(2) == 0x1_0000;
    assert Pow256(3) == 0x100_0000;
  }

  /** Reading the first byte first gives the same number. */
  lemma {:induction false} BigEndianFront(bs: seq<byte>)
    requires bs != []
    ensures BigEndian(bs) == bs[0] * Pow256(|bs| - 1) + BigEndian(bs[1..])
    decreases |bs|
  {
    if |bs| > 1 {
      var init := bs[..|bs| - 1];
      var tail := bs[1..];
      assert init[1..] == tail[..|tail| - 1];
      assert tail[|tail| - 1] == bs[|bs| - 1];
      BigEndianFront(init);
      assert BigEndian(tail) == BigEndian(init[1..]) * 256 + bs[|bs| - 1];
      Regroup(bs[0], Pow256(|bs| - 2), BigEndian(init[1..]), bs[|bs| - 1]);
    } else {
      assert bs[..0] == [] && bs[1..] == [];
    }
  }

  lemma Regroup(x: int, p: int, r: int, c: int)
    ensures (x * p + r) * 256 + c == x * (256 * p) + (r * 256 + c)
  {
  }

  /** A larger leading digit outweighs whatever follows it. */
  lemma LeadingDigitDominates(x: nat, y: nat, p: nat, r: nat, s: nat)
    requires x < y && r < p
    ensures x * p + r < y * p + s
  {
    MulMonotone(x + 1, y, p);
  }

  /** On strings of one length, the byte order is the numeric order. */
  lemma {:induction false} LexIsNumericOrder(a: seq<byte>, b: seq<byte>)
    requires |a| == |b|
    ensures Lex(a, b) < 0 <==> BigEndian(a) < BigEndian(b)
    ensures Lex(a, b) == 0 <==> a == b
    decreases |a|
  {
    if a != [] {
      var p := Pow256(|a| - 1);
      BigEndianFront(a);
      BigEndianFront(b);
      var ra, rb := BigEndian(a[1..]), BigEndian(b[1..]);
      if a[0] == b[0] {
        LexIsNumericOrder(a[1..], b[1..]);
        assert a == [a[0]] + a[1..] && b == [b[0]] + b[1..];
      } else if a[0] < b[0] {
        LeadingDigitDominates(a[0], b[0], p, ra, rb);
      } else {
        LeadingDigitDominates(b[0], a[0], p, rb, ra);
      }
    }
  }

  /** The `len` low-order bytes of `n`, most significant first. */
  function BigEndianBytes(n: nat, len: nat): (bs: seq<byte>)
    ensures |bs| == len
    ensures BigEndian(bs) == n % Pow256(len)
    decreases len
  {
    if len == 0 then []
    else
      var hi := BigEndianBytes(n / 256, len - 1);
      var bs := hi + [n % 256];
      assert bs[..|bs| - 1] == hi;
      DigitSplit(n, Pow256(len - 1));
      bs
  }

  /** Peeling the last base-256 digit off `n` commutes with reduction. */
  lemma DigitSplit(n: nat, m: nat)
    requires m > 0
    ensures (n / 256) % m * 256 + n % 256 == n % (256 * m)
  {
    var q, r := n / 256, n % 256;
    var k, s := q / m, q % m;
    assert n == 256 * m * k + (256 * s + r) by {
      assert n == 256 * q + r;
      assert q == m * k + s;
    }
    assert 0 <= 256 * s + r < 256 * m;
    ModOfDecomposition(n, 256 * m, k, 256 * s + r);
  }

  lemma ModOfDecomposition(n: int, d: int, k: int, t: int)
    requires d > 0 && 0 <= t < d && n == d * k + t
    ensures n % d == t
  {
    var q, r := n / d, n % d;
    assert d * (q - k) == t - r;
    if q - k >= 1 {
      MulAtLeast(d, q - k);
    } else if q - k <= -1 {
      MulAtLeast(d, k - q);
    }
  }

  /** A positive number times a positive whole number is at least the
      number; stated apart because `ModOfDecomposition` needs it in a branch
      that the arithmetic rules out. */
  lemma MulAtLeast(d: int, e: int)
    requires d > 0 && e >= 1
    ensures d * e >= d
  {
  }

  /** `Bytes.setInt`: the four big-endian bytes of an `int`'s low 32 bits. */
  function BE32(x: int): (r: seq<byte>)
    ensures |r| == 4 && BigEndian(r) == x % TWO32
  {
    Pow256Widths();
    BigEndianBytes(x % TWO32, 4)
  }

  /** Java `(short)` narrowing: the `short` congruent to `x` modulo 2^16. */
  function Wrap16(x: int): (r: int)
    ensures -0x8000 <= r < 0x8000 && (r - x) % 0x1_0000 == 0
    ensures -0x8000 <= x < 0x8000 ==> r == x
  {
    var m := x % 0x1_0000;
    if m < 0x8000 then m else m - 0x1_0000
  }

  /** The text `StringBuilder.append(int)` writes: an optional minus sign,
      then the decimal digits of the magnitude. */
  function IntText(x: int): string {
    if x < 0 then "-" + Decimal(-x) else Decimal(x)
  }

  /** Decimal digits of `n`, as `StringBuilder.append` writes a non-negative int. */
  function Decimal(n: nat): (s: string)
    ensures |s| > 0
    ensures forall i :: 0 <= i < |s| ==> '0' <= s[i] <= '9'
  {
    if n < 10 then [Digit(n)] else Decimal(n / 10) + [Digit(n % 10)]
  }

  function Digit(d: nat): (c: char)
    requires d < 10
    ensures '0' <= c <= '9'
  {
    ['0', '1', '2', '3', '4', '5', '6', '7', '8', '9'][d]
  }
}
