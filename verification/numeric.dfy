/** Integer helpers shared by the bytecode model: bytes, powers of two, Python's
    `int.bit_length`, and the division facts behind shifting and masking.

    Python's `n >> k` is `n / Pow2(k)` and `n & (2^k - 1)` is `n % Pow2(k)` in
    Dafny, for every integer `n`: both floor toward minus infinity, and Dafny's
    Euclidean `/` and `%` agree with flooring whenever the divisor is positive.
 */
module Numeric {

  /** One byte of a bytecode buffer or of an encoded table. */
  type Byte = b: int | 0 <= b < 256

  function Abs(n: int): (r: nat)
    ensures r == n || r == -n
  {
    if n < 0 then -n else n
  }

  function Max(a: int, b: int): (r: int)
    ensures r >= a && r >= b
    ensures r == a || r == b
  {
    if a < b then b else a
  }

  /** Python's `v & 0xFF`: the low byte of `v`, two's complement for negative `v`. */
  function LowByte(v: int): (r: Byte)
    ensures 0 <= v < 256 ==> r == v
    ensures -256 <= v < 0 ==> r == v + 256
  {
    v % 256
  }

  /** A byte read as a C `signed char`. */
  function Signed(b: Byte): (r: int)
    ensures -128 <= r < 128
    ensures r % 256 == b % 256
  {
    if b >= 128 then b - 256 else b
  }

  /** The two agree on the signed byte range: `Signed` undoes `LowByte`. */
  lemma SignedLowByte(v: int)
    requires -128 <= v < 128
    ensures Signed(LowByte(v)) == v
  {
  }

  /** A table of byte pairs whose first byte says how far each pair
      advances through the code (`co_lnotab`, `co_linetable` in 3.10): the
      total advance. */
  function LengthSum(t: seq<Byte>): int
    decreases |t|
  {
    if |t| < 2 then 0 else t[0] + LengthSum(t[2..])
  }

  lemma {:induction false} LengthSumAppend(a: seq<Byte>, b: seq<Byte>)
    requires |a| % 2 == 0
    ensures LengthSum(a + b) == LengthSum(a) + LengthSum(b)
    decreases |a|
  {
    if a == [] {
      assert a + b == b;
    } else {
      assert (a + b)[2..] == a[2..] + b;
      LengthSumAppend(a[2..], b);
    }
  }

  function Pow2(k: nat): (r: nat)
    ensures r >= 1
  {
    if k == 0 then 1 else 2 * Pow2(k - 1)
  }

  lemma {:induction false} Pow2Add(a: nat, b: nat)
    ensures Pow2(a + b) == Pow2(a) * Pow2(b)
    decreases a
  {
    if a > 0 {
      Pow2Add(a - 1, b);
      assert Pow2(a + b) == 2 * Pow2(a - 1 + b);
    }
  }

  lemma {:induction false} Pow2Monotone(a: nat, b: nat)
    requires a <= b
    ensures Pow2(a) <= Pow2(b)
    decreases b - a
  {
    if a < b {
      Pow2Monotone(a, b - 1);
    }
  }

  /** Python's `int.bit_length()` of a non-negative integer. */
  function BitLength(n: nat): nat
  {
    if n == 0 then 0 else 1 + BitLength(n / 2)
  }

  /** The number of bits is at most `k` exactly when the value is below `2^k`. */
  lemma {:induction false} BitLengthBound(n: nat, k: nat)
    ensures BitLength(n) <= k <==> n < Pow2(k)
    decreases k
  {
    if k > 0 && n > 0 {
      BitLengthBound(n / 2, k - 1);
    }
  }

  /** Sums and differences of even numbers are even. */
  lemma EvenSum(a: int, b: int)
    requires a % 2 == 0 && b % 2 == 0
    ensures (a + b) % 2 == 0 && (a - b) % 2 == 0
  {
  }

  /** Dividing twice is dividing by the product. */
  lemma DivDiv(n: int, a: int, b: int)
    requires a > 0 && b > 0
    ensures n / (a * b) == (n / a) / b
  {
    var q := n / a;
    var r := n % a;
    var q2 := q / b;
    var r2 := q % b;
    assert n == a * q + r;
    assert q == b * q2 + r2;
    assert n == (a * b) * q2 + (a * r2 + r) by {
      calc {
        n;
        a * (b * q2 + r2) + r;
        { MulDistributes(a, b * q2, r2); }
        a * (b * q2) + a * r2 + r;
        (a * b) * q2 + (a * r2 + r);
      }
    }
    assert a * r2 <= a * (b - 1) by { MulMonotone(a, r2, b - 1); }
    assert a * (b - 1) == a * b - a by { MulDistributes(a, b, -1); }
    DivUnique(n, a * b, q2, a * r2 + r);
  }

  lemma MulDistributes(a: int, b: int, c: int)
    ensures a * (b + c) == a * b + a * c
  {
  }

  lemma MulMonotone(a: nat, x: int, y: int)
    requires x <= y
    ensures a * x <= a * y
  {
    MulDistributes(a, x, y - x);
  }

  /** Euclidean division has a unique quotient. */
  lemma DivUnique(n: int, d: int, q: int, r: int)
    requires d > 0 && 0 <= r < d
    requires n == d * q + r
    ensures n / d == q && n % d == r
  {
    var q0 := n / d;
    var r0 := n % d;
    assert d * q0 + r0 == d * q + r;
    assert d * (q0 - q) == r - r0 by { MulDistributes(d, q0, -q); }
    if q0 > q {
      MulMonotone(d, 1, q0 - q);
    } else if q0 < q {
      MulMonotone(d, 1, q - q0);
    }
  }

  /** One step of reassembling a number from its base-`b` digits, most
      significant first: the digits above position `a*b` followed by the digit
      at position `a` give the digits above position `a`. */
  lemma DigitStep(n: int, a: int, b: int)
    requires a > 0 && b > 0
    ensures (n / (a * b)) * b + (n / a) % b == n / a
  {
    DivDiv(n, a, b);
  }
}
