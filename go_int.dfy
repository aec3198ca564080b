/** Go's signed `int` and its integer division operator `/`.

    Go's `int` is 64 bits wide on every 64-bit platform; that width is the
    one modelled here. The language specification ("Integer operators",
    under "Arithmetic operators") says that for `q = x / y` and
    `r = x % y` the quotient is truncated toward zero:
      x == q*y + r,   |r| < |y|,   r is zero or has the sign of x,
    with the one exception that the most negative value divided by -1
    overflows and yields the dividend itself.
*/
module GoInt {

  const MinInt: int := -0x8000_0000_0000_0000
  const MaxInt: int := 0x7fff_ffff_ffff_ffff
  /** Number of distinct 64-bit values: two's-complement arithmetic works modulo this. */
  const Modulus: int := 0x1_0000_0000_0000_0000

  /** A value of Go's 64-bit `int`. */
  type Int = x: int | MinInt <= x <= MaxInt

  function Abs(x: int): nat {
    if x < 0 then -x else x
  }

  /** The language specification's characterisation of a truncated quotient:
      `q` is the quotient of `a / b` when the remainder `a - q*b` is smaller
      than the divisor in magnitude and is zero or has the sign of `a`. */
  ghost predicate IsTruncatedQuotient(a: int, b: int, q: int) {
    var r := a - q * b;
    b != 0 && Abs(r) < Abs(b) && (r == 0 || (r < 0 <==> a < 0))
  }

  /** x * y is monotone in y for a non-negative x. */
  lemma MulMonotone(x: nat, y: int, z: int)
    requires y <= z
    ensures x * y <= x * z
  {
    assert x * z == x * y + x * (z - y);
  }

  /** The number of whole copies of d that fit in n: the magnitude of a
      quotient truncated toward zero. */
  function WholeCopies(n: nat, d: nat): (k: nat)
    requires d > 0
    ensures k * d <= n < k * d + d
    ensures k <= n
    decreases n
  {
    if n < d then 0
    else
      var k := 1 + WholeCopies(n - d, d);
      assert k * d == (k - 1) * d + d;
      k
  }

  /** The quotient with magnitude m, signed negative when exactly one operand
      is negative. */
  function Signed(a: int, b: int, m: int): int {
    if (a < 0) == (b < 0) then m else -m
  }

  /** Giving the count of whole divisors the operands' sign yields a truncated quotient. */
  lemma SignedIsTruncatedQuotient(a: int, b: int, m: int)
    requires b != 0 && m >= 0
    requires m * Abs(b) <= Abs(a) < m * Abs(b) + Abs(b)
    ensures IsTruncatedQuotient(a, b, Signed(a, b, m))
  {
    var n: int, d: int, q := Abs(a), Abs(b), Signed(a, b, m);
    if a >= 0 && b > 0 {
      assert q * b == m * d;
    } else if a >= 0 {
      assert q * b == (-m) * (-d) == m * d;
    } else if b > 0 {
      assert q * b == (-m) * d == -(m * d);
    } else {
      assert q * b == m * (-d) == -(m * d);
    }
  }

  /** Integer division truncated toward zero, on unbounded integers: the
      magnitude is the number of whole divisors in the dividend, and the sign
      is negative when exactly one operand is. */
  function TruncDiv(a: int, b: int): (q: int)
    requires b != 0
    ensures IsTruncatedQuotient(a, b, q)
    ensures Abs(q) <= Abs(a)
  {
    var m := WholeCopies(Abs(a), Abs(b));
    SignedIsTruncatedQuotient(a, b, m);
    Signed(a, b, m)
  }

  /** |k * b| == |k| * |b|. */
  lemma AbsOfProduct(k: int, b: int)
    ensures Abs(k * b) == Abs(k) * Abs(b)
  {
    if k < 0 && b < 0 {
      assert k * b == (-k) * (-b);
    } else if k < 0 {
      assert k * b == -((-k) * b);
    } else if b < 0 {
      assert k * b == -(k * (-b));
    }
  }

  /** The only multiple of b smaller than b in magnitude is zero. */
  lemma SmallMultipleIsZero(k: int, b: int)
    requires b != 0
    requires Abs(k * b) < Abs(b)
    ensures k == 0
  {
    AbsOfProduct(k, b);
    if k != 0 {
      MulMonotone(Abs(b), 1, Abs(k));
    }
  }

  /** Two truncated quotients of the same operands are equal: the
      characterisation determines the quotient. */
  lemma TruncatedQuotientUnique(a: int, b: int, q1: int, q2: int)
    requires IsTruncatedQuotient(a, b, q1)
    requires IsTruncatedQuotient(a, b, q2)
    ensures q1 == q2
  {
    var r1, r2 := a - q1 * b, a - q2 * b;
    // Both remainders lie on the same side of zero, so they differ by less than |b|.
    assert Abs(r1 - r2) < Abs(b);
    assert r1 - r2 == (q2 - q1) * b;
    SmallMultipleIsZero(q2 - q1, b);
  }

  /** TruncDiv is exactly the quotient the language specification describes:
      a candidate `q` meets the characterisation if and only if it is TruncDiv's result. */
  lemma TruncDivCharacterized(a: int, b: int, q: int)
    requires b != 0
    ensures IsTruncatedQuotient(a, b, q) <==> q == TruncDiv(a, b)
  {
    if IsTruncatedQuotient(a, b, q) {
      TruncatedQuotientUnique(a, b, q, TruncDiv(a, b));
    }
  }

  /** Truncated and Euclidean division (Dafny's `/`) agree exactly when the
      dividend is non-negative or the divisor divides it. */
  lemma TruncDivVersusEuclidean(a: int, b: int)
    requires b != 0
    ensures TruncDiv(a, b) == a / b <==> (a >= 0 || a % b == 0)
  {
    var e := a / b;
    assert a - e * b == a % b;
    if a >= 0 || a % b == 0 {
      assert IsTruncatedQuotient(a, b, e);
      TruncDivCharacterized(a, b, e);
    }
    if TruncDiv(a, b) == e && a < 0 {
      // The Euclidean remainder is never negative; the truncated one is zero or negative.
      assert a - TruncDiv(a, b) * b == a % b;
    }
  }

  /** Reduction of an unbounded integer into Go's 64-bit range, as two's-complement
      hardware does. */
  function Wrap(x: int): (w: Int)
    ensures MinInt <= x <= MaxInt ==> w == x
    ensures (x - w) % Modulus == 0
  {
    (x - MinInt) % Modulus + MinInt
  }

  /** Go's `a / b` on `int` operands. */
  function Quotient(a: Int, b: Int): (q: Int)
    requires b != 0
    ensures !(a == MinInt && b == -1) ==> IsTruncatedQuotient(a, b, q)
    ensures a == MinInt && b == -1 ==> q == a
    ensures Abs(q) <= Abs(a)
  {
    // The true quotient leaves the range only for MinInt / -1, where it wraps to MinInt.
    Wrap(TruncDiv(a, b))
  }

  /** The quotient of Go's `/` is the truncated quotient whenever the result
      fits in `int`, which is every case except MinInt / -1. */
  lemma QuotientIsTruncDiv(a: Int, b: Int)
    requires b != 0
    ensures Quotient(a, b) == TruncDiv(a, b) <==> !(a == MinInt && b == -1)
  {
    if !(a == MinInt && b == -1) {
      TruncDivCharacterized(a, b, Quotient(a, b));
    } else {
      TruncDivCharacterized(a, b, -MinInt);
    }
  }
}
