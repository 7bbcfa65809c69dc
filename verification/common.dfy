/** Shared vocabulary: Rust's Option, bytes, and the helpers several days use. */
module Common {

  /** Rust's `Option<T>`. */
  datatype Option<T> = None | Some(value: T)

  /** Rust's `std::cmp::Ordering`. */
  datatype Ordering = Lt | Eq | Gt

  /** `a.cmp(&b)` on unsigned integers. */
  function CmpNat(a: nat, b: nat): Ordering
  {
    if a < b then Lt else if a == b then Eq else Gt
  }

  /** `o.then_with(|| next)`: `next` decides only a tie. */
  function ThenWith(o: Ordering, next: Ordering): Ordering
  {
    if o == Eq then next else o
  }

  /** A `u8`. */
  type Byte = b: int | 0 <= b < 256

  /** Rust's `/` on signed integers: the quotient is truncated toward zero. */
  function TruncDiv(a: int, b: int): (q: int)
    requires b != 0
    ensures a >= 0 && b > 0 ==> q == a / b
  {
    if (a >= 0) == (b > 0) then
      (if a >= 0 then a / b else (-a) / (-b))
    else
      -((if a >= 0 then a else -a) / (if b > 0 then b else -b))
  }

  /** Rust's `%` on signed integers: the remainder takes the sign of the dividend. */
  function TruncRem(a: int, b: int): (r: int)
    requires b != 0
    ensures a >= 0 && b > 0 ==> r == a % b
  {
    a - b * TruncDiv(a, b)
  }

  /** `a == q * b + r` with `0 <= r < b` determines Euclidean division. */
  lemma DivModUnique(a: int, b: int, q: int, r: int)
    requires b > 0 && a == q * b + r && 0 <= r < b
    ensures a / b == q && a % b == r
  {
    var q0, r0 := a / b, a % b;
    assert a == b * q0 + r0;
    var d := q - q0;
    assert b * d == r0 - r by {
      assert q * b - q0 * b == (q - q0) * b;
    }
  }

  /** Euclidean division of an exact multiple by a positive divisor. */
  lemma DivExact(a: int, b: int, q: int)
    requires b > 0 && a == q * b
    ensures a / b == q
  {
    DivModUnique(a, b, q, 0);
  }

  /** Truncating division by a divisor that divides the dividend exactly gives the quotient. */
  lemma TruncDivExact(a: int, b: int, k: int)
    requires b != 0 && a == k * b
    ensures TruncDiv(a, b) == k
  {
    if b > 0 {
      if a >= 0 {
        DivExact(a, b, k);
      } else {
        assert -a == (-k) * b;
        DivExact(-a, b, -k);
      }
    } else {
      if a >= 0 {
        assert a == (-k) * (-b);
        DivExact(a, -b, -k);
      } else {
        assert -a == k * (-b);
        DivExact(-a, -b, k);
      }
    }
  }

  /**
   * Extending a prefix by the next element gives the next prefix. Stated once here so that the
   * worked examples of day 2 (`Day2.ExampleProb1Front`, `Day2.ExampleProb2Middle` and the others
   * that count reports one by one) take this slicing fact as a call instead of re-deriving it.
   */
  lemma TakeNext<T>(s: seq<T>, k: nat)
    requires k < |s|
    ensures s[..k] + [s[k]] == s[..k + 1]
  {
  }

  /** The prefix of full length is the whole sequence; used, like `TakeNext`, by the day 2 worked examples. */
  lemma TakeAll<T>(s: seq<T>)
    ensures s[..|s|] == s
  {
  }

  /** The sum of a sequence of integers. */
  function Sum(s: seq<int>): int
  {
    if s == [] then 0 else Sum(s[..|s| - 1]) + s[|s| - 1]
  }

  /** `10^k`. */
  function Pow10(k: nat): (r: nat)
    ensures r >= 1
  {
    if k == 0 then 1 else 10 * Pow10(k - 1)
  }

  /** `10^(a + b) == 10^a * 10^b`. */
  lemma {:induction false} Pow10Add(a: nat, b: nat)
    ensures Pow10(a + b) == Pow10(a) * Pow10(b)
  {
    if a > 0 {
      Pow10Add(a - 1, b);
      assert Pow10(a + b) == 10 * Pow10(a - 1 + b);
    }
  }

  /** The number of decimal digits of `n`, the length of `n.to_string()`. */
  function Digits(n: nat): (d: nat)
    ensures d >= 1
  {
    if n < 10 then 1 else 1 + Digits(n / 10)
  }

  /** `n` has `Digits(n)` digits: below `10^Digits(n)`, and at least `10^(Digits(n) - 1)` unless it is zero. */
  lemma {:induction false} DigitsBounds(n: nat)
    ensures n < Pow10(Digits(n))
    ensures n > 0 ==> Pow10(Digits(n) - 1) <= n
  {
    if n >= 10 {
      DigitsBounds(n / 10);
      assert Pow10(Digits(n)) == 10 * Pow10(Digits(n / 10));
      assert Pow10(Digits(n) - 1) == Pow10(Digits(n / 10));
    }
  }

  /** Conversely, the bounds determine the number of digits. */
  lemma {:induction false} DigitsOfBounds(n: nat, d: nat)
    requires d >= 1 && Pow10(d - 1) <= n < Pow10(d)
    ensures Digits(n) == d
  {
    if d > 1 {
      assert Pow10(d) == 10 * Pow10(d - 1) && Pow10(d - 1) == 10 * Pow10(d - 2);
      assert n / 10 < Pow10(d - 1);
      assert Pow10(d - 2) <= n / 10;
      DigitsOfBounds(n / 10, d - 1);
    } else {
      assert Pow10(1) == 10;
    }
  }

  /**
   * Multiplying by the same natural number keeps the order. A separate lemma so that the
   * nonlinear step is checked apart from the digit bounds in `Day7.ConcatDigits`.
   */
  lemma LowerProduct(a: nat, b: nat, p: nat)
    requires a <= b
    ensures a * p <= b * p
  {
  }

  /** Bounds on a quotient: `c * b <= a < e * b` gives `c <= a / b < e`. */
  lemma DivBounds(a: nat, b: nat, c: nat, e: nat)
    requires b > 0 && c * b <= a < e * b
    ensures c <= a / b < e
  {
    var q, r := a / b, a % b;
    assert a == q * b + r && r < b;
    assert (q + 1) * b == q * b + b;
    assert (q + 1 - c) * b == (q + 1) * b - c * b;
    PositiveFactor(q + 1 - c, b);
    assert (e - q) * b == e * b - q * b;
    PositiveFactor(e - q, b);
  }

  /** A quotient of naturals is a natural no larger than the dividend, and strictly smaller when the divisor is at least 2 and the quotient is not 0. */
  lemma QuotientShrinks(a: nat, d: nat)
    requires d >= 1
    ensures 0 <= a / d <= a
    ensures d >= 2 && a / d != 0 ==> a / d < a
  {
    var q := a / d;
    assert q * d + a % d == a;
    if d >= 2 {
      assert q * 2 <= q * d;
    }
  }

  /**
   * A product with a positive factor is positive only when the other factor is. A separate lemma
   * so that the nonlinear step is checked apart from the quotient and remainder in `DivBounds`.
   */
  lemma PositiveFactor(x: int, b: int)
    requires b > 0 && x * b > 0
    ensures x > 0
  {
  }
}
