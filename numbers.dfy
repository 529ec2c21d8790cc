/** Powers of ten, digit counts and rounding, shared by the decimal amounts of the validators
    and the digit strings of the currency formatter. */
module Numbers {
  /** Ten to the power `n`. */
  function Pow10(n: nat): (r: nat)
    ensures r >= 1
  {
    if n == 0 then 1 else 10 * Pow10(n - 1)
  }

  /** Powers of ten multiply by adding their exponents. */
  lemma {:induction false} Pow10Add(a: nat, b: nat)
    ensures Pow10(a + b) == Pow10(a) * Pow10(b)
    decreases a
  {
    if a > 0 {
      Pow10Add(a - 1, b);
      assert Pow10(a + b) == 10 * Pow10(a - 1 + b);
    }
  }

  /** A larger exponent gives a power at least as large. */
  lemma Pow10Monotone(a: nat, b: nat)
    requires a <= b
    ensures Pow10(a) <= Pow10(b)
  {
    Pow10Add(a, b - a);
    assert Pow10(b - a) >= 1;
  }

  /** The number of decimal digits of `n`, zero counting as one digit. */
  function DigitCount(n: nat): nat
    decreases n
  {
    if n < 10 then 1 else 1 + DigitCount(n / 10)
  }

  /** `n` has `k` digits exactly when `10^(k-1) <= n < 10^k`. */
  lemma {:induction false} DigitCountBounds(n: nat)
    ensures var k := DigitCount(n);
            k >= 1 && n < Pow10(k) && (k == 1 || Pow10(k - 1) <= n)
    decreases n
  {
    if n >= 10 {
      DigitCountBounds(n / 10);
      DivMod(n, 10);
    }
  }

  /** The digit count is the one `k` with `10^(k-1) <= n < 10^k`. */
  lemma DigitCountUnique(n: nat, k: nat)
    requires k >= 1 && n < Pow10(k)
    requires k == 1 || Pow10(k - 1) <= n
    ensures DigitCount(n) == k
  {
    var j := DigitCount(n);
    DigitCountBounds(n);
    if j < k {
      Pow10Monotone(j, k - 1);
    } else if j > k {
      Pow10Monotone(k, j - 1);
    }
  }

  /** How far apart two numbers are. */
  function Distance(a: int, b: int): nat {
    if a >= b then a - b else b - a
  }

  /** `n / m` rounded to the nearest whole number, ties going to the even one (the default
      rounding of Python's decimal context). */
  function RoundHalfEven(n: nat, m: nat): (r: nat)
    requires m >= 1
    ensures 2 * Distance(n, m * r) <= m
    ensures 2 * Distance(n, m * r) == m ==> r % 2 == 0
  {
    var q, rem := n / m, n % m;
    DivMod(n, m);
    var r := if 2 * rem > m || (2 * rem == m && q % 2 == 1) then q + 1 else q;
    RoundingDistance(n, m, q, rem, r);
    r
  }

  /** Adding the modulus keeps a multiple of it a multiple. */
  lemma AddModulus(x: nat, m: nat)
    requires m >= 1 && x % m == 0
    ensures (x + m) % m == 0
  {
    DivMod(x, m);
    DivModUnique(x + m, m, x / m + 1, 0);
  }

  /** Division with remainder. */
  lemma DivMod(n: int, m: int)
    requires m >= 1
    ensures n == m * (n / m) + n % m && 0 <= n % m < m
  {
  }

  /** The distance from `n` to the multiple of `m` that rounding picks. */
  lemma RoundingDistance(n: nat, m: nat, q: nat, rem: nat, r: nat)
    requires m >= 1 && n == m * q + rem && rem < m
    requires r == if 2 * rem > m || (2 * rem == m && q % 2 == 1) then q + 1 else q
    ensures 2 * Distance(n, m * r) <= m
    ensures 2 * Distance(n, m * r) == m ==> r % 2 == 0
  {
    if r == q + 1 {
      assert m * r == m * q + m;
    }
  }

  /** Rounding `10^k + 1` at the digit `10^q`, below the leading one, drops the final 1. */
  lemma TrailingOneRoundsAway(k: nat, q: nat)
    requires 1 <= q < k
    ensures RoundHalfEven(Pow10(k) + 1, Pow10(q)) == Pow10(k - q)
  {
    Pow10Add(q, k - q);
    assert q + (k - q) == k;
    Pow10Monotone(1, q);
    assert Pow10(1) == 10;
    DivModUnique(Pow10(k) + 1, Pow10(q), Pow10(k - q), 1);
  }

  /** `10^k + 1` has `k + 1` digits, the last of them a 1. */
  lemma PowerPlusOneDigits(k: nat)
    requires k >= 1
    ensures DigitCount(Pow10(k) + 1) == k + 1
    ensures (Pow10(k) + 1) % 10 == 1
  {
    assert Pow10(k + 1) == 10 * Pow10(k);
    DigitCountUnique(Pow10(k) + 1, k + 1);
    var p := Pow10(k - 1);
    assert Pow10(k) == 10 * p;
    DivModUnique(10 * p + 1, 10, p, 1);
  }

  /** A non-zero multiple of `m` is at least `m` away from zero. */
  lemma MulAwayFromZero(d: int, m: int)
    requires m >= 1
    ensures d >= 1 ==> d * m >= m
    ensures d <= -1 ==> d * m <= -m
  {
  }

  /** The quotient and remainder are the only ones with `x == q * m + r` and `0 <= r < m`. */
  lemma DivModUnique(x: int, m: int, q: int, r: int)
    requires m >= 1 && x == q * m + r && 0 <= r < m
    ensures x % m == r && x / m == q
  {
    var q', r' := x / m, x % m;
    assert (q - q') * m == r' - r;
    MulAwayFromZero(q - q', m);
  }
}
