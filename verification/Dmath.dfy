/** src/kernel/dmath.c: integer power, integer logarithm, absolute value. */
module Dmath {
  import opened Words

  /** The mathematical power, which `Ipow` computes modulo 2^32. */
  function Pow(b: nat, e: nat): nat {
    if e == 0 then 1 else b * Pow(b, e - 1)
  }

  lemma {:induction false} PowAdd(b: nat, m: nat, n: nat)
    ensures Pow(b, m + n) == Pow(b, m) * Pow(b, n)
  {
    if m != 0 {
      PowAdd(b, m - 1, n);
      assert b * (Pow(b, m - 1) * Pow(b, n)) == (b * Pow(b, m - 1)) * Pow(b, n);
    }
  }

  /** Squaring the base halves the exponent: the step of square-and-multiply. */
  lemma {:induction false} PowSquare(b: nat, e: nat)
    ensures Pow(b * b, e) == Pow(b, 2 * e)
  {
    if e != 0 {
      PowSquare(b, e - 1);
      assert Pow(b, 2 * e) == b * (b * Pow(b, 2 * (e - 1)));
      assert b * (b * Pow(b, 2 * (e - 1))) == (b * b) * Pow(b, 2 * (e - 1));
    }
  }

  lemma {:induction false} PowPositive(b: nat, e: nat)
    requires b >= 1
    ensures Pow(b, e) >= 1
  {
    if e != 0 {
      PowPositive(b, e - 1);
    }
  }

  lemma {:induction false} PowMonotone(b: nat, m: nat, n: nat)
    requires b >= 1 && m <= n
    ensures Pow(b, m) <= Pow(b, n)
  {
    PowAdd(b, m, n - m);
    PowPositive(b, n - m);
    PowPositive(b, m);
    assert Pow(b, m) * 1 <= Pow(b, m) * Pow(b, n - m);
  }

  /** A base may be reduced modulo 2^32 under a product without changing the product modulo 2^32. */
  lemma MulModLeft(a: int, b: int)
    ensures (a % WORD) * b % WORD == a * b % WORD
  {
    var q := a / WORD;
    assert a * b == (a % WORD) * b + (q * b) * WORD by {
      assert a == q * WORD + a % WORD;
      assert (q * WORD) * b == (q * b) * WORD;
    }
    AddMultiple((a % WORD) * b, q * b);
  }

  lemma AddMultiple(x: int, k: int)
    ensures (x + k * WORD) % WORD == x % WORD
  {
  }

  /** A product of positive factors is at least each part of it. */
  lemma FactorBelow(a: nat, b: nat)
    requires b >= 1
    ensures a <= a * b
  {
  }

  /** The odd step: one factor moves from the power into the result. */
  lemma TakeFactor(r: nat, b: nat, e: nat)
    requires e % 2 == 1
    ensures r * Pow(b, e) == (r * b) * Pow(b * b, e / 2)
  {
    PowSquare(b, e / 2);
    assert Pow(b, e) == b * Pow(b, 2 * (e / 2));
    assert r * (b * Pow(b * b, e / 2)) == (r * b) * Pow(b * b, e / 2);
  }

  lemma MulMod(a: nat, b: nat)
    ensures (a % WORD) * (b % WORD) % WORD == a * b % WORD
  {
    MulModLeft(a, b % WORD);
    MulModLeft(b, a);
  }

  /**
   * What square-and-multiply keeps towards a goal: the machine words `r` and `b` are the
   * unbounded `R` and `B` modulo 2^32, and equal to them until some product wraps, after which
   * the goal is known not to fit a word.
   */
  ghost predicate Powering(r: u32, b: u32, wrapped: bool, R: nat, B: nat, goal: nat) {
    && r == R % WORD && b == B % WORD
    && (!wrapped ==> r == R && b == B)
    && (wrapped ==> goal >= WORD)
    && (B >= 1 ==> R >= 1)
  }

  lemma MultiplyStep(r: u32, b: u32, wrapped: bool, R: nat, B: nat, half: nat, goal: nat)
    requires Powering(r, b, wrapped, R, B, goal)
    requires goal == (R * B) * Pow(B * B, half)
    ensures Powering(r * b % WORD, b, wrapped || r * b >= WORD, R * B, B, goal)
  {
    MulMod(R, B);
    if !wrapped && r * b >= WORD {
      assert B >= 1;
      PowPositive(B * B, half);
      FactorBelow(R * B, Pow(B * B, half));
    }
    if R >= 1 && B >= 1 {
      FactorBelow(R, B);
    }
  }

  lemma SquareStep(r: u32, b: u32, wrapped: bool, R: nat, B: nat, e: nat, goal: nat)
    requires Powering(r, b, wrapped, R, B, goal)
    requires e >= 1 && goal == R * Pow(B * B, e)
    ensures Powering(r, b * b % WORD, wrapped || b * b >= WORD, R, B * B, goal)
  {
    MulMod(B, B);
    if !wrapped && b * b >= WORD {
      PowPositive(B * B, e - 1);
      FactorBelow(B * B, Pow(B * B, e - 1));
      FactorBelow(Pow(B * B, e), R);
    }
  }

  /**
   * `ipow`: square and multiply on 32-bit words. The ghost result records whether some product
   * or squaring on the way exceeded 32 bits, which happens exactly when the power itself does.
   */
  method Ipow(base: u32, exponent: u32) returns (result: u32, ghost wrapped: bool)
    ensures result == Pow(base, exponent) % WORD
    ensures wrapped <==> Pow(base, exponent) >= WORD
  {
    ghost var goal := Pow(base, exponent);
    var b: u32, e: u32 := base, exponent;
    result := 1;
    wrapped := false;
    ghost var R: nat, B: nat := 1, b;
    while true
      invariant R * Pow(B, e) == goal
      invariant Powering(result, b, wrapped, R, B, goal)
      decreases e
    {
      if e % 2 == 1 {
        TakeFactor(R, B, e);
        MultiplyStep(result, b, wrapped, R, B, e / 2, goal);
        wrapped := wrapped || result * b >= WORD;
        result := result * b % WORD;
        R := R * B;
      } else {
        PowSquare(B, e / 2);
      }
      e := e / 2;
      if e == 0 {
        break;
      }
      SquareStep(result, b, wrapped, R, B, e, goal);
      wrapped := wrapped || b * b >= WORD;
      b := b * b % WORD;
      B := B * B;
    }
    assert R == goal;
  }

  /** `k` is the exponent with b^k <= x < b^(k+1). */
  ghost predicate IsLog(b: nat, x: nat, k: nat) {
    Pow(b, k) <= x < Pow(b, k + 1)
  }

  lemma LogUnique(b: nat, x: nat, j: nat, k: nat)
    requires b >= 2 && IsLog(b, x, j) && IsLog(b, x, k)
    ensures j == k
  {
    if j < k {
      PowMonotone(b, j + 1, k);
    } else if k < j {
      PowMonotone(b, k + 1, j);
    }
  }

  /** The quotient of a number no smaller than the divisor is at least 1 and smaller than the number. */
  lemma QuotientShrinks(x: nat, b: nat)
    requires 2 <= b <= x
    ensures 1 <= x / b < x
  {
    var d, m := x / b, x % b;
    assert x == b * d + m;
    assert 2 * d <= b * d;
  }

  /** One division by the base moves a factor from the quotient into the scale. */
  lemma DivideStep(x: nat, rest: nat, scale: nat, b: nat)
    requires b >= 2
    requires Scaled(rest, scale, x)
    ensures Scaled(rest / b, b * scale, x)
  {
    var d, m := rest / b, rest % b;
    assert rest == b * d + m;
    assert b * d <= rest;
    assert b * (d + 1) == b * d + b;
    assert rest + 1 <= b * (d + 1);
    ScaleBounds(x, rest, scale, b, d);
  }

  lemma ScaleBounds(x: nat, rest: nat, scale: nat, b: nat, d: nat)
    requires Scaled(rest, scale, x) && b * d <= rest && rest + 1 <= b * (d + 1)
    ensures Scaled(d, b * scale, x)
  {
    Regroup(d, b, scale);
    Regroup(d + 1, b, scale);
    MulMonotone(b * d, rest, scale);
    MulMonotone(rest + 1, b * (d + 1), scale);
  }

  lemma Regroup(d: nat, b: nat, scale: nat)
    ensures d * (b * scale) == (b * d) * scale
  {
  }

  lemma MulMonotone(x: nat, y: nat, k: nat)
    ensures x <= y ==> x * k <= y * k
  {
  }

  /** `ilog`: repeated division. Base 0 traps, and base 1 does not terminate, except on 0. */
  method Ilog(base: u32, x: u32) returns (result: u32)
    requires base >= 2 || (base == 1 && x == 0)
    ensures x == 0 ==> result == 0
    ensures x >= 1 ==> IsLog(base, x, result)
  {
    result := 0;
    var rest: u32 := x;
    ghost var scale: nat := 1;
    while rest >= base
      invariant result + rest <= x
      invariant x >= 1 ==> rest >= 1
      invariant scale == Pow(base, result)
      invariant Scaled(rest, scale, x)
    {
      QuotientShrinks(rest, base);
      DivideStep(x, rest, scale, base);
      rest := rest / base;
      scale := base * scale;
      result := result + 1;
    }
    if x >= 1 {
      LastDigit(x, rest, scale, base);
    }
  }

  ghost predicate Scaled(rest: nat, scale: nat, x: nat) {
    rest * scale <= x < (rest + 1) * scale
  }

  lemma LastDigit(x: nat, rest: nat, scale: nat, b: nat)
    requires Scaled(rest, scale, x) && 1 <= rest < b
    ensures scale <= x < b * scale
  {
    assert scale <= rest * scale;
    assert (rest + 1) * scale <= b * scale;
  }

  /** `abs`. Negating INT32_MIN in two's complement leaves it unchanged; read as unsigned it is still 2^31. */
  function Abs(x: i32): (r: i32)
    ensures x != -0x8000_0000 ==> r == if x < 0 then -(x as int) else x
    ensures ToU32(r) == if x < 0 then -(x as int) else x
  {
    if x >= 0 then x else ToI32(-(x as int))
  }
}
