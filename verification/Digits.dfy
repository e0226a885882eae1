/** Positional notation: the text that `_itoa` and `print_hex` have to produce, and how to read it back. */
module Digits {
  import opened Words
  import opened Dmath

  /** The character for a digit: '0'..'9', then on from 'a'; truncated to a byte like the cast to `char`. */
  function Code(d: nat): u8 {
    (if d < 10 then d + 48 else d + 87) % 0x100
  }

  /** Every number has a numeral in bases from 2, and 0 has one in base 1. */
  predicate HasNumeral(n: nat, b: nat) {
    b >= 2 || (b == 1 && n == 0)
  }

  /** The shortest numeral of `n`, most significant digit first. */
  function Numeral(n: nat, b: nat): (s: seq<u8>)
    requires HasNumeral(n, b)
    ensures |s| >= 1
    decreases n
  {
    if n < b then [Code(n)] else (QuotientShrinks(n, b); Numeral(n / b, b) + [Code(n % b)])
  }

  /** The low `k` digits of `n`, leading zeros included. */
  function Padded(n: nat, b: nat, k: nat): (s: seq<u8>)
    requires b >= 1
    ensures |s| == k
  {
    if k == 0 then [] else Padded(n / b, b, k - 1) + [Code(n % b)]
  }

  /** The digit a character stands for: '0'..'9', then on from 'a'. Any other character counts as -1. */
  function DigitOf(c: u8): int {
    if 48 <= c < 58 then c - 48 else if c >= 97 then c - 87 else -1
  }

  /** A digit character of a base: one of '0'..'9', or as many from 'a' on as the base asks for. */
  predicate IsDigit(c: u8, b: nat) {
    (48 <= c < 58 && c < 48 + b) || 97 <= c < 87 + b
  }

  /** Reading a numeral. */
  function Value(s: seq<u8>, b: nat): int {
    if s == [] then 0 else Value(s[..|s| - 1], b) * b + DigitOf(s[|s| - 1])
  }

  /** The largest base whose digits all have a character that is neither truncated nor NUL. */
  const MAX_BASE := 169

  lemma CodeReads(d: nat)
    requires d < MAX_BASE
    ensures DigitOf(Code(d)) == d && Code(d) >= 48 && (Code(d) == 48 <==> d == 0)
  {
  }

  lemma ValueAppend(s: seq<u8>, c: u8, b: nat)
    ensures Value(s + [c], b) == Value(s, b) * b + DigitOf(c)
  {
    assert (s + [c])[..|s|] == s;
  }

  lemma ValueSingle(c: u8, b: nat)
    ensures Value([c], b) == DigitOf(c)
  {
    ValueAppend([], c, b);
    assert [] + [c] == [c];
  }

  /** Reading undoes printing. */
  lemma {:induction false} ValueOfNumeral(n: nat, b: nat)
    requires 2 <= b <= MAX_BASE
    ensures Value(Numeral(n, b), b) == n
    decreases n
  {
    hide Value, Code, DigitOf;
    if n < b {
      CodeReads(n);
      ValueSingle(Code(n), b);
    } else {
      QuotientShrinks(n, b);
      var q, d := n / b, n % b;
      ValueOfNumeral(q, b);
      ValueAppend(Numeral(q, b), Code(d), b);
      CodeReads(d);
    }
  }

  /** Only digit characters of the base appear in a numeral. */
  lemma {:induction false} NumeralDigits(n: nat, b: nat)
    requires 2 <= b <= MAX_BASE
    ensures forall c :: c in Numeral(n, b) ==> IsDigit(c, b)
    decreases n
  {
    hide Code, IsDigit;
    if n < b {
      CodeIsDigit(n, b);
    } else {
      QuotientShrinks(n, b);
      var q, d := n / b, n % b;
      NumeralDigits(q, b);
      CodeIsDigit(d, b);
      assert Numeral(n, b) == Numeral(q, b) + [Code(d)];
    }
  }

  lemma CodeIsDigit(d: nat, b: nat)
    requires d < b <= MAX_BASE
    ensures IsDigit(Code(d), b)
  {
  }

  lemma {:induction false} PaddedDigits(n: nat, b: nat, k: nat)
    requires 2 <= b <= MAX_BASE
    ensures forall c :: c in Padded(n, b, k) ==> IsDigit(c, b)
    decreases k
  {
    if k != 0 {
      QuotientBelow(n, b);
      PaddedDigits(n / b, b, k - 1);
      CodeIsDigit(n % b, b);
    }
  }

  /** A numeral is printable text: no NUL, no minus sign, and a leading '0' only in "0". */
  lemma {:induction false} NumeralShape(n: nat, b: nat)
    requires 2 <= b <= MAX_BASE
    ensures forall c :: c in Numeral(n, b) ==> c >= 48
    ensures Numeral(n, b)[0] == 48 <==> n == 0
    decreases n
  {
    if n < b {
      CodeReads(n);
    } else {
      QuotientShrinks(n, b);
      var q, d := n / b, n % b;
      NumeralShape(q, b);
      CodeReads(d);
      assert Numeral(n, b) == Numeral(q, b) + [Code(d)];
    }
  }

  /** The length of a numeral is one more than the integer logarithm. */
  lemma {:induction false} NumeralLength(n: nat, b: nat, k: nat)
    requires HasNumeral(n, b)
    requires if n == 0 then k == 0 else IsLog(b, n, k)
    ensures |Numeral(n, b)| == k + 1
    decreases n
  {
    if n < b {
      if n > 0 {
        assert IsLog(b, n, 0);
        LogUnique(b, n, 0, k);
      }
    } else {
      assert Pow(b, 1) == b;
      assert k != 0;
      QuotientShrinks(n, b);
      DivideBounds(n, b, Pow(b, k - 1));
      DivideBounds(n, b, Pow(b, k));
      NumeralLength(n / b, b, k - 1);
    }
  }

  lemma DivideBounds(n: nat, b: nat, p: nat)
    requires b >= 1
    ensures p <= n / b <==> b * p <= n
  {
    var d, m := n / b, n % b;
    assert n == b * d + m;
    if p <= d {
      assert b * p <= b * d;
    } else {
      assert b * (d + 1) <= b * p;
    }
  }

  lemma {:induction false} NumeralIsPadded(n: nat, b: nat)
    requires HasNumeral(n, b)
    ensures Numeral(n, b) == Padded(n, b, |Numeral(n, b)|)
    decreases n
  {
    if n < b {
      PaddedDigit(n, b);
    } else {
      QuotientShrinks(n, b);
      NumeralIsPadded(n / b, b);
    }
  }

  lemma PaddedDigit(n: nat, b: nat)
    requires b >= 1 && n < b
    ensures Padded(n, b, 1) == [Code(n)]
  {
    SmallModulus(n, b);
    assert Padded(n, b, 1) == Padded(n / b, b, 0) + [Code(n % b)];
  }

  lemma SmallModulus(n: nat, b: nat)
    requires n < b
    ensures n % b == n && n / b == 0
  {
  }

  /** Padding is all that separates the two notations: `k` digits hold every number below b^k. */
  lemma {:induction false} PaddedIsZerosAndNumeral(n: nat, b: nat, k: nat)
    requires b >= 2 && k >= 1 && n < Pow(b, k)
    ensures |Numeral(n, b)| <= k
    ensures Padded(n, b, k) == Zeros(k - |Numeral(n, b)|) + Numeral(n, b)
    decreases k
  {
    if n < b {
      SmallModulus(n, b);
      PaddedZero(b, k - 1);
    } else {
      assert Pow(b, 1) == b;
      assert k != 1;
      DivideBounds(n, b, Pow(b, k - 1));
      PaddedIsZerosAndNumeral(n / b, b, k - 1);
    }
  }

  function Zeros(k: nat): (s: seq<u8>)
    ensures |s| == k
  {
    seq(k, _ => 48)
  }

  lemma {:induction false} PaddedZero(b: nat, k: nat)
    requires b >= 2
    ensures Padded(0, b, k) == Zeros(k)
  {
    if k != 0 {
      PaddedZero(b, k - 1);
      SmallModulus(0, b);
      assert Zeros(k) == Zeros(k - 1) + [48];
    }
  }

  /** Peeling from the most significant end: dividing by b^k splits off the first of k+1 digits. */
  lemma PeelLeading(n: nat, b: nat, k: nat) returns (q: nat, r: nat)
    requires b >= 1 && n < Pow(b, k + 1)
    ensures Pow(b, k) >= 1 && q == n / Pow(b, k) && r == n % Pow(b, k)
    ensures q < b && r < Pow(b, k)
    ensures Padded(n, b, k + 1) == [Code(q)] + Padded(r, b, k)
  {
    PowPositive(b, k);
    var p := Pow(b, k);
    QuotientBelow(n, p);
    q, r := n / p, n % p;
    assert n == q * p + r;
    MulMonotone(b, q, p);
    PeelJoined(q, r, b, k);
  }

  lemma QuotientBelow(x: nat, b: nat)
    requires b >= 1
    ensures 0 <= x / b <= x
  {
    DivideBounds(x, b, x + 1);
    MulMonotone(1, b, x + 1);
  }

  lemma {:induction false} PeelJoined(q: nat, r: nat, b: nat, k: nat)
    requires b >= 1 && q < b && r < Pow(b, k)
    ensures Padded(q * Pow(b, k) + r, b, k + 1) == [Code(q)] + Padded(r, b, k)
  {
    if k == 0 {
      assert q * Pow(b, 0) + r == q;
      SmallModulus(q, b);
      assert Padded(q, b, 1) == Padded(q / b, b, 0) + [Code(q % b)];
    } else {
      var p := Pow(b, k - 1);
      DivideBounds(r, b, p);
      PeelJoined(q, r / b, b, k - 1);
      DropLast(q, r, b, p);
    }
  }

  lemma DropLast(q: nat, r: nat, b: nat, p: nat)
    requires b >= 1
    ensures (q * (b * p) + r) / b == q * p + r / b && (q * (b * p) + r) % b == r % b
  {
    assert q * (b * p) == (q * p) * b;
    DivideShifted(r, q * p, b);
  }

  lemma DivideShifted(r: nat, m: nat, b: nat)
    requires b >= 1
    ensures (m * b + r) / b == m + r / b && (m * b + r) % b == r % b
  {
    var d, e := r / b, r % b;
    assert m * b + r == (m + d) * b + e;
    QuotientUnique(m * b + r, b, m + d, e);
  }

  lemma QuotientUnique(n: nat, b: nat, d: nat, e: nat)
    requires b >= 1 && n == d * b + e && e < b
    ensures n / b == d && n % b == e
  {
    var d', e' := n / b, n % b;
    assert d' * b + e' == d * b + e;
    MulMonotone(d + 1, d', b);
    MulMonotone(d' + 1, d, b);
    assert (d + 1) * b == d * b + b && (d' + 1) * b == d' * b + b;
  }
}
