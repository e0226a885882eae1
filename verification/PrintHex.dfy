/** `print_hex` of src/boot/util.asm: the boot loader's hexadecimal printer. */
module PrintHex {
  import opened Words
  import opened Dmath
  import opened Digits
  import opened Util

  /**
   * `print_hex`: four passes, each printing the top nibble of `dx` and shifting the next one up.
   * `out` is what the BIOS teletype is given.
   */
  method PrintHex(value: u16) returns (out: seq<u8>)
    ensures out == [48, 120] + Padded(value, 16, 4)
  {
    hide Padded, Pow;
    var dx: u16, cx: u16 := value, 3;
    out := [48, 120];
    ghost var rest: nat := value;
    SixteenPowers();
    while true
      invariant cx <= 3 && rest < Pow(16, cx + 1)
      invariant dx == rest * Pow(16, 3 - cx)
      invariant out + Padded(rest, 16, cx + 1) == [48, 120] + Padded(value, 16, 4)
      decreases cx
    {
      ghost var digit, next := PeelLeading(rest, 16, cx);
      ShiftPeels(dx, rest, Pow(16, cx), Pow(16, 3 - cx));
      var bx := dx / 0x1000;
      var code: u8 := if bx <= 9 then bx + 48 else bx + 0x57;
      assert out + ([code] + Padded(next, 16, cx)) == out + [code] + Padded(next, 16, cx);
      out := out + [code];
      dx := dx * 0x10 % 0x1_0000;
      rest := next;
      if cx == 0 {
        break;
      }
      cx := cx - 1;
    }
    PaddedNothing(rest);
    assert out + [] == out;
  }

  lemma PaddedNothing(n: nat)
    ensures Padded(n, 16, 0) == []
  {
  }

  lemma SixteenPowers()
    ensures Pow(16, 0) == 1 && Pow(16, 1) == 0x10 && Pow(16, 2) == 0x100
    ensures Pow(16, 3) == 0x1000 && Pow(16, 4) == 0x1_0000
  {
  }

  /** Shifting the word left four bits drops the leading digit: the same as a remainder on the right. */
  lemma ShiftPeels(dx: nat, rest: nat, p: nat, s: nat)
    requires p >= 1 && s >= 1 && p * s == 0x1000 && dx == rest * s
    ensures dx / 0x1000 == rest / p
    ensures dx * 0x10 % 0x1_0000 == (rest % p) * (0x10 * s)
  {
    var q, m := rest / p, rest % p;
    QuotientBelow(rest, p);
    assert rest == q * p + m;
    Spread(q, p, m, s);
    MulMonotone(m + 1, p, s);
    assert (m + 1) * s == m * s + s;
    QuotientUnique(dx, 0x1000, q, m * s);
    QuotientUnique(dx * 0x10, 0x1_0000, q, 0x10 * (m * s));
    assert m * (0x10 * s) == 0x10 * (m * s);
  }

  lemma Spread(q: nat, p: nat, m: nat, s: nat)
    ensures (q * p + m) * s == q * (p * s) + m * s
  {
  }

  /** Dropping leading zeros, but keeping one digit. */
  function Strip(s: seq<u8>): seq<u8> {
    if |s| > 1 && s[0] == 48 then Strip(s[1..]) else s
  }

  lemma {:induction false} StripZeros(k: nat, s: seq<u8>)
    requires |s| >= 1 && (s[0] == 48 ==> |s| == 1)
    ensures Strip(Zeros(k) + s) == s
  {
    var z := Zeros(k) + s;
    if k == 0 {
      assert z == s;
    } else {
      assert z[1..] == Zeros(k - 1) + s;
      StripZeros(k - 1, s);
    }
  }

  /** The two hexadecimal printers agree up to leading zeros, and `print_hex` can be read back. */
  lemma PrintHexAgreesWithItoh(value: u16)
    ensures Text(value, 16) == [48, 120] + Strip(Padded(value, 16, 4))
    ensures Value(Padded(value, 16, 4), 16) == value
    ensures forall c :: c in Padded(value, 16, 4) ==> '0' as int <= c <= '9' as int || 'a' as int <= c <= 'f' as int
  {
    PaddedDigits(value, 16, 4);
    assert Pow(16, 4) == 0x1_0000;
    PaddedIsZerosAndNumeral(value, 16, 4);
    NumeralShape(value, 16);
    StripZeros(4 - |Numeral(value, 16)|, Numeral(value, 16));
    ValueZeros(4 - |Numeral(value, 16)|, Numeral(value, 16), 16);
    ValueOfNumeral(value, 16);
  }

  lemma {:induction false} ValueZeros(k: nat, s: seq<u8>, b: nat)
    ensures Value(Zeros(k) + s, b) == Value(s, b)
    decreases |s|, k
  {
    var z := Zeros(k) + s;
    if s != [] {
      assert z[..|z| - 1] == Zeros(k) + s[..|s| - 1];
      ValueZeros(k, s[..|s| - 1], b);
    } else if k > 0 {
      assert z[..|z| - 1] == Zeros(k - 1) + [];
      ValueZeros(k - 1, [], b);
    }
  }
}
