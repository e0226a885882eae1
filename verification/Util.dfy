/** src/kernel/util.c: integer printing into a bounded buffer, and in-place copying. */
module Util {
  import opened Words
  import opened Dmath
  import opened Digits

  const MINUS: u8 := 45

  /** `get_prefix`: the letter the source prints for base 8 really is 'a'. */
  function GetPrefix(base: u8): (pfx: seq<u8>)
    ensures |pfx| <= 2
  {
    match base
    case 2 => [48, 98]
    case 8 => [48, 97]
    case 16 => [48, 120]
    case _ => []
  }

  function Magnitude(x: i32): nat {
    if x < 0 then -(x as int) else x
  }

  /** What `_itoa` has to print: sign, base prefix, shortest numeral. */
  function Text(x: i32, base: u8): seq<u8>
    requires HasNumeral(Magnitude(x), base)
  {
    (if x < 0 then [MINUS] else []) + GetPrefix(base) + Numeral(Magnitude(x), base)
  }

  /** A reader for such text. */
  function Parse(s: seq<u8>, base: u8): int {
    if s != [] && s[0] == MINUS then -ParseUnsigned(s[1..], base) else ParseUnsigned(s, base)
  }

  function ParseUnsigned(s: seq<u8>, base: u8): int {
    var n := |GetPrefix(base)|;
    if |s| < n then 0 else Value(s[n..], base)
  }

  /** Printing and reading back is the identity, on every 32-bit integer. */
  lemma ParseOfText(x: i32, base: u8)
    requires 2 <= base <= MAX_BASE
    ensures Parse(Text(x, base), base) == x
  {
    hide Numeral, Value;
    var n := Magnitude(x);
    var num := Numeral(n, base);
    var body := GetPrefix(base) + num;
    ValueOfNumeral(n, base);
    assert num[0] != MINUS by {
      NumeralShape(n, base);
      assert num[0] in num;
    }
    ParseOfBody(GetPrefix(base), num, base);
    if x < 0 {
      assert Text(x, base)[1..] == body;
    } else {
      assert Text(x, base) == body;
      assert body[0] != MINUS;
    }
  }

  lemma ParseOfBody(pfx: seq<u8>, num: seq<u8>, base: u8)
    requires pfx == GetPrefix(base)
    ensures ParseUnsigned(pfx + num, base) == Value(num, base)
  {
    assert (pfx + num)[|pfx|..] == num;
  }

  /** The string a C reader sees in a buffer: everything before the first NUL. */
  function CString(s: seq<u8>): (r: seq<u8>)
    ensures |r| <= |s| && r == s[..|r|] && 0 !in r
    ensures |r| < |s| ==> s[|r|] == 0
  {
    if s == [] || s[0] == 0 then [] else [s[0]] + CString(s[1..])
  }

  lemma TextHasNoNul(x: i32, base: u8)
    requires 2 <= base <= MAX_BASE
    ensures 0 !in Text(x, base)
    ensures CString(Text(x, base)) == Text(x, base)
  {
    hide Numeral, CString;
    var num := Numeral(Magnitude(x), base);
    NumeralShape(Magnitude(x), base);
    assert 0 !in num;
    assert 0 !in GetPrefix(base);
    assert |CString(Text(x, base))| == |Text(x, base)|;
  }

  /** Distinct integers print as distinct C strings. */
  ghost predicate PrintsDistinctly(base: u8)
    requires base >= 2
  {
    forall x: i32, y: i32 :: CString(Text(x, base)) == CString(Text(y, base)) ==> x == y
  }

  /**
   * Printing is injective exactly up to base 169: from base 170 on the digit 169 is printed as
   * NUL, so 169 and 169 * base are both the empty string.
   */
  lemma PrintsDistinctlyUpTo169(base: u8)
    requires base >= 2
    ensures PrintsDistinctly(base) <==> base <= MAX_BASE
  {
    if base <= MAX_BASE {
      forall x: i32, y: i32 | CString(Text(x, base)) == CString(Text(y, base))
        ensures x == y
      {
        TextHasNoNul(x, base);
        TextHasNoNul(y, base);
        ParseOfText(x, base);
        ParseOfText(y, base);
      }
    } else {
      NulDigit(base);
      var x: i32, y: i32 := 169, 169 * base;
      assert CString(Text(x, base)) == CString(Text(y, base)) && x != y;
    }
  }

  lemma NulDigit(base: u8)
    requires base > MAX_BASE
    ensures CString(Text(169, base)) == [] == CString(Text(169 * base, base))
  {
    assert Code(169) == 0;
    assert Numeral(169, base) == [0];
    QuotientUnique(169 * base, base, 169, 0);
    assert Numeral(169 * base, base) == Numeral(169, base) + [Code(0)];
    assert Text(169 * base, base)[0] == 0;
    assert Text(169, base)[0] == 0;
  }

  /** In base 10: a minus sign for negative numbers, then characters '0'..'9', the first of them '0' only for 0. */
  lemma DecimalText(x: i32)
    ensures var t, k := Text(x, 10), if x < 0 then 1 else 0;
      && |t| > k && (x < 0 ==> t[0] == '-' as int)
      && (forall i :: k <= i < |t| ==> '0' as int <= t[i] <= '9' as int)
      && (t[k] == '0' as int <==> x == 0)
  {
    hide Numeral;
    var n := Numeral(Magnitude(x), 10);
    NumeralDigits(Magnitude(x), 10);
    NumeralShape(Magnitude(x), 10);
    assert forall i :: 0 <= i < |n| ==> n[i] in n;
  }

  /** In base 16 there is a "0x" between the two, and 'a'..'f' are digits too. */
  lemma HexText(x: i32)
    ensures var t, k := Text(x, 16), if x < 0 then 1 else 0;
      && |t| > k + 2 && (x < 0 ==> t[0] == '-' as int)
      && t[k] == '0' as int && t[k + 1] == 'x' as int
      && (forall i :: k + 2 <= i < |t| ==> '0' as int <= t[i] <= '9' as int || 'a' as int <= t[i] <= 'f' as int)
      && (t[k + 2] == '0' as int <==> x == 0)
  {
    hide Numeral;
    var n := Numeral(Magnitude(x), 16);
    NumeralDigits(Magnitude(x), 16);
    NumeralShape(Magnitude(x), 16);
    assert forall i :: 0 <= i < |n| ==> n[i] in n;
  }

  /** Zero has one digit in every base, after the prefix that three bases have. */
  lemma ZeroPrinted(base: u8)
    requires base >= 1
    ensures Text(0, base)
      == if base == 2 then Chars("0b0") else if base == 8 then Chars("0a0")
         else if base == 16 then Chars("0x0") else Chars("0")
  {
  }

  /** Some numbers as they are printed, the smallest integer among them. */
  lemma Printouts()
    ensures Text(1, 10) == Chars("1") && Text(-5, 10) == Chars("-5")
    ensures Text(-0x8000_0000, 10) == Chars("-2147483648")
    ensures Text(0x1a2f, 16) == Chars("0x1a2f") && Text(5, 2) == Chars("0b101") && Text(8, 8) == Chars("0a10")
  {
    hide Numeral;
    SmallNumerals();
    LargestNumeral();
    assert Text(1, 10) == Chars("1") && Text(-5, 10) == Chars("-5");
    assert Text(-0x8000_0000, 10) == Chars("-2147483648");
    assert Text(0x1a2f, 16) == Chars("0x1a2f") && Text(5, 2) == Chars("0b101") && Text(8, 8) == Chars("0a10");
  }

  lemma SmallNumerals()
    ensures Numeral(1, 10) == Chars("1") && Numeral(5, 10) == Chars("5") && Numeral(5, 2) == Chars("101")
    ensures Numeral(0x1a2f, 16) == Chars("1a2f") && Numeral(8, 8) == Chars("10")
  {
    hide Numeral;
    OneDigit(1, 10, '1');
    OneDigit(5, 10, '5');
    OneDigit(1, 2, '1');
    OneMore(2, 2, "1", '0');
    OneMore(5, 2, "10", '1');
    OneDigit(1, 16, '1');
    OneMore(0x1a, 16, "1", 'a');
    OneMore(0x1a2, 16, "1a", '2');
    OneMore(0x1a2f, 16, "1a2", 'f');
    OneDigit(1, 8, '1');
    OneMore(8, 8, "1", '0');
  }

  lemma LargestNumeral()
    ensures Numeral(2147483648, 10) == Chars("2147483648")
  {
    hide Numeral;
    OneDigit(2, 10, '2');
    OneMore(21, 10, "2", '1');
    OneMore(214, 10, "21", '4');
    OneMore(2147, 10, "214", '7');
    OneMore(21474, 10, "2147", '4');
    OneMore(214748, 10, "21474", '8');
    OneMore(2147483, 10, "214748", '3');
    OneMore(21474836, 10, "2147483", '6');
    OneMore(214748364, 10, "21474836", '4');
    OneMore(2147483648, 10, "214748364", '8');
  }

  lemma OneDigit(n: nat, b: nat, c: char)
    requires 2 <= b && n < b && c < 128 as char && Code(n) == c as int
    ensures Numeral(n, b) == Chars([c])
  {
  }

  lemma OneMore(n: nat, b: nat, s: string, c: char)
    requires 2 <= b <= n && c < 128 as char && Code(n % b) == c as int
    requires Numeral(n / b, b) == Chars(s)
    ensures Numeral(n, b) == Chars(s + [c])
  {
    assert Chars(s + [c]) == Chars(s) + Chars([c]);
  }

  lemma TextLength(x: i32, base: u8, k: nat)
    requires HasNumeral(Magnitude(x), base)
    requires if x == 0 then k == 0 else IsLog(base, Magnitude(x), k)
    ensures |Text(x, base)| == (if x < 0 then 1 else 0) + |GetPrefix(base)| + k + 1
  {
    NumeralLength(Magnitude(x), base, k);
  }

  /** State of the digit loop: the text so far and the digits of the rest make up the whole text. */
  ghost predicate Peeling(done: seq<u8>, rest: u32, k: nat, magnitude: u32, base: u8, text: seq<u8>)
    requires base >= 1
  {
    && rest < Pow(base, k)
    && (k > 0 ==> magnitude == Pow(base, k - 1))
    && done + Padded(rest, base, k) == text
  }

  lemma PeelStep(done: seq<u8>, rest: u32, k: nat, magnitude: u32, base: u8, text: seq<u8>)
    returns (digit: nat, next: u32, smaller: u32)
    requires base >= 1 && k > 0
    requires Peeling(done, rest, k, magnitude, base, text)
    ensures magnitude > 0
    ensures digit == DivU32(rest, magnitude) && next == ModU32(rest, magnitude) && smaller == DivU32(magnitude, base)
    ensures digit < base
    ensures Peeling(done + [Code(digit)], next, k - 1, smaller, base, text)
  {
    digit, next := PeelDigit(rest, k, magnitude, base);
    smaller := Reduce(magnitude, k, base);
    AppendDigit(done, Code(digit), Padded(next, base, k - 1));
  }

  lemma PeelDigit(rest: u32, k: nat, magnitude: u32, base: u8) returns (digit: nat, next: u32)
    requires base >= 1 && k > 0 && rest < Pow(base, k) && magnitude == Pow(base, k - 1)
    ensures magnitude > 0 && digit == DivU32(rest, magnitude) && next == ModU32(rest, magnitude)
    ensures digit < base && next < Pow(base, k - 1)
    ensures Padded(rest, base, k) == [Code(digit)] + Padded(next, base, k - 1)
  {
    digit, next := PeelLeading(rest, base, k - 1);
  }

  lemma Reduce(magnitude: u32, k: nat, base: u8) returns (smaller: u32)
    requires base >= 1 && k > 0 && magnitude == Pow(base, k - 1)
    ensures smaller == DivU32(magnitude, base)
    ensures k > 1 ==> smaller == Pow(base, k - 2)
  {
    smaller := DivU32(magnitude, base);
    if k > 1 {
      PowDivide(base, k - 1);
    }
  }

  lemma PowDivide(b: nat, k: nat)
    requires b >= 1 && k >= 1
    ensures Pow(b, k) / b == Pow(b, k - 1)
  {
    QuotientUnique(Pow(b, k), b, Pow(b, k - 1), 0);
  }

  lemma AppendDigit(done: seq<u8>, c: u8, rest: seq<u8>)
    ensures done + ([c] + rest) == done + [c] + rest
  {
  }

  /**
   * `_itoa`. Either the buffer is too small for the text and its NUL, and the required length is
   * returned with the buffer unchanged; or the text and one NUL are written at its start, and
   * nothing else changes.
   */
  method Itoa(x: i32, base: u8, buf: array<u8>, bufsize: u16) returns (r: u32)
    requires HasNumeral(Magnitude(x), base) && bufsize <= buf.Length
    modifies buf
    ensures bufsize <= |Text(x, base)| ==> r == |Text(x, base)| && buf[..] == old(buf[..])
    ensures bufsize > |Text(x, base)| ==>
      r == 0 && buf[..] == Text(x, base) + [0] + old(buf[|Text(x, base)| + 1..])
  {
    hide Numeral, Padded, Pow;
    var log := Ilog(base, ToU32(Abs(x)));
    TextLength(x, base, log);
    LogIsSmall(base, ToU32(Abs(x)), log);
    var ndigit: u32 := 1 + log;
    var pfx := GetPrefix(base);
    var outSize: u32 := ndigit + |pfx|;
    if x < 0 {
      outSize := outSize + 1;
    }
    if bufsize <= outSize {
      return outSize;
    }

    var offset, v := WriteHead(x, pfx, buf);
    var magnitude: u32, wrapped := Ipow(base, ndigit - 1);
    assert !wrapped;
    NumeralIsPadded(Magnitude(x), base);
    WriteDigits(buf, offset, outSize, v, magnitude, base, Text(x, base));
    buf[outSize] := 0;
    r := 0;
  }

  /** The start of `_itoa`'s output: the sign, which also makes the number positive, and the prefix. */
  method WriteHead(x: i32, pfx: seq<u8>, buf: array<u8>) returns (offset: u32, v: i32)
    requires |pfx| <= 2 && |pfx| + 1 < buf.Length
    modifies buf
    ensures offset == (if x < 0 then 1 else 0) + |pfx| && ToU32(v) == Magnitude(x)
    ensures buf[..offset] == (if x < 0 then [MINUS] else []) + pfx
    ensures forall k :: offset <= k < buf.Length ==> buf[k] == old(buf[k])
  {
    ghost var sign := if x < 0 then [MINUS] else [];
    offset, v := 0, x;
    if x < 0 {
      buf[0] := MINUS;
      offset := 1;
      v := ToI32(-(v as int));
    }
    assert ToU32(v) == Magnitude(x);
    for i := 0 to |pfx|
      invariant offset == |sign| + i
      invariant forall k :: 0 <= k < offset ==> buf[k] == (sign + pfx)[k]
      invariant forall k :: offset <= k < buf.Length ==> buf[k] == old(buf[k])
    {
      buf[offset] := pfx[i];
      offset := offset + 1;
    }
    assert buf[..offset] == sign + pfx;
  }

  /** The digit loop of `_itoa`: it completes the text that the sign and the prefix begin. */
  method WriteDigits(buf: array<u8>, start: u32, outSize: u32, x: i32, power: u32, base: u8, ghost text: seq<u8>)
    requires base >= 1 && start <= outSize <= buf.Length
    requires Peeling(buf[..start], ToU32(x), outSize - start, power, base, text)
    modifies buf
    ensures buf[..outSize] == text
    ensures forall k :: outSize <= k < buf.Length ==> buf[k] == old(buf[k])
  {
    hide Padded, Pow, DivU32, ModU32;
    var v: i32, magnitude: u32, offset: u32 := x, power, start;
    while offset < outSize
      invariant offset <= outSize
      invariant Peeling(buf[..offset], ToU32(v), outSize - offset, magnitude, base, text)
      invariant forall k :: outSize <= k < buf.Length ==> buf[k] == old(buf[k])
    {
      ghost var done := buf[..offset];
      ghost var d, next, smaller := PeelStep(done, ToU32(v), outSize - offset, magnitude, base, text);
      var digit: i32 := ToI32(DivU32(ToU32(v), magnitude));
      buf[offset] := Code(digit);
      v := ToI32(ModU32(ToU32(v), magnitude));
      magnitude := DivU32(magnitude, base);
      offset := offset + 1;
      assert buf[..offset] == done + [Code(d)];
    }
  }

  /** The leading power of `_itoa` fits a word, so `ipow` never wraps there, and neither do the lengths. */
  lemma LogIsSmall(base: nat, n: u32, k: nat)
    requires HasNumeral(n, base)
    requires if n == 0 then k == 0 else IsLog(base, n, k)
    ensures Pow(base, k) < WORD && k < 32
    ensures n < Pow(base, k + 1)
  {
    if k >= 32 {
      PowExceedsWord(base, k);
    }
    PowPositive(base, k + 1);
  }

  lemma PowExceedsWord(base: nat, k: nat)
    requires base >= 2 && k >= 32
    ensures Pow(base, k) >= WORD
  {
    PowMonotone(base, 32, k);
    PowGrows(base, 32);
    Pow2Word();
  }

  lemma Pow2Word()
    ensures Pow(2, 32) == WORD
  {
    PowAdd(2, 16, 16);
    PowAdd(2, 8, 8);
    assert Pow(2, 8) == 0x100;
  }

  lemma {:induction false} PowGrows(b: nat, k: nat)
    requires b >= 2
    ensures Pow(b, k) >= Pow(2, k)
  {
    if k != 0 {
      PowGrows(b, k - 1);
      PowPositive(2, k - 1);
      assert b * Pow(b, k - 1) >= 2 * Pow(2, k - 1);
    }
  }

  /** `itoa` and `itoh`. */
  method ItoaDecimal(x: i32, buf: array<u8>, bufsize: u16) returns (r: u32)
    requires bufsize <= buf.Length
    modifies buf
    ensures bufsize <= |Text(x, 10)| ==> r == |Text(x, 10)| && buf[..] == old(buf[..])
    ensures bufsize > |Text(x, 10)| ==>
      r == 0 && buf[..] == Text(x, 10) + [0] + old(buf[|Text(x, 10)| + 1..])
  {
    r := Itoa(x, 10, buf, bufsize);
  }

  method ItoaHex(x: i32, buf: array<u8>, bufsize: u16) returns (r: u32)
    requires bufsize <= buf.Length
    modifies buf
    ensures bufsize <= |Text(x, 16)| ==> r == |Text(x, 16)| && buf[..] == old(buf[..])
    ensures bufsize > |Text(x, 16)| ==>
      r == 0 && buf[..] == Text(x, 16) + [0] + old(buf[|Text(x, 16)| + 1..])
  {
    r := Itoa(x, 16, buf, bufsize);
  }

  /** A 12-byte buffer is enough for every integer in base 10, and in base 16 with its prefix. */
  lemma ShortText(x: i32, base: u8)
    requires base == 10 || base == 16
    ensures |Text(x, base)| <= 11
  {
    hide Numeral;
    if base == 10 {
      NumeralFits(Magnitude(x), 10, 10, 10_000_000_000);
    } else {
      NumeralFits(Magnitude(x), 16, 8, 0x1_0000_0000);
    }
  }

  lemma NumeralFits(n: nat, b: nat, k: nat, bound: nat)
    requires (b == 10 && k == 10 && bound == 10_000_000_000) || (b == 16 && k == 8 && bound == 0x1_0000_0000)
    requires n < bound
    ensures |Numeral(n, b)| <= k
  {
    hide Numeral;
    PowAdd(b, 4, 4);
    PowAdd(b, 8, 2);
    assert Pow(10, 4) == 10_000 && Pow(10, 2) == 100 && Pow(16, 4) == 0x1_0000;
    PaddedIsZerosAndNumeral(n, b, k);
  }

  /** The byte of the source that ends up `k` bytes into the destination of a forward copy. */
  function CopySource(src: nat, dst: nat, k: nat): nat {
    if dst <= src then src + k else src + k % (dst - src)
  }

  /**
   * `copy_memory`, on one memory so that the two regions may overlap in any way. Copying forward
   * moves the bytes faithfully unless the destination starts inside the source; then it repeats
   * the first dst - src bytes.
   */
  method CopyMemory(mem: array<u8>, src: nat, dst: nat, n: u16)
    requires src + n <= mem.Length && dst + n <= mem.Length
    modifies mem
    ensures forall k :: 0 <= k < n ==> mem[dst + k] == old(mem[CopySource(src, dst, k)])
    ensures forall a :: 0 <= a < mem.Length && !(dst <= a < dst + n) ==> mem[a] == old(mem[a])
  {
    var s, d := src, dst;
    while s != src + n
      invariant src <= s <= src + n && d - dst == s - src
      invariant forall k :: 0 <= k < s - src ==> mem[dst + k] == old(mem[CopySource(src, dst, k)])
      invariant forall a :: 0 <= a < mem.Length && !(dst <= a < d) ==> mem[a] == old(mem[a])
    {
      StepSource(src, dst, s - src);
      mem[d] := mem[s];
      d, s := d + 1, s + 1;
    }
  }

  /** Past the first dst - src bytes, the source byte was itself written dst - src steps ago. */
  lemma StepSource(src: nat, dst: nat, k: nat)
    ensures src <= CopySource(src, dst, k) <= src + k
    ensures dst > src && k < dst - src ==> CopySource(src, dst, k) == src + k
    ensures dst > src && k >= dst - src ==>
      CopySource(src, dst, k) == CopySource(src, dst, k - (dst - src))
  {
    if dst > src {
      var p := dst - src;
      if k < p {
        SmallModulus(k, p);
      } else {
        DivideShifted(k - p, 1, p);
        QuotientBelow(k, p);
        assert k == p * (k / p) + k % p;
      }
    }
  }

  /** `copy_memory` is a faithful move exactly when the destination does not start inside the source. */
  lemma FaithfulCopy(src: nat, dst: nat, n: nat)
    ensures (forall k :: 0 <= k < n ==> CopySource(src, dst, k) == src + k)
      <==> (dst <= src || src + n <= dst)
  {
    if src < dst < src + n {
      StepSource(src, dst, dst - src);
      StepSource(src, dst, 0);
      assert CopySource(src, dst, dst - src) == src;
    } else {
      forall k | 0 <= k < n
        ensures CopySource(src, dst, k) == src + k
      {
        StepSource(src, dst, k);
      }
    }
  }
}
