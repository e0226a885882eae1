/** Machine words of the i686 target, with the wrap-around C gives them written out. */
module Words {

  const WORD: int := 0x1_0000_0000

  type u8 = x: int | 0 <= x < 0x100
  type u16 = x: int | 0 <= x < 0x1_0000
  type u32 = x: int | 0 <= x < 0x1_0000_0000
  type i32 = x: int | -0x8000_0000 <= x < 0x8000_0000

  /** The bytes of a string of ASCII characters. */
  function Chars(s: string): (b: seq<u8>)
    ensures |b| == |s|
  {
    seq(|s|, i requires 0 <= i < |s| => if s[i] < 128 as char then s[i] as int else 0)
  }

  /** Conversion of a signed word to `uint32_t`. */
  function ToU32(x: int): u32 { x % WORD }

  /** Conversion of a word to `int32_t`, two's complement. */
  function ToI32(x: int): i32 {
    var w := x % WORD;
    if w < 0x8000_0000 then w else w - WORD
  }

  /** Unsigned division and remainder of words. */
  function DivU32(a: u32, b: u32): u32
    requires b >= 1
  {
    var q := a / b;
    assert 0 <= q <= a by { DivBelow(a, b); }
    q
  }

  function ModU32(a: u32, b: u32): u32
    requires b >= 1
  {
    a % b
  }

  lemma DivBelow(a: nat, b: nat)
    requires b >= 1
    ensures 0 <= a / b <= a
  {
    var q, r := a / b, a % b;
    assert a == b * q + r;
    assert q > a ==> b * q >= 1 * q;
  }
}
