/**
 * The text screen of src/driver/vga.c as a value: the 4000 bytes of video memory and the two
 * cursor bytes, with the effect of each operation. The `Console` class refines these functions.
 */
module Screen {
  import opened Words

  const NCOL := 80
  const NROW := 25
  const ROW_BYTES := 160
  const SCREEN_BYTES := 4000

  const NEWLINE: u8 := 10
  const RETURN: u8 := 13

  /** A character with its colour attribute: two bytes of video memory. */
  datatype Ink = Ink(c: u8, attr: u8)

  const BLANK := Ink(32, 0)

  predicate Printable(ink: Ink) {
    ink.c != NEWLINE && ink.c != RETURN
  }

  datatype Screen = Screen(cells: seq<u8>, x: u8, y: u8)

  /** What every operation keeps: a cursor past the last row is always in column 0. */
  predicate OnScreen(s: Screen) {
    |s.cells| == SCREEN_BYTES && s.x < NCOL && (s.y >= NROW ==> s.x == 0)
  }

  /** `get_offset`. */
  function Offset(x: u8, y: u8): u16
    requires x < NCOL
  {
    2 * (x + y * NCOL)
  }

  function CellAt(cells: seq<u8>, i: nat, j: nat): Ink
    requires |cells| == SCREEN_BYTES && i < NROW && j < NCOL
  {
    Ink(cells[2 * (j + i * NCOL)], cells[2 * (j + i * NCOL) + 1])
  }

  /** `n` blank cells. */
  function Blanks(n: nat): (b: seq<u8>)
    ensures |b| == 2 * n
  {
    seq(2 * n, k => if k % 2 == 0 then BLANK.c else BLANK.attr)
  }

  const CLEARED := Screen(Blanks(NROW * NCOL), 0, 0)

  /** `handle_scrolling`: one row up, whatever the depth of the cursor. */
  function Scrolled(s: Screen): (r: Screen)
    requires OnScreen(s)
    ensures OnScreen(r) && r.y < NROW
  {
    if s.y < NROW then s
    else Screen(s.cells[ROW_BYTES..] + Blanks(NCOL), 0, NROW - 1)
  }

  function Put(s: Screen, ink: Ink): (r: Screen)
    requires OnScreen(s) && s.y < NROW
    ensures OnScreen(r)
  {
    var o := Offset(s.x, s.y);
    var next := (o + 2) / 2;
    Screen(s.cells[o := ink.c][o + 1 := ink.attr], next % NCOL, next / NCOL)
  }

  /** `write_char`. */
  function Write(s: Screen, ink: Ink): (r: Screen)
    requires OnScreen(s)
    ensures OnScreen(r)
  {
    if ink.c == NEWLINE then s.(y := (s.y + 1) % 0x100, x := 0)
    else if ink.c == RETURN then s.(x := 0)
    else Scrolled(Put(Scrolled(s), ink))
  }

  // ---------- Byte for byte ----------

  /** Where the next printed character goes, after any scrolling before it. */
  function PutAddress(s: Screen): nat {
    if s.y >= 25 then 3840 else 160 * s.y + 2 * s.x
  }

  /** By how many bytes the memory moves up: a row before the character, or a row after the last cell. */
  function MovedBy(s: Screen): nat {
    if s.y >= 25 || PutAddress(s) == 3998 then 160 else 0
  }

  /** Where the character ends up. */
  function CharAddress(s: Screen): nat {
    if PutAddress(s) == 3998 then 3838 else PutAddress(s)
  }

  /** The memory and the cursor after one character, from those before it. */
  ghost predicate CharWritten(s: Screen, ink: Ink, t: Screen)
    requires OnScreen(s) && OnScreen(t)
  {
    if ink.c == 10 then t.cells == s.cells && t.x == 0 && t.y == (s.y + 1) % 256
    else if ink.c == 13 then t.cells == s.cells && t.x == 0 && t.y == s.y
    else
      && t.cells[CharAddress(s)] == ink.c && t.cells[CharAddress(s) + 1] == ink.attr
      && (forall k: nat :: k < 4000 && k != CharAddress(s) && k != CharAddress(s) + 1 ==>
            t.cells[k] == if k + MovedBy(s) < 4000 then s.cells[k + MovedBy(s)] else if k % 2 == 0 then 32 else 0)
      && 160 * t.y + 2 * t.x == (if PutAddress(s) == 3998 then 3840 else PutAddress(s) + 2)
  }

  lemma WriteByBytes(s: Screen, ink: Ink)
    requires OnScreen(s)
    ensures CharWritten(s, ink, Write(s, ink))
  {
    if ink.c != 10 && ink.c != 13 {
      var a := Scrolled(s);
      ScrolledBytes(s);
      PutBytes(a, ink);
      ScrolledBytes(Put(a, ink));
    }
  }

  lemma ScrolledBytes(s: Screen)
    requires OnScreen(s)
    ensures var t, d := Scrolled(s), if s.y >= 25 then 160 else 0;
      && t.x == s.x && t.y == (if s.y >= 25 then 24 else s.y)
      && forall k: nat :: k < 4000 ==>
        t.cells[k] == if k + d < 4000 then s.cells[k + d] else if k % 2 == 0 then 32 else 0
  {
  }

  lemma PutBytes(s: Screen, ink: Ink)
    requires OnScreen(s) && s.y < 25
    ensures var t, o := Put(s, ink), 160 * s.y + 2 * s.x;
      && o + 1 < 4000 && t.cells == s.cells[o := ink.c][o + 1 := ink.attr]
      && t.x < 80 && 160 * t.y + 2 * t.x == o + 2
  {
  }

  lemma ClearedBytes()
    ensures |CLEARED.cells| == 4000 && forall k :: 0 <= k < 4000 ==> CLEARED.cells[k] == if k % 2 == 0 then 32 else 0
    ensures CLEARED.x == CLEARED.y == 0
  {
  }

  /** A stream of characters, first to last. */
  function Run(s: Screen, inks: seq<Ink>): (r: Screen)
    requires OnScreen(s)
    ensures OnScreen(r)
  {
    if inks == [] then s else Write(Run(s, inks[..|inks| - 1]), inks[|inks| - 1])
  }

  lemma {:induction false} RunAppend(s: Screen, a: seq<Ink>, b: seq<Ink>)
    requires OnScreen(s)
    ensures Run(s, a + b) == Run(Run(s, a), b)
  {
    if b == [] {
      assert a + b == a;
    } else {
      RunAppend(s, a, b[..|b| - 1]);
      assert (a + b)[..|a + b| - 1] == a + b[..|b| - 1];
    }
  }
}
