/**
 * The unbounded paper roll behind the screen. Its rows are never lost; the screen is a window on
 * the last 25 of them.
 */
module Transcript {
  import opened Words
  import opened Screen

  /**
   * `row` may be one past the last row; that row is put on the roll only when something is
   * printed on it. `pending` counts the newlines after that, which move nothing.
   */
  datatype Roll = Roll(rows: seq<seq<Ink>>, row: nat, col: nat, pending: nat)

  predicate WellFormed(r: Roll) {
    && |r.rows| >= NROW
    && (forall line :: line in r.rows ==> |line| == NCOL)
    && r.row <= |r.rows| && r.col < NCOL
    && (r.row < |r.rows| ==> r.pending == 0)
    && (r.row == |r.rows| ==> r.col == 0)
    && r.row + NROW >= |r.rows|
  }

  function BlankLine(): (line: seq<Ink>)
    ensures |line| == NCOL
  {
    seq(NCOL, _ => BLANK)
  }

  function Fresh(): (r: Roll)
    ensures WellFormed(r)
  {
    Roll(seq(NROW, _ => BlankLine()), 0, 0, 0)
  }

  /** A row for the cursor to print on. */
  function Extend(r: Roll): (e: Roll)
    requires WellFormed(r)
    ensures WellFormed(e) && e.row < |e.rows|
  {
    if r.row < |r.rows| then r else r.(rows := r.rows + [BlankLine()], pending := 0)
  }

  function Print(r: Roll, ink: Ink): (p: Roll)
    requires WellFormed(r) && r.row < |r.rows|
    ensures WellFormed(p)
  {
    var line := r.rows[r.row][r.col := ink];
    var rows := r.rows[r.row := line];
    if r.col + 1 < NCOL then Roll(rows, r.row, r.col + 1, 0) else Roll(rows, r.row + 1, 0, 0)
  }

  function Type(r: Roll, ink: Ink): (t: Roll)
    requires WellFormed(r)
    ensures WellFormed(t)
  {
    if ink.c == NEWLINE then
      if r.row < |r.rows| then r.(row := r.row + 1, col := 0) else r.(pending := r.pending + 1)
    else if ink.c == RETURN then r.(col := 0)
    else Extend(Print(Extend(r), ink))
  }

  function TypeAll(r: Roll, inks: seq<Ink>): (t: Roll)
    requires WellFormed(r)
    ensures WellFormed(t)
  {
    if inks == [] then r else Type(TypeAll(r, inks[..|inks| - 1]), inks[|inks| - 1])
  }

  /** The first row of the window. */
  function Top(r: Roll): nat
    requires WellFormed(r)
  {
    |r.rows| - NROW
  }

  function InkAt(r: Roll, i: nat, j: nat): Ink
    requires WellFormed(r) && i < NROW && j < NCOL
  {
    r.rows[Top(r) + i][j]
  }

  /** How far below the top of the window the newlines so far have taken the cursor. */
  function Height(r: Roll): nat
    requires WellFormed(r)
  {
    r.row - Top(r) + r.pending
  }

  /** The screen shows exactly the last 25 rows of the roll, and the cursor is the roll's. */
  ghost predicate Shows(s: Screen, r: Roll)
    requires OnScreen(s) && WellFormed(r)
  {
    && (forall i: nat, j: nat :: i < NROW && j < NCOL ==> CellAt(s.cells, i, j) == InkAt(r, i, j))
    && s.x == r.col
    && s.y == Height(r)
  }

  lemma BlankCells(i: nat, j: nat)
    requires i < NROW && j < NCOL
    ensures CellAt(CLEARED.cells, i, j) == BLANK
  {
  }

  lemma ClearedShowsFresh()
    ensures OnScreen(CLEARED) && Shows(CLEARED, Fresh())
  {
    forall i: nat, j: nat | i < NROW && j < NCOL
      ensures CellAt(CLEARED.cells, i, j) == InkAt(Fresh(), i, j)
    {
      BlankCells(i, j);
    }
  }

  /** Scrolling the window is adding a row to the roll. */
  lemma ScrollShows(s: Screen, r: Roll)
    requires OnScreen(s) && WellFormed(r) && Shows(s, r)
    ensures Shows(Scrolled(s), Extend(r))
  {
    if s.y >= NROW {
      var t, e := Scrolled(s), Extend(r);
      forall i: nat, j: nat | i < NROW && j < NCOL
        ensures CellAt(t.cells, i, j) == InkAt(e, i, j)
      {
        if i + 1 < NROW {
          assert CellAt(t.cells, i, j) == CellAt(s.cells, i + 1, j);
          assert InkAt(e, i, j) == InkAt(r, i + 1, j);
        } else {
          var k := 2 * j;
          assert t.cells[2 * (j + i * NCOL)] == Blanks(NCOL)[k];
          assert t.cells[2 * (j + i * NCOL) + 1] == Blanks(NCOL)[k + 1];
        }
      }
    }
  }

  lemma PutShows(s: Screen, r: Roll, ink: Ink)
    requires OnScreen(s) && WellFormed(r) && Shows(s, r) && s.y < NROW
    ensures Shows(Put(s, ink), Print(r, ink))
  {
    hide CellAt, InkAt;
    var t, p := Put(s, ink), Print(r, ink);
    forall i: nat, j: nat | i < NROW && j < NCOL
      ensures CellAt(t.cells, i, j) == InkAt(p, i, j)
    {
      PutCell(s, ink, i, j);
      PrintInk(r, ink, i, j);
    }
    PutCursor(s, r, ink);
  }

  lemma PutCursor(s: Screen, r: Roll, ink: Ink)
    requires OnScreen(s) && WellFormed(r) && s.y < NROW && s.x == r.col && s.y == Height(r)
    ensures r.row < |r.rows|
    ensures Put(s, ink).x == Print(r, ink).col && Put(s, ink).y == Height(Print(r, ink))
  {
    NextCell(s.x, s.y);
  }

  lemma NextCell(x: u8, y: u8)
    requires x < NCOL
    ensures (Offset(x, y) + 2) / 2 % NCOL == if x + 1 < NCOL then x + 1 else 0
    ensures (Offset(x, y) + 2) / 2 / NCOL == if x + 1 < NCOL then y else y + 1
  {
    assert (Offset(x, y) + 2) / 2 == x + 1 + y * NCOL;
  }

  lemma PutCell(s: Screen, ink: Ink, i: nat, j: nat)
    requires OnScreen(s) && s.y < NROW && i < NROW && j < NCOL
    ensures CellAt(Put(s, ink).cells, i, j) == if i == s.y && j == s.x then ink else CellAt(s.cells, i, j)
  {
  }

  lemma PrintInk(r: Roll, ink: Ink, i: nat, j: nat)
    requires WellFormed(r) && r.row < |r.rows| && i < NROW && j < NCOL
    ensures InkAt(Print(r, ink), i, j) == if Top(r) + i == r.row && j == r.col then ink else InkAt(r, i, j)
  {
  }

  /** One character: the window stays right except when the cursor byte wraps. */
  lemma WriteShows(s: Screen, r: Roll, ink: Ink)
    requires OnScreen(s) && WellFormed(r) && Shows(s, r)
    ensures Shows(Write(s, ink), Type(r, ink)) <==> !(ink.c == NEWLINE && Height(r) == 255)
  {
    if Printable(ink) {
      hide Scrolled, Put, Extend, Print;
      ScrollShows(s, r);
      PutShows(Scrolled(s), Extend(r), ink);
      ScrollShows(Put(Scrolled(s), ink), Print(Extend(r), ink));
    } else {
      forall i: nat, j: nat | i < NROW && j < NCOL
        ensures CellAt(Write(s, ink).cells, i, j) == InkAt(Type(r, ink), i, j)
      {
        assert CellAt(s.cells, i, j) == InkAt(r, i, j);
      }
    }
  }

  function Paper(inks: seq<Ink>): (r: Roll)
    ensures WellFormed(r)
  {
    TypeAll(Fresh(), inks)
  }

  /** No newline of the stream arrives when 255 rows down is where the cursor already is. */
  ghost predicate NeverWraps(inks: seq<Ink>) {
    forall k :: 0 <= k < |inks| && inks[k].c == NEWLINE ==> Height(Paper(inks[..k])) != 255
  }

  /** The screen is a window on the transcript throughout a stream. */
  ghost predicate ShownThroughout(inks: seq<Ink>) {
    forall k :: 0 <= k <= |inks| ==> Shows(Run(CLEARED, inks[..k]), Paper(inks[..k]))
  }

  lemma PrefixStep(inks: seq<Ink>, k: nat)
    requires k < |inks|
    ensures Run(CLEARED, inks[..k + 1]) == Write(Run(CLEARED, inks[..k]), inks[k])
    ensures Paper(inks[..k + 1]) == Type(Paper(inks[..k]), inks[k])
  {
    assert inks[..k + 1][..k] == inks[..k];
  }

  lemma {:induction false} ShownUpTo(inks: seq<Ink>, k: nat)
    requires k <= |inks| && NeverWraps(inks)
    ensures Shows(Run(CLEARED, inks[..k]), Paper(inks[..k]))
  {
    if k == 0 {
      ClearedShowsFresh();
    } else {
      hide Run, TypeAll, Write, Type, Height, Shows, Fresh, WellFormed, OnScreen;
      ShownUpTo(inks, k - 1);
      PrefixStep(inks, k - 1);
      WriteShows(Run(CLEARED, inks[..k - 1]), Paper(inks[..k - 1]), inks[k - 1]);
    }
  }

  /**
   * For every stream written to a cleared screen: after every character the 4000 bytes and the
   * cursor are the window on the transcript, if and only if no newline wraps the cursor byte.
   */
  lemma WindowOnTranscript(inks: seq<Ink>)
    ensures ShownThroughout(inks) <==> NeverWraps(inks)
  {
    if NeverWraps(inks) {
      forall k | 0 <= k <= |inks|
        ensures Shows(Run(CLEARED, inks[..k]), Paper(inks[..k]))
      {
        ShownUpTo(inks, k);
      }
    }
    if ShownThroughout(inks) {
      forall k | 0 <= k < |inks| && inks[k].c == NEWLINE
        ensures Height(Paper(inks[..k])) != 255
      {
        assert Shows(Run(CLEARED, inks[..k]), Paper(inks[..k]));
        assert Shows(Run(CLEARED, inks[..k + 1]), Paper(inks[..k + 1]));
        PrefixStep(inks, k);
        WriteShows(Run(CLEARED, inks[..k]), Paper(inks[..k]), inks[k]);
      }
    }
  }

  /** `n` newlines. */
  function Newlines(n: nat): (inks: seq<Ink>)
    ensures |inks| == n
  {
    seq(n, _ => Ink(NEWLINE, 0))
  }

  lemma NewlinesGrow(inks: seq<Ink>, n: nat)
    ensures Paper(inks + Newlines(n + 1)) == Type(Paper(inks + Newlines(n)), Ink(NEWLINE, 0))
  {
    PaperStep(inks + Newlines(n), Ink(NEWLINE, 0));
    assert inks + Newlines(n + 1) == inks + Newlines(n) + [Ink(NEWLINE, 0)];
  }

  /** Newlines add their number to the height. */
  lemma {:induction false} HeightOfNewlines(inks: seq<Ink>, n: nat)
    ensures Height(Paper(inks + Newlines(n))) == Height(Paper(inks)) + n
  {
    hide TypeAll, Type, Height, Fresh;
    if n == 0 {
      assert inks + Newlines(0) == inks;
    } else {
      HeightOfNewlines(inks, n - 1);
      NewlinesGrow(inks, n - 1);
      TypedHeight(Paper(inks + Newlines(n - 1)), Ink(NEWLINE, 0));
    }
  }

  /** As long as nothing has wrapped, the height fits the row byte. */
  lemma {:induction false} HeightFits(inks: seq<Ink>)
    requires NeverWraps(inks)
    ensures Height(Paper(inks)) <= 255
  {
    hide TypeAll, Type, Height, Fresh;
    if inks == [] {
      EmptyPaper();
    } else {
      var rest, last := inks[..|inks| - 1], inks[|inks| - 1];
      forall k | 0 <= k < |rest| && rest[k].c == NEWLINE
        ensures Height(Paper(rest[..k])) != 255
      {
        assert rest[..k] == inks[..k] && rest[k] == inks[k];
      }
      HeightFits(rest);
      assert rest + [last] == inks;
      PaperStep(rest, last);
      TypedHeight(Paper(rest), last);
    }
  }

  /** Enough newlines always wrap: from height h, 256 - h of them do, and fewer do not. */
  lemma NewlinesWrap(inks: seq<Ink>, n: nat)
    requires NeverWraps(inks)
    ensures NeverWraps(inks + Newlines(n)) <==> Height(Paper(inks)) + n <= 255
  {
    hide TypeAll, Type, Height, Fresh, Newlines, NeverWraps;
    HeightFits(inks);
    if Height(Paper(inks)) + n <= 255 {
      NewlinesFit(inks, n);
    } else {
      NewlinesOverflow(inks, n);
    }
  }

  lemma NewlinesFit(inks: seq<Ink>, n: nat)
    requires NeverWraps(inks) && Height(Paper(inks)) + n <= 255
    ensures NeverWraps(inks + Newlines(n))
  {
    hide TypeAll, Type, Height, Fresh, Newlines, WellFormed;
    var all := inks + Newlines(n);
    forall k | 0 <= k < |all| && all[k].c == NEWLINE
      ensures Height(Paper(all[..k])) != 255
    {
      if k < |inks| {
        assert all[..k] == inks[..k] && all[k] == inks[k];
      } else {
        NewlinesPrefix(inks, n, k - |inks|);
        HeightOfNewlines(inks, k - |inks|);
      }
    }
  }

  lemma NewlinesOverflow(inks: seq<Ink>, n: nat)
    requires Height(Paper(inks)) <= 255 < Height(Paper(inks)) + n
    ensures !NeverWraps(inks + Newlines(n))
  {
    hide TypeAll, Type, Height, Fresh, Newlines, WellFormed;
    var k := 255 - Height(Paper(inks));
    NewlinesPrefix(inks, n, k);
    HeightOfNewlines(inks, k);
  }

  lemma NewlinesPrefix(inks: seq<Ink>, n: nat, k: nat)
    requires k < n
    ensures (inks + Newlines(n))[..|inks| + k] == inks + Newlines(k)
    ensures (inks + Newlines(n))[|inks| + k].c == NEWLINE
  {
  }

  lemma EmptyPaper()
    ensures Height(Paper([])) == 0 && NeverWraps([])
  {
  }

  /** From a cleared screen, 255 newlines are the most: the 256th takes the cursor back to the top. */
  lemma NewlinesFromTop()
    ensures NeverWraps(Newlines(255)) && !NeverWraps(Newlines(256))
    ensures !ShownThroughout(Newlines(256))
  {
    hide Height, TypeAll, Fresh, NeverWraps, Newlines, ShownThroughout;
    EmptyPaper();
    NewlinesWrap([], 255);
    NewlinesWrap([], 256);
    assert [] + Newlines(255) == Newlines(255) && [] + Newlines(256) == Newlines(256);
    WindowOnTranscript(Newlines(256));
  }

  /** After something printed on the last row, 231 newlines are the most. */
  lemma NewlinesFromBottom(ink: Ink)
    requires Printable(ink)
    ensures NeverWraps(Newlines(24) + [ink] + Newlines(231))
    ensures !NeverWraps(Newlines(24) + [ink] + Newlines(232))
  {
    hide Height, TypeAll, Fresh, NeverWraps, Newlines;
    BottomRow(ink);
    NewlinesWrap(Newlines(24) + [ink], 231);
    NewlinesWrap(Newlines(24) + [ink], 232);
  }

  lemma BottomRow(ink: Ink)
    requires Printable(ink)
    ensures NeverWraps(Newlines(24) + [ink]) && Height(Paper(Newlines(24) + [ink])) == 24
  {
    hide Height, TypeAll, Fresh, NeverWraps, Newlines;
    EmptyPaper();
    HeightOfNewlines([], 24);
    NewlinesWrap([], 24);
    NewlinesGrow([], 23);
    assert [] + Newlines(24) == Newlines(24);
    PaperStep(Newlines(24), ink);
    PrintedInPlace(Paper(Newlines(24)), ink);
    PrintingDoesNotWrap(Newlines(24), ink);
  }

  lemma PrintingDoesNotWrap(inks: seq<Ink>, ink: Ink)
    requires NeverWraps(inks) && Printable(ink)
    ensures NeverWraps(inks + [ink])
  {
    hide Height, TypeAll, Fresh;
    var all := inks + [ink];
    forall k | 0 <= k < |all| && all[k].c == NEWLINE
      ensures Height(Paper(all[..k])) != 255
    {
      assert k < |inks| && all[..k] == inks[..k] && all[k] == inks[k];
    }
  }

  lemma PrintedInPlace(r: Roll, ink: Ink)
    requires WellFormed(r) && Printable(ink) && r.col == 0 && Height(r) < NROW
    ensures Height(Type(r, ink)) == Height(r)
  {
  }

  /** Newlines since the last printable character. */
  function Streak(inks: seq<Ink>): nat {
    if inks == [] then 0
    else
      var last, rest := inks[|inks| - 1], inks[..|inks| - 1];
      if last.c == NEWLINE then Streak(rest) + 1
      else if last.c == RETURN then Streak(rest)
      else 0
  }

  predicate AnyPrintable(inks: seq<Ink>) {
    exists k :: 0 <= k < |inks| && Printable(inks[k])
  }

  /** At most 231 newlines between printable characters, and at most 255 before the first. */
  ghost predicate Calm(inks: seq<Ink>) {
    forall k {:trigger inks[..k]} :: 0 <= k <= |inks| ==>
      Streak(inks[..k]) <= if AnyPrintable(inks[..k]) then 231 else 255
  }

  lemma AnyPrintableGrows(inks: seq<Ink>, ink: Ink)
    ensures AnyPrintable(inks + [ink]) <==> AnyPrintable(inks) || Printable(ink)
  {
    var all := inks + [ink];
    if AnyPrintable(inks) {
      var k :| 0 <= k < |inks| && Printable(inks[k]);
      assert Printable(all[k]);
    }
    if Printable(ink) {
      assert Printable(all[|inks|]);
    }
  }

  lemma PaperStep(inks: seq<Ink>, ink: Ink)
    ensures Paper(inks + [ink]) == Type(Paper(inks), ink)
  {
    assert (inks + [ink])[..|inks|] == inks;
  }

  ghost predicate BoundedHeight(inks: seq<Ink>) {
    Height(Paper(inks)) <= Streak(inks) + if AnyPrintable(inks) then NROW - 1 else 0
  }

  lemma BoundedHeightGrows(inks: seq<Ink>, ink: Ink)
    requires BoundedHeight(inks)
    ensures BoundedHeight(inks + [ink])
  {
    hide AnyPrintable, TypeAll, Type, Height, Fresh;
    assert (inks + [ink])[..|inks|] == inks;
    PaperStep(inks, ink);
    AnyPrintableGrows(inks, ink);
    TypedHeight(Paper(inks), ink);
  }

  lemma BoundedHeightEmpty()
    ensures BoundedHeight([])
  {
  }

  lemma {:induction false} HeightBound(inks: seq<Ink>)
    ensures BoundedHeight(inks)
  {
    hide BoundedHeight;
    if inks == [] {
      BoundedHeightEmpty();
    } else {
      HeightBound(inks[..|inks| - 1]);
      BoundedHeightGrows(inks[..|inks| - 1], inks[|inks| - 1]);
      assert inks[..|inks| - 1] + [inks[|inks| - 1]] == inks;
    }
  }

  /** A printable character leaves the cursor inside the window; a newline takes it one row down. */
  lemma TypedHeight(r: Roll, ink: Ink)
    requires WellFormed(r)
    ensures Printable(ink) ==> Height(Type(r, ink)) < NROW
    ensures ink.c == NEWLINE ==> Height(Type(r, ink)) == Height(r) + 1
    ensures ink.c == RETURN ==> Height(Type(r, ink)) == Height(r)
  {
  }

  /** A condition on the text alone under which the screen never goes wrong. */
  lemma CalmNeverWraps(inks: seq<Ink>)
    requires Calm(inks)
    ensures NeverWraps(inks)
  {
    forall k | 0 <= k < |inks| && inks[k].c == NEWLINE
      ensures Height(Paper(inks[..k])) != 255
    {
      HeightBound(inks[..k]);
      var next := inks[..k + 1];
      assert next[..|next| - 1] == inks[..k];
      assert next == inks[..k] + [inks[k]];
      AnyPrintableGrows(inks[..k], inks[k]);
    }
  }

  /** The transcript is a record: what is above the cursor is never changed again. */
  lemma {:induction false} HistoryKept(r: Roll, inks: seq<Ink>, i: nat)
    requires WellFormed(r) && i < r.row
    ensures i < TypeAll(r, inks).row && TypeAll(r, inks).rows[i] == r.rows[i]
  {
    if inks != [] {
      HistoryKept(r, inks[..|inks| - 1], i);
    }
  }

  /** The plain text at index `k` of a stream, blank past its end. */
  function TextAt(inks: seq<Ink>, k: nat): Ink {
    if k < |inks| then inks[k] else BLANK
  }

  /** The roll on which `inks` is simply cut into rows of 80. */
  ghost predicate IsCutText(r: Roll, inks: seq<Ink>)
    requires WellFormed(r)
  {
    var n := |inks|;
    && r.row == n / NCOL && r.col == n % NCOL && r.pending == 0
    && |r.rows| == (if n / NCOL + 1 < NROW then NROW else n / NCOL + 1)
    && forall i: nat, j: nat :: i < |r.rows| && j < NCOL ==> r.rows[i][j] == TextAt(inks, NCOL * i + j)
  }

  lemma {:induction false} PrintableTextIsCut(inks: seq<Ink>)
    requires forall ink :: ink in inks ==> Printable(ink)
    ensures IsCutText(Paper(inks), inks)
  {
    if inks != [] {
      var n := |inks| - 1;
      var rest, last := inks[..n], inks[n];
      PrintableTextIsCut(rest);
      assert last in inks;
      TypeCut(Paper(rest), rest, last);
      assert rest + [last] == inks;
    }
  }

  lemma TypeCut(r: Roll, inks: seq<Ink>, ink: Ink)
    requires WellFormed(r) && IsCutText(r, inks) && Printable(ink)
    ensures IsCutText(Type(r, ink), inks + [ink])
  {
    var n, t, all := |inks|, Type(r, ink), inks + [ink];
    assert (n + 1) / NCOL == if n % NCOL + 1 < NCOL then n / NCOL else n / NCOL + 1;
    forall i: nat, j: nat | i < |t.rows| && j < NCOL
      ensures t.rows[i][j] == TextAt(all, NCOL * i + j)
    {
      if i < |r.rows| {
        assert r.rows[i][j] == TextAt(inks, NCOL * i + j);
      }
    }
  }

  /**
   * The screen on which a text of n characters is simply cut into rows: cell (i, j) holds character
   * 80 * (top + i) + j, with top the larger of 0 and n / 80 - 24, or is blank if there is no such
   * character, and the cursor is where the next character goes.
   */
  ghost predicate ShowsText(s: Screen, inks: seq<Ink>)
    requires OnScreen(s)
  {
    var n := |inks|;
    var top := if n / NCOL < NROW then 0 else n / NCOL - (NROW - 1);
    && s.x == n % NCOL && s.y == n / NCOL - top
    && forall i: nat, j: nat :: i < NROW && j < NCOL ==> CellAt(s.cells, i, j) == TextAt(inks, NCOL * (top + i) + j)
  }

  /** Closed form: after any number of printable characters on a cleared screen, it shows that text. */
  lemma ScreenOfPrintableText(inks: seq<Ink>)
    requires forall ink :: ink in inks ==> Printable(ink)
    ensures ShowsText(Run(CLEARED, inks), inks)
  {
    hide Run, TypeAll, Fresh, Height, IsCutText, ShowsText;
    PrintableTextIsCut(inks);
    assert NeverWraps(inks) by {
      forall k | 0 <= k < |inks|
        ensures inks[k].c != NEWLINE
      {
        assert inks[k] in inks;
      }
    }
    ShownUpTo(inks, |inks|);
    assert inks[..|inks|] == inks;
    CutWindow(Run(CLEARED, inks), Paper(inks), inks);
  }

  lemma CutWindow(s: Screen, r: Roll, inks: seq<Ink>)
    requires OnScreen(s) && WellFormed(r) && Shows(s, r) && IsCutText(r, inks)
    ensures ShowsText(s, inks)
  {
    var q := |inks| / NCOL;
    assert Top(r) == if q < NROW then 0 else q - (NROW - 1);
    forall i: nat, j: nat | i < NROW && j < NCOL
      ensures CellAt(s.cells, i, j) == TextAt(inks, NCOL * (Top(r) + i) + j)
    {
      assert CellAt(s.cells, i, j) == InkAt(r, i, j);
    }
  }
}
