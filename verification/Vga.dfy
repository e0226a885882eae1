/** src/driver/vga.c: the console, writing to video memory in place. */
module Vga {
  import opened Words
  import opened Wrappers
  import opened Screen
  import opened Transcript
  import opened Util
  import opened Format

  /** The attribute byte of a pair of colours. */
  function Attribute(fg: u8, bg: u8): u8 {
    (bg * 16 + fg) % 0x100
  }

  const BLACK: u8 := 0
  const WHITE: u8 := 15

  /** The low half of the attribute is the colour of the character, the high half that behind it. */
  lemma AttributeHalves(fg: u8, bg: u8)
    requires fg < 16 && bg < 16
    ensures Attribute(fg, bg) % 16 == fg && Attribute(fg, bg) / 16 == bg
  {
  }

  function Inks(text: seq<u8>, attr: u8): (inks: seq<Ink>)
    ensures |inks| == |text|
  {
    seq(|text|, i requires 0 <= i < |text| => Ink(text[i], attr))
  }

  class Console {
    const mem: array<u8>
    var x: u8
    var y: u8

    ghost predicate Valid()
      reads this, mem
    {
      mem.Length == SCREEN_BYTES && OnScreen(Contents())
    }

    ghost function Contents(): Screen
      reads this, mem
    {
      Screen(mem[..], x, y)
    }

    /** The statics start at 0; the memory holds whatever the firmware left there. */
    constructor (videoMemory: array<u8>)
      requires videoMemory.Length == SCREEN_BYTES
      ensures Valid() && mem == videoMemory && Contents() == Screen(videoMemory[..], 0, 0)
    {
      mem := videoMemory;
      x, y := 0, 0;
    }

    /** `clrscr`. */
    method Clrscr()
      requires mem.Length == SCREEN_BYTES
      modifies this, mem
      ensures Valid() && Contents() == CLEARED
      ensures (forall k :: 0 <= k < 4000 ==> mem[k] == if k % 2 == 0 then 32 else 0) && x == y == 0
    {
      ClearedBytes();
      var i := 0;
      while i < NROW * NCOL * 2
        invariant i % 2 == 0 && i <= SCREEN_BYTES
        invariant forall k :: 0 <= k < i ==> mem[k] == CLEARED.cells[k]
      {
        mem[i] := 32;
        mem[i + 1] := 0;
        i := i + 2;
      }
      x := 0;
      y := 0;
      assert mem[..] == CLEARED.cells;
    }

    /** `handle_scrolling`: 24 row copies and a blank last row make one shift of the whole memory. */
    method HandleScrolling()
      requires Valid()
      modifies this, mem
      ensures Valid() && Contents() == Scrolled(old(Contents()))
    {
      if y < NROW {
        return;
      }
      ghost var before := mem[..];
      for i := 1 to NROW
        invariant forall k :: 0 <= k < (i - 1) * ROW_BYTES ==> mem[k] == before[k + ROW_BYTES]
        invariant forall k :: (i - 1) * ROW_BYTES <= k < SCREEN_BYTES ==> mem[k] == before[k]
      {
        MoveRow(i);
      }
      ClearLastRow();
      x := 0;
      y := NROW - 1;
      assert mem[..] == before[ROW_BYTES..] + Blanks(NCOL);
    }

    /** One turn of the scrolling loop: row `i` is copied over the row before it. */
    method MoveRow(i: u8)
      requires mem.Length == SCREEN_BYTES && 1 <= i < NROW
      modifies mem
      ensures forall k :: (i - 1) * ROW_BYTES <= k < i * ROW_BYTES ==> mem[k] == old(mem[k + ROW_BYTES])
      ensures forall k :: 0 <= k < SCREEN_BYTES && !((i - 1) * ROW_BYTES <= k < i * ROW_BYTES) ==> mem[k] == old(mem[k])
    {
      ghost var start := mem[..];
      var src, dst := Offset(0, i), Offset(0, i - 1);
      CopyMemory(mem, src, dst, NCOL * 2);
      forall k | dst <= k < src
        ensures mem[k] == start[k + ROW_BYTES]
      {
        assert mem[dst + (k - dst)] == start[CopySource(src, dst, k - dst)];
      }
    }

    method ClearLastRow()
      requires mem.Length == SCREEN_BYTES
      modifies mem
      ensures forall k :: 0 <= k < SCREEN_BYTES - ROW_BYTES ==> mem[k] == old(mem[k])
      ensures forall k :: SCREEN_BYTES - ROW_BYTES <= k < SCREEN_BYTES ==>
        mem[k] == Blanks(NCOL)[k - (SCREEN_BYTES - ROW_BYTES)]
    {
      var last := Offset(0, NROW - 1);
      var i := 0;
      while i < NCOL * 2
        invariant i % 2 == 0 && i <= NCOL * 2
        invariant forall k :: 0 <= k < last ==> mem[k] == old(mem[k])
        invariant forall k :: last <= k < last + i ==> mem[k] == Blanks(NCOL)[k - last]
      {
        mem[last + i] := 32;
        mem[last + i + 1] := 0;
        i := i + 2;
      }
    }

    /** `write_char`. */
    method WriteChar(c: u8, fg: u8, bg: u8)
      requires Valid()
      modifies this, mem
      ensures Valid() && Contents() == Write(old(Contents()), Ink(c, Attribute(fg, bg)))
      ensures CharWritten(old(Contents()), Ink(c, Attribute(fg, bg)), Contents())
      ensures c != 10 && c != 13 && fg < 16 && bg < 16 ==>
        var at := CharAddress(old(Contents()));
        at + 1 < mem.Length && mem[at] == c && mem[at + 1] % 16 == fg && mem[at + 1] / 16 == bg
    {
      hide CharWritten, CharAddress, Attribute;
      WrittenChar(Contents(), c, fg, bg);
      if c == NEWLINE {
        y := (y + 1) % 0x100;
        x := 0;
        return;
      } else if c == RETURN {
        x := 0;
        return;
      }
      HandleScrolling();
      var buf := Offset(x, y);
      mem[buf] := c;
      mem[buf + 1] := Attribute(fg, bg);
      var offset := (buf + 2) / 2;
      y := offset / NCOL;
      x := offset % NCOL;
      HandleScrolling();
    }

    /** The loops of `_cprint` that print a string up to its NUL. */
    method WriteString(buf: array<u8>, ghost text: seq<u8>, fg: u8, bg: u8)
      requires Valid() && buf != mem
      requires |text| < 0xff && |text| < buf.Length && buf[..|text|] == text && buf[|text|] == 0 && 0 !in text
      modifies this, mem
      ensures Valid() && Contents() == Run(old(Contents()), Inks(text, Attribute(fg, bg)))
    {
      ghost var inks := Inks(text, Attribute(fg, bg));
      var i: u8 := 0;
      while buf[i] != 0
        invariant Valid() && i <= |text|
        invariant buf[|text|] == 0
        invariant forall k :: 0 <= k < |text| ==> buf[k] == text[k] != 0
        invariant Contents() == Run(old(Contents()), inks[..i])
        decreases |text| - i
      {
        assert inks[..i + 1][..i] == inks[..i];
        WriteChar(buf[i], fg, bg);
        i := i + 1;
      }
      assert inks[..i] == inks;
    }

    method WriteText(text: seq<u8>, fg: u8, bg: u8)
      requires Valid()
      modifies this, mem
      ensures Valid() && Contents() == Run(old(Contents()), Inks(text, Attribute(fg, bg)))
    {
      ghost var inks := Inks(text, Attribute(fg, bg));
      for i := 0 to |text|
        invariant Valid() && Contents() == Run(old(Contents()), inks[..i])
      {
        assert inks[..i + 1][..i] == inks[..i];
        WriteChar(text[i], fg, bg);
      }
      assert inks[..|text|] == inks;
    }

    /** The cases of `_cprint` that take an argument. `buf` is its 32-byte number buffer. */
    method PrintArg(spec: u8, arg: Arg, buf: array<u8>, fg: u8, bg: u8)
      requires Valid() && buf != mem && buf.Length == 32
      requires TakesArg(spec) && ArgFits(spec, arg)
      modifies this, mem, buf
      ensures Valid()
      ensures Contents() == Run(old(Contents()), Inks(RenderArg(spec, arg), Attribute(fg, bg)))
    {
      match arg {
        case Char(code) =>
          RunSingle(Contents(), code % 0x100, Attribute(fg, bg));
          WriteChar(code % 0x100, fg, bg);
        case Str(text) =>
          WriteText(text, fg, bg);
        case Num(value) =>
          ghost var text := RenderArg(spec, arg);
          ghost var base := if spec == LOWER_D then 10 else 16;
          ShortText(value, base);
          TextHasNoNul(value, base);
          var tooLong;
          if spec == LOWER_D {
            tooLong := ItoaDecimal(value, buf, 32);
          } else {
            tooLong := ItoaHex(value, buf, 32);
          }
          assert buf[..|text|] == text && buf[|text|] == 0;
          WriteString(buf, text, fg, bg);
      }
    }

    /**
     * `_cprint`: interprets the format directly on the screen. The screen ends up as if the
     * rendered text had been written one character at a time; a null message prints nothing.
     */
    method Cprint(msg: Option<seq<u8>>, fg: u8, bg: u8, args: seq<Arg>)
      requires Valid()
      requires msg.Some? ==> Matches(msg.value, args)
      modifies this, mem
      ensures Valid()
      ensures Contents() == Run(old(Contents()), Printed(msg, args, Attribute(fg, bg)))
      ensures msg.None? ==> Contents() == old(Contents())
      ensures msg.Some? ==>
        Contents() == Run(old(Contents()), Inks(Render(msg.value, args), Attribute(fg, bg)))
    {
      RunNothing(Contents(), Attribute(fg, bg));
      if msg.None? {
        return;
      }
      hide Run, Write, RenderArg, ArgFits, Inks, Left, LeftFits, OnScreen, Matches, Render;
      ghost var start := Contents();
      ghost var attr := Attribute(fg, bg);
      ghost var done := [];
      var buf := new u8[32];
      var p, a := 0, 0;
      WholeIsLeft(msg.value, args);
      while p < |msg.value|
        invariant Valid() && p <= |msg.value|
        invariant LeftFits(msg.value, p, args, a)
        invariant Contents() == Run(start, Inks(done, attr))
        invariant done + Left(msg.value, p, args, a) == Render(msg.value, args)
        decreases |msg.value| - p
      {
        ghost var piece;
        p, a, piece := PrintNext(msg.value, p, args, a, buf, fg, bg);
        RunPiece(start, done, piece, attr);
        Regroup(done, piece, Left(msg.value, p, args, a));
        done := done + piece;
      }
      NothingLeft(msg.value, p, args, a);
      assert done + [] == done;
    }

    /** One turn of `_cprint`'s loop: a literal character or a specifier. */
    method PrintNext(msg: seq<u8>, p: nat, args: seq<Arg>, a: nat, buf: array<u8>, fg: u8, bg: u8)
      returns (p': nat, a': nat, ghost piece: seq<u8>)
      requires Valid() && buf != mem && buf.Length == 32
      requires LeftFits(msg, p, args, a) && p < |msg|
      modifies this, mem, buf
      ensures Valid() && Contents() == Run(old(Contents()), Inks(piece, Attribute(fg, bg)))
      ensures LeftFits(msg, p', args, a') && p < p' <= |msg|
      ensures Left(msg, p, args, a) == piece + Left(msg, p', args, a')
    {
      hide Run, Write, RenderArg, ArgFits, Inks, Left, LeftFits, OnScreen;
      LeftStep(msg, p, args, a);
      p', a', piece := p + 1, a, [];
      var c := msg[p];
      if c == PERCENT {
        c := msg[p'];
        p' := p' + 1;
        if c == PERCENT {
          piece := [PERCENT];
          RunSingle(Contents(), PERCENT, Attribute(fg, bg));
          WriteChar(PERCENT, fg, bg);
        } else if TakesArg(c) {
          piece := RenderArg(c, args[a]);
          PrintArg(c, args[a], buf, fg, bg);
          a' := a + 1;
        } else {
          RunNothing(Contents(), Attribute(fg, bg));
          assert [] + Left(msg, p', args, a') == Left(msg, p', args, a');
        }
      } else {
        piece := [c];
        RunSingle(Contents(), c, Attribute(fg, bg));
        WriteChar(c, fg, bg);
      }
    }

    /** `_cprintln`: the format, then a newline. */
    method Cprintln(msg: Option<seq<u8>>, fg: u8, bg: u8, args: seq<Arg>)
      requires Valid()
      requires msg.Some? ==> Matches(msg.value, args)
      modifies this, mem
      ensures Valid()
      ensures Contents()
        == Run(old(Contents()), Printed(msg, args, Attribute(fg, bg)) + [Ink(NEWLINE, Attribute(fg, bg))])
    {
      Cprint(msg, fg, bg, args);
      ghost var inks := Printed(msg, args, Attribute(fg, bg));
      assert (inks + [Ink(NEWLINE, Attribute(fg, bg))])[..|inks|] == inks;
      WriteChar(NEWLINE, fg, bg);
    }

    /** `print` and `println`: white on black. */
    method Print(msg: Option<seq<u8>>, args: seq<Arg>)
      requires Valid()
      requires msg.Some? ==> Matches(msg.value, args)
      modifies this, mem
      ensures Valid() && Contents() == Run(old(Contents()), Printed(msg, args, 0x0f))
    {
      hide Run, Printed, Matches;
      Cprint(msg, WHITE, BLACK, args);
    }

    method Println(msg: Option<seq<u8>>, args: seq<Arg>)
      requires Valid()
      requires msg.Some? ==> Matches(msg.value, args)
      modifies this, mem
      ensures Valid() && Contents() == Run(old(Contents()), Printed(msg, args, 0x0f) + [Ink(10, 0x0f)])
    {
      hide Run, Printed, Matches;
      Cprintln(msg, WHITE, BLACK, args);
    }

    /** `cprint` and `cprintln`, of which `print` and `println` are the white-on-black case. */
    method Perform(call: Call)
      requires Valid() && Proper(call)
      modifies this, mem
      ensures Valid() && Contents() == Run(old(Contents()), CallInks(call))
      ensures var attr := Attribute(call.fg, call.bg);
        CallInks(call) == Printed(call.msg, call.args, attr) + if call.newline then [Ink(10, attr)] else []
    {
      if call.newline {
        Cprintln(call.msg, call.fg, call.bg, call.args);
      } else {
        Cprint(call.msg, call.fg, call.bg, call.args);
        assert CallInks(call) == Printed(call.msg, call.args, Attribute(call.fg, call.bg));
      }
    }

    /**
     * A kernel's session on the console: it clears the screen and prints. Video memory then is the
     * window on the transcript of everything printed, if nothing wraps.
     */
    method Session(calls: seq<Call>)
      requires mem.Length == SCREEN_BYTES
      requires forall call :: call in calls ==> Proper(call)
      modifies this, mem
      ensures Valid() && Contents() == SessionScreen(calls)
      ensures NeverWraps(SessionInks(calls)) ==> Shows(Contents(), Paper(SessionInks(calls)))
    {
      hide Run, NeverWraps, Shows, TypeAll, CallInks, SessionInks, Proper;
      Clrscr();
      SessionStart();
      for i := 0 to |calls|
        invariant Valid() && Contents() == SessionScreen(calls[..i])
      {
        SessionStep(calls, i);
        Perform(calls[i]);
      }
      assert calls[..|calls|] == calls;
      SessionWindow(calls);
    }
  }

  lemma WrittenChar(s: Screen, c: u8, fg: u8, bg: u8)
    requires OnScreen(s)
    ensures var attr := Attribute(fg, bg);
      && CharWritten(s, Ink(c, attr), Write(s, Ink(c, attr)))
      && (c != 10 && c != 13 && fg < 16 && bg < 16 ==>
            var at, cells := CharAddress(s), Write(s, Ink(c, attr)).cells;
            at + 1 < |cells| && cells[at] == c && cells[at + 1] % 16 == fg && cells[at + 1] / 16 == bg)
  {
    hide Write, Attribute, OnScreen;
    WriteByBytes(s, Ink(c, Attribute(fg, bg)));
    if c != 10 && c != 13 && fg < 16 && bg < 16 {
      AttributeHalves(fg, bg);
      AddressOnScreen(s);
      OnScreenBytes(Write(s, Ink(c, Attribute(fg, bg))));
    }
  }

  lemma OnScreenBytes(s: Screen)
    requires OnScreen(s)
    ensures |s.cells| == 4000
  {
  }

  lemma AddressOnScreen(s: Screen)
    requires OnScreen(s)
    ensures CharAddress(s) + 1 < 4000
  {
  }

  lemma SessionStart()
    ensures SessionScreen([]) == CLEARED
  {
  }

  lemma SessionStep(calls: seq<Call>, i: nat)
    requires i < |calls| && forall call :: call in calls ==> Proper(call)
    ensures SessionScreen(calls[..i + 1]) == Run(SessionScreen(calls[..i]), CallInks(calls[i]))
  {
    assert calls[..i + 1][..i] == calls[..i];
  }

  lemma SessionWindow(calls: seq<Call>)
    requires forall call :: call in calls ==> Proper(call)
    ensures NeverWraps(SessionInks(calls)) ==> Shows(SessionScreen(calls), Paper(SessionInks(calls)))
  {
    if NeverWraps(SessionInks(calls)) {
      SessionShowsTranscript(calls);
    }
  }

  /** What a call of `_cprint` puts on the screen. */
  function Printed(msg: Option<seq<u8>>, args: seq<Arg>, attr: u8): seq<Ink>
    requires msg.Some? ==> Matches(msg.value, args)
  {
    Inks(if msg.None? then [] else Render(msg.value, args), attr)
  }

  /** One call of `print`, `println`, `cprint` or `cprintln`. */
  datatype Call = Call(msg: Option<seq<u8>>, args: seq<Arg>, fg: u8, bg: u8, newline: bool)

  predicate Proper(call: Call) {
    call.msg.Some? ==> Matches(call.msg.value, call.args)
  }

  function CallInks(call: Call): seq<Ink>
    requires Proper(call)
  {
    var attr := Attribute(call.fg, call.bg);
    Printed(call.msg, call.args, attr) + if call.newline then [Ink(NEWLINE, attr)] else []
  }

  /** The texts of a session, end to end. */
  function SessionInks(calls: seq<Call>): seq<Ink>
    requires forall call :: call in calls ==> Proper(call)
  {
    if calls == [] then [] else SessionInks(calls[..|calls| - 1]) + CallInks(calls[|calls| - 1])
  }

  /** The screen after a session, call by call, each as `Cprint` and `Cprintln` leave it. */
  function SessionScreen(calls: seq<Call>): (s: Screen)
    requires forall call :: call in calls ==> Proper(call)
    ensures OnScreen(s)
  {
    if calls == [] then CLEARED
    else Run(SessionScreen(calls[..|calls| - 1]), CallInks(calls[|calls| - 1]))
  }

  lemma {:induction false} SessionIsOneStream(calls: seq<Call>)
    requires forall call :: call in calls ==> Proper(call)
    ensures SessionScreen(calls) == Run(CLEARED, SessionInks(calls))
  {
    if calls != [] {
      var rest, last := calls[..|calls| - 1], calls[|calls| - 1];
      SessionIsOneStream(rest);
      RunAppend(CLEARED, SessionInks(rest), CallInks(last));
    }
  }

  /** End to end: after any session on a cleared screen, video memory is the window on all that was printed. */
  lemma SessionShowsTranscript(calls: seq<Call>)
    requires forall call :: call in calls ==> Proper(call)
    requires NeverWraps(SessionInks(calls))
    ensures Shows(SessionScreen(calls), Paper(SessionInks(calls)))
  {
    hide Run;
    var inks := SessionInks(calls);
    SessionIsOneStream(calls);
    ShownUpTo(inks, |inks|);
    assert inks[..|inks|] == inks;
  }

  lemma RunNothing(s: Screen, attr: u8)
    requires OnScreen(s)
    ensures Run(s, Inks([], attr)) == s
  {
  }

  lemma RunSingle(s: Screen, c: u8, attr: u8)
    requires OnScreen(s)
    ensures Run(s, Inks([c], attr)) == Write(s, Ink(c, attr))
  {
    assert Inks([c], attr)[..0] == [];
  }

  lemma RunPiece(s: Screen, done: seq<u8>, piece: seq<u8>, attr: u8)
    requires OnScreen(s)
    ensures Run(s, Inks(done + piece, attr)) == Run(Run(s, Inks(done, attr)), Inks(piece, attr))
  {
    assert Inks(done + piece, attr) == Inks(done, attr) + Inks(piece, attr);
    RunAppend(s, Inks(done, attr), Inks(piece, attr));
  }

  lemma Regroup(a: seq<u8>, b: seq<u8>, c: seq<u8>)
    ensures a + b + c == a + (b + c)
  {
  }

  lemma WholeIsLeft(fmt: seq<u8>, args: seq<Arg>)
    requires Matches(fmt, args)
    ensures LeftFits(fmt, 0, args, 0) && [] + Left(fmt, 0, args, 0) == Render(fmt, args)
  {
    assert fmt[0..] == fmt && args[0..] == args;
  }

  lemma NothingLeft(fmt: seq<u8>, p: nat, args: seq<Arg>, a: nat)
    requires LeftFits(fmt, p, args, a) && p == |fmt|
    ensures Left(fmt, p, args, a) == []
  {
  }
}
