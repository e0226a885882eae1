/** The format language of `_cprint` in src/driver/vga.c, as a function from a format and its arguments to text. */
module Format {
  import opened Words
  import opened Util

  const PERCENT: u8 := 37
  const LOWER_C: u8 := 99
  const LOWER_D: u8 := 100
  const LOWER_S: u8 := 115
  const LOWER_X: u8 := 120

  /** A variadic argument: an `int` for %c, a NUL-terminated string for %s, an `int32_t` for %d and %x. */
  datatype Arg = Char(code: int) | Str(text: seq<u8>) | Num(value: i32)

  predicate TakesArg(spec: u8) {
    spec == LOWER_C || spec == LOWER_S || spec == LOWER_D || spec == LOWER_X
  }

  predicate ArgFits(spec: u8, arg: Arg) {
    match arg
    case Char(_) => spec == LOWER_C
    case Str(text) => spec == LOWER_S && 0 !in text
    case Num(_) => spec == LOWER_D || spec == LOWER_X
  }

  /** What the code demands: no NUL, no '%' at the end, and a fitting argument for each specifier that takes one. */
  predicate Matches(fmt: seq<u8>, args: seq<Arg>) {
    if fmt == [] then true
    else if fmt[0] == 0 then false
    else if fmt[0] != PERCENT then Matches(fmt[1..], args)
    else if |fmt| == 1 || fmt[1] == 0 then false
    else if TakesArg(fmt[1]) then args != [] && ArgFits(fmt[1], args[0]) && Matches(fmt[2..], args[1..])
    else Matches(fmt[2..], args)
  }

  /** The text of one argument. */
  function RenderArg(spec: u8, arg: Arg): seq<u8>
    requires TakesArg(spec) && ArgFits(spec, arg)
  {
    match arg
    case Char(code) => [code % 0x100]
    case Str(text) => text
    case Num(value) => if spec == LOWER_D then Text(value, 10) else Text(value, 16)
  }

  /** The text a format stands for. An unknown specifier prints nothing and takes no argument. */
  function Render(fmt: seq<u8>, args: seq<Arg>): seq<u8>
    requires Matches(fmt, args)
  {
    if fmt == [] then []
    else if fmt[0] != PERCENT then [fmt[0]] + Render(fmt[1..], args)
    else if TakesArg(fmt[1]) then RenderArg(fmt[1], args[0]) + Render(fmt[2..], args[1..])
    else (if fmt[1] == PERCENT then [PERCENT] else []) + Render(fmt[2..], args)
  }

  /** What is left to render from position `p` on, with the arguments from `a` on. */
  ghost predicate LeftFits(fmt: seq<u8>, p: nat, args: seq<Arg>, a: nat) {
    p <= |fmt| && a <= |args| && Matches(fmt[p..], args[a..])
  }

  function Left(fmt: seq<u8>, p: nat, args: seq<Arg>, a: nat): seq<u8>
    requires LeftFits(fmt, p, args, a)
  {
    Render(fmt[p..], args[a..])
  }

  /** The same, one step of the scan at a time. */
  lemma LeftStep(fmt: seq<u8>, p: nat, args: seq<Arg>, a: nat)
    requires LeftFits(fmt, p, args, a) && p < |fmt|
    ensures fmt[p] != PERCENT ==>
      LeftFits(fmt, p + 1, args, a) && Left(fmt, p, args, a) == [fmt[p]] + Left(fmt, p + 1, args, a)
    ensures fmt[p] == PERCENT ==> p + 1 < |fmt|
    ensures fmt[p] == PERCENT && !TakesArg(fmt[p + 1]) ==>
      && LeftFits(fmt, p + 2, args, a)
      && Left(fmt, p, args, a) == (if fmt[p + 1] == PERCENT then [PERCENT] else []) + Left(fmt, p + 2, args, a)
    ensures fmt[p] == PERCENT && TakesArg(fmt[p + 1]) ==>
      && a < |args| && ArgFits(fmt[p + 1], args[a])
      && LeftFits(fmt, p + 2, args, a + 1)
      && Left(fmt, p, args, a) == RenderArg(fmt[p + 1], args[a]) + Left(fmt, p + 2, args, a + 1)
  {
    hide RenderArg, ArgFits;
    assert fmt[p..][1..] == fmt[p + 1..];
    if fmt[p] == PERCENT {
      assert fmt[p..][2..] == fmt[p + 2..];
      if TakesArg(fmt[p + 1]) {
        assert args[a..][1..] == args[a + 1..];
      }
    }
  }

  /** The number of arguments a format uses up. */
  function Uses(fmt: seq<u8>): nat {
    if fmt == [] then 0
    else if fmt[0] != PERCENT || |fmt| == 1 then Uses(fmt[1..])
    else (if TakesArg(fmt[1]) then 1 else 0) + Uses(fmt[2..])
  }

  /** A format that begins with a literal character. */
  lemma LiteralHead(fmt: seq<u8>, args: seq<Arg>)
    requires fmt != [] && fmt[0] != PERCENT
    ensures Matches(fmt, args) <==> fmt[0] != 0 && Matches(fmt[1..], args)
    ensures Matches(fmt, args) ==> Render(fmt, args) == [fmt[0]] + Render(fmt[1..], args)
    ensures Uses(fmt) == Uses(fmt[1..])
  {
  }

  /** A format that begins with a specifier that takes an argument. */
  lemma ArgHead(fmt: seq<u8>, args: seq<Arg>)
    requires |fmt| >= 2 && fmt[0] == PERCENT && TakesArg(fmt[1])
    ensures Matches(fmt, args) <==> args != [] && ArgFits(fmt[1], args[0]) && Matches(fmt[2..], args[1..])
    ensures Matches(fmt, args) ==> Render(fmt, args) == RenderArg(fmt[1], args[0]) + Render(fmt[2..], args[1..])
    ensures Uses(fmt) == 1 + Uses(fmt[2..])
  {
    hide ArgFits, RenderArg;
  }

  /** A format that begins with any other specifier. */
  lemma PlainHead(fmt: seq<u8>, args: seq<Arg>)
    requires |fmt| >= 2 && fmt[0] == PERCENT && !TakesArg(fmt[1])
    ensures Matches(fmt, args) <==> fmt[1] != 0 && Matches(fmt[2..], args)
    ensures Matches(fmt, args) ==>
      Render(fmt, args) == (if fmt[1] == PERCENT then [PERCENT] else []) + Render(fmt[2..], args)
    ensures Uses(fmt) == Uses(fmt[2..])
  {
  }

  ghost predicate Composable(f: seq<u8>, g: seq<u8>, args: seq<Arg>) {
    Matches(f, args) && (MatchesUses(f, args); Matches(g, args[Uses(f)..]))
  }

  ghost predicate Composes(f: seq<u8>, g: seq<u8>, args: seq<Arg>)
    requires Composable(f, g, args)
  {
    MatchesUses(f, args);
    && Matches(f + g, args)
    && Render(f + g, args) == Render(f, args) + Render(g, args[Uses(f)..])
  }

  lemma ComposableNotCutShort(f: seq<u8>, g: seq<u8>, args: seq<Arg>)
    requires Composable(f, g, args) && f != [] && f[0] == PERCENT
    ensures |f| >= 2
  {
  }

  lemma ComposeLiteral(f: seq<u8>, g: seq<u8>, args: seq<Arg>)
    requires Composable(f, g, args) && f != [] && f[0] != PERCENT
    ensures Composable(f[1..], g, args)
    ensures Composes(f[1..], g, args) ==> Composes(f, g, args)
  {
    hide Matches, Render, Uses;
    assert (f + g)[1..] == f[1..] + g;
    LiteralHead(f, args);
    LiteralHead(f + g, args);
  }

  lemma ComposeArg(f: seq<u8>, g: seq<u8>, args: seq<Arg>)
    requires Composable(f, g, args) && |f| >= 2 && f[0] == PERCENT && TakesArg(f[1])
    ensures args != [] && Composable(f[2..], g, args[1..])
    ensures Composes(f[2..], g, args[1..]) ==> Composes(f, g, args)
  {
    hide Matches, Render, Uses, TakesArg, ArgFits, RenderArg;
    MatchesUses(f, args);
    var all := f + g;
    assert all[1] == f[1] && all[2..] == f[2..] + g;
    ArgHead(f, args);
    ArgHead(all, args);
    assert args[1..][Uses(f[2..])..] == args[Uses(f)..];
  }

  lemma ComposePlain(f: seq<u8>, g: seq<u8>, args: seq<Arg>)
    requires Composable(f, g, args) && |f| >= 2 && f[0] == PERCENT && !TakesArg(f[1])
    ensures Composable(f[2..], g, args)
    ensures Composes(f[2..], g, args) ==> Composes(f, g, args)
  {
    hide Matches, Render, Uses, TakesArg;
    var all := f + g;
    assert all[1] == f[1] && all[2..] == f[2..] + g;
    PlainHead(f, args);
    PlainHead(all, args);
  }

  /** Formats compose: a concatenation prints the two texts, the second from the arguments the first leaves. */
  lemma {:induction false} RenderConcat(f: seq<u8>, g: seq<u8>, args: seq<Arg>)
    requires Composable(f, g, args)
    ensures Composes(f, g, args)
  {
    if f == [] {
      assert f + g == g && args[0..] == args;
    } else {
      hide Composes, Composable;
      if f[0] != PERCENT {
        ComposeLiteral(f, g, args);
        RenderConcat(f[1..], g, args);
      } else {
        ComposableNotCutShort(f, g, args);
        if TakesArg(f[1]) {
          ComposeArg(f, g, args);
          RenderConcat(f[2..], g, args[1..]);
        } else {
          ComposePlain(f, g, args);
          RenderConcat(f[2..], g, args);
        }
      }
    }
  }

  lemma {:induction false} MatchesUses(fmt: seq<u8>, args: seq<Arg>)
    requires Matches(fmt, args)
    ensures Uses(fmt) <= |args|
  {
    if fmt == [] {
    } else if fmt[0] != PERCENT {
      MatchesUses(fmt[1..], args);
    } else if TakesArg(fmt[1]) {
      MatchesUses(fmt[2..], args[1..]);
    } else {
      MatchesUses(fmt[2..], args);
    }
  }

  /** Doubling every '%'. */
  function Escape(s: seq<u8>): seq<u8> {
    if s == [] then []
    else (if s[0] == PERCENT then [PERCENT, PERCENT] else [s[0]]) + Escape(s[1..])
  }

  /** Every NUL-free text is printed literally by its escaped form, whatever arguments come with it. */
  lemma {:induction false} RenderEscape(s: seq<u8>, args: seq<Arg>)
    requires 0 !in s
    ensures Matches(Escape(s), args) && Render(Escape(s), args) == s
  {
    if s != [] {
      RenderEscape(s[1..], args);
      var e := Escape(s);
      if s[0] == PERCENT {
        assert e[2..] == Escape(s[1..]);
      } else {
        assert e[1..] == Escape(s[1..]);
      }
    }
  }

  /** An unknown specifier can be dropped from a format without changing what is printed. */
  lemma UnknownSpecifierPrintsNothing(spec: u8, rest: seq<u8>, args: seq<Arg>)
    requires !TakesArg(spec) && spec != PERCENT && spec != 0
    ensures Matches([PERCENT, spec] + rest, args) <==> Matches(rest, args)
    ensures Matches(rest, args) ==> Render([PERCENT, spec] + rest, args) == Render(rest, args)
  {
    assert ([PERCENT, spec] + rest)[2..] == rest;
  }

  /** What %d and %x print can be read back, on every 32-bit integer, and is never cut short by a NUL. */
  lemma NumbersReadBack(value: i32)
    ensures Parse(RenderArg(LOWER_D, Num(value)), 10) == value
    ensures Parse(RenderArg(LOWER_X, Num(value)), 16) == value
    ensures 0 !in RenderArg(LOWER_D, Num(value)) && 0 !in RenderArg(LOWER_X, Num(value))
  {
    hide Text, Parse;
    ParseOfText(value, 10);
    ParseOfText(value, 16);
    TextHasNoNul(value, 10);
    TextHasNoNul(value, 16);
  }

  /**
   * What each specifier prints: %c the low byte of its argument, %s its string, %d and %x its number
   * in base 10 and 16, and %% a percent sign, without an argument.
   */
  lemma SpecifiersMean(code: int, text: seq<u8>, value: i32)
    requires 0 !in text
    ensures var f := Chars("%c"); Matches(f, [Char(code)]) && Render(f, [Char(code)]) == [code % 256]
    ensures var f := Chars("%s"); Matches(f, [Str(text)]) && Render(f, [Str(text)]) == text
    ensures var f := Chars("%d"); Matches(f, [Num(value)]) && Render(f, [Num(value)]) == Text(value, 10)
    ensures var f := Chars("%x"); Matches(f, [Num(value)]) && Render(f, [Num(value)]) == Text(value, 16)
    ensures var f := Chars("%%"); Matches(f, []) && Render(f, []) == Chars("%")
  {
    hide Text;
    SoleSpecifier(LOWER_C, Char(code));
    SoleSpecifier(LOWER_S, Str(text));
    SoleSpecifier(LOWER_D, Num(value));
    SoleSpecifier(LOWER_X, Num(value));
    assert Chars("%c") == [PERCENT, LOWER_C] && Chars("%s") == [PERCENT, LOWER_S];
    assert Chars("%d") == [PERCENT, LOWER_D] && Chars("%x") == [PERCENT, LOWER_X];
    assert Chars("%%") == Escape([PERCENT]) && [PERCENT] == Chars("%");
    RenderEscape([PERCENT], []);
  }

  lemma SoleSpecifier(spec: u8, arg: Arg)
    requires TakesArg(spec) && ArgFits(spec, arg)
    ensures Matches([PERCENT, spec], [arg]) && Render([PERCENT, spec], [arg]) == RenderArg(spec, arg)
  {
    hide RenderArg, ArgFits;
    assert [PERCENT, spec][2..] == [] && [arg][1..] == [];
    ArgHead([PERCENT, spec], [arg]);
    assert Matches([], []) && Render([], []) == [];
  }

  /** A message with a number in it, as the drivers print them. */
  lemma MessageWithNumber(head: seq<u8>, value: i32, tail: seq<u8>)
    requires NoPercent(head) && NoPercent(tail)
    ensures var f := head + Chars("%d") + tail;
      Matches(f, [Num(value)]) && Render(f, [Num(value)]) == head + Text(value, 10) + tail
  {
    hide Text, Render, Matches, Uses, RenderArg;
    var number := [PERCENT, LOWER_D] + tail;
    PlainText(tail, []);
    assert number[2..] == tail && [Num(value)][1..] == [];
    ArgHead(number, [Num(value)]);
    NumberText(value);
    PlainText(head, [Num(value)]);
    RenderConcat(head, number, [Num(value)]);
    assert Chars("%d") == [PERCENT, LOWER_D];
    assert head + number == head + Chars("%d") + tail;
    assert [Num(value)][0..] == [Num(value)];
  }

  lemma NumberText(value: i32)
    ensures RenderArg(LOWER_D, Num(value)) == Text(value, 10)
  {
  }

  predicate NoPercent(s: seq<u8>) {
    PERCENT !in s && 0 !in s
  }

  /** A text without percent signs is printed as it is, and takes no argument. */
  lemma {:induction false} PlainText(s: seq<u8>, args: seq<Arg>)
    requires NoPercent(s)
    ensures Matches(s, args) && Render(s, args) == s && Uses(s) == 0
  {
    if s != [] {
      PlainText(s[1..], args);
      LiteralHead(s, args);
    }
  }
}
