/** What every run of the interrupt driver keeps: the mask bookkeeping, and the nesting of handlers. */
module PicRuns {
  import opened Bits
  import opened Chip8259
  import opened Pic

  // ---------- Masks ----------

  /** The masked interrupts: the two mask registers read as one set. */
  ghost function Masked(c: Cascade): iset<nat> {
    iset irq: nat | IsMasked(c, irq)
  }

  predicate IsIrq(irq: nat) {
    irq < 16
  }

  predicate IsMasked(c: Cascade, irq: nat) {
    IsIrq(irq) && if irq < 8 then Test(c.master.imr, irq) else Test(c.slave.imr, irq - 8)
  }

  datatype MaskOp = Set(irq: nat) | Clear(irq: nat) | Reinit(offset1: bv8, offset2: bv8) | DisableAll

  function Apply(c: Cascade, op: MaskOp): Cascade {
    match op
    case Set(irq) => SetMask(c, irq)
    case Clear(irq) => ClearMask(c, irq)
    case Reinit(offset1, offset2) => Remap(c, offset1, offset2)
    case DisableAll => Disable(c)
  }

  /** What the caller of an operation means by it. */
  ghost function Intended(masked: iset<nat>, op: MaskOp): iset<nat> {
    match op
    case Set(irq) => if irq < 16 then masked + iset{irq} else masked
    case Clear(irq) => masked - iset{irq}
    case Reinit(_, _) => masked
    case DisableAll => iset irq: nat | IsIrq(irq)
  }

  /** Each operation changes the masked set as intended, and leaves the chips operational. */
  lemma ApplyMeansIntended(c: Cascade, op: MaskOp)
    requires Operational(c)
    ensures Operational(Apply(c, op))
    ensures Masked(Apply(c, op)) == Intended(Masked(c), op)
  {
    hide Test, With, Without, Intended, IsMasked;
    forall irq: nat
      ensures IsMasked(Apply(c, op), irq) <==> irq in Intended(Masked(c), op)
    {
      ApplyToLine(c, op, irq);
    }
    ApplyFrame(c, op);
  }

  /** The chip is as before but for its mask register. */
  predicate OnlyMaskDiffers(a: Chip, b: Chip) {
    a == b.(imr := a.imr)
  }

  /** Apart from a re-initialisation, nothing but the masks changes. */
  lemma ApplyFrame(c: Cascade, op: MaskOp)
    requires Operational(c)
    ensures Operational(Apply(c, op))
    ensures op.Reinit? ||
      (OnlyMaskDiffers(Apply(c, op).master, c.master) && OnlyMaskDiffers(Apply(c, op).slave, c.slave))
    ensures op.Reinit? ==>
      Apply(c, op).master.isr == AfterInit(c.master) && Apply(c, op).slave.isr == AfterInit(c.slave)
  {
    hide With, Without;
  }

  lemma ApplyToLine(c: Cascade, op: MaskOp, irq: nat)
    requires Operational(c)
    ensures IsMasked(Apply(c, op), irq) <==> irq in Intended(Masked(c), op)
  {
    hide Test, With, Without;
    var line := if irq < 8 then irq else irq - 8;
    match op
    case Set(i) =>
      var bit := if i < 8 then i else i - 8;
      TestWith(c.master.imr, bit, line);
      TestWith(c.slave.imr, bit, line);
    case Clear(i) =>
      var bit := if i < 8 then i else i - 8;
      TestWithout(c.master.imr, bit, line);
      TestWithout(c.slave.imr, bit, line);
    case Reinit(_, _) =>
    case DisableAll =>
      TestConstant(line);
  }

  function ApplyAll(c: Cascade, ops: seq<MaskOp>): Cascade {
    if ops == [] then c else Apply(ApplyAll(c, ops[..|ops| - 1]), ops[|ops| - 1])
  }

  ghost function IntendedAll(masked: iset<nat>, ops: seq<MaskOp>): iset<nat> {
    if ops == [] then masked else Intended(IntendedAll(masked, ops[..|ops| - 1]), ops[|ops| - 1])
  }

  /** Over any interleaving of mask operations and re-initialisations, the registers hold exactly the intended set. */
  lemma {:induction false} MasksAreIntended(c: Cascade, ops: seq<MaskOp>)
    requires Operational(c)
    ensures Operational(ApplyAll(c, ops))
    ensures Masked(ApplyAll(c, ops)) == IntendedAll(Masked(c), ops)
  {
    if ops != [] {
      MasksAreIntended(c, ops[..|ops| - 1]);
      ApplyMeansIntended(ApplyAll(c, ops[..|ops| - 1]), ops[|ops| - 1]);
    }
  }

  // ---------- Nested service ----------

  /** The controllers and the handlers in progress, innermost last. */
  datatype System = System(dev: Cascade, active: seq<nat>)

  datatype Event =
    | Raise(irq: nat)   // a device asks for service
    | Acknowledge       // the processor takes the interrupt the controllers signal, if any
    | Finish            // the innermost handler sends its end of interrupt
    | Mask(op: MaskOp)  // masks change, or the controllers are initialised again

  function Step(s: System, e: Event): System {
    match e
    case Raise(irq) => s.(dev := Request(s.dev, irq))
    case Acknowledge =>
      var irq := Accepted(s.dev);
      if irq < 16 then System(Accept(s.dev), s.active + [irq]) else s
    case Finish =>
      if s.active == [] then s else System(SendEoi(s.dev, Innermost(s)), s.active[..|s.active| - 1])
    case Mask(op) => s.(dev := Apply(s.dev, op))
  }

  function Innermost(s: System): nat
    requires s.active != []
  {
    s.active[|s.active| - 1]
  }

  /** The in-service bits that a stack of handlers should have at the master and at the slave. */
  function MasterBits(active: seq<nat>): bv8 {
    if active == [] then 0
    else With(MasterBits(active[..|active| - 1]), Line(active[|active| - 1]))
  }

  function SlaveBits(active: seq<nat>): bv8 {
    if active == [] then 0
    else
      var rest, last := SlaveBits(active[..|active| - 1]), active[|active| - 1];
      if last >= 8 then With(rest, last - 8) else rest
  }

  /** Each handler interrupted one of strictly lower priority. */
  predicate Nested(active: seq<nat>) {
    && (forall k :: 0 <= k < |active| ==> active[k] < 16 && active[k] != CASCADE_LINE)
    && (forall j, k :: 0 <= j < k < |active| ==> Line(active[k]) < Line(active[j]))
  }

  /** The in-service registers are exactly the stack of handlers. */
  ghost predicate InServiceIsStack(s: System) {
    && Operational(s.dev) && Wired(s.dev)
    && Nested(s.active)
    && s.dev.master.isr == MasterBits(s.active)
    && s.dev.slave.isr == SlaveBits(s.active)
  }

  /** A line of higher priority than the whole stack is below every bit of it. */
  lemma {:induction false} BitsBelow(active: seq<nat>, line: nat)
    requires Nested(active) && line < 8
    requires forall k :: 0 <= k < |active| ==> line < Line(active[k])
    ensures line < Lowest(MasterBits(active))
    ensures line >= CASCADE_LINE ==> SlaveBits(active) == 0
  {
    hide Lowest, With;
    if active == [] {
      LowestOfNone();
    } else {
      var rest, last := active[..|active| - 1], active[|active| - 1];
      BitsBelow(rest, Line(last));
      LowestWith(MasterBits(rest), Line(last));
      if line >= CASCADE_LINE {
        BitsBelow(rest, line);
      }
    }
  }

  lemma LowestOfNone()
    ensures Lowest(0) == 8
  {
  }

  /** The innermost handler's line is the highest-priority bit in service. */
  lemma TopIsLowest(active: seq<nat>)
    requires Nested(active) && active != []
    ensures var rest, top := active[..|active| - 1], active[|active| - 1];
      && Lowest(MasterBits(active)) == Line(top)
      && Without(MasterBits(active), Line(top)) == MasterBits(rest)
      && (top >= 8 ==> SlaveBits(rest) == 0)
  {
    hide Lowest, With, Without;
    var rest, top := active[..|active| - 1], active[|active| - 1];
    BitsBelow(rest, Line(top));
    LowestWith(MasterBits(rest), Line(top));
  }

  /** At most one slave interrupt is in service. */
  lemma OneSlaveInterrupt(active: seq<nat>, j: nat, k: nat)
    requires Nested(active) && j < |active| && k < |active|
    requires active[j] >= 8 && active[k] >= 8
    ensures j == k
  {
  }

  lemma PushNested(active: seq<nat>, irq: nat)
    requires Nested(active) && irq < 16 && irq != CASCADE_LINE
    requires active != [] ==> Line(irq) < Line(active[|active| - 1])
    ensures Nested(active + [irq])
  {
  }

  lemma PushBits(active: seq<nat>, irq: nat)
    ensures MasterBits(active + [irq]) == With(MasterBits(active), Line(irq))
    ensures SlaveBits(active + [irq]) == if irq >= 8 then With(SlaveBits(active), irq - 8) else SlaveBits(active)
  {
    hide With;
    assert (active + [irq])[..|active|] == active;
  }

  lemma ServeBits(c: Cascade, irq: nat)
    requires irq < 16
    ensures ServeIrq(c, irq).master.isr == With(c.master.isr, Line(irq))
    ensures ServeIrq(c, irq).slave.isr == if irq >= 8 then With(c.slave.isr, irq - 8) else c.slave.isr
    ensures Operational(c) ==> Operational(ServeIrq(c, irq))
    ensures Wired(c) ==> Wired(ServeIrq(c, irq))
  {
    hide With, Without, Test, Bit;
    if irq >= 8 {
      assert Line(irq) == CASCADE_LINE;
    } else {
      assert Line(irq) == irq;
    }
  }

  /** An acknowledged interrupt outranks every handler in progress. */
  lemma AcknowledgeKeeps(s: System)
    requires InServiceIsStack(s) && Accepted(s.dev) < 16
    ensures InServiceIsStack(Step(s, Acknowledge))
  {
    hide Lowest, With, Without, Test, ServeIrq, Accepted, MasterBits, SlaveBits, Nested, Line;
    AcceptedIsEligible(s.dev);
    assert Accepted(s.dev) != CASCADE_LINE;
    ServeBits(s.dev, Accepted(s.dev));
    PushBits(s.active, Accepted(s.dev));
    if s.active != [] {
      TopIsLowest(s.active);
    }
    PushNested(s.active, Accepted(s.dev));
  }

  /** The end of interrupt of the innermost handler takes exactly that handler off. */
  lemma FinishKeeps(s: System)
    requires InServiceIsStack(s)
    ensures InServiceIsStack(Step(s, Finish))
  {
    hide Lowest, With, Without;
    if s.active != [] {
      TopIsLowest(s.active);
      SoleBit(Innermost(s));
    }
  }

  lemma SoleBit(irq: nat)
    ensures 8 <= irq < 16 ==>
      Lowest(With(0, irq - 8)) == irq - 8 && Without(With(0, irq - 8), irq - 8) == 0 && With(0, irq - 8) != 0
  {
    if 8 <= irq < 16 {
      LowestOfNone();
      LowestWith(0, irq - 8);
      TestWith(0, irq - 8, irq - 8);
      TestConstant(irq - 8);
    }
  }

  /** An initialisation loses no handler: there is none, or the chips with one in service keep it. */
  predicate ReinitSafe(s: System) {
    s.active == [] || (s.dev.master.keepsService && (s.dev.slave.keepsService || !SlaveActive(s.active)))
  }

  predicate IsReinit(e: Event) {
    e.Mask? && e.op.Reinit?
  }

  /** Every step keeps the in-service registers equal to the stack, except exactly an unsafe initialisation. */
  lemma StepKeeps(s: System, e: Event)
    requires InServiceIsStack(s)
    ensures InServiceIsStack(Step(s, e)) <==> !IsReinit(e) || ReinitSafe(s)
  {
    hide InServiceIsStack, ReinitSafe, Apply, Request, SendEoi, Accepted, Accept;
    match e
    case Raise(irq) => RaiseKeeps(s, irq);
    case Acknowledge =>
      if Accepted(s.dev) < 16 {
        AcknowledgeKeeps(s);
      }
    case Finish => FinishKeeps(s);
    case Mask(op) => MaskKeeps(s, op);
  }

  lemma RaiseKeeps(s: System, irq: nat)
    requires InServiceIsStack(s)
    ensures InServiceIsStack(Step(s, Raise(irq)))
  {
    hide With, MasterBits, SlaveBits, Nested;
  }

  lemma MaskKeeps(s: System, op: MaskOp)
    requires InServiceIsStack(s)
    ensures InServiceIsStack(Step(s, Mask(op))) <==> !op.Reinit? || ReinitSafe(s)
  {
    ApplyFrame(s.dev, op);
    SlaveBitsEmpty(s.active);
    MasterBitsEmpty(s.active);
    hide Apply, MasterBits, SlaveBits, Nested, SlaveActive;
  }

  lemma MasterBitsEmpty(active: seq<nat>)
    requires Nested(active)
    ensures MasterBits(active) == 0 <==> active == []
  {
    hide With;
    if active != [] {
      WithIsSomething(MasterBits(active[..|active| - 1]), Line(active[|active| - 1]));
    }
  }

  function RunAll(s: System, events: seq<Event>): System {
    if events == [] then s else Step(RunAll(s, events[..|events| - 1]), events[|events| - 1])
  }

  lemma RunStep(s: System, events: seq<Event>, k: nat)
    requires k < |events|
    ensures RunAll(s, events[..k + 1]) == Step(RunAll(s, events[..k]), events[k])
  {
    assert events[..k + 1][..k] == events[..k];
  }

  /** No initialisation of the run loses a handler. */
  ghost predicate ReinitsSafe(s: System, events: seq<Event>) {
    forall k :: 0 <= k < |events| && IsReinit(events[k]) ==> ReinitSafe(RunAll(s, events[..k]))
  }

  ghost predicate StackThroughout(s: System, events: seq<Event>) {
    forall k :: 0 <= k <= |events| ==> InServiceIsStack(RunAll(s, events[..k]))
  }

  lemma {:induction false} StackUpTo(s: System, events: seq<Event>, k: nat)
    requires InServiceIsStack(s) && ReinitsSafe(s, events) && k <= |events|
    ensures InServiceIsStack(RunAll(s, events[..k]))
  {
    hide InServiceIsStack, Step, ReinitSafe;
    if k == 0 {
      assert events[..0] == [];
    } else {
      StackUpTo(s, events, k - 1);
      RunStep(s, events, k - 1);
      StepKeeps(RunAll(s, events[..k - 1]), events[k - 1]);
    }
  }

  lemma InitialisedIsStack(c: Cascade, offset1: bv8, offset2: bv8)
    requires c.master.isr == 0 && c.slave.isr == 0
    ensures InServiceIsStack(System(Remap(c, offset1, offset2), []))
  {
  }

  /**
   * In every run from initialised, idle controllers, in any order of requests, acknowledgements,
   * completions, mask changes and re-initialisations, the in-service bits of both chips are exactly
   * the stack of handlers in progress after every event, if and only if no re-initialisation comes
   * while a chip that forgets has a handler in service.
   */
  lemma InServiceAlwaysStack(c: Cascade, offset1: bv8, offset2: bv8, events: seq<Event>)
    requires c.master.isr == 0 && c.slave.isr == 0
    ensures var s := System(Remap(c, offset1, offset2), []);
      StackThroughout(s, events) <==> ReinitsSafe(s, events)
  {
    hide InServiceIsStack, Step, ReinitSafe, RunAll;
    var s := System(Remap(c, offset1, offset2), []);
    InitialisedIsStack(c, offset1, offset2);
    if ReinitsSafe(s, events) {
      forall k | 0 <= k <= |events|
        ensures InServiceIsStack(RunAll(s, events[..k]))
      {
        StackUpTo(s, events, k);
      }
    }
    if StackThroughout(s, events) {
      forall k | 0 <= k < |events| && IsReinit(events[k])
        ensures ReinitSafe(RunAll(s, events[..k]))
      {
        RunStep(s, events, k);
        assert InServiceIsStack(RunAll(s, events[..k]));
        assert InServiceIsStack(RunAll(s, events[..k + 1]));
        StepKeeps(RunAll(s, events[..k]), events[k]);
      }
    }
  }

  /** Bit by bit: which in-service bits are set while `active` is the stack. */
  lemma {:induction false} ServiceBitMeans(active: seq<nat>, line: nat)
    requires line < 8
    requires forall k :: 0 <= k < |active| ==> active[k] < 16
    ensures Test(MasterBits(active), line) <==> exists k :: 0 <= k < |active| && Line(active[k]) == line
    ensures Test(SlaveBits(active), line) <==> 8 + line in active
  {
    hide Test, With;
    TestConstant(line);
    if active != [] {
      var rest, last := active[..|active| - 1], active[|active| - 1];
      ServiceBitMeans(rest, line);
      TestWith(MasterBits(rest), Line(last), line);
      if last >= 8 {
        TestWith(SlaveBits(rest), last - 8, line);
      }
      assert active == rest + [last];
      if Line(last) == line {
        assert Line(active[|active| - 1]) == line;
      }
      if k :| 0 <= k < |rest| && Line(rest[k]) == line {
        assert Line(active[k]) == line;
      }
    }
  }

  predicate SlaveActive(active: seq<nat>) {
    exists k :: 0 <= k < |active| && active[k] >= 8
  }

  /**
   * The argument of `pic_send_eoi` only chooses between the chips. The innermost handler, and
   * nothing else, is taken off exactly when the argument is on the right side, or names the slave
   * while no slave handler is in progress.
   */
  lemma EoiPopsTop(s: System, irq: nat)
    requires InServiceIsStack(s) && s.active != []
    ensures InServiceIsStack(System(SendEoi(s.dev, irq), s.active[..|s.active| - 1]))
      <==> (irq >= 8 <==> Innermost(s) >= 8) || (irq >= 8 && !SlaveActive(s.active))
  {
    hide Lowest, With, Without, Test;
    var active, rest, top := s.active, s.active[..|s.active| - 1], Innermost(s);
    TopIsLowest(active);
    SlaveBitsEmpty(active);
    if top >= 8 {
      SoleBit(top);
    } else {
      WithoutLowest(SlaveBits(active));
    }
  }

  lemma {:induction false} SlaveBitsEmpty(active: seq<nat>)
    requires forall k :: 0 <= k < |active| ==> active[k] < 16
    ensures SlaveBits(active) == 0 <==> !SlaveActive(active)
  {
    hide With;
    if active != [] {
      var rest, last := active[..|active| - 1], active[|active| - 1];
      SlaveBitsEmpty(rest);
      assert active == rest + [last];
      if last >= 8 {
        assert active[|active| - 1] >= 8;
        WithIsSomething(SlaveBits(rest), last - 8);
      } else if SlaveActive(active) {
        var k :| 0 <= k < |active| && active[k] >= 8;
        assert rest[k] >= 8;
      }
      if SlaveActive(rest) {
        var k :| 0 <= k < |rest| && rest[k] >= 8;
        assert active[k] >= 8;
      }
    }
  }

  lemma WithIsSomething(b: bv8, i: nat)
    requires i < 8
    ensures With(b, i) != 0
  {
  }
}
