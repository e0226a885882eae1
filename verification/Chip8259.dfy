/**
 * The interrupt controller pair that src/kernel/pic.c drives, after the Intel 8259A data sheet
 * (Initialization Command Words, Operation Command Words, Fully Nested Mode, Cascade Mode):
 * the part of it that this driver can reach.
 */
module Chip8259 {
  import opened Bits

  /** Which initialisation word the next data write is taken for. */
  datatype Phase = Ready | AwaitIcw2 | AwaitIcw3 | AwaitIcw4

  datatype Chip = Chip(
    phase: Phase,
    single: bool,      // SNGL of ICW1
    needIcw4: bool,    // IC4 of ICW1
    level: bool,       // LTIM of ICW1: level-triggered requests
    vector: bv8,       // T7..T3 of ICW2
    cascade: bv8,      // ICW3: the lines with a slave on them, or the slave's own number
    icw4: bv8,
    imr: bv8,          // masked lines
    irr: bv8,          // requesting lines
    isr: bv8,          // lines in service
    readIsr: bool,     // what a command-port read returns
    keepsService: bool)  // whether an initialisation keeps the lines in service: the data sheet does not say

  /** The lines in service after an initialisation. */
  function AfterInit(c: Chip): bv8 {
    if c.keepsService then c.isr else 0
  }

  /** A write with A0 = 0: ICW1 if D4 is set, else OCW3 if D3 is set, else OCW2. */
  function WriteCommand(c: Chip, d: bv8): Chip {
    if d & 0x10 != 0 then
      c.(phase := AwaitIcw2, single := d & 0x02 != 0, needIcw4 := d & 0x01 != 0, level := d & 0x08 != 0,
         icw4 := if d & 0x01 != 0 then c.icw4 else 0,
         imr := 0, irr := 0, isr := AfterInit(c), readIsr := false)
    else if d & 0x08 != 0 then
      if d & 0x02 != 0 then c.(readIsr := d & 0x01 != 0) else c
    else if d & 0xe0 == 0x20 then EndHighest(c)
    else if d & 0xe0 == 0x60 then c.(isr := Without(c.isr, (d & 0x07) as nat))
    else c
  }

  /** Non-specific end of interrupt: the line in service with the highest priority is done. */
  function EndHighest(c: Chip): Chip {
    c.(isr := Without(c.isr, Lowest(c.isr)))
  }

  /** A write with A0 = 1: the next initialisation word, or the mask. */
  function WriteData(c: Chip, d: bv8): Chip {
    match c.phase
    case AwaitIcw2 =>
      c.(vector := d & 0xf8,
         phase := if !c.single then AwaitIcw3 else if c.needIcw4 then AwaitIcw4 else Ready)
    case AwaitIcw3 => c.(cascade := d, phase := if c.needIcw4 then AwaitIcw4 else Ready)
    case AwaitIcw4 => c.(icw4 := d, phase := Ready)
    case Ready => c.(imr := d)
  }

  function ReadCommand(c: Chip): bv8 {
    if c.readIsr then c.isr else c.irr
  }

  /** The master and the slave, whose interrupt output is the master's line 2. */
  datatype Cascade = Cascade(master: Chip, slave: Chip)

  const CASCADE_LINE: nat := 2

  const MASTER_COMMAND: nat := 0x20
  const MASTER_DATA: nat := 0x21
  const SLAVE_COMMAND: nat := 0xa0
  const SLAVE_DATA: nat := 0xa1

  /** A port write; other ports, such as the one that only takes time, do nothing here. */
  function Out(c: Cascade, port: nat, d: bv8): Cascade {
    if port == MASTER_COMMAND then c.(master := WriteCommand(c.master, d))
    else if port == MASTER_DATA then c.(master := WriteData(c.master, d))
    else if port == SLAVE_COMMAND then c.(slave := WriteCommand(c.slave, d))
    else if port == SLAVE_DATA then c.(slave := WriteData(c.slave, d))
    else c
  }

  function In(c: Cascade, port: nat): bv8 {
    if port == MASTER_COMMAND then ReadCommand(c.master)
    else if port == MASTER_DATA then c.master.imr
    else if port == SLAVE_COMMAND then ReadCommand(c.slave)
    else if port == SLAVE_DATA then c.slave.imr
    else 0xff
  }

  /** The ports of the PC: each chip has a command port and, after it, a data port. */
  lemma PortMap(c: Cascade, d: bv8)
    ensures Out(c, 0x20, d) == Cascade(WriteCommand(c.master, d), c.slave)
    ensures Out(c, 0x21, d) == Cascade(WriteData(c.master, d), c.slave)
    ensures Out(c, 0xa0, d) == Cascade(c.master, WriteCommand(c.slave, d))
    ensures Out(c, 0xa1, d) == Cascade(c.master, WriteData(c.slave, d))
    ensures In(c, 0x21) == c.master.imr && In(c, 0xa1) == c.slave.imr
  {
    hide WriteCommand, WriteData;
  }

  predicate Operational(c: Cascade) {
    c.master.phase == Ready && c.slave.phase == Ready
  }

  function Unmasked(requests: bv8, imr: bv8): bv8 {
    requests & !imr
  }

  lemma TestUnmasked(requests: bv8, imr: bv8, i: nat)
    ensures Test(Unmasked(requests, imr), i) <==> Test(requests, i) && !Test(imr, i)
  {
  }

  /** The line a chip signals: its best unmasked request, if that beats everything it has in service. */
  function Signals(c: Chip, requests: bv8): (line: nat)
    ensures line <= 8
  {
    var best := Lowest(Unmasked(requests, c.imr));
    if best < Lowest(c.isr) then best else 8
  }

  /** The master sees the slave's output in place of a request on line 2. */
  function MasterRequests(c: Cascade): bv8 {
    if Signals(c.slave, c.slave.irr) < 8 then With(c.master.irr, CASCADE_LINE)
    else Without(c.master.irr, CASCADE_LINE)
  }

  /** The number by which the slave knows itself. */
  function SlaveNumber(c: Cascade): nat {
    (c.slave.cascade & 0x07) as nat
  }

  /**
   * The interrupt that an acknowledge cycle delivers, or 16. For a line that ICW3 gives to a slave the
   * master calls that slave by the line's number, and only the slave that has it answers. For any
   * other line it answers itself, even if there is a slave.
   */
  function Accepted(c: Cascade): (irq: nat)
    ensures irq <= 16
  {
    var line := Signals(c.master, MasterRequests(c));
    if line == 8 then 16
    else if !Test(c.master.cascade, line) then line
    else if SlaveNumber(c) == line then 8 + Signals(c.slave, c.slave.irr)
    else 16
  }

  /** Both chips know which line the slave is on. */
  ghost predicate Wired(c: Cascade) {
    (forall i: nat :: Test(c.master.cascade, i) <==> i == 2) && c.slave.cascade == 2
  }

  lemma WiredNumber(c: Cascade)
    requires Wired(c)
    ensures SlaveNumber(c) == CASCADE_LINE
  {
  }

  function Serve(c: Chip, line: nat): Chip {
    c.(irr := Without(c.irr, line), isr := With(c.isr, line))
  }

  /** The effect of delivering an interrupt: a slave's goes into service at both chips. */
  function ServeIrq(c: Cascade, irq: nat): Cascade
    requires irq < 16
  {
    if irq >= 8 then Cascade(Serve(c.master, CASCADE_LINE), Serve(c.slave, irq - 8))
    else c.(master := Serve(c.master, irq))
  }

  /** The acknowledge cycle. */
  function Accept(c: Cascade): Cascade {
    if Accepted(c) < 16 then ServeIrq(c, Accepted(c)) else c
  }

  /** A device raises its line. Line 2 belongs to the slave. */
  function Request(c: Cascade, irq: nat): Cascade {
    if irq == CASCADE_LINE || irq >= 16 then c
    else if irq >= 8 then c.(slave := c.slave.(irr := With(c.slave.irr, irq - 8)))
    else c.(master := c.master.(irr := With(c.master.irr, irq)))
  }

  /** The vector the controllers put on the bus for an interrupt, in 8086 mode. */
  function DeliveredVector(c: Cascade, irq: nat): bv8
    requires irq < 16
  {
    if irq < 8 then (c.master.vector & 0xf8) | irq as bv8
    else (c.slave.vector & 0xf8) | (irq - 8) as bv8
  }

  /** `irq` asks for service and is masked neither on its own line nor, on the slave, at the master. */
  predicate Eligible(c: Cascade, irq: nat) {
    if irq < 8 then irq != CASCADE_LINE && Test(c.master.irr, irq) && !Test(c.master.imr, irq)
    else
      && irq < 16
      && Test(c.slave.irr, irq - 8) && !Test(c.slave.imr, irq - 8)
      && !Test(c.master.imr, CASCADE_LINE)
  }

  /** The master line an interrupt comes in on, which is its priority. */
  function Line(irq: nat): nat {
    if irq < 8 then irq else CASCADE_LINE
  }

  /** What is delivered is eligible, and outranks everything the master has in service. */
  lemma AcceptedIsEligible(c: Cascade)
    requires Wired(c) && Accepted(c) < 16
    ensures Eligible(c, Accepted(c))
    ensures Line(Accepted(c)) < Lowest(c.master.isr)
  {
    hide Lowest, With, Without, Test, Unmasked, SlaveNumber;
    WiredNumber(c);
    var m, s := Signals(c.master, MasterRequests(c)), Signals(c.slave, c.slave.irr);
    TestUnmasked(MasterRequests(c), c.master.imr, m);
    TestUnmasked(c.slave.irr, c.slave.imr, s);
    TestWith(c.master.irr, CASCADE_LINE, m);
    TestWithout(c.master.irr, CASCADE_LINE, m);
  }

  /**
   * An eligible interrupt that outranks what both its chips have in service is not passed over:
   * it is delivered, or one of at least its priority is.
   */
  lemma EligibleIsServed(c: Cascade, irq: nat)
    requires Wired(c) && Eligible(c, irq) && Line(irq) < Lowest(c.master.isr)
    requires irq >= 8 ==> irq - 8 < Lowest(c.slave.isr)
    ensures Accepted(c) < 16 && Line(Accepted(c)) <= Line(irq)
    ensures irq >= 8 && Accepted(c) >= 8 ==> Accepted(c) <= irq
  {
    hide Lowest, With, Without, Test, Unmasked, SlaveNumber;
    WiredNumber(c);
    if irq >= 8 {
      TestUnmasked(c.slave.irr, c.slave.imr, irq - 8);
    }
    var requests := MasterRequests(c);
    TestWith(c.master.irr, CASCADE_LINE, Line(irq));
    TestWithout(c.master.irr, CASCADE_LINE, Line(irq));
    TestUnmasked(requests, c.master.imr, Line(irq));
    // Line 2 is only requested while the slave signals.
    TestWithout(c.master.irr, CASCADE_LINE, CASCADE_LINE);
    TestUnmasked(requests, c.master.imr, CASCADE_LINE);
  }

  /** If either chip is told otherwise, no interrupt of the slave is ever delivered. */
  lemma UnwiredSlaveIsLost(c: Cascade)
    requires !Test(c.master.cascade, CASCADE_LINE) || SlaveNumber(c) != CASCADE_LINE
    requires forall i: nat :: i != CASCADE_LINE ==> !Test(c.master.cascade, i)
    ensures Accepted(c) < 8 || Accepted(c) == 16
  {
  }
}
