/** src/kernel/pic.c: the driver of the two interrupt controllers. */
module Pic {
  import opened Bits
  import opened Chip8259

  const EOI: bv8 := 0x20
  const ICW1: bv8 := 0x11
  const ICW4_8086: bv8 := 0x01
  const READ_IRR: bv8 := 0x0a
  const READ_ISR: bv8 := 0x0b

  /** What `pic_send_eoi` is for: the best interrupt in service is done, at the slave too for its own. */
  function SendEoi(c: Cascade, irq: nat): Cascade {
    Cascade(EndHighest(c.master), if irq >= 8 then EndHighest(c.slave) else c.slave)
  }

  /** Masking one interrupt, at its own chip. */
  function SetMask(c: Cascade, irq: nat): Cascade {
    if irq < 8 then c.(master := c.master.(imr := With(c.master.imr, irq)))
    else c.(slave := c.slave.(imr := With(c.slave.imr, irq - 8)))
  }

  function ClearMask(c: Cascade, irq: nat): Cascade {
    if irq < 8 then c.(master := c.master.(imr := Without(c.master.imr, irq)))
    else c.(slave := c.slave.(imr := Without(c.slave.imr, irq - 8)))
  }

  function Disable(c: Cascade): Cascade {
    Cascade(c.master.(imr := 0xff), c.slave.(imr := 0xff))
  }

  /** `1 << line`, cut to a byte. */
  function Shifted(line: nat): bv8 {
    if line < 8 then 1 << line else 0
  }

  /** The driver's mask arithmetic sets and clears the line's bit. */
  lemma MaskArithmetic(value: bv8, line: nat)
    ensures value | Shifted(line) == With(value, line) && value & !Shifted(line) == Without(value, line)
  {
    hide Bit;
    if line < 8 {
      BitIsShift(line);
    } else {
      NoSuchBit(line);
    }
  }

  /** What a chip is after an ICW sequence and the restored mask. */
  function Initialised(c: Chip, offset: bv8, wiring: bv8): Chip {
    Chip(Ready, false, true, false, offset & 0xf8, wiring, ICW4_8086, c.imr, 0, AfterInit(c), false, c.keepsService)
  }

  function Remap(c: Cascade, offset1: bv8, offset2: bv8): Cascade {
    Cascade(Initialised(c.master, offset1, 4), Initialised(c.slave, offset2, 2))
  }

  /**
   * What the two chips are told: edge-triggered, 8086 mode, unbuffered, normal end of interrupt, not
   * specially nested (ICW4 bits 0, 3, 1 and 4); a slave, on line 2 and nowhere else, that knows it;
   * vectors from the two offsets, cut to multiples of 8.
   */
  lemma RemapMeans(c: Cascade, offset1: bv8, offset2: bv8)
    ensures var d := Remap(c, offset1, offset2);
      && Operational(d) && Wired(d) && !d.master.single && !d.slave.single && !d.master.level && !d.slave.level
      && d.master.icw4 & 0x1b == 0x01 && d.slave.icw4 & 0x1b == 0x01
      && IsCut(d.master.vector, offset1) && IsCut(d.slave.vector, offset2)
      && d.master.imr == c.master.imr && d.slave.imr == c.slave.imr
      && d.master.irr == 0 && d.slave.irr == 0 && !d.master.readIsr && !d.slave.readIsr
  {
  }

  /** A multiple of 8, at most the offset and less than 8 below it. */
  predicate IsCut(vector: bv8, offset: bv8) {
    vector & 0x07 == 0 && vector <= offset && offset - vector < 8
  }

  /** The driver's statics, and the controllers behind the ports. */
  class Driver {
    var dev: Cascade
    var offset0: bv8
    var offset1: bv8

    constructor (dev: Cascade)
      ensures this.dev == dev && offset0 == 0 && offset1 == 0
    {
      this.dev := dev;
      offset0, offset1 := 0, 0;
    }

    method WriteByte(port: nat, data: bv8)
      modifies this`dev
      ensures dev == Out(old(dev), port, data)
    {
      dev := Out(dev, port, data);
    }

    method ReadByte(port: nat) returns (data: bv8)
      ensures data == In(dev, port)
    {
      data := In(dev, port);
    }

    /** `pic_send_eoi`. */
    method PicSendEoi(irq: nat)
      modifies this`dev
      ensures dev == SendEoi(old(dev), irq)
    {
      if irq >= 8 {
        WriteByte(SLAVE_COMMAND, EOI);
      }
      WriteByte(MASTER_COMMAND, EOI);
    }

    /**
     * `pic_remap`. From any state of the two chips, even one in the middle of an initialisation,
     * both end up operational in 8086 mode with normal end of interrupt, wired at line 2, their
     * masks as before.
     */
    method PicRemap(offset1: bv32, offset2: bv32)
      modifies this
      ensures this.offset0 == (offset1 & 0xff) as bv8 && this.offset1 == (offset2 & 0xff) as bv8
      ensures dev == Remap(old(dev), this.offset0, this.offset1)
      ensures Operational(dev) && Wired(dev) && dev.master.icw4 & 0x1b == 0x01 && dev.slave.icw4 & 0x1b == 0x01
      ensures dev.master.imr == In(old(dev), 0x21) && dev.slave.imr == In(old(dev), 0xa1)
    {
      RemapMeans(dev, (offset1 & 0xff) as bv8, (offset2 & 0xff) as bv8);
      this.offset0 := (offset1 & 0xff) as bv8;
      this.offset1 := (offset2 & 0xff) as bv8;
      var maskMaster := ReadByte(MASTER_DATA);
      var maskSlave := ReadByte(SLAVE_DATA);
      WriteByte(MASTER_COMMAND, ICW1);
      IoWait();
      WriteByte(SLAVE_COMMAND, ICW1);
      IoWait();
      WriteByte(MASTER_DATA, (offset1 & 0xff) as bv8);
      IoWait();
      WriteByte(SLAVE_DATA, (offset2 & 0xff) as bv8);
      IoWait();
      WriteByte(MASTER_DATA, 4);
      IoWait();
      WriteByte(SLAVE_DATA, 2);
      IoWait();
      WriteByte(MASTER_DATA, ICW4_8086);
      IoWait();
      WriteByte(SLAVE_DATA, ICW4_8086);
      IoWait();
      WriteByte(MASTER_DATA, maskMaster);
      WriteByte(SLAVE_DATA, maskSlave);
    }

    /** `io_wait`: a write to an unused port. */
    method IoWait()
      modifies this`dev
      ensures dev == old(dev)
    {
      WriteByte(0x80, 0);
    }

    method PicInit()
      modifies this
      ensures offset0 == 0x20 && offset1 == 0x28
      ensures dev == Remap(old(dev), 0x20, 0x28)
    {
      PicRemap(0x20, 0x28);
    }

    method PicDisable()
      modifies this`dev
      ensures Operational(old(dev)) ==> dev == Disable(old(dev))
    {
      WriteByte(MASTER_DATA, 0xff);
      WriteByte(SLAVE_DATA, 0xff);
    }

    function PicGetVector(irq: nat): bv8
      requires irq < 0x100
      reads this
    {
      if irq < 8 then offset0 + irq as bv8 else offset1 + (irq - 8) as bv8
    }

    /** `irq_set_mask`. Shifts of 32 and more are undefined in C; numbers from 16 to 39 name no bit. */
    method IrqSetMask(irq: nat)
      requires irq < 40
      modifies this`dev
      ensures Operational(old(dev)) ==> dev == SetMask(old(dev), irq)
    {
      var port, line := MASTER_DATA, irq;
      if irq >= 8 {
        port, line := SLAVE_DATA, irq - 8;
      }
      var value := ReadByte(port);
      MaskArithmetic(value, line);
      WriteByte(port, value | Shifted(line));
    }

    method IrqClearMask(irq: nat)
      requires irq < 40
      modifies this`dev
      ensures Operational(old(dev)) ==> dev == ClearMask(old(dev), irq)
    {
      var port, line := MASTER_DATA, irq;
      if irq >= 8 {
        port, line := SLAVE_DATA, irq - 8;
      }
      var value := ReadByte(port);
      MaskArithmetic(value, line);
      WriteByte(port, value & !Shifted(line));
    }

    /** `pic_get_irq_reg`: selects the register on both chips first, so what was selected before does not matter. */
    method PicGetIrqReg(ocw3: bv8) returns (word: bv16)
      requires ocw3 == READ_IRR || ocw3 == READ_ISR
      modifies this`dev
      ensures Registers(dev) == Registers(old(dev))
      ensures IsRegisterWord(word, old(dev), ocw3 == READ_ISR)
    {
      WriteByte(MASTER_COMMAND, ocw3);
      WriteByte(SLAVE_COMMAND, ocw3);
      var slave := ReadByte(SLAVE_COMMAND);
      var master := ReadByte(MASTER_COMMAND);
      word := Combined(slave, master);
      WordIsRegister(old(dev), ocw3 == READ_ISR);
    }

    method PicGetIrr() returns (word: bv16)
      modifies this`dev
      ensures Registers(dev) == Registers(old(dev))
      ensures IsRegisterWord(word, old(dev), false)
    {
      word := PicGetIrqReg(READ_IRR);
    }

    method PicGetIsr() returns (word: bv16)
      modifies this`dev
      ensures Registers(dev) == Registers(old(dev))
      ensures IsRegisterWord(word, old(dev), true)
    {
      word := PicGetIrqReg(READ_ISR);
    }
  }

  /** Everything but the read selection. */
  function Registers(c: Cascade): Cascade {
    Cascade(c.master.(readIsr := false), c.slave.(readIsr := false))
  }

  /** The bit of an interrupt in the in-service or the request registers of the pair. */
  predicate InRegister(c: Cascade, inService: bool, irq: nat)
    requires irq < 16
  {
    if irq < 8 then Test(if inService then c.master.isr else c.master.irr, irq)
    else Test(if inService then c.slave.isr else c.slave.irr, irq - 8)
  }

  /** Bit `irq` of a 16-bit word. */
  predicate WordTest(word: bv16, irq: nat) {
    if irq < 8 then Test((word & 0xff) as bv8, irq) else Test((word >> 8) as bv8, irq - 8)
  }

  /** Bit i of the word is interrupt i's bit, for all sixteen. */
  ghost predicate IsRegisterWord(word: bv16, c: Cascade, inService: bool) {
    forall irq: nat :: irq < 16 ==> (WordTest(word, irq) <==> InRegister(c, inService, irq))
  }

  function Combined(slave: bv8, master: bv8): bv16 {
    ((slave as bv16) << 8) | master as bv16
  }

  lemma CombinedBytes(slave: bv8, master: bv8)
    ensures (Combined(slave, master) & 0xff) as bv8 == master
    ensures (Combined(slave, master) >> 8) as bv8 == slave
  {
  }

  lemma WordIsRegister(c: Cascade, inService: bool)
    ensures var master, slave := if inService then c.master.isr else c.master.irr,
                                 if inService then c.slave.isr else c.slave.irr;
      IsRegisterWord(Combined(slave, master), c, inService)
  {
    var master, slave := if inService then c.master.isr else c.master.irr,
                         if inService then c.slave.isr else c.slave.irr;
    hide Combined, Test;
    CombinedBytes(slave, master);
  }

  /** The driver's vectors are the delivered ones, for all interrupts, exactly when both offsets are multiples of 8. */
  lemma VectorsAgree(d: Driver, c: Cascade)
    requires d.dev == Remap(c, d.offset0, d.offset1)
    ensures (forall irq: nat :: irq < 16 ==> d.PicGetVector(irq) == DeliveredVector(d.dev, irq))
      <==> d.offset0 & 7 == 0 && d.offset1 & 7 == 0
  {
    assert d.PicGetVector(0) == d.offset0 && d.PicGetVector(8) == d.offset1;
    assert DeliveredVector(d.dev, 0) == d.offset0 & 0xf8;
    assert DeliveredVector(d.dev, 8) == d.offset1 & 0xf8;
    forall irq: nat | irq < 16
      ensures d.offset0 & 7 == 0 && d.offset1 & 7 == 0 ==> d.PicGetVector(irq) == DeliveredVector(d.dev, irq)
    {
      if irq < 8 {
        VectorOfLine(d.offset0, irq);
      } else {
        VectorOfLine(d.offset1, irq - 8);
      }
    }
  }

  /** After `pic_init`, the 16 interrupts have the 16 vectors from 0x20 on. */
  lemma VectorsAfterInit(d: Driver, c: Cascade, irq: nat)
    requires d.offset0 == 0x20 && d.offset1 == 0x28 && d.dev == Remap(c, d.offset0, d.offset1)
    requires irq < 16
    ensures d.PicGetVector(irq) as nat == DeliveredVector(d.dev, irq) as nat == 0x20 + irq
  {
    VectorsAgree(d, c);
  }

  lemma VectorOfLine(offset: bv8, line: nat)
    requires line < 8
    ensures offset & 7 == 0 ==> offset + line as bv8 == (offset & 0xf8) | line as bv8
  {
    if
    case line == 0 =>
    case line == 1 =>
    case line == 2 =>
    case line == 3 =>
    case line == 4 =>
    case line == 5 =>
    case line == 6 =>
    case line == 7 =>
  }
}
