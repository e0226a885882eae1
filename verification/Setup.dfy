/**
 * How src/driver/ps2.c sets up the controller: which bytes it is sent, and which configuration is left.
 */
module Setup {
  import opened Bits
  import opened Wrappers
  import opened Controller8042

  /** Commands to the controller itself: no device has been sent anything. */
  predicate OnlySetup(before: Controller, after: Controller) {
    after == before.(config := after.config, awaiting := after.awaiting, out := after.out,
                     last := after.last, wire := after.wire)
  }

  /**
   * The configuration byte that initialisation ends with, bit by bit. Interrupt 0 is on, the clock
   * of port 0 is enabled and translation is off; bits 2, 3 and 7 are as they were. With two
   * channels the clock of port 1 is enabled, and its interrupt is on if the port passed its test.
   */
  ghost predicate ConfigAfterInit(before: bv8, after: bv8, dual: bool, port1: bool) {
    forall i: nat :: i < 8 ==> (Test(after, i) <==> BitAfterInit(before, dual, port1, i))
  }

  predicate BitAfterInit(before: bv8, dual: bool, port1: bool, i: nat) {
    match i
    case 0 => true
    case 1 => if dual then port1 else Test(before, 1)
    case 4 => false
    case 5 => !dual
    case 6 => false
    case _ => Test(before, i)
  }

  /** The byte from the first write to the detection of port 1: its clock off, its interrupt as it was. */
  ghost predicate ConfigForTest(before: bv8, after: bv8) {
    forall i: nat :: i < 8 ==> (Test(after, i) <==> BitForTest(before, i))
  }

  predicate BitForTest(before: bv8, i: nat) {
    i == 0 || i == 5 || (i != 4 && i != 6 && Test(before, i))
  }

  /** What the driver makes of the byte that it first reads. */
  function FirstConfig(config: bv8): bv8 {
    Without(Without(With(config, INTERRUPT_0), TRANSLATION), CLOCK_0)
  }

  lemma FirstConfigBits(before: bv8)
    ensures ConfigForTest(before, FirstConfig(With(With(before, CLOCK_0), CLOCK_1)))
  {
  }

  // ---------- The same, byte for byte ----------

  /** The three configuration bytes that are written: at first, for a second channel, and in the end. */
  function FirstByte(before: bv8): bv8 {
    (before | 0x21) & 0xaf
  }

  function DualByte(before: bv8): bv8 {
    FirstByte(before) & 0xdd
  }

  function FinalByte(before: bv8, dual: bool, port1: bool): bv8 {
    if !dual then FirstByte(before) else if port1 then DualByte(before) | 0x02 else DualByte(before)
  }

  /** The byte-wise form is the bit-wise one. */
  lemma FinalBits(before: bv8, dual: bool, port1: bool)
    requires port1 ==> dual
    ensures ConfigAfterInit(before, FinalByte(before, dual, port1), dual, port1)
  {
  }

  lemma FirstBits(before: bv8)
    ensures ConfigForTest(before, FirstByte(before))
    ensures FirstConfig(With(With(before, CLOCK_0), CLOCK_1)) == FirstByte(before)
  {
  }

  /** How the driver and the controller come by these bytes. */
  lemma SecondChannelBytes(before: bv8)
    ensures var first := FirstByte(before);
      && Test(first, CLOCK_1) && !Test(Without(first, CLOCK_1), CLOCK_1)
      && With(first, CLOCK_1) == With(Without(first, CLOCK_1), CLOCK_1) == first
      && Without(Without(Without(first, CLOCK_1), INTERRUPT_1), CLOCK_1) == DualByte(before)
  {
  }

  lemma EnabledBytes(before: bv8)
    ensures var first, second := FirstByte(before), DualByte(before);
      && Without(first, CLOCK_0) == first && With(first, INTERRUPT_0) == first
      && Without(second, CLOCK_0) == second && With(second, INTERRUPT_0) == second
      && Without(second, CLOCK_1) == second && With(second, INTERRUPT_1) == FinalByte(before, true, true)
  {
  }

  lemma StoredTwice(b: bv8, i: nat)
    ensures With(With(b, i), i) == With(b, i)
  {
  }

  // ---------- Everything written to the controller ----------

  function PrepareWire(before: bv8): seq<Write> {
    [Command(0xad), Command(0xa7), Command(0x20), Command(0x60), Data(FirstByte(before))]
  }

  /** Whether the self-test leaves another configuration, which then has to be written again. */
  predicate Restores(c: Controller, config: bv8) {
    c.selfTestConfig.Some? && Stored(c, c.selfTestConfig.value) != config
  }

  function SelfTestWire(c: Controller, config: bv8): seq<Write> {
    [Command(0xaa)]
    + (if c.selfTest != 0x55 then []
       else [Command(0x20)] + if Restores(c, config) then [Command(0x60), Data(config)] else [])
  }

  function DetectWire(before: bv8, dual: bool): seq<Write> {
    [Command(0xa8), Command(0x20)]
    + if dual then [Command(0xa7), Command(0x60), Data(DualByte(before))] else []
  }

  function TestWire(dual: bool): seq<Write> {
    [Command(0xab)] + if dual then [Command(0xa9)] else []
  }

  function EnableWire(before: bv8, dual: bool, port0: bool, port1: bool): seq<Write> {
    (if port0 then [Command(0xae)] else []) + (if port1 then [Command(0xa8)] else [])
    + [Command(0x20), Command(0x60), Data(FinalByte(before, dual, port1))]
  }

  /** From the first command to the first reset. */
  function SetupWire(c: Controller, port0: bool, port1: bool): seq<Write> {
    PrepareWire(c.config) + SelfTestWire(c, FirstByte(c.config))
    + if c.selfTest != 0x55 then []
      else
        DetectWire(c.config, c.dual) + TestWire(c.dual)
        + if port0 || port1 then EnableWire(c.config, c.dual, port0, port1) else []
  }

  lemma SelfTestWireSame(a: Controller, b: Controller, config: bv8)
    requires OnlySetup(a, b)
    ensures SelfTestWire(a, config) == SelfTestWire(b, config)
  {
  }

  /** The parts joined one after the other. */
  lemma SetupWireParts(start: seq<Write>, c: Controller, port0: bool, port1: bool)
    ensures var tested := start + PrepareWire(c.config) + SelfTestWire(c, FirstByte(c.config));
      var detected := tested + DetectWire(c.config, c.dual) + TestWire(c.dual);
      && (c.selfTest != 0x55 ==> start + SetupWire(c, port0, port1) == tested)
      && (c.selfTest == 0x55 && !port0 && !port1 ==> start + SetupWire(c, port0, port1) == detected)
      && (c.selfTest == 0x55 && (port0 || port1) ==>
            start + SetupWire(c, port0, port1) == detected + EnableWire(c.config, c.dual, port0, port1))
  {
    hide PrepareWire, SelfTestWire, DetectWire, TestWire, EnableWire, FirstByte;
  }

  // ---------- Effects of single commands ----------

  /** A port test only adds its result to the answers. */
  lemma TestAnswers(c: Controller)
    ensures OnCommand(c, TEST_PORT_0)
      == c.(wire := c.wire + [Command(TEST_PORT_0)], awaiting := ForDevice, out := c.out + [c.test0])
    ensures c.dual ==>
      OnCommand(c, TEST_PORT_1)
      == c.(wire := c.wire + [Command(TEST_PORT_1)], awaiting := ForDevice, out := c.out + [c.test1])
  {
    hide With, Without;
  }

  /** The self-test answers, and may reset the configuration. */
  lemma SelfTestAnswers(c: Controller)
    ensures OnCommand(c, TEST)
      == c.(wire := c.wire + [Command(TEST)], awaiting := ForDevice, out := c.out + [c.selfTest],
            config := if c.selfTestConfig.Some? then Stored(c, c.selfTestConfig.value) else c.config)
  {
    hide With, Without;
  }

  /** Enabling a port whose clock is already on only leaves its trace on the wire. */
  lemma EnableKeeps(c: Controller, cmd: bv8)
    requires cmd == ENABLE_PORT_0 || cmd == ENABLE_PORT_1
    requires cmd == ENABLE_PORT_0 ==> Without(c.config, CLOCK_0) == c.config
    requires cmd == ENABLE_PORT_1 ==> c.dual && Without(c.config, CLOCK_1) == c.config
    ensures OnCommand(c, cmd) == c.(wire := c.wire + [Command(cmd)], awaiting := ForDevice)
  {
    hide With, Without;
  }
}
