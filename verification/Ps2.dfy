/** src/driver/ps2.c: bounded polling, device commands, and initialisation of the keyboard controller. */
module Ps2 {
  import opened Words
  import opened Bits
  import opened Controller8042
  import opened Keyboard
  import opened Setup
  import opened Timing

  const DEFAULT_WAIT: u32 := 1024
  const SELF_TEST_PASSED: bv8 := 0x55

  // ---------- Polling ----------

  /**
   * The loop of `ps2_buffer_wait` and `response_wait`, on any infinite stream of status reads. It
   * stops after at most 1025 reads. The counter wraps when it runs out, so the result is false in
   * one case only: the first ready read is the 1025th.
   */
  method PollWait(ready: nat -> bool) returns (result: bool, polls: nat)
    ensures 1 <= polls <= 1025
    ensures forall i :: 0 <= i < polls - 1 ==> !ready(i)
    ensures polls < 1025 ==> ready(polls - 1)
    ensures result <==> WaitResult(ready)
    ensures ready(polls - 1) <==> ReadyWithin(ready, 1025)
    ensures (result <==> ReadyWithin(ready, 1025)) <==> ReadyWithin(ready, 1024)
  {
    var wait: u32 := DEFAULT_WAIT;
    polls := 0;
    while true
      invariant wait == DEFAULT_WAIT - polls
      invariant forall i :: 0 <= i < polls ==> !ready(i)
      decreases wait
    {
      polls := polls + 1;
      if ready(polls - 1) {
        break;
      }
      if wait == 0 {
        wait := ToU32(wait - 1);
        break;
      }
      wait := wait - 1;
    }
    result := wait != 0;
    WaitKeepsPromise(ready);
    if i :| 0 <= i < 1025 && ready(i) {
      assert i >= polls - 1;
    }
  }

  /** What a wait returns on a stream of status reads. */
  ghost predicate WaitResult(ready: nat -> bool) {
    !(ready(1024) && !ReadyWithin(ready, 1024))
  }

  /**
   * The promise of the header, true when ready and false when the iterations run out, is kept
   * exactly when one of the first 1024 reads is ready.
   */
  lemma WaitKeepsPromise(ready: nat -> bool)
    ensures (WaitResult(ready) <==> ReadyWithin(ready, 1025)) <==> ReadyWithin(ready, 1024)
  {
    if i :| 0 <= i < 1024 && ready(i) {
      assert ReadyWithin(ready, 1025);
    }
    if ReadyWithin(ready, 1025) && !ReadyWithin(ready, 1024) {
      var i :| 0 <= i < 1025 && ready(i);
      assert i == 1024;
    }
    if ready(1024) {
      assert ReadyWithin(ready, 1025);
    }
  }

  /** A controller that is ready at the very last read is reported as not ready, and one that never is as ready. */
  lemma BrokenPromises(last: nat -> bool, never: nat -> bool)
    requires forall i: nat :: (last(i) <==> i == 1024) && !never(i)
    ensures !WaitResult(last) && ReadyWithin(last, 1025)
    ensures WaitResult(never) && !ReadyWithin(never, 1025)
  {
    assert last(1024);
  }

  // ---------- The driver ----------

  class Driver {
    var hw: Controller
    var waits: nat
    const canSend: (nat, nat) -> bool   // whether the i-th poll of the n-th wait finds room for a byte
    const answers: (nat, nat) -> bool   // whether it finds the next answer, if there is one

    var port0Operational: bool
    var port1Operational: bool
    var dualChannel: bool
    var port0Id: bv16
    var port1Id: bv16

    // The keyboard driver: its interrupt vector, 0 before it is started, and its port.
    const irqVector: bv8
    var kbdVector: bv8
    var kbdPort: Port

    constructor (hw: Controller, canSend: (nat, nat) -> bool, answers: (nat, nat) -> bool, irqVector: bv8)
      ensures this.hw == hw && this.canSend == canSend && this.answers == answers && this.irqVector == irqVector
      ensures !port0Operational && !port1Operational && !dualChannel && port0Id == port1Id == 0
      ensures kbdVector == 0
    {
      this.hw, this.canSend, this.answers, waits := hw, canSend, answers, 0;
      port0Operational, port1Operational, dualChannel := false, false, false;
      port0Id, port1Id := 0, 0;
      this.irqVector, kbdVector, kbdPort := irqVector, 0, Port0;
    }

    /** In every wait from now on the controller becomes ready, and any answer it has arrives, within 1024 polls. */
    ghost predicate Timely()
      reads this`waits
    {
      Settled(canSend, answers, waits)
    }

    /** `ps2_buffer_wait`, on any status reads. */
    method BufferWait() returns (ok: bool)
      modifies this`waits
      ensures ok <==> !AtTheLast(canSend, old(waits))
      ensures waits == old(waits) + 1
    {
      var n, polls := waits, 0;
      var ready := (i: nat) => canSend(n, i);
      ok, polls := PollWait(ready);
      SameReadiness(canSend, n, ready);
      waits := waits + 1;
    }

    /**
     * `response_wait`, on any status reads. A controller with nothing to say is waited for in vain,
     * but the result is true. `arrived` is what the hardware then has at its data port.
     */
    method ResponseWait() returns (ok: bool, arrived: bool)
      modifies this`waits
      ensures ok <==> !Missed(hw, answers, old(waits))
      ensures ok ==> (arrived <==> hw.out != [] && Early(answers, old(waits)))
      ensures waits == old(waits) + 1
    {
      var n, full, polls := waits, hw.out != [], 0;
      var ready := (i: nat) => full && answers(n, i);
      ok, polls := PollWait(ready);
      arrived := ready(polls - 1);
      if full {
        SameReadiness(answers, n, ready);
      }
      waits := waits + 1;
    }

    /**
     * `try_read_data`, on any status reads: false exactly when the answer comes in the 1025th poll.
     * An answer that comes later, or never, is taken to be the last one again.
     */
    method TryReadData() returns (ok: bool, data: bv8)
      modifies this`hw, this`waits
      ensures ok <==> !Missed(old(hw), answers, old(waits))
      ensures ok ==> data == Shown(old(hw), answers, old(waits)) && hw == Taken(old(hw), answers, old(waits))
      ensures !ok ==> data == 0 && hw == old(hw)
      ensures waits == old(waits) + 1
    {
      data := 0;
      var arrived;
      ok, arrived := ResponseWait();
      if ok {
        data := ReadByteData(arrived);
      }
    }

    /** A read of the data port. */
    method ReadByteData(arrived: bool) returns (data: bv8)
      modifies this`hw
      ensures data == if arrived then Front(old(hw)) else old(hw).last
      ensures hw == if arrived then AfterRead(old(hw)) else old(hw)
    {
      data := hw.last;
      if arrived {
        data := Front(hw);
        hw := AfterRead(hw);
      }
    }

    /** `ps2_read_data`: the missing answer is 0. */
    method ReadData() returns (data: bv8)
      modifies this`hw, this`waits
      ensures data == if Missed(old(hw), answers, old(waits)) then 0 else Shown(old(hw), answers, old(waits))
      ensures hw == if Missed(old(hw), answers, old(waits)) then old(hw) else Taken(old(hw), answers, old(waits))
      ensures waits == old(waits) + 1
    {
      var ok;
      ok, data := TryReadData();
      if !ok {
        data := 0;
      }
    }

    /** `ps2_send_data`: the byte is dropped exactly when the controller becomes ready in the 1025th poll. */
    method SendData(data: bv8)
      modifies this`hw, this`waits
      ensures hw == SentData(old(hw), canSend, old(waits), data)
      ensures waits == old(waits) + 1
    {
      var ok := BufferWait();
      if !ok {
        return;
      }
      hw := OnData(hw, data);
    }

    /** `ps2_send_command`. */
    method SendCommand(command: bv8)
      modifies this`hw, this`waits
      ensures hw == SentCommand(old(hw), canSend, old(waits), command)
      ensures waits == old(waits) + 1
    {
      var ok := BufferWait();
      if !ok {
        return;
      }
      hw := OnCommand(hw, command);
    }

    /** One transmission to a device, with the routing byte if it is for port 1, on any status reads. */
    method SendToDevice(cmd: bv8, port: Port)
      modifies this`hw, this`waits
      ensures hw == Transmitted(old(hw), canSend, old(waits), cmd, port)
      ensures waits == old(waits) + Transfers(port)
    {
      hide SentCommand, SentData;
      if port == Port1 {
        SendCommand(TO_PORT_1);
      }
      SendData(cmd);
    }

    /**
     * `ps2_send_device_command`, which calls itself again on a request to resend. The controller may
     * be late until some wait, and is not afterwards.
     */
    method SendDeviceCommand(cmd: bv8, port: Port, ghost settled: nat)
      requires Settled(canSend, answers, settled) && (port == Port0 ==> hw.awaiting == ForDevice)
      modifies this`hw, this`waits
      ensures (hw, waits) == LateExchange(old(hw), canSend, answers, old(waits), settled, cmd, port)
      ensures settled <= old(waits) && old(hw).awaiting == ForDevice ==> hw == Exchange(old(hw), cmd, port)
      ensures waits >= old(waits)
      decreases Unsettled(waits, settled), Patience(hw.out, Script(hw, port))
    {
      hide Transmitted, Transmit, Patience, Early, Shown, Taken, Missed, Exchange;
      ghost var start, n := hw, waits;
      if settled <= n && start.awaiting == ForDevice {
        SettledExchange(start, canSend, answers, n, settled, cmd, port);
      }
      SendToDevice(cmd, port);
      StaysRouted(start, canSend, n, cmd, port);
      ghost var sent := hw;
      var hasResp, resp := TryReadData();
      if hasResp && resp != ACK {
        if resp == RESEND {
          PatienceFalls(start, canSend, answers, n, settled, cmd, port);
          TakenAwaits(sent, answers, n + Transfers(port));
          SendDeviceCommand(cmd, port, settled);
        }
      }
    }

    /** `ps2_get_config`. */
    method GetConfig() returns (config: bv8)
      modifies this`hw, this`waits
      // On any status reads: what the read after the second wait finds.
      ensures var sent := SentCommand(old(hw), canSend, old(waits), READ_CONFIG);
        if Missed(sent, answers, old(waits) + 1) then config == 0 && hw == sent
        else config == Shown(sent, answers, old(waits) + 1) && hw == Taken(sent, answers, old(waits) + 1)
      ensures waits == old(waits) + 2
      // On a timely controller: the configuration, or the oldest unread answer.
      ensures old(Timely()) ==>
        && config == (if old(hw).out == [] then old(hw).config else old(hw).out[0])
        && hw == old(hw).(wire := old(hw).wire + [Command(0x20)], awaiting := ForDevice, last := config,
                          out := (old(hw).out + [old(hw).config])[1..])
    {
      hide Early, With, Without;
      assert old(Timely()) ==> Early(canSend, waits) && Early(answers, waits + 1);
      SendCommand(READ_CONFIG);
      config := ReadData();
    }

    /** `ps2_set_config`. */
    method SetConfig(config: bv8)
      modifies this`hw, this`waits
      ensures hw == SentData(SentCommand(old(hw), canSend, old(waits), WRITE_CONFIG), canSend, old(waits) + 1, config)
      ensures waits == old(waits) + 2
      ensures old(Timely()) ==>
        hw == old(hw).(wire := old(hw).wire + [Command(0x60), Data(config)], awaiting := ForDevice,
                       config := Stored(old(hw), config))
    {
      hide Early, SentCommand, SentData, Stored;
      if Timely() {
        assert Early(canSend, waits) && Early(canSend, waits + 1);
        ConfigSent(hw, canSend, waits, config);
      }
      SendCommand(WRITE_CONFIG);
      SendData(config);
    }

    /**
     * The three answers that `reset_port` reads first, on any status reads. The port is reported as
     * not populated exactly when one of them comes in the 1025th poll; silence is not noticed.
     */
    method ReadThree() returns (populated: bool, resp: seq<bv8>)
      modifies this`hw, this`waits
      ensures populated <==> Populated(old(hw), answers, old(waits))
      ensures hw == TakenAll(old(hw), answers, old(waits), Completed(old(hw), answers, old(waits), 3))
      ensures populated ==> |resp| == 3 && hw == TakenAll(old(hw), answers, old(waits), 3) && waits == old(waits) + 3
      ensures populated ==>
        forall i: nat :: i < 3 ==>
          resp[i] == Shown(TakenAll(old(hw), answers, old(waits), i), answers, old(waits) + i)
      ensures waits >= old(waits)
    {
      hide Shown, Taken, Missed;
      ghost var start, n := hw, waits;
      resp := [];
      for i := 0 to 3
        invariant |resp| == i && waits == n + i && hw == TakenAll(start, answers, n, i)
        invariant forall k: nat :: k < i ==> !Missed(TakenAll(start, answers, n, k), answers, n + k)
        invariant forall k: nat :: k < i ==> resp[k] == Shown(TakenAll(start, answers, n, k), answers, n + k)
      {
        var hasByte, b := TryReadData();
        if !hasByte {
          assert Missed(TakenAll(start, answers, n, i), answers, n + i);
          CompletedAll(start, answers, n, i);
          CompletedStays(start, answers, n, i, 3);
          return false, resp;
        }
        resp := resp + [b];
      }
      CompletedAll(start, answers, n, 3);
      populated := true;
    }

    /** The answer to the identify command, as a number. */
    method ReadId(oldId: bv16) returns (id: bv16)
      requires Timely()
      modifies this`hw, this`waits
      ensures hw == Drained(old(hw), 2) && waits == old(waits) + 2
      ensures id == Joined(Front(old(hw)) as bv16, Front(AfterRead(old(hw))))
    {
      hide Front, AfterRead, Joined, Early;
      assert Early(answers, waits) && Early(answers, waits + 1);
      id := oldId;
      var ok, response := TryReadData();
      if ok {
        id := response as bv16;
        ok, response := TryReadData();
        if ok {
          id := Joined(id, response);
        }
      }
      DrainedMore(old(hw));
    }

    /** The second half of `reset_port`: pause, identify, start. */
    method Identify(oldId: bv16, port: Port) returns (id: bv16)
      requires Timely() && hw.awaiting == ForDevice
      modifies this`hw, this`waits
      ensures hw == Identified(old(hw), port) && id == NumberRead(old(hw), port)
      ensures waits >= old(waits)
    {
      hide Exchange, LateExchange, Front, AfterRead, Drained, Patience, Joined, Early;
      ghost var n := waits;
      SendDeviceCommand(DISABLE_SCAN, port, n);
      SendDeviceCommand(IDENTIFY, port, n);
      id := ReadId(oldId);
      SendDeviceCommand(ENABLE_SCAN, port, n);
    }

    /** There is always room for a byte, and after the first three reads for a reset, every answer is in time. */
    ghost predicate TimelyOnceReset(port: Port)
      reads this`waits
    {
      && (forall n: nat :: n >= waits ==> Early(canSend, n))
      && (forall n: nat :: n >= waits + Transfers(port) + 3 ==> Early(answers, n))
    }

    /**
     * `reset_port`: exactly one reset goes to the device, and the controller's own state does not
     * change. The port is reported as empty, with number 0, exactly when one of the three answers to
     * the reset comes in the 1025th poll. With timely answers, a device that follows the protocol is
     * numbered by its answer to the identify command, rightly if and only if that has two bytes or is
     * the single byte 0.
     */
    method ResetPort(oldId: bv16, port: Port) returns (id: bv16)
      requires TimelyOnceReset(port) && hw.awaiting == ForDevice
      modifies this`hw, this`waits
      ensures LateOutcome(old(hw), answers, old(waits) + Transfers(port), oldId, port, id, hw)
      ensures old(Timely()) ==> ResetOutcome(old(hw), oldId, port, id, hw)
      ensures waits >= old(waits)
    {
      hide Transmit, Transmitted, Front, AfterRead, Drained, Identified, TakenAll, Completed, Populated, Early;
      hide NumberRead, Joined, WithSpecialCode, Taken, Missed, Shown, LateOutcome, ResetOutcome;
      hide ResetOnce, IdentifyBytes, GentlyAfter, Script, LateAnswered;
      ghost var start, n := hw, waits + Transfers(port);
      SettledTransmission(start, canSend, waits, RESET, port);
      LateResetOutcome(start, answers, n, oldId, port);
      if Timely() {
        TimelyResetOutcome(start, answers, n, oldId, port);
      }
      id := oldId;
      SendToDevice(RESET, port);
      ghost var sent := hw;
      TakenStarts(sent, answers, n);
      var populated, resp := ReadThree();
      if !populated {
        return 0;
      }
      if resp[0] == RESET_FAIL {
        return;
      }
      id := ReadSpecialCode(resp[2]);
      AnsweredSoFar(sent, answers, n);
      assert hw == LateAnswered(sent, answers, n);
      id := Identify(id, port);
    }

    /** The number after the first three answers, with the byte that follows 0xab and 0xac. */
    method ReadSpecialCode(third: bv8) returns (id: bv16)
      requires Early(answers, waits)
      modifies this`hw, this`waits
      ensures hw == if third == 0xab || third == 0xac then Taken(old(hw), answers, old(waits)) else old(hw)
      ensures old(waits) <= waits
    {
      hide Early, Shown, Taken, WithSpecialCode;
      NeverMissed(hw, answers, waits);
      id := third as bv16;
      if third == 0xab || third == 0xac {
        var hasSpecial, special := TryReadData();
        if hasSpecial {
          id := WithSpecialCode(id, special);
        }
      }
    }

    // ---------- On a timely controller ----------

    method SendTimelyCommand(command: bv8)
      requires Timely()
      modifies this`hw, this`waits
      ensures hw == OnCommand(old(hw), command) && waits >= old(waits)
    {
      SendCommand(command);
    }

    method SendTimelyData(b: bv8)
      requires Timely()
      modifies this`hw, this`waits
      ensures hw == OnData(old(hw), b) && waits >= old(waits)
    {
      SendData(b);
    }

    method ReadTimelyData() returns (b: bv8)
      requires Timely()
      modifies this`hw, this`waits
      ensures b == Front(old(hw)) && hw == AfterRead(old(hw)) && waits >= old(waits)
    {
      b := ReadData();
    }

    method GetTimelyConfig() returns (config: bv8)
      requires Timely() && hw.out == []
      modifies this`hw, this`waits
      ensures config == old(hw).config && waits >= old(waits)
      ensures hw == old(hw).(wire := old(hw).wire + [Command(0x20)], awaiting := ForDevice, last := config)
    {
      config := GetConfig();
    }

    method SetTimelyConfig(config: bv8)
      requires Timely() && Stored(hw, config) == config
      modifies this`hw, this`waits
      ensures hw == old(hw).(wire := old(hw).wire + [Command(0x60), Data(config)], awaiting := ForDevice,
                             config := config)
      ensures waits >= old(waits)
    {
      SetConfig(config);
    }

    // ---------- Initialisation ----------

    /** The first steps of `ps2_init`, up to the first configuration write. */
    method Prepare() returns (config: bv8)
      requires Timely() && Sound(hw) && |hw.out| <= 1
      modifies this`hw, this`waits
      ensures waits >= old(waits)
      ensures OnlySetup(old(hw), hw) && hw.out == []
      ensures hw.config == config == FirstByte(old(hw).config)
      ensures hw.wire == old(hw).wire + PrepareWire(old(hw).config)
    {
      hide With, Without, Test, Early, FirstByte, FirstConfig, OnCommand, Stored, Sound, Front, AfterRead;
      ghost var before := hw.config;
      BothDisabled(hw);
      FirstBits(before);
      SendTimelyCommand(DISABLE_PORT_0);
      SendTimelyCommand(DISABLE_PORT_1);
      Flushed(hw);
      var flushed := ReadByteData(true);
      config := GetTimelyConfig();
      config := FirstConfig(config);
      FirstStored(hw, before);
      SetTimelyConfig(config);
    }

    /** The self-test, and the repair of a configuration that it has reset. */
    method SelfTest(config: bv8) returns (passed: bool)
      requires Timely() && hw.out == [] && hw.config == config == Stored(hw, config)
      modifies this`hw, this`waits
      ensures waits >= old(waits)
      ensures OnlySetup(old(hw), hw) && (passed <==> hw.selfTest == 0x55)
      ensures passed ==> hw.out == [] && hw.config == config
      ensures hw.wire == old(hw).wire + SelfTestWire(hw, config)
    {
      hide With, Without, Test, Early, OnCommand;
      SelfTestAnswers(hw);
      SendTimelyCommand(TEST);
      var result := ReadTimelyData();
      passed := result == SELF_TEST_PASSED;
      if !passed {
        return;
      }
      var newConfig := GetTimelyConfig();
      if newConfig != config {
        SetTimelyConfig(config);
      }
    }

    /** Whether there is a second channel: enabling it clears its clock bit only if it exists. */
    method Detect(ghost before: bv8)
      requires Timely() && hw.out == [] && hw.config == FirstByte(before)
      modifies this`hw, this`waits, this`dualChannel
      ensures waits >= old(waits)
      ensures OnlySetup(old(hw), hw) && hw.out == []
      ensures dualChannel == hw.dual
      ensures hw.config == FinalByte(before, hw.dual, false) && ConfigAfterInit(before, hw.config, hw.dual, false)
      ensures hw.wire == old(hw).wire + DetectWire(before, hw.dual)
    {
      hide With, Without, Test, FirstByte, DualByte, ConfigAfterInit;
      SecondChannelBytes(before);
      FinalBits(before, hw.dual, false);
      SendTimelyCommand(ENABLE_PORT_1);
      var config := GetTimelyConfig();
      dualChannel := !Test(config, CLOCK_1);
      if dualChannel {
        SendTimelyCommand(DISABLE_PORT_1);
        config := Without(Without(config, INTERRUPT_1), CLOCK_1);
        SetTimelyConfig(config);
      }
    }

    /** One port test. */
    method TestPort(command: bv8) returns (passed: bool)
      requires Timely() && hw.out == []
      requires command == TEST_PORT_0 || (command == TEST_PORT_1 && hw.dual)
      modifies this`hw, this`waits
      ensures waits >= old(waits)
      ensures OnlySetup(old(hw), hw) && hw.out == [] && hw.config == old(hw).config
      ensures passed <==> (if command == TEST_PORT_0 then hw.test0 else hw.test1) == 0
      ensures hw.wire == old(hw).wire + [Command(command)]
    {
      hide OnCommand;
      TestAnswers(hw);
      SendTimelyCommand(command);
      var resp := ReadTimelyData();
      passed := resp == 0;
    }

    /** The port tests. */
    method TestPorts()
      requires Timely() && hw.out == [] && dualChannel == hw.dual
      modifies this`hw, this`waits, this`port0Operational, this`port1Operational
      ensures waits >= old(waits)
      ensures OnlySetup(old(hw), hw) && hw.out == [] && hw.config == old(hw).config
      ensures port0Operational <==> hw.test0 == 0
      ensures port1Operational <==> if hw.dual then hw.test1 == 0 else old(port1Operational)
      ensures hw.wire == old(hw).wire + TestWire(hw.dual)
    {
      port0Operational := TestPort(TEST_PORT_0);
      if dualChannel {
        port1Operational := TestPort(TEST_PORT_1);
      }
    }

    /** Enabling the ports that work. */
    method EnableTested()
      requires Timely()
      requires Without(hw.config, CLOCK_0) == hw.config
      requires port1Operational ==> hw.dual && Without(hw.config, CLOCK_1) == hw.config
      modifies this`hw, this`waits
      ensures waits >= old(waits)
      ensures hw == old(hw).(wire := hw.wire, awaiting := hw.awaiting)
      ensures hw.wire == old(hw).wire
        + (if port0Operational then [Command(0xae)] else []) + (if port1Operational then [Command(0xa8)] else [])
    {
      hide With, Without, Test, OnCommand;
      if port0Operational {
        EnableKeeps(hw, ENABLE_PORT_0);
        SendTimelyCommand(ENABLE_PORT_0);
      }
      if port1Operational {
        EnableKeeps(hw, ENABLE_PORT_1);
        SendTimelyCommand(ENABLE_PORT_1);
      }
    }

    /** Enabling the interrupts of the ports that work. */
    method EnableInterrupts(ghost before: bv8)
      requires Timely() && hw.out == [] && (port1Operational ==> hw.dual)
      requires hw.config == FinalByte(before, hw.dual, false)
      modifies this`hw, this`waits
      ensures waits >= old(waits)
      ensures var final := FinalByte(before, old(hw).dual, port1Operational);
        hw == old(hw).(wire := old(hw).wire + [Command(0x20), Command(0x60), Data(final)],
                       config := final, awaiting := ForDevice, last := hw.last)
    {
      hide With, Without, FinalByte, Stored, Early, OnCommand, OnData;
      var config := GetTimelyConfig();
      EnabledFinal(hw, before, port0Operational, port1Operational);
      if port0Operational {
        config := With(config, INTERRUPT_0);
      }
      if port1Operational {
        config := With(config, INTERRUPT_1);
      }
      assert config == FinalByte(before, hw.dual, port1Operational);
      assert old(hw).wire + [Command(0x20)] + [Command(0x60), Data(config)]
          == old(hw).wire + [Command(0x20), Command(0x60), Data(config)];
      SetTimelyConfig(config);
    }

    /** Enabling the ports that work, and their interrupts. */
    method EnablePorts(ghost before: bv8)
      requires Timely() && hw.out == [] && (port1Operational ==> hw.dual)
      requires hw.config == FinalByte(before, hw.dual, false)
      modifies this`hw, this`waits
      ensures waits >= old(waits)
      ensures OnlySetup(old(hw), hw) && hw.out == [] && hw.awaiting == ForDevice
      ensures hw.config == FinalByte(before, hw.dual, port1Operational)
      ensures ConfigAfterInit(before, hw.config, hw.dual, port1Operational)
      ensures hw.wire == old(hw).wire + EnableWire(before, hw.dual, port0Operational, port1Operational)
    {
      hide With, Without, Test, ConfigAfterInit, FinalByte, Stored;
      EnabledFinal(hw, before, port0Operational, port1Operational);
      FinalBits(before, hw.dual, port1Operational);
      EnableTested();
      EnableInterrupts(before);
    }

    /**
     * `ps2_kbd_set_scan_codes`, which calls itself again when the check fails; here for set 1, the
     * only one asked for. The set's number is sent without the routing byte.
     */
    method KbdSetScanCodes()
      requires Timely() && hw.awaiting == ForDevice
      modifies this`hw, this`waits
      ensures hw == Chosen(old(hw), kbdPort) && waits >= old(waits)
      decreases Effort(hw)
    {
      hide Exchange, LateExchange, Early, Effort, Front, AfterRead, OnData;
      ghost var start, n := hw, waits;
      SendDeviceCommand(SCAN_CODES, kbdPort, n);
      SendTimelyData(SET_1);
      DataAwaits(Exchange(start, SCAN_CODES, kbdPort), SET_1);
      SendDeviceCommand(SCAN_CODES, kbdPort, n);
      assert hw == Attempt(start, kbdPort);
      var id := ReadTimelyData();
      if !IsSet1(id) {
        AttemptEases(start, kbdPort);
        ReadStarting(Attempt(start, kbdPort), kbdPort);
        KbdSetScanCodes();
      }
    }

    /** `ps2_kbd_init`: only the first keyboard is started. */
    method KbdInit(port: Port)
      requires Timely() && hw.awaiting == ForDevice
      modifies this`hw, this`waits, this`kbdVector, this`kbdPort
      ensures old(kbdVector) == 0 ==> hw == Started(old(hw), port) && kbdPort == port && kbdVector == irqVector
      ensures old(kbdVector) != 0 ==> hw == old(hw) && kbdPort == old(kbdPort) && kbdVector == old(kbdVector)
      ensures waits >= old(waits)
    {
      hide Exchange, LateExchange, Early, Chosen;
      if kbdVector != 0 {
        return;
      }
      kbdPort := port;
      kbdVector := irqVector;
      SendDeviceCommand(ENABLE_SCAN, port, waits);
      KbdSetScanCodes();
    }

    /** `ps2_init_device`: a keyboard is started, if none has been before; any other device is left alone. */
    method InitDevice(id: bv16, port: Port)
      requires Timely() && hw.awaiting == ForDevice
      modifies this`hw, this`waits, this`kbdVector, this`kbdPort
      ensures hw == if old(kbdVector) == 0 && KindOf(id) == IsKeyboard then Started(old(hw), port) else old(hw)
      ensures if Starts(old(kbdVector) == 0, true, id) then kbdVector == irqVector && kbdPort == port
              else kbdVector == old(kbdVector) && kbdPort == old(kbdPort)
      ensures forall p :: ResetsTo(hw.delivered, p) == ResetsTo(old(hw).delivered, p)
      ensures OnlyTraffic(old(hw), hw) && hw.awaiting == ForDevice && waits >= old(waits)
    {
      hide Started, ResetsTo, Early;
      StartedCounts(hw, port);
      match KindOf(id)
      case IsKeyboard => KbdInit(port);
      case IsMouse =>
      case IsUnknown =>
    }

    /** One port of the last part of `ps2_init`: a reset, and a start if there is a keyboard. */
    method SetUpPort(oldId: bv16, port: Port) returns (id: bv16)
      requires Timely() && hw.awaiting == ForDevice
      modifies this`hw, this`waits, this`kbdVector, this`kbdPort
      ensures ResetsTo(hw.delivered, port) == ResetsTo(old(hw).delivered, port) + 1
      ensures ResetsTo(hw.delivered, Other(port)) == ResetsTo(old(hw).delivered, Other(port))
      ensures OnlyTraffic(old(hw), hw) && hw.awaiting == ForDevice && waits >= old(waits)
      ensures (hw, id) == SetUp(old(hw), port, oldId, old(kbdVector) == 0)
      ensures if Starts(old(kbdVector) == 0, true, id) then kbdVector == irqVector && kbdPort == port
              else kbdVector == old(kbdVector) && kbdPort == old(kbdPort)
      ensures old(hw).out == [] && PoliteToReset(Script(old(hw), port)) ==> id == IdOf(Script(old(hw), port)[2][1..])
      ensures port == Port0 && old(hw).out == [] && LeavesNothing(old(hw).script0, old(kbdVector) == 0, id) ==>
        hw.out == [] && hw.script1 == old(hw).script1
    {
      hide ResetsTo, ResetOnce, Started, Early, PoliteToReset, IdOf, Identified, ResetAnswered, KindOf, LateAnswered;
      hide TakenAll, Completed, Populated, Transmit, Transmitted, ResetDone, NumberRead, Acknowledges, OnlyTraffic;
      ghost var start := hw;
      id := ResetPort(oldId, port);
      ResetTraffic(start, hw, port);
      ResetOnceCounts(start, hw, port, port);
      ResetOnceCounts(start, hw, port, Other(port));
      if port == Port0 && start.out == [] && LeavesNothing(start.script0, kbdVector == 0, id) {
        if kbdVector == 0 && KindOf(id) == IsKeyboard {
          StartedPort0(hw);
        }
      }
      ghost var reset := hw;
      InitDevice(id, port);
      TrafficTransitive(start, reset, hw);
    }

    /** The last part of `ps2_init`: a reset for each port that works. */
    method ResetPorts()
      requires Timely() && hw.awaiting == ForDevice
      modifies this`hw, this`waits, this`port0Id, this`port1Id, this`kbdVector, this`kbdPort
      ensures OnlyTraffic(old(hw), hw) && waits >= old(waits)
      ensures ResetsTo(hw.delivered, Port0) == ResetsTo(old(hw).delivered, Port0) + if port0Operational then 1 else 0
      ensures ResetsTo(hw.delivered, Port1) == ResetsTo(old(hw).delivered, Port1) + if port1Operational then 1 else 0
      ensures old(hw).out == [] ==>
        Numbered(old(hw), port0Operational, port1Operational, old(kbdVector) == 0, port0Id, port1Id)
      ensures (hw, port0Id, port1Id) == SetUpAll(old(hw), port0Operational, port1Operational,
                                                 old(port0Id), old(port1Id), old(kbdVector) == 0, irqVector)
      // The keyboard driver serves port 0 if there is a keyboard on it, else port 1 if there is one on that.
      ensures old(kbdVector) != 0 ==> kbdVector == old(kbdVector) && kbdPort == old(kbdPort)
      ensures old(kbdVector) == 0 && irqVector != 0 ==>
        if Starts(true, port0Operational, port0Id) then kbdVector == irqVector && kbdPort == Port0
        else if Starts(true, port1Operational, port1Id) then kbdVector == irqVector && kbdPort == Port1
        else kbdVector == 0
    {
      hide ResetsTo, Early, PoliteToReset, IdOf, LeavesNothing, SetUp, KindOf;
      if port0Operational {
        port0Id := SetUpPort(port0Id, Port0);
      } else {
        port0Id := 0;
      }
      if port1Operational {
        port1Id := SetUpPort(port1Id, Port1);
      } else {
        port1Id := 0;
      }
    }

    /**
     * `ps2_init`, on any timely controller: one or two channels, any configuration, any self-test
     * that may reset it, any port tests, at most one stale answer.
     */
    method Init() returns (ghost passed: bool, ghost ready: Controller)
      requires Timely() && Sound(hw) && |hw.out| <= 1 && (port1Operational ==> hw.dual)
      modifies this`hw, this`waits, this`dualChannel
      modifies this`port0Operational, this`port1Operational, this`port0Id, this`port1Id
      modifies this`kbdVector, this`kbdPort
      ensures hw.dual == old(hw).dual && (port1Operational ==> hw.dual)
      ensures passed <==> old(hw).selfTest == 0x55
      // A failed self-test ends it: nothing is known about the ports, and no device has been touched.
      ensures !passed ==>
        && hw.delivered == old(hw).delivered
        && dualChannel == old(dualChannel)
        && port0Operational == old(port0Operational) && port1Operational == old(port1Operational)
      // Otherwise channels and ports are judged correctly, and the configuration is as promised.
      ensures passed ==>
        && dualChannel == hw.dual
        && (port0Operational <==> old(hw).test0 == 0)
        && (port1Operational <==> hw.dual && old(hw).test1 == 0)
        && ConfigAfterInit(old(hw).config, hw.config, hw.dual, port1Operational)
      // Each port that passed its test is reset once; no other port is reset.
      ensures passed ==>
        && ResetsTo(hw.delivered, Port0) == ResetsTo(old(hw).delivered, Port0) + (if port0Operational then 1 else 0)
        && ResetsTo(hw.delivered, Port1) == ResetsTo(old(hw).delivered, Port1) + (if port1Operational then 1 else 0)
      // Devices that keep the protocol are numbered by their answers; a port that failed has number 0.
      ensures passed && (port0Operational || port1Operational) ==>
        Numbered(old(hw), port0Operational, port1Operational, old(kbdVector) == 0, port0Id, port1Id)
      // Everything that is written to the controller up to the first reset, and the state it is in then.
      ensures OnlySetup(old(hw), ready) && (passed && (port0Operational || port1Operational) ==> ready.out == [])
      ensures ready.wire == old(hw).wire
        + SetupWire(old(hw), passed && port0Operational, passed && port1Operational)
      // From there on, port by port: a reset, a number, and a start for the first keyboard.
      ensures if passed && (port0Operational || port1Operational) then
                && ready.awaiting == ForDevice
                && (hw, port0Id, port1Id) == SetUpAll(ready, port0Operational, port1Operational, old(port0Id),
                                                      old(port1Id), old(kbdVector) == 0, irqVector)
              else hw == ready && port0Id == old(port0Id) && port1Id == old(port1Id)
      ensures old(kbdVector) == 0 && irqVector != 0 && passed ==>
        if Starts(true, port0Operational, port0Id) then kbdVector == irqVector && kbdPort == Port0
        else if Starts(true, port1Operational, port1Id) then kbdVector == irqVector && kbdPort == Port1
        else kbdVector == 0
    {
      hide KindOf, SetUpAll;
      hide Numbered, ConfigAfterInit, FirstByte, FinalByte, Test, With, Without, ResetsTo;
      hide SetupWire, SelfTestWire, PrepareWire, DetectWire, TestWire, EnableWire;
      ghost var before := hw.config;
      var config := Prepare();
      FirstStored(hw, before);
      passed := hw.selfTest == SELF_TEST_PASSED;
      var ok := SelfTest(config);
      ready := hw;
      SelfTestWireSame(old(hw), hw, config);
      SetupWireParts(old(hw).wire, old(hw), false, false);
      if !ok {
        return;
      }
      Detect(before);
      TestPorts();
      ready := hw;
      if !port0Operational && (!dualChannel || !port1Operational) {
        return;
      }
      EnablePorts(before);
      ready := hw;
      SetupWireParts(old(hw).wire, old(hw), port0Operational, port1Operational);
      ResetPorts();
      SetupKeepsDevices(old(hw), ready);
    }
  }

  /** Setting up the controller does not use up any answer of a device. */
  lemma SetupKeepsDevices(before: Controller, ready: Controller)
    requires OnlySetup(before, ready)
    ensures forall port0, port1, free, id0, id1 ::
      Numbered(before, port0, port1, free, id0, id1) <==> Numbered(ready, port0, port1, free, id0, id1)
  {
  }

  lemma ResetTraffic(before: Controller, after: Controller, port: Port)
    requires ResetOnce(before, after, port)
    ensures OnlyTraffic(before, after) && after.awaiting == ForDevice
  {
  }

  lemma TrafficTransitive(a: Controller, b: Controller, c: Controller)
    requires OnlyTraffic(a, b) && OnlyTraffic(b, c)
    ensures OnlyTraffic(a, c)
  {
  }

  /** Starting a keyboard resets nothing and leaves the controller's own state. */
  lemma StartedCounts(c: Controller, port: Port)
    requires c.awaiting == ForDevice
    ensures OnlyTraffic(c, Started(c, port))
    ensures forall p :: ResetsTo(Started(c, port).delivered, p) == ResetsTo(c.delivered, p)
  {
    hide Started, ResetsTo;
    StartedTraffic(c, port);
    var after := Started(c, port).delivered;
    var tail := after[|c.delivered|..];
    assert after == c.delivered + tail;
    forall p
      ensures ResetsTo(after, p) == ResetsTo(c.delivered, p)
    {
      StartingResetsNothing(c.delivered, tail, port, p);
    }
  }

  lemma Flushed(c: Controller)
    requires |c.out| <= 1
    ensures AfterRead(c) == c.(out := [], last := AfterRead(c).last)
  {
  }

  /** The two disabling commands leave both clock bits set. */
  lemma BothDisabled(c: Controller)
    requires Sound(c)
    ensures OnCommand(OnCommand(c, DISABLE_PORT_0), DISABLE_PORT_1)
      == c.(config := With(With(c.config, CLOCK_0), CLOCK_1), awaiting := ForDevice,
            wire := c.wire + [Command(0xad)] + [Command(0xa7)])
  {
    hide With;
    StoredTwice(With(c.config, CLOCK_0), CLOCK_1);
  }

  /** The first byte is stored as it is. */
  lemma FirstStored(c: Controller, before: bv8)
    ensures Stored(c, FirstByte(before)) == FirstByte(before)
  {
    hide With, Without, Test, FirstByte;
    SecondChannelBytes(before);
  }

  /** Enabling tested ports and their interrupts makes the last byte of the one before it. */
  lemma EnabledFinal(c: Controller, before: bv8, port0: bool, port1: bool)
    requires port1 ==> c.dual
    ensures var b := FinalByte(before, c.dual, false);
      var b0 := if port0 then With(b, INTERRUPT_0) else b;
      var final := FinalByte(before, c.dual, port1);
      && Without(b, CLOCK_0) == b && (port1 ==> Without(b, CLOCK_1) == b)
      && (if port1 then With(b0, INTERRUPT_1) else b0) == final && Stored(c, final) == final
  {
    hide With, Without, Test, FirstByte, DualByte;
    EnabledBytes(before);
    SecondChannelBytes(before);
  }

  lemma ConfigSent(c: Controller, canSend: (nat, nat) -> bool, n: nat, config: bv8)
    requires Early(canSend, n) && Early(canSend, n + 1)
    ensures SentData(SentCommand(c, canSend, n, WRITE_CONFIG), canSend, n + 1, config)
      == c.(wire := c.wire + [Command(0x60), Data(config)], awaiting := ForDevice, config := Stored(c, config))
  {
    hide Early, With, Without;
    assert c.wire + [Command(WRITE_CONFIG)] + [Data(config)] == c.wire + [Command(0x60), Data(config)];
  }
}
