/**
 * What src/driver/ps2.c does to the controller when its status register answers in any way at all:
 * every wait is numbered, and two functions say what each of its polls sees.
 */
module Timing {
  import opened Controller8042

  /** One of the first `n` polls finds the controller ready. */
  ghost predicate ReadyWithin(ready: nat -> bool, n: nat) {
    exists i :: 0 <= i < n && ready(i)
  }

  /** The `n`-th of a series of waits sees readiness in its first 1024 polls. */
  ghost predicate Early(status: (nat, nat) -> bool, n: nat) {
    exists i :: 0 <= i < 1024 && status(n, i)
  }

  /** The `n`-th wait sees readiness in its 1025th poll and not before. */
  ghost predicate AtTheLast(status: (nat, nat) -> bool, n: nat) {
    status(n, 1024) && !Early(status, n)
  }

  /** What a read after the `n`-th wait gets, and what it leaves. An answer that has not arrived is not taken. */
  ghost function Shown(c: Controller, answers: (nat, nat) -> bool, n: nat): bv8 {
    if Early(answers, n) then Front(c) else c.last
  }

  ghost function Taken(c: Controller, answers: (nat, nat) -> bool, n: nat): Controller {
    if Early(answers, n) then AfterRead(c) else c
  }

  ghost function TakenAll(c: Controller, answers: (nat, nat) -> bool, n: nat, count: nat): Controller {
    if count == 0 then c else Taken(TakenAll(c, answers, n, count - 1), answers, n + count - 1)
  }

  /** An answer that comes in the 1025th poll is the one thing that a wait reports as missing. */
  ghost predicate Missed(c: Controller, answers: (nat, nat) -> bool, n: nat) {
    c.out != [] && AtTheLast(answers, n)
  }

  /** Commands and data are dropped exactly when there is room for them in the 1025th poll and not before. */
  ghost function SentCommand(c: Controller, canSend: (nat, nat) -> bool, n: nat, b: bv8): Controller {
    if AtTheLast(canSend, n) then c else OnCommand(c, b)
  }

  ghost function SentData(c: Controller, canSend: (nat, nat) -> bool, n: nat, b: bv8): Controller {
    if AtTheLast(canSend, n) then c else OnData(c, b)
  }

  /** The waits of one transmission. */
  function Transfers(port: Port): nat {
    if port == Port1 then 2 else 1
  }

  /** One transmission to a device. Without its routing byte, a byte for port 1 goes to port 0. */
  ghost function Transmitted(c: Controller, canSend: (nat, nat) -> bool, n: nat, cmd: bv8, port: Port): Controller {
    if port == Port1 then SentData(SentCommand(c, canSend, n, TO_PORT_1), canSend, n + 1, cmd)
    else SentData(c, canSend, n, cmd)
  }

  /** From the `m`-th wait on, there is room for every byte, and any answer arrives, within 1024 polls. */
  ghost predicate Settled(canSend: (nat, nat) -> bool, answers: (nat, nat) -> bool, m: nat) {
    forall n: nat :: n >= m ==> Early(canSend, n) && Early(answers, n)
  }

  lemma SettledTransmission(c: Controller, canSend: (nat, nat) -> bool, n: nat, cmd: bv8, port: Port)
    requires forall k: nat :: n <= k < n + Transfers(port) ==> Early(canSend, k)
    ensures Transmitted(c, canSend, n, cmd, port) == Transmit(c, cmd, port)
  {
    hide OnCommand, OnData, Early;
    assert Early(canSend, n);
    assert port == Port1 ==> Early(canSend, n + 1);
  }

  /** A settled controller that asks for a resend comes closer to answering otherwise. */
  lemma PatienceFalls(c: Controller, canSend: (nat, nat) -> bool, answers: (nat, nat) -> bool,
                      n: nat, m: nat, cmd: bv8, port: Port)
    requires Settled(canSend, answers, m) && (port == Port0 ==> c.awaiting == ForDevice)
    requires Shown(Transmitted(c, canSend, n, cmd, port), answers, n + Transfers(port)) == RESEND
    ensures var d := Taken(Transmitted(c, canSend, n, cmd, port), answers, n + Transfers(port));
      n >= m ==> Patience(d.out, Script(d, port)) < Patience(c.out, Script(c, port))
  {
    hide Transmitted, Transmit, Patience, Early, Front, AfterRead, NextOut, NextFront;
    if n >= m {
      SettledTransmission(c, canSend, n, cmd, port);
      TransmitStep(c, cmd, port);
      assert Early(answers, n + Transfers(port));
      PatienceShrinks(c.out, c.last, Script(c, port));
    }
  }

  /** A transmission leaves the controller waiting for data to a device, unless it is for port 1. */
  lemma StaysRouted(c: Controller, canSend: (nat, nat) -> bool, n: nat, cmd: bv8, port: Port)
    ensures port == Port0 && c.awaiting == ForDevice ==>
      Transmitted(c, canSend, n, cmd, port).awaiting == ForDevice
  {
  }

  lemma TakenAwaits(c: Controller, answers: (nat, nat) -> bool, n: nat)
    ensures Taken(c, answers, n).awaiting == c.awaiting
  {
  }

  /** How far from settled. */
  function Unsettled(n: nat, m: nat): nat {
    if n < m then m - n else 0
  }

  /**
   * A device command on a controller that settles only at the `m`-th wait, if ever it is late: the
   * state in the end, and the waits by then.
   */
  ghost function LateExchange(c: Controller, canSend: (nat, nat) -> bool, answers: (nat, nat) -> bool,
                              n: nat, m: nat, cmd: bv8, port: Port): (r: (Controller, nat))
    requires Settled(canSend, answers, m) && (port == Port0 ==> c.awaiting == ForDevice)
    ensures r.1 >= n
    decreases Unsettled(n, m), Patience(c.out, Script(c, port))
  {
    hide Transmitted, Patience, Early;
    var sent, k := Transmitted(c, canSend, n, cmd, port), n + Transfers(port);
    StaysRouted(c, canSend, n, cmd, port);
    if Missed(sent, answers, k) then (sent, k + 1)
    else if Shown(sent, answers, k) == RESEND then
      PatienceFalls(c, canSend, answers, n, m, cmd, port);
      LateExchange(Taken(sent, answers, k), canSend, answers, k + 1, m, cmd, port)
    else (Taken(sent, answers, k), k + 1)
  }

  /** The answer to the transmission at the `n`-th wait arrives, and asks for another. */
  ghost predicate AsksAgain(c: Controller, canSend: (nat, nat) -> bool, answers: (nat, nat) -> bool, n: nat,
                            cmd: bv8, port: Port) {
    var sent, k := Transmitted(c, canSend, n, cmd, port), n + Transfers(port);
    !Missed(sent, answers, k) && Shown(sent, answers, k) == 0xfe
  }

  /** `j` answers ask for another transmission, the one after them does not; that one ends the command. */
  ghost predicate EndsAfter(c: Controller, canSend: (nat, nat) -> bool, answers: (nat, nat) -> bool, n: nat,
                            cmd: bv8, port: Port, j: nat, end: (Controller, nat))
    decreases j
  {
    var next, k := Taken(Transmitted(c, canSend, n, cmd, port), answers, n + Transfers(port)), n + Transfers(port) + 1;
    if j == 0 then !AsksAgain(c, canSend, answers, n, cmd, port) && end == (next, k)
    else
      AsksAgain(c, canSend, answers, n, cmd, port) && EndsAfter(next, canSend, answers, k, cmd, port, j - 1, end)
  }

  lemma {:induction false} LateExchangeEnds(c: Controller, canSend: (nat, nat) -> bool, answers: (nat, nat) -> bool,
                                            n: nat, m: nat, cmd: bv8, port: Port) returns (j: nat)
    requires Settled(canSend, answers, m) && (port == Port0 ==> c.awaiting == ForDevice)
    ensures EndsAfter(c, canSend, answers, n, cmd, port, j, LateExchange(c, canSend, answers, n, m, cmd, port))
    decreases Unsettled(n, m), Patience(c.out, Script(c, port))
  {
    hide Transmitted, Patience, Early;
    var sent, k := Transmitted(c, canSend, n, cmd, port), n + Transfers(port);
    StaysRouted(c, canSend, n, cmd, port);
    j := 0;
    if !Missed(sent, answers, k) && Shown(sent, answers, k) == RESEND {
      PatienceFalls(c, canSend, answers, n, m, cmd, port);
      j := LateExchangeEnds(Taken(sent, answers, k), canSend, answers, k + 1, m, cmd, port);
      j := j + 1;
    }
  }

  /** On a controller that has settled, that is the exchange. */
  lemma {:induction false} SettledExchange(c: Controller, canSend: (nat, nat) -> bool, answers: (nat, nat) -> bool,
                                           n: nat, m: nat, cmd: bv8, port: Port)
    requires Settled(canSend, answers, m) && m <= n && c.awaiting == ForDevice
    ensures LateExchange(c, canSend, answers, n, m, cmd, port).0 == Exchange(c, cmd, port)
    decreases Patience(c.out, Script(c, port))
  {
    hide Transmitted, Transmit, Patience, Early, Front, AfterRead, NextOut, NextFront;
    SettledTransmission(c, canSend, n, cmd, port);
    TransmitStep(c, cmd, port);
    var sent, k := Transmit(c, cmd, port), n + Transfers(port);
    assert Early(answers, k);
    if Front(sent) == RESEND {
      PatienceShrinks(c.out, c.last, Script(c, port));
      SettledExchange(AfterRead(sent), canSend, answers, k + 1, m, cmd, port);
    }
  }

  /** How many of the next reads succeed before one is missed. */
  ghost function Completed(c: Controller, answers: (nat, nat) -> bool, n: nat, count: nat): (k: nat)
    ensures k <= count
  {
    if count == 0 then 0
    else
      var k := Completed(c, answers, n, count - 1);
      if k == count - 1 && !Missed(TakenAll(c, answers, n, k), answers, n + k) then count else k
  }

  lemma {:induction false} CompletedAll(c: Controller, answers: (nat, nat) -> bool, n: nat, count: nat)
    requires forall i: nat :: i < count ==> !Missed(TakenAll(c, answers, n, i), answers, n + i)
    ensures Completed(c, answers, n, count) == count
  {
    if count != 0 {
      CompletedAll(c, answers, n, count - 1);
    }
  }

  lemma {:induction false} CompletedStays(c: Controller, answers: (nat, nat) -> bool, n: nat, k: nat, count: nat)
    requires Completed(c, answers, n, k) == k < count && Missed(TakenAll(c, answers, n, k), answers, n + k)
    ensures Completed(c, answers, n, count) == k
  {
    if k + 1 < count {
      CompletedStays(c, answers, n, k, count - 1);
    }
  }

  /** None of the three answers to a reset is missed. */
  ghost predicate Populated(sent: Controller, answers: (nat, nat) -> bool, n: nat) {
    forall i: nat :: i < 3 ==> !Missed(TakenAll(sent, answers, n, i), answers, n + i)
  }

  lemma {:induction false} TakenAllGentle(c: Controller, answers: (nat, nat) -> bool, n: nat, count: nat, port: Port)
    requires c.awaiting == ForDevice
    ensures GentlyAfter(c, TakenAll(c, answers, n, count), port)
  {
    hide Early;
    if count != 0 {
      TakenAllGentle(c, answers, n, count - 1, port);
    }
  }

  lemma {:induction false} TakenAllDelivers(c: Controller, answers: (nat, nat) -> bool, n: nat, count: nat)
    ensures TakenAll(c, answers, n, count).delivered == c.delivered
  {
    hide Early;
    if count != 0 {
      TakenAllDelivers(c, answers, n, count - 1);
    }
  }

  /** The controller when a reset has been answered, the answers coming when they will. */
  ghost function LateAnswered(sent: Controller, answers: (nat, nat) -> bool, n: nat): Controller {
    var third := Shown(TakenAll(sent, answers, n, 2), answers, n + 2);
    TakenAll(sent, answers, n, if third == 0xab || third == 0xac then 4 else 3)
  }

  lemma LateAnsweredGentle(sent: Controller, answers: (nat, nat) -> bool, n: nat, port: Port)
    requires sent.awaiting == ForDevice
    ensures GentlyAfter(sent, LateAnswered(sent, answers, n), port)
  {
    hide Taken, Shown, TakenAll, GentlyAfter;
    TakenAllGentle(sent, answers, n, 3, port);
    TakenAllGentle(sent, answers, n, 4, port);
  }

  /** If they come in time, that is the state specified for a reset. */
  lemma AnsweredInTime(c: Controller, answers: (nat, nat) -> bool, n: nat, port: Port)
    requires c.awaiting == ForDevice && forall k: nat :: k >= n ==> Early(answers, k)
    ensures var sent := Transmit(c, RESET, port);
      && Populated(sent, answers, n)
      && (Shown(sent, answers, n) == RESET_FAIL <==> ResetFails(c, port))
      && TakenAll(sent, answers, n, 3) == Drained(sent, 3)
      && LateAnswered(sent, answers, n) == ResetAnswered(c, port)
  {
    hide Transmit, Front, AfterRead, Drained, TakenAll;
    var sent := Transmit(c, RESET, port);
    assert Early(answers, n) && Early(answers, n + 1) && Early(answers, n + 2);
    TimelyReads(sent, answers, n, 2);
    TimelyReads(sent, answers, n, 3);
    TimelyReads(sent, answers, n, 4);
  }

  lemma NeverMissed(c: Controller, answers: (nat, nat) -> bool, n: nat)
    requires Early(answers, n)
    ensures !Missed(c, answers, n)
  {
  }

  lemma TakenStarts(c: Controller, answers: (nat, nat) -> bool, n: nat)
    ensures TakenAll(c, answers, n, 0) == c
    ensures TakenAll(c, answers, n, 4) == Taken(TakenAll(c, answers, n, 3), answers, n + 3)
  {
  }

  /** Whatever becomes of the answers, one reset reaches the device, and gentle traffic follows. */
  lemma LateResetOnce(c: Controller, answers: (nat, nat) -> bool, n: nat, port: Port)
    requires c.awaiting == ForDevice
    ensures var sent := Transmit(c, RESET, port);
      && sent.awaiting == ForDevice
      && (forall count: nat :: ResetOnce(c, TakenAll(sent, answers, n, count), port))
      && LateAnswered(sent, answers, n).awaiting == ForDevice
      && ResetOnce(c, Identified(LateAnswered(sent, answers, n), port), port)
      && (forall count: nat :: TakenAll(sent, answers, n, count).delivered == c.delivered + [(port, 0xff)])
      && IdentifyBytes(c.delivered + [(port, 0xff)], Identified(LateAnswered(sent, answers, n), port).delivered, port)
  {
    hide Transmit, TakenAll, Identified, GentlyAfter, ResetOnce, LateAnswered, IdentifyBytes;
    var sent := Transmit(c, RESET, port);
    TransmitStep(c, RESET, port);
    forall count: nat
      ensures ResetOnce(c, TakenAll(sent, answers, n, count), port)
      ensures TakenAll(sent, answers, n, count).delivered == c.delivered + [(port, 0xff)]
    {
      SentBytes(c, port);
      TakenAllDelivers(sent, answers, n, count);
      TakenAllGentle(sent, answers, n, count, port);
      ResetThenGentle(c, TakenAll(sent, answers, n, count), port);
    }
    var answered := LateAnswered(sent, answers, n);
    LateAnsweredGentle(sent, answers, n, port);
    AnsweredIsTaken(sent, answers, n);
    GentleAwaits(sent, answered, port);
    IdentifiedBytes(answered, port);
    IdentifyGentle(answered, port);
    GentlyTransitive(sent, answered, Identified(answered, port), port);
    ResetThenGentle(c, Identified(answered, port), port);
  }

  /** `reset_port`, the answers coming when they will: the controller in the end, and the number. */
  ghost function LateReset(c: Controller, answers: (nat, nat) -> bool, n: nat, oldId: bv16, port: Port)
    : (Controller, bv16)
    requires c.awaiting == ForDevice
  {
    LateResetOnce(c, answers, n, port);
    var sent := Transmit(c, RESET, port);
    if !Populated(sent, answers, n) then (TakenAll(sent, answers, n, Completed(sent, answers, n, 3)), 0)
    else if Shown(sent, answers, n) == RESET_FAIL then (TakenAll(sent, answers, n, 3), oldId)
    else
      var answered := LateAnswered(sent, answers, n);
      (Identified(answered, port), NumberRead(answered, port))
  }

  /**
   * What that comes to. An answer that is missed makes the number 0, and a failed reset leaves the
   * old one. One reset reaches the device, and after a good answer the three commands, each as
   * often as it is asked for again; nothing reaches the other device.
   */
  ghost predicate LateOutcome(c: Controller, answers: (nat, nat) -> bool, n: nat, oldId: bv16, port: Port,
                              id: bv16, after: Controller)
    requires c.awaiting == ForDevice
  {
    var sent, start := Transmit(c, RESET, port), c.delivered + [(port, 0xff)];
    && ResetOnce(c, after, port)
    && if !Populated(sent, answers, n) then id == 0 && after.delivered == start
       else if Shown(sent, answers, n) == 0xfc then id == oldId && after.delivered == start
       else
         var answered := LateAnswered(sent, answers, n);
         && answered.awaiting == ForDevice
         && id == NumberRead(answered, port) && after == Identified(answered, port)
         && IdentifyBytes(start, after.delivered, port)
  }

  lemma LateResetOutcome(c: Controller, answers: (nat, nat) -> bool, n: nat, oldId: bv16, port: Port)
    requires c.awaiting == ForDevice
    ensures var r := LateReset(c, answers, n, oldId, port); LateOutcome(c, answers, n, oldId, port, r.1, r.0)
    ensures LateAnswered(Transmit(c, RESET, port), answers, n).awaiting == ForDevice
  {
    hide Transmit, TakenAll, Identified, ResetOnce, LateAnswered, IdentifyBytes;
    hide Populated, Shown, NumberRead, Completed;
    LateResetOnce(c, answers, n, port);
  }

  /**
   * What it comes to on a timely controller. The number of a device that keeps the protocol is its
   * answer to the identify command, and the right number if and only if that has two bytes or is
   * the single byte 0; the upper half of the number is the first byte, the lower half the last.
   */
  ghost predicate ResetOutcome(c: Controller, oldId: bv16, port: Port, id: bv16, after: Controller)
    requires c.awaiting == ForDevice
  {
    && after == ResetDone(c, port)
    && id == (if ResetFails(c, port) then oldId else NumberRead(ResetAnswered(c, port), port))
    && (c.out == [] && PoliteToReset(Script(c, port)) ==>
          var ids := Script(c, port)[2][1..];
          && id == IdOf(ids)
          && (id == MeantId(ids) <==> |ids| == 2 || ids[0] == 0)
          && (id >> 8) as bv8 == ids[0] && (id & 0xff) as bv8 == ids[|ids| - 1]
          && after.out == [] && Script(after, port) == Script(c, port)[4..]
          && Script(after, Other(port)) == Script(c, Other(port))
          && after.delivered == c.delivered + [(port, 0xff), (port, 0xf5), (port, 0xf2), (port, 0xf4)])
  }

  lemma TimelyResetOutcome(c: Controller, answers: (nat, nat) -> bool, n: nat, oldId: bv16, port: Port)
    requires c.awaiting == ForDevice && forall k: nat :: k >= n ==> Early(answers, k)
    ensures var r := LateReset(c, answers, n, oldId, port); ResetOutcome(c, oldId, port, r.1, r.0)
  {
    hide ResetDone, IdOf, MeantId, Script, ResetFails, ResetAnswered, PoliteToReset, NumberRead, LateReset;
    PoliteReading(c, port);
    TimelyReset(c, answers, n, oldId, port);
  }

  lemma TimelyReset(c: Controller, answers: (nat, nat) -> bool, n: nat, oldId: bv16, port: Port)
    requires c.awaiting == ForDevice && forall k: nat :: k >= n ==> Early(answers, k)
    ensures LateReset(c, answers, n, oldId, port) == (ResetDone(c, port),
      if ResetFails(c, port) then oldId else NumberRead(ResetAnswered(c, port), port))
  {
    hide Transmit, TakenAll, Identified, LateAnswered, Populated, Shown, NumberRead, Completed, Drained, ResetAnswered;
    AnsweredInTime(c, answers, n, port);
    PopulatedReads(Transmit(c, RESET, port), answers, n);
  }

  lemma PopulatedReads(sent: Controller, answers: (nat, nat) -> bool, n: nat)
    requires Populated(sent, answers, n)
    ensures Completed(sent, answers, n, 3) == 3
  {
    CompletedAll(sent, answers, n, 3);
  }

  lemma SentBytes(c: Controller, port: Port)
    requires c.awaiting == ForDevice
    ensures Transmit(c, RESET, port).delivered == c.delivered + [(port, 0xff)]
  {
    TransmitDelivers(c, RESET, port);
  }

  lemma AnsweredIsTaken(sent: Controller, answers: (nat, nat) -> bool, n: nat)
    ensures LateAnswered(sent, answers, n) == TakenAll(sent, answers, n, 3)
      || LateAnswered(sent, answers, n) == TakenAll(sent, answers, n, 4)
  {
    hide TakenAll, Shown;
  }

  lemma AnsweredSoFar(sent: Controller, answers: (nat, nat) -> bool, n: nat)
    ensures var third := Shown(TakenAll(sent, answers, n, 2), answers, n + 2);
      LateAnswered(sent, answers, n) == TakenAll(sent, answers, n, if third == 0xab || third == 0xac then 4 else 3)
  {
    hide TakenAll, Shown;
  }

  lemma GentleAwaits(before: Controller, after: Controller, port: Port)
    requires GentlyAfter(before, after, port)
    ensures after.awaiting == ForDevice
  {
  }

  /** The number of a device that keeps the protocol, and what its reset leaves. */
  lemma PoliteReading(c: Controller, port: Port)
    requires c.awaiting == ForDevice
    ensures c.out == [] && PoliteToReset(Script(c, port)) ==>
      var ids := Script(c, port)[2][1..];
      && !ResetFails(c, port)
      && NumberRead(ResetAnswered(c, port), port) == IdOf(ids)
      && (IdOf(ids) == MeantId(ids) <==> |ids| == 2 || ids[0] == 0)
      && (IdOf(ids) >> 8) as bv8 == ids[0] && (IdOf(ids) & 0xff) as bv8 == ids[|ids| - 1]
      && ResetDone(c, port).out == [] && Script(ResetDone(c, port), port) == Script(c, port)[4..]
      && ResetDone(c, port).delivered == c.delivered + [(port, 0xff), (port, 0xf5), (port, 0xf2), (port, 0xf4)]
      && Script(ResetDone(c, port), Other(port)) == Script(c, Other(port))
  {
    hide ResetFails, NumberRead, ResetAnswered, ResetDone, Script, IdOf, MeantId;
    if c.out == [] && PoliteToReset(Script(c, port)) {
      ResetDonePolite(c, port);
      IdIsRight(Script(c, port)[2][1..]);
    }
  }

  lemma SameReadiness(status: (nat, nat) -> bool, n: nat, ready: nat -> bool)
    requires forall i: nat :: ready(i) == status(n, i)
    ensures ReadyWithin(ready, 1024) <==> Early(status, n)
    ensures ReadyWithin(ready, 1025) <==> Early(status, n) || AtTheLast(status, n)
  {
    if i :| 0 <= i < 1024 && ready(i) {
      assert status(n, i);
    }
    if i :| 0 <= i < 1024 && status(n, i) {
      assert ready(i);
    }
    if i :| 0 <= i < 1025 && ready(i) {
      assert i == 1024 || (i < 1024 && status(n, i));
    }
    if status(n, 1024) {
      assert ready(1024);
    }
  }

  /** On a timely controller the reads take one answer each. */
  lemma {:induction false} TimelyReads(c: Controller, answers: (nat, nat) -> bool, n: nat, count: nat)
    requires forall k: nat :: n <= k < n + count ==> Early(answers, k)
    ensures TakenAll(c, answers, n, count) == Drained(c, count)
  {
    if count != 0 {
      TimelyReads(c, answers, n, count - 1);
    }
  }
}
