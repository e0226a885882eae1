/**
 * What src/driver/ps2.c and src/driver/ps2_keyboard.c send to a device once it has been reset and
 * numbered: nothing, unless the number is a keyboard's.
 */
module Keyboard {
  import opened Controller8042

  datatype DeviceKind = IsKeyboard | IsMouse | IsUnknown

  datatype DeviceType =
    | MousePs2 | MouseScrollWheel | Mouse5Button
    | KbdMf2 | KbdShort | KbdN97 | Kbd122Key | KbdJpnG | KbdJpnP | KbdJpnA | KbdNcdSun
    | DevUnknown

  /** `get_device_type`. */
  function TypeOf(id: bv16): DeviceType {
    if id == 0 then MousePs2
    else if id == 0x03 then MouseScrollWheel
    else if id == 0x04 then Mouse5Button
    else if id == 0xab83 || id == 0xabc1 then KbdMf2
    else if id == 0xab84 then KbdShort
    else if id == 0xab85 then KbdN97
    else if id == 0xab86 then Kbd122Key
    else if id == 0xab90 then KbdJpnG
    else if id == 0xab91 then KbdJpnP
    else if id == 0xab92 then KbdJpnA
    else if id == 0xaca1 then KbdNcdSun
    else DevUnknown
  }

  /** `get_device_kind`. */
  function KindOfType(t: DeviceType): DeviceKind {
    match t
    case MousePs2 | MouseScrollWheel | Mouse5Button => IsMouse
    case DevUnknown => IsUnknown
    case _ => IsKeyboard
  }

  function KindOf(id: bv16): DeviceKind {
    KindOfType(TypeOf(id))
  }

  /**
   * What becomes of an answer to the identify command. Two bytes are a keyboard exactly if they are
   * one of nine pairs. Of the single bytes only 0, the standard mouse, is recognised: a wheel mouse
   * and a mouse with five buttons answer 3 and 4, but their numbers are taken for 0x0303 and 0x0404.
   */
  lemma AnswersRecognised(first: bv8, second: bv8)
    ensures KindOf(IdOf([first, second])) == IsKeyboard <==>
      || (first == 0xab && second in {0x83, 0xc1, 0x84, 0x85, 0x86, 0x90, 0x91, 0x92})
      || (first == 0xac && second == 0xa1)
    ensures KindOf(IdOf([first, second])) == IsMouse <==> first == 0 && second in {0x00, 0x03, 0x04}
    ensures KindOf(IdOf([first])) == if first == 0 then IsMouse else IsUnknown
  {
  }

  /** The ordinary keyboard answers 0xab, 0x83. */
  lemma OrdinaryKeyboard()
    ensures IdOf([0xab, 0x83]) == 0xab83 && TypeOf(0xab83) == KbdMf2 && KindOf(0xab83) == IsKeyboard
  {
  }

  const SCAN_CODES: bv8 := 0xf0
  const SET_1: bv8 := 0x01

  /** `get_scan_code_set`, as far as it decides whether set 1 is in use: every number but 2 and 3 counts as 1. */
  predicate IsSet1(id: bv8) {
    id != 2 && id != 3
  }

  /** One attempt to choose scan code set 1, up to the check. The data byte carries no routing. */
  function Attempt(c: Controller, port: Port): (a: Controller)
    requires c.awaiting == ForDevice
    ensures a.awaiting == ForDevice
  {
    Exchange(OnData(Exchange(c, SCAN_CODES, port), SET_1), SCAN_CODES, port)
  }

  /** A bound on the attempts: what the devices can still answer other than acknowledgements. */
  function Effort(c: Controller): nat {
    CountOthers(c.out) + CountAllOthers(c.script0) + |c.script0| + CountAllOthers(c.script1) + |c.script1|
  }

  /** A step in the traffic: no new effort, some less if `spent`, and no fewer unread answers unless `spent`. */
  predicate Eases(before: Controller, after: Controller, spent: bool) {
    && Effort(after) <= Effort(before)
    && (spent ==> Effort(after) < Effort(before))
    && (!spent ==> |after.out| >= |before.out|)
  }

  lemma DeliverEases(c: Controller, port: Port, b: bv8)
    ensures Eases(c, Deliver(c, port, b), Script(c, port) != [])
    ensures Script(c, port) == [] ==> |Deliver(c, port, b).out| == |c.out| + 1
    ensures Script(Deliver(c, port, b), port) == Rest(Script(c, port))
    ensures Script(Deliver(c, port, b), Other(port)) == Script(c, Other(port))
  {
    CountAppend(c.out, Answer(Script(c, port)));
    if Script(c, port) == [] {
      assert CountOthers([ACK]) == 0;
    }
  }

  lemma DataEases(c: Controller, b: bv8)
    requires c.awaiting == ForDevice
    ensures Eases(c, OnData(c, b), c.script0 != [])
    ensures c.script0 == [] ==> |OnData(c, b).out| == |c.out| + 1
    ensures OnData(c, b).script0 == Rest(c.script0) && OnData(c, b).script1 == c.script1
  {
    hide Effort;
    var d := c.(wire := c.wire + [Data(b)], awaiting := ForDevice);
    SameEffort(c, d);
    DeliverEases(d, Port0, b);
  }

  lemma SameEffort(c: Controller, d: Controller)
    requires c.out == d.out && c.script0 == d.script0 && c.script1 == d.script1
    ensures Effort(c) == Effort(d)
  {
  }

  lemma TransmitEases(c: Controller, cmd: bv8, port: Port)
    requires c.awaiting == ForDevice
    ensures var t := AfterRead(Transmit(c, cmd, port));
      Eases(c, t, Script(c, port) != []) && (Script(c, port) == [] ==> Script(t, port) == [])
  {
    hide Deliver, Effort, Transmit, Transmission;
    TransmitDelivers(c, cmd, port);
    var d := c.(wire := c.wire + Transmission(cmd, port), awaiting := ForDevice);
    SameEffort(c, d);
    DeliverEases(d, port, cmd);
    ReadEases(Deliver(d, port, cmd));
  }

  lemma ReadEases(c: Controller)
    ensures Effort(AfterRead(c)) <= Effort(c)
    ensures c.out != [] && c.out[0] != ACK ==> Effort(AfterRead(c)) < Effort(c)
    ensures AfterRead(c).script0 == c.script0 && AfterRead(c).script1 == c.script1
    ensures |AfterRead(c).out| + 1 >= |c.out|
  {
  }

  lemma {:induction false} ExchangeEases(c: Controller, cmd: bv8, port: Port)
    requires c.awaiting == ForDevice
    ensures var e := Exchange(c, cmd, port);
      Eases(c, e, Script(c, port) != []) && (Script(c, port) == [] ==> Script(e, port) == [])
    decreases Patience(c.out, Script(c, port))
  {
    hide Transmit, Effort, Patience, NextOut, NextFront, Script, AfterRead, Front;
    TransmitStep(c, cmd, port);
    TransmitEases(c, cmd, port);
    var sent := Transmit(c, cmd, port);
    if Front(sent) == RESEND {
      PatienceShrinks(c.out, c.last, Script(c, port));
      ExchangeEases(AfterRead(sent), cmd, port);
    }
  }

  /** A failed check costs effort: its byte was an answer, or an answer had been left out. */
  lemma AttemptEases(c: Controller, port: Port)
    requires c.awaiting == ForDevice && !IsSet1(Front(Attempt(c, port)))
    ensures Effort(AfterRead(Attempt(c, port))) < Effort(c)
  {
    hide Exchange, OnData, Effort, AfterRead;
    var a := Exchange(c, SCAN_CODES, port);
    var b := OnData(a, SET_1);
    DataAwaits(a, SET_1);
    var e := Exchange(b, SCAN_CODES, port);
    ExchangeEases(c, SCAN_CODES, port);
    DataEases(a, SET_1);
    ExchangeEases(b, SCAN_CODES, port);
    ReadEases(e);
  }

  lemma DataAwaits(c: Controller, b: bv8)
    requires c.awaiting == ForDevice
    ensures OnData(c, b).awaiting == ForDevice
  {
  }

  /** The controller when set 1 has been chosen, as far as the check can tell. */
  function Chosen(c: Controller, port: Port): (e: Controller)
    requires c.awaiting == ForDevice
    ensures e.awaiting == ForDevice
    decreases Effort(c)
  {
    hide Effort, Attempt;
    var asked := Attempt(c, port);
    if IsSet1(Front(asked)) then AfterRead(asked)
    else
      AttemptEases(c, port);
      Chosen(AfterRead(asked), port)
  }

  /** The controller when the keyboard driver has started the keyboard on a port. */
  function Started(c: Controller, port: Port): (e: Controller)
    requires c.awaiting == ForDevice
    ensures e.awaiting == ForDevice
  {
    Chosen(Exchange(c, ENABLE_SCAN, port), port)
  }

  // ---------- What reaches the devices ----------

  /** A byte that starting the keyboard on a port sends. The sub-command always goes to port 0. */
  predicate StartByte(t: (Port, bv8), port: Port) {
    t == (port, 0xf4) || t == (port, 0xf0) || t == (Port0, 0x01)
  }

  predicate OnlyStarting(before: Controller, after: Controller, port: Port) {
    && OnlyTraffic(before, after) && after.awaiting == ForDevice
    && before.delivered <= after.delivered
    && forall t :: t in after.delivered[|before.delivered|..] ==> StartByte(t, port)
  }

  lemma StartingTransitive(a: Controller, b: Controller, c: Controller, port: Port)
    requires OnlyStarting(a, b, port) && OnlyStarting(b, c, port)
    ensures OnlyStarting(a, c, port)
  {
    assert c.delivered[|a.delivered|..] == b.delivered[|a.delivered|..] + c.delivered[|b.delivered|..];
  }

  lemma {:induction false} CopiesIn<T>(k: nat, s: seq<T>, t: T)
    requires t in Copies(k, s)
    ensures t in s
  {
    if k != 0 && t !in s {
      CopiesIn(k - 1, s, t);
    }
  }

  lemma ExchangeStarting(c: Controller, cmd: bv8, port: Port)
    requires c.awaiting == ForDevice && (cmd == ENABLE_SCAN || cmd == SCAN_CODES)
    ensures OnlyStarting(c, Exchange(c, cmd, port), port)
  {
    hide Exchange, Resends, Copies;
    ExchangeWire(c, cmd, port);
    var e, k := Exchange(c, cmd, port), Resends(c.out, c.last, Script(c, port)) + 1;
    var tail := e.delivered[|c.delivered|..];
    assert tail == Copies(k, [(port, cmd)]);
    forall t | t in tail
      ensures StartByte(t, port)
    {
      CopiesIn(k, [(port, cmd)], t);
    }
  }

  lemma AttemptStarting(c: Controller, port: Port)
    requires c.awaiting == ForDevice
    ensures OnlyStarting(c, AfterRead(Attempt(c, port)), port)
  {
    hide Exchange, OnlyStarting;
    var a := Exchange(c, SCAN_CODES, port);
    var b := OnData(a, SET_1);
    var e := Exchange(b, SCAN_CODES, port);
    ExchangeStarting(c, SCAN_CODES, port);
    DataStarting(a, port);
    ExchangeStarting(b, SCAN_CODES, port);
    ReadStarting(e, port);
    StartingTransitive(c, a, b, port);
    StartingTransitive(c, b, e, port);
    StartingTransitive(c, e, AfterRead(e), port);
  }

  lemma DataStarting(c: Controller, port: Port)
    requires c.awaiting == ForDevice
    ensures OnlyStarting(c, OnData(c, SET_1), port)
  {
    assert OnData(c, SET_1).delivered == c.delivered + [(Port0, SET_1)];
  }

  lemma ReadStarting(c: Controller, port: Port)
    requires c.awaiting == ForDevice
    ensures OnlyStarting(c, AfterRead(c), port)
  {
  }

  lemma {:induction false} ChosenStarting(c: Controller, port: Port)
    requires c.awaiting == ForDevice
    ensures OnlyStarting(c, Chosen(c, port), port)
    decreases Effort(c)
  {
    hide Attempt, Effort, OnlyStarting;
    AttemptStarting(c, port);
    var asked := Attempt(c, port);
    if !IsSet1(Front(asked)) {
      AttemptEases(c, port);
      ChosenStarting(AfterRead(asked), port);
      StartingTransitive(c, AfterRead(asked), Chosen(AfterRead(asked), port), port);
    }
  }

  /**
   * Starting a keyboard sends its port the two commands and nothing else; in particular it resets
   * nothing, and the number of the scan code set never reaches a keyboard on port 1.
   */
  lemma StartedTraffic(c: Controller, port: Port)
    requires c.awaiting == ForDevice
    ensures OnlyStarting(c, Started(c, port), port)
  {
    hide Exchange, Chosen, OnlyStarting;
    var e := Exchange(c, ENABLE_SCAN, port);
    ExchangeStarting(c, ENABLE_SCAN, port);
    ChosenStarting(e, port);
    StartingTransitive(c, e, Chosen(e, port), port);
  }

  /** How many attempts are made. */
  function Attempts(c: Controller, port: Port): (k: nat)
    requires c.awaiting == ForDevice
    ensures k >= 1
    decreases Effort(c)
  {
    hide Effort, Attempt;
    var asked := Attempt(c, port);
    if IsSet1(Front(asked)) then 1
    else
      AttemptEases(c, port);
      1 + Attempts(AfterRead(asked), port)
  }

  /** One attempt: the command, the number of the set to port 0, the command again. */
  ghost predicate AttemptBytes(before: seq<(Port, bv8)>, after: seq<(Port, bv8)>, port: Port) {
    exists i: nat, j: nat :: i >= 1 && j >= 1 && after == before + AttemptSent(i, j, port)
  }

  function AttemptSent(i: nat, j: nat, port: Port): seq<(Port, bv8)> {
    Copies(i, [(port, 0xf0)]) + [(Port0, 0x01)] + Copies(j, [(port, 0xf0)])
  }

  ghost predicate AttemptsBytes(before: seq<(Port, bv8)>, after: seq<(Port, bv8)>, port: Port, n: nat)
    decreases n
  {
    if n == 0 then after == before
    else exists mid :: AttemptBytes(before, mid, port) && AttemptsBytes(mid, after, port, n - 1)
  }

  lemma AttemptDelivers(c: Controller, port: Port)
    requires c.awaiting == ForDevice
    ensures AttemptBytes(c.delivered, AfterRead(Attempt(c, port)).delivered, port)
  {
    hide Exchange, Copies, Resends;
    var a := Exchange(c, SCAN_CODES, port);
    var b := OnData(a, SET_1);
    var e := Exchange(b, SCAN_CODES, port);
    var i, j := Resends(c.out, c.last, Script(c, port)) + 1, Resends(b.out, b.last, Script(b, port)) + 1;
    ExchangeWire(c, SCAN_CODES, port);
    ExchangeWire(b, SCAN_CODES, port);
    assert b.delivered == a.delivered + [(Port0, 0x01)];
    assert e.delivered == c.delivered + AttemptSent(i, j, port);
  }

  lemma {:induction false} ChosenDelivers(c: Controller, port: Port)
    requires c.awaiting == ForDevice
    ensures AttemptsBytes(c.delivered, Chosen(c, port).delivered, port, Attempts(c, port))
    decreases Effort(c)
  {
    hide Attempt, Effort, AttemptBytes, Front;
    AttemptDelivers(c, port);
    var next := AfterRead(Attempt(c, port));
    if IsSet1(Front(Attempt(c, port))) {
      assert AttemptsBytes(next.delivered, next.delivered, port, 0);
    } else {
      AttemptEases(c, port);
      ChosenDelivers(next, port);
    }
  }

  /** Exactly what a start sends: first the command to send key presses, then the attempts. */
  ghost predicate StartBytes(before: seq<(Port, bv8)>, after: seq<(Port, bv8)>, port: Port, attempts: nat) {
    exists k: nat :: k >= 1 && AttemptsBytes(before + Copies(k, [(port, 0xf4)]), after, port, attempts)
  }

  lemma StartedDelivers(c: Controller, port: Port)
    requires c.awaiting == ForDevice
    ensures StartBytes(c.delivered, Started(c, port).delivered, port, Attempts(Exchange(c, ENABLE_SCAN, port), port))
  {
    hide Exchange, Chosen, Attempts, AttemptsBytes, Resends;
    ExchangeWire(c, ENABLE_SCAN, port);
    ChosenDelivers(Exchange(c, ENABLE_SCAN, port), port);
    var k := Resends(c.out, c.last, Script(c, port)) + 1;
    assert k >= 1;
  }

  /** Every start sends the number of the set to the device on port 0, and never to one on port 1. */
  lemma SetGoesToPort0(c: Controller, port: Port)
    requires c.awaiting == ForDevice
    ensures var e := Started(c, port);
      && c.delivered <= e.delivered
      && (Port0, 0x01) in e.delivered[|c.delivered|..]
      && (Port1, 0x01) !in e.delivered[|c.delivered|..]
  {
    hide Exchange, Chosen, OnlyTraffic;
    var n := |c.delivered|;
    var a := Exchange(c, ENABLE_SCAN, port);
    StartedTraffic(c, port);
    ExchangeStarting(c, ENABLE_SCAN, port);
    ChosenSends(a, port);
    var tail := Chosen(a, port).delivered[|a.delivered|..];
    assert Started(c, port).delivered[n..] == a.delivered[n..] + tail;
  }

  lemma ChosenSends(c: Controller, port: Port)
    requires c.awaiting == ForDevice
    ensures c.delivered <= Chosen(c, port).delivered
    ensures (Port0, SET_1) in Chosen(c, port).delivered[|c.delivered|..]
  {
    hide Exchange, OnlyTraffic, Attempt, Effort, Front;
    AttemptSends(c, port);
    var asked := Attempt(c, port);
    var next := AfterRead(asked);
    if !IsSet1(Front(asked)) {
      AttemptEases(c, port);
      ChosenStarting(next, port);
      TailGrows(c.delivered, next.delivered, Chosen(next, port).delivered, (Port0, SET_1));
    }
  }

  lemma TailGrows<T>(a: seq<T>, b: seq<T>, c: seq<T>, t: T)
    requires a <= b <= c && t in b[|a|..]
    ensures a <= c && t in c[|a|..]
  {
    assert c[|a|..] == b[|a|..] + c[|b|..];
  }

  lemma AttemptSends(c: Controller, port: Port)
    requires c.awaiting == ForDevice
    ensures c.delivered <= AfterRead(Attempt(c, port)).delivered
    ensures (Port0, SET_1) in AfterRead(Attempt(c, port)).delivered[|c.delivered|..]
  {
    hide Exchange, OnlyTraffic;
    var a := Exchange(c, SCAN_CODES, port);
    var b := OnData(a, SET_1);
    var e := Exchange(b, SCAN_CODES, port);
    ExchangeStarting(c, SCAN_CODES, port);
    ExchangeStarting(b, SCAN_CODES, port);
    assert b.delivered == a.delivered + [(Port0, SET_1)];
    assert e.delivered[|c.delivered|..]
        == a.delivered[|c.delivered|..] + [(Port0, SET_1)] + e.delivered[|b.delivered|..];
  }

  /** No start-up is a reset. */
  lemma {:induction false} StartingResetsNothing(start: seq<(Port, bv8)>, tail: seq<(Port, bv8)>, to: Port, port: Port)
    requires forall t :: t in tail ==> StartByte(t, to)
    ensures ResetsTo(start + tail, port) == ResetsTo(start, port)
  {
    if tail == [] {
      assert start + tail == start;
    } else {
      var n := |tail| - 1;
      assert tail[n] in tail;
      assert (start + tail)[..|start| + n] == start + tail[..n];
      StartingResetsNothing(start, tail[..n], to, port);
    }
  }

  // ---------- Keyboards that acknowledge ----------

  /** The next `n` answers are a bare acknowledgement each. */
  predicate Acknowledges(script: seq<seq<bv8>>, n: nat) {
    forall i: nat :: i < n && i < |script| ==> script[i] == [ACK]
  }

  function Skipped(script: seq<seq<bv8>>, n: nat): seq<seq<bv8>> {
    if n <= |script| then script[n..] else []
  }

  lemma AcknowledgesOne(script: seq<seq<bv8>>, n: nat)
    requires Acknowledges(script, n + 1)
    ensures Answer(script) == [ACK] && Acknowledges(Rest(script), n)
    ensures Skipped(Rest(script), n) == Skipped(script, n + 1)
  {
  }

  /** With one acknowledgement waiting, a command is taken to be acknowledged by that one. */
  lemma ExchangeWithWaiting(c: Controller, cmd: bv8, port: Port)
    requires c.awaiting == ForDevice && c.out == [ACK] && Answer(Script(c, port)) == [ACK]
    ensures var e := Exchange(c, cmd, port);
      && e.out == [ACK] && Script(e, port) == Rest(Script(c, port)) && e.delivered == c.delivered + [(port, cmd)]
      && Script(e, Other(port)) == Script(c, Other(port))
  {
    hide Transmit, Transmission, Answer, Rest, Script;
    TransmitStep(c, cmd, port);
  }

  lemma DataAcknowledged(c: Controller, b: bv8)
    requires c.awaiting == ForDevice && c.out == [] && Answer(c.script0) == [ACK]
    ensures var d := OnData(c, b);
      && d.out == [ACK] && d.script0 == Rest(c.script0) && d.script1 == c.script1 && d.awaiting == ForDevice
      && d.delivered == c.delivered + [(Port0, b)]
  {
  }

  /**
   * A keyboard on port 0 that acknowledges every byte is started with nothing left unread. The check
   * of the scan code set reads an acknowledgement, whatever set is in use.
   */
  lemma StartedPort0(c: Controller)
    requires c.awaiting == ForDevice && c.out == [] && Acknowledges(c.script0, 4)
    ensures Started(c, Port0).out == []
    ensures Started(c, Port0).script0 == Skipped(c.script0, 4) && Started(c, Port0).script1 == c.script1
    ensures Front(Attempt(Exchange(c, ENABLE_SCAN, Port0), Port0)) == ACK
    ensures Started(c, Port0).delivered == c.delivered + [(Port0, 0xf4), (Port0, 0xf0), (Port0, 0x01), (Port0, 0xf0)]
  {
    hide Exchange, OnData, Answer, Rest, Acknowledges, Skipped, Effort;
    AcknowledgesOne(c.script0, 3);
    AcknowledgesOne(Rest(c.script0), 2);
    AcknowledgesOne(Rest(Rest(c.script0)), 1);
    AcknowledgesOne(Rest(Rest(Rest(c.script0))), 0);
    SkipNone(Rest(Rest(Rest(Rest(c.script0)))));
    var e := Exchange(c, ENABLE_SCAN, Port0);
    ExchangeAcknowledged(c, ENABLE_SCAN, Port0);
    var a := Exchange(e, SCAN_CODES, Port0);
    ExchangeAcknowledged(e, SCAN_CODES, Port0);
    DataAcknowledged(a, SET_1);
    ExchangeWithWaiting(OnData(a, SET_1), SCAN_CODES, Port0);
  }

  // ---------- Keyboards that do not ----------

  /** A keyboard that does not acknowledge the number of the set, and reports some set. */
  function Reporting(id: bv8): seq<seq<bv8>> {
    [[ACK], [], [ACK, id]]
  }

  /**
   * The attempts end with the first report other than of set 2 or 3, whatever number it is. There is
   * no limit to them: each time such a keyboard reports set 2 or 3, another one is made.
   */
  lemma {:induction false} ScanCodesAreRetried(c: Controller, id: bv8, n: nat)
    requires c.awaiting == ForDevice && c.out == [] && c.script0 == Copies(n, Reporting(id))
    ensures Attempts(c, Port0) == if n == 0 then 1 else if id == 2 || id == 3 then n + 1 else 1
    decreases n
  {
    hide Exchange, Effort;
    if n == 0 {
      AllAcknowledged(c);
    } else {
      assert c.script0 == Reporting(id) + Copies(n - 1, Reporting(id));
      assert c.script0[1..][1..][1..] == Copies(n - 1, Reporting(id));
      var asked := Attempt(c, Port0);
      SetReported(c, id);
      if id == 2 || id == 3 {
        ScanCodesAreRetried(AfterRead(asked), id, n - 1);
      }
    }
  }

  lemma SetReported(c: Controller, id: bv8)
    requires c.awaiting == ForDevice && c.out == [] && Reporting(id) <= c.script0
    ensures var asked := Attempt(c, Port0);
      Front(asked) == id && AfterRead(asked).out == [] && AfterRead(asked).script0 == c.script0[1..][1..][1..]
  {
    hide Exchange;
    var a := Exchange(c, SCAN_CODES, Port0);
    ExchangeAcknowledged(c, SCAN_CODES, Port0);
    assert a.script0[0] == [] && a.script0[1] == [ACK, id];
    var b := OnData(a, SET_1);
    assert b.out == [] && b.script0 == a.script0[1..];
    ExchangeAcknowledged(b, SCAN_CODES, Port0);
  }

  lemma AllAcknowledged(c: Controller)
    requires c.awaiting == ForDevice && c.out == [] && c.script0 == []
    ensures Front(Attempt(c, Port0)) == ACK
  {
    hide Exchange;
    ExchangeAcknowledged(c, SCAN_CODES, Port0);
    ExchangeWithWaiting(OnData(Exchange(c, SCAN_CODES, Port0), SET_1), SCAN_CODES, Port0);
  }

  lemma SkipNone(script: seq<seq<bv8>>)
    ensures Skipped(script, 0) == script
  {
  }

  /** One port in the last part of `ps2_init`: a reset, and a start if there is a keyboard and the driver is free. */
  function SetUp(c: Controller, port: Port, oldId: bv16, driverFree: bool): (r: (Controller, bv16))
    requires c.awaiting == ForDevice
    ensures r.0.awaiting == ForDevice
  {
    ResetDoneAwaits(c, port);
    var d := ResetDone(c, port);
    var id := if ResetFails(c, port) then oldId else NumberRead(ResetAnswered(c, port), port);
    (if driverFree && KindOf(id) == IsKeyboard then Started(d, port) else d, id)
  }

  lemma ResetDoneAwaits(c: Controller, port: Port)
    requires c.awaiting == ForDevice
    ensures ResetDone(c, port).awaiting == ForDevice
  {
    hide Exchange;
    TransmitStep(c, RESET, port);
  }

  /** The bytes that a device gets which keeps the protocol: reset, pause, identify, start. */
  function PoliteBytes(port: Port): seq<(Port, bv8)> {
    [(port, 0xff), (port, 0xf5), (port, 0xf2), (port, 0xf4)]
  }

  lemma PoliteSetUp(c: Controller, port: Port, oldId: bv16, driverFree: bool)
    requires c.awaiting == ForDevice && c.out == [] && PoliteToReset(Script(c, port))
    ensures var (d, id) := SetUp(c, port, oldId, driverFree);
      && id == IdOf(Script(c, port)[2][1..])
      && (!(driverFree && KindOf(id) == IsKeyboard) ==>
            && d.out == [] && Script(d, Other(port)) == Script(c, Other(port))
            && d.delivered == c.delivered + PoliteBytes(port))
      && (port == Port0 && driverFree && KindOf(id) == IsKeyboard && Acknowledges(c.script0[4..], 4) ==>
            && d.out == [] && d.script1 == c.script1
            && d.delivered == c.delivered + PoliteBytes(port)
                 + [(Port0, 0xf4), (Port0, 0xf0), (Port0, 0x01), (Port0, 0xf0)])
  {
    hide ResetDone, ResetFails, NumberRead, ResetAnswered, Started, IdOf, KindOf, Acknowledges;
    ResetDoneAwaits(c, port);
    ResetDonePolite(c, port);
    var d := ResetDone(c, port);
    if port == Port0 && Acknowledges(c.script0[4..], 4) {
      assert d.script0 == c.script0[4..];
      StartedPort0(d);
    }
  }

  /** Which ports' keyboards are started: on port 0 if the driver is free, on port 1 if it still is. */
  predicate Starts(driverFree: bool, working: bool, id: bv16) {
    driverFree && working && KindOf(id) == IsKeyboard
  }

  /** The last part of `ps2_init`: the controller and the two numbers, port by port. */
  function SetUpAll(c: Controller, port0: bool, port1: bool, id0: bv16, id1: bv16, driverFree: bool, vector: bv8)
    : (Controller, bv16, bv16)
    requires c.awaiting == ForDevice
  {
    var (d, new0) := if port0 then SetUp(c, Port0, id0, driverFree) else (c, 0);
    var stillFree := driverFree && (vector == 0 || !Starts(driverFree, port0, new0));
    var (e, new1) := if port1 then SetUp(d, Port1, id1, stillFree) else (d, 0);
    (e, new0, new1)
  }

  /**
   * The ordinary PC: an MF2 keyboard on port 0 and a mouse on port 1, both keeping the protocol.
   * Both are numbered rightly, the keyboard alone is started, and these twelve bytes are sent.
   */
  lemma OrdinaryPc(c: Controller, id0: bv16, id1: bv16)
    requires c.awaiting == ForDevice && c.out == []
    requires PoliteToReset(c.script0) && c.script0[2] == [0xfa, 0xab, 0x83] && Acknowledges(c.script0[4..], 4)
    requires PoliteToReset(c.script1) && c.script1[2] == [0xfa, 0x00]
    ensures var (d, keyboard) := SetUp(c, Port0, id0, true);
      var (e, mouse) := SetUp(d, Port1, id1, false);
      && keyboard == 0xab83 && mouse == 0 && e.out == []
      && e.delivered == c.delivered
        + [(Port0, 0xff), (Port0, 0xf5), (Port0, 0xf2), (Port0, 0xf4)]
        + [(Port0, 0xf4), (Port0, 0xf0), (Port0, 0x01), (Port0, 0xf0)]
        + [(Port1, 0xff), (Port1, 0xf5), (Port1, 0xf2), (Port1, 0xf4)]
  {
    hide SetUp, IdOf, KindOf, Acknowledges, PoliteToReset;
    OrdinaryKeyboard();
    assert [0xfa, 0xab, 0x83][1..] == [0xab, 0x83] && [0xfa, 0x00][1..] == [0x00];
    StandardMouse();
    PoliteSetUp(c, Port0, id0, true);
    PoliteSetUp(SetUp(c, Port0, id0, true).0, Port1, id1, false);
  }

  lemma StandardMouse()
    ensures IdOf([0x00]) == 0 && KindOf(0) == IsMouse
  {
  }

  /** The numbers of the devices that initialisation finds. A port that does not work has number 0. */
  predicate Numbered(c: Controller, port0: bool, port1: bool, driverFree: bool, id0: bv16, id1: bv16) {
    && (!port0 ==> id0 == 0) && (!port1 ==> id1 == 0)
    && (port0 && PoliteToReset(c.script0) ==> id0 == IdOf(c.script0[2][1..]))
    && (port1 && PoliteToReset(c.script1) && (port0 ==> LeavesNothing(c.script0, driverFree, id0)) ==>
          id1 == IdOf(c.script1[2][1..]))
  }

  /** The device on port 0 keeps the protocol and, if it is started as a keyboard, acknowledges that. */
  predicate LeavesNothing(script: seq<seq<bv8>>, driverFree: bool, id: bv16) {
    PoliteToReset(script) && (driverFree && KindOf(id) == IsKeyboard ==> Acknowledges(script[4..], 4))
  }

  /**
   * What one unread answer does to the number of a device that keeps the protocol. Nothing, if the
   * device answers its reset with two bytes. If it answers with three, the acknowledgement of the
   * identify command is read as the first byte of the number.
   */
  lemma LeftoverMovesNumber(c: Controller, port: Port)
    requires c.awaiting == ForDevice && |c.out| == 1 && c.out[0] != RESET_FAIL
    requires PoliteToReset(Script(c, port))
    ensures !ResetFails(c, port)
    ensures var script, id := Script(c, port), NumberRead(ResetAnswered(c, port), port);
      && (|script[0]| == 2 ==> id == IdOf(script[2][1..]))
      && (|script[0]| == 3 && script[0][2] != RESEND ==> id == Joined(0xfa, script[2][1]))
  {
    hide Drained, Transmit, Joined, Script, NumberRead, IdOf;
    var script := Script(c, port);
    var sent := Transmit(c, RESET, port);
    SentOut(c, port);
    DrainAll(sent, 2);
    DrainAll(sent, 3);
    DrainedKeeps(sent, 3, port);
    var r := Drained(sent, 3);
    assert ResetAnswered(c, port) == r;
    assert r.out == script[0][2..];
    assert script[1..][1] == script[2];
    if |script[0]| == 2 {
      IdentifyPolite(r, port);
    } else if |script[0]| == 3 && script[0][2] != RESEND {
      ReadLateByOne(r, port);
    }
  }

  lemma ReadLateByOne(c: Controller, port: Port)
    requires c.awaiting == ForDevice && |c.out| == 1 && c.out[0] != RESEND
    requires PoliteToIdentify(Script(c, port))
    ensures NumberRead(c, port) == Joined(0xfa, Script(c, port)[1][1])
  {
    hide Transmit, Joined;
    var script := Script(c, port);
    TransmitStep(c, DISABLE_SCAN, port);
    var a := Exchange(c, DISABLE_SCAN, port);
    assert Answer(script) == [ACK] && NextOut(c.out, script) == [ACK];
    TransmitStep(a, IDENTIFY, port);
    var b := Exchange(a, IDENTIFY, port);
    assert Rest(script)[0] == script[1];
    assert b.out == script[1];
  }
}
