/**
 * The keyboard controller that src/driver/ps2.c drives, with the devices behind it: one or two
 * channels, any configuration byte, any test results, and devices that answer with any finite
 * sequence of bytes, silence included, before they start to acknowledge everything.
 */
module Controller8042 {
  import opened Bits
  import opened Wrappers

  datatype Port = Port0 | Port1

  /** A byte written by the driver. */
  datatype Write = Command(b: bv8) | Data(b: bv8)

  /** What the next data byte is for. */
  datatype Awaiting = ForDevice | ForConfig | ForPort1

  const READ_CONFIG: bv8 := 0x20
  const WRITE_CONFIG: bv8 := 0x60
  const DISABLE_PORT_1: bv8 := 0xa7
  const ENABLE_PORT_1: bv8 := 0xa8
  const TEST_PORT_1: bv8 := 0xa9
  const TEST: bv8 := 0xaa
  const TEST_PORT_0: bv8 := 0xab
  const DISABLE_PORT_0: bv8 := 0xad
  const ENABLE_PORT_0: bv8 := 0xae
  const TO_PORT_1: bv8 := 0xd4

  const ACK: bv8 := 0xfa
  const RESEND: bv8 := 0xfe

  // Bits of the configuration byte.
  const INTERRUPT_0: nat := 0
  const INTERRUPT_1: nat := 1
  const CLOCK_0: nat := 4
  const CLOCK_1: nat := 5
  const TRANSLATION: nat := 6

  datatype Controller = Controller(
    dual: bool,
    selfTest: bv8,                // result of the self-test
    selfTestConfig: Option<bv8>,  // the configuration that the self-test leaves, if it resets it
    test0: bv8,                   // results of the port tests
    test1: bv8,
    config: bv8,
    awaiting: Awaiting,
    out: seq<bv8>,                // answers not yet read
    last: bv8,                    // what the data port shows when there is no answer
    script0: seq<seq<bv8>>,       // the answers of the device on port 0 to the next bytes it gets
    script1: seq<seq<bv8>>,       // the same for port 1
    wire: seq<Write>,             // everything written so far
    delivered: seq<(Port, bv8)>)  // everything that reached a device

  /** Without a second channel the clock-disable bit of that channel always reads as set. */
  function Stored(c: Controller, config: bv8): bv8 {
    if c.dual then config else With(config, CLOCK_1)
  }

  predicate Sound(c: Controller) {
    c.config == Stored(c, c.config)
  }

  function OnCommand(c: Controller, b: bv8): Controller {
    var d := c.(wire := c.wire + [Command(b)], awaiting := ForDevice);
    if b == READ_CONFIG then d.(out := c.out + [c.config])
    else if b == WRITE_CONFIG then d.(awaiting := ForConfig)
    else if b == DISABLE_PORT_1 then d.(config := Stored(c, With(c.config, CLOCK_1)))
    else if b == ENABLE_PORT_1 then d.(config := Stored(c, Without(c.config, CLOCK_1)))
    else if b == TEST_PORT_1 then if c.dual then d.(out := c.out + [c.test1]) else d
    else if b == TEST then
      d.(out := c.out + [c.selfTest],
         config := if c.selfTestConfig.Some? then Stored(c, c.selfTestConfig.value) else c.config)
    else if b == TEST_PORT_0 then d.(out := c.out + [c.test0])
    else if b == DISABLE_PORT_0 then d.(config := With(c.config, CLOCK_0))
    else if b == ENABLE_PORT_0 then d.(config := Without(c.config, CLOCK_0))
    else if b == TO_PORT_1 then d.(awaiting := ForPort1)
    else d
  }

  function OnData(c: Controller, b: bv8): Controller {
    var d := c.(wire := c.wire + [Data(b)], awaiting := ForDevice);
    match c.awaiting
    case ForConfig => d.(config := Stored(c, b))
    case ForDevice => Deliver(d, Port0, b)
    case ForPort1 => Deliver(d, Port1, b)
  }

  /** What a device answers to the next byte. */
  function Answer(script: seq<seq<bv8>>): seq<bv8> {
    if script == [] then [ACK] else script[0]
  }

  function Rest(script: seq<seq<bv8>>): seq<seq<bv8>> {
    if script == [] then [] else script[1..]
  }

  function Script(c: Controller, port: Port): seq<seq<bv8>> {
    if port == Port0 then c.script0 else c.script1
  }

  function Other(port: Port): Port {
    if port == Port0 then Port1 else Port0
  }

  function Deliver(c: Controller, port: Port, b: bv8): Controller {
    var d := c.(out := c.out + Answer(Script(c, port)), delivered := c.delivered + [(port, b)]);
    if port == Port0 then d.(script0 := Rest(c.script0)) else d.(script1 := Rest(c.script1))
  }

  /** A read of the data port: the next answer, or the previous one over again. */
  function Front(c: Controller): bv8 {
    if c.out == [] then c.last else c.out[0]
  }

  function AfterRead(c: Controller): Controller {
    if c.out == [] then c else c.(out := c.out[1..], last := c.out[0])
  }

  /** The controller itself is as before; only traffic with the devices has happened. */
  predicate OnlyTraffic(before: Controller, after: Controller) {
    after == before.(awaiting := after.awaiting, out := after.out, last := after.last,
                     script0 := after.script0, script1 := after.script1,
                     wire := after.wire, delivered := after.delivered)
  }

  // ---------- Commands to a device ----------

  /** The bytes on the wire for one transmission to a device. */
  function Transmission(cmd: bv8, port: Port): seq<Write> {
    (if port == Port1 then [Command(TO_PORT_1)] else []) + [Data(cmd)]
  }

  function Transmit(c: Controller, cmd: bv8, port: Port): Controller {
    OnData(if port == Port1 then OnCommand(c, TO_PORT_1) else c, cmd)
  }

  /** The bytes that are not acknowledgements. */
  function CountOthers(bytes: seq<bv8>): nat {
    if bytes == [] then 0
    else (if bytes[0] == ACK then 0 else 1) + CountOthers(bytes[1..])
  }

  function CountAllOthers(script: seq<seq<bv8>>): nat {
    if script == [] then 0 else CountOthers(script[0]) + CountAllOthers(script[1..])
  }

  /** A bound on how often the devices can still answer with anything but an acknowledgement. */
  function Patience(out: seq<bv8>, script: seq<seq<bv8>>): nat {
    CountOthers(out) + CountAllOthers(script) + |script|
  }

  lemma {:induction false} CountAppend(a: seq<bv8>, b: seq<bv8>)
    ensures CountOthers(a + b) == CountOthers(a) + CountOthers(b)
  {
    if a == [] {
      assert a + b == b;
    } else {
      CountAppend(a[1..], b);
      assert (a + b)[1..] == a[1..] + b;
    }
  }

  /** The answers after one more byte has been sent and one answer read. */
  function NextOut(out: seq<bv8>, script: seq<seq<bv8>>): seq<bv8> {
    var all := out + Answer(script);
    if all == [] then [] else all[1..]
  }

  function NextFront(out: seq<bv8>, last: bv8, script: seq<seq<bv8>>): bv8 {
    var all := out + Answer(script);
    if all == [] then last else all[0]
  }

  lemma PatienceShrinks(out: seq<bv8>, last: bv8, script: seq<seq<bv8>>)
    requires NextFront(out, last, script) == RESEND
    ensures Patience(NextOut(out, script), Rest(script)) < Patience(out, script)
  {
    CountAppend(out, Answer(script));
    if script == [] {
      assert CountOthers([ACK]) == 0;
    }
  }

  /** How often a command has to be repeated: answers are read until one is not a request to resend. */
  function Resends(out: seq<bv8>, last: bv8, script: seq<seq<bv8>>): nat
    decreases Patience(out, script)
  {
    if NextFront(out, last, script) == RESEND then
      PatienceShrinks(out, last, script);
      1 + Resends(NextOut(out, script), RESEND, Rest(script))
    else 0
  }

  /** `k` repetitions of a sequence. */
  function Copies<T>(k: nat, s: seq<T>): seq<T> {
    if k == 0 then [] else s + Copies(k - 1, s)
  }

  lemma CopiesStep<T>(start: seq<T>, k: nat, s: seq<T>)
    ensures start + s + Copies(k, s) == start + Copies(k + 1, s)
    ensures Copies(0, s) == [] && start + s == start + s + Copies(0, s)
  {
    assert start + s + Copies(k, s) == start + (s + Copies(k, s));
  }

  lemma RouteToPort1(c: Controller)
    ensures OnCommand(c, TO_PORT_1) == c.(wire := c.wire + [Command(TO_PORT_1)], awaiting := ForPort1)
  {
    hide With, Without;
  }

  /** One transmission delivers its byte, and leaves its bytes on the wire. */
  lemma TransmitDelivers(c: Controller, cmd: bv8, port: Port)
    requires port == Port0 ==> c.awaiting == ForDevice
    ensures Transmit(c, cmd, port)
      == Deliver(c.(wire := c.wire + Transmission(cmd, port), awaiting := ForDevice), port, cmd)
  {
    hide OnCommand, Deliver;
    if port == Port1 {
      RouteToPort1(c);
      assert c.wire + [Command(TO_PORT_1)] + [Data(cmd)] == c.wire + Transmission(cmd, port);
    } else {
      assert c.wire + [Data(cmd)] == c.wire + Transmission(cmd, port);
    }
  }

  /** The effect of one transmission and one read, field by field. */
  lemma TransmitStep(c: Controller, cmd: bv8, port: Port)
    requires port == Port0 ==> c.awaiting == ForDevice
    ensures var sent := Transmit(c, cmd, port);
      && Front(sent) == NextFront(c.out, c.last, Script(c, port))
      && AfterRead(sent).out == NextOut(c.out, Script(c, port))
      && AfterRead(sent).last == Front(sent)
      && Script(AfterRead(sent), port) == Rest(Script(c, port))
      && Script(AfterRead(sent), Other(port)) == Script(c, Other(port))
      && AfterRead(sent).wire == c.wire + Transmission(cmd, port)
      && AfterRead(sent).delivered == c.delivered + [(port, cmd)]
      && AfterRead(sent).awaiting == sent.awaiting == ForDevice
      && OnlyTraffic(c, AfterRead(sent))
  {
    hide Transmit, Transmission;
    TransmitDelivers(c, cmd, port);
  }

  /** The controller after a whole command exchange. */
  function Exchange(c: Controller, cmd: bv8, port: Port): (e: Controller)
    requires c.awaiting == ForDevice
    ensures e.awaiting == ForDevice
    decreases Patience(c.out, Script(c, port))
  {
    hide Patience, Script, Transmit, Front, AfterRead, NextOut, NextFront;
    TransmitStep(c, cmd, port);
    var sent := Transmit(c, cmd, port);
    if Front(sent) == RESEND then
      PatienceShrinks(c.out, c.last, Script(c, port));
      Exchange(AfterRead(sent), cmd, port)
    else AfterRead(sent)
  }

  lemma TransmissionBytes(cmd: bv8, port: Port)
    ensures Transmission(cmd, port) == if port == Port0 then [Data(cmd)] else [Command(0xd4), Data(cmd)]
  {
  }

  /**
   * Every command exchange ends, after exactly one transmission more than there are requests to
   * resend. Every copy is the whole transmission, the routing byte for port 1 included; the
   * controller's own state does not change.
   */
  lemma {:induction false} ExchangeWire(c: Controller, cmd: bv8, port: Port)
    requires c.awaiting == ForDevice
    ensures var e, k := Exchange(c, cmd, port), Resends(c.out, c.last, Script(c, port)) + 1;
      && e.wire == c.wire + Copies(k, Transmission(cmd, port))
      && e.delivered == c.delivered + Copies(k, [(port, cmd)])
      && e.awaiting == ForDevice
      && OnlyTraffic(c, e)
      && (port == Port0 ==> e.wire == c.wire + Copies(k, [Data(cmd)]))
      && (port == Port1 ==> e.wire == c.wire + Copies(k, [Command(0xd4), Data(cmd)]))
    decreases Patience(c.out, Script(c, port))
  {
    TransmissionBytes(cmd, port);
    hide Transmit, Script, Transmission, Copies, NextOut, NextFront, Patience, AfterRead, Front;
    var sent := Transmit(c, cmd, port);
    TransmitStep(c, cmd, port);
    var again := AfterRead(sent);
    var t, d := Transmission(cmd, port), [(port, cmd)];
    if Front(sent) == RESEND {
      PatienceShrinks(c.out, c.last, Script(c, port));
      ExchangeWire(again, cmd, port);
      var k := Resends(again.out, again.last, Script(again, port)) + 1;
      CopiesStep(c.wire, k, t);
      CopiesStep(c.delivered, k, d);
    } else {
      CopiesStep(c.wire, 0, t);
      CopiesStep(c.delivered, 0, d);
    }
  }

  /**
   * A device that asks `k` times for a resend and then does not is sent exactly k + 1 copies, if
   * and only if it then answers at all. Silence only counts as an answer when nothing has been
   * asked for and the last byte read was no RESEND either.
   */
  lemma {:induction false} ResendsOfScript(k: nat, last: bv8, answer: seq<bv8>, rest: seq<seq<bv8>>)
    requires answer == [] || answer[0] != 0xfe
    ensures Resends([], last, Copies(k, [[0xfe]]) + [answer] + rest) == k
      <==> answer != [] || (k == 0 && last != 0xfe)
  {
    var script := Copies(k, [[RESEND]]) + [answer] + rest;
    if k == 0 {
      assert script[0] == answer;
      assert [] + answer == answer;
    } else {
      assert script[0] == [RESEND];
      assert script[1..] == Copies(k - 1, [[RESEND]]) + [answer] + rest;
      assert [] + script[0] == [RESEND];
      ResendsOfScript(k - 1, RESEND, answer, rest);
    }
  }

  /**
   * Silence after a request to resend is not noticed: the wait gives up with success, the stale
   * RESEND is read again, and each silent answer costs one more transmission, however many there are.
   */
  lemma {:induction false} SilenceIsResent(n: nat)
    ensures Resends([], RESEND, Copies(n, [[]])) == n
  {
    var script := Copies<seq<bv8>>(n, [[]]);
    if n == 0 {
      assert [] + Answer(script) == [ACK];
    } else {
      assert script[0] == [] && script[1..] == Copies(n - 1, [[]]);
      assert [] + script[0] == [];
      SilenceIsResent(n - 1);
    }
  }

  /** An acknowledged command leaves whatever the device sent after its acknowledgement. */
  lemma ExchangeAcknowledged(c: Controller, cmd: bv8, port: Port)
    requires c.awaiting == ForDevice && c.out == []
    requires Answer(Script(c, port)) != [] && Answer(Script(c, port))[0] == ACK
    ensures var e := Exchange(c, cmd, port);
      && e.out == Answer(Script(c, port))[1..] && e.last == ACK
      && Script(e, port) == Rest(Script(c, port)) && Script(e, Other(port)) == Script(c, Other(port))
      && e.delivered == c.delivered + [(port, cmd)]
  {
    hide Transmit, Transmission, Answer, Rest, Script;
    TransmitStep(c, cmd, port);
    assert [] + Answer(Script(c, port)) == Answer(Script(c, port));
  }

  /** After some number of reads. */
  function Drained(c: Controller, n: nat): (d: Controller)
    ensures OnlyTraffic(c, d) && d.awaiting == c.awaiting && d.delivered == c.delivered
    ensures d.script0 == c.script0 && d.script1 == c.script1
  {
    if n == 0 then c else AfterRead(Drained(c, n - 1))
  }

  /** Traffic with one device that does not reset it. */
  predicate Gentle(traffic: seq<(Port, bv8)>, port: Port) {
    forall t :: t in traffic ==> t.0 == port && t.1 != 0xff
  }

  lemma {:induction false} CopiesGentle(k: nat, cmd: bv8, port: Port)
    requires cmd != 0xff
    ensures Gentle(Copies(k, [(port, cmd)]), port)
  {
    if k != 0 {
      CopiesGentle(k - 1, cmd, port);
    }
  }

  /** The traffic since `before` is more than before by a gentle piece. */
  predicate GentlyAfter(before: Controller, after: Controller, port: Port) {
    && OnlyTraffic(before, after) && after.awaiting == ForDevice
    && before.delivered <= after.delivered
    && Gentle(after.delivered[|before.delivered|..], port)
  }

  lemma GentlyTransitive(a: Controller, b: Controller, c: Controller, port: Port)
    requires GentlyAfter(a, b, port) && GentlyAfter(b, c, port)
    ensures GentlyAfter(a, c, port)
  {
    var n := |a.delivered|;
    assert c.delivered[n..] == b.delivered[n..] + c.delivered[|b.delivered|..];
  }

  lemma ExchangeGentle(c: Controller, cmd: bv8, port: Port)
    requires c.awaiting == ForDevice && cmd != 0xff
    ensures GentlyAfter(c, Exchange(c, cmd, port), port)
  {
    hide Exchange, Resends;
    ExchangeWire(c, cmd, port);
    var k := Resends(c.out, c.last, Script(c, port)) + 1;
    CopiesGentle(k, cmd, port);
    assert Exchange(c, cmd, port).delivered[|c.delivered|..] == Copies(k, [(port, cmd)]);
  }

  lemma DrainedGentle(c: Controller, n: nat, port: Port)
    requires c.awaiting == ForDevice
    ensures GentlyAfter(c, Drained(c, n), port)
  {
  }

  // ---------- Resetting a device ----------

  const RESET: bv8 := 0xff
  const RESET_FAIL: bv8 := 0xfc

  /** One reset reached the device, and nothing but gentle traffic with it since. */
  predicate ResetOnce(before: Controller, after: Controller, port: Port) {
    var n := |before.delivered|;
    && OnlyTraffic(before, after) && after.awaiting == ForDevice
    && before.delivered + [(port, 0xff)] <= after.delivered
    && Gentle(after.delivered[n + 1..], port)
  }

  lemma ResetThenGentle(c: Controller, after: Controller, port: Port)
    requires c.awaiting == ForDevice && GentlyAfter(Transmit(c, RESET, port), after, port)
    ensures ResetOnce(c, after, port)
  {
  }

  /** The next answers of a device that is paused, identified and started, as the protocol has it. */
  predicate PoliteToIdentify(script: seq<seq<bv8>>) {
    && |script| >= 3
    && script[0] == [0xfa]
    && 2 <= |script[1]| <= 3 && script[1][0] == 0xfa
    && script[2] == [0xfa]
  }

  /** The same, for a device that is reset first. */
  predicate PoliteToReset(script: seq<seq<bv8>>) {
    && |script| >= 1
    && (2 <= |script[0]| <= 3 || (|script[0]| == 4 && (script[0][2] == 0xab || script[0][2] == 0xac)))
    && ((script[0][0] == 0xfa && script[0][1] == 0xaa) || (script[0][0] == 0xaa && script[0][1] == 0xfa))
    && PoliteToIdentify(script[1..])
  }

  /** The device number the driver makes of the answer to the identify command. A single byte is read twice. */
  function IdOf(ids: seq<bv8>): bv16
    requires 1 <= |ids| <= 2
  {
    Joined(ids[0] as bv16, ids[|ids| - 1])
  }

  /** The number that the answer stands for: one byte is a number by itself, two are its upper and lower half. */
  function MeantId(ids: seq<bv8>): bv16
    requires 1 <= |ids| <= 2
  {
    if |ids| == 1 then ids[0] as bv16 else 0x100 * (ids[0] as bv16) + ids[1] as bv16
  }

  /**
   * The driver's number is right exactly for two-byte answers and for the single byte 0. Its upper
   * half is the first byte of the answer, its lower half the last.
   */
  lemma IdIsRight(ids: seq<bv8>)
    requires 1 <= |ids| <= 2
    ensures IdOf(ids) == MeantId(ids) <==> |ids| == 2 || ids[0] == 0
    ensures (IdOf(ids) >> 8) as bv8 == ids[0] && (IdOf(ids) & 0xff) as bv8 == ids[|ids| - 1]
  {
    JoinedMeans(ids[0], ids[|ids| - 1]);
  }

  lemma JoinedMeans(high: bv8, low: bv8)
    ensures var j := Joined(high as bv16, low);
      && (j >> 8) as bv8 == high && (j & 0xff) as bv8 == low
      && j == 0x100 * (high as bv16) + low as bv16
  {
  }

  /** A wheel mouse, which answers 3, is taken for device 0x0303. */
  lemma WheelMouseIsMistaken()
    ensures IdOf([0x03]) == 0x0303 && MeantId([0x03]) == 0x0003
  {
  }

  /** The next byte of a 16-bit number, lower end last. */
  function Joined(high: bv16, low: bv8): bv16 {
    (high << 8) + low as bv16
  }

  /** The first device number, with the code that follows 0xab and 0xac as its upper half. */
  function WithSpecialCode(id: bv16, special: bv8): bv16 {
    id + ((special as bv16) << 8)
  }

  lemma {:induction false} DrainAll(c: Controller, n: nat)
    ensures Drained(c, n).out == if n <= |c.out| then c.out[n..] else []
  {
    if n != 0 {
      DrainAll(c, n - 1);
    }
  }

  lemma DrainedKeeps(c: Controller, n: nat, port: Port)
    ensures Script(Drained(c, n), port) == Script(c, port) && Drained(c, n).awaiting == c.awaiting
  {
  }

  /** The reset of a polite device is answered by success, and the reads take the whole answer. */
  lemma PoliteReset(c: Controller, port: Port)
    requires c.awaiting == ForDevice && c.out == [] && PoliteToReset(Script(c, port))
    ensures var r := ResetAnswered(c, port);
      && !ResetFails(c, port) && r.out == []
      && Script(r, port) == Script(c, port)[1..]
      && Script(r, Other(port)) == Script(c, Other(port))
      && r.delivered == c.delivered + [(port, 0xff)]
  {
    hide Drained, PoliteToIdentify, Transmit, Script;
    var sent := Transmit(c, RESET, port);
    SentOut(c, port);
    assert [] + Script(c, port)[0] == Script(c, port)[0];
    DrainAll(sent, 2);
    var third := Front(Drained(sent, 2));
    var n := if third == 0xab || third == 0xac then 4 else 3;
    DrainAll(sent, n);
    DrainedKeeps(sent, n, port);
    DrainedKeeps(sent, n, Other(port));
  }

  lemma SentOut(c: Controller, port: Port)
    requires c.awaiting == ForDevice && Script(c, port) != []
    ensures Transmit(c, RESET, port).out == c.out + Script(c, port)[0]
    ensures Transmit(c, RESET, port).awaiting == ForDevice
    ensures Transmit(c, RESET, port).delivered == c.delivered + [(port, 0xff)]
    ensures Script(Transmit(c, RESET, port), port) == Script(c, port)[1..]
    ensures Script(Transmit(c, RESET, port), Other(port)) == Script(c, Other(port))
  {
    hide Transmit, Transmission;
    TransmitDelivers(c, RESET, port);
  }

  /** The two reads for the device number take the whole answer of a polite device. */
  lemma PoliteId(c: Controller)
    requires 1 <= |c.out| <= 2
    ensures Front(c) == c.out[0] && Front(AfterRead(c)) == c.out[|c.out| - 1]
    ensures Drained(c, 2).out == []
  {
    hide Drained;
    DrainAll(c, 2);
  }

  const ENABLE_SCAN: bv8 := 0xf4
  const DISABLE_SCAN: bv8 := 0xf5
  const IDENTIFY: bv8 := 0xf2

  /** The controller when the answer to the identify command is due. */
  function Asked(c: Controller, port: Port): (a: Controller)
    requires c.awaiting == ForDevice
    ensures a.awaiting == ForDevice
  {
    Exchange(Exchange(c, DISABLE_SCAN, port), IDENTIFY, port)
  }

  function Identified(c: Controller, port: Port): Controller
    requires c.awaiting == ForDevice
  {
    Exchange(Drained(Asked(c, port), 2), ENABLE_SCAN, port)
  }

  /** The number read from the answer to the identify command, whatever the device does. */
  function NumberRead(c: Controller, port: Port): bv16
    requires c.awaiting == ForDevice
  {
    var asked := Asked(c, port);
    Joined(Front(asked) as bv16, Front(AfterRead(asked)))
  }

  /** The controller when a reset has been answered: three bytes read, and a fourth after 0xab or 0xac. */
  function ResetAnswered(c: Controller, port: Port): (r: Controller)
    requires c.awaiting == ForDevice
    ensures r.awaiting == ForDevice
  {
    hide With, Without;
    TransmitStep(c, RESET, port);
    var sent := Transmit(c, RESET, port);
    var third := Front(Drained(sent, 2));
    Drained(sent, if third == 0xab || third == 0xac then 4 else 3)
  }

  lemma IdentifyGentle(c: Controller, port: Port)
    requires c.awaiting == ForDevice
    ensures GentlyAfter(c, Identified(c, port), port)
  {
    hide Exchange, GentlyAfter, Drained;
    var c1 := Exchange(c, DISABLE_SCAN, port);
    var c2 := Exchange(c1, IDENTIFY, port);
    var c3 := Drained(c2, 2);
    ExchangeGentle(c, DISABLE_SCAN, port);
    ExchangeGentle(c1, IDENTIFY, port);
    DrainedGentle(c2, 2, port);
    ExchangeGentle(c3, ENABLE_SCAN, port);
    GentlyTransitive(c, c1, c2, port);
    GentlyTransitive(c, c2, c3, port);
    GentlyTransitive(c, c3, Exchange(c3, ENABLE_SCAN, port), port);
  }

  lemma IdentifyPolite(c: Controller, port: Port)
    requires c.awaiting == ForDevice && c.out == [] && PoliteToIdentify(Script(c, port))
    ensures NumberRead(c, port) == IdOf(Script(c, port)[1][1..])
    ensures Identified(c, port).out == []
    ensures Script(Identified(c, port), port) == Script(c, port)[3..]
    ensures Script(Identified(c, port), Other(port)) == Script(c, Other(port))
    ensures Identified(c, port).delivered == c.delivered + [(port, 0xf5), (port, 0xf2), (port, 0xf4)]
  {
    hide Exchange, Drained, Front, AfterRead, Joined;
    var c1 := Exchange(c, DISABLE_SCAN, port);
    var c2 := Exchange(c1, IDENTIFY, port);
    ExchangeAcknowledged(c, DISABLE_SCAN, port);
    ExchangeAcknowledged(c1, IDENTIFY, port);
    PoliteId(c2);
    ExchangeAcknowledged(Drained(c2, 2), ENABLE_SCAN, port);
  }

  // ---------- What reaches the device ----------

  /** Repetitions of the commands to pause, to identify and to start, in this order, each sent at least once. */
  ghost predicate IdentifyBytes(before: seq<(Port, bv8)>, after: seq<(Port, bv8)>, port: Port) {
    exists i: nat, j: nat, k: nat ::
      i >= 1 && j >= 1 && k >= 1 && after == before + ThreeCommands(i, j, k, port)
  }

  function ThreeCommands(i: nat, j: nat, k: nat, port: Port): seq<(Port, bv8)> {
    Copies(i, [(port, 0xf5)]) + Copies(j, [(port, 0xf2)]) + Copies(k, [(port, 0xf4)])
  }

  lemma IdentifiedBytes(c: Controller, port: Port)
    requires c.awaiting == ForDevice
    ensures IdentifyBytes(c.delivered, Identified(c, port).delivered, port)
  {
    hide Exchange, Drained, Copies, Resends;
    var c1 := Exchange(c, DISABLE_SCAN, port);
    var c2 := Exchange(c1, IDENTIFY, port);
    var c3 := Drained(c2, 2);
    var c4 := Exchange(c3, ENABLE_SCAN, port);
    var i, j := Resends(c.out, c.last, Script(c, port)) + 1, Resends(c1.out, c1.last, Script(c1, port)) + 1;
    var k := Resends(c3.out, c3.last, Script(c3, port)) + 1;
    ExchangeWire(c, DISABLE_SCAN, port);
    ExchangeWire(c1, IDENTIFY, port);
    ExchangeWire(c3, ENABLE_SCAN, port);
    assert c4.delivered == c.delivered + ThreeCommands(i, j, k, port);
  }

  predicate ResetFails(c: Controller, port: Port) {
    Front(Transmit(c, RESET, port)) == RESET_FAIL
  }

  /** The controller when `reset_port` is done. */
  function ResetDone(c: Controller, port: Port): Controller
    requires c.awaiting == ForDevice
  {
    if ResetFails(c, port) then Drained(Transmit(c, RESET, port), 3)
    else Identified(ResetAnswered(c, port), port)
  }

  /** A polite device takes its four answers and is numbered by the third. */
  lemma ResetDonePolite(c: Controller, port: Port)
    requires c.awaiting == ForDevice && c.out == [] && PoliteToReset(Script(c, port))
    ensures !ResetFails(c, port)
    ensures NumberRead(ResetAnswered(c, port), port) == IdOf(Script(c, port)[2][1..])
    ensures ResetDone(c, port).out == []
    ensures Script(ResetDone(c, port), port) == Script(c, port)[4..]
    ensures Script(ResetDone(c, port), Other(port)) == Script(c, Other(port))
    ensures ResetDone(c, port).delivered
      == c.delivered + [(port, 0xff), (port, 0xf5), (port, 0xf2), (port, 0xf4)]
  {
    hide Identified, NumberRead, IdOf, Script, ResetAnswered, ResetFails;
    var r, script := ResetAnswered(c, port), Script(c, port);
    PoliteReset(c, port);
    assert r.out == [] && Script(r, port) == script[1..];
    assert script[1..][1] == script[2] && script[1..][3..] == script[4..];
    IdentifyPolite(r, port);
  }

  lemma DrainedMore(c: Controller)
    ensures Drained(c, 0) == c && Drained(c, 1) == AfterRead(c) && Drained(c, 2) == AfterRead(AfterRead(c))
    ensures c.out == [] ==> AfterRead(c) == c
  {
    hide AfterRead;
    assert Drained(c, 1) == AfterRead(Drained(c, 0));
    assert Drained(c, 2) == AfterRead(Drained(c, 1));
    EmptyRead(c);
  }

  lemma EmptyRead(c: Controller)
    ensures c.out == [] ==> AfterRead(c) == c
  {
  }

  // ---------- Counting resets ----------

  /** Resets sent to a port so far. */
  function ResetsTo(delivered: seq<(Port, bv8)>, port: Port): nat {
    if delivered == [] then 0
    else
      var last := delivered[|delivered| - 1];
      ResetsTo(delivered[..|delivered| - 1], port) + if last == (port, 0xff) then 1 else 0
  }

  lemma {:induction false} GentleResets(start: seq<(Port, bv8)>, gentle: seq<(Port, bv8)>, to: Port, port: Port)
    requires Gentle(gentle, to)
    ensures ResetsTo(start + gentle, port) == ResetsTo(start, port)
  {
    if gentle == [] {
      assert start + gentle == start;
    } else {
      var n := |gentle| - 1;
      assert gentle[n] in gentle;
      assert (start + gentle)[..|start| + n] == start + gentle[..n];
      GentleResets(start, gentle[..n], to, port);
    }
  }

  lemma ResetOnceCounts(before: Controller, after: Controller, to: Port, port: Port)
    requires ResetOnce(before, after, to)
    ensures ResetsTo(after.delivered, port) == ResetsTo(before.delivered, port) + if to == port then 1 else 0
  {
    var n := |before.delivered|;
    var start := before.delivered + [(to, RESET)];
    assert after.delivered == start + after.delivered[n + 1..];
    GentleResets(start, after.delivered[n + 1..], to, port);
    assert start[..n] == before.delivered;
  }
}
