/**
 * Devices that never stop: when a device command of src/driver/ps2.c is repeated for ever.
 */
module Endless {
  import opened Controller8042

  /** A device as the infinite sequence of its answers, one for each transmission. */
  type Device = nat -> seq<bv8>

  /** The unread answers before the `n`-th transmission, one byte having been read after each earlier one. */
  function QueueAt(out: seq<bv8>, dev: Device, n: nat): seq<bv8>
    decreases n, 0
  {
    if n == 0 then out
    else
      var all := AnswersAt(out, dev, n - 1);
      if all == [] then [] else all[1..]
  }

  /** The same with the answer to that transmission. */
  function AnswersAt(out: seq<bv8>, dev: Device, n: nat): seq<bv8>
    decreases n, 1
  {
    QueueAt(out, dev, n) + dev(n)
  }

  /** The byte read after the `n`-th transmission: without an answer, the one before over again. */
  function FrontAt(out: seq<bv8>, last: bv8, dev: Device, n: nat): bv8 {
    var all := AnswersAt(out, dev, n);
    if all != [] then all[0] else if n == 0 then last else FrontAt(out, last, dev, n - 1)
  }

  predicate AllResend(bytes: seq<bv8>) {
    forall b :: b in bytes ==> b == RESEND
  }

  /** The byte at position p of the answers is the one read p transmissions later. */
  lemma {:induction false} ReadLater(out: seq<bv8>, last: bv8, dev: Device, n: nat, p: nat)
    requires p < |AnswersAt(out, dev, n)|
    ensures FrontAt(out, last, dev, n + p) == AnswersAt(out, dev, n)[p]
    decreases p
  {
    if p > 0 {
      assert QueueAt(out, dev, n + 1) == AnswersAt(out, dev, n)[1..];
      ReadLater(out, last, dev, n + 1, p - 1);
    }
  }

  lemma {:induction false} QueueStaysResend(out: seq<bv8>, dev: Device, n: nat)
    requires AllResend(out) && forall i: nat :: AllResend(dev(i))
    ensures AllResend(QueueAt(out, dev, n))
  {
    if n > 0 {
      QueueStaysResend(out, dev, n - 1);
      var all := AnswersAt(out, dev, n - 1);
      assert AllResend(dev(n - 1)) && AllResend(all);
      assert forall b :: b in QueueAt(out, dev, n) ==> b in all;
    }
  }

  lemma {:induction false} FrontStaysResend(out: seq<bv8>, last: bv8, dev: Device, n: nat)
    requires AllResend(out) && forall i: nat :: AllResend(dev(i))
    requires FrontAt(out, last, dev, 0) == RESEND
    ensures FrontAt(out, last, dev, n) == RESEND
  {
    QueueStaysResend(out, dev, n);
    if n > 0 {
      FrontStaysResend(out, last, dev, n - 1);
    }
    assert AllResend(dev(n));
    if AnswersAt(out, dev, n) != [] {
      assert AnswersAt(out, dev, n)[0] in AnswersAt(out, dev, n);
    }
  }

  /** Every transmission is followed by another. */
  ghost predicate RunsForever(out: seq<bv8>, last: bv8, dev: Device) {
    forall n: nat :: FrontAt(out, last, dev, n) == RESEND
  }

  /**
   * A device command is repeated for ever if and only if the first byte read asks for it, and
   * neither what is waiting nor anything the device ever sends is any other byte. Endless silence
   * after one request is enough.
   */
  lemma RunsForeverExactly(out: seq<bv8>, last: bv8, dev: Device)
    ensures RunsForever(out, last, dev)
      <==> FrontAt(out, last, dev, 0) == RESEND && AllResend(out) && forall i: nat :: AllResend(dev(i))
  {
    if FrontAt(out, last, dev, 0) == RESEND && AllResend(out) && forall i: nat :: AllResend(dev(i)) {
      forall n: nat
        ensures FrontAt(out, last, dev, n) == RESEND
      {
        FrontStaysResend(out, last, dev, n);
      }
    }
    if RunsForever(out, last, dev) {
      forall p: nat | p < |out|
        ensures out[p] == RESEND
      {
        ReadLater(out, last, dev, 0, p);
      }
      forall i: nat
        ensures AllResend(dev(i))
      {
        forall p: nat | p < |dev(i)|
          ensures dev(i)[p] == RESEND
        {
          ReadLater(out, last, dev, i, |QueueAt(out, dev, i)| + p);
        }
      }
    }
  }

  /** Two such devices: one that asks for a resend every time, and one that asks once and falls silent. */
  lemma NeverAnswered(last: bv8)
    ensures RunsForever([], last, (n: nat) => [RESEND])
    ensures RunsForever([], last, (n: nat) => if n == 0 then [RESEND] else [])
  {
    RunsForeverExactly([], last, (n: nat) => [RESEND]);
    RunsForeverExactly([], last, (n: nat) => if n == 0 then [RESEND] else []);
  }

  /** A script as an infinite device: it acknowledges everything in the end. */
  function ScriptDevice(script: seq<seq<bv8>>): Device {
    (n: nat) => if n < |script| then script[n] else [ACK]
  }

  lemma {:induction false} QueueShift(out: seq<bv8>, script: seq<seq<bv8>>, n: nat)
    ensures QueueAt(out, ScriptDevice(script), n + 1) == QueueAt(NextOut(out, script), ScriptDevice(Rest(script)), n)
  {
    if n > 0 {
      QueueShift(out, script, n - 1);
    }
  }

  lemma {:induction false} FrontShift(out: seq<bv8>, last: bv8, script: seq<seq<bv8>>, n: nat)
    ensures FrontAt(out, last, ScriptDevice(script), n + 1)
      == FrontAt(NextOut(out, script), NextFront(out, last, script), ScriptDevice(Rest(script)), n)
  {
    hide Answer, Rest, QueueAt, NextOut, NextFront;
    AnswersShift(out, script, n);
    if n > 0 {
      FrontShift(out, last, script, n - 1);
    } else {
      FirstFront(out, last, script);
    }
  }

  lemma AnswersShift(out: seq<bv8>, script: seq<seq<bv8>>, n: nat)
    ensures AnswersAt(out, ScriptDevice(script), n + 1)
      == AnswersAt(NextOut(out, script), ScriptDevice(Rest(script)), n)
  {
    QueueShift(out, script, n);
  }

  lemma FirstFront(out: seq<bv8>, last: bv8, script: seq<seq<bv8>>)
    ensures FrontAt(out, last, ScriptDevice(script), 0) == NextFront(out, last, script)
  {
  }

  /** A terminating exchange, seen this way: the first byte that does not ask for a resend ends it. */
  lemma {:induction false} ExchangeEndsAt(out: seq<bv8>, last: bv8, script: seq<seq<bv8>>, n: nat)
    ensures n < Resends(out, last, script) ==> FrontAt(out, last, ScriptDevice(script), n) == RESEND
    ensures n == Resends(out, last, script) ==> FrontAt(out, last, ScriptDevice(script), n) != RESEND
    decreases Patience(out, script)
  {
    FirstFront(out, last, script);
    if NextFront(out, last, script) == RESEND && n > 0 {
      PatienceShrinks(out, last, script);
      ExchangeEndsAt(NextOut(out, script), RESEND, Rest(script), n - 1);
      FrontShift(out, last, script, n - 1);
    }
  }
}
