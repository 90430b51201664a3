/**
 * The transmitter of `SoftwareSerial`, one timer tick at a time, and the way from it to the receiver.
 */
module SoftSender {
  import opened Bytes
  import opened SoftReceiver

  const HALFDUPLEX_SWITCH_DELAY: int := 5

  // ----- what should be on the line -----

  /** A byte sent after `gap` idle ticks. */
  datatype Burst = Burst(gap: nat, b: byte)

  function Idle(k: nat): (w: seq<bool>)
    ensures |w| == k && forall i | 0 <= i < k :: w[i]
  {
    seq(k, _ => true)
  }

  /** A whole frame: ten bits, each held for `OVERSAMPLE` ticks. */
  function FrameLevels(b: byte): (w: seq<bool>)
    ensures |w| == 30 && forall i | 0 <= i < 30 :: w[i] == FrameBit(b, i / 3)
  {
    seq(30, i requires 0 <= i < 30 => FrameBit(b, i / 3))
  }

  function Wave(bursts: seq<Burst>): seq<bool> {
    if bursts == [] then [] else Idle(bursts[0].gap) + FrameLevels(bursts[0].b) + Wave(bursts[1..])
  }

  function BytesOf(bursts: seq<Burst>): (bs: seq<byte>)
    ensures |bs| == |bursts|
  {
    if bursts == [] then [] else [bursts[0].b] + BytesOf(bursts[1..])
  }

  lemma {:induction false} WaveAppend(bursts: seq<Burst>, u: Burst)
    ensures Wave(bursts + [u]) == Wave(bursts) + (Idle(u.gap) + FrameLevels(u.b))
    ensures BytesOf(bursts + [u]) == BytesOf(bursts) + [u.b]
  {
    if bursts == [] {
      assert bursts + [u] == [u] && [u][1..] == [];
    } else {
      assert (bursts + [u])[1..] == bursts[1..] + [u];
      WaveAppend(bursts[1..], u);
    }
  }

  /** The pin follows the logical levels, all inverted under inverse logic. */
  ghost predicate Driven(trace: seq<bool>, w: seq<bool>, inverse: bool) {
    |trace| == |w| && forall i | 0 <= i < |w| :: trace[i] == (w[i] != inverse)
  }

  // ----- the transmit register -----

  /** `b << 1 | 0x200`, complemented to 32 bits under inverse logic. */
  function Encoded(b: byte, inverse: bool): uint32 {
    if inverse then 0xFFFF_FFFF - (2 * b + 0x200) else 2 * b + 0x200
  }

  function Shifted(x: nat, k: nat): nat {
    if k == 0 then x else Shifted(x, k - 1) / 2
  }

  function Ones(k: nat): nat {
    if k == 0 then 0 else 2 * Ones(k - 1) + 1
  }

  lemma {:induction false} ComplementShifts(x: nat, w: nat, k: nat)
    requires x <= Ones(w) && k < w
    ensures Shifted(x, k) <= Ones(w - k) && Shifted(Ones(w) - x, k) == Ones(w - k) - Shifted(x, k)
  {
    if k > 0 { ComplementShifts(x, w, k - 1); }
  }

  lemma OnesAt32()
    ensures Ones(32) == 0xFFFF_FFFF
  {
    assert Ones(4) == 0xF;
    assert Ones(8) == 0xFF;
    assert Ones(12) == 0xFFF;
    assert Ones(16) == 0xFFFF;
    assert Ones(20) == 0xF_FFFF;
    assert Ones(24) == 0xFF_FFFF;
    assert Ones(28) == 0xFFF_FFFF;
  }

  lemma {:induction false} PlainBit(b: byte, k: nat)
    requires k <= 8
    ensures Shifted(2 * b + 0x200, k + 1) == Halved(b, k) + Shifted(0x100, k)
  {
    if k > 0 {
      PlainBit(b, k - 1);
      TopBit(k - 1);
    }
  }

  /** The stop bit on its way down. */
  lemma TopBit(k: nat)
    requires k <= 8
    ensures k < 8 ==> Shifted(0x100, k) % 2 == 0
    ensures k == 8 ==> Shifted(0x100, k) == 1
  {
    assert Shifted(0x100, 2) == 0x40;
    assert Shifted(0x100, 4) == 0x10;
    assert Shifted(0x100, 6) == 4;
    assert Shifted(0x100, 1) == 0x80 && Shifted(0x100, 3) == 0x20 && Shifted(0x100, 5) == 8 && Shifted(0x100, 7) == 2;
    assert k == 0 || k == 1 || k == 2 || k == 3 || k == 4 || k == 5 || k == 6 || k == 7 || k == 8;
  }

  lemma PlainRegisterBit(b: byte, k: nat)
    requires k <= 9
    ensures Shifted(2 * b + 0x200, k) % 2 == 1 <==> FrameBit(b, k)
  {
    if k > 0 {
      PlainBit(b, k - 1);
      TopBit(k - 1);
      if k <= 8 { BitShift(b, k - 1); } else { HalvedGone(b); }
    }
  }

  lemma ComplementBit(x: nat, k: nat)
    requires x <= 0xFFFF_FFFF && k < 32
    ensures Shifted(0xFFFF_FFFF - x, k) % 2 == 1 <==> Shifted(x, k) % 2 == 0
  {
    hide Shifted;
    OnesAt32();
    ComplementShifts(x, 32, k);
    assert Ones(32 - k) == 2 * Ones(31 - k) + 1;
  }

  /** The lowest bit of the register after `k` shifts is bit `k` of the frame, inverted if need be. */
  lemma RegisterBit(b: byte, inverse: bool, k: nat)
    requires k <= 9
    ensures Shifted(Encoded(b, inverse), k) % 2 == 1 <==> FrameBit(b, k) != inverse
  {
    PlainRegisterBit(b, k);
    ComplementBit(2 * b + 0x200, k);
  }

  // ----- one tick -----

  datatype Tx = Tx(tick: int, bit: int, buf: nat, active: bool, pin: bool)

  /** `send()`; `pending` is `_output_pending`. */
  function SendStep(t: Tx, pending: bool): Tx {
    if t.tick - 1 <= 0 then
      if t.bit < 10 then
        t.(bit := t.bit + 1, pin := t.buf % 2 == 1, buf := t.buf / 2, tick := OVERSAMPLE)
      else
        var done := t.(bit := t.bit + 1, tick := 1);
        if pending then done.(active := false)
        else if done.bit > 10 + OVERSAMPLE * HALFDUPLEX_SWITCH_DELAY then done.(active := false)
        else done
    else t.(tick := t.tick - 1)
  }

  /** `send()` comes to the end of the switch delay: a port in half-duplex mode may listen again. */
  predicate DelayOver(t: Tx, pending: bool) {
    t.active && t.tick - 1 <= 0 && t.bit >= 10 && !pending && t.bit + 1 > 10 + OVERSAMPLE * HALFDUPLEX_SWITCH_DELAY
  }

  function TxTick(t: Tx, pending: bool): Tx {
    if t.active then SendStep(t, pending) else t
  }

  /** Ticks of the current frame that are already on the line. */
  function Elapsed(t: Tx): int {
    if t.active && 1 <= t.bit <= 10 then 3 * t.bit - t.tick + 1 else 0
  }

  /** Between ticks: whole frames, idle ticks, and the part of the current frame that is out. */
  ghost predicate TxInv(t: Tx, inverse: bool, trace: seq<bool>, bursts: seq<Burst>, gap: nat, current: byte) {
    && (t.active ==>
          && 0 <= t.bit <= 10 + OVERSAMPLE * HALFDUPLEX_SWITCH_DELAY
          && (if t.bit <= 10 then 1 <= t.tick <= 3 && t.buf == Shifted(Encoded(current, inverse), t.bit) else t.tick == 1))
    && t.pin == ((if Elapsed(t) > 0 then FrameBit(current, t.bit - 1) else true) != inverse)
    && 0 <= Elapsed(t) <= 30
    && Driven(trace, Wave(bursts) + Idle(gap) + FrameLevels(current)[..Elapsed(t)], inverse)
  }

  lemma {:induction false} DrivenAppend(trace: seq<bool>, w: seq<bool>, level: bool, inverse: bool)
    requires Driven(trace, w, inverse)
    ensures Driven(trace + [level != inverse], w + [level], inverse)
  {
  }

  lemma IdleAppend(w: seq<bool>, gap: nat)
    ensures w + Idle(gap) + [true] == w + Idle(gap + 1)
  {
  }

  lemma FrameGrows(w: seq<bool>, b: byte, e: nat)
    requires e < 30
    ensures w + FrameLevels(b)[..e] + [FrameBit(b, e / 3)] == w + FrameLevels(b)[..e + 1]
  {
    assert FrameLevels(b)[..e + 1] == FrameLevels(b)[..e] + [FrameLevels(b)[e]];
  }

  lemma FrameDone(bursts: seq<Burst>, gap: nat, b: byte)
    ensures Wave(bursts) + Idle(gap) + FrameLevels(b)[..30] == Wave(bursts + [Burst(gap, b)])
  {
    WaveAppend(bursts, Burst(gap, b));
  }

  lemma NoFrame(w: seq<bool>, b: byte)
    ensures w + FrameLevels(b)[..0] == w
  {
  }

  /** One timer tick, with or without a transmission, keeps the trace whole. */
  lemma TickKeeps(t: Tx, pending: bool, inverse: bool, trace: seq<bool>, bursts: seq<Burst>, gap: nat, current: byte)
    returns (bursts': seq<Burst>, gap': nat)
    requires TxInv(t, inverse, trace, bursts, gap, current)
    ensures var u := TxTick(t, pending); TxInv(u, inverse, trace + [u.pin], bursts', gap', current)
    ensures bursts' == if t.active && t.bit == 10 && t.tick == 1 then bursts + [Burst(gap, current)] else bursts
    ensures t.active ==> t.tick >= 1
  {
    hide Wave;
    var u, e := TxTick(t, pending), Elapsed(t);
    bursts', gap' := bursts, gap;
    if t.active && t.bit <= 10 && !(t.bit == 10 && t.tick == 1) && !(t.bit == 0 && t.tick > 1) {
      if t.tick == 1 { RegisterBit(current, inverse, t.bit); }
      assert Elapsed(u) == e + 1 && e / 3 == u.bit - 1;
      FrameGrows(Wave(bursts) + Idle(gap), current, e);
      DrivenAppend(trace, Wave(bursts) + Idle(gap) + FrameLevels(current)[..e], FrameBit(current, e / 3), inverse);
    } else {
      if e == 30 {
        FrameDone(bursts, gap, current);
        bursts', gap' := bursts + [Burst(gap, current)], 0;
        assert Wave(bursts') + Idle(0) == Wave(bursts');
      } else {
        NoFrame(Wave(bursts) + Idle(gap), current);
      }
      DrivenAppend(trace, Wave(bursts') + Idle(gap'), true, inverse);
      IdleAppend(Wave(bursts'), gap');
      gap' := gap' + 1;
      NoFrame(Wave(bursts') + Idle(gap'), current);
    }
  }

  /** `write()`, once the previous byte is out: load the register and go. */
  function Start(t: Tx, b: byte, inverse: bool): Tx {
    t.(buf := Encoded(b, inverse), bit := 0, tick := OVERSAMPLE, active := true)
  }

  lemma StartKeeps(t: Tx, b: byte, inverse: bool, trace: seq<bool>, bursts: seq<Burst>, gap: nat, current: byte)
    requires TxInv(t, inverse, trace, bursts, gap, current) && !t.active
    ensures t.pin != inverse
    ensures TxInv(Start(t, b, inverse), inverse, trace, bursts, gap, b)
    ensures TxInv(Start(t, b, inverse).(active := false), inverse, trace, bursts, gap, current)
  {
    NoFrame(Wave(bursts) + Idle(gap), current);
    NoFrame(Wave(bursts) + Idle(gap), b);
  }

  /** Whenever no byte is on its way, the trace is whole frames and idle time: no stop bit was cut short. */
  lemma ReleasedIsWhole(t: Tx, inverse: bool, trace: seq<bool>, bursts: seq<Burst>, gap: nat, current: byte)
    requires TxInv(t, inverse, trace, bursts, gap, current) && !t.active
    ensures Driven(trace, Wave(bursts) + Idle(gap), inverse)
  {
    NoFrame(Wave(bursts) + Idle(gap), current);
  }

  /** Ticks until the transmitter is released, at most; with a write waiting, there is no switch delay. */
  function Remaining(t: Tx, pending: bool): int {
    if !t.active then 0
    else if t.bit <= 10 then 3 * (10 - t.bit) + t.tick + if pending then 0 else 16
    else if pending then 1 else 27 - t.bit
  }

  /** The transmitter is released in the end, after the stop bit and at most five more bit periods. */
  lemma RemainingShrinks(t: Tx, pending: bool, inverse: bool, trace: seq<bool>, bursts: seq<Burst>, gap: nat, current: byte)
    requires TxInv(t, inverse, trace, bursts, gap, current) && t.active
    ensures 0 <= Remaining(TxTick(t, pending), pending) < Remaining(t, pending)
  {
  }

  lemma RemainingAtMost(t: Tx, pending: bool, inverse: bool, trace: seq<bool>, bursts: seq<Burst>, gap: nat, current: byte)
    requires TxInv(t, inverse, trace, bursts, gap, current)
    ensures 0 <= Remaining(t, pending) <= if pending then 33 else 49
  {
  }

  /** `n` ticks with no write waiting. */
  function Ticked(t: Tx, n: nat): Tx {
    if n == 0 then t else TxTick(Ticked(t, n - 1), false)
  }

  /**
   * The transmitter stays active for the switch delay of five bit periods, fifteen ticks, after the last tick of
   * the stop bit, and is released by the tick that follows; a waiting write has it released at once.
   */
  lemma {:induction false} ReleasedAfterDelay(t: Tx, n: nat)
    requires t.active && t.bit == 10 && t.tick == 1
    ensures Ticked(t, n).active <==> n <= 15
    ensures n <= 15 ==> Ticked(t, n) == t.(bit := 10 + n) && (DelayOver(Ticked(t, n), false) <==> n == 15)
    ensures !TxTick(t, true).active
  {
    if n > 0 { ReleasedAfterDelay(t, n - 1); }
  }

  lemma DelayReleases(t: Tx, pending: bool)
    ensures DelayOver(t, pending) ==> !TxTick(t, pending).active
  {
  }

  /** A byte taken over leaves the line idle for two ticks; the third one begins its start bit. */
  lemma StartsThirdTick(t: Tx, b: byte, inverse: bool, n: nat)
    requires n <= 3 && t.pin != inverse
    ensures Ticked(Start(t, b, inverse), n).active && (Ticked(Start(t, b, inverse), n).pin != inverse <==> n < 3)
  {
    RegisterBit(b, inverse, 0);
    var u := Start(t, b, inverse);
    assert Ticked(u, 1) == TxTick(Ticked(u, 0), false);
    assert Ticked(u, 2) == TxTick(Ticked(u, 1), false);
    assert Ticked(u, 3) == TxTick(Ticked(u, 2), false);
  }
}
