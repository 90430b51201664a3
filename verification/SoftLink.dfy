/** Transmitter and receiver of `SoftwareSerial` joined by a wire, each with its own clock. */
module SoftLink {
  import opened Bytes
  import opened SoftReceiver
  import opened SoftSender

  // ----- k ticks of length tau -----

  function Times(k: int, tau: real): real {
    k as real * tau
  }

  lemma TimesAdd(j: int, k: int, tau: real)
    ensures Times(j + k, tau) == Times(j, tau) + Times(k, tau)
  {
    assert (j + k) as real == j as real + k as real;
  }

  lemma TimesMonotone(j: int, k: int, tau: real)
    requires j <= k && tau > 0.0
    ensures Times(j, tau) <= Times(k, tau)
  {
    TimesAdd(j, k - j, tau);
  }

  lemma TimesThree(k: int, tau: real)
    ensures Times(k, 3.0 * tau) == Times(3 * k, tau)
  {
  }

  lemma TimesConst(tau: real)
    ensures Times(0, tau) == 0.0 && Times(1, tau) == tau && Times(30, tau) == 30.0 * tau
  {
  }

  // ----- where the frames of a transmission lie -----

  /** When the frames start, in receiver ticks, if the transmitter's tick lasts `tau` of them and its first starts at `at`. */
  function FramesOf(bursts: seq<Burst>, tau: real, at: real): (fs: seq<Frame>)
    ensures |fs| == |bursts|
  {
    if bursts == [] then []
    else [Frame(at + Times(bursts[0].gap, tau), bursts[0].b)] + FramesOf(bursts[1..], tau, at + Times(bursts[0].gap + 30, tau))
  }

  lemma FramesUnfold(bursts: seq<Burst>, tau: real, at: real)
    requires bursts != []
    ensures var fs := FramesOf(bursts, tau, at);
            fs[0] == Frame(at + Times(bursts[0].gap, tau), bursts[0].b)
            && fs[1..] == FramesOf(bursts[1..], tau, at + Times(bursts[0].gap + 30, tau))
  {
  }

  lemma {:induction false} FramesPayload(bursts: seq<Burst>, tau: real, at: real)
    ensures Payload(FramesOf(bursts, tau, at)) == BytesOf(bursts)
    decreases |bursts|
  {
    hide Times;
    if bursts != [] {
      FramesUnfold(bursts, tau, at);
      FramesPayload(bursts[1..], tau, at + Times(bursts[0].gap + 30, tau));
    }
  }

  lemma {:induction false} FramesSpaced(bursts: seq<Burst>, tau: real, at: real)
    requires tau > 0.0
    ensures Spaced(FramesOf(bursts, tau, at), 3.0 * tau)
    ensures bursts != [] ==> FramesOf(bursts, tau, at)[0].start >= at
    decreases |bursts|
  {
    hide Times;
    if bursts != [] {
      var g := bursts[0].gap;
      var fs := FramesOf(bursts, tau, at);
      TimesConst(tau);
      TimesMonotone(0, g, tau);
      TimesAdd(g, 30, tau);
      FramesUnfold(bursts, tau, at);
      FramesSpaced(bursts[1..], tau, at + Times(g + 30, tau));
      forall i | 0 < i < |fs| ensures fs[i - 1].start + 10.0 * (3.0 * tau) <= fs[i].start {
        assert fs[i] == fs[1..][i - 1];
        if i > 1 { assert fs[i - 1] == fs[1..][i - 2]; }
      }
    }
  }

  lemma SlotIs(d: real, T: real, k: nat)
    requires T > 0.0 && k <= 9 && Times(k, T) <= d < Times(k + 1, T)
    ensures Slot(d, T) == k
  {
    if k == 0 {} else if k == 1 {} else if k == 2 {} else if k == 3 {} else if k == 4 {} else if k == 5 {}
    else if k == 6 {} else if k == 7 {} else if k == 8 {} else {}
  }

  /** Tick `j` of a frame is in bit `j / 3`. */
  lemma TickSlot(d: real, tau: real, j: nat)
    requires tau > 0.0 && j < 30 && Times(j, tau) <= d < Times(j + 1, tau)
    ensures Slot(d, 3.0 * tau) == j / 3 && 0.0 <= d < 30.0 * tau
  {
    hide Times;
    var k := j / 3;
    TimesConst(tau);
    TimesMonotone(0, j, tau);
    TimesMonotone(j + 1, 30, tau);
    TimesMonotone(3 * k, j, tau);
    TimesMonotone(j + 1, 3 * (k + 1), tau);
    TimesThree(k, tau);
    TimesThree(k + 1, tau);
    SlotIs(d, 3.0 * tau, k);
  }

  /** The transmitter's tick `i` covers time `t`. */
  ghost predicate InTick(i: int, tau: real, at: real, t: real) {
    at + Times(i, tau) <= t < at + Times(i + 1, tau)
  }

  lemma Rebase(x: int, i: int, tau: real, at: real, t: real)
    requires InTick(i, tau, at, t)
    ensures InTick(i - x, tau, at + Times(x, tau), t)
  {
    TimesAdd(x, i - x, tau);
    TimesAdd(x, i + 1 - x, tau);
  }

  lemma LevelOfIdle(bursts: seq<Burst>, tau: real, at: real, i: nat, t: real)
    requires tau > 0.0 && bursts != [] && i < bursts[0].gap && InTick(i, tau, at, t)
    ensures Level(FramesOf(bursts, tau, at), 3.0 * tau, t)
  {
    hide Times;
    TimesMonotone(i + 1, bursts[0].gap, tau);
    FramesUnfold(bursts, tau, at);
  }

  lemma LevelOfFrame(bursts: seq<Burst>, tau: real, at: real, j: nat, t: real)
    requires tau > 0.0 && bursts != [] && j < 30 && InTick(j, tau, at + Times(bursts[0].gap, tau), t)
    ensures Level(FramesOf(bursts, tau, at), 3.0 * tau, t) == FrameBit(bursts[0].b, j / 3)
  {
    hide Times, FrameBit;
    FramesUnfold(bursts, tau, at);
    TickSlot(t - (at + Times(bursts[0].gap, tau)), tau, j);
  }

  lemma LevelOfRest(bursts: seq<Burst>, tau: real, at: real, t: real)
    requires tau > 0.0 && bursts != [] && t >= at + Times(bursts[0].gap + 30, tau)
    ensures Level(FramesOf(bursts, tau, at), 3.0 * tau, t)
         == Level(FramesOf(bursts[1..], tau, at + Times(bursts[0].gap + 30, tau)), 3.0 * tau, t)
  {
    hide Times, FrameBit;
    FramesUnfold(bursts, tau, at);
    TimesAdd(bursts[0].gap, 30, tau);
    TimesConst(tau);
  }

  /** The level the transmitter holds during its tick `i` is the level of the line at any time in that tick. */
  lemma {:induction false} WaveLevel(bursts: seq<Burst>, tau: real, at: real, i: nat, t: real)
    requires tau > 0.0 && i < |Wave(bursts)| && InTick(i, tau, at, t)
    ensures Wave(bursts)[i] == Level(FramesOf(bursts, tau, at), 3.0 * tau, t)
    decreases |bursts|
  {
    hide Times, Level, FramesOf;
    var g, b := bursts[0].gap, bursts[0].b;
    if i < g {
      LevelOfIdle(bursts, tau, at, i, t);
      assert Wave(bursts)[i] == Idle(g)[i];
    } else if i < g + 30 {
      Rebase(g, i, tau, at, t);
      LevelOfFrame(bursts, tau, at, i - g, t);
      assert Wave(bursts)[i] == FrameLevels(b)[i - g];
    } else {
      Rebase(g + 30, i, tau, at, t);
      TimesConst(tau);
      TimesMonotone(0, i - (g + 30), tau);
      LevelOfRest(bursts, tau, at, t);
      WaveLevel(bursts[1..], tau, at + Times(g + 30, tau), i - (g + 30), t);
      assert Wave(bursts)[i] == Wave(bursts[1..])[i - (g + 30)];
    }
  }

  /** After its last frame the line is idle, and no frame starts later. */
  lemma {:induction false} IdleAfter(bursts: seq<Burst>, tau: real, at: real, t: real)
    requires tau > 0.0 && t >= at + Times(|Wave(bursts)|, tau)
    ensures Level(FramesOf(bursts, tau, at), 3.0 * tau, t)
    ensures bursts != [] ==> FramesOf(bursts, tau, at)[|bursts| - 1].start <= t
    decreases |bursts|
  {
    hide Times, Level;
    if bursts == [] {
      assert Level([], 3.0 * tau, t) by { NoFrames(3.0 * tau, t); }
    } else {
      var g, n := bursts[0].gap, |Wave(bursts[1..])|;
      assert |Wave(bursts)| == g + 30 + n;
      TimesConst(tau);
      TimesAdd(g + 30, n, tau);
      TimesAdd(g, 30, tau);
      TimesMonotone(0, n, tau);
      FramesUnfold(bursts, tau, at);
      LevelOfRest(bursts, tau, at, t);
      IdleAfter(bursts[1..], tau, at + Times(g + 30, tau), t);
      var fs := FramesOf(bursts, tau, at);
      if |bursts| > 1 { assert fs[|bursts| - 1] == fs[1..][|bursts| - 2]; }
    }
  }

  lemma NoFrames(T: real, t: real)
    ensures Level([], T, t)
  {
  }

  // ----- the wire -----

  /** The transmitter's tick at time `t`. */
  function TickAt(t: real, tau: real, at: real): (i: nat)
    requires tau > 0.0 && t >= at
    ensures InTick(i, tau, at, t)
  {
    TickBounds(t, tau, at, (t - at) / tau);
    ((t - at) / tau).Floor
  }

  lemma TickBounds(t: real, tau: real, at: real, x: real)
    requires tau > 0.0 && t >= at && x == (t - at) / tau
    ensures x.Floor >= 0 && InTick(x.Floor, tau, at, t)
  {
    hide Times;
    var i := x.Floor;
    FloorBounds(x);
    Between(i, tau, t - at, x);
    TimesIs(i, tau);
    TimesIs(i + 1, tau);
  }

  lemma FloorBounds(x: real)
    ensures x.Floor as real <= x < (x.Floor + 1) as real
  {
  }

  lemma Between(i: int, tau: real, d: real, x: real)
    requires tau > 0.0 && d >= 0.0 && x == d / tau && i as real <= x < (i + 1) as real
    ensures i as real * tau <= d < (i + 1) as real * tau && x >= 0.0
  {
    assert x * tau == d;
    Scaled(i as real, x, tau);
    Scaled((i + 1) as real, x, tau);
    Scaled(0.0, x, tau);
  }

  lemma TimesIs(i: int, tau: real)
    ensures Times(i, tau) == (i as real) * tau
  {
  }

  lemma Scaled(x: real, y: real, tau: real)
    requires tau > 0.0
    ensures x <= y <==> x * tau <= y * tau
  {
    if x > y { assert (x - y) * tau > 0.0; }
  }

  /** The level of the pin at time `t`: idle before the first tick and after the trace. */
  function PinAt(trace: seq<bool>, inverse: bool, tau: real, at: real, t: real): bool
    requires tau > 0.0
  {
    if t < at then !inverse
    else
      var i := TickAt(t, tau, at);
      if i < |trace| then trace[i] else !inverse
  }

  /** What the receiver makes of the pin: `LL_GPIO_IsInputPinSet(...) ^ _inverse_logic`. */
  function Wire(trace: seq<bool>, inverse: bool, tau: real, at: real): nat -> bool
    requires tau > 0.0
  {
    (n: nat) => PinAt(trace, inverse, tau, at, n as real) != inverse
  }

  lemma BeforeFrames(frames: seq<Frame>, T: real, t: real)
    requires frames != [] ==> t < frames[0].start
    ensures Level(frames, T, t)
  {
  }

  lemma PinLevel(trace: seq<bool>, bursts: seq<Burst>, gap: nat, inverse: bool, tau: real, at: real, t: real)
    requires tau > 0.0 && Driven(trace, Wave(bursts) + Idle(gap), inverse)
    ensures (PinAt(trace, inverse, tau, at, t) != inverse) == Level(FramesOf(bursts, tau, at), 3.0 * tau, t)
  {
    hide Times, Level, FramesOf;
    if t < at {
      FramesSpaced(bursts, tau, at);
      if bursts != [] { FramesUnfold(bursts, tau, at); }
      BeforeFrames(FramesOf(bursts, tau, at), 3.0 * tau, t);
    } else {
      var i, n := TickAt(t, tau, at), |Wave(bursts)|;
      if i < n {
        WaveLevel(bursts, tau, at, i, t);
      } else {
        TimesMonotone(n, i, tau);
        IdleAfter(bursts, tau, at, t);
      }
    }
  }

  /**
   * Round trip: whatever bytes were written, with whatever idle time in between, a receiver on the same
   * logic whose clock keeps the bit length in tolerance reads back exactly those bytes, at every phase.
   */
  lemma SendThenReceive(trace: seq<bool>, bursts: seq<Burst>, gap: nat, inverse: bool, tau: real, at: real, end: nat)
    requires Driven(trace, Wave(bursts) + Idle(gap), inverse) && |bursts| < SS_MAX_RX_BUFF
    requires tau > 0.0 && InTolerance(3.0 * tau) && at >= 0.0
    requires at + Times(|Wave(bursts)|, tau) + 29.0 <= end as real
    ensures Run(LISTENING, Wire(trace, inverse, tau, at), 0, end).queue == BytesOf(bursts)
  {
    hide Times, Level, FramesOf, Run, Wave, Deliver;
    var frames, line := FramesOf(bursts, tau, at), Wire(trace, inverse, tau, at);
    FramesSpaced(bursts, tau, at);
    FramesPayload(bursts, tau, at);
    forall n: nat | 0 <= n < end ensures line(n) == Level(frames, 3.0 * tau, n as real) {
      PinLevel(trace, bursts, gap, inverse, tau, at, n as real);
    }
    IdleAfter(bursts, tau, at, at + Times(|Wave(bursts)|, tau));
    DecodesFrom(LISTENING, line, frames, 3.0 * tau, 0, end);
    DeliverMeaning(LISTENING, Payload(frames));
  }
}
