/**
 * The receiver of `SoftwareSerial` against a line in continuous time. Time is measured in ticks of the
 * receiver; a bit on the line lasts `T` of them, whatever the transmitter's clock makes of it.
 */
module SoftReceiver {
  import opened Bytes

  const OVERSAMPLE: int := 3
  const SS_MAX_RX_BUFF: int := 64

  // ----- frames -----

  /** Bit `i` of a byte, least significant first. */
  predicate Bit(b: byte, i: nat) {
    if i == 0 then b % 2 == 1 else Bit(b / 2, i - 1)
  }

  /** Start bit, eight data bits, stop bit; the line idles high. */
  predicate FrameBit(b: byte, k: nat) {
    if k == 0 then false else if k <= 8 then Bit(b, k - 1) else true
  }

  /** The frame of a byte in numbers: low start bit, data bits of value 1, 2, 4 and so on to 128, high stop bit. */
  lemma FrameMeaning(b: byte)
    ensures !FrameBit(b, 0) && FrameBit(b, 9)
    ensures b == (if FrameBit(b, 1) then 1 else 0) + (if FrameBit(b, 2) then 2 else 0) + (if FrameBit(b, 3) then 4 else 0)
               + (if FrameBit(b, 4) then 8 else 0) + (if FrameBit(b, 5) then 16 else 0) + (if FrameBit(b, 6) then 32 else 0)
               + (if FrameBit(b, 7) then 64 else 0) + (if FrameBit(b, 8) then 128 else 0)
  {
    hide Halved, FrameBit;
    FrameBitIs(b);
    LowBits(b);
    HighBits(b);
  }

  lemma LowBits(b: byte)
    ensures b == 16 * Halved(b, 4) + (if FrameBit(b, 1) then 1 else 0) + (if FrameBit(b, 2) then 2 else 0)
               + (if FrameBit(b, 3) then 4 else 0) + (if FrameBit(b, 4) then 8 else 0)
  {
    hide Halved, FrameBit;
    FrameBitIs(b);
    Halvings(b);
  }

  lemma HighBits(b: byte)
    ensures Halved(b, 4) == (if FrameBit(b, 5) then 1 else 0) + (if FrameBit(b, 6) then 2 else 0)
                         + (if FrameBit(b, 7) then 4 else 0) + (if FrameBit(b, 8) then 8 else 0)
  {
    hide Halved, FrameBit;
    FrameBitIs(b);
    Halvings(b);
    HalvedGone(b);
  }

  lemma FrameBitIs(b: byte)
    ensures !FrameBit(b, 0) && FrameBit(b, 9)
    ensures forall k | 1 <= k <= 8 :: FrameBit(b, k) <==> Halved(b, k - 1) % 2 == 1
  {
    hide Halved, Bit;
    forall k | 1 <= k <= 8 ensures FrameBit(b, k) <==> Halved(b, k - 1) % 2 == 1 { BitShift(b, k - 1); }
  }

  lemma Halvings(b: byte)
    ensures Halved(b, 0) == b && b == 2 * Halved(b, 1) + Halved(b, 0) % 2 && Halved(b, 1) == 2 * Halved(b, 2) + Halved(b, 1) % 2
    ensures Halved(b, 2) == 2 * Halved(b, 3) + Halved(b, 2) % 2 && Halved(b, 3) == 2 * Halved(b, 4) + Halved(b, 3) % 2
    ensures Halved(b, 4) == 2 * Halved(b, 5) + Halved(b, 4) % 2 && Halved(b, 5) == 2 * Halved(b, 6) + Halved(b, 5) % 2
    ensures Halved(b, 6) == 2 * Halved(b, 7) + Halved(b, 6) % 2 && Halved(b, 7) == 2 * Halved(b, 8) + Halved(b, 7) % 2
  {
  }

  /** A byte whose frame starts at time `start`. */
  datatype Frame = Frame(start: real, b: byte)

  /** The bit a frame is in, `d` after its start. */
  function Slot(d: real, T: real): nat {
    if d < T then 0 else if d < 2.0 * T then 1 else if d < 3.0 * T then 2 else if d < 4.0 * T then 3
    else if d < 5.0 * T then 4 else if d < 6.0 * T then 5 else if d < 7.0 * T then 6 else if d < 8.0 * T then 7
    else if d < 9.0 * T then 8 else 9
  }

  /** The level of the line at time `t`. */
  predicate Level(frames: seq<Frame>, T: real, t: real) {
    if frames == [] || t < frames[0].start then true
    else if t < frames[0].start + 10.0 * T then FrameBit(frames[0].b, Slot(t - frames[0].start, T))
    else Level(frames[1..], T, t)
  }

  /** Frames follow each other back to back or after any gap. */
  predicate Spaced(frames: seq<Frame>, T: real) {
    forall i | 0 < i < |frames| :: frames[i - 1].start + 10.0 * T <= frames[i].start
  }

  function Payload(frames: seq<Frame>): (bs: seq<byte>)
    ensures |bs| == |frames|
  {
    if frames == [] then [] else [frames[0].b] + Payload(frames[1..])
  }

  // ----- the receiver -----

  /** `bit` is -1 while a start bit is awaited; `queue` is the content of the receive ring. */
  datatype Rx = Rx(tick: int, bit: int, buffer: byte, queue: seq<byte>, overflow: bool)

  predicate Waiting(r: Rx) {
    r.bit == -1 && r.tick == 1
  }

  /** A received byte is stored if there is room, else lost with a note. */
  function Store(r: Rx): Rx {
    if |r.queue| < SS_MAX_RX_BUFF - 1 then r.(queue := r.queue + [r.buffer]) else r.(overflow := true)
  }

  /** `recv()`. */
  function RecvStep(r: Rx, inbit: bool): Rx {
    if r.tick - 1 > 0 then r.(tick := r.tick - 1)
    else if r.bit == -1 then
      if !inbit then r.(bit := 0, tick := OVERSAMPLE + 1, buffer := 0) else r.(tick := 1)
    else if r.bit >= 8 then
      (if inbit then Store(r) else r).(tick := 1, bit := -1)
    else
      r.(buffer := r.buffer / 2 + (if inbit then 128 else 0), bit := r.bit + 1, tick := OVERSAMPLE)
  }

  /** The receiver after the samples of ticks `n` to `end - 1`. */
  function Run(r: Rx, line: nat -> bool, n: nat, end: nat): Rx
    decreases end - n
  {
    if n >= end then r else Run(RecvStep(r, line(n)), line, n + 1, end)
  }

  /** What the ring holds after bytes `bs` arrive with nobody reading. */
  function Deliver(r: Rx, bs: seq<byte>): Rx
    decreases |bs|
  {
    if bs == [] then r else Deliver(Store(r.(buffer := bs[0])), bs[1..])
  }

  lemma {:induction false} DeliverMeaning(r: Rx, bs: seq<byte>)
    requires |r.queue| <= SS_MAX_RX_BUFF - 1
    ensures var room := SS_MAX_RX_BUFF - 1 - |r.queue|;
            var d := Deliver(r, bs);
            if |bs| <= room then d.queue == r.queue + bs && d.overflow == r.overflow
            else d.queue == r.queue + bs[..room] && d.overflow
    decreases |bs|
  {
    if bs != [] {
      var s := Store(r.(buffer := bs[0]));
      DeliverMeaning(s, bs[1..]);
      var room := SS_MAX_RX_BUFF - 1 - |r.queue|;
      if 0 < room < |bs| { assert [bs[0]] + bs[1..][..room - 1] == bs[..room]; }
      assert [bs[0]] + bs[1..] == bs;
    }
  }

  // ----- one frame, sample by sample -----

  lemma {:induction false} Skip(r: Rx, line: nat -> bool, n: nat, end: nat, k: nat)
    requires r.tick == k + 1 && n + k <= end
    ensures Run(r, line, n, end) == Run(r.(tick := 1), line, n + k, end)
    decreases k
  {
    if k > 0 { Skip(r.(tick := k), line, n + 1, end, k - 1); }
  }

  /** The shift register after `j` data bits of `b`. */
  function Register(b: byte, j: nat): byte {
    if j == 0 then 0 else Register(b, j - 1) / 2 + if Bit(b, j - 1) then 128 else 0
  }

  /** Eight bits, least significant first, shifted in from the top, make the byte again. */
  lemma RegisterFull(b: byte)
    ensures Register(b, 8) == b
  {
    RegisterHolds(b, 0, 1);
    RegisterHolds(b, 1, 2);
    RegisterHolds(b, 2, 4);
    RegisterHolds(b, 3, 8);
    RegisterHolds(b, 4, 16);
    RegisterHolds(b, 5, 32);
    RegisterHolds(b, 6, 64);
    RegisterHolds(b, 7, 128);
    HalvedGone(b);
  }

  /** After `j` bits, the register holds the low `j` bits of `b` at its top; `p` is 2^j. */
  predicate HoldsLow(b: byte, j: nat, p: nat) {
    MakesUp(b, Register(b, j), Halved(b, j), p)
  }

  lemma RegisterHolds(b: byte, j: nat, p: nat)
    requires p in {1, 2, 4, 8, 16, 32, 64, 128} && HoldsLow(b, j, p)
    ensures HoldsLow(b, j + 1, 2 * p)
  {
    BitShift(b, j);
    ShiftIn(b, Register(b, j), Halved(b, j), p);
  }

  /** Register `r` and rest `h` make up `b`. */
  predicate MakesUp(b: byte, r: byte, h: byte, p: nat) {
    p * r == 256 * (b - p * h)
  }

  lemma ShiftIn(b: byte, r: byte, h: byte, p: nat)
    requires p in {1, 2, 4, 8, 16, 32, 64, 128} && MakesUp(b, r, h, p)
    ensures MakesUp(b, r / 2 + if h % 2 == 1 then 128 else 0, h / 2, 2 * p)
  {
    hide MakesUp;
    if p in {1, 2, 4} { ShiftInLow(b, r, h, p); } else if p in {8, 16} { ShiftInMiddle(b, r, h, p); } else { ShiftInHigh(b, r, h, p); }
  }

  lemma ShiftInLow(b: byte, r: byte, h: byte, p: nat)
    requires p in {1, 2, 4} && MakesUp(b, r, h, p)
    ensures MakesUp(b, r / 2 + if h % 2 == 1 then 128 else 0, h / 2, 2 * p)
  {
    if p == 1 {} else if p == 2 {} else {}
  }

  lemma ShiftInMiddle(b: byte, r: byte, h: byte, p: nat)
    requires p in {8, 16} && MakesUp(b, r, h, p)
    ensures MakesUp(b, r / 2 + if h % 2 == 1 then 128 else 0, h / 2, 2 * p)
  {
    if p == 8 {} else {}
  }

  lemma ShiftInHigh(b: byte, r: byte, h: byte, p: nat)
    requires p in {32, 64, 128} && MakesUp(b, r, h, p)
    ensures MakesUp(b, r / 2 + if h % 2 == 1 then 128 else 0, h / 2, 2 * p)
  {
    if p == 32 {} else if p == 64 {} else {}
  }

  lemma HalvedGone(b: byte)
    ensures Halved(b, 8) == 0
  {
    assert Halved(b, 1) < 128;
    assert Halved(b, 2) < 64;
    assert Halved(b, 3) < 32;
    assert Halved(b, 4) < 16;
    assert Halved(b, 5) < 8;
    assert Halved(b, 6) < 4;
    assert Halved(b, 7) < 2;
  }

  function Halved(b: byte, i: nat): byte {
    if i == 0 then b else Halved(b, i - 1) / 2
  }

  lemma {:induction false} BitShift(b: byte, i: nat)
    ensures Bit(b, i) <==> Halved(b, i) % 2 == 1
  {
    if i > 0 {
      BitShift(b / 2, i - 1);
      HalvedFirst(b, i);
    }
  }

  lemma {:induction false} HalvedFirst(b: byte, i: nat)
    requires i > 0
    ensures Halved(b, i) == Halved(b / 2, i - 1)
  {
    if i > 1 { HalvedFirst(b, i - 1); }
  }

  lemma OneBit(r: Rx, line: nat -> bool, n: nat, end: nat, b: byte, j: nat)
    requires r.tick == 1 && r.bit == j < 8 && r.buffer == Register(b, j)
    requires line(n) == Bit(b, j) && n + 3 <= end
    ensures Run(r, line, n, end) == Run(r.(bit := j + 1, buffer := Register(b, j + 1)), line, n + 3, end)
  {
    hide Bit;
    var s := RecvStep(r, line(n));
    assert s == r.(bit := j + 1, buffer := Register(b, j + 1), tick := 3);
    Skip(s, line, n + 1, end, 2);
  }

  lemma {:induction false} DataBits(r: Rx, line: nat -> bool, n: nat, end: nat, b: byte, j: nat)
    requires r.tick == 1 && r.bit == j <= 8 && r.buffer == Register(b, j)
    requires forall i | j <= i < 8 :: line(n + 3 * (i - j)) == Bit(b, i)
    requires n + 3 * (8 - j) <= end
    ensures Run(r, line, n, end) == Run(r.(bit := 8, buffer := Register(b, 8)), line, n + 3 * (8 - j), end)
    decreases 8 - j
  {
    hide *;
    if j < 8 {
      assert line(n + 3 * (j - j)) == Bit(b, j);
      OneBit(r, line, n, end, b, j);
      forall i | j + 1 <= i < 8 ensures line(n + 3 + 3 * (i - (j + 1))) == Bit(b, i) {
        assert n + 3 + 3 * (i - (j + 1)) == n + 3 * (i - j);
      }
      DataBits(r.(bit := j + 1, buffer := Register(b, j + 1)), line, n + 3, end, b, j + 1);
    }
  }

  /** The samples the receiver takes of a frame whose start bit it sees at tick `n`. */
  predicate Samples(line: nat -> bool, n: nat, b: byte) {
    !line(n) && (forall i | 0 <= i < 8 :: line(n + 4 + 3 * i) == Bit(b, i)) && line(n + 28)
  }

  lemma FrameDecoded(r: Rx, line: nat -> bool, n: nat, end: nat, b: byte)
    requires Waiting(r) && Samples(line, n, b) && n + 29 <= end
    ensures Run(r, line, n, end) == Run(Store(r.(buffer := b)), line, n + 29, end)
  {
    var s := RecvStep(r, line(n));
    Skip(s, line, n + 1, end, 3);
    DataBits(s.(tick := 1), line, n + 4, end, b, 0);
    RegisterFull(b);
    var u := s.(tick := 1, bit := 8, buffer := b);
    assert Run(u, line, n + 28, end) == Run(RecvStep(u, line(n + 28)), line, n + 29, end);
  }

  lemma {:induction false} IdleSkipped(r: Rx, line: nat -> bool, n: nat, m: nat, end: nat)
    requires Waiting(r) && n <= m <= end && forall i | n <= i < m :: line(i)
    ensures Run(r, line, n, end) == Run(r, line, m, end)
    decreases m - n
  {
    if n < m { IdleSkipped(r, line, n + 1, m, end); }
  }

  // ----- the tolerance -----

  /** Between 29/10 and 28/9 receiver ticks per bit. */
  predicate InTolerance(T: real) {
    29.0 <= 10.0 * T && 9.0 * T <= 28.0
  }

  /** With the start bit seen less than a tick after its edge, every sample falls inside its own bit. */
  lemma SamplesInside(frames: seq<Frame>, T: real, line: nat -> bool, n: nat)
    requires InTolerance(T) && frames != [] && frames[0].start <= n as real < frames[0].start + 1.0
    requires forall i | n <= i < n + 29 :: line(i) == Level(frames, T, i as real)
    ensures Samples(line, n, frames[0].b)
  {
    var start, b := frames[0].start, frames[0].b;
    assert Slot(n as real - start, T) == 0;
    forall i | 0 <= i < 8 ensures line(n + 4 + 3 * i) == Bit(b, i) {
      var d := (n + 4 + 3 * i) as real - start;
      assert Slot(d, T) == i + 1;
    }
    assert Slot((n + 28) as real - start, T) == 9;
  }

  /** The line as the receiver sees it from tick `n` to tick `end`. */
  ghost predicate Sees(line: nat -> bool, frames: seq<Frame>, T: real, n: nat, end: nat) {
    forall i: nat | n <= i < end :: line(i) == Level(frames, T, i as real)
  }

  /** The first tick at or after time `t`. */
  function FirstTick(t: real): (n: nat)
    requires t >= 0.0
    ensures t <= n as real < t + 1.0
  {
    var f := t.Floor;
    if f as real == t then f else f + 1
  }

  /** Once a frame has been decoded, the rest of the line is that of the later frames. */
  lemma LaterFrames(frames: seq<Frame>, T: real, t: real)
    requires frames != [] && T > 0.0 && Spaced(frames, T) && t >= frames[0].start + 9.0 * T
    ensures Level(frames, T, t) == Level(frames[1..], T, t)
  {
  }

  lemma SpacedRest(frames: seq<Frame>, T: real)
    requires frames != [] && Spaced(frames, T)
    ensures Spaced(frames[1..], T)
    ensures |frames| > 1 ==> frames[0].start + 10.0 * T <= frames[1].start
  {
    assert forall i | 0 < i < |frames[1..]| :: frames[1..][i - 1] == frames[i] && frames[1..][i] == frames[i + 1];
  }

  /**
   * Any sequence of frames, back to back or with gaps, at any phase: a receiver that waits while every
   * start edge is still to come, less than a tick ago at the most, delivers exactly the bytes sent.
   */
  lemma {:induction false} DecodesFrom(r: Rx, line: nat -> bool, frames: seq<Frame>, T: real, n: nat, end: nat)
    requires InTolerance(T) && Spaced(frames, T) && Waiting(r) && n <= end
    requires frames != [] ==> n as real - 1.0 < frames[0].start && frames[0].start >= 0.0
    requires frames != [] ==> frames[|frames| - 1].start + 29.0 <= end as real
    requires Sees(line, frames, T, n, end)
    ensures Run(r, line, n, end) == Deliver(r, Payload(frames))
    decreases |frames|
  {
    if frames == [] {
      IdleSkipped(r, line, n, end, end);
    } else {
      var first, rest := frames[0], frames[1..];
      SpacedRest(frames, T);
      FirstBeforeLast(frames, T);
      var m := FirstTick(first.start);
      IdleSkipped(r, line, n, m, end);
      SamplesInside(frames, T, line, m);
      FrameDecoded(r, line, m, end, first.b);
      forall i: nat | m + 29 <= i < end ensures line(i) == Level(rest, T, i as real) {
        LaterFrames(frames, T, i as real);
      }
      DecodesFrom(Store(r.(buffer := first.b)), line, rest, T, m + 29, end);
    }
  }

  lemma {:induction false} FirstBeforeLast(frames: seq<Frame>, T: real)
    requires frames != [] && Spaced(frames, T) && T > 0.0
    ensures frames[0].start <= frames[|frames| - 1].start
    decreases |frames|
  {
    if |frames| > 1 { FirstBeforeLast(frames[..|frames| - 1], T); }
  }

  // ----- the tolerance is exact -----

  function LineOf(frames: seq<Frame>, T: real): nat -> bool {
    (i: nat) => Level(frames, T, i as real)
  }

  /** A receiver that has just started to listen. */
  const LISTENING := Rx(1, -1, 0, [], false)

  /** Frames that fit the receive ring, sampled until the last stop bit is certain to have been seen. */
  ghost predicate Transmission(frames: seq<Frame>, T: real, end: nat) {
    && frames != [] && frames[0].start >= 0.0 && Spaced(frames, T) && |frames| < SS_MAX_RX_BUFF
    && frames[|frames| - 1].start + 29.0 <= end as real
  }

  ghost predicate Decoded(frames: seq<Frame>, T: real, end: nat) {
    Run(LISTENING, LineOf(frames, T), 0, end).queue == Payload(frames)
  }

  /** Samples still to come before the next byte can be stored, at least. */
  function Need(r: Rx): int {
    if r.bit == -1 then r.tick - 1 + 29 else r.tick + 3 * (8 - r.bit)
  }

  predicate Proper(r: Rx) {
    && 1 <= r.tick && -1 <= r.bit <= 8
    && r.tick <= (if r.bit == -1 then 1 else if r.bit == 0 then 4 else 3)
  }

  /** No receiver of this kind stores more than one byte in 29 ticks. */
  lemma {:induction false} StoreRate(r: Rx, line: nat -> bool, n: nat, end: nat)
    requires Proper(r) && n <= end
    ensures var e := Run(r, line, n, end);
            Proper(e) && 29 * |e.queue| - Need(e) <= 29 * |r.queue| - Need(r) + (end - n)
    decreases end - n
  {
    if n < end { StoreRate(RecvStep(r, line(n)), line, n + 1, end); }
  }

  /** A frame whose stop sample is low is lost. */
  lemma {:induction false} LostFrame(r: Rx, line: nat -> bool, n: nat, end: nat) returns (x: byte)
    requires Waiting(r) && !line(n) && !line(n + 28) && n + 29 <= end
    ensures Run(r, line, n, end) == Run(r.(buffer := x), line, n + 29, end)
  {
    var s := RecvStep(r, line(n));
    Skip(s, line, n + 1, end, 3);
    x := AnyBits(s.(tick := 1), line, n + 4, end, 0);
    var u := s.(tick := 1, bit := 8, buffer := x);
    assert Run(u, line, n + 28, end) == Run(RecvStep(u, line(n + 28)), line, n + 29, end);
  }

  lemma {:induction false} AnyBits(r: Rx, line: nat -> bool, n: nat, end: nat, j: nat) returns (x: byte)
    requires r.tick == 1 && r.bit == j <= 8 && n + 3 * (8 - j) <= end
    ensures Run(r, line, n, end) == Run(r.(bit := 8, buffer := x), line, n + 3 * (8 - j), end)
    decreases 8 - j
  {
    if j < 8 {
      var s := RecvStep(r, line(n));
      Skip(s, line, n + 1, end, 2);
      x := AnyBits(s.(tick := 1), line, n + 3, end, j + 1);
    } else {
      x := r.buffer;
    }
  }

  lemma {:induction false} ZeroByte(i: nat)
    ensures !Bit(0, i)
  {
    if i > 0 { ZeroByte(i - 1); }
  }

  lemma ZeroFrame(k: nat)
    requires k <= 8
    ensures !FrameBit(0, k)
  {
    if k > 0 { ZeroByte(k - 1); }
  }

  /** Bits too long: the stop sample of a zero byte still falls into its last data bit. */
  lemma TooSlow(T: real) returns (frames: seq<Frame>, end: nat)
    requires 9.0 * T > 28.0
    ensures Transmission(frames, T, end) && !Decoded(frames, T, end)
  {
    frames, end := [Frame(0.0, 0)], 29;
    var line := LineOf(frames, T);
    ZeroFrame(Slot(0.0, T));
    ZeroFrame(Slot(28.0, T));
    var x := LostFrame(LISTENING, line, 0, end);
  }

  /** Bits a little short: the stop sample falls into the next frame, which follows at once. */
  lemma TooFast(T: real) returns (frames: seq<Frame>, end: nat)
    requires 1.5 <= T && 10.0 * T < 29.0
    ensures Transmission(frames, T, end) && !Decoded(frames, T, end)
  {
    var start, m := if 10.0 * T <= 28.0 then 0.0 else 29.0 - 10.0 * T, if 10.0 * T <= 28.0 then 0 else 1;
    frames := [Frame(start, 0), Frame(start + 10.0 * T, 0)];
    end := FirstTick(start + 10.0 * T + 29.0);
    var line := LineOf(frames, T);
    IdleSkipped(LISTENING, line, 0, m, end);
    ZeroFrame(Slot(m as real - start, T));
    var t := (m + 28) as real;
    assert frames[1..] == [frames[1]];
    ZeroFrame(Slot(t - frames[1].start, T));
    assert Level(frames, T, t) == Level(frames[1..], T, t) == FrameBit(0, Slot(t - frames[1].start, T));
    var x := LostFrame(LISTENING, line, m, end);
    StoreRate(LISTENING.(buffer := x), line, m + 29, end);
  }

  /** Bits much too short: five frames pass in less time than it takes to store four bytes. */
  lemma FarTooFast(T: real) returns (frames: seq<Frame>, end: nat)
    requires 0.0 < T < 1.5
    ensures Transmission(frames, T, end) && !Decoded(frames, T, end)
  {
    frames := [Frame(0.0, 0), Frame(10.0 * T, 0), Frame(20.0 * T, 0), Frame(30.0 * T, 0), Frame(40.0 * T, 0)];
    end := FirstTick(40.0 * T + 29.0);
    StoreRate(LISTENING, LineOf(frames, T), 0, end);
  }

  lemma DecodesTransmission(frames: seq<Frame>, T: real, end: nat)
    requires InTolerance(T) && Transmission(frames, T, end)
    ensures Decoded(frames, T, end)
  {
    DecodesFrom(LISTENING, LineOf(frames, T), frames, T, 0, end);
    DeliverMeaning(LISTENING, Payload(frames));
  }

  /** Every transmission is decoded, at every phase, exactly when a bit lasts between 29/10 and 28/9 ticks. */
  lemma ToleranceExactly(T: real)
    requires T > 0.0
    ensures InTolerance(T) <==> forall frames: seq<Frame>, end: nat | Transmission(frames, T, end) :: Decoded(frames, T, end)
  {
    if InTolerance(T) {
      forall frames: seq<Frame>, end: nat | Transmission(frames, T, end) ensures Decoded(frames, T, end) {
        DecodesTransmission(frames, T, end);
      }
    } else if 9.0 * T > 28.0 {
      var frames, end := TooSlow(T);
    } else if T >= 1.5 {
      var frames, end := TooFast(T);
    } else {
      var frames, end := FarTooFast(T);
    }
  }
}
