/** `SoftwareSerial`: one port, driven by its timer interrupt. */
module SoftwareSerials {
  import opened Bytes
  import opened Numerals
  import opened SoftReceiver
  import opened SoftSender
  import SoftLink

  class SoftwareSerial {
    const inverseLogic: bool
    const halfDuplex: bool
    const receiveBuffer: array<byte>
    var bufferTail: nat
    var bufferHead: nat
    var bufferOverflow: bool
    var outputPending: bool
    var activeListener: bool
    var activeOut: bool
    var activeIn: bool
    var txTickCnt: int
    var txBuffer: nat
    var txBitCnt: int
    var rxTickCnt: int
    var rxBuffer: byte
    var rxBitCnt: int
    /** The level driven on the transmit pin. */
    var txPin: bool

    /** The transmit pin after every tick so far, and how it is made up. */
    var trace: seq<bool>
    ghost var bursts: seq<Burst>
    ghost var gap: nat
    ghost var current: byte

    function TxState(): Tx
      reads this
    {
      Tx(txTickCnt, txBitCnt, txBuffer, activeOut, txPin)
    }

    predicate RingOk()
      reads this`bufferTail, this`bufferHead
    {
      receiveBuffer.Length == SS_MAX_RX_BUFF && bufferTail < SS_MAX_RX_BUFF && bufferHead < SS_MAX_RX_BUFF
    }

    function Received(): seq<byte>
      requires RingOk()
      reads this`bufferTail, this`bufferHead, receiveBuffer
    {
      if bufferTail >= bufferHead then receiveBuffer[bufferHead..bufferTail]
      else receiveBuffer[bufferHead..] + receiveBuffer[..bufferTail]
    }

    function RxState(): Rx
      requires RingOk()
      reads this, receiveBuffer
    {
      Rx(rxTickCnt, rxBitCnt, rxBuffer, Received(), bufferOverflow)
    }

    ghost predicate Valid()
      reads this
      ensures Valid() ==> RingOk()
    {
      && RingOk() && TxInv(TxState(), inverseLogic, trace, bursts, gap, current)
      && (halfDuplex && activeOut ==> !activeIn)
    }

    /** The bytes accepted so far, the one on its way included. */
    ghost function Sent(): seq<byte>
      reads this
    {
      BytesOf(bursts) + if activeOut && txBitCnt <= 10 then [current] else []
    }

    /** Constructor and `begin` of a port that listens: the line is idle, the receiver waits. */
    constructor (inverseLogic: bool, halfDuplex: bool)
      ensures Valid() && Sent() == [] && trace == [] && !activeOut && RxState() == LISTENING
      ensures this.inverseLogic == inverseLogic && this.halfDuplex == halfDuplex && activeIn && fresh(receiveBuffer)
    {
      this.inverseLogic, this.halfDuplex := inverseLogic, halfDuplex;
      receiveBuffer := new byte[SS_MAX_RX_BUFF];
      bufferTail, bufferHead, bufferOverflow := 0, 0, false;
      outputPending, activeListener, activeOut, activeIn := false, true, false, true;
      txTickCnt, txBuffer, txBitCnt := 0, 0, 0;
      rxTickCnt, rxBuffer, rxBitCnt := 1, 0, -1;
      txPin := !inverseLogic;
      trace, bursts, gap, current := [], [], 0, 0;
      new;
      assert Wave([]) + Idle(0) + FrameLevels(0)[..0] == [];
    }

    // ----- the interrupt -----

    /** In half-duplex mode, the tick that ends the switch delay turns a port that listened before back to receiving. */
    predicate TurnsBack()
      reads this
    {
      halfDuplex && activeListener && DelayOver(TxState(), outputPending)
    }

    method SetRXTX(input: bool)
      modifies this`rxBitCnt, this`rxTickCnt, this`activeIn, this`txPin
      ensures txPin == if halfDuplex && !input && old(activeIn) then !inverseLogic else old(txPin)
      ensures !halfDuplex ==> activeIn == old(activeIn)
      ensures rxBitCnt == if halfDuplex && input && !old(activeIn) then -1 else old(rxBitCnt)
      ensures rxTickCnt == if halfDuplex && input && !old(activeIn) then 2 else old(rxTickCnt)
      ensures halfDuplex ==> activeIn == input
    {
      if halfDuplex {
        if input {
          if !activeIn {
            rxBitCnt := -1;
            rxTickCnt := 2;
            activeIn := true;
          }
        } else {
          if activeIn {
            txPin := !inverseLogic;
            activeIn := false;
          }
        }
      }
    }

    method Send()
      requires activeOut
      modifies this`txTickCnt, this`txBitCnt, this`txBuffer, this`activeOut, this`txPin, this`rxBitCnt, this`rxTickCnt, this`activeIn
      ensures TxState() == SendStep(old(TxState()), outputPending)
      ensures activeIn == (old(activeIn) || old(TurnsBack()))
      ensures rxBitCnt == if activeIn && !old(activeIn) then -1 else old(rxBitCnt)
      ensures rxTickCnt == if activeIn && !old(activeIn) then 2 else old(rxTickCnt)
    {
      txTickCnt := txTickCnt - 1;
      if txTickCnt <= 0 {
        txBitCnt := txBitCnt + 1;
        if txBitCnt - 1 < 10 {
          txPin := txBuffer % 2 == 1;
          txBuffer := txBuffer / 2;
          txTickCnt := OVERSAMPLE;
        } else {
          txTickCnt := 1;
          if outputPending {
            activeOut := false;
          } else if txBitCnt > 10 + OVERSAMPLE * HALFDUPLEX_SWITCH_DELAY {
            if halfDuplex && activeListener {
              SetRXTX(true);
            }
            activeOut := false;
          }
        }
      }
    }

    method Recv(pin: bool)
      requires RingOk()
      modifies this`rxTickCnt, this`rxBitCnt, this`rxBuffer, this`bufferTail, this`bufferOverflow, receiveBuffer
      ensures RingOk() && RxState() == RecvStep(old(RxState()), pin != inverseLogic)
    {
      rxTickCnt := rxTickCnt - 1;
      if rxTickCnt <= 0 {
        var inbit := pin != inverseLogic;
        if rxBitCnt == -1 {
          if !inbit {
            rxBitCnt := 0;
            rxTickCnt := OVERSAMPLE + 1;
            rxBuffer := 0;
          } else {
            rxTickCnt := 1;
          }
        } else if rxBitCnt >= 8 {
          if inbit {
            StoreByte();
          }
          rxTickCnt := 1;
          rxBitCnt := -1;
        } else {
          rxBuffer := rxBuffer / 2 + if inbit then 0x80 else 0;
          rxBitCnt := rxBitCnt + 1;
          rxTickCnt := OVERSAMPLE;
        }
      }
    }

    method StoreByte()
      requires RingOk()
      modifies this`bufferTail, this`bufferOverflow, receiveBuffer
      ensures RingOk() && RxState() == Store(old(RxState()))
    {
      var next := (bufferTail + 1) % SS_MAX_RX_BUFF;
      assert next == if bufferTail == SS_MAX_RX_BUFF - 1 then 0 else bufferTail + 1;
      ghost var was := Received();
      if next != bufferHead {
        receiveBuffer[bufferTail] := rxBuffer;
        bufferTail := next;
        assert Received() == was + [rxBuffer];
      } else {
        bufferOverflow := true;
      }
    }

    /** The second half of the interrupt: `if (active_out) active_out->send();`, and the tick on record. */
    method SendTick()
      requires Valid()
      modifies this`txTickCnt, this`txBitCnt, this`txBuffer, this`activeOut, this`txPin, this`activeIn
      modifies this`rxTickCnt, this`rxBitCnt, this`trace, this`bursts, this`gap
      ensures Valid() && TxState() == TxTick(old(TxState()), outputPending)
      ensures trace == old(trace) + [txPin] && Sent() == old(Sent())
      ensures activeIn == (old(activeIn) || old(TurnsBack()))
      ensures rxBitCnt == if activeIn && !old(activeIn) then -1 else old(rxBitCnt)
      ensures rxTickCnt == if activeIn && !old(activeIn) then 2 else old(rxTickCnt)
    {
      hide TxInv, BytesOf, Wave, SendStep;
      ghost var t := TxState();
      if activeOut {
        Send();
      }
      DelayReleases(t, outputPending);
      Record(t);
    }

    /** The tick that has led from `t` to the present state goes on record. */
    method Record(ghost t: Tx)
      requires RingOk() && TxInv(t, inverseLogic, trace, bursts, gap, current) && TxState() == TxTick(t, outputPending)
      requires halfDuplex && activeOut ==> !activeIn
      modifies this`trace, this`bursts, this`gap
      ensures Valid() && trace == old(trace) + [txPin]
      ensures Sent() == BytesOf(old(bursts)) + if t.active && t.bit <= 10 then [current] else []
    {
      hide TxInv, BytesOf, Wave;
      ghost var bursts', gap' := TickKeeps(t, outputPending, inverseLogic, trace, bursts, gap, current);
      if bursts' != bursts { WaveAppend(bursts, Burst(gap, current)); }
      bursts, gap, trace := bursts', gap', trace + [txPin];
    }

    /** `handleInterrupt()`, with the level found on the receive pin. */
    method HandleInterrupt(pin: bool)
      requires Valid()
      modifies this`txTickCnt, this`txBitCnt, this`txBuffer, this`activeOut, this`txPin, this`activeIn
      modifies this`rxTickCnt, this`rxBitCnt, this`rxBuffer, this`bufferTail, this`bufferOverflow, receiveBuffer
      modifies this`trace, this`bursts, this`gap
      ensures Valid() && TxState() == TxTick(old(TxState()), outputPending)
      ensures trace == old(trace) + [txPin] && Sent() == old(Sent())
      ensures activeIn == (old(activeIn) || old(TurnsBack()))
      ensures RxState() ==
        if old(activeIn) then RecvStep(old(RxState()), pin != inverseLogic)
        else if activeIn then old(RxState()).(bit := -1, tick := 2)
        else old(RxState())
      ensures halfDuplex && old(activeOut) ==> Received() == old(Received()) && bufferOverflow == old(bufferOverflow)
    {
      hide TxInv, BytesOf, RecvStep, Received, TxTick;
      if activeIn {
        Recv(pin);
      }
      SendTick();
    }

    /** Timer ticks that pass between two steps of the caller, with whatever arrives meanwhile. */
    method Ticks()
      requires Valid()
      modifies this`txTickCnt, this`txBitCnt, this`txBuffer, this`activeOut, this`txPin, this`activeIn
      modifies this`rxTickCnt, this`rxBitCnt, this`rxBuffer, this`bufferTail, this`bufferOverflow, receiveBuffer
      modifies this`trace, this`bursts, this`gap
      ensures Valid() && Sent() == old(Sent()) && old(trace) <= trace
      ensures !old(activeOut) ==> TxState() == old(TxState())
    {
      var n: nat :| n >= 0;
      for i := 0 to n
        invariant Valid() && Sent() == old(Sent()) && old(trace) <= trace
        invariant !old(activeOut) ==> TxState() == old(TxState())
      {
        var pin: bool := *;
        HandleInterrupt(pin);
      }
    }

    // ----- the caller -----

    /** `while (active_out);`, for at most the rest of a frame and, with no write waiting, the switch delay. */
    method WaitForTransmitter() returns (ghost waited: nat)
      requires Valid()
      modifies this`txTickCnt, this`txBitCnt, this`txBuffer, this`activeOut, this`txPin, this`activeIn
      modifies this`rxTickCnt, this`rxBitCnt, this`rxBuffer, this`bufferTail, this`bufferOverflow, receiveBuffer
      modifies this`trace, this`bursts, this`gap
      ensures Valid() && Sent() == old(Sent()) && old(trace) <= trace && !activeOut
      ensures halfDuplex ==> Received() == old(Received()) && bufferOverflow == old(bufferOverflow)
      ensures |trace| == |old(trace)| + waited && waited <= if outputPending then 33 else 49
    {
      hide TxInv, TxTick, BytesOf, Received, Remaining;
      waited := 0;
      RemainingAtMost(TxState(), outputPending, inverseLogic, trace, bursts, gap, current);
      while activeOut
        invariant |trace| == |old(trace)| + waited && Remaining(TxState(), outputPending) >= 0
        invariant waited + Remaining(TxState(), outputPending) <= if outputPending then 33 else 49
        invariant Valid() && Sent() == old(Sent()) && old(trace) <= trace
        invariant halfDuplex ==> Received() == old(Received()) && bufferOverflow == old(bufferOverflow)
        decreases Remaining(TxState(), outputPending)
      {
        RemainingShrinks(TxState(), outputPending, inverseLogic, trace, bursts, gap, current);
        var pin: bool := *;
        HandleInterrupt(pin);
        waited := waited + 1;
      }
    }

    /** Register and counters. */
    method LoadRegister(b: byte)
      requires Valid() && !activeOut
      modifies this`txBuffer, this`txBitCnt, this`txTickCnt
      ensures Valid() && TxState() == Start(old(TxState()), b, inverseLogic).(active := false)
    {
      hide TxInv, Encoded, Wave;
      StartKeeps(TxState(), b, inverseLogic, trace, bursts, gap, current);
      txBuffer := Encoded(b, inverseLogic);
      txBitCnt := 0;
      txTickCnt := OVERSAMPLE;
    }

    /** "make us active" */
    method Activate(b: byte)
      requires Valid() && !activeOut && TxState() == Start(TxState(), b, inverseLogic).(active := false)
      modifies this`rxBitCnt, this`rxTickCnt, this`activeIn, this`txPin, this`outputPending, this`activeOut, this`current
      ensures Valid() && Sent() == old(Sent()) + [b] && activeOut && !outputPending
    {
      hide TxInv, BytesOf, Encoded, Wave;
      StartKeeps(TxState(), b, inverseLogic, trace, bursts, gap, current);
      if halfDuplex {
        SetRXTX(false);
      }
      outputPending := false;
      activeOut := true;
      current := b;
    }

    method StartByte(b: byte)
      requires Valid() && !activeOut
      modifies this, receiveBuffer
      ensures Valid() && Sent() == old(Sent()) + [b] && old(trace) <= trace && activeOut && !outputPending
    {
      hide TxInv, BytesOf, Encoded, Wave, TxTick, Received;
      Ticks();
      LoadRegister(b);
      Ticks();
      Activate(b);
    }

    /** A write waits for the rest of the running frame at most: it announces itself, and so cuts the switch delay short. */
    method Write(b: byte) returns (n: nat, ghost waited: nat)
      requires Valid()
      modifies this, receiveBuffer
      ensures Valid() && n == 1 && activeOut && !outputPending && (halfDuplex ==> !activeIn)
      ensures waited <= 33
      ensures Sent() == old(Sent()) + [b] && old(trace) <= trace
    {
      outputPending := true;
      waited := WaitForTransmitter();
      StartByte(b);
      n := 1;
    }

    /** Any sequence of writes, and the time to send the last byte: the trace is their frames and idle time. */
    method WriteAll(bs: seq<byte>)
      requires Valid()
      modifies this, receiveBuffer
      ensures Valid() && !activeOut && Sent() == BytesOf(bursts) == old(Sent()) + bs
      ensures old(trace) <= trace && Driven(trace, Wave(bursts) + Idle(gap), inverseLogic)
    {
      hide TxInv, BytesOf;
      for i := 0 to |bs|
        invariant Valid() && Sent() == old(Sent()) + bs[..i] && old(trace) <= trace
      {
        assert bs[..i + 1] == bs[..i] + [bs[i]];
        var _, _ := Write(bs[i]);
      }
      assert bs[..|bs|] == bs;
      var _ := WaitForTransmitter();
      ReleasedIsWhole(TxState(), inverseLogic, trace, bursts, gap, current);
    }

    method Read() returns (d: int)
      requires RingOk()
      modifies this`bufferHead
      ensures RingOk()
      ensures old(Received()) == [] ==> d == -1 && Received() == []
      ensures old(Received()) != [] ==> d == old(Received())[0] && Received() == old(Received())[1..]
    {
      if bufferHead == bufferTail {
        return -1;
      }
      d := receiveBuffer[bufferHead];
      assert (bufferHead + 1) % SS_MAX_RX_BUFF == if bufferHead == SS_MAX_RX_BUFF - 1 then 0 else bufferHead + 1;
      bufferHead := (bufferHead + 1) % SS_MAX_RX_BUFF;
    }
  }

  /** Ticks of a port in full-duplex mode, with the logical level of its receive pin at each. */
  method Listen(port: SoftwareSerial, line: nat -> bool, n: nat)
    requires port.Valid() && port.activeIn
    requires !port.halfDuplex
    modifies port, port.receiveBuffer
    ensures port.Valid() && port.RxState() == Run(old(port.RxState()), line, 0, n)
  {
    hide SoftwareSerial.Valid, SoftwareSerial.Received, RecvStep;
    ghost var start := port.RxState();
    for i := 0 to n
      invariant port.Valid() && port.activeIn
      invariant Run(start, line, 0, n) == Run(port.RxState(), line, i, n)
    {
      port.HandleInterrupt(line(i) != port.inverseLogic);
    }
  }

  /**
   * Round trip between two ports. One writes any bytes that fit a receive ring; the other listens to its pin,
   * with a tick of its own and at any phase, until long enough after the last tick of the first. Inside the
   * tolerance, the second one ends with exactly those bytes.
   */
  method WriteThenReceive(bs: seq<byte>, inverse: bool, halfDuplex: bool, tau: real, at: real, extra: nat)
    returns (sender: SoftwareSerial, receiver: SoftwareSerial)
    requires |bs| < SS_MAX_RX_BUFF && tau > 0.0 && InTolerance(3.0 * tau) && at >= 0.0
    ensures fresh(sender) && sender.Sent() == bs && sender.inverseLogic == inverse && sender.halfDuplex == halfDuplex
    ensures fresh(receiver) && receiver != sender && receiver.inverseLogic == inverse
    ensures receiver.RingOk() && receiver.Received() == bs
  {
    hide *;
    sender := new SoftwareSerial(inverse, halfDuplex);
    sender.WriteAll(bs);
    FramesOnly(sender.trace, sender.bursts, sender.gap, inverse);
    var line := SoftLink.Wire(sender.trace, inverse, tau, at);
    SoftLink.TimesMonotone(0, |sender.trace|, tau);
    SoftLink.TimesMonotone(|Wave(sender.bursts)|, |sender.trace|, tau);
    SoftLink.TimesConst(tau);
    var n: nat := FirstTick(at + SoftLink.Times(|sender.trace|, tau) + 29.0) + extra;
    receiver := new SoftwareSerial(inverse, false);
    Listen(receiver, line, n);
    SoftLink.SendThenReceive(sender.trace, sender.bursts, sender.gap, inverse, tau, at, n);
    ReceivedAll(receiver);
  }

  lemma ReceivedAll(port: SoftwareSerial)
    requires port.Valid()
    ensures port.RingOk() && port.Received() == port.RxState().queue
  {
  }

  lemma FramesOnly(trace: seq<bool>, bursts: seq<Burst>, gap: nat, inverse: bool)
    requires Driven(trace, Wave(bursts) + Idle(gap), inverse)
    ensures |Wave(bursts)| <= |trace|
  {
  }

  // ----- the divider search of `setSpeed` -----

  /** The largest compare value plus one. */
  const UINT16_MAX := 0xFFFF

  /** `speed * OVERSAMPLE` as a 32-bit product. It can wrap, but never to zero. */
  function TickRate(speed: uint32): (d: uint32)
    ensures speed != 0 ==> d > 0
    ensures OVERSAMPLE * speed < 0x1_0000_0000 ==> d == OVERSAMPLE * speed && (speed != 0 ==> d >= 3)
    ensures (OVERSAMPLE * speed - d) % 0x1_0000_0000 == 0
  {
    OVERSAMPLE * speed % 0x1_0000_0000
  }

  lemma Halving(clock: nat, rate: nat, pre: nat)
    requires rate * pre <= clock < (rate + 1) * pre
    ensures rate / 2 * (pre * 2) <= clock < (rate / 2 + 1) * (pre * 2)
  {
    var h := rate / 2;
    Monotone(2 * h, rate, pre);
    Monotone(rate + 1, 2 * h + 2, pre);
    Double(h, pre);
    Double(h + 1, pre);
  }

  lemma Double(h: nat, pre: nat)
    ensures h * (pre * 2) == 2 * h * pre
  {
  }

  lemma CompareBounds(clock: nat, rate: nat, pre: nat, d: nat, cmp: nat)
    requires d > 0 && cmp == rate / d && rate * pre <= clock < (rate + 1) * pre
    ensures cmp * d * pre <= clock < (cmp + 1) * d * pre
    ensures cmp * d <= rate
  {
    Quotient(rate, d);
    Monotone(cmp * d, rate, pre);
    Monotone(rate + 1, (cmp + 1) * d, pre);
  }

  lemma Quotient(rate: nat, d: nat)
    requires d > 0
    ensures rate / d * d <= rate < (rate / d + 1) * d
  {
    assert rate == rate / d * d + rate % d;
  }

  /** A compare value that is still too large leaves room for another halving. */
  lemma PrescalerRoom(clock: uint32, rate: nat, pre: nat, d: nat, cmp: nat)
    requires d > 0 && cmp >= UINT16_MAX && cmp * d <= rate && rate * pre <= clock
    ensures pre <= 0x1_0001 && (d >= 3 ==> pre <= 21845)
  {
    Monotone(UINT16_MAX, cmp, d);
    Monotone(UINT16_MAX * d, rate, pre);
    if d >= 3 {
      Monotone(3 * UINT16_MAX, UINT16_MAX * d, pre);
    } else {
      Monotone(UINT16_MAX, UINT16_MAX * d, pre);
    }
  }

  lemma {:induction false} ExponentBelow(k: nat, n: nat)
    requires Pow(2, k) < Pow(2, n + 1)
    ensures k <= n
    decreases k
  {
    if k > 0 && n > 0 { ExponentBelow(k - 1, n - 1); } else if k > 0 { PowPositive(2, k - 1); }
  }

  /**
   * Prescaler `pre` and compare value `cmp` for tick rate `d`: the compare value fits 16 bits, and a smaller one
   * would be too fast, while it is not too fast itself. With half the prescaler it would not fit.
   */
  predicate Divides(clock: nat, d: nat, pre: nat, cmp: nat) {
    && cmp < UINT16_MAX
    && cmp * d * pre <= clock < (cmp + 1) * d * pre
    && (pre > 1 ==> cmp >= UINT16_MAX / 2 && UINT16_MAX * d * (pre / 2) <= clock)
  }

  /** The search for them; the prescaler is a power of two. */
  method SetSpeed(timerClock: uint32, speed: uint32) returns (pre: nat, cmp: nat, ghost k: nat)
    requires speed != 0
    ensures pre == Pow(2, k) && k <= 17
    ensures OVERSAMPLE * speed < 0x1_0000_0000 ==> k <= 15
    ensures Divides(timerClock, TickRate(speed), pre, cmp)
  {
    hide *;
    var clockRate: nat := timerClock;
    k, pre := 0, 1;
    var d: nat := TickRate(speed);
    SearchStarts(timerClock, d);
    while true
      invariant pre == Pow(2, k) && Searching(timerClock, clockRate, pre, d)
      decreases clockRate
    {
      cmp := clockRate / d;
      if cmp >= UINT16_MAX {
        SearchGoesOn(timerClock, clockRate, pre, d, cmp);
        PowNext(k);
        clockRate := clockRate / 2;
        pre := pre * 2;
        k := k + 1;
      }
      if cmp < UINT16_MAX { break; }
    }
    SearchEnds(timerClock, clockRate, pre, d, cmp);
    ExponentBounds(timerClock, clockRate, pre, d, k);
  }

  lemma PowNext(k: nat)
    ensures Pow(2, k + 1) == Pow(2, k) * 2
  {
  }

  /** The divided clock rate, and why the prescaler is as large as it is. */
  ghost predicate Searching(clock: nat, rate: nat, pre: nat, d: nat) {
    && 1 <= pre <= 0x2_0002 && (d >= 3 ==> pre <= 43690)
    && rate * pre <= clock < (rate + 1) * pre
    && (pre > 1 ==> rate >= UINT16_MAX / 2 * d && UINT16_MAX * d * (pre / 2) <= clock)
  }

  lemma SearchStarts(clock: nat, d: nat)
    ensures Pow(2, 0) == 1 && Searching(clock, clock, 1, d)
  {
  }

  lemma SearchGoesOn(clock: uint32, rate: nat, pre: nat, d: nat, cmp: nat)
    requires d > 0 && Searching(clock, rate, pre, d) && cmp == rate / d && cmp >= UINT16_MAX
    ensures Searching(clock, rate / 2, pre * 2, d) && rate / 2 < rate
  {
    CompareBounds(clock, rate, pre, d, cmp);
    PrescalerRoom(clock, rate, pre, d, cmp);
    Halving(clock, rate, pre);
    HalfStays(rate, d, cmp);
    StillTooLarge(clock, pre, d, cmp);
  }

  lemma SearchEnds(clock: uint32, rate: nat, pre: nat, d: nat, cmp: nat)
    requires d > 0 && Searching(clock, rate, pre, d) && cmp == rate / d && cmp < UINT16_MAX
    ensures Divides(clock, d, pre, cmp)
  {
    CompareBounds(clock, rate, pre, d, cmp);
    if pre > 1 { AtLeast(rate, d, cmp); }
  }

  lemma ExponentBounds(clock: uint32, rate: nat, pre: nat, d: nat, k: nat)
    requires Searching(clock, rate, pre, d) && pre == Pow(2, k)
    ensures k <= 17 && (d >= 3 ==> k <= 15)
  {
    PowersOfTwo();
    ExponentBelow(k, 17);
    if d >= 3 { ExponentBelow(k, 15); }
  }

  /** Before the halving, the compare value did not fit: this prescaler would not do. */
  lemma StillTooLarge(clock: nat, pre: nat, d: nat, cmp: nat)
    requires cmp >= UINT16_MAX && cmp * d * pre <= clock
    ensures UINT16_MAX * d * pre <= clock && pre * 2 / 2 == pre
  {
    Monotone(UINT16_MAX, cmp, d);
    Monotone(UINT16_MAX * d, cmp * d, pre);
  }

  lemma HalfStays(rate: nat, d: nat, cmp: nat)
    requires cmp >= UINT16_MAX && cmp * d <= rate && d > 0
    ensures rate / 2 >= UINT16_MAX / 2 * d && rate / 2 < rate
  {
    Monotone(UINT16_MAX, cmp, d);
    assert UINT16_MAX * d >= 2 * (UINT16_MAX / 2 * d);
    Monotone(1, d, UINT16_MAX);
  }

  lemma AtLeast(rate: nat, d: nat, cmp: nat)
    requires d > 0 && cmp == rate / d && rate >= UINT16_MAX / 2 * d
    ensures cmp >= UINT16_MAX / 2
  {
    Quotient(rate, d);
    Below(UINT16_MAX / 2, cmp + 1, d);
  }

  lemma PowersOfTwo()
    ensures Pow(2, 16) == 0x1_0000 && Pow(2, 18) == 0x4_0000
  {
    assert Pow(2, 4) == 16;
    assert Pow(2, 8) == 256;
    assert Pow(2, 12) == 4096;
    assert Pow(2, 16) == 0x1_0000;
  }
}
