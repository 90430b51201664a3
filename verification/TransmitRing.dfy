/**
 * The transmit ring of `HardwareSerial` and the UART that empties it, as a state machine on values.
 *
 * The hardware side has one step at a time to make: send the next byte of the running transfer or,
 * when all are sent, run the completion interrupt. How many steps it makes between two steps of the
 * thread is arbitrary; `Hw(u, n)` is the state after `n` of them.
 */
module TransmitRing {
  import opened Bytes
  import opened Sequences

  /**
   * `active` is what `serial_tx_active` reports and `sent` counts the bytes of the running transfer
   * that have left; `wire` is everything that has left since the start.
   */
  datatype Uart = Uart(buff: seq<byte>, head: nat, tail: nat, txSize: nat, active: bool, sent: nat, wire: seq<byte>)

  /** `x % n` for `x` below `2n`. */
  function Wrap(x: nat, n: nat): (r: nat)
    requires x < 2 * n
    ensures r < n && (r == x || r + n == x)
  {
    if x < n then x else x - n
  }

  lemma WrapIsMod(x: nat, n: nat)
    requires x < 2 * n
    ensures x % n == Wrap(x, n)
  {
  }

  predicate WellFormed(u: Uart) {
    |u.buff| >= 2 && u.head < |u.buff| && u.tail < |u.buff| && u.txSize <= |u.buff| && u.sent <= |u.wire|
  }

  /** How many bytes lie between tail and head. */
  function Count(head: nat, tail: nat, n: nat): nat
    requires head < n && tail < n
  {
    if head >= tail then head - tail else n + head - tail
  }

  /** Ring contents from tail to head. */
  function Queued(u: Uart): (q: seq<byte>)
    requires WellFormed(u)
    ensures |q| == Count(u.head, u.tail, |u.buff|) < |u.buff|
  {
    if u.head >= u.tail then u.buff[u.tail..u.head] else u.buff[u.tail..] + u.buff[..u.head]
  }

  function Free(u: Uart): nat
    requires WellFormed(u)
  {
    |u.buff| - 1 - Count(u.head, u.tail, |u.buff|)
  }

  /** One place stays empty, and every other one that holds no queued byte is free. */
  lemma FreeExactly(u: Uart, k: nat)
    requires WellFormed(u)
    ensures k <= Free(u) <==> |Queued(u)| + k < |u.buff|
  {
  }

  // ----- the hardware -----

  /** `uart_attach_tx_callback`: starts sending `size` bytes from the tail; nothing for size 0 or while busy. */
  function Attach(u: Uart, size: nat): Uart {
    if u.active || size == 0 then u else u.(active := true, sent := 0)
  }

  /** The next byte of the transfer. Past the end of the buffer the line carries whatever is stored there. */
  function Emit(u: Uart): Uart {
    var at := u.tail + u.sent;
    u.(wire := u.wire + [if at < |u.buff| then u.buff[at] else 0], sent := u.sent + 1)
  }

  /** `_tx_complete_irq`. */
  function TxComplete(u: Uart): (v: Uart)
    requires WellFormed(u)
    ensures WellFormed(v)
  {
    var t := u.(tail := Wrap(u.tail + u.txSize, |u.buff|), active := false, sent := 0);
    if t.head != t.tail then
      var remaining := Wrap(|u.buff| + t.head - t.tail, |u.buff|);
      var size := if remaining < |u.buff| - t.tail then remaining else |u.buff| - t.tail;
      Attach(t.(txSize := size), size)
    else t
  }

  function HwStep(u: Uart): (v: Uart)
    requires WellFormed(u)
    ensures WellFormed(v)
  {
    if !u.active then u else if u.sent < u.txSize then Emit(u) else TxComplete(u)
  }

  function Hw(u: Uart, n: nat): (v: Uart)
    requires WellFormed(u)
    ensures WellFormed(v)
  {
    if n == 0 then u else HwStep(Hw(u, n - 1))
  }

  // ----- what holds between steps -----

  /** Bytes of finished transfers, then the ring contents: in order, everything `write` has committed. */
  ghost predicate Conserved(u: Uart, committed: seq<byte>)
    requires WellFormed(u)
  {
    u.wire[..|u.wire| - u.sent] + Queued(u) == committed
  }

  /** The running transfer is a stretch of queued bytes that does not pass the end of the buffer. */
  ghost predicate InFlight(u: Uart)
    requires WellFormed(u)
  {
    if u.active then
      && 0 < u.txSize <= |Queued(u)| && u.tail + u.txSize <= |u.buff| && u.sent <= u.txSize
      && u.wire[|u.wire| - u.sent..] == u.buff[u.tail..u.tail + u.sent]
    else u.sent == 0
  }

  /** Nothing waits without a transfer running. */
  predicate NoStall(u: Uart) {
    u.head != u.tail ==> u.active
  }

  ghost predicate Inv(u: Uart, committed: seq<byte>)
    ensures Inv(u, committed) ==> WellFormed(u) && NoStall(u)
  {
    WellFormed(u) && Conserved(u, committed) && InFlight(u) && NoStall(u)
  }

  // ----- hardware steps keep it -----

  lemma EmitKeeps(u: Uart, committed: seq<byte>)
    requires Inv(u, committed) && u.active && u.sent < u.txSize
    ensures Inv(Emit(u), committed) && Queued(Emit(u)) == Queued(u)
  {
    var v := Emit(u);
    assert v.wire[..|v.wire| - v.sent] == u.wire[..|u.wire| - u.sent];
    assert v.wire[|v.wire| - v.sent..] == u.wire[|u.wire| - u.sent..] + [u.buff[u.tail + u.sent]];
    assert u.buff[u.tail..u.tail + v.sent] == u.buff[u.tail..u.tail + u.sent] + [u.buff[u.tail + u.sent]];
  }

  /** The stretch in flight is the front of the queue. */
  lemma FrontOfQueue(u: Uart, k: nat)
    requires WellFormed(u) && k <= |Queued(u)| && u.tail + k <= |u.buff|
    ensures Queued(u)[..k] == u.buff[u.tail..u.tail + k]
  {
  }

  lemma TailMoves(u: Uart, k: nat, v: Uart)
    requires WellFormed(u) && k <= |Queued(u)| && u.tail + k <= |u.buff|
    requires WellFormed(v) && v.buff == u.buff && v.head == u.head && v.tail == Wrap(u.tail + k, |u.buff|)
    ensures Queued(v) == Queued(u)[k..]
  {
  }

  /** The bytes of a finished transfer go from the queue to the wire. */
  lemma FinishedBytes(u: Uart, committed: seq<byte>)
    requires Inv(u, committed) && u.active && u.sent == u.txSize
    ensures u.wire + Queued(u)[u.txSize..] == committed
  {
    FrontOfQueue(u, u.txSize);
    var done, q := u.wire[..|u.wire| - u.sent], Queued(u);
    assert u.wire == done + q[..u.txSize];
    Associate(done, q[..u.txSize], q[u.txSize..]);
    assert q == q[..u.txSize] + q[u.txSize..];
  }

  lemma CompleteKeeps(u: Uart, committed: seq<byte>)
    requires Inv(u, committed) && u.active && u.sent == u.txSize
    ensures Inv(TxComplete(u), committed)
    ensures Queued(TxComplete(u)) == Queued(u)[u.txSize..]
  {
    hide Queued;
    var v := TxComplete(u);
    TailMoves(u, u.txSize, v);
    FinishedBytes(u, committed);
    assert v.wire[..|v.wire| - v.sent] == u.wire;
  }

  /** What an arbitrary number of hardware steps does, and does not do. */
  ghost predicate Progressed(u: Uart, v: Uart)
    requires WellFormed(u) && WellFormed(v)
  {
    && v.buff == u.buff && v.head == u.head && u.wire <= v.wire
    && Free(u) <= Free(v) && Work(v) <= Work(u)
    && (!u.active ==> v == u)
  }

  /** Steps the hardware has left, at most. */
  function Work(u: Uart): int
    requires WellFormed(u)
  {
    2 * Count(u.head, u.tail, |u.buff|) - u.sent
  }

  lemma StepKeeps(u: Uart, committed: seq<byte>)
    requires Inv(u, committed)
    ensures Inv(HwStep(u), committed) && Progressed(u, HwStep(u))
    ensures u.active ==> Work(HwStep(u)) < Work(u)
  {
    if u.active {
      if u.sent < u.txSize { EmitKeeps(u, committed); } else { CompleteKeeps(u, committed); }
    }
  }

  lemma {:induction false} HwKeeps(u: Uart, committed: seq<byte>, n: nat)
    requires Inv(u, committed)
    ensures Inv(Hw(u, n), committed) && Progressed(u, Hw(u, n))
    ensures n > 0 && u.active ==> Work(Hw(u, n)) < Work(u)
  {
    if n > 0 {
      HwKeeps(u, committed, n - 1);
      StepKeeps(Hw(u, n - 1), committed);
    }
  }

  /** Nothing on the wire that was not committed, in order. */
  lemma WireIsPrefix(u: Uart, committed: seq<byte>)
    requires Inv(u, committed)
    ensures u.wire <= committed
    ensures u.head == u.tail ==> u.wire == committed
  {
    if u.active {
      FrontOfQueue(u, u.sent);
      assert u.wire == u.wire[..|u.wire| - u.sent] + Queued(u)[..u.sent];
    }
    assert committed[..|u.wire|] == u.wire;
  }

  /** Left alone, the hardware sends everything: no stall. */
  lemma {:induction false} Drains(u: Uart, committed: seq<byte>) returns (n: nat)
    requires Inv(u, committed)
    ensures Hw(u, n).wire == committed && !Hw(u, n).active && n <= Work(u)
    decreases Work(u)
  {
    if u.active {
      StepKeeps(u, committed);
      n := Drains(HwStep(u), committed);
      HwAfterStep(u, n);
      n := n + 1;
    } else {
      WireIsPrefix(u, committed);
      n := 0;
    }
  }

  lemma {:induction false} HwAfterStep(u: Uart, n: nat)
    requires WellFormed(u)
    ensures Hw(u, n + 1) == Hw(HwStep(u), n)
  {
    if n > 0 { HwAfterStep(u, n - 1); }
  }

  // ----- the thread -----

  /** Position `i` is not queued: it is one of the free places from the head on. */
  predicate IsFree(u: Uart, i: nat)
    requires WellFormed(u)
  {
    u.head <= i < |u.buff| && i - u.head < Free(u)
  }

  /** One byte of the `memcpy`: it lands outside the queue, so outside any transfer in flight. */
  lemma PokeKeeps(u: Uart, committed: seq<byte>, i: nat, c: byte)
    requires Inv(u, committed) && IsFree(u, i)
    ensures var v := u.(buff := u.buff[i := c]); Inv(v, committed) && Queued(v) == Queued(u)
  {
    var v := u.(buff := u.buff[i := c]);
    assert Queued(v) == Queued(u);
    if u.active {
      FrontOfQueue(u, u.sent);
      FrontOfQueue(v, u.sent);
    }
  }

  function MoveHead(u: Uart, k: nat): Uart
    requires WellFormed(u) && k <= |u.buff|
  {
    u.(head := Wrap(u.head + k, |u.buff|))
  }

  lemma HeadMoves(u: Uart, chunk: seq<byte>)
    requires WellFormed(u) && |chunk| <= Free(u) && u.head + |chunk| <= |u.buff|
    requires u.buff[u.head..u.head + |chunk|] == chunk
    ensures var v := MoveHead(u, |chunk|); WellFormed(v) && Queued(v) == Queued(u) + chunk
  {
  }

  /** `if (!serial_tx_active(...)) { tx_size = size; uart_attach_tx_callback(...); }` */
  function CheckAndAttach(u: Uart, size: nat): Uart {
    if u.active then u else Attach(u.(txSize := size), size)
  }

  /** A transfer was running when the head moved, and none is running at the check that follows. */
  predicate DrainedInWindow(moved: Uart, checked: Uart) {
    moved.active && !checked.active
  }

  lemma MovedHead(u: Uart, committed: seq<byte>, chunk: seq<byte>)
    requires Inv(u, committed) && |chunk| <= Free(u) && u.head + |chunk| <= |u.buff|
    requires u.buff[u.head..u.head + |chunk|] == chunk
    ensures var v := MoveHead(u, |chunk|);
            WellFormed(v) && Queued(v) == Queued(u) + chunk && Conserved(v, committed + chunk) && InFlight(v)
  {
    hide Queued;
    var v := MoveHead(u, |chunk|);
    HeadMoves(u, chunk);
    Associate(u.wire[..|u.wire| - u.sent], Queued(u), chunk);
  }

  /** Unless the queue was drained in the window, the commit step restores the invariant. */
  lemma CommitKeeps(u: Uart, committed: seq<byte>, chunk: seq<byte>, n: nat)
    requires Inv(u, committed) && |chunk| <= Free(u) && u.head + |chunk| <= |u.buff|
    requires u.buff[u.head..u.head + |chunk|] == chunk
    requires var v := MoveHead(u, |chunk|); WellFormed(v) && (DrainedInWindow(v, Hw(v, n)) ==> chunk == [])
    ensures var x := CheckAndAttach(Hw(MoveHead(u, |chunk|), n), |chunk|);
            Inv(x, committed + chunk) && x.buff == u.buff && x.head == MoveHead(u, |chunk|).head && u.wire <= x.wire
    ensures chunk == [] ==> Free(u) <= Free(CheckAndAttach(Hw(MoveHead(u, |chunk|), n), |chunk|))
  {
    var v := MoveHead(u, |chunk|);
    MovedHead(u, committed, chunk);
    if u.active {
      HwKeeps(v, committed + chunk, n);
    } else {
      HwIdle(v, n);
      AttachIdle(u, committed, chunk);
    }
  }

  /** With no transfer running, the ring was empty: the new chunk is the whole queue and becomes the transfer. */
  lemma AttachIdle(u: Uart, committed: seq<byte>, chunk: seq<byte>)
    requires Inv(u, committed) && !u.active && |chunk| <= Free(u) && u.head + |chunk| <= |u.buff|
    requires u.buff[u.head..u.head + |chunk|] == chunk
    ensures Inv(CheckAndAttach(MoveHead(u, |chunk|), |chunk|), committed + chunk)
  {
    MovedHead(u, committed, chunk);
    assert u.wire[|u.wire|..] == u.buff[u.tail..u.tail];
  }

  lemma {:induction false} HwIdle(u: Uart, n: nat)
    requires WellFormed(u) && !u.active
    ensures Hw(u, n) == u
  {
    if n > 0 { HwIdle(u, n - 1); }
  }

  // ----- how long the ring takes to drain -----

  /** Transfers that `k` bytes from `tail` on take: one, or two when they pass the end of the buffer. */
  function Transfers(tail: nat, k: int, n: nat): nat {
    if k <= 0 then 0 else if tail + k <= n then 1 else 2
  }

  /** Hardware steps until no transfer runs: the bytes not yet sent, and one completion for each transfer. */
  function StepsToDrain(u: Uart): int
    requires WellFormed(u)
  {
    if !u.active then 0
    else
      var queued := Count(u.head, u.tail, |u.buff|);
      queued - u.sent + 1 + Transfers(Wrap(u.tail + u.txSize, |u.buff|), queued - u.txSize, |u.buff|)
  }

  lemma OneStepLess(u: Uart, committed: seq<byte>)
    requires Inv(u, committed) && u.active
    ensures StepsToDrain(HwStep(u)) == StepsToDrain(u) - 1 >= 0
  {
    hide Conserved, Queued;
    if u.sent == u.txSize {
      CompleteKeeps(u, committed);
    }
  }

  /** The hardware has drained the ring exactly when it has made that many steps. */
  lemma {:induction false} DrainedExactly(u: Uart, committed: seq<byte>, n: nat)
    requires Inv(u, committed) && u.active
    ensures !Hw(u, n).active <==> n >= StepsToDrain(u)
    decreases n
  {
    OneStepLess(u, committed);
    if n > 0 {
      var next := HwStep(u);
      HwAfterStep(u, n - 1);
      StepKeeps(u, committed);
      if next.active { DrainedExactly(next, committed, n - 1); } else { HwIdle(next, n - 1); }
    }
  }

  /** With a new chunk in the ring it takes at least two steps more than the chunk has bytes. */
  lemma DrainTakes(u: Uart, committed: seq<byte>, k: nat)
    requires Inv(u, committed) && u.active && 0 < k <= Free(u)
    ensures WellFormed(MoveHead(u, k)) && StepsToDrain(MoveHead(u, k)) >= k + 2
  {
  }

  /** The window between head update and check, `n` hardware steps long, is long enough to drain the ring. */
  lemma WindowDrains(u: Uart, committed: seq<byte>, chunk: seq<byte>, n: nat)
    requires Inv(u, committed) && 0 < |chunk| <= Free(u) && u.head + |chunk| <= |u.buff|
    requires u.buff[u.head..u.head + |chunk|] == chunk
    ensures var v := MoveHead(u, |chunk|);
            && WellFormed(v)
            && (DrainedInWindow(v, Hw(v, n)) <==> u.active && n >= StepsToDrain(v))
            && (u.active ==> StepsToDrain(v) >= |chunk| + 2)
  {
    MovedHead(u, committed, chunk);
    if u.active {
      DrainTakes(u, committed, |chunk|);
      DrainedExactly(MoveHead(u, |chunk|), committed + chunk, n);
    }
  }

  /** After `m` more hardware steps, the line has carried only what was written, in order. */
  ghost predicate OnlyCommitted(u: Uart, m: nat, committed: seq<byte>)
    requires WellFormed(u)
  {
    Hw(u, m).wire <= committed
  }

  /**
   * The commit step is right in an interleaving exactly when the queue is not drained between the head
   * update and the check. When it is, stale bytes follow: the line carries more than was ever written.
   */
  lemma CommitExactly(u: Uart, committed: seq<byte>, chunk: seq<byte>, n: nat)
    requires Inv(u, committed) && 0 < |chunk| <= Free(u) && u.head + |chunk| <= |u.buff|
    requires u.buff[u.head..u.head + |chunk|] == chunk
    ensures var v := MoveHead(u, |chunk|);
            var x := CheckAndAttach(Hw(v, n), |chunk|);
            WellFormed(x) && (DrainedInWindow(v, Hw(v, n)) <==> exists m: nat :: !OnlyCommitted(x, m, committed + chunk))
  {
    var v := MoveHead(u, |chunk|);
    var w := Hw(v, n);
    var x := CheckAndAttach(w, |chunk|);
    MovedHead(u, committed, chunk);
    if DrainedInWindow(v, w) {
      HwKeeps(v, committed + chunk, n);
      WireIsPrefix(w, committed + chunk);
      var y := Hw(x, 1);
      assert y == HwStep(Hw(x, 0)) == Emit(x);
      assert |y.wire| > |committed + chunk|;
      assert !OnlyCommitted(x, 1, committed + chunk);
    } else {
      CommitKeeps(u, committed, chunk, n);
      forall m: nat ensures OnlyCommitted(x, m, committed + chunk) {
        HwKeeps(x, committed + chunk, m);
        WireIsPrefix(Hw(x, m), committed + chunk);
      }
    }
  }

  /** An interleaving that goes wrong: byte 1 is in flight, byte 2 is committed, both leave before the check. */
  lemma DrainedInWindowExample()
    ensures var u := Uart([1, 2, 9, 9], 1, 0, 1, true, 0, []);
            var v := MoveHead(u, 1);
            && Inv(u, [1]) && WellFormed(v) && Hw(v, 4).wire == [1, 2]
            && DrainedInWindow(v, Hw(v, 4))
            && Hw(CheckAndAttach(Hw(v, 4), 1), 1).wire == [1, 2, 9]
  {
    var u := Uart([1, 2, 9, 9], 1, 0, 1, true, 0, []);
    var v := MoveHead(u, 1);
    assert Queued(u) == [1];
    var v1 := HwStep(v);
    var v2 := HwStep(v1);
    var v3 := HwStep(v2);
    var v4 := HwStep(v3);
    assert v1 == Uart([1, 2, 9, 9], 2, 0, 1, true, 1, [1]);
    assert v2 == Uart([1, 2, 9, 9], 2, 1, 1, true, 0, [1]);
    assert v3 == Uart([1, 2, 9, 9], 2, 1, 1, true, 1, [1, 2]);
    assert v4 == Uart([1, 2, 9, 9], 2, 2, 1, false, 0, [1, 2]);
    assert Hw(v, 1) == HwStep(Hw(v, 0)) && Hw(v, 2) == HwStep(Hw(v, 1)) && Hw(v, 3) == HwStep(Hw(v, 2)) && Hw(v, 4) == HwStep(Hw(v, 3));
    var x := CheckAndAttach(v4, 1);
    assert Hw(x, 1) == HwStep(Hw(x, 0));
  }

  /** A chunk that lies in the free space at the head. */
  ghost predicate Copied(u: Uart, chunk: seq<byte>)
    requires WellFormed(u)
  {
    |chunk| <= Free(u) && u.head + |chunk| <= |u.buff| && u.buff[u.head..u.head + |chunk|] == chunk
  }

  /** The commit step in a window of `n` hardware steps. */
  function Committed(u: Uart, k: nat, n: nat): Uart
    requires WellFormed(u) && k <= |u.buff|
    requires WellFormed(MoveHead(u, k))
  {
    CheckAndAttach(Hw(MoveHead(u, k), n), k)
  }

  ghost predicate SafeCommit(u: Uart, committed: seq<byte>, chunk: seq<byte>, n: nat) {
    Inv(u, committed) && Copied(u, chunk)
    ==> WellFormed(MoveHead(u, |chunk|)) && Inv(Committed(u, |chunk|, n), committed + chunk)
  }

  lemma ShortWindowSafe(u: Uart, committed: seq<byte>, chunk: seq<byte>, n: nat)
    requires n <= 2
    ensures SafeCommit(u, committed, chunk, n)
  {
    hide Inv, StepsToDrain, Hw;
    if Inv(u, committed) && Copied(u, chunk) {
      if chunk != [] {
        WindowDrains(u, committed, chunk, n);
      }
      CommitKeeps(u, committed, chunk, n);
    }
  }

  /** One byte in flight, already sent; one byte written behind it. */
  const BUSY := Uart([1, 2, 9, 9], 1, 0, 1, true, 1, [1])

  lemma ThreeStepsDrain()
    ensures var v := MoveHead(BUSY, 1); WellFormed(v) && Hw(v, 3) == Uart([1, 2, 9, 9], 2, 2, 1, false, 0, [1, 2])
  {
    var v := MoveHead(BUSY, 1);
    var v1 := HwStep(v);
    var v2 := HwStep(v1);
    var v3 := HwStep(v2);
    assert v3 == Uart([1, 2, 9, 9], 2, 2, 1, false, 0, [1, 2]);
    assert Hw(v, 1) == HwStep(Hw(v, 0)) && Hw(v, 2) == HwStep(Hw(v, 1)) && Hw(v, 3) == HwStep(Hw(v, 2));
  }

  lemma BusyReady()
    ensures Inv(BUSY, [1]) && Copied(BUSY, [2])
  {
    assert Queued(BUSY) == [1];
  }

  lemma LongWindowUnsafe()
    ensures !SafeCommit(BUSY, [1], [2], 3)
  {
    hide Hw;
    BusyReady();
    ThreeStepsDrain();
    var x := Committed(BUSY, 1, 3);
    assert x == Uart([1, 2, 9, 9], 2, 2, 1, true, 0, [1, 2]);
    assert Queued(x) == [];
  }

  /** The commit step is right in every state and for every chunk if and only if its window is at most two hardware steps. */
  lemma WindowExactly(w: nat)
    ensures w <= 2
       <==> forall u: Uart, committed: seq<byte>, chunk: seq<byte>, n: nat | n <= w :: SafeCommit(u, committed, chunk, n)
  {
    hide SafeCommit;
    if w <= 2 {
      forall u: Uart, committed: seq<byte>, chunk: seq<byte>, n: nat | n <= w ensures SafeCommit(u, committed, chunk, n) {
        ShortWindowSafe(u, committed, chunk, n);
      }
    } else {
      LongWindowUnsafe();
    }
  }
}
