/**
 * The transmit side of `HardwareSerial`. Between any two steps of the thread, `Interrupts` lets the
 * UART and its completion interrupt make an arbitrary number of steps.
 */
module HardwareSerials {
  import opened Bytes
  import opened Sequences
  import opened TransmitRing

  class HardwareSerial {
    const txBuff: array<byte>
    const halfDuplex: bool
    var txHead: nat
    var txTail: nat
    var txSize: nat
    var written: bool
    var rxEnabled: bool

    // the UART
    var active: bool
    var sent: nat
    var wire: seq<byte>

    /** Everything `write` has put into the ring, in order. */
    ghost var committed: seq<byte>

    function State(): Uart
      reads this, txBuff
    {
      Uart(txBuff[..], txHead, txTail, txSize, active, sent, wire)
    }

    predicate Indexed()
      reads this
    {
      txHead < txBuff.Length && txTail < txBuff.Length
    }

    /** Free places in the ring, and hardware steps left at most. */
    function Space(): nat
      requires Indexed()
      reads this
    {
      txBuff.Length - 1 - Count(txHead, txTail, txBuff.Length)
    }

    function Todo(): int
      requires Indexed()
      reads this
    {
      2 * Count(txHead, txTail, txBuff.Length) - sent
    }

    ghost predicate Valid()
      reads this, txBuff
      ensures Valid() ==> Indexed()
    {
      && Inv(State(), committed)
      && (!written ==> txHead == txTail)
      && (halfDuplex && rxEnabled ==> txHead == txTail)
    }

    constructor (bufferSize: nat, halfDuplex: bool)
      requires bufferSize >= 2
      ensures Valid() && committed == wire == [] && !written && txBuff.Length == bufferSize
    {
      this.halfDuplex := halfDuplex;
      txBuff := new byte[bufferSize];
      txHead, txTail, txSize := 0, 0, 0;
      written, rxEnabled := false, false;
      active, sent, wire := false, 0, [];
      committed := [];
    }

    // ----- the UART and its interrupt -----

    method AttachTxCallback(size: nat)
      modifies this`active, this`sent
      ensures State() == Attach(old(State()), size)
    {
      if !active && size != 0 {
        active, sent := true, 0;
      }
    }

    method TxCompleteIrq() returns (r: int)
      requires WellFormed(State())
      modifies this`txTail, this`txSize, this`active, this`sent
      ensures State() == TxComplete(old(State()))
      ensures r == if txHead != txTail then -1 else 0
    {
      active, sent := false, 0;
      WrapIsMod(txTail + txSize, txBuff.Length);
      txTail := (txTail + txSize) % txBuff.Length;
      if txHead != txTail {
        WrapIsMod(txBuff.Length + txHead - txTail, txBuff.Length);
        var remaining := (txBuff.Length + txHead - txTail) % txBuff.Length;
        txSize := if remaining < txBuff.Length - txTail then remaining else txBuff.Length - txTail;
        AttachTxCallback(txSize);
        return -1;
      }
      return 0;
    }

    method HardwareStep()
      requires WellFormed(State())
      modifies this`txTail, this`txSize, this`active, this`sent, this`wire
      ensures State() == HwStep(old(State()))
    {
      if active {
        if sent < txSize {
          var at := txTail + sent;
          wire := wire + [if at < txBuff.Length then txBuff[at] else 0];
          sent := sent + 1;
        } else {
          var _ := TxCompleteIrq();
        }
      }
    }

    method RunHardware(n: nat)
      requires WellFormed(State())
      modifies this`txTail, this`txSize, this`active, this`sent, this`wire
      ensures State() == Hw(old(State()), n)
    {
      for i := 0 to n
        invariant WellFormed(State()) && State() == Hw(old(State()), i)
      {
        HardwareStep();
      }
    }

    /** Any number of hardware steps, between two steps of the thread. */
    method Interrupts()
      requires Valid()
      modifies this`txTail, this`txSize, this`active, this`sent, this`wire
      ensures Valid() && old(wire) <= wire && old(Space()) <= Space() && Todo() <= old(Todo())
    {
      hide Inv, Hw;
      var n: nat :| n >= 0;
      HwKeeps(State(), committed, n);
      RunHardware(n);
    }

    /** One turn of a wait loop: at least one hardware step. */
    method Poll()
      requires Valid() && txHead != txTail
      modifies this`txTail, this`txSize, this`active, this`sent, this`wire
      ensures Valid() && old(wire) <= wire && old(Space()) <= Space() && Todo() <= old(Todo())
      ensures Todo() < old(Todo())
    {
      hide Inv, Hw;
      var n: nat :| n >= 0;
      HwKeeps(State(), committed, n + 1);
      RunHardware(n + 1);
    }

    // ----- the thread -----

    method AvailableForWrite() returns (n: nat)
      requires Valid()
      modifies this`txTail, this`txSize, this`active, this`sent, this`wire
      ensures Valid() && old(wire) <= wire && old(Space()) <= Space() && Todo() <= old(Todo())
      ensures n == Space() && txHead < txBuff.Length
      ensures n + |Queued(State())| == txBuff.Length - 1
    {
      var head := txHead;
      Interrupts();
      var tail := txTail;
      if head >= tail {
        return txBuff.Length - 1 - head + tail;
      }
      return tail - head - 1;
    }

    method Flush()
      requires Valid()
      modifies this`txTail, this`txSize, this`active, this`sent, this`wire
      ensures Valid() && old(wire) <= wire && old(Space()) <= Space() && Todo() <= old(Todo())
      ensures wire == committed && txHead == txTail
    {
      if !written {
        WireIsPrefix(State(), committed);
        return;
      }
      while txHead != txTail
        invariant Valid() && old(wire) <= wire && old(Space()) <= Space() && Todo() <= old(Todo())
        decreases Todo()
      {
        Poll();
      }
      WireIsPrefix(State(), committed);
    }

    /** In half-duplex mode the receiver goes on only after every committed byte has left. */
    method EnableHalfDuplexRx()
      requires Valid()
      modifies this`txTail, this`txSize, this`active, this`sent, this`wire, this`rxEnabled
      ensures Valid() && (halfDuplex ==> rxEnabled && wire == committed)
      ensures !halfDuplex ==> rxEnabled == old(rxEnabled) && State() == old(State())
    {
      if halfDuplex {
        Flush();
        if !rxEnabled {
          rxEnabled := true;
        }
      }
    }

    /** `while (!availableForWrite());` */
    method WaitForSpace()
      requires Valid()
      modifies this`txTail, this`txSize, this`active, this`sent, this`wire
      ensures Valid() && old(wire) <= wire && old(Space()) <= Space() && Todo() <= old(Todo())
      ensures Space() >= 1
    {
      while true
        invariant Valid() && old(wire) <= wire && old(Space()) <= Space() && Todo() <= old(Todo())
        decreases Todo()
      {
        var n := AvailableForWrite();
        if n > 0 { break; }
        Poll();
      }
    }

    method CopyByte(i: nat, c: byte)
      requires Valid() && IsFree(State(), i)
      modifies txBuff
      ensures Valid() && txBuff[i] == c && Space() == old(Space())
      ensures forall k | 0 <= k < txBuff.Length && k != i :: txBuff[k] == old(txBuff[k])
    {
      PokeKeeps(State(), committed, i, c);
      txBuff[i] := c;
      assert State() == old(State()).(buff := old(State()).buff[i := c]);
    }

    /** The `memcpy` into the ring, byte by byte, with interrupts in between. */
    method Copy(chunk: seq<byte>)
      requires Valid() && |chunk| <= Space() && txHead + |chunk| <= txBuff.Length
      modifies txBuff, this`txTail, this`txSize, this`active, this`sent, this`wire
      ensures Valid() && old(wire) <= wire
      ensures old(Space()) <= Space()
      ensures Holds(chunk)
    {
      hide Inv;
      for i := 0 to |chunk|
        invariant Valid() && old(wire) <= wire
        invariant old(Space()) <= Space()
        invariant forall k | 0 <= k < i :: txBuff[txHead + k] == chunk[k]
      {
        CopyByte(txHead + i, chunk[i]);
        Interrupts();
      }
    }

    /** `chunk` has been copied to the head. */
    ghost predicate Holds(chunk: seq<byte>)
      reads this, txBuff
    {
      txHead + |chunk| <= txBuff.Length && txBuff[txHead..txHead + |chunk|] == chunk
    }

    method Check(size: nat)
      modifies this`txSize, this`active, this`sent
      ensures State() == CheckAndAttach(old(State()), size)
    {
      if !active {
        txSize := size;
        AttachTxCallback(size);
      }
    }

    method AdvanceHead(size: nat)
      requires WellFormed(State()) && txHead + size < 2 * txBuff.Length && size <= txBuff.Length
      modifies this`txHead
      ensures State() == MoveHead(old(State()), size)
    {
      WrapIsMod(txHead + size, txBuff.Length);
      txHead := (txHead + size) % txBuff.Length;
    }

    /** The interrupts between the head update and the check: `window` hardware steps at most. */
    method InterruptsInWindow(window: nat) returns (n: nat)
      requires WellFormed(State())
      modifies this`txTail, this`txSize, this`active, this`sent, this`wire
      ensures n <= window && State() == Hw(old(State()), n)
    {
      n :| 0 <= n <= window;
      RunHardware(n);
    }

    /** The line is going to carry bytes that nobody wrote. */
    ghost predicate Stale()
      reads this, txBuff
    {
      WellFormed(State()) && exists m: nat :: !OnlyCommitted(State(), m, committed)
    }

    /**
     * Head update, check, attach. `drained` tells whether the hardware emptied the ring between the first two,
     * which takes it `StepsToDrain` steps, and at least two more than the chunk has bytes.
     */
    method Commit(chunk: seq<byte>, window: nat) returns (drained: bool)
      requires Valid() && |chunk| <= Space() && Holds(chunk)
      requires written && (halfDuplex ==> !rxEnabled)
      modifies this`txHead, this`txTail, this`txSize, this`active, this`sent, this`wire, this`committed
      ensures committed == old(committed) + chunk
      ensures !drained ==> Valid() && txHead < txBuff.Length && old(wire) <= wire
      ensures !drained && chunk == [] ==> old(Space()) <= Space()
      ensures drained ==> Stale() && DrainableIn(old(State()), |chunk|, window)
    {
      hide Inv, Hw, CheckAndAttach, StepsToDrain;
      ghost var u := State();
      var wasActive := active;
      AdvanceHead(|chunk|);
      var n := InterruptsInWindow(window);
      drained := |chunk| > 0 && wasActive && !active;
      Check(|chunk|);
      if drained {
        CommitExactly(u, committed, chunk, n);
        WindowDrains(u, committed, chunk, n);
      } else {
        CommitKeeps(u, committed, chunk, n);
      }
      committed := committed + chunk;
    }

    /** `_written = true`, and the receiver goes off in half-duplex mode. */
    method StartWriting()
      requires Valid()
      modifies this`written, this`rxEnabled
      ensures Valid() && written && (halfDuplex ==> !rxEnabled)
      ensures Space() == old(Space())
    {
      written := true;
      if halfDuplex {
        if rxEnabled {
          rxEnabled := false;
        }
      }
      assert State() == old(State());
    }

    /**
     * Everything is promised for runs in which no window between head update and check drains the ring; with
     * windows of at most two hardware steps none does. The first window that does ends the run: `drained`.
     */
    method Write(buffer: seq<byte>, window: nat) returns (ret: nat, drained: bool, ghost depth: nat)
      requires Valid()
      modifies this, txBuff
      ensures !drained ==> Valid() && committed == old(committed) + buffer && old(wire) <= wire
      ensures !drained ==> txHead < txBuff.Length && written && (halfDuplex ==> !rxEnabled)
      ensures drained ==> Stale() && window > 2 && old(committed) <= committed <= old(committed) + buffer
      ensures ret == |buffer| && depth <= 1
      ensures |buffer| <= old(Space()) && old(txHead) + |buffer| <= txBuff.Length ==> depth == 0
      ensures buffer == [] ==> !drained && Space() >= 1
      decreases |buffer|
    {
      hide *;
      ret, drained, depth := |buffer|, false, 0;
      var size, rest := |buffer|, buffer;
      var available: nat := AvailableForWrite();
      var availableTillBufferEnd: nat := txBuff.Length - txHead;
      Interrupts();
      StartWriting();
      WaitForSpace();
      ghost var done := [];
      while size > availableTillBufferEnd || size > available
        invariant Valid() && written && (halfDuplex ==> !rxEnabled) && old(wire) <= wire
        invariant size == |rest| && availableTillBufferEnd == txBuff.Length - txHead && available <= Space()
        invariant buffer == done + rest && committed == old(committed) + done
        invariant |buffer| <= old(Space()) && old(txHead) + |buffer| <= txBuff.Length
              ==> depth == 0 && size <= available && size <= availableTillBufferEnd
        invariant depth <= 1 && txHead < txBuff.Length && (buffer == [] ==> Space() >= 1)
        invariant !drained
        decreases size, if available == 0 then 1 else 0
      {
        var n := if available < availableTillBufferEnd then available else availableTillBufferEnd;
        var _, broken, d := Write(rest[..n], window);
        assert d == 0;
        depth := 1;
        SplitAt(old(committed), done, rest, n);
        if broken {
          PrefixOf(committed, old(committed), buffer, done, rest[..n], rest[n..]);
          return ret, true, depth;
        }
        size := size - n;
        done := done + rest[..n];
        rest := rest[n..];
        available := AvailableForWrite();
        availableTillBufferEnd := txBuff.Length - txHead;
      }
      if txHead + size <= txBuff.Length {
        Copy(rest);
      } else {
        assert false;  // the split loop leaves no chunk that passes the end of the buffer
      }
      ghost var before := State();
      drained := Commit(rest, window);
      LongWindow(before, |rest|, window);
      Associate(old(committed), done, rest);
    }
  }

  /** The window is long enough for the hardware to drain the ring after `k` bytes have been put in. */
  predicate DrainableIn(u: Uart, k: nat, window: nat) {
    k > 0 && u.active && WellFormed(u) && k <= |u.buff| && WellFormed(MoveHead(u, k))
    && window >= StepsToDrain(MoveHead(u, k)) >= k + 2
  }

  lemma LongWindow(u: Uart, k: nat, window: nat)
    ensures DrainableIn(u, k, window) ==> k > 0 && window > 2
  {
  }

  /** What was accepted when a nested write stopped is a part of the whole write. */
  lemma PrefixOf(c: seq<byte>, before: seq<byte>, buffer: seq<byte>, done: seq<byte>, chunk: seq<byte>, later: seq<byte>)
    requires before + done <= c <= before + done + chunk && buffer == done + chunk + later
    ensures before <= c <= before + buffer
  {
  }

  lemma SplitAt(c: seq<byte>, done: seq<byte>, rest: seq<byte>, n: nat)
    requires n <= |rest|
    ensures c + done + rest[..n] == c + (done + rest[..n])
    ensures done + rest == done + rest[..n] + rest[n..]
  {
  }

  function Joined(writes: seq<seq<byte>>): seq<byte> {
    if writes == [] then [] else Joined(writes[..|writes| - 1]) + writes[|writes| - 1]
  }

  /**
   * Any client: whatever it writes, in pieces of any size, has left in order when `flush` returns. This is
   * promised for runs in which no window drains the ring, so for all runs with windows of two steps or less.
   */
  method WriteAllAndFlush(port: HardwareSerial, writes: seq<seq<byte>>, window: nat) returns (drained: bool)
    requires port.Valid()
    modifies port, port.txBuff
    ensures !drained ==> port.Valid() && port.wire == port.committed == old(port.committed) + Joined(writes)
    ensures drained ==> port.Stale() && window > 2
  {
    drained := false;
    for i := 0 to |writes|
      invariant port.Valid() && port.committed == old(port.committed) + Joined(writes[..i]) && !drained
    {
      var _, broken, _ := port.Write(writes[i], window);
      if broken { return true; }
      JoinedNext(old(port.committed), writes, i);
    }
    port.Flush();
    assert writes[..|writes|] == writes;
  }

  lemma JoinedNext(before: seq<byte>, writes: seq<seq<byte>>, i: nat)
    requires i < |writes|
    ensures before + Joined(writes[..i + 1]) == before + Joined(writes[..i]) + writes[i]
  {
    assert writes[..i + 1][..i] == writes[..i];
  }
}
