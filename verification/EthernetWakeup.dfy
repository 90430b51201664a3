/**
 * The receive path of `ethernetif.c` and `openplc_net_process` as a state machine: the DMA fills
 * descriptors and raises interrupts at any time, the main loop tests and clears the event flag and drains
 * the ring, and the stack gives buffers back when it pleases.
 */
module EthernetWakeup {

  const ETH_RX_DESC_CNT: int := 4
  const ETH_RX_BUFFER_CNT: int := 12

  /** Where the main loop stands: anywhere else, between test and clear, or draining. */
  datatype Place = Outside | Noticed | Draining

  /**
   * `filled` lists the descriptors the DMA has handed over, oldest first; true marks the last of a frame.
   * `armed` descriptors still belong to the DMA, `unbuilt` ones have no buffer. `free` counts the pool,
   * `partial` the buffers of a frame read so far but not complete, `held` those passed to the stack.
   * `irq` is an interrupt not yet served, `starved` records that the last drain ended on an empty pool.
   */
  datatype State = State(
    event: bool, irq: bool, allocError: bool, starved: bool, place: Place,
    free: int, armed: int, filled: seq<bool>, unbuilt: int, partial: int, held: int)

  datatype Step = Fill(last: bool) | Interrupt | Loop | Free

  /** After `HAL_ETH_Start_IT`: every descriptor has a buffer. */
  const INIT := State(true, false, false, false, Outside, ETH_RX_BUFFER_CNT - ETH_RX_DESC_CNT, ETH_RX_DESC_CNT, [], 0, 0, 0)

  predicate Enabled(s: State, step: Step) {
    match step
    case Fill(_) => s.armed > 0
    case Interrupt => s.irq
    case Loop => true
    case Free => s.held > 0
  }

  /** How many filled descriptors one `HAL_ETH_ReadData` takes: up to the end of the first frame, or all. */
  function Taken(filled: seq<bool>): (n: nat)
    ensures n <= |filled|
    ensures true in filled ==> n > 0 && filled[n - 1] && true !in filled[..n - 1]
    ensures true !in filled ==> n == |filled|
  {
    if filled == [] then 0 else if filled[0] then 1 else 1 + Taken(filled[1..])
  }

  /** `ETH_UpdateDescriptor`: a buffer from the pool for each descriptor, until the allocation callback has none. */
  function Rebuild(s: State): State {
    var m := if s.unbuilt < s.free then s.unbuilt else s.free;
    s.(free := s.free - m, armed := s.armed + m, unbuilt := s.unbuilt - m, allocError := s.allocError || s.unbuilt > m)
  }

  /** `HAL_ETH_ReadData`, which returns a frame exactly when a complete one is waiting. */
  function ReadData(s: State): State {
    var n := Taken(s.filled);
    var complete := true in s.filled;
    Rebuild(s.(filled := s.filled[n..], unbuilt := s.unbuilt + n,
               held := if complete then s.held + s.partial + n else s.held,
               partial := if complete then 0 else s.partial + n))
  }

  /** One turn of the loop in `ethernetif_input`, with `low_level_input`. */
  function DrainStep(s: State): State {
    if s.allocError then s.(place := Outside, starved := true)
    else if true in s.filled then ReadData(s)
    else ReadData(s).(place := Outside, starved := false)
  }

  function Next(s: State, step: Step): State
    requires Enabled(s, step)
  {
    match step
    case Fill(last) => s.(armed := s.armed - 1, filled := s.filled + [last], irq := s.irq || last)
    case Interrupt => s.(irq := false, event := true)
    case Loop =>
      (match s.place
       case Outside => if s.event then s.(place := Noticed) else s
       case Noticed => s.(event := false, place := Draining)
       case Draining => DrainStep(s))
    case Free => s.(held := s.held - 1, free := s.free + 1, allocError := false)
  }

  // ----- what every step keeps -----

  /** Every buffer and every descriptor is in exactly one place. */
  predicate Accounted(s: State) {
    && s.free >= 0 && s.armed >= 0 && s.unbuilt >= 0 && s.partial >= 0 && s.held >= 0
    && s.free + s.armed + |s.filled| + s.partial + s.held == ETH_RX_BUFFER_CNT
    && s.armed + |s.filled| + s.unbuilt == ETH_RX_DESC_CNT
  }

  /** A complete frame waits, and nothing will make the loop look at it. */
  predicate Stuck(s: State) {
    true in s.filled && !s.event && !s.irq && s.place == Outside
  }

  predicate Inv(s: State) {
    && Accounted(s)
    && (s.allocError ==> s.free == 0)
    && (Stuck(s) ==> s.starved)
  }

  lemma RestHasNoFrame(filled: seq<bool>)
    ensures true !in filled ==> filled[Taken(filled)..] == []
  {
  }

  lemma StepKeeps(s: State, step: Step)
    requires Inv(s) && Enabled(s, step)
    ensures Inv(Next(s, step))
  {
    if step.Loop? && s.place.Draining? {
      RestHasNoFrame(s.filled);
    }
  }

  // ----- runs -----

  ghost predicate Run(steps: seq<Step>, states: seq<State>) {
    && |states| == |steps| + 1 && states[0] == INIT
    && forall i | 0 <= i < |steps| :: Enabled(states[i], steps[i]) && states[i + 1] == Next(states[i], steps[i])
  }

  /**
   * In every run: buffers and descriptors are conserved, an allocation error means an empty pool, and a
   * frame is left behind only by a drain that ended on an empty pool.
   */
  lemma {:induction false} EveryRun(steps: seq<Step>, states: seq<State>, k: nat)
    requires Run(steps, states) && k < |states|
    ensures Inv(states[k])
  {
    if k > 0 {
      EveryRun(steps, states, k - 1);
      StepKeeps(states[k - 1], steps[k - 1]);
    }
  }

  /** Buffers that are neither in the pool nor with a descriptor: those the stack holds, and the unfinished frame's. */
  function Out(s: State): int {
    s.held + s.partial
  }

  /** The pool runs dry only while more buffers are out than the descriptors leave over. */
  lemma DryNeedsHeld(s: State, step: Step)
    requires Inv(s) && Enabled(s, step) && !s.allocError && Next(s, step).allocError
    ensures Out(Next(s, step)) > ETH_RX_BUFFER_CNT - ETH_RX_DESC_CNT
  {
  }

  ghost predicate Within(states: seq<State>, b: int) {
    forall i | 0 <= i < |states| :: Out(states[i]) <= b
  }

  /**
   * No lost wake-up: as long as the stack and an unfinished frame together never hold more than eight
   * buffers, a complete frame that waits is announced, about to be announced, or being drained.
   */
  lemma {:induction false} NoLostWakeup(steps: seq<Step>, states: seq<State>, k: nat)
    requires Run(steps, states) && k < |states| && Within(states[..k + 1], ETH_RX_BUFFER_CNT - ETH_RX_DESC_CNT)
    ensures !states[k].allocError && !states[k].starved && !Stuck(states[k])
  {
    EveryRun(steps, states, k);
    assert states[..k + 1][k] == states[k];
    if k > 0 {
      assert states[..k] == states[..k + 1][..k];
      NoLostWakeup(steps, states, k - 1);
      EveryRun(steps, states, k - 1);
      if states[k].allocError { DryNeedsHeld(states[k - 1], steps[k - 1]); }
    }
  }

  /** `n` turns of the main loop with nothing else happening. */
  function Turns(s: State, n: nat): State
    decreases n
  {
    if n == 0 then s else Turns(Next(s, Loop), n - 1)
  }

  /**
   * One turn of a drain hands the first complete frame to the stack, with the fragments read before, and
   * arms every descriptor again unless the pool runs dry, which is noted.
   */
  lemma TurnDelivers(s: State)
    requires Inv(s) && s.place.Draining? && !s.allocError
    ensures var t, n := Next(s, Loop), Taken(s.filled);
            && t.filled == s.filled[n..]
            && (if true in s.filled then t.held == s.held + s.partial + n && t.partial == 0 && t.place.Draining?
                else t.held == s.held && t.partial == s.partial + n && t.place.Outside?)
            && (t.allocError <==> t.unbuilt > 0) && (t.allocError ==> t.free == 0)
            && t.armed - s.armed == s.free - t.free
  {
  }

  /**
   * A drain comes to its end, and leaves a complete frame behind, or a descriptor without a buffer, only if the
   * pool ran dry.
   */
  lemma {:induction false} DrainFinishes(s: State) returns (n: nat)
    requires Inv(s) && s.place.Draining?
    ensures var t := Turns(s, n);
            t.place.Outside? && (true in t.filled || t.unbuilt > 0 ==> t.allocError && t.free == 0)
    decreases |s.filled|
  {
    var next := Next(s, Loop);
    StepKeeps(s, Loop);
    if next.place.Draining? {
      n := DrainFinishes(next);
    } else {
      RestHasNoFrame(s.filled);
      n := 0;
    }
    n := n + 1;
  }

  // ----- the bound cannot be raised -----

  /** A run to `t` in which no more than `b` buffers are ever out. */
  ghost predicate Reaches(steps: seq<Step>, t: State, b: int) {
    exists states: seq<State> :: Run(steps, states) && Within(states, b) && states[|steps|] == t
  }

  lemma Extend(steps: seq<Step>, t: State, step: Step, b: int) returns (steps': seq<Step>, u: State)
    requires Reaches(steps, t, b) && Enabled(t, step) && Out(Next(t, step)) <= b
    ensures u == Next(t, step) && Reaches(steps', u, b)
  {
    var states :| Run(steps, states) && Within(states, b) && states[|steps|] == t;
    u, steps' := Next(t, step), steps + [step];
    assert Run(steps', states + [u]);
    assert Within(states + [u], b);
  }

  /** The state after `n` one-buffer frames, all still held by the stack. */
  function AfterFrames(n: nat): State {
    INIT.(event := false, free := 8 - n, held := n)
  }

  lemma OneFrame(steps: seq<Step>, n: nat) returns (steps': seq<Step>)
    requires n < 8 && Reaches(steps, AfterFrames(n), 9)
    ensures Reaches(steps', AfterFrames(n + 1), 9)
  {
    hide Reaches;
    var s := AfterFrames(n);
    var u;
    steps', u := Extend(steps, s, Fill(true), 9);
    assert u == s.(armed := 3, filled := [true], irq := true);
    steps', u := Extend(steps', u, Interrupt, 9);
    assert u == s.(armed := 3, filled := [true], event := true);
    steps', u := Extend(steps', u, Loop, 9);
    steps', u := Extend(steps', u, Loop, 9);
    assert u == s.(armed := 3, filled := [true], place := Draining);
    steps', u := DrainOne(steps', n);
  }

  /** The drain reads the frame, replaces its buffer, and finds nothing more. */
  lemma DrainOne(steps: seq<Step>, n: nat) returns (steps': seq<Step>, u: State)
    requires n < 8 && Reaches(steps, AfterFrames(n).(armed := 3, filled := [true], place := Draining), 9)
    ensures Reaches(steps', u, 9) && u == AfterFrames(n + 1)
  {
    hide Reaches;
    steps', u := Extend(steps, AfterFrames(n).(armed := 3, filled := [true], place := Draining), Loop, 9);
    assert u == AfterFrames(n + 1).(place := Draining);
    steps', u := Extend(steps', u, Loop, 9);
  }

  lemma Started()
    ensures Reaches([], INIT, 9)
  {
    assert Run([], [INIT]);
  }

  lemma {:induction false} EightFrames(n: nat) returns (steps: seq<Step>)
    requires n <= 8
    ensures Reaches(steps, AfterFrames(n), 9)
  {
    hide Reaches;
    if n == 0 {
      var u;
      Started();
      steps, u := Extend([], INIT, Loop, 9);
      steps, u := Extend(steps, u, Loop, 9);
      steps, u := Extend(steps, u, Loop, 9);
      assert u == AfterFrames(0);
    } else {
      steps := EightFrames(n - 1);
      steps := OneFrame(steps, n - 1);
    }
  }

  lemma {:induction false} GiveBack(steps: seq<Step>, t: State, n: nat) returns (steps': seq<Step>, u: State)
    requires Reaches(steps, t, 9) && t.held == n && t.place == Outside && Out(t) <= 9
    ensures Reaches(steps', u, 9) && u.held == 0 && u.filled == t.filled && u.place == Outside
    ensures u.event == t.event && u.irq == t.irq && (if n == 0 then u == t else !u.allocError)
    decreases n
  {
    hide Reaches;
    if n == 0 {
      steps', u := steps, t;
    } else {
      steps', u := Extend(steps, t, Free, 9);
      steps', u := GiveBack(steps', u, n - 1);
    }
  }

  /**
   * With nine buffers out the wake-up can be lost: the drain finds an empty pool and leaves a frame behind, and
   * it stays behind when every buffer has come back, until another frame happens to arrive.
   */
  lemma LostWakeup() returns (steps: seq<Step>, t: State)
    ensures Reaches(steps, t, 9) && Stuck(t) && t.held == 0 && !t.allocError
  {
    hide Reaches;
    steps := EightFrames(8);
    t := AfterFrames(8);
    steps, t := Extend(steps, t, Fill(true), 9);
    steps, t := Extend(steps, t, Interrupt, 9);
    steps, t := Extend(steps, t, Loop, 9);
    steps, t := Extend(steps, t, Loop, 9);
    steps, t := Extend(steps, t, Loop, 9);
    assert t.held == 9 && t.allocError;
    steps, t := Extend(steps, t, Fill(true), 9);
    steps, t := Extend(steps, t, Interrupt, 9);
    steps, t := Extend(steps, t, Loop, 9);
    steps, t := Extend(steps, t, Loop, 9);
    steps, t := Extend(steps, t, Loop, 9);
    steps, t := Extend(steps, t, Loop, 9);
    assert Stuck(t) && t.held == 9;
    steps, t := GiveBack(steps, t, 9);
  }

  lemma StuckWithin(b: int) returns (steps: seq<Step>, states: seq<State>)
    requires b > ETH_RX_BUFFER_CNT - ETH_RX_DESC_CNT
    ensures Run(steps, states) && Within(states, b) && Stuck(states[|steps|])
  {
    var t;
    steps, t := LostWakeup();
    states :| Run(steps, states) && Within(states, 9) && states[|steps|] == t;
  }

  /** No wake-up is ever lost while at most `b` buffers are out if and only if `b` is at most eight. */
  lemma WakeupExactly(b: int)
    ensures b <= ETH_RX_BUFFER_CNT - ETH_RX_DESC_CNT
       <==> forall steps: seq<Step>, states: seq<State> | Run(steps, states) && Within(states, b) :: !Stuck(states[|steps|])
  {
    hide Stuck;
    if b <= ETH_RX_BUFFER_CNT - ETH_RX_DESC_CNT {
      forall steps: seq<Step>, states: seq<State> | Run(steps, states) && Within(states, b)
        ensures !Stuck(states[|steps|])
      {
        NoLostWakeup(steps, states, |steps|);
      }
    } else {
      var steps, states := StuckWithin(b);
    }
  }
}
