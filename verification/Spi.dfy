/**
 * The settings table of `SPIClass` and the peripheral it reprograms only when it thinks it must,
 * against a plain map from pins to the settings last given for them.
 */
module Spi {
  import opened Bytes

  datatype BitOrder = LsbFirst | MsbFirst

  datatype Mode = Mode0 | Mode1 | Mode2 | Mode3

  /** What `spi_init` programs. */
  datatype Config = Config(clk: uint32, mode: Mode, order: BitOrder)

  const SPI_SPEED_CLOCK_DEFAULT: uint32 := 4_000_000
  const DEFAULT := Config(SPI_SPEED_CLOCK_DEFAULT, Mode0, MsbFirst)
  const NO_CONFIG: int := -1

  /** `SPISettings`; `pinCS` is -1 while the slot is free. */
  datatype Slot = Slot(pinCS: int, config: Config)

  /** One transfer: the pin, the configuration the peripheral had, and the bytes sent. */
  datatype Transfer = Transfer(pin: byte, config: Option<Config>, data: seq<byte>)

  // ----- the table as a map -----

  ghost predicate DistinctPins(slots: seq<Slot>) {
    forall i, j | 0 <= i < j < |slots| && slots[i].pinCS != -1 :: slots[i].pinCS != slots[j].pinCS
  }

  /** Occupied slots and map entries correspond; free slots are back at the defaults. */
  ghost predicate Agrees(slots: seq<Slot>, given: map<int, Config>) {
    && DistinctPins(slots) && -1 !in given
    && (forall i | 0 <= i < |slots| ::
          if slots[i].pinCS == -1 then slots[i].config == DEFAULT
          else 0 <= slots[i].pinCS < 256 && slots[i].pinCS in given && given[slots[i].pinCS] == slots[i].config)
    && (forall p | p in given :: exists i :: 0 <= i < |slots| && slots[i].pinCS == p)
  }

  ghost function Pins(slots: seq<Slot>): set<int> {
    if slots == [] then {}
    else Pins(slots[..|slots| - 1]) + if slots[|slots| - 1].pinCS == -1 then {} else {slots[|slots| - 1].pinCS}
  }

  lemma {:induction false} PinsMeaning(slots: seq<Slot>)
    ensures forall p :: p in Pins(slots) <==> p != -1 && exists i :: 0 <= i < |slots| && slots[i].pinCS == p
  {
    if slots != [] {
      var front, last := slots[..|slots| - 1], slots[|slots| - 1];
      PinsMeaning(front);
      forall p ensures p in Pins(slots) <==> p != -1 && exists i :: 0 <= i < |slots| && slots[i].pinCS == p {
        if p != -1 && exists i :: 0 <= i < |slots| && slots[i].pinCS == p {
          var i :| 0 <= i < |slots| && slots[i].pinCS == p;
          if i < |front| { assert front[i].pinCS == p; }
        }
        if p in Pins(front) {
          var i :| 0 <= i < |front| && front[i].pinCS == p;
          assert slots[i].pinCS == p;
        }
      }
    }
  }

  lemma {:induction false} PinsCount(slots: seq<Slot>)
    requires DistinctPins(slots)
    ensures |Pins(slots)| <= |slots|
    ensures |Pins(slots)| == |slots| <==> forall i | 0 <= i < |slots| :: slots[i].pinCS != -1
  {
    if slots != [] {
      var front, last := slots[..|slots| - 1], slots[|slots| - 1];
      PinsMeaning(front);
      PinsCount(front);
      assert forall i | 0 <= i < |front| :: front[i] == slots[i];
      assert last.pinCS !in Pins(front);
    }
  }

  /** The table is full exactly when the map has an entry for every slot. */
  lemma FullTable(slots: seq<Slot>, given: map<int, Config>)
    requires Agrees(slots, given)
    ensures |given| <= |slots|
    ensures |given| == |slots| <==> forall i | 0 <= i < |slots| :: slots[i].pinCS != -1
  {
    PinsMeaning(slots);
    PinsCount(slots);
    forall p ensures p in Pins(slots) <==> p in given {
    }
    assert Pins(slots) == given.Keys;
  }

  lemma NoneFree(slots: seq<Slot>, given: map<int, Config>, pin: int)
    requires Agrees(slots, given) && forall i | 0 <= i < |slots| :: slots[i].pinCS != pin
    ensures pin !in given
  {
  }

  // ----- the class -----

  class SPIClass {
    const NUM_DIGITAL_PINS: nat
    const digitalPinIsValid: byte -> bool
    const spiSettings: array<Slot>
    var csPinConfig: int

    // the peripheral
    var programmed: Option<Config>
    /** Everything transferred so far. */
    ghost var log: seq<Transfer>

    /** The settings last given for each pin that has a slot; what the table and the laziness must agree with. */
    ghost var given: map<int, Config>

    ghost predicate TableOk()
      reads this, spiSettings
    {
      && 1 <= spiSettings.Length <= 254 && Agrees(spiSettings[..], given)
      && forall p | p in given :: 0 <= p < 256 && Accepted(p)
    }

    /** When a configuration is marked as selected, it is the one the peripheral has. */
    ghost predicate Valid()
      reads this, spiSettings
    {
      TableOk() && (csPinConfig != NO_CONFIG ==> csPinConfig in given && programmed == Some(given[csPinConfig]))
    }

    predicate Accepted(pin: byte) {
      pin <= NUM_DIGITAL_PINS || digitalPinIsValid(pin)
    }

    constructor (nbSettings: nat, numDigitalPins: nat, digitalPinIsValid: byte -> bool)
      requires 1 <= nbSettings <= 254
      ensures Valid() && given == map[] && log == [] && spiSettings.Length == nbSettings
      ensures programmed == None && csPinConfig == NO_CONFIG
      ensures fresh(spiSettings) && this.digitalPinIsValid == digitalPinIsValid && NUM_DIGITAL_PINS == numDigitalPins
    {
      this.NUM_DIGITAL_PINS := numDigitalPins;
      this.digitalPinIsValid := digitalPinIsValid;
      spiSettings := new Slot[nbSettings](_ => Slot(-1, DEFAULT));
      csPinConfig := NO_CONFIG;
      programmed := None;
      log, given := [], map[];
    }

    /** `pinIdx(_pin, GET_IDX)`: the slot of the pin, or the number of slots. */
    method PinIdx(pin: byte) returns (i: nat)
      requires TableOk()
      ensures pin in given <==> i < spiSettings.Length
      ensures if i < spiSettings.Length then spiSettings[i].pinCS == pin else i == spiSettings.Length
    {
      if pin > NUM_DIGITAL_PINS && !digitalPinIsValid(pin) {
        return spiSettings.Length;
      }
      i := 0;
      while i < spiSettings.Length
        invariant i <= spiSettings.Length && forall j | 0 <= j < i :: spiSettings[j].pinCS != pin
      {
        if pin == spiSettings[i].pinCS {
          return i;
        }
        i := i + 1;
      }
      NoneFree(spiSettings[..], given, pin);
    }

    /** `pinIdx(_pin, ADD_NEW_PIN)`: a pin without a slot gets a free one, at the defaults, if there is one. */
    method AddPin(pin: byte) returns (i: nat)
      requires TableOk()
      modifies spiSettings, this`given
      ensures TableOk()
      ensures given == if Accepted(pin) && pin !in old(given) && |old(given)| < spiSettings.Length
                       then old(given)[pin as int := DEFAULT] else old(given)
      ensures if pin in given then i < spiSettings.Length && spiSettings[i].pinCS == pin else i == spiSettings.Length
    {
      if pin > NUM_DIGITAL_PINS && !digitalPinIsValid(pin) {
        return spiSettings.Length;
      }
      i := PinIdx(pin);
      FullTable(spiSettings[..], given);
      if i < spiSettings.Length {
        return i;
      }
      i := 0;
      while i < spiSettings.Length
        invariant i <= spiSettings.Length && forall j | 0 <= j < i :: spiSettings[j].pinCS != -1
      {
        if spiSettings[i].pinCS == -1 {
          Occupy(i, pin);
          return i;
        }
        i := i + 1;
      }
    }

    method Occupy(i: nat, pin: byte)
      requires TableOk() && i < spiSettings.Length && spiSettings[i].pinCS == -1
      requires pin !in given && Accepted(pin)
      modifies spiSettings, this`given
      ensures TableOk() && given == old(given)[pin as int := DEFAULT]
      ensures spiSettings[i].pinCS == pin
    {
      ghost var was := spiSettings[..];
      spiSettings[i] := spiSettings[i].(pinCS := pin);
      given := given[pin as int := DEFAULT];
      SlotFilled(was, spiSettings[..], old(given), i, pin);
    }

    // ----- reconfiguration -----

    method SpiInit(config: Config)
      modifies this`programmed
      ensures programmed == Some(config)
    {
      programmed := Some(config);
    }

    method Begin(pin: byte)
      requires Valid()
      modifies this`given, this`programmed, this`csPinConfig, spiSettings
      ensures Valid()
      ensures given == if Accepted(pin) && pin !in old(given) && |old(given)| < spiSettings.Length
                       then old(given)[pin as int := DEFAULT] else old(given)
      ensures pin in given ==> programmed == Some(given[pin]) && csPinConfig == pin
      ensures pin !in given ==> programmed == old(programmed) && csPinConfig == old(csPinConfig)
    {
      var idx := AddPin(pin);
      if idx >= spiSettings.Length {
        return;
      }
      SpiInit(spiSettings[idx].config);
      csPinConfig := pin;
    }

    /** The slot's settings are overwritten. */
    method Update(idx: nat, pin: byte, config: Config)
      requires TableOk() && idx < spiSettings.Length && spiSettings[idx].pinCS == pin && pin in given
      modifies this`given, spiSettings
      ensures TableOk() && given == old(given)[pin as int := config]
      ensures spiSettings[idx] == Slot(pin, config)
    {
      ghost var was := spiSettings[..];
      spiSettings[idx] := spiSettings[idx].(config := config);
      given := given[pin as int := config];
      SlotUpdated(was, spiSettings[..], old(given), idx, pin, config);
    }

    method BeginTransaction(pin: byte, settings: Config)
      requires Valid()
      modifies this`given, this`programmed, this`csPinConfig, spiSettings
      ensures Valid()
      ensures given == if pin in old(given) || (Accepted(pin) && |old(given)| < spiSettings.Length)
                       then old(given)[pin as int := settings] else old(given)
      ensures pin in given ==> programmed == Some(settings) && csPinConfig == pin
      ensures pin !in given ==> programmed == old(programmed) && csPinConfig == old(csPinConfig)
    {
      var idx := AddPin(pin);
      if idx >= spiSettings.Length {
        return;
      }
      Update(idx, pin, settings);
      SpiInit(spiSettings[idx].config);
      csPinConfig := pin;
    }

    method RemovePin(pin: byte)
      requires TableOk()
      modifies this`given, spiSettings
      ensures TableOk() && given == old(given) - {pin as int}
    {
      if pin > NUM_DIGITAL_PINS && !digitalPinIsValid(pin) {
        assert given - {pin as int} == given;
        return;
      }
      ghost var was := spiSettings[..];
      for i := 0 to spiSettings.Length
        invariant forall j | 0 <= j < spiSettings.Length ::
          spiSettings[j] == if j < i && was[j].pinCS == pin then Slot(-1, DEFAULT) else was[j]
        modifies spiSettings
      {
        if spiSettings[i].pinCS == pin {
          spiSettings[i] := Slot(-1, DEFAULT);
        }
      }
      given := given - {pin as int};
      SlotFreed(was, spiSettings[..], old(given), pin);
    }

    method RemoveAllPin()
      requires TableOk()
      modifies this`given, spiSettings
      ensures TableOk() && given == map[]
    {
      for i := 0 to spiSettings.Length
        invariant forall j | 0 <= j < i :: spiSettings[j] == Slot(-1, DEFAULT)
        modifies spiSettings
      {
        spiSettings[i] := Slot(-1, DEFAULT);
      }
      given := map[];
    }

    method EndTransaction(pin: byte)
      requires Valid()
      modifies this`given, this`csPinConfig, spiSettings
      ensures Valid() && given == old(given) - {pin as int} && csPinConfig == NO_CONFIG
    {
      RemovePin(pin);
      csPinConfig := NO_CONFIG;
    }

    method End()
      requires TableOk()
      modifies this`given, this`programmed, this`csPinConfig, spiSettings
      ensures Valid() && given == map[] && csPinConfig == NO_CONFIG && programmed == None
    {
      programmed := None;
      RemoveAllPin();
      csPinConfig := NO_CONFIG;
    }

    // ----- transfers -----

    /**
     * The common part of the `transfer` family: the peripheral is programmed again only when another pin was
     * selected last. Bytes answered by the other side are no part of the model.
     */
    method Exchange(pin: byte, data: seq<byte>) returns (done: bool)
      requires TableOk()
      modifies this`programmed, this`csPinConfig, this`log
      ensures done <==> pin in given
      ensures !done ==> programmed == old(programmed) && csPinConfig == old(csPinConfig) && log == old(log)
      ensures done ==> csPinConfig == pin && log == old(log) + [Transfer(pin, programmed, data)]
      ensures done ==> programmed == if old(csPinConfig) == pin then old(programmed) else Some(given[pin])
      ensures old(Valid()) ==> Valid() && (done ==> programmed == Some(given[pin]))
    {
      var idx := PinIdx(pin);
      if idx >= spiSettings.Length {
        return false;
      }
      if pin != csPinConfig {
        SpiInit(spiSettings[idx].config);
        csPinConfig := pin;
      }
      log := log + [Transfer(pin, programmed, data)];
      return true;
    }

    /** `transfer(pin, data)`: every transfer that gets a slot runs with the settings last given for its pin. */
    method Transfer8(pin: byte, data: byte) returns (done: bool)
      requires Valid()
      modifies this`programmed, this`csPinConfig, this`log
      ensures Valid() && (done <==> pin in given)
      ensures log == old(log) + if done then [Transfer(pin, Some(given[pin]), [data])] else []
    {
      done := Exchange(pin, [data]);
    }

    /** `transfer16(pin, data)`: the two bytes leave in the order the bit order asks for. */
    method Transfer16(pin: byte, data: uint16) returns (done: bool)
      requires Valid()
      modifies this`programmed, this`csPinConfig, this`log
      ensures Valid() && (done <==> pin in given)
      ensures log == old(log) + if !done then [] else
                       [Transfer(pin, Some(given[pin]),
                         if given[pin].order == MsbFirst then [data / 256, data % 256] else [data % 256, data / 256])]
    {
      var idx := PinIdx(pin);
      var swapped: uint16 := data;
      if idx < spiSettings.Length && spiSettings[idx].config.order == MsbFirst {
        swapped := data / 256 + data % 256 * 256;
      }
      // the register image is little-endian
      done := Exchange(pin, [swapped % 256, swapped / 256]);
    }

    /** `transfer(pin, buf, count)` and `transfer(pin, bufout, bufin, count)`; nothing happens for an empty buffer. */
    method TransferBuffer(pin: byte, data: seq<byte>) returns (done: bool)
      requires Valid()
      modifies this`programmed, this`csPinConfig, this`log
      ensures Valid() && (done <==> pin in given && data != [])
      ensures log == old(log) + if done then [Transfer(pin, Some(given[pin]), data)] else []
    {
      if |data| == 0 {
        return false;
      }
      done := Exchange(pin, data);
    }

    // ----- the deprecated setters -----

    /**
     * What `setBitOrder`, `setDataMode` and `setClockDivider` have in common. They program the peripheral and do
     * not say for which pin: the bookkeeping stays right exactly when no other pin with other settings is selected.
     */
    method SetConfig(pin: byte, config: Config)
      requires Valid()
      modifies this`given, this`programmed, spiSettings
      ensures TableOk() && given == if pin in old(given) then old(given)[pin as int := config] else old(given)
      ensures pin in given ==> programmed == Some(config)
      ensures Valid() <==> pin !in given || csPinConfig == NO_CONFIG || csPinConfig == pin || given[csPinConfig] == config
    {
      var idx := PinIdx(pin);
      if idx >= spiSettings.Length {
        return;
      }
      Update(idx, pin, config);
      SpiInit(spiSettings[idx].config);
    }

    method SetBitOrder(pin: byte, order: BitOrder)
      requires Valid()
      modifies this`given, this`programmed, spiSettings
      ensures TableOk() && (pin !in old(given) ==> given == old(given) && Valid())
      ensures pin in old(given) ==> given == old(given)[pin as int := old(given)[pin].(order := order)]
      ensures pin in old(given) ==> (Valid() <==> csPinConfig == NO_CONFIG || csPinConfig == pin || given[csPinConfig] == given[pin])
    {
      var idx := PinIdx(pin);
      SetConfig(pin, if idx < spiSettings.Length then spiSettings[idx].config.(order := order) else DEFAULT);
    }
  }

  /**
   * Pins above the board's digital pins are refused unless the board knows them; the default argument, a chip
   * select the caller controls, is the number of digital pins and always gets a slot of a new port.
   */
  method BeginNew(nbSettings: nat, digitalPins: byte, digitalPinIsValid: byte -> bool, pin: byte) returns (spi: SPIClass)
    requires 1 <= nbSettings <= 254
    ensures fresh(spi) && spi.Valid()
    ensures if pin > digitalPins && !digitalPinIsValid(pin) then spi.given == map[] && spi.programmed == None
            else spi.given == map[pin as int := DEFAULT] && spi.programmed == Some(DEFAULT)
    ensures pin == digitalPins ==> pin in spi.given
  {
    hide Agrees;
    spi := new SPIClass(nbSettings, digitalPins, digitalPinIsValid);
    spi.Begin(pin);
  }

  // ----- every run, against a simple map -----

  datatype Op = Begin(pin: byte) | BeginTransaction(pin: byte, settings: Config) | EndTransaction(pin: byte) | End
    | Transmit(pin: byte, data: seq<byte>)

  /** The reference: the settings in force for each pin, and the transfers made so far. */
  datatype Simple = Simple(given: map<int, Config>, log: seq<Transfer>)

  function Apply(s: Simple, op: Op, slots: nat, accepted: byte -> bool): Simple {
    match op
    case Begin(pin) =>
      if accepted(pin) && pin !in s.given && |s.given| < slots then s.(given := s.given[pin as int := DEFAULT]) else s
    case BeginTransaction(pin, settings) =>
      if pin in s.given || (accepted(pin) && |s.given| < slots) then s.(given := s.given[pin as int := settings]) else s
    case EndTransaction(pin) => s.(given := s.given - {pin as int})
    case End => s.(given := map[])
    case Transmit(pin, data) =>
      if pin in s.given && data != [] then s.(log := s.log + [Transfer(pin, Some(s.given[pin]), data)]) else s
  }

  function ApplyAll(s: Simple, ops: seq<Op>, slots: nat, accepted: byte -> bool): Simple {
    if ops == [] then s else Apply(ApplyAll(s, ops[..|ops| - 1], slots, accepted), ops[|ops| - 1], slots, accepted)
  }

  method Perform(spi: SPIClass, op: Op)
    requires spi.Valid()
    modifies spi, spi.spiSettings
    ensures spi.Valid()
    ensures Simple(spi.given, spi.log) == Apply(Simple(old(spi.given), old(spi.log)), op, spi.spiSettings.Length, spi.Accepted)
  {
    match op
    case Begin(pin) => spi.Begin(pin);
    case BeginTransaction(pin, settings) => spi.BeginTransaction(pin, settings);
    case EndTransaction(pin) => spi.EndTransaction(pin);
    case End => spi.End();
    case Transmit(pin, data) => var _ := spi.TransferBuffer(pin, data);
  }

  /** Whatever the calls, the slot table and the lazily programmed peripheral do what the map says. */
  method PerformAll(spi: SPIClass, ops: seq<Op>)
    requires spi.Valid()
    modifies spi, spi.spiSettings
    ensures spi.Valid()
    ensures Simple(spi.given, spi.log) == ApplyAll(Simple(old(spi.given), old(spi.log)), ops, spi.spiSettings.Length, spi.Accepted)
  {
    hide Apply;
    for i := 0 to |ops|
      invariant spi.Valid()
      invariant Simple(spi.given, spi.log)
             == ApplyAll(Simple(old(spi.given), old(spi.log)), ops[..i], spi.spiSettings.Length, spi.Accepted)
    {
      Perform(spi, ops[i]);
      assert ops[..i + 1][..i] == ops[..i];
    }
    assert ops[..|ops|] == ops;
  }

  /** The reference for a new port, after some calls. */
  function After(ops: seq<Op>, slots: nat, accepted: byte -> bool): Simple {
    ApplyAll(Simple(map[], []), ops, slots, accepted)
  }

  predicate Gives(op: Op, pin: byte) {
    op.BeginTransaction? && op.pin == pin
  }

  predicate Removes(op: Op, pin: byte) {
    op.End? || (op.EndTransaction? && op.pin == pin)
  }

  /** The last `beginTransaction` for the pin among the calls since the pin was last removed; -1 if there is none. */
  function LastGiven(ops: seq<Op>, pin: byte): (j: int)
    ensures -1 <= j < |ops| && (j >= 0 ==> Gives(ops[j], pin))
  {
    if ops == [] then -1
    else
      var n := |ops| - 1;
      if Gives(ops[n], pin) then n else if Removes(ops[n], pin) then -1 else LastGiven(ops[..n], pin)
  }

  /** The settings given by call `j`, if the pin had a slot after it; otherwise the defaults. */
  function GivenBy(ops: seq<Op>, j: int, pin: byte, slots: nat, accepted: byte -> bool): Config
    requires -1 <= j < |ops| && (j >= 0 ==> Gives(ops[j], pin))
  {
    if j >= 0 && pin in After(ops[..j + 1], slots, accepted).given then ops[j].settings else DEFAULT
  }

  /** What one call does for one pin. */
  lemma OneCall(s: Simple, op: Op, pin: byte, slots: nat, accepted: byte -> bool)
    ensures var t := Apply(s, op, slots, accepted);
            if Gives(op, pin) then if pin in t.given then t.given[pin] == op.settings else pin !in s.given
            else if Removes(op, pin) then pin !in t.given
            else if pin in s.given then pin in t.given && t.given[pin] == s.given[pin]
            else pin in t.given ==> t.given[pin] == DEFAULT
  {
  }

  /** Fewer calls, same call `j`. */
  lemma GivenByPrefix(ops: seq<Op>, n: nat, j: int, pin: byte, slots: nat, accepted: byte -> bool)
    requires -1 <= j < n <= |ops| && (j >= 0 ==> Gives(ops[j], pin))
    ensures GivenBy(ops[..n], j, pin, slots, accepted) == GivenBy(ops, j, pin, slots, accepted)
  {
    assert j >= 0 ==> ops[..n][..j + 1] == ops[..j + 1];
  }

  /**
   * The settings of a pin with a slot are those of its last `beginTransaction` since it was last removed, if
   * that call found a slot; they are the defaults if it found none, or if there was none.
   */
  lemma {:induction false} SettingsAreLastGiven(ops: seq<Op>, pin: byte, slots: nat, accepted: byte -> bool)
    ensures var s, given := After(ops, slots, accepted), GivenBy(ops, LastGiven(ops, pin), pin, slots, accepted);
            if pin in s.given then s.given[pin] == given else given == DEFAULT
    decreases |ops|
  {
    hide Apply, Gives, Removes;
    if ops != [] {
      var n := |ops| - 1;
      OneCall(After(ops[..n], slots, accepted), ops[n], pin, slots, accepted);
      SettingsAreLastGiven(ops[..n], pin, slots, accepted);
      if Gives(ops[n], pin) {
        assert ops[..n + 1] == ops;
      } else if !Removes(ops[n], pin) {
        GivenByPrefix(ops, n, LastGiven(ops[..n], pin), pin, slots, accepted);
      }
    }
  }

  lemma LogGrows(s: Simple, op: Op, slots: nat, accepted: byte -> bool)
    ensures s.log <= Apply(s, op, slots, accepted).log
  {
  }

  /** After `k` calls, the log goes on with this transfer. */
  ghost predicate Logged(s: Simple, t: Transfer, log: seq<Transfer>) {
    s.log + [t] <= log
  }

  lemma {:induction false} StaysLogged(ops: seq<Op>, k: nat, t: Transfer, slots: nat, accepted: byte -> bool)
    requires k < |ops| && Logged(After(ops[..k], slots, accepted), t, After(ops[..k + 1], slots, accepted).log)
    ensures Logged(After(ops[..k], slots, accepted), t, After(ops, slots, accepted).log)
    decreases |ops|
  {
    hide Apply;
    var n := |ops| - 1;
    if k < n {
      assert ops[..n][..k] == ops[..k] && ops[..n][..k + 1] == ops[..k + 1];
      StaysLogged(ops[..n], k, t, slots, accepted);
      LogGrows(After(ops[..n], slots, accepted), ops[n], slots, accepted);
    } else {
      assert ops[..k + 1] == ops;
    }
  }

  /**
   * In every run of these calls, every transfer for a pin with a slot runs with the settings given by the pin's
   * last `beginTransaction` since it was last removed, or with the defaults.
   */
  lemma TransfersUseTheirSettings(ops: seq<Op>, k: nat, slots: nat, accepted: byte -> bool)
    requires k < |ops| && ops[k].Transmit? && ops[k].data != []
    requires ops[k].pin in After(ops[..k], slots, accepted).given
    ensures var calls, pin := ops[..k], ops[k].pin;
            var settings := GivenBy(calls, LastGiven(calls, pin), pin, slots, accepted);
            Logged(After(calls, slots, accepted), Transfer(pin, Some(settings), ops[k].data), After(ops, slots, accepted).log)
  {
    hide GivenBy, LastGiven;
    var calls, pin := ops[..k], ops[k].pin;
    SettingsAreLastGiven(calls, pin, slots, accepted);
    assert ops[..k + 1][..k] == calls;
    StaysLogged(ops, k, Transfer(pin, Some(After(calls, slots, accepted).given[pin]), ops[k].data), slots, accepted);
  }

  /** A `beginTransaction` that finds the table full is forgotten, also when the pin gets a slot later. */
  lemma RefusedSettings(settings: Config, accepted: byte -> bool)
    requires accepted(1) && accepted(2)
    ensures var ops := [Begin(1), BeginTransaction(2, settings), EndTransaction(1), Begin(2)];
            LastGiven(ops, 2) == 1 && 2 in After(ops, 1, accepted).given && After(ops, 1, accepted).given[2] == DEFAULT
  {
    var ops := [Begin(1), BeginTransaction(2, settings), EndTransaction(1), Begin(2)];
    assert ops[..3] == [Begin(1), BeginTransaction(2, settings), EndTransaction(1)];
    assert ops[..3][..2] == [Begin(1), BeginTransaction(2, settings)];
    assert ops[..3][..2][..1] == [Begin(1)];
    var s1 := After([Begin(1)], 1, accepted);
    assert [Begin(1)][..0] == [] && s1.given == map[1 := DEFAULT];
    var s2 := After(ops[..3][..2], 1, accepted);
    assert s2.given == s1.given;
    var s3 := After(ops[..3], 1, accepted);
    assert s3.given == map[];
    assert LastGiven(ops[..3][..2], 2) == 1;
    assert LastGiven(ops[..3], 2) == 1;
  }

  /** A sequence of calls after which a transfer runs with the settings of another pin. */
  method StaleSettings(digitalPinIsValid: byte -> bool) returns (spi: SPIClass)
    ensures spi.TableOk() && |spi.log| == 1 && spi.log[0].pin == 2 && 2 in spi.given
    ensures spi.log[0].config != Some(spi.given[2])
  {
    hide Agrees;
    spi := new SPIClass(4, 8, digitalPinIsValid);
    spi.Begin(1);
    spi.Begin(2);
    spi.SetBitOrder(1, LsbFirst);
    var _ := spi.Exchange(2, [0]);
  }

  lemma SlotFilled(was: seq<Slot>, now: seq<Slot>, given: map<int, Config>, i: nat, pin: byte)
    requires Agrees(was, given) && i < |was| && was[i].pinCS == -1 && pin !in given
    requires now == was[i := was[i].(pinCS := pin)]
    ensures Agrees(now, given[pin as int := DEFAULT])
  {
    var given' := given[pin as int := DEFAULT];
    forall p | p in given' ensures exists j :: 0 <= j < |now| && now[j].pinCS == p {
      if p == pin {
        assert now[i].pinCS == p;
      } else {
        var j :| 0 <= j < |was| && was[j].pinCS == p;
        assert now[j].pinCS == p;
      }
    }
  }

  lemma SlotUpdated(was: seq<Slot>, now: seq<Slot>, given: map<int, Config>, i: nat, pin: byte, config: Config)
    requires Agrees(was, given) && i < |was| && was[i].pinCS == pin && pin in given
    requires now == was[i := was[i].(config := config)]
    ensures Agrees(now, given[pin as int := config])
  {
    assert forall j | 0 <= j < |now| :: now[j].pinCS == was[j].pinCS;
    forall p | p in given ensures exists j :: 0 <= j < |now| && now[j].pinCS == p {
      var j :| 0 <= j < |was| && was[j].pinCS == p;
      assert now[j].pinCS == p;
    }
  }

  lemma SlotFreed(was: seq<Slot>, now: seq<Slot>, given: map<int, Config>, pin: byte)
    requires Agrees(was, given) && |now| == |was|
    requires forall j | 0 <= j < |was| :: now[j] == if was[j].pinCS == pin then Slot(-1, DEFAULT) else was[j]
    ensures Agrees(now, given - {pin as int})
  {
    var rest := given - {pin as int};
    forall p | p in rest ensures exists j :: 0 <= j < |now| && now[j].pinCS == p {
      var j :| 0 <= j < |was| && was[j].pinCS == p;
      assert now[j].pinCS == p;
    }
  }
}
