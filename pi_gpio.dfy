/** utils/arm_controller/pi_gpio_controller.py: four relays driven through
    GPIO pins. A relay's logical state (ON/OFF) becomes a pin level through
    `inverse_logic`; actions A-D are sent as a 3-bit code on relays R2-R4,
    with R1 as the strobe that says the code is valid.

    The GPIO outputs are the ordered log `outputs` of `GPIO.output(pin,
    level)` calls (level true is HIGH); a pin's current level is its last
    write. Without RPi.GPIO the controller only simulates: no output is
    ever written. The relay sequences run in a thread with sleeps in the
    source; here each runs to completion as one method call. */
module PiGpio {
  import opened Common

  /** `GPIO.LOW if inverse_logic else GPIO.HIGH` for ON, the opposite for OFF. */
  function Level(state: bool, inverseLogic: bool): (high: bool)
    ensures high <==> state != inverseLogic
  {
    if inverseLogic then !state else state
  }

  /** The level of `pin` after the writes `ws`: its last write, if any. */
  function LevelOf(ws: seq<(int, bool)>, pin: int): Option<bool>
  {
    if ws == [] then None
    else if ws[|ws| - 1].0 == pin then Some(ws[|ws| - 1].1)
    else LevelOf(ws[..|ws| - 1], pin)
  }

  /** Writes of logical states `states` to relays 0, 1, ... in order. */
  function RelayWrites(pins: seq<int>, states: seq<bool>, inverseLogic: bool): (ws: seq<(int, bool)>)
    requires |states| <= |pins|
    ensures |ws| == |states|
    ensures forall j | 0 <= j < |states| :: ws[j] == (pins[j], Level(states[j], inverseLogic))
  {
    seq(|states|, j requires 0 <= j < |states| => (pins[j], Level(states[j], inverseLogic)))
  }

  const AllOff: seq<bool> := [false, false, false, false]

  /** The four relays' pins are distinct. */
  predicate DistinctPins(pins: seq<int>)
  {
    forall i, j | 0 <= i < j < |pins| :: pins[i] != pins[j]
  }

  datatype Action = A | B | C | D

  /** The code an action puts on R2, R3, R4 (`trigger_action_A` .. `_D`). */
  function Encoding(a: Action): (bool, bool, bool)
  {
    match a
    case A => (false, false, true)
    case B => (false, true, false)
    case C => (false, true, true)
    case D => (true, false, false)
  }

  /** A 3-bit code read as a binary number, R2 the high bit. */
  function CodeValue(code: (bool, bool, bool)): nat
  {
    (if code.0 then 4 else 0) + (if code.1 then 2 else 0) + (if code.2 then 1 else 0)
  }

  /** The position of the action in A, B, C, D, from 1. */
  function Ordinal(a: Action): nat
  {
    match a
    case A => 1
    case B => 2
    case C => 3
    case D => 4
  }

  class PiGpioController {
    const relayPins: seq<int>
    const inverseLogic: bool
    const gpioAvailable: bool
    /** Every `GPIO.output(pin, level)` so far, in order. */
    var outputs: seq<(int, bool)>

    /** With GPIO present there are exactly four relay pins. */
    predicate Valid()
    {
      gpioAvailable ==> |relayPins| == 4
    }

    /** The write `_set_relay_state(i, state)` makes. */
    function Write(i: nat, state: bool): (int, bool)
      requires Valid() && gpioAvailable && i < 4
    {
      (relayPins[i], Level(state, inverseLogic))
    }

    /** The writes of the protocol sequence for code (r2, r3, r4). */
    function ProtocolWrites(r2: bool, r3: bool, r4: bool): (ws: seq<(int, bool)>)
      requires Valid() && gpioAvailable
      ensures |ws| == 9
    {
      [Write(0, false), Write(1, r2), Write(2, r3), Write(3, r4), Write(0, true)] + RelayWrites(relayPins, AllOff, inverseLogic)
    }

    /** The writes of the encoding sequence for code (r2, r3, r4). */
    function EncodingWrites(r2: bool, r3: bool, r4: bool): (ws: seq<(int, bool)>)
      requires Valid() && gpioAvailable
      ensures |ws| == 8
    {
      [Write(0, true), Write(1, r2), Write(2, r3), Write(3, r4)] + RelayWrites(relayPins, AllOff, inverseLogic)
    }

    constructor Init(relayPins: seq<int>, inverseLogic: bool, gpioAvailable: bool)
      requires gpioAvailable ==> |relayPins| == 4
      ensures Valid()
      ensures this.relayPins == relayPins && this.inverseLogic == inverseLogic && this.gpioAvailable == gpioAvailable
      ensures outputs == []
    {
      this.relayPins := relayPins;
      this.inverseLogic := inverseLogic;
      this.gpioAvailable := gpioAvailable;
      outputs := [];
    }

    /** `PiGPIOController(relay_pins, inverse_logic=...)`: raises when GPIO is
        present and there are not four pins; with GPIO, ends with all relays OFF. */
    static method Create(relayPins: seq<int>, inverseLogic: bool, gpioAvailable: bool) returns (r: Result<PiGpioController>)
      ensures gpioAvailable && |relayPins| != 4 <==> r.Raised?
      ensures r.Ok? ==> fresh(r.value) && r.value.Valid() &&
                        r.value.relayPins == relayPins && r.value.inverseLogic == inverseLogic &&
                        r.value.gpioAvailable == gpioAvailable
      ensures r.Ok? && !gpioAvailable ==> r.value.outputs == []
      ensures r.Ok? && gpioAvailable ==> r.value.outputs == RelayWrites(relayPins, AllOff, inverseLogic)
    {
      if gpioAvailable && |relayPins| != 4 {
        return Raised("ValueError");
      }
      var c := new PiGpioController.Init(relayPins, inverseLogic, gpioAvailable);
      if gpioAvailable {
        c.AllRelaysOff();
      }
      return Ok(c);
    }

    /** `_set_relay_state(relay_index, state)` */
    method SetRelayState(i: nat, state: bool)
      requires Valid() && i < 4
      modifies this
      ensures !gpioAvailable ==> outputs == old(outputs)
      ensures gpioAvailable ==> outputs == old(outputs) + [Write(i, state)]
    {
      if !gpioAvailable {
        return;
      }
      var pin := relayPins[i];
      var levelForOn := if inverseLogic then false else true;
      var levelForOff := if inverseLogic then true else false;
      outputs := outputs + [(pin, if state then levelForOn else levelForOff)];
    }

    /** `_set_all_relays(r1_on, r2_on, r3_on, r4_on)` */
    method SetAllRelays(r1: bool, r2: bool, r3: bool, r4: bool)
      requires Valid()
      modifies this
      ensures !gpioAvailable ==> outputs == old(outputs)
      ensures gpioAvailable ==> outputs == old(outputs) + RelayWrites(relayPins, [r1, r2, r3, r4], inverseLogic)
    {
      if !gpioAvailable {
        return;
      }
      var states := [r1, r2, r3, r4];
      var i := 0;
      while i < 4
        invariant 0 <= i <= 4
        invariant outputs == old(outputs) + RelayWrites(relayPins, states[..i], inverseLogic)
      {
        SetRelayState(i, states[i]);
        assert RelayWrites(relayPins, states[..i + 1], inverseLogic) ==
               RelayWrites(relayPins, states[..i], inverseLogic) + [Write(i, states[i])];
        i := i + 1;
      }
      assert states[..4] == states;
    }

    /** `all_relays_off()` */
    method AllRelaysOff()
      requires Valid()
      modifies this
      ensures !gpioAvailable ==> outputs == old(outputs)
      ensures gpioAvailable ==> outputs == old(outputs) + RelayWrites(relayPins, AllOff, inverseLogic)
    {
      SetAllRelays(false, false, false, false);
    }

    /** The body of `_execute_arm_sequence` and of the thread of
        `_execute_arm_sequence_async`: set all four, then all OFF. */
    method RunPlainSequence(r1: bool, r2: bool, r3: bool, r4: bool)
      requires Valid()
      modifies this
      ensures !gpioAvailable ==> outputs == old(outputs)
      ensures gpioAvailable ==> outputs == old(outputs) + RelayWrites(relayPins, [r1, r2, r3, r4], inverseLogic) +
                                           RelayWrites(relayPins, AllOff, inverseLogic)
    {
      SetAllRelays(r1, r2, r3, r4);
      AllRelaysOff();
    }

    /** The thread body of `_execute_arm_sequence_with_encoding`. */
    method RunEncodingSequence(r2: bool, r3: bool, r4: bool)
      requires Valid()
      modifies this
      ensures !gpioAvailable ==> outputs == old(outputs)
      ensures gpioAvailable ==> outputs == old(outputs) + EncodingWrites(r2, r3, r4)
    {
      SetRelayState(0, true);
      SetRelayState(1, r2);
      SetRelayState(2, r3);
      SetRelayState(3, r4);
      AllRelaysOff();
    }

    /** The thread body of `_execute_arm_sequence_with_protocol`. */
    method RunProtocolSequence(r2: bool, r3: bool, r4: bool)
      requires Valid()
      modifies this
      ensures !gpioAvailable ==> outputs == old(outputs)
      ensures gpioAvailable ==> outputs == old(outputs) + ProtocolWrites(r2, r3, r4)
    {
      SetRelayState(0, false);
      SetRelayState(1, r2);
      SetRelayState(2, r3);
      SetRelayState(3, r4);
      SetRelayState(0, true);
      AllRelaysOff();
    }

    /** `trigger_action_A()` .. `trigger_action_D()` */
    method TriggerAction(a: Action)
      requires Valid()
      modifies this
      ensures !gpioAvailable ==> outputs == old(outputs)
      ensures gpioAvailable ==> outputs == old(outputs) + ProtocolWrites(Encoding(a).0, Encoding(a).1, Encoding(a).2)
    {
      match a {
        case A => RunProtocolSequence(false, false, true);
        case B => RunProtocolSequence(false, true, false);
        case C => RunProtocolSequence(false, true, true);
        case D => RunProtocolSequence(true, false, false);
      }
    }

    /** `cleanup()`: all relays OFF first (releasing the pins is not modelled). */
    method Cleanup()
      requires Valid()
      modifies this
      ensures !gpioAvailable ==> outputs == old(outputs)
      ensures gpioAvailable ==> outputs == old(outputs) + RelayWrites(relayPins, AllOff, inverseLogic)
    {
      if !gpioAvailable {
        return;
      }
      AllRelaysOff();
    }
  }

  // ---------------------------------------------------------------------
  // Properties

  /** The level mapping is a bijection for either polarity: the logical
      state can be read back from the level, and ON with inverse logic is LOW. */
  lemma LevelSpec(inverseLogic: bool)
    ensures Level(true, inverseLogic) != Level(false, inverseLogic)
    ensures Level(true, true) == false && Level(false, true) == true
    ensures Level(true, false) == true && Level(false, false) == false
  {
  }

  /** Later writes win: the level after `ws + vs` is the one after `vs`
      when `vs` writes the pin. */
  lemma {:induction false} LevelOfAppend(ws: seq<(int, bool)>, vs: seq<(int, bool)>, pin: int)
    ensures LevelOf(ws + vs, pin) == if LevelOf(vs, pin).Some? then LevelOf(vs, pin) else LevelOf(ws, pin)
  {
    if vs != [] {
      var u := ws + vs;
      assert u[..|u| - 1] == ws + vs[..|vs| - 1];
      LevelOfAppend(ws, vs[..|vs| - 1], pin);
    } else {
      assert ws + vs == ws;
    }
  }

  /** The last write to a pin decides its level. */
  lemma {:induction false} LastWriteWins(vs: seq<(int, bool)>, i: nat)
    requires i < |vs|
    requires forall j | i < j < |vs| :: vs[j].0 != vs[i].0
    ensures LevelOf(vs, vs[i].0) == Some(vs[i].1)
  {
    if i < |vs| - 1 {
      var init := vs[..|vs| - 1];
      assert init[i] == vs[i];
      LastWriteWins(init, i);
    }
  }

  /** A pin not written keeps its level. */
  lemma {:induction false} Unwritten(vs: seq<(int, bool)>, pin: int)
    requires forall j | 0 <= j < |vs| :: vs[j].0 != pin
    ensures LevelOf(vs, pin) == None
  {
    if vs != [] {
      Unwritten(vs[..|vs| - 1], pin);
    }
  }

  /** Writes that all carry the same level leave every written pin at it. */
  lemma {:induction false} UniformWrites(vs: seq<(int, bool)>, level: bool, k: nat)
    requires k < |vs| && forall j | 0 <= j < |vs| :: vs[j].1 == level
    ensures LevelOf(vs, vs[k].0) == Some(level)
  {
    if vs[|vs| - 1].0 != vs[k].0 {
      var init := vs[..|vs| - 1];
      assert k < |vs| - 1 && init[k] == vs[k];
      UniformWrites(init, level, k);
    }
  }

  /** `all_relays_off` leaves every relay pin at the OFF level, whatever was
      written before and even if two relays share a pin. */
  lemma AllOffLeavesOff(before: seq<(int, bool)>, pins: seq<int>, inverseLogic: bool, i: nat)
    requires |pins| == 4 && i < 4
    ensures LevelOf(before + RelayWrites(pins, AllOff, inverseLogic), pins[i]) == Some(Level(false, inverseLogic))
  {
    var vs := RelayWrites(pins, AllOff, inverseLogic);
    UniformWrites(vs, Level(false, inverseLogic), i);
    LevelOfAppend(before, vs, pins[i]);
  }

  /** `_set_all_relays` sets relay i to `states[i]` for every i. */
  lemma SetAllSetsEach(before: seq<(int, bool)>, pins: seq<int>, states: seq<bool>, inverseLogic: bool, i: nat)
    requires |pins| == 4 && |states| == 4 && DistinctPins(pins) && i < 4
    ensures LevelOf(before + RelayWrites(pins, states, inverseLogic), pins[i]) == Some(Level(states[i], inverseLogic))
  {
    var vs := RelayWrites(pins, states, inverseLogic);
    LastWriteWins(vs, i);
    LevelOfAppend(before, vs, pins[i]);
  }

  /** `_set_all_relays` writes only the four relay pins. */
  lemma SetAllTouchesOnlyRelays(before: seq<(int, bool)>, pins: seq<int>, states: seq<bool>, inverseLogic: bool, pin: int)
    requires |pins| == 4 && |states| == 4 && pin !in pins
    ensures LevelOf(before + RelayWrites(pins, states, inverseLogic), pin) == LevelOf(before, pin)
  {
    var vs := RelayWrites(pins, states, inverseLogic);
    Unwritten(vs, pin);
    LevelOfAppend(before, vs, pin);
  }

  /** The actions' codes are 001, 010, 011, 100: the binary of 1 to 4, so
      distinct actions send distinct codes. */
  lemma EncodingIsBinaryOrdinal(a: Action)
    ensures CodeValue(Encoding(a)) == Ordinal(a)
    ensures forall b: Action | b != a :: Encoding(b) != Encoding(a)
  {
  }

  /** The protocol, first phase: after the first four writes R1 is OFF and
      R2-R4 hold the code. */
  lemma ProtocolCodeSet(c: PiGpioController, before: seq<(int, bool)>, r2: bool, r3: bool, r4: bool)
    requires c.Valid() && c.gpioAvailable && DistinctPins(c.relayPins)
    ensures var after := before + c.ProtocolWrites(r2, r3, r4)[..4];
            && LevelOf(after, c.relayPins[0]) == Some(Level(false, c.inverseLogic))
            && LevelOf(after, c.relayPins[1]) == Some(Level(r2, c.inverseLogic))
            && LevelOf(after, c.relayPins[2]) == Some(Level(r3, c.inverseLogic))
            && LevelOf(after, c.relayPins[3]) == Some(Level(r4, c.inverseLogic))
  {
    var states := [false, r2, r3, r4];
    assert c.ProtocolWrites(r2, r3, r4)[..4] == RelayWrites(c.relayPins, states, c.inverseLogic);
    SetAllSetsEach(before, c.relayPins, states, c.inverseLogic, 0);
    SetAllSetsEach(before, c.relayPins, states, c.inverseLogic, 1);
    SetAllSetsEach(before, c.relayPins, states, c.inverseLogic, 2);
    SetAllSetsEach(before, c.relayPins, states, c.inverseLogic, 3);
  }

  /** The protocol, second phase: the fifth write raises R1 and leaves R2-R4
      as they were. */
  lemma ProtocolStrobe(c: PiGpioController, before: seq<(int, bool)>, r2: bool, r3: bool, r4: bool)
    requires c.Valid() && c.gpioAvailable && DistinctPins(c.relayPins)
    ensures var ws := c.ProtocolWrites(r2, r3, r4);
            && LevelOf(before + ws[..5], c.relayPins[0]) == Some(Level(true, c.inverseLogic))
            && forall i | 1 <= i < 4 :: LevelOf(before + ws[..5], c.relayPins[i]) == LevelOf(before + ws[..4], c.relayPins[i])
  {
    var ws := c.ProtocolWrites(r2, r3, r4);
    assert before + ws[..5] == (before + ws[..4]) + [ws[4]];
  }

  /** The protocol, last phase: the sequence ends with all four OFF. */
  lemma ProtocolEndsOff(c: PiGpioController, before: seq<(int, bool)>, r2: bool, r3: bool, r4: bool)
    requires c.Valid() && c.gpioAvailable
    ensures forall i | 0 <= i < 4 :: LevelOf(before + c.ProtocolWrites(r2, r3, r4), c.relayPins[i]) == Some(Level(false, c.inverseLogic))
  {
    var ws := c.ProtocolWrites(r2, r3, r4);
    var head := before + ws[..5];
    assert before + ws == head + RelayWrites(c.relayPins, AllOff, c.inverseLogic);
    forall i | 0 <= i < 4 ensures LevelOf(before + ws, c.relayPins[i]) == Some(Level(false, c.inverseLogic)) {
      AllOffLeavesOff(head, c.relayPins, c.inverseLogic, i);
    }
  }

  /** The encoding variant, first phase: R1 is raised together with the code. */
  lemma EncodingCodeSet(c: PiGpioController, before: seq<(int, bool)>, r2: bool, r3: bool, r4: bool)
    requires c.Valid() && c.gpioAvailable && DistinctPins(c.relayPins)
    ensures var after := before + c.EncodingWrites(r2, r3, r4)[..4];
            && LevelOf(after, c.relayPins[0]) == Some(Level(true, c.inverseLogic))
            && LevelOf(after, c.relayPins[1]) == Some(Level(r2, c.inverseLogic))
            && LevelOf(after, c.relayPins[2]) == Some(Level(r3, c.inverseLogic))
            && LevelOf(after, c.relayPins[3]) == Some(Level(r4, c.inverseLogic))
  {
    var states := [true, r2, r3, r4];
    assert c.EncodingWrites(r2, r3, r4)[..4] == RelayWrites(c.relayPins, states, c.inverseLogic);
    SetAllSetsEach(before, c.relayPins, states, c.inverseLogic, 0);
    SetAllSetsEach(before, c.relayPins, states, c.inverseLogic, 1);
    SetAllSetsEach(before, c.relayPins, states, c.inverseLogic, 2);
    SetAllSetsEach(before, c.relayPins, states, c.inverseLogic, 3);
  }

  /** The encoding variant ends with all four OFF. */
  lemma EncodingEndsOff(c: PiGpioController, before: seq<(int, bool)>, r2: bool, r3: bool, r4: bool)
    requires c.Valid() && c.gpioAvailable
    ensures forall i | 0 <= i < 4 :: LevelOf(before + c.EncodingWrites(r2, r3, r4), c.relayPins[i]) == Some(Level(false, c.inverseLogic))
  {
    var ws := c.EncodingWrites(r2, r3, r4);
    var head := before + ws[..4];
    assert before + ws == head + RelayWrites(c.relayPins, AllOff, c.inverseLogic);
    forall i | 0 <= i < 4 ensures LevelOf(before + ws, c.relayPins[i]) == Some(Level(false, c.inverseLogic)) {
      AllOffLeavesOff(head, c.relayPins, c.inverseLogic, i);
    }
  }
}
