/** GPIO edge triggers over whole sample histories. */
module Gpio {
  import opened Octets

  const MASK_MAX: u32 := 0xFFFF_FFFF

  datatype TriggerConfig = TriggerConfig(changeEnable: u32, risingEnable: u32, fallingEnable: u32)

  datatype TriggerSignals = TriggerSignals(changed: u32, rising: u32, falling: u32)

  function EvaluateTriggers(config: TriggerConfig, previous: u32, current: u32): TriggerSignals {
    var diff := previous ^ current;
    var rose := diff & current;
    var fell := diff & previous;
    TriggerSignals(diff & config.changeEnable, rose & config.risingEnable, fell & config.fallingEnable)
  }

  /** A mask of exactly one pin. */
  predicate IsPin(pin: u32) {
    pin != 0 && pin & (pin - 1) == 0
  }

  predicate High(mask: u32, pin: u32) {
    mask & pin != 0
  }

  /** Both edges of the pin are armed. */
  predicate Armed(config: TriggerConfig, pin: u32) {
    High(config.risingEnable, pin) && High(config.fallingEnable, pin)
  }

  lemma AndIsPinOrZero(x: u32, pin: u32)
    requires IsPin(pin)
    ensures x & pin == 0 || x & pin == pin
  {
  }

  /** On every pin a signal is exactly an armed transition. */
  lemma SignalsAreTransitions(config: TriggerConfig, previous: u32, current: u32, pin: u32)
    requires IsPin(pin)
    ensures var s := EvaluateTriggers(config, previous, current);
            && (High(s.rising, pin) <==> High(config.risingEnable, pin) && !High(previous, pin) && High(current, pin))
            && (High(s.falling, pin) <==> High(config.fallingEnable, pin) && High(previous, pin) && !High(current, pin))
            && (High(s.changed, pin) <==> High(config.changeEnable, pin) && High(previous, pin) != High(current, pin))
  {
    RisingIs(config, previous, current, pin);
    FallingIs(config, previous, current, pin);
    ChangedIs(config, previous, current, pin);
    hide *;
  }

  lemma RisingIs(config: TriggerConfig, previous: u32, current: u32, pin: u32)
    requires IsPin(pin)
    ensures High(EvaluateTriggers(config, previous, current).rising, pin) <==>
              High(config.risingEnable, pin) && !High(previous, pin) && High(current, pin)
  {
    hide High, IsPin;
    RisingBit(previous, current, config.risingEnable, pin);
  }

  lemma FallingIs(config: TriggerConfig, previous: u32, current: u32, pin: u32)
    requires IsPin(pin)
    ensures High(EvaluateTriggers(config, previous, current).falling, pin) <==>
              High(config.fallingEnable, pin) && High(previous, pin) && !High(current, pin)
  {
    hide High, IsPin;
    FallingBit(previous, current, config.fallingEnable, pin);
  }

  lemma ChangedIs(config: TriggerConfig, previous: u32, current: u32, pin: u32)
    requires IsPin(pin)
    ensures High(EvaluateTriggers(config, previous, current).changed, pin) <==>
              High(config.changeEnable, pin) && High(previous, pin) != High(current, pin)
  {
    hide High, IsPin;
    ChangedBit(previous, current, config.changeEnable, pin);
  }

  lemma RisingBit(x: u32, y: u32, mask: u32, pin: u32)
    requires IsPin(pin)
    ensures High((x ^ y) & y & mask, pin) <==> High(mask, pin) && !High(x, pin) && High(y, pin)
  {
    AndIsPinOrZero(x, pin);
    AndIsPinOrZero(y, pin);
    AndIsPinOrZero(mask, pin);
  }

  lemma FallingBit(x: u32, y: u32, mask: u32, pin: u32)
    requires IsPin(pin)
    ensures High((x ^ y) & x & mask, pin) <==> High(mask, pin) && High(x, pin) && !High(y, pin)
  {
    AndIsPinOrZero(x, pin);
    AndIsPinOrZero(y, pin);
    AndIsPinOrZero(mask, pin);
  }

  lemma ChangedBit(x: u32, y: u32, mask: u32, pin: u32)
    requires IsPin(pin)
    ensures High((x ^ y) & mask, pin) <==> High(mask, pin) && High(x, pin) != High(y, pin)
  {
    AndIsPinOrZero(x, pin);
    AndIsPinOrZero(y, pin);
    AndIsPinOrZero(mask, pin);
  }

  // ── Histories ────────────────────────────────────────────────────────────

  /** The signals between each sample and the next. */
  function Signals(config: TriggerConfig, history: seq<u32>): (s: seq<TriggerSignals>)
    ensures |s| == if history == [] then 0 else |history| - 1
  {
    if |history| <= 1 then []
    else [EvaluateTriggers(config, history[0], history[1])] + Signals(config, history[1..])
  }

  /** The edges one pin signals, in order: true for rising, false for falling. */
  function Edges(signals: seq<TriggerSignals>, pin: u32): seq<bool> {
    if signals == [] then []
    else
      (if High(signals[0].rising, pin) then [true] else [])
      + (if High(signals[0].falling, pin) then [false] else [])
      + Edges(signals[1..], pin)
  }

  function CountOf(edges: seq<bool>, which: bool): nat {
    if edges == [] then 0 else (if edges[0] == which then 1 else 0) + CountOf(edges[1..], which)
  }

  function Level(b: bool): int {
    if b then 1 else 0
  }

  ghost predicate Alternating(edges: seq<bool>) {
    forall i | 0 <= i < |edges| - 1 :: edges[i] != edges[i + 1]
  }

  lemma EdgesStep(config: TriggerConfig, history: seq<u32>, pin: u32)
    requires |history| >= 2 && IsPin(pin) && Armed(config, pin)
    ensures var (p, c) := (High(history[0], pin), High(history[1], pin));
            Edges(Signals(config, history), pin) ==
            (if p == c then [] else [c]) + Edges(Signals(config, history[1..]), pin)
  {
    hide EvaluateTriggers, High, IsPin, Armed, Signals;
    SignalsAreTransitions(config, history[0], history[1], pin);
    BothArmed(config, pin);
    SignalsStep(config, history);
    var s := Signals(config, history);
    var later := Edges(s[1..], pin);
    var (up, down) := (High(s[0].rising, pin), High(s[0].falling, pin));
    EdgesUnfold(s, pin);
    if up {
      assert [true] + [] + later == [true] + later;
    } else if down {
      assert [] + [false] + later == [false] + later;
    } else {
      assert [] + [] + later == [] + later;
    }
  }

  lemma BothArmed(config: TriggerConfig, pin: u32)
    requires Armed(config, pin)
    ensures High(config.risingEnable, pin) && High(config.fallingEnable, pin)
  {
  }

  lemma SignalsStep(config: TriggerConfig, history: seq<u32>)
    requires |history| >= 2
    ensures var s := Signals(config, history);
            && s != []
            && s[0] == EvaluateTriggers(config, history[0], history[1])
            && s[1..] == Signals(config, history[1..])
  {
    hide EvaluateTriggers;
  }

  lemma EdgesUnfold(s: seq<TriggerSignals>, pin: u32)
    requires s != []
    ensures Edges(s, pin) == (if High(s[0].rising, pin) then [true] else [])
                             + (if High(s[0].falling, pin) then [false] else [])
                             + Edges(s[1..], pin)
  {
    hide High;
  }

  /** Over any history an armed pin's rising and falling signals strictly alternate, start
      with the edge that leaves the first level, and balance: risings minus fallings is the
      last level minus the first. */
  lemma {:induction false} EdgesAccount(config: TriggerConfig, history: seq<u32>, pin: u32)
    requires history != [] && IsPin(pin) && Armed(config, pin)
    ensures var edges := Edges(Signals(config, history), pin);
            && Alternating(edges)
            && (edges != [] ==> edges[0] == !High(history[0], pin))
            && CountOf(edges, true) - CountOf(edges, false)
               == Level(High(history[|history| - 1], pin)) - Level(High(history[0], pin))
  {
    hide EvaluateTriggers, High, IsPin, Armed, Alternating, CountOf;
    if |history| >= 2 {
      hide Signals, Edges;
      EdgesStep(config, history, pin);
      EdgesAccount(config, history[1..], pin);
      var later := Edges(Signals(config, history[1..]), pin);
      var (p, c) := (High(history[0], pin), High(history[1], pin));
      if p != c {
        PrependEdge(c, later);
      } else {
        assert [] + later == later;
      }
    } else {
      NoEdges();
    }
  }

  lemma NoEdges()
    ensures Alternating([]) && CountOf([], true) == 0 && CountOf([], false) == 0
  {
  }

  lemma PrependEdge(c: bool, later: seq<bool>)
    requires Alternating(later) && (later != [] ==> later[0] == !c)
    ensures Alternating([c] + later)
    ensures CountOf([c] + later, c) == 1 + CountOf(later, c)
    ensures CountOf([c] + later, !c) == CountOf(later, !c)
  {
    var edges := [c] + later;
    assert edges[1..] == later;
    assert forall i | 1 <= i < |edges| :: edges[i] == later[i - 1];
  }

  // ── What the signals tell about the history ──────────────────────────────

  /** The sample that follows, from the one before and the signals. */
  function Apply(previous: u32, s: TriggerSignals): u32 {
    previous ^ (s.changed | s.rising | s.falling)
  }

  function Rebuild(first: u32, signals: seq<TriggerSignals>): (history: seq<u32>)
    ensures |history| == |signals| + 1 && history[0] == first
    decreases signals
  {
    if signals == [] then [first] else [first] + Rebuild(Apply(first, signals[0]), signals[1..])
  }

  /** The pins whose every transition is signalled: armed for changes, or on both edges. */
  function Watched(config: TriggerConfig): u32 {
    config.changeEnable | (config.risingEnable & config.fallingEnable)
  }

  predicate AllWatched(config: TriggerConfig, mask: u32) {
    Watched(config) & mask == mask
  }

  /** `x` and `y` agree on the pins of `mask`. */
  predicate Agree(x: u32, y: u32, mask: u32) {
    x & mask == y & mask
  }

  lemma ApplyFollows(config: TriggerConfig, previous: u32, current: u32, known: u32, mask: u32)
    requires AllWatched(config, mask) && Agree(known, previous, mask)
    ensures Agree(Apply(known, EvaluateTriggers(config, previous, current)), current, mask)
  {
  }

  /** Whatever is known of the first sample is known of the whole history: on any set of
      watched pins the signals rebuild every sample from the first. */
  lemma {:induction false} HistoryRebuilt(config: TriggerConfig, history: seq<u32>, first: u32, mask: u32)
    requires history != []
    requires AllWatched(config, mask) && Agree(first, history[0], mask)
    ensures var rebuilt := Rebuild(first, Signals(config, history));
            |rebuilt| == |history| && forall i | 0 <= i < |history| :: Agree(rebuilt[i], history[i], mask)
    decreases history
  {
    hide EvaluateTriggers, Apply, Agree, AllWatched;
    if |history| == 1 {
      assert Rebuild(first, Signals(config, history)) == [first];
    } else {
      SignalsStep(config, history);
      var s := Signals(config, history);
      var second := Apply(first, s[0]);
      ApplyFollows(config, history[0], history[1], first, mask);
      HistoryRebuilt(config, history[1..], second, mask);
      assert Rebuild(first, s) == [first] + Rebuild(second, s[1..]);
      assert forall i | 1 <= i < |history| :: history[i] == history[1..][i - 1];
    }
  }

  /** With every pin watched the first sample and the signals are the history. */
  lemma WholeHistoryRebuilt(config: TriggerConfig, history: seq<u32>)
    requires history != [] && Watched(config) == MASK_MAX
    ensures Rebuild(history[0], Signals(config, history)) == history
  {
    hide Watched, Agree, Rebuild, Signals;
    AgreeEverywhere(history[0], history[0]);
    HistoryRebuilt(config, history, history[0], MASK_MAX);
    forall i | 0 <= i < |history|
      ensures Rebuild(history[0], Signals(config, history))[i] == history[i]
    {
      AgreeEverywhere(Rebuild(history[0], Signals(config, history))[i], history[i]);
    }
  }

  lemma AgreeEverywhere(x: u32, y: u32)
    ensures Agree(x, y, MASK_MAX) <==> x == y
  {
  }

  /** The signals determine the pin's history: two histories that start alike on the pin and
      signal alike are alike on it throughout. */
  ghost predicate Determined(config: TriggerConfig, pin: u32) {
    forall a: seq<u32>, b: seq<u32> {:trigger Signals(config, a), Signals(config, b)} |
      a != [] && |a| == |b| && Agree(a[0], b[0], pin) && Signals(config, a) == Signals(config, b) ::
      forall i | 0 <= i < |a| :: Agree(a[i], b[i], pin)
  }

  /** A pin's history is determined exactly when the pin is watched. */
  lemma DeterminedIff(config: TriggerConfig, pin: u32)
    requires IsPin(pin)
    ensures Determined(config, pin) <==> High(Watched(config), pin)
  {
    hide EvaluateTriggers, IsPin, Signals, Watched, High, Agree;
    if High(Watched(config), pin) {
      PinWatched(config, pin);
      forall a: seq<u32>, b: seq<u32> |
        a != [] && |a| == |b| && Agree(a[0], b[0], pin) && Signals(config, a) == Signals(config, b)
        ensures forall i | 0 <= i < |a| :: Agree(a[i], b[i], pin)
      {
        SameHistory(config, a, b, pin);
      }
    } else {
      var x, y, z := UnseenEdge(config, pin);
      var (a, b) := ([x, y], [x, z]);
      SignalsOfTwo(config, x, y);
      SignalsOfTwo(config, x, z);
      AgreeAgain(x, pin);
      assert !Agree(a[1], b[1], pin);
    }
  }

  lemma SameHistory(config: TriggerConfig, a: seq<u32>, b: seq<u32>, pin: u32)
    requires AllWatched(config, pin)
    requires a != [] && |a| == |b| && Agree(a[0], b[0], pin) && Signals(config, a) == Signals(config, b)
    ensures forall i | 0 <= i < |a| :: Agree(a[i], b[i], pin)
  {
    hide Signals, AllWatched, Rebuild, Agree;
    AgreeAgain(a[0], pin);
    HistoryRebuilt(config, a, a[0], pin);
    HistoryRebuilt(config, b, a[0], pin);
    forall i | 0 <= i < |a|
      ensures Agree(a[i], b[i], pin)
    {
      AgreeBoth(Rebuild(a[0], Signals(config, a))[i], a[i], b[i], pin);
    }
  }

  lemma AgreeAgain(x: u32, mask: u32)
    ensures Agree(x, x, mask)
  {
  }

  lemma AgreeBoth(r: u32, x: u32, y: u32, mask: u32)
    requires Agree(r, x, mask) && Agree(r, y, mask)
    ensures Agree(x, y, mask)
  {
  }

  lemma PinWatched(config: TriggerConfig, pin: u32)
    requires IsPin(pin) && High(Watched(config), pin)
    ensures AllWatched(config, pin)
  {
    hide Watched;
    AndIsPinOrZero(Watched(config), pin);
  }

  lemma SignalsOfTwo(config: TriggerConfig, x: u32, y: u32)
    ensures Signals(config, [x, y]) == [EvaluateTriggers(config, x, y)]
  {
    hide EvaluateTriggers;
    assert [x, y][1..] == [y];
  }

  /** An unwatched pin has an edge that looks like no edge. */
  lemma UnseenEdge(config: TriggerConfig, pin: u32) returns (x: u32, y: u32, z: u32)
    requires IsPin(pin) && !High(Watched(config), pin)
    ensures EvaluateTriggers(config, x, y) == EvaluateTriggers(config, x, z)
    ensures !Agree(y, z, pin)
  {
    hide EvaluateTriggers, Watched, IsPin, Agree;
    UnwatchedParts(config, pin);
    UnseenRise(config, pin);
    UnseenFall(config, pin);
    if High(config.risingEnable, pin) {
      x, y, z := pin, 0, pin;
    } else {
      x, y, z := 0, pin, 0;
    }
  }

  lemma UnwatchedParts(config: TriggerConfig, pin: u32)
    requires IsPin(pin) && !High(Watched(config), pin)
    ensures pin != 0 && !High(config.changeEnable, pin)
    ensures !High(config.risingEnable, pin) || !High(config.fallingEnable, pin)
  {
    AndIsPinOrZero(config.risingEnable, pin);
    AndIsPinOrZero(config.fallingEnable, pin);
  }

  lemma UnseenRise(config: TriggerConfig, pin: u32)
    requires pin != 0 && !High(config.changeEnable, pin)
    ensures !High(config.risingEnable, pin) ==> EvaluateTriggers(config, 0, pin) == EvaluateTriggers(config, 0, 0)
    ensures !Agree(pin, 0, pin)
  {
  }

  lemma UnseenFall(config: TriggerConfig, pin: u32)
    requires pin != 0 && !High(config.changeEnable, pin)
    ensures !High(config.fallingEnable, pin) ==> EvaluateTriggers(config, pin, 0) == EvaluateTriggers(config, pin, pin)
    ensures !Agree(0, pin, pin)
  {
  }

  // ── Writes and the triggers they cause ───────────────────────────────────

  datatype WriteSemantics =
    | Replace | Or | And | Xor | Reserved4 | AddSaturating | SubtractSaturating | Reconfigure

  function SaturatingAdd(x: u32, y: u32): u32 {
    if y > MASK_MAX - x then MASK_MAX else x + y
  }

  function SaturatingSub(x: u32, y: u32): u32 {
    if y > x then 0 else x - y
  }

  function ApplyWrite(semantics: WriteSemantics, current: u32, operand: u32): Result<u32> {
    match semantics
    case Replace => Ok(operand)
    case Or => Ok(current | operand)
    case And => Ok(current & operand)
    case Xor => Ok(current ^ operand)
    case Reserved4 => Err(UnsupportedCmd)
    case AddSaturating => Ok(SaturatingAdd(current, operand))
    case SubtractSaturating => Ok(SaturatingSub(current, operand))
    case Reconfigure => Ok(operand)
  }

  /** OR only rises the armed pins it newly sets. */
  lemma OrTriggers(config: TriggerConfig, current: u32, operand: u32)
    ensures var s := EvaluateTriggers(config, current, ApplyWrite(Or, current, operand).value);
            s.falling == 0 && s.rising == operand & (current ^ MASK_MAX) & config.risingEnable
  {
  }

  /** AND only falls the armed pins it newly clears. */
  lemma AndTriggers(config: TriggerConfig, current: u32, operand: u32)
    ensures var s := EvaluateTriggers(config, current, ApplyWrite(And, current, operand).value);
            s.rising == 0 && s.falling == current & (operand ^ MASK_MAX) & config.fallingEnable
  {
  }

  /** XOR changes exactly its operand's pins: those that were high fall, the others rise. */
  lemma XorTriggers(config: TriggerConfig, current: u32, operand: u32)
    ensures var s := EvaluateTriggers(config, current, ApplyWrite(Xor, current, operand).value);
            && s.changed == operand & config.changeEnable
            && s.rising == operand & (current ^ MASK_MAX) & config.risingEnable
            && s.falling == operand & current & config.fallingEnable
  {
    XorChanged(current, operand, config.changeEnable);
    XorRises(current, operand, config.risingEnable);
    XorFalls(current, operand, config.fallingEnable);
  }

  lemma XorChanged(x: u32, y: u32, mask: u32)
    ensures (x ^ (x ^ y)) & mask == y & mask
  {
  }

  lemma XorRises(x: u32, y: u32, mask: u32)
    ensures (x ^ (x ^ y)) & (x ^ y) & mask == y & (x ^ MASK_MAX) & mask
  {
  }

  lemma XorFalls(x: u32, y: u32, mask: u32)
    ensures (x ^ (x ^ y)) & x & mask == y & x & mask
  {
  }

  /** Every write operation but the clamping ones; the reserved code is refused. */
  lemma WritesExactly(current: u32, operand: u32)
    ensures ApplyWrite(Replace, current, operand) == Ok(operand)
    ensures ApplyWrite(Reconfigure, current, operand) == Ok(operand)
    ensures ApplyWrite(Reserved4, current, operand) == Err(UnsupportedCmd)
    ensures ApplyWrite(Or, current, operand) == Ok(current | operand)
    ensures ApplyWrite(And, current, operand) == Ok(current & operand)
    ensures ApplyWrite(Xor, current, operand) == Ok(current ^ operand)
  {
  }

  /** The clamping writes at and off their bounds. */
  lemma ClampedWrites()
    ensures ApplyWrite(AddSaturating, 0xFFFF_FFFE, 1) == Ok(0xFFFF_FFFF)
    ensures ApplyWrite(AddSaturating, 0xFFFF_FFFF, 1) == Ok(0xFFFF_FFFF)
    ensures ApplyWrite(AddSaturating, 0x8000_0000, 0x8000_0001) == Ok(0xFFFF_FFFF)
    ensures ApplyWrite(AddSaturating, 5, 3) == Ok(8)
    ensures ApplyWrite(SubtractSaturating, 1, 1) == Ok(0)
    ensures ApplyWrite(SubtractSaturating, 1, 2) == Ok(0)
    ensures ApplyWrite(SubtractSaturating, 5, 3) == Ok(2)
  {
  }
}
