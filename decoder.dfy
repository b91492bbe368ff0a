/** The DHT11 pulse decoder `pulse_reader` (dht11-pigpio.c:46-116).

    The host calls it once per edge of the sensor pin, or when the pin's
    watchdog fires, with the new level and a wrapping 32-bit microsecond
    tick. Between calls it keeps four static variables: the previous tick,
    the state of a three-state machine, a 64-bit bit accumulator and the
    number of bits received. `Next` is the transition on those four values
    as a pure function; `PulseReader` is the object that owns them and whose
    `Step` does exactly what `Next` says. */
module Decoder {
  import opened Frames

  /** An unsigned 32-bit host tick (`uint32_t`); it wraps around. */
  type Tick = x: int | 0 <= x < 0x1_0000_0000

  const TickModulus: int := 0x1_0000_0000

  /** Levels in the host convention: the line went low, went high, or the
      watchdog fired with no edge. */
  const LevelLow: int := 0
  const LevelHigh: int := 1
  const LevelWatchdog: int := 2

  datatype Option<T> = None | Some(value: T)

  /** `enum pulse_state` (dht11-pigpio.c:46). */
  datatype PulseState = Idle | PreambleStarted | Digits

  /** The decoder's persistent variables `lastTick`, `state`, `accum`, `count`. */
  datatype DecoderState = DecoderState(lastTick: Tick, state: PulseState, accum: U64, count: nat)

  /** The static initialisers (dht11-pigpio.c:66-69). */
  const Initial: DecoderState := DecoderState(0, Idle, 0, 0)

  /** What one call leaves behind: the new variables and, in place of the
      report printed on the 40th bit, the decoded frame. */
  datatype Outcome = Outcome(next: DecoderState, frame: Option<Frame>)

  /** `len = tick - lastTick` in unsigned 32-bit arithmetic: the length is
      taken modulo 2^32, which measures a pulse across a wrap of the counter
      exactly (`ElapsedWraps`). */
  function Elapsed(lastTick: Tick, tick: Tick): Tick {
    (tick - lastTick) % TickModulus
  }

  /** The measured length is the plain difference when the tick has not
      wrapped and the difference plus 2^32 when it has; either way, adding
      it to the stored tick gives the new tick on the wrapping counter. */
  lemma ElapsedWraps(lastTick: Tick, tick: Tick)
    ensures (lastTick + Elapsed(lastTick, tick)) % TickModulus == tick
    ensures lastTick <= tick ==> Elapsed(lastTick, tick) == tick - lastTick
    ensures tick < lastTick ==> Elapsed(lastTick, tick) == tick - lastTick + TickModulus
  {
  }

  /** The timing bands, in ticks. Preamble halves are nominally 80, the low
      gap before each bit 50, a 0 bit 26-28 and a 1 bit 70. */
  predicate PreambleBand(len: int) { 70 < len < 95 }
  predicate GapBand(len: int) { 35 <= len <= 65 }
  predicate ZeroBand(len: int) { 15 <= len <= 35 }
  predicate OneBand(len: int) { 60 <= len <= 80 }

  /** A pulse that records a bit while reading digits. */
  predicate IsBitPulse(level: int, len: int) {
    level == LevelLow && (ZeroBand(len) || OneBand(len))
  }

  /** Whether an observation fits the pattern the state is waiting for. */
  predicate Accepted(state: PulseState, level: int, len: int) {
    match state
    case Idle => level == LevelHigh && PreambleBand(len)
    case PreambleStarted => level == LevelLow && PreambleBand(len)
    case Digits => (level == LevelHigh && GapBand(len)) || IsBitPulse(level, len)
  }

  /** `accum <<= 1` on a `uint64_t`. */
  function Shl1(accum: U64): (r: U64)
    ensures accum < U64Modulus / 2 ==> r == 2 * accum
  {
    (accum * 2) % U64Modulus
  }

  /** `accum = (accum << 1) + 1` on a `uint64_t`. */
  function Shl1Inc(accum: U64): (r: U64)
    ensures accum < U64Modulus / 2 ==> r == 2 * accum + 1
  {
    (Shl1(accum) + 1) % U64Modulus
  }

  /** The reading-digits case before the 40-bit test (dht11-pigpio.c:90-93):
      skip the gap, shift in a 0 or a 1, or give up and go idle. */
  function ReadDigit(s: DecoderState, level: int, len: int): DecoderState {
    if level == LevelHigh && GapBand(len) then s
    else if level == LevelLow && ZeroBand(len) then s.(accum := Shl1(s.accum), count := s.count + 1)
    else if level == LevelLow && OneBand(len) then s.(accum := Shl1Inc(s.accum), count := s.count + 1)
    else s.(state := Idle)
  }

  /** One call of `pulse_reader` (dht11-pigpio.c:70-112). */
  function Next(s: DecoderState, level: int, tick: Tick): (r: Outcome)
    ensures r.next.lastTick == tick
    ensures r.frame.Some? ==> r.next.state == Idle && r.next.count == FrameBits
                              && r.frame.value == Interpret(r.next.accum)
  {
    var len := Elapsed(s.lastTick, tick);
    var u := s.(lastTick := tick);
    match u.state
    case Idle =>
      Outcome(u.(state := if level == LevelHigh && PreambleBand(len) then PreambleStarted else Idle), None)
    case PreambleStarted =>
      if level == LevelLow && PreambleBand(len) then
        Outcome(u.(state := Digits, accum := 0, count := 0), None)
      else
        Outcome(u.(state := Idle), None)
    case Digits =>
      var t := ReadDigit(u, level, len);
      if t.count == FrameBits then Outcome(t.(state := Idle), Some(Interpret(t.accum)))
      else Outcome(t, None)
  }

  /** The invariant the decoder keeps between calls: at most 40 bits were
      counted, the accumulator holds no bit above the ones counted, and while
      reading digits fewer than 40 have arrived. */
  ghost predicate Inv(s: DecoderState) {
    s.count <= FrameBits && s.accum < Pow2(s.count) && (s.state == Digits ==> s.count < FrameBits)
  }

  lemma InitialInv()
    ensures Inv(Initial)
  {
  }

  lemma {:induction false} Pow2Monotone(m: nat, n: nat)
    requires m <= n
    ensures Pow2(m) <= Pow2(n)
  {
    if m < n {
      Pow2Monotone(m, n - 1);
    }
  }

  /** While reading digits the accumulator is far below 2^63, so the 64-bit
      shifts never lose a bit. */
  lemma DigitsAccumSmall(s: DecoderState)
    requires Inv(s) && s.state == Digits
    ensures s.accum < U64Modulus / 2
  {
    Pow2Monotone(s.count, FrameBits);
    Pow2Forty();
  }

  /** Recording a bit in the reading-digits state is an exact shift of the
      accumulator with the bit appended at the bottom. The 40th bit ends the
      frame: the decoder goes idle and reports the accumulator. */
  lemma RecordsBit(s: DecoderState, level: int, tick: Tick)
    requires Inv(s) && s.state == Digits
    requires IsBitPulse(level, Elapsed(s.lastTick, tick))
    ensures var r := Next(s, level, tick);
      var bit := if OneBand(Elapsed(s.lastTick, tick)) then 1 else 0;
      && r.next.accum == 2 * s.accum + bit
      && r.next.count == s.count + 1
      && r.next.state == (if s.count + 1 == FrameBits then Idle else Digits)
      && r.frame == (if s.count + 1 == FrameBits then Some(Interpret(r.next.accum)) else None)
  {
    DigitsAccumSmall(s);
  }

  /** Every call keeps the invariant. */
  lemma NextPreservesInv(s: DecoderState, level: int, tick: Tick)
    requires Inv(s)
    ensures Inv(Next(s, level, tick).next)
  {
    var len := Elapsed(s.lastTick, tick);
    if s.state == Digits && IsBitPulse(level, len) {
      RecordsBit(s, level, tick);
      assert Pow2(s.count + 1) == 2 * Pow2(s.count);
    }
  }

  /** A frame is reported exactly when a bit pulse brings the count to 40,
      and then the decoder is idle again. */
  lemma EmitsOnlyOnFortiethBit(s: DecoderState, level: int, tick: Tick)
    requires Inv(s)
    ensures var r := Next(s, level, tick);
      r.frame.Some? <==> (s.state == Digits && s.count == FrameBits - 1
                          && IsBitPulse(level, Elapsed(s.lastTick, tick)))
    ensures var r := Next(s, level, tick);
      r.frame.Some? ==> r.next.state == Idle && r.frame.value == Interpret(r.next.accum)
  {
  }

  /** Any observation outside the bands the current state waits for (a wrong
      level, a length outside the band, a watchdog event) sends the decoder
      back to idle without a report, leaving the accumulator and count as
      they were. */
  lemma RejectResets(s: DecoderState, level: int, tick: Tick)
    requires Inv(s)
    requires !Accepted(s.state, level, Elapsed(s.lastTick, tick))
    ensures Next(s, level, tick) == Outcome(s.(lastTick := tick, state := Idle), None)
  {
  }

  /** A watchdog timeout resets the decoder to idle in every state, so a
      stalled transmission cannot wedge it. */
  lemma WatchdogResets(s: DecoderState, tick: Tick)
    requires Inv(s)
    ensures Next(s, LevelWatchdog, tick) == Outcome(s.(lastTick := tick, state := Idle), None)
  {
    RejectResets(s, LevelWatchdog, tick);
  }

  /** The low gap before each bit changes nothing but the stored tick. */
  lemma GapKeepsState(s: DecoderState, tick: Tick)
    requires Inv(s) && s.state == Digits
    requires GapBand(Elapsed(s.lastTick, tick))
    ensures Next(s, LevelHigh, tick) == Outcome(s.(lastTick := tick), None)
  {
  }

  /** The preamble: idle moves on only for a high level after 70 < len < 95,
      and the second half moves to reading digits only for a low level in
      the same band, with a fresh accumulator. */
  lemma PreambleSteps(s: DecoderState, level: int, tick: Tick)
    ensures s.state == Idle ==>
      (Next(s, level, tick).next.state == PreambleStarted
       <==> level == LevelHigh && PreambleBand(Elapsed(s.lastTick, tick)))
    ensures s.state == PreambleStarted ==>
      (Next(s, level, tick).next.state == Digits
       <==> level == LevelLow && PreambleBand(Elapsed(s.lastTick, tick)))
    ensures s.state == PreambleStarted && Next(s, level, tick).next.state == Digits ==>
      Next(s, level, tick) == Outcome(DecoderState(tick, Digits, 0, 0), None)
  {
  }

  /** The four static variables of `pulse_reader`, as an object that the
      host's callback updates in place. */
  class PulseReader {
    var lastTick: Tick
    var state: PulseState
    var accum: U64
    var count: nat

    function Snapshot(): (s: DecoderState)
      reads this
    {
      DecoderState(lastTick, state, accum, count)
    }

    ghost predicate Valid()
      reads this
    {
      Inv(Snapshot())
    }

    constructor ()
      ensures Valid() && Snapshot() == Initial
    {
      lastTick, state, accum, count := 0, Idle, 0, 0;
    }

    /** One edge or watchdog event (dht11-pigpio.c:48-116); the report that
        the source prints on the 40th bit is returned instead. */
    method Step(level: int, tick: Tick) returns (frame: Option<Frame>)
      requires Valid()
      modifies this
      ensures Valid()
      ensures Outcome(Snapshot(), frame) == Next(old(Snapshot()), level, tick)
    {
      ghost var before := Snapshot();
      NextPreservesInv(before, level, tick);
      var len := Elapsed(lastTick, tick);
      lastTick := tick;
      frame := None;
      match state {
        case Idle =>
          if level == LevelHigh && PreambleBand(len) {
            state := PreambleStarted;
          } else {
            state := Idle;
          }
        case PreambleStarted =>
          if level == LevelLow && PreambleBand(len) {
            state := Digits;
            accum := 0;
            count := 0;
          } else {
            state := Idle;
          }
        case Digits =>
          if level == LevelHigh && GapBand(len) {
            // the low gap that precedes each bit: nothing to record
          } else if level == LevelLow && ZeroBand(len) {
            accum := Shl1(accum);
            count := count + 1;
          } else if level == LevelLow && OneBand(len) {
            accum := Shl1Inc(accum);
            count := count + 1;
          } else {
            state := Idle;
          }
          assert Snapshot() == ReadDigit(before.(lastTick := tick), level, len);
          if count == FrameBits {
            state := Idle;
            frame := Some(Interpret(accum));
          }
      }
    }
  }
}
