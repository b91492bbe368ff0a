/** The decoder over a whole transmission: the pulses a DHT11 sends for one
    reading, fed one by one through `Decoder.Next` (dht11-pigpio.c:73-109),
    and what comes out. */
module Protocol {
  import opened Frames
  import opened Decoder

  /** The value of bits received most significant first, shifted into an
      accumulator that already holds `accum`. */
  function ShiftIn(accum: nat, bits: seq<bool>): nat
    decreases |bits|
  {
    if bits == [] then accum
    else ShiftIn(2 * accum + (if bits[0] then 1 else 0), bits[1..])
  }

  /** The number that a sequence of bits spells, most significant bit first. */
  function BitsValue(bits: seq<bool>): nat {
    ShiftIn(0, bits)
  }

  /** The `n` low bits of `x`, most significant first. */
  function ToBits(x: nat, n: nat): (bits: seq<bool>)
    ensures |bits| == n
  {
    if n == 0 then [] else ToBits(x / 2, n - 1) + [x % 2 == 1]
  }

  /** Shifting bits in never sets a bit above the ones counted. */
  lemma {:induction false} ShiftInBound(accum: nat, count: nat, bits: seq<bool>)
    requires accum < Pow2(count)
    ensures ShiftIn(accum, bits) < Pow2(count + |bits|)
    decreases |bits|
  {
    if bits != [] {
      ShiftInBound(2 * accum + (if bits[0] then 1 else 0), count + 1, bits[1..]);
    }
  }

  /** One more bit at the end doubles the value and adds the bit. */
  lemma {:induction false} ShiftInSnoc(accum: nat, bits: seq<bool>, b: bool)
    ensures ShiftIn(accum, bits + [b]) == 2 * ShiftIn(accum, bits) + (if b then 1 else 0)
    decreases |bits|
  {
    if bits == [] {
      assert bits + [b] == [b];
      assert [b][1..] == [];
    } else {
      assert (bits + [b])[0] == bits[0];
      assert (bits + [b])[1..] == bits[1..] + [b];
      ShiftInSnoc(2 * accum + (if bits[0] then 1 else 0), bits[1..], b);
    }
  }

  /** Encoding a number below 2^n as n bits and reading them back, most
      significant first, gives the number. */
  lemma {:induction false} BitsRoundTrip(x: nat, n: nat)
    requires x < Pow2(n)
    ensures BitsValue(ToBits(x, n)) == x
    decreases n
  {
    if n > 0 {
      BitsRoundTrip(x / 2, n - 1);
      ShiftInSnoc(0, ToBits(x / 2, n - 1), x % 2 == 1);
    }
  }

  /** One level change on the line: the new level and how long the previous
      level lasted, in ticks. Every call of the decoder is one pulse: an
      event at tick `t` after the stored tick `last` is the pulse of length
      `Elapsed(last, t)`. */
  datatype Pulse = Pulse(level: int, len: Tick)

  /** The host tick at which a pulse of `len` ticks that began at `start`
      ends; the decoder measures it at exactly `len`, across a wrap of the
      counter too. */
  function EndTick(start: Tick, len: Tick): (tick: Tick)
    ensures Elapsed(start, tick) == len
  {
    (start + len) % TickModulus
  }

  /** The decoder's variables after a series of calls, and the frames it
      reported along the way, in order. */
  datatype Trace = Trace(final: DecoderState, frames: seq<Frame>)

  function Reported(o: Outcome): seq<Frame> {
    if o.frame.Some? then [o.frame.value] else []
  }

  /** Successive calls of the decoder, one per pulse. */
  function Run(s: DecoderState, pulses: seq<Pulse>): Trace
    decreases |pulses|
  {
    if pulses == [] then Trace(s, [])
    else
      var o := Next(s, pulses[0].level, EndTick(s.lastTick, pulses[0].len));
      var t := Run(o.next, pulses[1..]);
      Trace(t.final, Reported(o) + t.frames)
  }

  /** Over any series of calls the invariant holds throughout, so the count
      never exceeds 40. */
  lemma {:induction false} RunPreservesInv(s: DecoderState, pulses: seq<Pulse>)
    requires Inv(s)
    ensures Inv(Run(s, pulses).final)
    decreases |pulses|
  {
    if pulses != [] {
      var o := Next(s, pulses[0].level, EndTick(s.lastTick, pulses[0].len));
      NextPreservesInv(s, pulses[0].level, EndTick(s.lastTick, pulses[0].len));
      RunPreservesInv(o.next, pulses[1..]);
    }
  }

  /** A run on one pulse and then more is one call, then the run of the rest. */
  lemma RunCons(s: DecoderState, p: Pulse, rest: seq<Pulse>)
    ensures var o := Next(s, p.level, EndTick(s.lastTick, p.len));
      var r := Run(o.next, rest);
      Run(s, [p] + rest) == Trace(r.final, Reported(o) + r.frames)
  {
    assert ([p] + rest)[0] == p;
    assert ([p] + rest)[1..] == rest;
  }

  /** A run over two series of pulses is the run over the first, then the
      run over the second from where the first left off. */
  lemma {:induction false} RunAppend(s: DecoderState, a: seq<Pulse>, b: seq<Pulse>)
    ensures var ra := Run(s, a);
      var rb := Run(ra.final, b);
      Run(s, a + b) == Trace(rb.final, ra.frames + rb.frames)
    decreases |a|
  {
    if a == [] {
      assert a + b == b;
    } else {
      var o := Next(s, a[0].level, EndTick(s.lastTick, a[0].len));
      assert a + b == [a[0]] + (a[1..] + b);
      assert a == [a[0]] + a[1..];
      RunCons(s, a[0], a[1..] + b);
      RunCons(s, a[0], a[1..]);
      RunAppend(o.next, a[1..], b);
      var ra := Run(o.next, a[1..]);
      var rb := Run(ra.final, b);
      assert Reported(o) + (ra.frames + rb.frames) == (Reported(o) + ra.frames) + rb.frames;
    }
  }

  /** The pulse that carries one bit: a low level after 15-35 ticks of high
      line for a 0, after 60-80 ticks for a 1. */
  predicate CarriesBit(p: Pulse, bit: bool) {
    p.level == LevelLow && (if bit then OneBand(p.len) else ZeroBand(p.len))
  }

  predicate IsGap(p: Pulse) {
    p.level == LevelHigh && GapBand(p.len)
  }

  /** `pulses` transmit `bits`: each bit's pulse, each optionally preceded
      by the low gap that the sensor sends before a bit. A gap belongs to the
      bit after it, so a train always ends on a bit pulse; a decoder that has
      just skipped a gap is described by the train that ends on the bit
      before that gap. */
  predicate BitTrain(pulses: seq<Pulse>, bits: seq<bool>)
    decreases |pulses|
  {
    if pulses == [] then bits == []
    else if IsGap(pulses[0]) then bits != [] && BitTrain(pulses[1..], bits)
    else bits != [] && CarriesBit(pulses[0], bits[0]) && BitTrain(pulses[1..], bits[1..])
  }

  /** While reading digits, a bit train shifts its bits into the accumulator
      in order; the decoder keeps reading until the 40th bit, then reports
      the accumulator once and goes idle. */
  lemma {:induction false} TrainDecodes(s: DecoderState, pulses: seq<Pulse>, bits: seq<bool>)
    requires Inv(s) && s.state == Digits
    requires BitTrain(pulses, bits) && s.count + |bits| <= FrameBits
    ensures var r := Run(s, pulses);
      if s.count + |bits| < FrameBits then
        && r.final.state == Digits && r.final.count == s.count + |bits|
        && r.final.accum == ShiftIn(s.accum, bits) && r.frames == []
      else
        && r.final.state == Idle && ShiftIn(s.accum, bits) < U64Modulus
        && r.frames == [Interpret(ShiftIn(s.accum, bits))]
    decreases |pulses|
  {
    if pulses != [] {
      var p := pulses[0];
      var t := EndTick(s.lastTick, p.len);
      assert pulses == [p] + pulses[1..];
      RunCons(s, p, pulses[1..]);
      var o := Next(s, p.level, t);
      if IsGap(p) {
        GapKeepsState(s, t);
        assert Run(s, pulses) == Run(o.next, pulses[1..]);
        TrainDecodes(o.next, pulses[1..], bits);
      } else {
        RecordsBit(s, p.level, t);
        var b := if bits[0] then 1 else 0;
        assert o.next.accum == 2 * s.accum + b;
        assert ShiftIn(s.accum, bits) == ShiftIn(o.next.accum, bits[1..]);
        if s.count + 1 == FrameBits {
          assert pulses[1..] == [] && bits[1..] == [];
          assert Run(s, pulses) == Trace(o.next, [Interpret(o.next.accum)]);
        } else {
          assert Run(s, pulses) == Run(o.next, pulses[1..]);
          NextPreservesInv(s, p.level, t);
          TrainDecodes(o.next, pulses[1..], bits[1..]);
        }
      }
    }
  }

  /** An idle decoder ignores the gaps and bits of a transmission it missed
      the preamble of: a gap (level 1, 35-65 ticks) is too short for the
      preamble's first half (70-95 ticks), and a bit pulse is level 0. */
  lemma {:induction false} IdleIgnoresTrain(s: DecoderState, pulses: seq<Pulse>, bits: seq<bool>)
    requires s.state == Idle && BitTrain(pulses, bits)
    ensures Run(s, pulses).final.state == Idle && Run(s, pulses).frames == []
    decreases |pulses|
  {
    if pulses != [] {
      var p := pulses[0];
      var o := Next(s, p.level, EndTick(s.lastTick, p.len));
      assert pulses == [p] + pulses[1..];
      RunCons(s, p, pulses[1..]);
      assert o.next.state == Idle && o.frame == None;
      if IsGap(p) {
        IdleIgnoresTrain(o.next, pulses[1..], bits);
      } else {
        IdleIgnoresTrain(o.next, pulses[1..], bits[1..]);
      }
    }
  }

  /** The sensor's answer: the two preamble halves, then a bit train. */
  function Transmission(preambleLow: Tick, preambleHigh: Tick, train: seq<Pulse>): seq<Pulse> {
    [Pulse(LevelHigh, preambleLow), Pulse(LevelLow, preambleHigh)] + train
  }

  /** From idle, two preamble halves in the 70 < len < 95 band, the first
      a rising edge and the second a falling one, start the reading of
      digits with an empty accumulator and no report. */
  lemma PreambleStartsDigits(s: DecoderState, preambleLow: Tick, preambleHigh: Tick)
    requires s.state == Idle
    requires PreambleBand(preambleLow) && PreambleBand(preambleHigh)
    ensures var r := Run(s, [Pulse(LevelHigh, preambleLow), Pulse(LevelLow, preambleHigh)]);
      r.final.state == Digits && r.final.accum == 0 && r.final.count == 0 && r.frames == []
  {
    var t1 := EndTick(s.lastTick, preambleLow);
    var o1 := Next(s, LevelHigh, t1);
    assert o1 == Outcome(s.(lastTick := t1, state := PreambleStarted), None);
    var t2 := EndTick(t1, preambleHigh);
    var o2 := Next(o1.next, LevelLow, t2);
    assert o2 == Outcome(DecoderState(t2, Digits, 0, 0), None);
    RunCons(o1.next, Pulse(LevelLow, preambleHigh), []);
    RunCons(s, Pulse(LevelHigh, preambleLow), [Pulse(LevelLow, preambleHigh)]);
    assert [Pulse(LevelHigh, preambleLow), Pulse(LevelLow, preambleHigh)]
        == [Pulse(LevelHigh, preambleLow)] + [Pulse(LevelLow, preambleHigh)];
  }

  /** From idle, a preamble of two pulses in the 70 < len < 95 band followed
      by a bit train leaves the decoder reading digits with the value of the
      bits so far in the accumulator; on the 40th bit it reports exactly the
      frame that the 40 bits spell and is idle again. */
  lemma DecodesTransmission(s: DecoderState, preambleLow: Tick, preambleHigh: Tick,
                            train: seq<Pulse>, bits: seq<bool>)
    requires Inv(s) && s.state == Idle
    requires PreambleBand(preambleLow) && PreambleBand(preambleHigh)
    requires BitTrain(train, bits) && |bits| <= FrameBits
    ensures var r := Run(s, Transmission(preambleLow, preambleHigh, train));
      if |bits| < FrameBits then
        && r.final.state == Digits && r.final.count == |bits|
        && r.final.accum == BitsValue(bits) && r.final.accum < Pow2(|bits|)
        && r.frames == []
      else
        && r.final.state == Idle && BitsValue(bits) < 0x100_0000_0000
        && r.frames == [Interpret(BitsValue(bits))]
  {
    var preamble := [Pulse(LevelHigh, preambleLow), Pulse(LevelLow, preambleHigh)];
    PreambleStartsDigits(s, preambleLow, preambleHigh);
    RunAppend(s, preamble, train);
    var d := Run(s, preamble).final;
    assert Inv(d);
    TrainDecodes(d, train, bits);
    ShiftInBound(0, 0, bits);
    Pow2Forty();
  }

  /** The pulses a sensor sends for `bits` when every gap is 50 ticks, a 0
      bit 25 ticks and a 1 bit 70 ticks. */
  function Encode(bits: seq<bool>): (train: seq<Pulse>)
    ensures BitTrain(train, bits)
    decreases |bits|
  {
    if bits == [] then []
    else
      var rest := Encode(bits[1..]);
      var p := Pulse(LevelLow, if bits[0] then 70 else 25);
      assert BitTrain([p] + rest, bits) by {
        assert ([p] + rest)[1..] == rest;
      }
      assert ([Pulse(LevelHigh, 50)] + ([p] + rest))[1..] == [p] + rest;
      [Pulse(LevelHigh, 50)] + ([p] + rest)
  }

  /** Round trip through the wire: five bytes transmitted as nominal pulses
      after an 80-tick preamble are decoded, from any idle state, into one
      frame holding those five bytes, valid exactly when the checksum byte
      is right. */
  lemma ReadingRoundTrip(s: DecoderState, humHigh: Byte, humLow: Byte, tempHigh: Byte, tempLow: Byte, checksum: Byte)
    requires Inv(s) && s.state == Idle
    ensures var bits := ToBits(Pack(humHigh, humLow, tempHigh, tempLow, checksum), FrameBits);
      var r := Run(s, Transmission(80, 80, Encode(bits)));
      && r.final.state == Idle
      && r.frames == [Frame(humHigh, humLow, tempHigh, tempLow, checksum,
                            checksum == Checksum(humHigh, humLow, tempHigh, tempLow))]
  {
    var x := Pack(humHigh, humLow, tempHigh, tempLow, checksum);
    var bits := ToBits(x, FrameBits);
    DecodesTransmission(s, 80, 80, Encode(bits), bits);
    Pow2Forty();
    BitsRoundTrip(x, FrameBits);
    InterpretPack(humHigh, humLow, tempHigh, tempLow, checksum);
  }

  /** A pulse that fits none of the bands while reading digits, or a watchdog
      event, abandons the frame without a report. The rest of the spoiled
      transmission is ignored, and the next transmission is decoded into
      exactly its own frame. */
  lemma AbortThenRecover(s: DecoderState, bad: Pulse, post: seq<Pulse>, postBits: seq<bool>,
                         humHigh: Byte, humLow: Byte, tempHigh: Byte, tempLow: Byte, checksum: Byte)
    requires Inv(s) && s.state == Digits
    requires !Accepted(Digits, bad.level, bad.len)
    requires BitTrain(post, postBits)
    ensures var bits := ToBits(Pack(humHigh, humLow, tempHigh, tempLow, checksum), FrameBits);
      var r := Run(s, [bad] + (post + Transmission(80, 80, Encode(bits))));
      && r.final.state == Idle
      && r.frames == [Frame(humHigh, humLow, tempHigh, tempLow, checksum,
                            checksum == Checksum(humHigh, humLow, tempHigh, tempLow))]
  {
    var bits := ToBits(Pack(humHigh, humLow, tempHigh, tempLow, checksum), FrameBits);
    var clean := Transmission(80, 80, Encode(bits));
    var t := EndTick(s.lastTick, bad.len);
    RunCons(s, bad, post + clean);
    RejectResets(s, bad.level, t);
    var o := Next(s, bad.level, t);
    NextPreservesInv(s, bad.level, t);
    RunAppend(o.next, post, clean);
    var rp := Run(o.next, post);
    IdleIgnoresTrain(o.next, post, postBits);
    RunPreservesInv(o.next, post);
    ReadingRoundTrip(rp.final, humHigh, humLow, tempHigh, tempLow, checksum);
  }

  /** A reading spoiled in the middle: the sensor's preamble and the first
      bits arrive, one pulse is corrupted, the rest of that transmission
      follows, and then a clean transmission. No frame is reported for the
      spoiled reading, and exactly the clean frame is reported after it. */
  lemma CorruptedReadingRecovers(s: DecoderState, pre: seq<Pulse>, preBits: seq<bool>, bad: Pulse,
                                 post: seq<Pulse>, postBits: seq<bool>,
                                 humHigh: Byte, humLow: Byte, tempHigh: Byte, tempLow: Byte, checksum: Byte)
    requires Inv(s) && s.state == Idle
    requires BitTrain(pre, preBits) && |preBits| < FrameBits
    requires !Accepted(Digits, bad.level, bad.len)
    requires BitTrain(post, postBits)
    ensures var bits := ToBits(Pack(humHigh, humLow, tempHigh, tempLow, checksum), FrameBits);
      var r := Run(s, Transmission(80, 80, pre) + ([bad] + (post + Transmission(80, 80, Encode(bits)))));
      && r.final.state == Idle
      && r.frames == [Frame(humHigh, humLow, tempHigh, tempLow, checksum,
                            checksum == Checksum(humHigh, humLow, tempHigh, tempLow))]
  {
    var bits := ToBits(Pack(humHigh, humLow, tempHigh, tempLow, checksum), FrameBits);
    var spoiled := Transmission(80, 80, pre);
    var rest := [bad] + (post + Transmission(80, 80, Encode(bits)));
    RunAppend(s, spoiled, rest);
    DecodesTransmission(s, 80, 80, pre, preBits);
    RunPreservesInv(s, spoiled);
    AbortThenRecover(Run(s, spoiled).final, bad, post, postBits, humHigh, humLow, tempHigh, tempLow, checksum);
  }

  /** What the line shows before the sensor answers: it rises when the host
      releases it after holding it low for at least 19 ms, and falls when the
      sensor pulls it low 20-40 ticks later. */
  function StartSignal(hostLow: Tick, sensorWait: Tick): seq<Pulse> {
    [Pulse(LevelHigh, hostLow), Pulse(LevelLow, sensorWait)]
  }

  /** The start signal fits no band, so it leaves the decoder idle whatever
      it was doing, without a report. */
  lemma StartSignalResets(s: DecoderState, hostLow: Tick, sensorWait: Tick)
    requires Inv(s) && hostLow >= 19000 && 20 <= sensorWait <= 40
    ensures var r := Run(s, StartSignal(hostLow, sensorWait));
      r.final.state == Idle && Inv(r.final) && r.frames == []
  {
    var t1 := EndTick(s.lastTick, hostLow);
    RejectResets(s, LevelHigh, t1);
    var o1 := Next(s, LevelHigh, t1);
    var t2 := EndTick(t1, sensorWait);
    RejectResets(o1.next, LevelLow, t2);
    var o2 := Next(o1.next, LevelLow, t2);
    RunCons(o1.next, Pulse(LevelLow, sensorWait), []);
    RunCons(s, Pulse(LevelHigh, hostLow), [Pulse(LevelLow, sensorWait)]);
    assert StartSignal(hostLow, sensorWait) == [Pulse(LevelHigh, hostLow)] + [Pulse(LevelLow, sensorWait)];
  }

  /** A whole exchange: after the host's start signal and the sensor's
      nominal answer for five bytes, the decoder, whatever state it was in,
      reports exactly one frame with those five bytes, valid exactly when the
      checksum byte is right, and is idle again. */
  lemma ExchangeRoundTrip(s: DecoderState, hostLow: Tick, sensorWait: Tick,
                          humHigh: Byte, humLow: Byte, tempHigh: Byte, tempLow: Byte, checksum: Byte)
    requires Inv(s) && hostLow >= 19000 && 20 <= sensorWait <= 40
    ensures var bits := ToBits(Pack(humHigh, humLow, tempHigh, tempLow, checksum), FrameBits);
      var r := Run(s, StartSignal(hostLow, sensorWait) + Transmission(80, 80, Encode(bits)));
      && r.final.state == Idle
      && r.frames == [Frame(humHigh, humLow, tempHigh, tempLow, checksum,
                            checksum == Checksum(humHigh, humLow, tempHigh, tempLow))]
  {
    var bits := ToBits(Pack(humHigh, humLow, tempHigh, tempLow, checksum), FrameBits);
    var answer := Transmission(80, 80, Encode(bits));
    var t1 := EndTick(s.lastTick, hostLow);
    RejectResets(s, LevelHigh, t1);
    var o1 := Next(s, LevelHigh, t1);
    var t2 := EndTick(t1, sensorWait);
    RejectResets(o1.next, LevelLow, t2);
    var o2 := Next(o1.next, LevelLow, t2);
    ReadingRoundTrip(o2.next, humHigh, humLow, tempHigh, tempLow, checksum);
    RunCons(o1.next, Pulse(LevelLow, sensorWait), answer);
    RunCons(s, Pulse(LevelHigh, hostLow), [Pulse(LevelLow, sensorWait)] + answer);
    assert StartSignal(hostLow, sensorWait) + answer
        == [Pulse(LevelHigh, hostLow)] + ([Pulse(LevelLow, sensorWait)] + answer);
  }
}
