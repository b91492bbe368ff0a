# DHT11 pulse decoder

This project models the decoder at the heart of `dht11-pigpio.c`. The program reads a DHT11
humidity and temperature sensor over one GPIO pin. The pigpio host calls `pulse_reader` on every
edge of the pin, and also when the pin's watchdog fires. Each call passes a level (0 means the line
went low, 1 that it went high, 2 that the watchdog fired) and a wrapping 32-bit microsecond tick.
Four static variables carry over between calls:

- `lastTick`, the tick of the previous call;
- `state`, one of `PS_IDLE`, `PS_PREAMBLE_STARTED` and `PS_DIGITS`;
- `accum`, a 64-bit accumulator that bits are shifted into;
- `count`, the number of bits received.

Each call measures `len = tick - lastTick`. In the idle state the decoder waits for the first half
of the 80 µs preamble, then for the second half, and then reads digits. Each bit is a low gap of
35-65 ticks followed by a pulse that is a 0 bit at 15-35 ticks and a 1 bit at 60-80 ticks. Any other
observation sends the decoder back to idle. On the 40th bit the accumulator is sliced into five
bytes: humidity high and low, temperature high and low, and a checksum. The frame is valid when the
checksum is the 8-bit sum of the other four bytes.

The project has three modules:

- `Frames` (`frame.dfy`) is the frame interpreter. It slices the accumulator into a `Frame` and
  packs five bytes into a 40-bit value, with the round trip proved in both directions.
- `Decoder` (`decoder.dfy`) holds the state machine. `Next` is one call of `pulse_reader` on a
  `DecoderState` value, and `Inv` is the invariant it keeps. The class `PulseReader` has the four
  variables as fields, and its `Step` method is proved to do exactly what `Next` does.
- `Protocol` (`protocol.dfy`) covers whole transmissions. A call is written as a `Pulse`: the level
  and the number of ticks since the previous call. Every series of host events can be written this
  way, and `EndTick` gives back the host tick. `Run` feeds a series of pulses through `Next`. Bit
  trains, the host's start signal and the sensor's nominal pulse encoding are defined here,
  together with the end-to-end lemmas.

The C types are modelled explicitly:

- `uint32_t` ticks are `Tick`, and `len` is the difference modulo 2^32.
- The `uint64_t` accumulator is `U64`, and its shifts are reduced modulo 2^64. The model proves
  this reduction never loses a bit.
- Bytes are `Byte`. The checksum sum is reduced modulo 256.
- The shifts and masks `a >> k` and `a & 0xff` on unsigned values are written as `a / 2^k` and
  `a % 0x100`.

Two facts about the code shape the model:

- Only level 1 moves the decoder from idle to preamble-started. The second half of the preamble
  and every bit pulse need level 0.
- The accumulator is a `uint64_t`.

As an example reading, 70.0 % humidity and 23.8 degrees are the bytes 0x46, 0x00, 0x17, 0x08. They
add up to 0x65, so only a checksum byte of 0x65 makes that frame valid (`Frames.ChecksumExample`).

After a bad pulse in the digits state, the C code still tests `count == 40`. The invariant shows
that this test cannot succeed there, so a reset never reports a frame.

## Model

| member | source | states |
|---|---|---|
| Frames.Interpret | dht11-pigpio.c:99-106 | a frame is valid exactly when its checksum byte equals the four data bytes added modulo 256 |
| Frames.Pack | dht11-pigpio.c:99-103 | five bytes laid out most significant first always fit in 40 bits |
| Frames.InterpretPack | dht11-pigpio.c:99-106 | interpreting a packed frame returns the same five bytes, and the frame is valid iff the checksum byte is right |
| Frames.PackInterpret | dht11-pigpio.c:99-103 | every accumulator below 2^40 is the packing of the five bytes it is sliced into, so slicing loses nothing |
| Frames.ChecksumExample | dht11-pigpio.c:105-106 | for the bytes 0x46, 0x00, 0x17, 0x08, the frame is valid iff the checksum byte is 0x65, so a checksum off by one is reported invalid |
| Decoder.ElapsedWraps | dht11-pigpio.c:70 | `len` is the unsigned 32-bit difference: the plain difference when the tick has not wrapped, the difference plus 2^32 when it has, and adding it to the old tick gives the new tick modulo 2^32 |
| Decoder.Shl1 | dht11-pigpio.c:91 | the 64-bit left shift doubles the accumulator whenever the accumulator is below 2^63 |
| Decoder.Shl1Inc | dht11-pigpio.c:92 | shifting left and adding one gives twice the accumulator plus one whenever the accumulator is below 2^63 |
| Decoder.Next | dht11-pigpio.c:70-112 | every call stores the new tick; a reported frame leaves the decoder idle with 40 bits counted, and the frame is the interpretation of the accumulator |
| Decoder.InitialInv | dht11-pigpio.c:66-69 | the static initial values satisfy the decoder invariant |
| Decoder.DigitsAccumSmall | dht11-pigpio.c:68 | while reading digits the accumulator stays below 2^63, so the 64-bit shifts never overflow |
| Decoder.RecordsBit | dht11-pigpio.c:91-97 | a 0 bit makes the accumulator `2 * accum`, a 1 bit makes it `2 * accum + 1`, and each adds one to the count; the 40th bit makes the decoder idle and reports the accumulator, and earlier bits leave it reading digits with no report |
| Decoder.NextPreservesInv | dht11-pigpio.c:82-97 | every call keeps the invariant: count at most 40, accumulator below 2^count, and count below 40 while reading digits |
| Decoder.EmitsOnlyOnFortiethBit | dht11-pigpio.c:91-108 | a frame is reported iff the decoder was reading digits with 39 bits and a bit pulse arrives; then the decoder is idle and the frame is the interpreted accumulator |
| Decoder.RejectResets | dht11-pigpio.c:77-93 | an observation outside the bands the current state waits for returns the decoder to idle with no report, leaving accumulator and count unchanged |
| Decoder.WatchdogResets | dht11-pigpio.c:73-93 | a watchdog event (level 2) returns the decoder to idle with no report, from every state |
| Decoder.GapKeepsState | dht11-pigpio.c:90 | in the digits state, a level-1 pulse of 35-65 ticks changes only the stored tick |
| Decoder.PreambleSteps | dht11-pigpio.c:77-86 | idle moves to preamble-started iff level 1 and 70 < len < 95; preamble-started moves to digits iff level 0 and 70 < len < 95, with accumulator and count 0 |
| Decoder.PulseReader.constructor | dht11-pigpio.c:66-69 | a fresh reader holds the static initial values: tick 0, idle, accumulator 0, count 0 |
| Decoder.PulseReader.Step | dht11-pigpio.c:48-116 | one call updates the four fields and returns the report exactly as `Next` says, and keeps the invariant |
| Protocol.ShiftInBound | dht11-pigpio.c:84-92 | shifting bits into an accumulator below 2^count gives a value below 2^(count + number of bits) |
| Protocol.BitsRoundTrip | dht11-pigpio.c:91-92 | the number spelled by the n-bit representation of x, most significant bit first, is x |
| Protocol.RunPreservesInv | dht11-pigpio.c:66-97 | over any series of events the invariant holds at the end, so the count never exceeds 40 |
| Protocol.EndTick | dht11-pigpio.c:70 | an event `len` ticks after the stored tick is measured as exactly `len`, across a wrap of the counter too |
| Protocol.TrainDecodes | dht11-pigpio.c:88-109 | in the digits state, a bit train shifts its bits into the accumulator in order; before the 40th bit no report is made, and on the 40th bit exactly one frame is reported, the interpreted accumulator, and the decoder is idle |
| Protocol.DecodesTransmission | dht11-pigpio.c:74-109 | from idle, a preamble pair in the 70-95 band and a bit train leave the accumulator equal to the bits' value below 2^count; with 40 bits exactly the frame they spell is reported and the decoder ends idle |
| Protocol.Encode | dht11-pigpio.c:90-92 | the nominal pulses (50-tick gaps, 25-tick 0 bits, 70-tick 1 bits) form a bit train for the given bits |
| Protocol.ReadingRoundTrip | dht11-pigpio.c:74-109 | five bytes sent as nominal pulses after an 80-tick preamble decode, from any idle state, into one frame with those five bytes, valid iff the checksum is right, and the decoder ends idle |
| Protocol.AbortThenRecover | dht11-pigpio.c:74-93 | a pulse outside every digits band (or a watchdog event) abandons the frame without a report; the rest of that transmission is then ignored, and the next transmission is decoded into exactly its frame, ending idle |
| Protocol.RunAppend | dht11-pigpio.c:66-71 | since the four variables carry over between calls, running two series of pulses one after the other is the same as running them as one series: the state carries over and the reports are concatenated in order |
| Protocol.IdleIgnoresTrain | dht11-pigpio.c:74-78 | an idle decoder stays idle over any bit train and reports nothing, because a gap (level 1, 35-65 ticks) never fits the preamble band (70-95 ticks) and bit pulses are level 0 |
| Protocol.PreambleStartsDigits | dht11-pigpio.c:74-86 | from idle, a rising and then a falling preamble half in the 70-95 band start the reading of digits with accumulator and count 0, and nothing is reported |
| Protocol.CorruptedReadingRecovers | dht11-pigpio.c:74-109 | a transmission spoiled by one bad pulse after fewer than 40 bits, followed by its left-over gaps and bits and then a clean transmission, yields no frame for the spoiled reading and exactly the clean frame, ending idle |
| Protocol.StartSignalResets | dht11-pigpio.c:73-93 | the host's start signal (the line rising after at least 19000 ticks low, then falling 20-40 ticks later) leaves the decoder idle from any state, with no report |
| Protocol.ExchangeRoundTrip | dht11-pigpio.c:73-109 | from any decoder state, the start signal followed by the sensor's nominal answer for five bytes yields exactly one frame with those bytes, valid iff the checksum is right, and ends idle |

## Left out

- `read_dht11` (dht11-pigpio.c:21-32) drives the pin low for 19 ms through pigpio calls. It is
  hardware I/O and timing.
- `cleanup` (dht11-pigpio.c:36-44) releases the pull-up and terminates pigpio at exit. It is
  process-lifetime I/O.
- `main` (dht11-pigpio.c:118-155) is host glue: GPIO set-up, the 50 ms watchdog, callback
  registration and the 50-attempt trigger loop with its sleeps.
- `pulse_reader` runs on pigpio's callback thread. The model treats calls as strictly sequential
  and does not model the unsynchronised cross-thread context.
- The `printf` report and the `verbose` trace (dht11-pigpio.c:108, 115) are output only. The report
  becomes the returned `Option<Frame>`, and the formatting is not modelled.
- The `gpio` parameter of `pulse_reader` is never read, so `Step` does not take it.
- `count` is a C `int`, modelled as an unbounded `nat`. The invariant
  keeps it at most 40, so no overflow can occur.
- Tick rollover needs no correction. The unsigned 32-bit subtraction measures every pulse shorter
  than 2^32 ticks exactly, across a wrap of the counter too (`Protocol.EndTick`,
  `Decoder.ElapsedWraps`). The 50 ms watchdog keeps every pulse far below that bound, so the bad
  read the comment at dht11-pigpio.c:70 warns about cannot happen. The watchdog itself belongs to
  `main` and is not modelled.
