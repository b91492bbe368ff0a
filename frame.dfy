/** The DHT11 frame: how the decoder's 40-bit accumulator is cut into five
    bytes and how the checksum byte is checked (dht11-pigpio.c:99-106).

    The C code works on `uint64_t` and `uint8_t`; here those are subset
    types of `int`. A right shift `a >> k` of an unsigned value is `a / 2^k`,
    and a mask `a & 0xff` is `a % 0x100`. */
module Frames {

  /** An unsigned 8-bit value (`uint8_t`). */
  type Byte = x: int | 0 <= x < 0x100

  /** An unsigned 64-bit value (`uint64_t`), the type of the accumulator. */
  type U64 = x: int | 0 <= x < 0x1_0000_0000_0000_0000

  const U64Modulus: int := 0x1_0000_0000_0000_0000

  /** Number of bits in one DHT11 frame. */
  const FrameBits: nat := 40

  /** A decoded reading: humidity integer and fraction, temperature integer
      and fraction, the checksum byte (called `parity` in the C code) and the
      verdict of the checksum test. */
  datatype Frame = Frame(
    humHigh: Byte, humLow: Byte,
    tempHigh: Byte, tempLow: Byte,
    checksum: Byte,
    valid: bool)

  function Pow2(n: nat): (r: nat)
    ensures r >= 1
  {
    if n == 0 then 1 else 2 * Pow2(n - 1)
  }

  /** The checksum the sensor should send: the four data bytes added with
      8-bit wrap-around (`uint8_t sum = ...`). */
  function Checksum(humHigh: Byte, humLow: Byte, tempHigh: Byte, tempLow: Byte): Byte {
    (tempLow + tempHigh + humLow + humHigh) % 0x100
  }

  /** Slice an accumulator into the five frame bytes and test the checksum. */
  function Interpret(accum: U64): (f: Frame)
    ensures f.valid <==> f.checksum == Checksum(f.humHigh, f.humLow, f.tempHigh, f.tempLow)
  {
    var parity := accum % 0x100;
    var tempLow := (accum / 0x100) % 0x100;
    var tempHigh := (accum / 0x1_0000) % 0x100;
    var humLow := (accum / 0x100_0000) % 0x100;
    var humHigh := (accum / 0x1_0000_0000) % 0x100;
    Frame(humHigh, humLow, tempHigh, tempLow, parity,
          parity == Checksum(humHigh, humLow, tempHigh, tempLow))
  }

  /** The 40-bit value the sensor transmits for five bytes, most significant
      byte first. */
  function Pack(humHigh: Byte, humLow: Byte, tempHigh: Byte, tempLow: Byte, checksum: Byte): (accum: nat)
    ensures accum < 0x100_0000_0000
  {
    humHigh * 0x1_0000_0000 + humLow * 0x100_0000 + tempHigh * 0x1_0000 + tempLow * 0x100 + checksum
  }

  lemma Pow2Forty()
    ensures Pow2(FrameBits) == 0x100_0000_0000
  {
    assert Pow2(8) == 0x100;
    assert Pow2(16) == 0x1_0000 by {
      Pow2Add(8, 8);
    }
    assert Pow2(32) == 0x1_0000_0000 by {
      Pow2Add(16, 16);
    }
    Pow2Add(32, 8);
  }

  lemma {:induction false} Pow2Add(m: nat, n: nat)
    ensures Pow2(m + n) == Pow2(m) * Pow2(n)
  {
    if m > 0 {
      Pow2Add(m - 1, n);
    }
  }

  /** Removing the low byte: `(q * 0x100 + b) >> 8 == q` and `& 0xff == b`. */
  lemma ByteSplit(q: int, b: int)
    requires 0 <= b < 0x100
    ensures (q * 0x100 + b) / 0x100 == q && (q * 0x100 + b) % 0x100 == b
  {
  }

  /** Shifting right by 8 bits `k` times is one shift by `8 * k` bits. */
  lemma ShiftBytes(a: nat)
    ensures a / 0x1_0000 == a / 0x100 / 0x100
    ensures a / 0x100_0000 == a / 0x100 / 0x100 / 0x100
    ensures a / 0x1_0000_0000 == a / 0x100 / 0x100 / 0x100 / 0x100
  {
    var q1 := a / 0x100;
    var q2 := q1 / 0x100;
    var q3 := q2 / 0x100;
    var q4 := q3 / 0x100;
    assert a == q1 * 0x100 + a % 0x100;
    assert q1 == q2 * 0x100 + q1 % 0x100;
    assert q2 == q3 * 0x100 + q2 % 0x100;
    assert q3 == q4 * 0x100 + q3 % 0x100;
    assert a == q2 * 0x1_0000 + (q1 % 0x100) * 0x100 + a % 0x100;
    assert a == q3 * 0x100_0000 + (q2 % 0x100) * 0x1_0000 + (q1 % 0x100) * 0x100 + a % 0x100;
    assert a == q4 * 0x1_0000_0000 + (q3 % 0x100) * 0x100_0000 + (q2 % 0x100) * 0x1_0000 + (q1 % 0x100) * 0x100 + a % 0x100;
  }

  /** Interpreting a packed frame gives back the five bytes, and the frame is
      valid exactly when the checksum byte is the 8-bit sum of the other four. */
  lemma InterpretPack(humHigh: Byte, humLow: Byte, tempHigh: Byte, tempLow: Byte, checksum: Byte)
    ensures Interpret(Pack(humHigh, humLow, tempHigh, tempLow, checksum))
         == Frame(humHigh, humLow, tempHigh, tempLow, checksum,
                  checksum == Checksum(humHigh, humLow, tempHigh, tempLow))
  {
    var a := Pack(humHigh, humLow, tempHigh, tempLow, checksum);
    var hi1 := humHigh;
    var hi2 := hi1 * 0x100 + humLow;
    var hi3 := hi2 * 0x100 + tempHigh;
    var hi4 := hi3 * 0x100 + tempLow;
    assert a == hi4 * 0x100 + checksum;
    ByteSplit(hi4, checksum);
    ByteSplit(hi3, tempLow);
    ByteSplit(hi2, tempHigh);
    ByteSplit(hi1, humLow);
    ByteSplit(0, humHigh);
    ShiftBytes(a);
  }

  /** Every 40-bit accumulator is the packing of the bytes it is sliced into,
      so slicing loses nothing. */
  lemma PackInterpret(accum: U64)
    requires accum < Pow2(FrameBits)
    ensures var f := Interpret(accum);
      Pack(f.humHigh, f.humLow, f.tempHigh, f.tempLow, f.checksum) == accum
  {
    Pow2Forty();
    ShiftBytes(accum);
    var f := Interpret(accum);
    var q1 := accum / 0x100;
    var q2 := q1 / 0x100;
    var q3 := q2 / 0x100;
    var q4 := q3 / 0x100;
    assert accum == q1 * 0x100 + f.checksum;
    assert q1 == q2 * 0x100 + f.tempLow;
    assert q2 == q3 * 0x100 + f.tempHigh;
    assert q3 == q4 * 0x100 + f.humLow;
    assert q4 == f.humHigh;
  }

  /** A reading of 70.0 % humidity and 23.8 degrees: the bytes 0x46, 0x00,
      0x17, 0x08 add up to 0x65, so only a checksum byte of 0x65 makes the
      frame valid, and one that is off by one is reported as invalid. */
  lemma ChecksumExample(checksum: Byte)
    ensures Interpret(Pack(0x46, 0x00, 0x17, 0x08, checksum)).valid <==> checksum == 0x65
  {
    InterpretPack(0x46, 0x00, 0x17, 0x08, checksum);
  }
}
