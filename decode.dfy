/** The decode step of `interrupt_read_temperatura`: a signed 16-bit reading
    from response bytes 2 and 3, plus an integer calibration, scaled by
    125/32000 into degrees Celsius. The scale is an exact real here. */
module Decode {
  import opened Usb

  type int16 = x: int | -0x8000 <= x < 0x8000

  /** `(signed char)b`: the byte read as a two's-complement 8-bit value. */
  function SignExtend(b: byte): (r: int)
    ensures -0x80 <= r < 0x80
    ensures (r - b) % 0x100 == 0
  {
    if b < 0x80 then b else b - 0x100
  }

  /** Reference definition: a 16-bit word read as a two's-complement value. */
  function FromWord(w: uint16): int16
  {
    if w < 0x8000 then w else w - 0x1_0000
  }

  /** `(lo & 0xFF) + ((signed char)hi << 8)`, the shift of a negative value
      taken as the arithmetic shift, that is a multiplication by 256. */
  function RawReading(hi: byte, lo: byte): (r: int)
    ensures -0x8000 <= r < 0x8000
  {
    lo + SignExtend(hi) * 0x100
  }

  /** The decoded reading is the two's-complement value of the 16-bit word
      whose high byte is `hi` and whose low byte is `lo`. */
  lemma RawReadingIsTwosComplement(hi: byte, lo: byte)
    ensures RawReading(hi, lo) == FromWord(hi as int * 0x100 + lo)
  {
  }

  /** The response bytes (byte 2, byte 3) that carry a given reading. */
  function ToBytes(raw: int16): (byte, byte)
  {
    var w := if raw < 0 then raw + 0x1_0000 else raw;
    (w / 0x100, w % 0x100)
  }

  /** Every 16-bit reading is carried by some byte pair: decoding its bytes gives it back. */
  lemma DecodeToBytes(raw: int16)
    ensures RawReading(ToBytes(raw).0, ToBytes(raw).1) == raw
  {
    var w: int := if raw < 0 then raw + 0x1_0000 else raw;
    assert w == (w / 0x100) * 0x100 + w % 0x100;
  }

  /** Distinct byte pairs decode to distinct readings. */
  lemma ToBytesDecode(hi: byte, lo: byte)
    ensures ToBytes(RawReading(hi, lo)) == (hi, lo)
  {
    var w: int := hi as int * 0x100 + lo;
    var raw := RawReading(hi, lo);
    RawReadingIsTwosComplement(hi, lo);
    assert (if raw < 0 then raw + 0x1_0000 else raw) == w;
    assert w / 0x100 == hi && w % 0x100 == lo by {
      LowHigh(hi, lo);
    }
  }

  lemma LowHigh(hi: byte, lo: byte)
    ensures (hi as int * 0x100 + lo) / 0x100 == hi && (hi as int * 0x100 + lo) % 0x100 == lo
  {
  }

  /** The multiplier `125.0 / 32000.0`. */
  const Scale: real := 125.0 / 32000.0

  /** `(raw + calibration) * (125.0 / 32000.0)`, computed exactly. */
  function Celsius(raw: int, calibration: int): (c: real)
    ensures c * 256.0 == (raw + calibration) as real
  {
    (raw + calibration) as real * Scale
  }

  /** The temperature of an 8-byte interrupt-read answer: bytes 2 (high,
      sign-extended) and 3 (low) only; the other six bytes are ignored. */
  function Temperature(answer: Answer, calibration: int): (c: real)
    ensures c == Celsius(FromWord(answer[2] as int * 0x100 + answer[3]), calibration)
  {
    RawReadingIsTwosComplement(answer[2], answer[3]);
    Celsius(RawReading(answer[2], answer[3]), calibration)
  }

  /** Sign extension of the high byte: 01 00 is +256 and FF 00 is -256. */
  lemma SignExtensionExamples()
    ensures RawReading(0x01, 0x00) == 256 && RawReading(0xFF, 0x00) == -256
  {
  }

  /** The extreme byte pairs: 80 00 is -32768 and 7F FF is 32767. */
  lemma ExtremeReadings()
    ensures RawReading(0x80, 0x00) == -0x8000 && RawReading(0x7F, 0xFF) == 0x7FFF
  {
  }

  /** Without calibration raw 0 is 0 degrees, raw 256 is 1 degree and raw -256 is -1 degree. */
  lemma ScaleExamples()
    ensures Celsius(0, 0) == 0.0 && Celsius(256, 0) == 1.0 && Celsius(-256, 0) == -1.0
  {
    assert Celsius(256, 0) * 256.0 == 256.0;
    assert Celsius(-256, 0) * 256.0 == -256.0;
  }

  /** Without calibration every reading lies in [-128, 128) degrees. */
  lemma CelsiusRange(hi: byte, lo: byte)
    ensures -128.0 <= Celsius(RawReading(hi, lo), 0) < 128.0
  {
    var raw := RawReading(hi, lo);
    assert Celsius(raw, 0) * 256.0 == raw as real;
  }

  /** The calibration is added in raw units: one unit moves the result by
      1/256 degree, and the result grows with the raw reading. */
  lemma CalibrationStep(raw: int, calibration: int, raw': int)
    ensures Celsius(raw, calibration + 1) == Celsius(raw, calibration) + 1.0 / 256.0
    ensures raw <= raw' ==> Celsius(raw, calibration) <= Celsius(raw', calibration)
  {
    assert Celsius(raw, calibration + 1) * 256.0 == Celsius(raw, calibration) * 256.0 + 1.0;
    assert Celsius(raw, calibration) * 256.0 <= Celsius(raw', calibration) * 256.0 || raw > raw';
  }
}
