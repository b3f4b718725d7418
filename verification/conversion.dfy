/**
 * Turning the two bytes the sensor returns into a temperature.
 *
 * The driver reads the bytes through a `char` buffer, so the high byte is a
 * signed value in [-128, 127] while the low byte is masked to [0, 255].
 * The fixed device offset 1152 is added and the sum scaled by 125/32000,
 * which is exactly 1/256; the Celsius value is therefore exact as a real.
 */
module Conversion {
  import opened Usb

  /** Device zero-offset correction added to every raw reading. */
  const DEVICE_OFFSET: int := 1152

  /** The value a received octet has when read through a signed `char`. */
  function SignedChar(b: byte): (v: int)
    ensures -128 <= v <= 127
    ensures (v - b as int) % 256 == 0
  {
    if b < 128 then b as int else b as int - 256
  }

  /**
   * `(buf[1] & 0xFF) + (buf[0] << 8)`: the big-endian 16-bit word formed by
   * `hi` and `lo`, read as two's complement.
   */
  function Raw(hi: byte, lo: byte): (r: int)
    ensures -32768 <= r <= 32767
    ensures (r - (hi as int * 256 + lo as int)) % 65536 == 0
  {
    SignedChar(hi) * 256 + lo as int
  }

  /** The bytes whose raw reading is `r`: the inverse of Raw. */
  function Encode(r: int): (bytes: (byte, byte))
    requires -32768 <= r <= 32767
    ensures Raw(bytes.0, bytes.1) == r
  {
    var word := if r < 0 then r + 65536 else r;
    ((word / 256) as byte, (word % 256) as byte)
  }

  lemma {:induction false} RawRoundTrip(hi: byte, lo: byte)
    ensures Encode(Raw(hi, lo)) == (hi, lo)
  {
    var r := Raw(hi, lo);
    var word := if r < 0 then r + 65536 else r;
    assert word == hi as int * 256 + lo as int;
  }

  /** Two different byte pairs never decode to the same raw reading. */
  lemma RawInjective(hi: byte, lo: byte, hi': byte, lo': byte)
    requires Raw(hi, lo) == Raw(hi', lo')
    ensures hi == hi' && lo == lo'
  {
    RawRoundTrip(hi, lo);
    RawRoundTrip(hi', lo');
  }

  /** The temperature in degrees Celsius for the two bytes the sensor returned. */
  function Celsius(hi: byte, lo: byte): (c: real)
    ensures c == (Raw(hi, lo) + DEVICE_OFFSET) as real * (125.0 / 32000.0)
    ensures -123.5 <= c <= 132.49609375
  {
    (Raw(hi, lo) + DEVICE_OFFSET) as real / 256.0
  }

  /** A higher raw reading always gives a higher temperature. */
  lemma CelsiusMonotonic(hi: byte, lo: byte, hi': byte, lo': byte)
    requires Raw(hi, lo) < Raw(hi', lo')
    ensures Celsius(hi, lo) < Celsius(hi', lo')
  {
  }

  /** Celsius to Fahrenheit, plus the user's compensation in degrees Fahrenheit. */
  function Fahrenheit(c: real, compensation: real): real
  {
    9.0 / 5.0 * c + 32.0 + compensation
  }

  /** The conversion loses nothing: the Celsius value is recovered from the published one. */
  lemma FahrenheitInverse(c: real, compensation: real)
    ensures (Fahrenheit(c, compensation) - compensation - 32.0) * 5.0 / 9.0 == c
  {
  }

  /** The compensation shifts the published value and nothing else; the scale is strictly increasing. */
  lemma FahrenheitCompensation(c: real, c': real, compensation: real)
    ensures Fahrenheit(c, compensation) == Fahrenheit(c, 0.0) + compensation
    ensures c < c' ==> Fahrenheit(c, compensation) < Fahrenheit(c', compensation)
  {
  }

  /** Reference reading: bytes 00 00 are 4.5 C, and 30.1 F with the default compensation of -10 F. */
  lemma ZeroReading()
    ensures Celsius(0x00, 0x00) == 4.5
    ensures Fahrenheit(4.5, -10.0) == 30.1
  {
  }

  /** Reference reading: bytes 01 90 are raw 400, 6.0625 C, and 42.9125 F without compensation. */
  lemma SampleReading()
    ensures Celsius(0x01, 0x90) == 6.0625
    ensures Fahrenheit(6.0625, 0.0) == 42.9125
  {
  }

  /** A high byte of 0x80 or more reads as negative: bytes FF FF are raw -1. */
  lemma NegativeHighByte()
    ensures Raw(0xFF, 0xFF) == -1 && Celsius(0xFF, 0xFF) == 1151.0 / 256.0
    ensures Raw(0x80, 0x00) == -32768 && Celsius(0x80, 0x00) == -123.5
  {
  }
}
