/** Fixed-width integer conventions shared by the NTP client model: the Qt
    integer types the source declares its fields with, C's truncating
    division, two's-complement reinterpretation, `qBound`, and an Option type. */
module Common {

  type uint8 = x: int | 0 <= x < 0x100
  /** One byte of a datagram, as the value `b & 0xff` the source reads. */
  type byte = uint8
  type int8 = x: int | -0x80 <= x < 0x80
  type uint16 = x: int | 0 <= x < 0x1_0000
  type uint32 = x: int | 0 <= x < 0x1_0000_0000
  type int32 = x: int | -0x8000_0000 <= x < 0x8000_0000

  const INT64_MAX: int := 0x7FFF_FFFF_FFFF_FFFF

  datatype Option<T> = None | Some(value: T)

  /** C/C++ integer division `a / b` for a positive divisor: the quotient is
      truncated toward zero, so the remainder takes the sign of the dividend. */
  function TruncDiv(a: int, b: int): (q: int)
    requires b > 0
    ensures a >= 0 ==> 0 <= a - q * b < b
    ensures a < 0 ==> -b < a - q * b <= 0
  {
    if a >= 0 then a / b else -((-a) / b)
  }

  /** C/C++ remainder `a % b` for a positive divisor. */
  function TruncRem(a: int, b: int): (r: int)
    requires b > 0
    ensures a >= 0 ==> 0 <= r < b
    ensures a < 0 ==> -b < r <= 0
  {
    a - TruncDiv(a, b) * b
  }

  /** The signed 8-bit value with the same bit pattern as `b` (the cast `qint8(char)`). */
  function AsInt8(b: byte): (v: int8)
    ensures v % 0x100 == b
  {
    if b < 0x80 then b else b - 0x100
  }

  /** Writing a signed byte with `& 0xff` and reading it back as `qint8` is the identity. */
  lemma Int8RoundTrip(x: int8)
    ensures AsInt8(x % 0x100) == x
  {
    if x < 0 {
      assert x % 0x100 == x + 0x100;
    }
  }

  /** The signed 32-bit value with the same bit pattern as `u` (the cast `qint32(quint32)`). */
  function AsInt32(u: uint32): (v: int32)
    ensures v % 0x1_0000_0000 == u
  {
    if u < 0x8000_0000 then u else u - 0x1_0000_0000
  }

  /** Qt's `qBound(lo, x, hi)`: `x` clamped into `[lo, hi]`. */
  function Bound(lo: int, x: int, hi: int): (r: int)
    requires lo <= hi
    ensures lo <= r <= hi
    ensures lo <= x <= hi ==> r == x
    ensures x < lo ==> r == lo
    ensures x > hi ==> r == hi
  {
    if x < lo then lo else if x > hi then hi else x
  }
}
