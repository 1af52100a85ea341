/** The few Rust standard-library notions the toolchain relies on:
    `Option`, `Result`, the unsigned byte type `u8` with its wrapping
    arithmetic, and integer `min`/`max`. */
module Prelude {

  datatype Option<+T> = None | Some(value: T)

  datatype Result<+T, +E> = Ok(value: T) | Err(error: E)

  /** Rust's `u8`. */
  newtype u8 = x: int | 0 <= x < 256

  /** `u8::wrapping_add`: the sum taken modulo 256. */
  function WrappingAdd(a: u8, b: u8): (r: u8)
    ensures r as int == (a as int + b as int) % 256
    ensures a as int + b as int < 256 ==> r as int == a as int + b as int
  {
    if a as int + b as int < 256 then a + b else (a as int + b as int - 256) as u8
  }

  /** `u8::wrapping_sub`: the difference taken modulo 256. */
  function WrappingSub(a: u8, b: u8): (r: u8)
    ensures r as int == (a as int - b as int) % 256
    ensures b <= a ==> r == a - b
  {
    if b <= a then a - b else (a as int - b as int + 256) as u8
  }

  function Min(a: int, b: int): int { if a <= b then a else b }

  function Max(a: int, b: int): int { if a <= b then b else a }

  /** Reducing modulo 256 before adding does not change the sum modulo 256. */
  lemma ModAdd(x: int, y: int)
    ensures (x % 256 + y) % 256 == (x + y) % 256
  {
    var q := x / 256;
    assert x % 256 + y == (x + y) + 256 * (-q);
  }

  lemma MulAtLeast(a: int, d: int)
    requires a > 0 && d >= 1
    ensures a * d >= a
  {
    assert a * d == a * (d - 1) + a;
    assert a * (d - 1) >= 0;
  }

  /** Euclidean remainders are unique: whenever `x == len * q + r` with
      `0 <= r < len`, the remainder `x % len` is `r`. */
  lemma ModUnique(x: int, len: int, q: int, r: int)
    requires len > 0 && x == len * q + r && 0 <= r < len
    ensures x % len == r
  {
    var q', r' := x / len, x % len;
    assert x == len * q' + r';
    assert len * q - len * q' == r' - r;
    if q > q' {
      MulAtLeast(len, q - q');
    } else if q < q' {
      MulAtLeast(len, q' - q);
    }
  }
}
