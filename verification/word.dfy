/**
 The C integer types the firmware uses, as ranges of unbounded integers, together
 with the conversions C performs between them. Every narrowing assignment in the
 firmware (to uint8_t, int8_t, uint16_t, int16_t, uint32_t, int32_t, uint64_t) is
 written out explicitly through one of the `To…` functions below; the target
 compiler wraps on every narrowing conversion, so each of them is reduction
 modulo 2^n into the target's range.
 */
module Word {

  const TWO8: int := 0x100
  const TWO15: int := 0x8000
  const TWO16: int := 0x1_0000
  const TWO31: int := 0x8000_0000
  const TWO32: int := 0x1_0000_0000
  const TWO64: int := 0x1_0000_0000_0000_0000

  type U8 = x: int | 0 <= x < 0x100
  type I8 = x: int | -0x80 <= x < 0x80
  type U16 = x: int | 0 <= x < 0x1_0000
  type I16 = x: int | -0x8000 <= x < 0x8000
  type U32 = x: int | 0 <= x < 0x1_0000_0000
  type I32 = x: int | -0x8000_0000 <= x < 0x8000_0000
  type U64 = x: int | 0 <= x < 0x1_0000_0000_0000_0000

  /** Conversion to uint8_t: the unique value in range congruent to `x`. */
  function ToU8(x: int): (r: U8)
    ensures (r - x) % TWO8 == 0
    ensures 0 <= x < TWO8 ==> r == x
  {
    x % TWO8
  }

  /** Conversion to int8_t (two's complement wrap). */
  function ToI8(x: int): (r: I8)
    ensures (r - x) % TWO8 == 0
    ensures -0x80 <= x < 0x80 ==> r == x
  {
    var m := x % TWO8;
    if m >= 0x80 then m - TWO8 else m
  }

  /** Conversion to uint16_t. */
  function ToU16(x: int): (r: U16)
    ensures (r - x) % TWO16 == 0
    ensures 0 <= x < TWO16 ==> r == x
  {
    x % TWO16
  }

  /** Conversion to int16_t (two's complement wrap). */
  function ToI16(x: int): (r: I16)
    ensures (r - x) % TWO16 == 0
    ensures -TWO15 <= x < TWO15 ==> r == x
  {
    var m := x % TWO16;
    if m >= TWO15 then m - TWO16 else m
  }

  /** Conversion to uint32_t. */
  function ToU32(x: int): (r: U32)
    ensures (r - x) % TWO32 == 0
    ensures 0 <= x < TWO32 ==> r == x
  {
    x % TWO32
  }

  /** Conversion to int32_t (two's complement wrap). */
  function ToI32(x: int): (r: I32)
    ensures (r - x) % TWO32 == 0
    ensures -TWO31 <= x < TWO31 ==> r == x
  {
    var m := x % TWO32;
    if m >= TWO31 then m - TWO32 else m
  }

  /** Conversion to uint64_t. */
  function ToU64(x: int): (r: U64)
    ensures (r - x) % TWO64 == 0
    ensures 0 <= x < TWO64 ==> r == x
  {
    x % TWO64
  }

  /** A value that may be absent; `None` marks a read with nothing behind it. */
  datatype Option<T> = None | Some(value: T)

  function Min(a: int, b: int): int
  {
    if a <= b then a else b
  }

  /** Bit `k` of a register word, as 0 or 1. */
  function Bit(word: U32, k: nat): (b: int)
    ensures b == 0 || b == 1
  {
    (word / Pow2(k)) % 2
  }

  function Pow2(k: nat): (p: int)
    ensures p >= 1
  {
    if k == 0 then 1 else 2 * Pow2(k - 1)
  }

  /**
   Elapsed time `now - since` on the free-running uint32_t tick counter; the
   subtraction wraps, so the result is the distance modulo 2^32.
   */
  function Elapsed(now: U32, since: U32): (d: U32)
    ensures (since + d) % TWO32 == now
  {
    ToU32(now - since)
  }

  /** Reducing before or after an addition gives the same residue. */
  lemma AddMod(a: int, b: int, m: int)
    requires m > 0
    ensures (a % m + b) % m == (a + b) % m
  {
    var q := a / m;
    assert a == q * m + a % m;
    assert a + b == (a % m + b) + q * m;
    ShiftMod(a % m + b, q, m);
  }

  /** Adding a multiple of the modulus does not change the residue. */
  lemma ShiftMod(x: int, q: int, m: int)
    requires m > 0
    ensures (x + q * m) % m == x % m
  {
    var r := x % m;
    var k := x / m;
    assert x == k * m + r;
    assert x + q * m == (k + q) * m + r by {
      assert q * m + k * m == (k + q) * m;
    }
    ModUnique(x + q * m, k + q, r, m);
  }

  /** The residue is the unique remainder in [0, m). */
  lemma ModUnique(x: int, d: int, r: int, m: int)
    requires m > 0 && 0 <= r < m && x == d * m + r
    ensures x % m == r
  {
    var d' := x / m;
    var r' := x % m;
    assert x == d' * m + r';
    MulSub(d, d', m);
    assert (d - d') * m == r' - r;
    if d > d' {
      MulAtLeast(d - d', m);
    } else if d < d' {
      MulAtLeast(d' - d, m);
      MulSub(d', d, m);
    }
  }

  lemma MulSub(a: int, b: int, m: int)
    ensures (a - b) * m == a * m - b * m
  {
  }

  lemma MulAtLeast(a: int, m: int)
    requires a >= 1 && m > 0
    ensures a * m >= m
  {
  }

  /**
   Elapsed time is unchanged when both timestamps are shifted by the same
   amount modulo 2^32: every timeout in the firmware is wrap-around safe.
   */
  lemma ElapsedShift(now: U32, since: U32, k: int)
    ensures Elapsed(ToU32(now + k), ToU32(since + k)) == Elapsed(now, since)
  {
    var a := now + k;
    var b := since + k;
    var qa := a / TWO32;
    var qb := b / TWO32;
    assert a == qa * TWO32 + ToU32(a);
    assert b == qb * TWO32 + ToU32(b);
    assert ToU32(a) - ToU32(b) == (now - since) + (qb - qa) * TWO32;
    ShiftMod(now - since, qb - qa, TWO32);
  }
}
