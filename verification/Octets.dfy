/** Machine integers as ranges of `int`, the casts between them, and bitwise operations on octets. */
module Octets {
  type byte = x: int | 0 <= x < 0x100
  type bytes = seq<byte>
  type u32 = x: int | 0 <= x < 0x1_0000_0000
  type u64 = x: int | 0 <= x < 0x1_0000_0000_0000_0000
  type i32 = x: int | -0x8000_0000 <= x < 0x8000_0000
  type i64 = x: int | -0x8000_0000_0000_0000 <= x < 0x8000_0000_0000_0000

  // Casts: all of them keep the low bits.

  function ToU32(x: int): u32 {
    x % 0x1_0000_0000
  }

  function ToU64(x: int): u64 {
    x % 0x1_0000_0000_0000_0000
  }

  function ToI32(x: int): i32 {
    (x + 0x8000_0000) % 0x1_0000_0000 - 0x8000_0000
  }

  function ToI64(x: int): i64 {
    (x + 0x8000_0000_0000_0000) % 0x1_0000_0000_0000_0000 - 0x8000_0000_0000_0000
  }

  lemma CastsKeepLowBits(x: int)
    ensures (ToU32(x) - x) % 0x1_0000_0000 == 0 && (ToI32(x) - x) % 0x1_0000_0000 == 0
    ensures (ToU64(x) - x) % 0x1_0000_0000_0000_0000 == 0 && (ToI64(x) - x) % 0x1_0000_0000_0000_0000 == 0
  {
    ModUnique(-(x / 0x1_0000_0000), 0, ToU32(x) - x, 0x1_0000_0000);
    ModUnique(-((x + 0x8000_0000) / 0x1_0000_0000), 0, ToI32(x) - x, 0x1_0000_0000);
    ModUnique(-(x / 0x1_0000_0000_0000_0000), 0, ToU64(x) - x, 0x1_0000_0000_0000_0000);
    ModUnique(-((x + 0x8000_0000_0000_0000) / 0x1_0000_0000_0000_0000), 0, ToI64(x) - x, 0x1_0000_0000_0000_0000);
  }

  // Shifting an octet into a wrapped accumulator wraps the shifted value.

  lemma ModShift(x: int, b: int, base: nat, m: nat)
    requires m > 0
    ensures (x % m * base + b) % m == (x * base + b) % m
  {
    var q := x / m;
    assert x == q * m + x % m;
    assert x * base + b == (q * base) * m + (x % m * base + b) by {
      assert q * m * base == (q * base) * m;
    }
    ModOfMultiple(q * base, x % m * base + b, m);
  }

  lemma ModOfMultiple(q: int, r: int, m: nat)
    requires m > 0
    ensures (q * m + r) % m == r % m
  {
    var k := r / m;
    assert r == k * m + r % m;
    assert q * m + r == (q + k) * m + r % m;
    ModUnique(q + k, r % m, q * m + r, m);
  }

  lemma ModUnique(q: int, r: nat, x: int, m: nat)
    requires r < m && x == q * m + r
    ensures x % m == r && x / m == q
  {
    var d := x / m - q;
    assert x == (x / m) * m + x % m;
    assert d * m == r - x % m;
  }

  lemma ShiftI64(x: int, b: int)
    ensures ToI64(ToI64(x) * 256 + b) == ToI64(x * 256 + b)
  {
    var m := 0x1_0000_0000_0000_0000;
    var q := (x + 0x8000_0000_0000_0000) / m;
    assert ToI64(x) == x - q * m;
    assert x * 256 + b + 0x8000_0000_0000_0000 == (q * 256) * m + (ToI64(x) * 256 + b + 0x8000_0000_0000_0000);
    ModOfMultiple(q * 256, ToI64(x) * 256 + b + 0x8000_0000_0000_0000, m);
  }

  // Bitwise operations, one bit at a time.

  function Pow2(n: nat): nat
    ensures Pow2(n) > 0
  {
    if n == 0 then 1 else 2 * Pow2(n - 1)
  }

  function BitXor(a: nat, b: nat, width: nat): (r: nat)
    ensures r < Pow2(width)
  {
    if width == 0 then 0
    else 2 * BitXor(a / 2, b / 2, width - 1) + (if a % 2 == b % 2 then 0 else 1)
  }

  function BitOr(a: nat, b: nat, width: nat): (r: nat)
    ensures r < Pow2(width)
  {
    if width == 0 then 0
    else 2 * BitOr(a / 2, b / 2, width - 1) + (if a % 2 == 0 && b % 2 == 0 then 0 else 1)
  }

  function Xor(a: byte, b: byte): byte {
    assert Pow2(8) == 256;
    BitXor(a, b, 8)
  }

  function Or(a: byte, b: byte): byte {
    assert Pow2(8) == 256;
    BitOr(a, b, 8)
  }

  lemma {:induction false} BitXorCancels(p: nat, a: nat, b: nat, width: nat)
    requires a < Pow2(width) && b < Pow2(width)
    ensures BitXor(p, a, width) == BitXor(p, b, width) <==> a == b
  {
    if width > 0 {
      BitXorCancels(p / 2, a / 2, b / 2, width - 1);
    }
  }

  /** Combining with a fixed octet by exclusive or loses nothing. */
  lemma XorCancels(p: byte, a: byte, b: byte)
    ensures Xor(p, a) == Xor(p, b) <==> a == b
  {
    assert Pow2(8) == 256;
    BitXorCancels(p, a, b, 8);
  }

  lemma {:induction false} BitXorZero(a: nat, b: nat, width: nat)
    requires a < Pow2(width) && b < Pow2(width)
    ensures BitXor(a, b, width) == 0 <==> a == b
  {
    if width > 0 {
      BitXorZero(a / 2, b / 2, width - 1);
    }
  }

  lemma XorZero(a: byte, b: byte)
    ensures Xor(a, b) == 0 <==> a == b
  {
    assert Pow2(8) == 256;
    BitXorZero(a, b, 8);
  }

  lemma {:induction false} BitOrZero(a: nat, b: nat, width: nat)
    requires a < Pow2(width) && b < Pow2(width)
    ensures BitOr(a, b, width) == 0 <==> a == 0 && b == 0
  {
    if width > 0 {
      BitOrZero(a / 2, b / 2, width - 1);
    }
  }

  lemma OrZero(a: byte, b: byte)
    ensures Or(a, b) == 0 <==> a == 0 && b == 0
  {
    assert Pow2(8) == 256;
    BitOrZero(a, b, 8);
  }
}
