/**
 * Helpers that spell out the C integer semantics the runtime relies on:
 * 32-bit unsigned wrap-around, reinterpretation of a 32-bit pattern as a
 * signed int, bitwise AND on two's-complement patterns, and the native
 * little-endian reading of a 16-bit word out of a byte buffer.
 */
module CInt {

  /** 2^32: the modulus of C's `unsigned int`. */
  const U32_MOD: int := 0x1_0000_0000
  /** 2^31: the bound of C's signed `int`. */
  const I32_BOUND: int := 0x8000_0000

  /** A byte as C's `unsigned char`. */
  type byte = b: int | 0 <= b < 256

  /** C's `unsigned short`. */
  type ushort = x: int | 0 <= x < 0x1_0000

  datatype Option<T> = None | Some(value: T)

  /** `n` zero bytes, as `memset(p, 0, n)` leaves them. */
  function Zeros(n: nat): (r: seq<byte>)
    ensures |r| == n && forall i :: 0 <= i < n ==> r[i] == 0
  {
    seq(n, _ => 0)
  }

  /** A pointer handle; 0 plays the part of NULL. */
  type Ptr = int
  const NULL: Ptr := 0

  /** A value of C's signed 32-bit `int`. */
  predicate IsInt32(x: int) { -I32_BOUND <= x < I32_BOUND }

  /** Conversion to `unsigned int`: the value modulo 2^32. */
  function ToU32(x: int): (r: int)
    ensures 0 <= r < U32_MOD
    ensures (r - x) % U32_MOD == 0
    ensures 0 <= x < U32_MOD ==> r == x
  {
    x % U32_MOD
  }

  /** The signed `int` whose bit pattern is that of `x` modulo 2^32. */
  function ToI32(x: int): (r: int)
    ensures IsInt32(r)
    ensures (r - x) % U32_MOD == 0
    ensures IsInt32(x) ==> r == x
  {
    var u := x % U32_MOD;
    if u < I32_BOUND then u else u - U32_MOD
  }

  function Pow2(k: nat): (r: nat)
    ensures r >= 1
  {
    if k == 0 then 1 else 2 * Pow2(k - 1)
  }

  /** Bitwise AND of two non-negative integers, bit by bit from the lowest. */
  function And(a: nat, b: nat): nat
  {
    if a == 0 || b == 0 then 0
    else 2 * And(a / 2, b / 2) + (if a % 2 == 1 && b % 2 == 1 then 1 else 0)
  }

  /** C's `x & m` on 32-bit ints: both operands taken as their bit patterns. */
  function And32(x: int, m: int): nat
  {
    And(ToU32(x), ToU32(m))
  }

  lemma {:induction false} AndBelowRight(a: nat, b: nat)
    ensures And(a, b) <= b
  {
    if a != 0 && b != 0 {
      AndBelowRight(a / 2, b / 2);
    }
  }

  /** Masking with 2^k - 1 keeps the k low bits: it is reduction modulo 2^k. */
  lemma {:induction false} AndLowMask(a: nat, k: nat)
    ensures And(a, Pow2(k) - 1) == a % Pow2(k)
  {
    if k == 0 {
    } else if a == 0 {
    } else {
      var m := Pow2(k) - 1;
      assert m / 2 == Pow2(k - 1) - 1 && m % 2 == 1;
      AndLowMask(a / 2, k - 1);
      ModOfHalf(a, Pow2(k - 1));
    }
  }

  /** Reduction modulo 2p from reduction of the halved value modulo p. */
  lemma ModOfHalf(a: nat, p: nat)
    requires p > 0
    ensures a % (2 * p) == 2 * ((a / 2) % p) + a % 2
  {
    var q, r := (a / 2) / p, (a / 2) % p;
    assert a / 2 == p * q + r;
    assert a == 2 * (a / 2) + a % 2;
    assert a == (2 * p) * q + (2 * r + a % 2);
    DivModUnique(a, 2 * p, q, 2 * r + a % 2);
  }

  lemma DivModUnique(a: int, n: int, q: int, r: int)
    requires n > 0 && 0 <= r < n && a == n * q + r
    ensures a / n == q && a % n == r
  {
    var d := q - a / n;
    assert a == n * (a / n) + a % n;
    assert n * d == a % n - r by {
      assert n * d == n * q - n * (a / n);
    }
    if d > 0 {
      MulAtLeast(n, d);
    }
  }

  lemma {:induction false} MulAtLeast(n: nat, d: int)
    requires d >= 1
    ensures n * d >= n
  {
    if d > 1 {
      MulAtLeast(n, d - 1);
      assert n * d == n * (d - 1) + n;
    }
  }

  /** Masks used by the rings: & 7, & 0x7F and & 0xFFFF are reductions modulo 8, 128 and 65536. */
  lemma MaskIsMod(a: nat)
    ensures And(a, 7) == a % 8
    ensures And(a, 0x7F) == a % 128
    ensures And(a, 0xFFFF) == a % 0x10000
  {
    assert Pow2(3) == 8;
    assert Pow2(7) == 128;
    assert Pow2(16) == 0x10000;
    AndLowMask(a, 3);
    AndLowMask(a, 7);
    AndLowMask(a, 16);
  }

  /** Two counters less than n apart fall in different slots modulo n. */
  lemma ModDistinct(j: int, c: int, n: int)
    requires n > 0 && j < c < j + n
    ensures j % n != c % n
  {
    assert j == n * (j / n) + j % n;
    assert c == n * (c / n) + c % n;
    if j % n == c % n {
      var d := c / n - j / n;
      assert c - j == n * d;
      if d >= 1 {
        MulAtLeast(n, d);
      }
    }
  }

  /** `x & m` on 32-bit ints never exceeds a non-negative mask. */
  lemma And32BelowMask(x: int, m: int)
    requires 0 <= m < U32_MOD
    ensures And32(x, m) <= m
  {
    AndBelowRight(ToU32(x), ToU32(m));
  }

  /** A native (little-endian) 16-bit word read from two consecutive bytes. */
  function U16(lo: byte, hi: byte): (r: int)
    ensures 0 <= r < 0x1_0000
  {
    lo + 256 * hi
  }

  /** The two bytes are recovered from the word: the low one as the remainder, the high one as the quotient. */
  lemma U16Split(lo: byte, hi: byte)
    ensures U16(lo, hi) % 256 == lo && U16(lo, hi) / 256 == hi
  {
  }

  /** The two bytes that the native store of a 16-bit word writes. */
  function U16Bytes(w: int): (r: seq<byte>)
    requires 0 <= w < 0x1_0000
    ensures |r| == 2 && U16(r[0], r[1]) == w
  {
    [w % 256, w / 256]
  }
}
