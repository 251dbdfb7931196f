/**
 * The integer conversions of `convert.rs`, on a target whose `usize` is 64
 * bits wide: lossless widening into `usize`, lossless conversion from
 * `usize` into `u64`, truncation of a `u64` to its low byte, and masking
 * with a byte-sized mask.
 */
module Convert {
  import opened Alphabet

  newtype u8 = x: int | 0 <= x < 0x100
  newtype u16 = x: int | 0 <= x < 0x1_0000
  newtype u32 = x: int | 0 <= x < 0x1_0000_0000
  newtype u64 = x: int | 0 <= x < 0x1_0000_0000_0000_0000
  newtype usize = x: int | 0 <= x < 0x1_0000_0000_0000_0000

  const USIZE_MAX: usize := 0xFFFF_FFFF_FFFF_FFFF

  /** `into_usize` for `u8`: the same number as a `usize`. */
  function U8IntoUsize(v: u8): (r: usize)
    ensures r as int == v as int && r < 0x100
  {
    v as usize
  }

  /** `into_usize` for `u16`: the same number as a `usize`. */
  function U16IntoUsize(v: u16): (r: usize)
    ensures r as int == v as int && r < 0x1_0000
  {
    v as usize
  }

  /** `into_usize` for `u32`: the same number as a `usize`. */
  function U32IntoUsize(v: u32): (r: usize)
    ensures r as int == v as int && r < 0x1_0000_0000
  {
    v as usize
  }

  /** `into_usize` for `u64`: on a 64-bit target every `u64` is a `usize`. */
  function U64IntoUsize(v: u64): (r: usize)
    ensures r as int == v as int
  {
    v as usize
  }

  /** `from_usize` into `u64`: the same number as a `u64`. */
  function U64FromUsize(v: usize): (r: u64)
    ensures r as int == v as int
  {
    v as u64
  }

  /** Converting into `usize` and back into `u64` gives the value back, and so does the other order. */
  lemma UsizeRoundTrip(v: u64, w: usize)
    ensures U64FromUsize(U64IntoUsize(v)) == v
    ensures U64IntoUsize(U64FromUsize(w)) == w
  {
  }

  /**
   * Bitwise AND of the low `n` bits of `x` and `y`, bit by bit from the
   * least significant: the operator `&` on `n`-bit unsigned integers.
   */
  function And(x: nat, y: nat, n: nat): (r: nat)
    ensures r <= x && r <= y
    decreases n
  {
    if n == 0 then 0
    else 2 * And(x / 2, y / 2, n - 1) + (if x % 2 == 1 && y % 2 == 1 then 1 else 0)
  }

  lemma {:induction false} AndComm(x: nat, y: nat, n: nat)
    ensures And(x, y, n) == And(y, x, n)
    decreases n
  {
    if n != 0 {
      AndComm(x / 2, y / 2, n - 1);
    }
  }

  /** Halving and the low bit put a remainder back together. */
  lemma ModHalf(x: nat, m: nat)
    requires m > 0
    ensures x % (2 * m) == 2 * ((x / 2) % m) + x % 2
  {
    var q := (x / 2) / m;
    var h := (x / 2) % m;
    assert x / 2 == q * m + h;
    assert x == 2 * (x / 2) + x % 2;
    assert x == q * (2 * m) + (2 * h + x % 2);
    DivUnique(x, 2 * m, q);
  }

  /** Masking with `k` low bits set keeps the low `k` bits: the remainder modulo `2^k`. */
  lemma {:induction false} AndLowOnes(x: nat, k: nat, n: nat)
    requires k <= n
    ensures And(x, Pow2(k) - 1, n) == x % Pow2(k)
    decreases n
  {
    if k == 0 {
      assert And(x, 0, n) == 0;
    } else {
      assert (Pow2(k) - 1) / 2 == Pow2(k - 1) - 1 && (Pow2(k) - 1) % 2 == 1;
      AndLowOnes(x / 2, k - 1, n - 1);
      ModHalf(x, Pow2(k - 1));
    }
  }

  /** A value of `m` bits has nothing above bit `m` for the AND to keep. */
  lemma {:induction false} AndNarrow(x: nat, y: nat, m: nat, n: nat)
    requires x < Pow2(m) && m <= n
    ensures And(x, y, n) == And(x, y, m)
    decreases n
  {
    if m == 0 {
      assert x == 0;
      if n != 0 {
        AndNarrow(0, y / 2, 0, n - 1);
      }
    } else {
      AndNarrow(x / 2, y / 2, m - 1, n - 1);
    }
  }

  /** Masking twice with the same mask is masking once. */
  lemma {:induction false} AndIdempotent(x: nat, y: nat, n: nat)
    ensures And(And(x, y, n), y, n) == And(x, y, n)
    decreases n
  {
    if n != 0 {
      var b := if x % 2 == 1 && y % 2 == 1 then 1 else 0;
      var a := And(x / 2, y / 2, n - 1);
      assert (2 * a + b) / 2 == a && (2 * a + b) % 2 == b;
      AndIdempotent(x / 2, y / 2, n - 1);
    }
  }

  lemma Pow2Of64()
    ensures Pow2(8) == 0x100
    ensures Pow2(32) == 0x1_0000_0000
    ensures Pow2(64) == 0x1_0000_0000_0000_0000
  {
    assert Pow2(4) == 16;
    Pow2Add(4, 4);
    Pow2Add(8, 8);
    Pow2Add(16, 16);
    Pow2Add(32, 32);
  }

  /** `u8::truncate`: `value as u8`, which keeps `value` modulo `2^8`. */
  function Truncate(value: u64): (r: u8)
    ensures r as int <= value as int
  {
    (value as int % 0x100) as u8
  }

  /** Truncation keeps exactly the low eight bits: it is the AND with `0xFF`. */
  lemma TruncateIsLowByte(value: u64)
    ensures Truncate(value) as int == And(value as nat, 0xFF, 64)
  {
    Pow2Of64();
    AndLowOnes(value as nat, 8, 64);
  }

  /** A value that fits in a byte is kept as it is; truncating again changes nothing more. */
  lemma TruncateKeepsByte(value: u64)
    ensures value < 0x100 ==> Truncate(value) == value as u8
    ensures Truncate(Truncate(value) as u64) == Truncate(value)
  {
  }

  /** `bitmask` on `usize`: the bits of `x` that are also set in `mask`. */
  function UsizeBitMask(x: usize, mask: u8): (r: u8)
    ensures r <= mask
    ensures r as int <= x as int
  {
    And(x as nat, mask as nat, 64) as u8
  }

  /** `bitmask` on `u32`: the bits of `x` that are also set in `mask`. */
  function U32BitMask(x: u32, mask: u8): (r: u8)
    ensures r <= mask
    ensures r as int <= x as int
  {
    And(x as nat, mask as nat, 32) as u8
  }

  /** An `n`-bit value masked by `n` set bits is kept whole. */
  lemma AndAllOnes(y: nat, n: nat)
    requires y < Pow2(n)
    ensures And(Pow2(n) - 1, y, n) == y
  {
    AndComm(Pow2(n) - 1, y, n);
    AndLowOnes(y, n, n);
    DivUnique(y, Pow2(n), 0);
    assert y == y / Pow2(n) * Pow2(n) + y % Pow2(n);
  }

  /** Masking a value with every bit set gives the mask back. */
  lemma BitMaskAllOnes(mask: u8)
    ensures UsizeBitMask(USIZE_MAX, mask) == mask
  {
    Pow2Of64();
    AndAllOnes(mask as nat, 64);
  }

  /** Masking twice with the same mask is masking once. */
  lemma BitMaskIdempotent(x: usize, mask: u8)
    ensures UsizeBitMask(UsizeBitMask(x, mask) as usize, mask) == UsizeBitMask(x, mask)
  {
    AndIdempotent(x as nat, mask as nat, 64);
  }

  /** On values that fit in 32 bits, both `bitmask` implementations agree. */
  lemma BitMaskAgree(x: u32, mask: u8)
    ensures U32BitMask(x, mask) == UsizeBitMask(x as usize, mask)
  {
    Pow2Of64();
    AndNarrow(x as nat, mask as nat, 32, 64);
  }

  /** The conversions written out in the module's own tests. */
  lemma ConversionExamples()
    ensures U8IntoUsize(1) == 1 && U16IntoUsize(1) == 1 && U32IntoUsize(1) == 1
    ensures U64FromUsize(1) == 1
    ensures Truncate(0xaaaa) == 0xaa
  {
  }

  /** The mask written out in the module's own tests: all of `usize::MAX` masked by `0x0f`. */
  lemma BitMaskExample()
    ensures UsizeBitMask(USIZE_MAX, 0x0f) == 0x0f
  {
    BitMaskAllOnes(0x0f);
  }
}
