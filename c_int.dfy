/**
 * C integer semantics on unbounded integers: 32-bit two's complement
 * `int`, 32-bit `DWORD`, shifts, the bitwise operators defined bit by bit,
 * truncating division and wrap-around.
 *
 * A C `int` is an `Int32`; its bit pattern is `Bits(x)`, a `Dword`.  The
 * bitwise operators act on the low `n` bits of two integers, so `a & b` on
 * two DWORDs is `BitAnd(a, b, 32)`.  Shifts are defined one bit at a time,
 * so that the lemmas about masks stay in linear arithmetic; `ShlIsMul` and
 * `ShrIsDiv` connect them to multiplication and division by 2^k.
 */
module CInt {

  type Int32 = x: int | -0x8000_0000 <= x < 0x8000_0000
  type Dword = x: int | 0 <= x < 0x1_0000_0000

  /** `x << k` without wrap-around: x * 2^k. */
  function Shl(x: int, k: nat): (r: int)
    ensures x > 0 ==> r > 0
    ensures x >= 0 ==> r >= 0
    decreases k
  {
    if k == 0 then x else 2 * Shl(x, k - 1)
  }

  /** `x >> k` as an arithmetic shift: floor(x / 2^k), one halving at a time. */
  function Shr(x: int, k: nat): int
    decreases k
  {
    if k == 0 then x else Shr(x / 2, k - 1)
  }

  /** The low `k` bits of `x`, as a natural number. */
  function Low(x: int, k: nat): (r: nat)
    ensures r < Shl(1, k)
    decreases k
  {
    if k == 0 then 0 else x % 2 + 2 * Low(x / 2, k - 1)
  }

  lemma Shl1By8()
    ensures Shl(1, 8) == 0x100
  {
    Shl8(1);
  }

  lemma Shl1By16()
    ensures Shl(1, 16) == 0x1_0000
  {
    Shl16(1);
  }

  lemma Shl1By24()
    ensures Shl(1, 24) == 0x100_0000
  {
    Shl16(1);
    Shl8(Shl(1, 16));
    ShlShl(1, 16, 8);
  }

  lemma Shl1By32()
    ensures Shl(1, 32) == 0x1_0000_0000
  {
    Shl16(1);
    Shl16(Shl(1, 16));
    ShlShl(1, 16, 16);
  }

  lemma Shl1By31()
    ensures Shl(1, 31) == 0x8000_0000
  {
    Shl1By32();
    assert Shl(1, 32) == 2 * Shl(1, 31);
  }

  lemma MulTwice(x: int, p: int)
    ensures 2 * (x * p) == x * (2 * p)
  {}

  lemma {:induction false} ShlIsMul(x: int, k: nat)
    ensures Shl(x, k) == x * Shl(1, k)
    decreases k
  {
    if k > 0 {
      ShlIsMul(x, k - 1);
      MulTwice(x, Shl(1, k - 1));
    }
  }

  /** Every integer splits into its high part shifted back and its low `k` bits. */
  lemma {:induction false} ShrLowSplit(x: int, k: nat)
    ensures x == Shl(Shr(x, k), k) + Low(x, k)
    decreases k
  {
    if k > 0 {
      ShrLowSplit(x / 2, k - 1);
      ShlLinear(2 * Shr(x / 2, k - 1), 0, 0);
      ShlDouble(Shr(x / 2, k - 1), k - 1);
    }
  }

  /** Doubling commutes with the shift. */
  lemma {:induction false} ShlDouble(x: int, k: nat)
    ensures Shl(x, k + 1) == Shl(2 * x, k)
    decreases k
  {
    if k > 0 {
      ShlDouble(x, k - 1);
    }
  }

  lemma {:induction false} ShlLinear(x: int, y: int, k: nat)
    ensures Shl(x + y, k) == Shl(x, k) + Shl(y, k)
    decreases k
  {
    if k > 0 {
      ShlLinear(x, y, k - 1);
    }
  }

  lemma {:induction false} ShlShl(x: int, j: nat, k: nat)
    ensures Shl(Shl(x, j), k) == Shl(x, j + k)
    decreases k
  {
    if k > 0 {
      ShlShl(x, j, k - 1);
    }
  }

  lemma MulAtLeast(d: int, k: int)
    requires d > 0 && k >= 1
    ensures d * k >= d
  {}

  lemma MulSub(d: int, a: int, b: int)
    ensures d * a - d * b == d * (a - b)
  {}

  /** Uniqueness of Euclidean division by a positive divisor. */
  lemma DivModUnique(x: int, d: int, q: int, r: int)
    requires d > 0 && x == d * q + r && 0 <= r < d
    ensures x / d == q && x % d == r
  {
    var q0, r0 := x / d, x % d;
    assert d * q0 + r0 == d * q + r;
    MulSub(d, q0, q);
    MulSub(d, q, q0);
    if q0 > q {
      MulAtLeast(d, q0 - q);
    } else if q0 < q {
      MulAtLeast(d, q - q0);
    }
  }

  lemma DivOfSplit(x: int, d: int, q: int, r: int, s: int)
    requires d > 0 && s == q * d && x == s + r && 0 <= r < d
    ensures x / d == q && x % d == r
  {
    DivModUnique(x, d, q, r);
  }

  /** The right shift is floor division by 2^k, and the low bits are the remainder. */
  lemma ShrIsDiv(x: int, k: nat)
    ensures Shr(x, k) == x / Shl(1, k) && Low(x, k) == x % Shl(1, k)
  {
    ShrLowSplit(x, k);
    ShlIsMul(Shr(x, k), k);
    DivOfSplit(x, Shl(1, k), Shr(x, k), Low(x, k), Shl(Shr(x, k), k));
  }

  lemma Shl8(x: int)
    ensures Shl(x, 8) == 0x100 * x
  {
    assert Shl(x, 1) == 2 * x;
    assert Shl(x, 2) == 2 * Shl(x, 1);
    assert Shl(x, 3) == 2 * Shl(x, 2);
    assert Shl(x, 4) == 2 * Shl(x, 3);
    assert Shl(x, 5) == 2 * Shl(x, 4);
    assert Shl(x, 6) == 2 * Shl(x, 5);
    assert Shl(x, 7) == 2 * Shl(x, 6);
    assert Shl(x, 8) == 2 * Shl(x, 7);
  }

  lemma Shl16(x: int)
    ensures Shl(x, 16) == 0x1_0000 * x
  {
    Shl8(x);
    Shl8(Shl(x, 8));
    ShlShl(x, 8, 8);
  }

  /** The pattern of a C `int`: its value modulo 2^32. */
  function Bits(x: int): Dword {
    x % 0x1_0000_0000
  }

  /** The C `int` whose pattern is `p`. */
  function FromBits(p: Dword): (x: Int32)
    ensures Bits(x) == p
  {
    if p < 0x8000_0000 then p else p - 0x1_0000_0000
  }

  /** Signed arithmetic as the compiler performs it: the mathematical result, wrapped to 32 bits. */
  function Wrap32(x: int): (r: Int32)
    ensures Bits(r) == Bits(x)
    ensures -0x8000_0000 <= x < 0x8000_0000 ==> r == x
  {
    FromBits(Bits(x))
  }

  /** The arithmetic shift by 31 of a C `int` is -1 for a negative value and 0 otherwise. */
  lemma Shr31Sign(x: Int32)
    ensures Shr(x, 31) == if x < 0 then -1 else 0
  {
    ShrIsDiv(x, 31);
    Shl1By31();
  }

  /** C division: truncation toward zero. */
  function TruncDiv(a: int, b: int): (q: int)
    requires b != 0
    ensures b > 0 && a >= 0 ==> q == a / b
    ensures b > 0 && a < 0 ==> q == -((-a) / b)
  {
    if (a >= 0) == (b > 0) then
      (if a >= 0 then a / b else (-a) / (-b))
    else
      -((if a >= 0 then a else -a) / (if b > 0 then b else -b))
  }

  /** The low `n` bits of `a & b`. */
  function BitAnd(a: int, b: int, n: nat): nat
    decreases n
  {
    if n == 0 then 0
    else (if a % 2 == 1 && b % 2 == 1 then 1 else 0) + 2 * BitAnd(a / 2, b / 2, n - 1)
  }

  /** The low `n` bits of `a | b`. */
  function BitOr(a: int, b: int, n: nat): nat
    decreases n
  {
    if n == 0 then 0
    else (if a % 2 == 1 || b % 2 == 1 then 1 else 0) + 2 * BitOr(a / 2, b / 2, n - 1)
  }

  /** The low `n` bits of `a ^ b`. */
  function BitXor(a: int, b: int, n: nat): nat
    decreases n
  {
    if n == 0 then 0
    else (if a % 2 != b % 2 then 1 else 0) + 2 * BitXor(a / 2, b / 2, n - 1)
  }

  lemma {:induction false} BitOpsBound(a: int, b: int, n: nat)
    ensures BitAnd(a, b, n) < Shl(1, n) && BitOr(a, b, n) < Shl(1, n) && BitXor(a, b, n) < Shl(1, n)
    decreases n
  {
    if n > 0 {
      BitOpsBound(a / 2, b / 2, n - 1);
    }
  }

  /** The 32-bit operators yield DWORDs. */
  lemma BitOps32(a: int, b: int)
    ensures BitAnd(a, b, 32) < 0x1_0000_0000 && BitOr(a, b, 32) < 0x1_0000_0000
    ensures BitXor(a, b, 32) < 0x1_0000_0000
  {
    BitOpsBound(a, b, 32);
    Shl1By32();
  }

  /** `~x` on a C `int`. */
  function BitNot(x: Int32): (r: Int32)
    ensures Bits(r) == 0xFFFF_FFFF - Bits(x)
  {
    -1 - x
  }

  lemma {:induction false} AndZero(a: int, n: nat)
    ensures BitAnd(a, 0, n) == 0
    decreases n
  {
    if n > 0 {
      AndZero(a / 2, n - 1);
    }
  }

  /** Masking with the low `w` bits keeps the low `w` bits. */
  lemma {:induction false} AndLowMask(a: int, w: nat, n: nat)
    requires w <= n
    ensures BitAnd(a, Shl(1, w) - 1, n) == Low(a, w)
    decreases n
  {
    if w == 0 {
      AndZero(a, n);
    } else {
      assert (Shl(1, w) - 1) % 2 == 1 && (Shl(1, w) - 1) / 2 == Shl(1, w - 1) - 1;
      AndLowMask(a / 2, w - 1, n - 1);
    }
  }

  /** A mask shifted left by `k` selects the bits of `a` shifted right by `k`, shifted back. */
  lemma {:induction false} AndShiftedMask(a: int, m: int, k: nat, n: nat)
    requires k <= n
    ensures BitAnd(a, Shl(m, k), n) == Shl(BitAnd(Shr(a, k), m, n - k), k)
    decreases k
  {
    if k > 0 {
      ShlDouble(m, k - 1);
      ShlDouble(BitAnd(Shr(a, k), m, n - k), k - 1);
      AndDoubled(a, Shl(m, k - 1), n);
      AndShiftedMask(a / 2, m, k - 1, n - 1);
    }
  }

  /** A low zero bit in the mask clears the low bit of the result. */
  lemma AndDoubled(a: int, m: int, n: nat)
    requires n > 0
    ensures BitAnd(a, 2 * m, n) == 2 * BitAnd(a / 2, m, n - 1)
  {
    assert (2 * m) % 2 == 0 && (2 * m) / 2 == m;
  }

  /** The low `k` bits of a value below 2^k are the value itself. */
  lemma LowOfSmall(x: int, k: nat)
    requires 0 <= x < Shl(1, k)
    ensures Low(x, k) == x
  {
    ShrIsDiv(x, k);
    DivModUnique(x, Shl(1, k), 0, x);
  }

  /** `a & ~0`: all ones keeps a value of `n` bits. */
  lemma AndAllOnes(a: int, n: nat)
    requires 0 <= a < Shl(1, n)
    ensures BitAnd(a, Shl(1, n) - 1, n) == a
  {
    AndLowMask(a, n, n);
    LowOfSmall(a, n);
  }

  lemma {:induction false} XorZero(a: int, n: nat)
    requires 0 <= a < Shl(1, n)
    ensures BitXor(a, 0, n) == a
    decreases n
  {
    if n > 0 {
      XorZero(a / 2, n - 1);
    }
  }

  /** `a ^ (a ^ u) == u` on a value `u` of `n` bits. */
  lemma {:induction false} XorCancel(a: int, u: int, n: nat)
    requires 0 <= u < Shl(1, n)
    ensures BitXor(a, BitXor(a, u, n), n) == u
    decreases n
  {
    if n > 0 {
      var x := BitXor(a, u, n);
      var rest := BitXor(a / 2, u / 2, n - 1);
      assert x % 2 == (if a % 2 != u % 2 then 1 else 0) && x / 2 == rest;
      XorCancel(a / 2, u / 2, n - 1);
    }
  }

  /**
   * OR of two values whose set bits are disjoint (the first has its low
   * `k` bits clear, the second lies below 2^k) is their sum.
   */
  lemma {:induction false} OrDisjoint(a: int, b: int, k: nat, n: nat)
    requires k <= n && 0 <= a < Shl(1, n) && Low(a, k) == 0 && 0 <= b < Shl(1, k)
    ensures BitOr(a, b, n) == a + b
    decreases n
  {
    if n > 0 {
      if k > 0 {
        OrDisjoint(a / 2, b / 2, k - 1, n - 1);
      } else {
        OrDisjoint(a / 2, 0, 0, n - 1);
      }
    }
  }

  /** A multiple of 2^k has its low `k` bits clear. */
  lemma {:induction false} LowOfShl(x: int, k: nat)
    ensures Low(Shl(x, k), k) == 0
    decreases k
  {
    if k > 0 {
      var y := Shl(x, k - 1);
      assert Shl(x, k) == 2 * y;
      assert (2 * y) % 2 == 0 && (2 * y) / 2 == y;
      LowOfShl(x, k - 1);
    }
  }

  /**
   * Selecting a byte: `a & (0xFF << k)` is the byte of `a` at bit `k`, left
   * in place, for a DWORD `a`.
   */
  lemma AndByteMask(a: Dword, k: nat)
    requires k <= 24
    ensures BitAnd(a, Shl(0xFF, k), 32) == Shl(Shr(a, k) % 0x100, k)
  {
    AndShiftedMask(a, 0xFF, k, 32);
    Shl1By8();
    AndLowMask(Shr(a, k), 8, 32 - k);
    ShrIsDiv(Shr(a, k), 8);
  }

  lemma {:induction false} ShlMono(l: int, m: int, j: nat)
    requires l < m
    ensures Shl(l, j) < Shl(m, j)
    decreases j
  {
    if j > 0 {
      ShlMono(l, m, j - 1);
    }
  }

  lemma {:induction false} ShrShl(c: int, k: nat)
    ensures Shr(Shl(c, k), k) == c
    decreases k
  {
    if k > 0 {
      ShlDouble(c, k - 1);
      ShrShl(2 * c / 2, k - 1);
      ShrOfShlStep(c, k);
    }
  }

  lemma ShrOfShlStep(c: int, k: nat)
    requires k > 0
    ensures Shr(Shl(c, k), k) == Shr(Shl(c, k - 1), k - 1)
  {
    assert Shl(c, k) / 2 == Shl(c, k - 1);
  }

  /**
   * OR-ing a value `l` of `k` bits into the gap below `h << k`, both
   * shifted by a further `j`, concatenates them.
   */
  lemma OrAtShift(h: nat, l: nat, k: nat, j: nat)
    requires k + j <= 32 && l < Shl(1, k) && Shl(Shl(h, k) + l, j) < Shl(1, 32)
    ensures BitOr(Shl(h, k + j), Shl(l, j), 32) == Shl(Shl(h, k) + l, j)
  {
    OrAtShiftWidth(h, l, k, j, 32);
  }

  /** `OrAtShift` for any width `n`. */
  lemma OrAtShiftWidth(h: nat, l: nat, k: nat, j: nat, n: nat)
    requires k + j <= n && l < Shl(1, k) && Shl(Shl(h, k) + l, j) < Shl(1, n)
    ensures BitOr(Shl(h, k + j), Shl(l, j), n) == Shl(Shl(h, k) + l, j)
  {
    var a, b := Shl(h, k + j), Shl(l, j);
    assert Shl(Shl(h, k) + l, j) == a + b by {
      ShlShl(h, k, j);
      ShlLinear(Shl(h, k), l, j);
    }
    assert b < Shl(1, k + j) by {
      ShlMono(l, Shl(1, k), j);
      ShlShl(1, k, j);
    }
    assert Low(a, k + j) == 0 by {
      LowOfShl(h, k + j);
    }
    OrDisjoint(a, b, k + j, n);
  }

  /** `(x << 16) | (y << 8) | z` on three bytes: the packed value, which unpacks to the three bytes. */
  function Pack(x: nat, y: nat, z: nat): (r: Dword)
    requires x < 0x100 && y < 0x100 && z < 0x100
    ensures r == x * 0x1_0000 + y * 0x100 + z
    ensures r / 0x1_0000 == x && (r / 0x100) % 0x100 == y && r % 0x100 == z
  {
    PackIsSum(x, y, z);
    Unpack(x, y, z);
    BitOps32(BitOr(Shl(x, 16), Shl(y, 8), 32), z);
    BitOr(BitOr(Shl(x, 16), Shl(y, 8), 32), z, 32)
  }

  lemma PackIsSum(x: nat, y: nat, z: nat)
    requires x < 0x100 && y < 0x100 && z < 0x100
    ensures BitOr(BitOr(Shl(x, 16), Shl(y, 8), 32), z, 32) == x * 0x1_0000 + y * 0x100 + z
  {
    PackTwo(x, y);
    PackLowByte(Shl(x, 8) + y, z);
  }

  /** `(x << 16) | (y << 8)` is `((x << 8) + y) << 8`, that is x * 2^16 + y * 2^8. */
  lemma PackTwo(x: nat, y: nat)
    requires x < 0x1_0000 && y < 0x100
    ensures BitOr(Shl(x, 16), Shl(y, 8), 32) == Shl(Shl(x, 8) + y, 8)
    ensures Shl(x, 8) + y < 0x100_0000 && Shl(Shl(x, 8) + y, 8) == x * 0x1_0000 + y * 0x100
  {
    Shl1By8();
    Shl1By32();
    Shl8(x);
    Shl8(Shl(x, 8) + y);
    OrAtShift(x, y, 8, 8);
  }

  /** `(h << 8) | z` for a byte `z` and `h` below 2^24. */
  lemma PackLowByte(h: nat, z: nat)
    requires h < 0x100_0000 && z < 0x100
    ensures BitOr(Shl(h, 8), z, 32) == h * 0x100 + z
  {
    Shl1By8();
    Shl1By32();
    Shl8(h);
    OrAtShift(h, z, 8, 0);
  }

  lemma Unpack(x: nat, y: nat, z: nat)
    requires x < 0x100 && y < 0x100 && z < 0x100
    ensures var r := x * 0x1_0000 + y * 0x100 + z;
      r / 0x1_0000 == x && (r / 0x100) % 0x100 == y && r % 0x100 == z
  {
    var r := x * 0x1_0000 + y * 0x100 + z;
    DivModUnique(r, 0x1_0000, x, y * 0x100 + z);
    DivModUnique(r, 0x100, x * 0x100 + y, z);
    DivModUnique(x * 0x100 + y, 0x100, x, y);
  }

  /** `(a << 24) | (x << 16) | (y << 8) | z` with `a` a byte, as a DWORD. */
  lemma PackArgbIsSum(a: nat, x: nat, y: nat, z: nat)
    requires a < 0x100 && x < 0x100 && y < 0x100 && z < 0x100
    ensures BitOr(BitOr(BitOr(Shl(a, 24), Shl(x, 16), 32), Shl(y, 8), 32), z, 32)
         == a * 0x100_0000 + x * 0x1_0000 + y * 0x100 + z
  {
    var h1 := Shl(a, 8) + x;
    PackTopTwo(a, x);
    PackTwo(h1, y);
    PackLowByte(Shl(h1, 8) + y, z);
  }

  /** `(a << 24) | (x << 16)` is `((a << 8) + x) << 16`. */
  lemma PackTopTwo(a: nat, x: nat)
    requires a < 0x100 && x < 0x100
    ensures BitOr(Shl(a, 24), Shl(x, 16), 32) == Shl(Shl(a, 8) + x, 16)
    ensures Shl(a, 8) + x < 0x1_0000 && Shl(Shl(a, 8) + x, 16) == a * 0x100_0000 + x * 0x1_0000
  {
    Shl1By8();
    Shl1By32();
    Shl8(a);
    var h := Shl(a, 8) + x;
    assert h == 0x100 * a + x < 0x1_0000;
    Shl16(h);
    assert Shl(h, 16) == 0x1_0000 * h < 0x1_0000_0000;
    OrAtShift(a, x, 8, 16);
  }

  /** The top byte of `a * 2^24 + low` is `a`, and the low three bytes are `low`. */
  lemma SplitTopByte(a: nat, low: nat)
    requires low < 0x100_0000
    ensures (a * 0x100_0000 + low) / 0x100_0000 == a && (a * 0x100_0000 + low) % 0x100_0000 == low
  {
    DivModUnique(a * 0x100_0000 + low, 0x100_0000, a, low);
  }

  /** OR-ing a 24-bit value under a top byte. */
  lemma OrUnderTopByte(a: nat, low: nat)
    requires a < 0x100 && low < 0x100_0000
    ensures BitOr(Shl(a, 24), low, 32) == a * 0x100_0000 + low
  {
    Shl1By24();
    Shl1By32();
    ShlIsMul(a, 24);
    OrAtShift(a, low, 24, 0);
  }

  lemma ShrBy8(x: int)
    ensures Shr(x, 8) == x / 0x100
  {
    ShrIsDiv(x, 8);
    Shl1By8();
  }

  lemma ShrBy16(x: int)
    ensures Shr(x, 16) == x / 0x1_0000
  {
    ShrIsDiv(x, 16);
    Shl1By16();
  }

  lemma ShrBy24(x: int)
    ensures Shr(x, 24) == x / 0x100_0000
  {
    ShrIsDiv(x, 24);
    Shl1By24();
  }

  lemma ModOfSmall(x: int, d: int)
    requires 0 <= x < d
    ensures x % d == x
  {
    DivModUnique(x, d, 0, x);
  }

  lemma BitsSmall(x: int)
    requires 0 <= x < 0x1_0000_0000
    ensures Bits(x) == x
  {
    DivModUnique(x, 0x1_0000_0000, 0, x);
  }
}
