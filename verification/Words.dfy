/** Machine words: 64-bit `usize` values as naturals, checked addition, and the
    bitwise mask idiom `x & !(align - 1)` that every layout computation relies on. */
module Words {

  datatype Option<+T> = None | Some(value: T)

  const USIZE_BITS: nat := 64
  const USIZE_MAX: nat := 0xFFFF_FFFF_FFFF_FFFF
  const ISIZE_MAX: nat := 0x7FFF_FFFF_FFFF_FFFF

  type usize = x: int | 0 <= x <= USIZE_MAX

  /** `usize::checked_add`. */
  function CheckedAdd(a: nat, b: nat): Option<nat> {
    if a + b <= USIZE_MAX then Some(a + b) else None
  }

  /** `usize::checked_mul`. */
  function CheckedMul(a: nat, b: nat): Option<nat> {
    if a * b <= USIZE_MAX then Some(a * b) else None
  }

  /** `usize::wrapping_sub`. */
  function WrappingSub(a: nat, b: nat): nat {
    (a - b) % (USIZE_MAX + 1)
  }

  function Min(a: int, b: int): int { if a <= b then a else b }

  function Max(a: int, b: int): int { if a <= b then b else a }

  // ---------------------------------------------------------------- powers of two

  function Pow2(k: nat): (p: nat)
    ensures p > 0
  {
    if k == 0 then 1 else 2 * Pow2(k - 1)
  }

  /** `usize::is_power_of_two`. */
  predicate IsPow2(n: nat) {
    n == 1 || (n > 1 && n % 2 == 0 && IsPow2(n / 2))
  }

  /** The exponent of a power of two (`trailing_zeros`). */
  function Log2(n: nat): (k: nat)
    requires IsPow2(n)
    ensures Pow2(k) == n
  {
    if n == 1 then 0 else 1 + Log2(n / 2)
  }

  lemma {:induction false} Pow2IsPow2(k: nat)
    ensures IsPow2(Pow2(k))
  {
    if k > 0 { Pow2IsPow2(k - 1); }
  }

  lemma WordIsPow2()
    ensures Pow2(USIZE_BITS) == USIZE_MAX + 1
  {
    Pow2EightBytes(USIZE_BITS);
  }

  lemma Pow2EightBytes(n: nat)
    requires n == 64
    ensures Pow2(n) == USIZE_MAX + 1
  {
    Pow2Byte(n - 8);
    Pow2Byte(n - 16);
    Pow2Byte(n - 24);
    Pow2Byte(n - 32);
    Pow2Byte(n - 40);
    Pow2Byte(n - 48);
    Pow2Byte(n - 56);
    Pow2Byte(n - 64);
  }

  lemma Pow2Byte(n: nat)
    ensures Pow2(n + 8) == 256 * Pow2(n)
  {
    assert Pow2(n + 2) == 4 * Pow2(n);
    assert Pow2(n + 4) == 16 * Pow2(n);
    assert Pow2(n + 6) == 64 * Pow2(n);
  }

  lemma {:induction false} Pow2Add(a: nat, b: nat)
    ensures Pow2(a + b) == Pow2(a) * Pow2(b)
  {
    if a > 0 { Pow2Add(a - 1, b); }
  }

  lemma {:induction false} Pow2Monotone(a: nat, b: nat)
    requires a <= b
    ensures Pow2(a) <= Pow2(b)
  {
    if a < b { Pow2Monotone(a, b - 1); }
  }

  /** A power of two no larger than the word has an exponent of at most 64. */
  lemma Log2Bounded(n: nat)
    requires IsPow2(n) && n <= USIZE_MAX + 1
    ensures Log2(n) <= USIZE_BITS
  {
    WordIsPow2();
    if Log2(n) > USIZE_BITS {
      Pow2Monotone(USIZE_BITS + 1, Log2(n));
    }
  }

  // ---------------------------------------------------------------- bitwise and/not

  /** `x & y`, bit by bit. */
  function BitAnd(x: nat, y: nat): nat
    decreases x
  {
    if x == 0 || y == 0 then 0
    else 2 * BitAnd(x / 2, y / 2) + (if x % 2 == 1 && y % 2 == 1 then 1 else 0)
  }

  /** `!x` on a 64-bit word. */
  function BitNot(x: nat): nat
    requires x <= USIZE_MAX
  {
    USIZE_MAX - x
  }

  lemma {:induction false} AndAllOnes(x: nat, w: nat)
    requires x < Pow2(w)
    ensures BitAnd(x, Pow2(w) - 1) == x
  {
    if x > 0 {
      assert (Pow2(w) - 1) / 2 == Pow2(w - 1) - 1;
      AndAllOnes(x / 2, w - 1);
    }
  }

  lemma ModHalves(x: nat, m: nat)
    requires m > 0
    ensures x % (2 * m) == 2 * ((x / 2) % m) + x % 2
    ensures x / (2 * m) == (x / 2) / m
  {
    var q, r := (x / 2) / m, (x / 2) % m;
    assert x == 2 * (x / 2) + x % 2;
    assert x / 2 == q * m + r;
    assert x == (2 * m) * q + (2 * r + x % 2);
    DivModUnique(x, 2 * m, q, 2 * r + x % 2);
  }

  lemma DivModUnique(x: nat, m: nat, q: nat, r: nat)
    requires m > 0 && x == m * q + r && r < m
    ensures x / m == q && x % m == r
  {
    var d := q - x / m;
    assert m * d == x % m - r;
    if d >= 1 {
      MulMonotone(m, 1, d);
    } else if d <= -1 {
      MulMonotone(m, 1, -d);
    }
  }

  lemma MulMonotone(a: nat, b: int, c: int)
    requires b <= c
    ensures a * b <= a * c
  {
    assert a * c == a * b + a * (c - b);
  }

  /** The mask with ones in positions `k` to `w - 1`. */
  function HighOnes(w: nat, k: nat): (m: nat)
    requires k <= w
    ensures m == Pow2(w) - Pow2(k)
  {
    Pow2Monotone(k, w);
    Pow2(w) - Pow2(k)
  }

  /** The low `k` bits of `x`. */
  function LowBits(x: nat, k: nat): nat {
    if k == 0 then 0 else 2 * LowBits(x / 2, k - 1) + x % 2
  }

  lemma {:induction false} LowBitsIsMod(x: nat, k: nat)
    ensures LowBits(x, k) == x % Pow2(k)
  {
    if k > 0 {
      LowBitsIsMod(x / 2, k - 1);
      ModHalves(x, Pow2(k - 1));
    }
  }

  /** Masking with the low `k` ones is the remainder by the power of two. */
  lemma {:induction false} AndLowOnes(x: nat, k: nat)
    ensures BitAnd(x, Pow2(k) - 1) == x % Pow2(k)
  {
    LowBitsIsMod(x, k);
    AndLowBits(x, k);
  }

  lemma {:induction false} AndLowBits(x: nat, k: nat)
    ensures BitAnd(x, Pow2(k) - 1) == LowBits(x, k)
  {
    if x == 0 {
      LowBitsIsMod(x, k);
    } else if k > 0 {
      assert (Pow2(k) - 1) / 2 == Pow2(k - 1) - 1;
      AndLowBits(x / 2, k - 1);
    }
  }

  /** `x >> k`, bit by bit. */
  function ShiftRight(x: nat, k: nat): nat {
    if k == 0 then x else ShiftRight(x / 2, k - 1)
  }

  lemma {:induction false} ShiftRightIsDiv(x: nat, k: nat)
    ensures ShiftRight(x, k) == x / Pow2(k)
  {
    if k > 0 {
      ShiftRightIsDiv(x / 2, k - 1);
      ModHalves(x, Pow2(k - 1));
    }
  }

  /** `x | y`, bit by bit. */
  function BitOr(x: nat, y: nat): nat {
    if x == 0 then y
    else if y == 0 then x
    else 2 * BitOr(x / 2, y / 2) + (if x % 2 == 1 || y % 2 == 1 then 1 else 0)
  }

  /** Or-ing into cleared low bits is addition. */
  lemma {:induction false} OrIntoCleared(x: nat, y: nat, k: nat)
    requires y < Pow2(k)
    ensures BitOr(x * Pow2(k), y) == x * Pow2(k) + y
  {
    if k > 0 && y > 0 && x > 0 {
      var high := x * Pow2(k - 1);
      assert x * Pow2(k) == 2 * high;
      OrIntoCleared(x, y / 2, k - 1);
      OrEven(high, y);
    }
  }

  lemma OrEven(x: nat, y: nat)
    requires x > 0 && y > 0
    ensures BitOr(2 * x, y) == 2 * BitOr(x, y / 2) + y % 2
  {
    var z := 2 * x;
    assert z / 2 == x && z % 2 == 0;
  }

  lemma {:induction false} AndHighOnes(x: nat, w: nat, k: nat)
    requires x < Pow2(w) && k <= w
    ensures BitAnd(x, HighOnes(w, k)) == x - LowBits(x, k)
    decreases k
  {
    if k == 0 {
      AndAllOnes(x, w);
    } else {
      assert HighOnes(w, k) == 2 * HighOnes(w - 1, k - 1);
      AndHighOnes(x / 2, w - 1, k - 1);
      AndEven(x, HighOnes(w - 1, k - 1));
    }
  }

  lemma {:induction false} AndEven(x: nat, y: nat)
    ensures BitAnd(x, 2 * y) == 2 * BitAnd(x / 2, y)
  {
    var z := 2 * y;
    assert z / 2 == y && z % 2 == 0;
    assert y == 0 ==> BitAnd(x / 2, y) == 0;
  }

  // ---------------------------------------------------------------- multiples

  /** `x` is a multiple of `a` (see `AlignedIsMod`). */
  predicate Aligned(x: nat, a: nat)
    requires a > 0
  {
    x == 0 || (x >= a && Aligned(x - a, a))
  }

  lemma {:induction false} AlignedIsMod(x: nat, a: nat)
    requires a > 0
    ensures Aligned(x, a) <==> x % a == 0
  {
    if x >= a {
      AlignedIsMod(x - a, a);
      ModMinus(x, a);
    } else {
      DivModUnique(x, a, 0, x);
    }
  }

  lemma ModMinus(x: nat, a: nat)
    requires 0 < a <= x
    ensures (x - a) % a == x % a
  {
    var q, r := x / a, x % a;
    assert x == a * q + r;
    assert q > 0;
    assert x - a == a * (q - 1) + r;
    DivModUnique(x - a, a, q - 1, r);
  }

  lemma {:induction false} AlignedTimes(a: nat, n: nat)
    requires a > 0
    ensures Aligned(a * n, a)
  {
    if n > 0 {
      AlignedTimes(a, n - 1);
      assert a * n == a * (n - 1) + a;
    }
  }

  lemma {:induction false} AlignedPlus(x: nat, y: nat, a: nat)
    requires a > 0 && Aligned(x, a) && Aligned(y, a)
    ensures Aligned(x + y, a)
  {
    if x > 0 { AlignedPlus(x - a, y, a); }
  }

  lemma {:induction false} AlignedScaled(x: nat, a: nat, n: nat)
    requires a > 0 && Aligned(x, a)
    ensures Aligned(x * n, a)
  {
    if n > 0 {
      AlignedScaled(x, a, n - 1);
      assert x * n == x * (n - 1) + x;
      AlignedPlus(x * (n - 1), x, a);
    }
  }

  lemma {:induction false} AlignedTransitive(x: nat, b: nat, a: nat)
    requires a > 0 && b > 0 && Aligned(x, b) && Aligned(b, a)
    ensures Aligned(x, a)
  {
    if x > 0 {
      AlignedTransitive(x - b, b, a);
      AlignedPlus(x - b, b, a);
    }
  }

  /** An address aligned for a power of two is aligned for every smaller one. */
  lemma AlignedForSmaller(x: nat, b: nat, a: nat)
    requires IsPow2(a) && IsPow2(b) && a <= b && Aligned(x, b)
    ensures Aligned(x, a)
  {
    if Log2(b) < Log2(a) { Pow2Strict(Log2(b), Log2(a)); }
    Pow2Aligned(Log2(a), Log2(b));
    AlignedTransitive(x, b, a);
  }

  lemma Pow2Strict(a: nat, b: nat)
    requires a < b
    ensures Pow2(a) < Pow2(b)
  {
    Pow2Monotone(a + 1, b);
  }

  /** Two multiples of `a` closer than `a` are in order already. */
  lemma {:induction false} AlignedGap(m: nat, r: nat, a: nat)
    requires a > 0 && Aligned(m, a) && Aligned(r, a) && r < m + a
    ensures r <= m
    decreases m
  {
    if m > 0 && r > 0 { AlignedGap(m - a, r - a, a); }
  }

  lemma Pow2Aligned(a: nat, b: nat)
    requires a <= b
    ensures Aligned(Pow2(b), Pow2(a))
  {
    Pow2Add(a, b - a);
    AlignedTimes(Pow2(a), Pow2(b - a));
  }

  /** The size of the address space is a multiple of every alignment. */
  lemma WordAligned(align: nat)
    requires IsPow2(align) && align <= USIZE_MAX + 1
    ensures Aligned(USIZE_MAX + 1, align)
  {
    Log2Bounded(align);
    WordIsPow2();
    Pow2Aligned(Log2(align), USIZE_BITS);
  }

  /** The mask idiom: clearing the low bits of a word rounds it down to a multiple. */
  lemma MaskRoundsDown(x: nat, align: nat)
    requires x <= USIZE_MAX && IsPow2(align) && align <= USIZE_MAX
    ensures Aligned(BitAnd(x, BitNot(align - 1)), align)
    ensures x - align < BitAnd(x, BitNot(align - 1)) <= x
  {
    hide BitAnd, LowBits, Pow2, Aligned, IsPow2;
    Log2Bounded(align);
    WordIsPow2();
    AndHighOnes(x, USIZE_BITS, Log2(align));
    LowBitsIsMod(x, Log2(align));
    RoundDownAligned(x, align);
  }

  lemma RoundDownAligned(x: nat, a: nat)
    requires a > 0
    ensures Aligned(x - x % a, a)
  {
    AlignedTimes(a, x / a);
    assert x == a * (x / a) + x % a;
  }

  // ---------------------------------------------------------------- rounding up

  /** The least multiple of `a` that is at least `x` (see `RoundUpIsLeast`). */
  function RoundUp(x: nat, a: nat): (r: nat)
    requires a > 0
    ensures x <= r
  {
    if x == 0 then 0 else if x <= a then a else a + RoundUp(x - a, a)
  }

  lemma {:induction false} RoundUpBounds(x: nat, a: nat)
    requires a > 0
    ensures Aligned(RoundUp(x, a), a)
    ensures x <= RoundUp(x, a) < x + a
  {
    if x > a { RoundUpBounds(x - a, a); }
  }

  lemma RoundUpIsLeast(x: nat, a: nat, m: nat)
    requires a > 0 && Aligned(m, a) && x <= m
    ensures RoundUp(x, a) <= m
  {
    RoundUpBounds(x, a);
    AlignedGap(m, RoundUp(x, a), a);
  }

  lemma RoundUpMonotone(x: nat, y: nat, a: nat)
    requires a > 0 && x <= y
    ensures RoundUp(x, a) <= RoundUp(y, a)
  {
    RoundUpBounds(y, a);
    RoundUpIsLeast(x, a, RoundUp(y, a));
  }

  lemma RoundUpOfMultiple(x: nat, a: nat)
    requires a > 0 && Aligned(x, a)
    ensures RoundUp(x, a) == x
  {
    RoundUpBounds(x, a);
    RoundUpIsLeast(x, a, x);
  }

  /** `x.checked_add(align - 1)? & !(align - 1)`: the checked round-up of the source. */
  function CheckedRoundUp(x: nat, align: nat): Option<nat>
    requires x <= USIZE_MAX && 0 < align <= USIZE_MAX
  {
    match CheckedAdd(x, align - 1)
    case None => None
    case Some(top) => Some(BitAnd(top, BitNot(align - 1)))
  }

  lemma RoundUpByMask(x: nat, align: nat)
    requires IsPow2(align) && align <= USIZE_MAX && x + (align - 1) <= USIZE_MAX
    ensures BitAnd(x + (align - 1), BitNot(align - 1)) == RoundUp(x, align)
  {
    var masked := BitAnd(x + (align - 1), BitNot(align - 1));
    MaskRoundsDown(x + (align - 1), align);
    RoundUpBounds(x, align);
    AlignedGap(masked, RoundUp(x, align), align);
    AlignedGap(RoundUp(x, align), masked, align);
  }

  /** The checked round-up computes the least multiple exactly when that multiple is a
      word, and rejects exactly when it is not. */
  lemma CheckedRoundUpExact(x: nat, align: nat)
    requires x <= USIZE_MAX && IsPow2(align) && align <= USIZE_MAX
    ensures CheckedRoundUp(x, align) ==
            if RoundUp(x, align) <= USIZE_MAX then Some(RoundUp(x, align)) else None
  {
    RoundUpBounds(x, align);
    if x + (align - 1) <= USIZE_MAX {
      RoundUpByMask(x, align);
    } else {
      WordAligned(align);
      AlignedGap(RoundUp(x, align), USIZE_MAX + 1, align);
    }
  }
}
