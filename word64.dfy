/**
  Unsigned machine words of 64 bits (`size_t` on the target platform):
  wrap-around increment and subtraction, bitwise AND, and the facts about
  powers of two that make `v & (c - 1)` a cheap replacement for `v % c`.
 */
module Word64 {

  /** 2^64: the modulus of every `size_t` operation. */
  const WORD: nat := 0x1_0000_0000_0000_0000

  /** A value of type `size_t`. */
  type SizeT = x: int | 0 <= x < WORD

  /** `x + 1` on `size_t` (the post-increment of a cursor); wraps to 0 after the largest value. */
  function Inc(x: SizeT): (r: SizeT)
    ensures Diff(r, x) == 1
  {
    (x + 1) % WORD
  }

  /** `a - b` on `size_t`: the difference modulo 2^64, never negative. */
  function Diff(a: SizeT, b: SizeT): (r: SizeT)
    ensures a == (b + r) % WORD
  {
    (a - b) % WORD
  }

  /** Bitwise AND of two naturals, one binary digit at a time (the C++ `&`). */
  function BitAnd(a: nat, b: nat): (r: nat)
    ensures r <= a && r <= b
    decreases a
  {
    if a == 0 || b == 0 then 0
    else 2 * BitAnd(a / 2, b / 2) + (if a % 2 == 1 && b % 2 == 1 then 1 else 0)
  }

  /** 1, 2, 4, 8, ... */
  predicate IsPowerOfTwo(c: nat)
    decreases c
  {
    c == 1 || (c >= 2 && c % 2 == 0 && IsPowerOfTwo(c / 2))
  }

  // ---------------------------------------------------------------------------
  // Wrap-around arithmetic of the two cursors
  // ---------------------------------------------------------------------------

  /** The unsigned difference is zero exactly when the two words are equal. */
  lemma DiffZeroIffEqual(a: SizeT, b: SizeT)
    ensures Diff(a, b) == 0 <==> a == b
  {
  }

  /** Advancing the left cursor grows the difference by one, as long as it does not reach 2^64. */
  lemma DiffAfterIncLeft(a: SizeT, b: SizeT)
    requires Diff(a, b) < WORD - 1
    ensures Diff(Inc(a), b) == Diff(a, b) + 1
  {
  }

  /** Advancing the right cursor shrinks a positive difference by one. */
  lemma DiffAfterIncRight(a: SizeT, b: SizeT)
    requires Diff(a, b) > 0
    ensures Diff(a, Inc(b)) == Diff(a, b) - 1
  {
  }

  // ---------------------------------------------------------------------------
  // Bitwise AND
  // ---------------------------------------------------------------------------

  /** `v & v == v`. */
  lemma {:induction false} BitAndSelf(v: nat)
    ensures BitAnd(v, v) == v
    decreases v
  {
    if v != 0 {
      BitAndSelf(v / 2);
    }
  }

  /** Uniqueness of the Euclidean remainder. */
  lemma ModUnique(v: int, d: int, q: int, s: int)
    requires 0 <= s < d
    requires v == d * q + s
    ensures v % d == s && v / d == q
  {
    var q', s' := v / d, v % d;
    if q > q' {
      MulAtLeast(d, q - q');
    } else if q < q' {
      MulAtLeast(d, q' - q);
    }
  }

  /** A positive multiple of `d` is at least `d`. */
  lemma {:induction false} MulAtLeast(d: nat, k: int)
    requires k >= 1
    ensures d * k >= d
    decreases k
  {
    if k > 1 {
      MulAtLeast(d, k - 1);
      assert d * k == d * (k - 1) + d;
    }
  }

  /** The remainder modulo `2 * h` is rebuilt from the remainder of `v / 2` modulo `h` and the lowest bit. */
  lemma HalvedMod(v: nat, h: nat)
    requires h > 0
    ensures v % (2 * h) == 2 * ((v / 2) % h) + v % 2
  {
    var q, s := (v / 2) / h, (v / 2) % h;
    assert v / 2 == h * q + s;
    assert v == (2 * h) * q + (2 * s + v % 2);
    ModUnique(v, 2 * h, q, 2 * s + v % 2);
  }

  /** For a power of two `c`, masking with `c - 1` keeps the low bits, which is the remainder modulo `c`. */
  lemma {:induction false} LowMaskIsMod(v: nat, c: nat)
    requires IsPowerOfTwo(c)
    ensures BitAnd(v, c - 1) == v % c
    decreases c
  {
    if c != 1 && v != 0 {
      var h := c / 2;
      assert (c - 1) / 2 == h - 1 && (c - 1) % 2 == 1;
      LowMaskIsMod(v / 2, h);
      assert BitAnd(v, c - 1) == 2 * ((v / 2) % h) + v % 2;
      HalvedMod(v, h);
    }
  }

  /** `c & (c - 1) == 0` holds for a positive `c` exactly when `c` is a power of two. */
  lemma {:induction false} ClearLowestBit(c: nat)
    requires c > 0
    ensures BitAnd(c, c - 1) == 0 <==> IsPowerOfTwo(c)
    decreases c
  {
    if c > 1 {
      var m := c / 2;
      if c % 2 == 0 {
        assert (c - 1) / 2 == m - 1;
        assert BitAnd(c, c - 1) == 2 * BitAnd(m, m - 1);
        ClearLowestBit(m);
      } else {
        assert (c - 1) / 2 == m && (c - 1) % 2 == 0;
        BitAndSelf(m);
        assert BitAnd(c, c - 1) == 2 * m;
      }
    }
  }

  // ---------------------------------------------------------------------------
  // Powers of two and the 2^64 modulus
  // ---------------------------------------------------------------------------

  /** A smaller power of two divides a larger one. */
  lemma {:induction false} PowerOfTwoDivides(c: nat, d: nat)
    requires IsPowerOfTwo(c) && IsPowerOfTwo(d) && c <= d
    ensures d % c == 0
    decreases c
  {
    if c != 1 {
      PowerOfTwoDivides(c / 2, d / 2);
      var k := (d / 2) / (c / 2);
      ModUnique(d, c, k, 0);
    }
  }

  /** 2 to the power `k`. */
  function Pow2(k: nat): nat
  {
    if k == 0 then 1 else 2 * Pow2(k - 1)
  }

  /** 2^64 is itself a power of two. */
  lemma WordIsPowerOfTwo()
    ensures IsPowerOfTwo(WORD)
  {
    Pow2IsPowerOfTwo(64);
    Pow2Is32Bits();
    Pow2Add(32, 32);
  }

  /** 2^32, reached by squaring 2^16; the squaring steps are kept apart so each stays small. */
  lemma Pow2Is32Bits()
    ensures Pow2(32) == 0x1_0000_0000
  {
    Pow2Add(16, 16);
    Pow2Is16Bits();
  }

  /** 2^16, reached from 2^4 by squaring twice. */
  lemma Pow2Is16Bits()
    ensures Pow2(16) == 0x1_0000
  {
    Pow2Add(8, 8);
    Pow2Add(4, 4);
    assert Pow2(4) == 16;
  }

  /** Every `Pow2(k)` is a power of two. */
  lemma {:induction false} Pow2IsPowerOfTwo(k: nat)
    ensures IsPowerOfTwo(Pow2(k))
  {
    if k > 0 {
      Pow2IsPowerOfTwo(k - 1);
      assert Pow2(k) / 2 == Pow2(k - 1);
    }
  }

  /** Doubling one factor doubles the product. */
  lemma DoubleProduct(x: int, y: int)
    ensures (2 * x) * y == 2 * (x * y)
  {
  }

  /** Exponents add when powers of two multiply. */
  lemma {:induction false} Pow2Add(a: nat, b: nat)
    ensures Pow2(a + b) == Pow2(a) * Pow2(b)
    decreases a
  {
    if a > 0 {
      Pow2Add(a - 1, b);
      DoubleProduct(Pow2(a - 1), Pow2(b));
    }
  }

  /** A shift by a multiple of `c` does not move a value's remainder modulo `c`. */
  lemma ModShift(x: int, c: nat, m: int)
    requires c > 0
    ensures (x + c * m) % c == x % c
  {
    ModUnique(x + c * m, c, x / c + m, x % c);
  }

  /** Taking a value modulo a multiple `d` of `c` first does not change its remainder modulo `c`. */
  lemma ModOfMultiple(x: int, i: int, c: nat, d: nat)
    requires c > 0 && d > 0 && d % c == 0
    ensures (x % d + i) % c == (x + i) % c
  {
    var q, k := x / d, d / c;
    assert d == c * k;
    assert d * q == c * (k * q);
    assert x % d + i == (x + i) + c * -(k * q);
    ModShift(x + i, c, -(k * q));
  }

  /**
    Wrapping at 2^64 does not change a remainder modulo a power of two not above 2^64:
    a cursor taken modulo 2^64 and then masked lands in the same slot as the unbounded count.
   */
  lemma WrapKeepsSlot(x: int, i: int, c: nat)
    requires IsPowerOfTwo(c) && c <= WORD
    ensures (x % WORD + i) % c == (x + i) % c
  {
    WordIsPowerOfTwo();
    PowerOfTwoDivides(c, WORD);
    ModOfMultiple(x, i, c, WORD);
  }

  /** Values with the same remainder modulo `c` keep the same remainder after adding `i`. */
  lemma ModAddCongruent(a: int, b: int, i: int, c: nat)
    requires c > 0 && a % c == b % c
    ensures (a + i) % c == (b + i) % c
  {
    var m := a / c - b / c;
    assert a - b == c * m;
    ModShift(b + i, c, m);
  }

  /** Distinct offsets below `c` from the same start land in distinct slots modulo `c`. */
  lemma SlotsDistinct(start: int, i: int, j: int, c: nat)
    requires 0 <= i < c && 0 <= j < c && i != j
    ensures (start + i) % c != (start + j) % c
  {
    if i > j {
      SlotsDistinct(start, j, i, c);
    } else {
      var s := (start + i) % c;
      var q := (start + i) / c;
      assert start + j == c * q + (s + (j - i));
      if s + (j - i) < c {
        ModUnique(start + j, c, q, s + (j - i));
      } else {
        ModUnique(start + j, c, q + 1, s + (j - i) - c);
      }
    }
  }
}
