/** 64-bit machine words, the integers they stand for, and exact integer operators.
    A word is the unsigned pattern; Signed reads it in two's complement. */
module Int64 {
  const TWO32: int := 0x1_0000_0000
  const TWO61: int := 0x2000_0000_0000_0000
  const TWO62: int := 0x4000_0000_0000_0000
  const TWO63: int := 0x8000_0000_0000_0000
  const TWO64: int := 0x1_0000_0000_0000_0000

  type Word = x: int | 0 <= x < 0x1_0000_0000_0000_0000

  predicate Fits64(i: int) {
    -TWO63 <= i < TWO63
  }

  type I64 = i: int | Fits64(i)

  /** ny_small_int_fits_i64: what a tagged word can carry. */
  predicate SmallInt(i: int) {
    -TWO62 <= i < TWO62
  }

  function ToWord(i: int): (w: Word) {
    i % TWO64
  }

  function Signed(w: Word): (i: int)
    ensures Fits64(i) && ToWord(i) == w
  {
    if w < TWO63 then w else w - TWO64
  }

  lemma SignedToWord(i: int)
    requires Fits64(i)
    ensures Signed(ToWord(i)) == i
  {
  }

  function Pow2(k: nat): (p: int)
    ensures p > 0
  {
    if k == 0 then 1 else 2 * Pow2(k - 1)
  }

  lemma {:induction false} Pow2Grows(j: nat, k: nat)
    requires j < k
    ensures Pow2(j) < Pow2(k)
    decreases k
  {
    if j < k - 1 {
      Pow2Grows(j, k - 1);
    }
  }

  // -------------------------------------------------------- division towards zero

  function TruncDiv(a: int, b: int): int
    requires b != 0
  {
    if a >= 0 && b > 0 then a / b
    else if a < 0 && b > 0 then -((-a) / b)
    else if a >= 0 then -(a / (-b))
    else (-a) / (-b)
  }

  function TruncRem(a: int, b: int): int
    requires b != 0
  {
    a - b * TruncDiv(a, b)
  }

  lemma TruncRemBounds(a: int, b: int)
    requires b > 0
    ensures a >= 0 ==> TruncRem(a, b) == a % b && 0 <= TruncRem(a, b) < b
    ensures a < 0 ==> TruncRem(a, b) == -((-a) % b) && -b < TruncRem(a, b) <= 0
  {
    if a >= 0 {
      assert a == b * (a / b) + a % b;
    } else {
      assert -a == b * ((-a) / b) + (-a) % b;
      assert b * -((-a) / b) == -(b * ((-a) / b));
    }
  }

  /** Quotients shrink: the operand's bounds are bounds of the quotient. */
  lemma TruncDivBounds(a: int, b: int)
    requires b > 0
    ensures a >= 0 ==> 0 <= TruncDiv(a, b) <= a
    ensures a < 0 ==> a <= TruncDiv(a, b) <= 0
  {
    DivShrinks(if a >= 0 then a else -a, b);
  }

  lemma MulLe(m: int, x: int, y: int)
    requires m >= 0 && x <= y
    ensures m * x <= m * y
  {
  }

  lemma DivShrinks(a: int, b: int)
    requires a >= 0 && b > 0
    ensures 0 <= a / b <= a
  {
    assert a == b * (a / b) + a % b;
    if a / b < 0 {
      MulLe(b, a / b, -1);
      assert false;
    }
    MulLe(a / b, 1, b);
  }

  lemma DivMono(a: int, c: int, b: int)
    requires 0 <= a <= c && b > 0
    ensures a / b <= c / b
  {
    assert a == b * (a / b) + a % b && c == b * (c / b) + c % b;
    if a / b > c / b {
      MulLe(b, c / b + 1, a / b);
      assert false;
    }
  }

  lemma TruncDivMono(a: int, c: int, b: int)
    requires a <= c && b > 0
    ensures TruncDiv(a, b) <= TruncDiv(c, b)
  {
    TruncDivBounds(a, b);
    TruncDivBounds(c, b);
    if a >= 0 {
      DivMono(a, c, b);
    } else if c < 0 {
      DivMono(-c, -a, b);
    }
  }

  // ---------------------------------------------------------------------- bitwise

  /** The lowest bit of both. */
  function LowBit(a: int, b: int): int {
    if a % 2 == 1 && b % 2 == 1 then 1 else 0
  }

  /** Bitwise and of integers in unbounded two's complement. */
  function BitAnd(a: int, b: int): int
    decreases if a < 0 then -a else a
  {
    if a == 0 || b == 0 then 0
    else if a == -1 then b
    else if b == -1 then a
    else 2 * BitAnd(a / 2, b / 2) + LowBit(a, b)
  }

  /** One step of BitAnd holds at every pair of integers. */
  lemma BitAndStep(a: int, b: int)
    ensures BitAnd(a, b) == 2 * BitAnd(a / 2, b / 2) + LowBit(a, b)
  {
    if a == -1 {
      assert a / 2 == -1 && a % 2 == 1;
    } else if b == -1 {
      assert b / 2 == -1 && b % 2 == 1;
      assert BitAnd(a / 2, -1) == a / 2;
    }
  }

  lemma {:induction false} BitAndNat(a: int, b: int)
    requires b >= 0
    ensures 0 <= BitAnd(a, b) <= b
    decreases if a < 0 then -a else a
  {
    if a != 0 && a != -1 && b != 0 {
      BitAndNat(a / 2, b / 2);
    }
  }

  /** The machine instruction: the low `n` bits, one by one. */
  function AndBits(a: int, b: int, n: nat): int
    decreases n, a
  {
    if n == 0 then 0 else 2 * AndBits(a / 2, b / 2, n - 1) + LowBit(a, b)
  }

  lemma HalfMod(a: int, n: nat)
    requires n > 0
    ensures (a % Pow2(n)) / 2 == (a / 2) % Pow2(n - 1)
    ensures (a % Pow2(n)) % 2 == a % 2
  {
    var q := Pow2(n - 1);
    var k, r := a / Pow2(n), a % Pow2(n);
    assert a == q * (2 * k) + r;
    assert a == 2 * (q * k) + r by {
      assert q * (2 * k) == 2 * (q * k);
    }
    assert a / 2 == q * k + r / 2;
    assert 0 <= r / 2 < q;
    ModOf(a / 2, q, k, r / 2);
  }

  lemma ModOf(x: int, m: int, k: int, r: int)
    requires m > 0 && x == m * k + r && 0 <= r < m
    ensures x % m == r && x / m == k
  {
    var d := x / m - k;
    assert x == m * (x / m) + x % m;
    assert m * d == r - x % m by {
      assert m * d == m * (x / m) - m * k;
    }
    if d >= 1 {
      MulLe(m, 1, d);
      assert false;
    } else if d <= -1 {
      MulLe(m, d, -1);
      assert false;
    }
  }

  lemma {:induction false} AndBitsMod(a: int, b: int, n: nat)
    ensures AndBits(a % Pow2(n), b % Pow2(n), n) == BitAnd(a, b) % Pow2(n)
    decreases n
  {
    if n == 0 {
      assert BitAnd(a, b) % 1 == 0;
    } else {
      HalfMod(a, n);
      HalfMod(b, n);
      AndBitsMod(a / 2, b / 2, n - 1);
      BitAndStep(a, b);
      DoubleMod(BitAnd(a / 2, b / 2), LowBit(a, b), Pow2(n - 1));
    }
  }

  lemma DoubleMod(h: int, bit: int, q: int)
    requires q > 0 && 0 <= bit < 2
    ensures (2 * h + bit) % (2 * q) == 2 * (h % q) + bit
  {
    assert h == q * (h / q) + h % q;
    assert 2 * q * (h / q) == 2 * (q * (h / q));
    ModOf(2 * h + bit, 2 * q, h / q, 2 * (h % q) + bit);
  }

  lemma {:induction false} BitAndFits(a: int, b: int, n: nat)
    requires -Pow2(n) <= a < Pow2(n) && -Pow2(n) <= b < Pow2(n)
    ensures -Pow2(n) <= BitAnd(a, b) < Pow2(n)
    decreases n
  {
    if n > 0 {
      BitAndFits(a / 2, b / 2, n - 1);
      BitAndStep(a, b);
      LowBits(a, b);
      var q, h, bit := Pow2(n - 1), BitAnd(a / 2, b / 2), LowBit(a, b);
      assert -q <= h < q && BitAnd(a, b) == 2 * h + bit;
    }
  }

  lemma LowBits(a: int, b: int)
    ensures 0 <= LowBit(a, b) <= 1
  {
    assert a % 2 == 0 || a % 2 == 1;
    assert b % 2 == 0 || b % 2 == 1;
  }

  lemma Pow2Of64()
    ensures Pow2(63) == TWO63 && Pow2(64) == TWO64
  {
    assert Pow2(8) == 0x100;
    assert Pow2(16) == 0x1_0000;
    assert Pow2(24) == 0x100_0000;
    assert Pow2(32) == 0x1_0000_0000;
    assert Pow2(40) == 0x100_0000_0000;
    assert Pow2(48) == 0x1_0000_0000_0000;
    assert Pow2(56) == 0x100_0000_0000_0000;
  }

  // ---------------------------------------------------------------- instructions

  function WAdd(a: Word, b: Word): Word { (a + b) % TWO64 }

  function WSub(a: Word, b: Word): Word { (a - b) % TWO64 }

  function WMul(a: Word, b: Word): Word { (a * b) % TWO64 }

  function WAnd(a: Word, b: Word): Word { AndBits(a, b, 64) % TWO64 }

  function WShl(a: Word, k: nat): Word { (a * Pow2(k)) % TWO64 }

  function WLShr(a: Word, k: nat): (w: Word) {
    DivShrinks(a, Pow2(k));
    a / Pow2(k)
  }

  function WAShr(a: Word, k: nat): (w: Word) {
    ToWord(Signed(a) / Pow2(k))
  }

  function WUDiv(a: Word, b: Word): (w: Word)
    requires b != 0
  {
    DivShrinks(a, b);
    a / b
  }

  function WURem(a: Word, b: Word): (w: Word)
    requires b != 0
  {
    a % b
  }

  function WSDiv(a: Word, b: Word): Word
    requires b != 0
  {
    ToWord(TruncDiv(Signed(a), Signed(b)))
  }

  function WSRem(a: Word, b: Word): Word
    requires b != 0
  {
    ToWord(TruncRem(Signed(a), Signed(b)))
  }

  lemma WAddExact(a: Word, b: Word)
    ensures WAdd(a, b) == ToWord(Signed(a) + Signed(b))
  {
  }

  lemma WSubExact(a: Word, b: Word)
    ensures WSub(a, b) == ToWord(Signed(a) - Signed(b))
  {
  }

  lemma WMulExact(a: Word, b: Word)
    ensures WMul(a, b) == ToWord(Signed(a) * Signed(b))
  {
    var x, y := Signed(a), Signed(b);
    var i, j := if a < TWO63 then 0 else 1, if b < TWO63 then 0 else 1;
    var k := x * j + y * i + i * j * TWO64;
    assert a * b == x * y + TWO64 * k by {
      assert a == x + i * TWO64 && b == y + j * TWO64;
      assert i == 0 || i == 1;
      assert j == 0 || j == 1;
    }
    var r := (x * y) % TWO64;
    assert x * y == TWO64 * ((x * y) / TWO64) + r;
    ModOf(a * b, TWO64, (x * y) / TWO64 + k, r);
  }

  lemma AndBitsExact(a: Word, b: Word, n: nat)
    requires n > 0 && Pow2(n) == TWO64 && Pow2(n - 1) == TWO63
    ensures Signed(AndBits(a, b, n) % TWO64) == BitAnd(Signed(a), Signed(b))
  {
    AndBitsMod(Signed(a), Signed(b), n);
    BitAndFits(Signed(a), Signed(b), n - 1);
    SignedToWord(BitAnd(Signed(a), Signed(b)));
  }

  lemma WAndExact(a: Word, b: Word)
    ensures Signed(WAnd(a, b)) == BitAnd(Signed(a), Signed(b))
  {
    Pow2Of64();
    AndBitsExact(a, b, 64);
  }
}
