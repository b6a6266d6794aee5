/** Fast paths on tagged operands, after ny_small_int_range_ok,
    ny_emit_tagged_int_fast_no_slow and the guarded block of
    ny_try_emit_tagged_int_fast_binary in src/code/binary.c. */
module TaggedInt {
  import opened Instructions
  import opened Int64
  import opened IntRange
  import opened Common

  /** ny_tag_int of a raw word. */
  function TagWord(raw: Word): Word {
    (2 * raw + 1) % TWO64
  }

  function Tag(i: int): Word {
    TagWord(ToWord(i))
  }

  /** ny_untag_int. */
  function UntagWord(w: Word): Word {
    WAShr(w, 1)
  }

  lemma WordOf(i: int, t: int)
    requires (t == 0 || t == TWO64 || t == -TWO64) && 0 <= i + t < TWO64
    ensures i % TWO64 == i + t
  {
    ModOf(i, TWO64, if t == 0 then 0 else if t > 0 then -1 else 1, i + t);
  }

  lemma TagIs(i: I64)
    ensures Tag(i) == if i >= 0 then 2 * i + 1 else 2 * i + 1 + TWO64
  {
    assert Fits64(i);
    if i >= 0 {
      WordOf(i, 0);
      WordOf(2 * i + 1, 0);
    } else {
      WordOf(i, TWO64);
      WordOf(2 * (i + TWO64) + 1, -TWO64);
    }
  }

  lemma UntagIs(w: Word)
    ensures Signed(UntagWord(w)) == Signed(w) / 2
  {
    assert Pow2(1) == 2;
    SignedToWord(Signed(w) / 2);
  }

  /** Tagging keeps exactly the small integers. */
  lemma TagKeepsSmall(i: I64)
    ensures Signed(UntagWord(Tag(i))) == i <==> SmallInt(i)
  {
    TagIs(i);
    UntagIs(Tag(i));
  }

  /** The signed order of tagged words is the order of the integers. */
  lemma TagKeepsOrder(i: int, j: int)
    requires SmallInt(i) && SmallInt(j)
    ensures Signed(Tag(i)) < Signed(Tag(j)) <==> i < j
    ensures Tag(i) == Tag(j) <==> i == j
  {
    TagIs(i);
    TagIs(j);
  }

  /** The run-time range check is narrower than the range of tagged integers by one bit. */
  lemma SurvivesShiftIff(w: Word)
    ensures WAShr(WShl(w, 2), 2) == w <==> -TWO61 <= Signed(w) < TWO61
  {
    assert Pow2(2) == 4;
    var s := Signed(WShl(w, 2));
    SignedToWord(s / 4);
    assert WShl(w, 2) == (4 * Signed(w)) % TWO64 by {
      assert w == Signed(w) || w == Signed(w) + TWO64;
    }
    if -TWO61 <= Signed(w) < TWO61 {
      SignedToWord(4 * Signed(w));
    }
  }

  /** The guarded block for +, - and *: a result, or the branch to the slow call. */
  function GuardedFast(op: BinOp, l: Word, r: Word): Option<Word>
    requires IsArith(op)
  {
    var a, b := UntagWord(l), UntagWord(r);
    var raw := Apply(ArithOp(op), a, b);
    if !Overflows(ArithOp(op), a, b) && WAShr(WShl(raw, 2), 2) == raw then Some(TagWord(raw)) else None
  }

  /** The block returns the exact result whenever that fits 62 bits, and is left otherwise. */
  lemma GuardedFastExact(op: BinOp, i: int, j: int)
    requires IsArith(op) && SmallInt(i) && SmallInt(j)
    ensures ExactBinary(op, i, j).Int?
    ensures var v := ExactBinary(op, i, j).i;
            GuardedFast(op, Tag(i), Tag(j)) == if -TWO61 <= v < TWO61 then Some(Tag(v)) else None
  {
    TagKeepsSmall(i);
    TagKeepsSmall(j);
    var a, b := UntagWord(Tag(i)), UntagWord(Tag(j));
    ArithExact(op, a, b);
    SurvivesShiftIff(Apply(ArithOp(op), a, b));
  }

  /** The unguarded forms: + and - work on the tagged words, * on the untagged ones. */
  function UnguardedFast(op: BinOp, l: Word, r: Word): Word
    requires IsArith(op)
  {
    if op == Plus then WSub(WAdd(l, r), 1)
    else if op == Minus then WAdd(WSub(l, r), 1)
    else TagWord(WMul(UntagWord(l), UntagWord(r)))
  }

  /** Without the guard the block is right exactly when the result is a small integer. */
  lemma UnguardedFastExactlyWhen(op: BinOp, i: int, j: int)
    requires IsArith(op) && SmallInt(i) && SmallInt(j)
    ensures ExactBinary(op, i, j).Int?
    ensures var v := ExactBinary(op, i, j).i;
            Signed(UntagWord(UnguardedFast(op, Tag(i), Tag(j)))) == v <==> SmallInt(v)
  {
    if op == Star {
      UnguardedProduct(i, j);
    } else {
      UnguardedSum(op, i, j);
    }
    TagOfAny(ExactBinary(op, i, j).i, UnguardedFast(op, Tag(i), Tag(j)));
  }

  lemma UnguardedSum(op: BinOp, i: int, j: int)
    requires (op == Plus || op == Minus) && SmallInt(i) && SmallInt(j)
    ensures UnguardedFast(op, Tag(i), Tag(j)) == (2 * ExactBinary(op, i, j).i + 1) % TWO64
  {
    TagIs(i);
    TagIs(j);
    var v := ExactBinary(op, i, j).i;
    var c := if op == Plus then Tag(i) + Tag(j) else Tag(i) - Tag(j);
    var d := if op == Plus then -1 else 1;
    SumOfMods(c, d);
    SameMod(2 * v + 1, c + d);
  }

  lemma SumOfMods(c: int, d: int)
    ensures (c % TWO64 + d) % TWO64 == (c + d) % TWO64
  {
    var x := c % TWO64 + d;
    ModOf(c + d, TWO64, c / TWO64 + x / TWO64, x % TWO64);
  }

  lemma SameMod(x: int, y: int)
    requires y == x || y == x + TWO64 || y == x - TWO64 || y == x + TWO64 + TWO64
    ensures x % TWO64 == y % TWO64
  {
    var k := if y == x then 0 else if y == x + TWO64 then 1 else if y == x - TWO64 then -1 else 2;
    ModOf(y, TWO64, x / TWO64 + k, x % TWO64);
  }

  lemma UnguardedProduct(i: int, j: int)
    requires SmallInt(i) && SmallInt(j)
    ensures UnguardedFast(Star, Tag(i), Tag(j)) == (2 * (i * j) + 1) % TWO64
  {
    TagKeepsSmall(i);
    TagKeepsSmall(j);
    WMulExact(UntagWord(Tag(i)), UntagWord(Tag(j)));
    DoubleWord(i * j);
  }

  lemma DoubleWord(p: int)
    ensures (2 * (p % TWO64) + 1) % TWO64 == (2 * p + 1) % TWO64
  {
    var r := 2 * (p % TWO64) + 1;
    ModOf(2 * p + 1, TWO64, 2 * (p / TWO64) + r / TWO64, r % TWO64);
  }


  lemma TagOfAny(v: int, w: Word)
    requires w == (2 * v + 1) % TWO64
    ensures Signed(UntagWord(w)) == v <==> SmallInt(v)
  {
    UntagIs(w);
    if SmallInt(v) {
      WordOf(2 * v + 1, if v >= 0 then 0 else TWO64);
    }
  }

  // -------------------------------------------------- division by a power of two

  lemma {:induction false} LowBitsAreRemainder(x: int, k: nat)
    ensures BitAnd(x, Pow2(k) - 1) == x % Pow2(k)
    decreases k
  {
    if k == 0 {
      assert x % 1 == 0;
    } else {
      LowBitsAreRemainder(x / 2, k - 1);
      BitAndStep(x, Pow2(k) - 1);
      HalfMod(x, k);
    }
  }

  lemma ShiftPart(x: I64, k: nat)
    requires k < 63
    ensures Signed(WAShr(ToWord(x), k)) == x / Pow2(k)
  {
    SignedToWord(x);
    QuotientFits(x, Pow2(k));
    SignedToWord(x / Pow2(k));
  }

  lemma MaskPart(x: I64, k: nat)
    requires k < 63
    ensures Fits64(Pow2(k) - 1) && Signed(WAnd(ToWord(x), ToWord(Pow2(k) - 1))) == x % Pow2(k)
  {
    Pow2Below63(k);
    var mask := Pow2(k) - 1;
    SignedToWord(x);
    SignedToWord(mask);
    WAndExact(ToWord(x), ToWord(mask));
    LowBitsAreRemainder(x, k);
  }

  lemma Pow2Below63(k: nat)
    requires k < 63
    ensures Pow2(k) < TWO63
  {
    Pow2Of64();
    Pow2Grows(k, 63);
  }

  /** ashr and the mask of 2^k split x into quotient and remainder. */
  lemma ShiftAndMask(x: I64, k: nat)
    requires k < 63
    ensures var q := Signed(WAShr(ToWord(x), k));
            var r := Signed(WAnd(ToWord(x), ToWord(Pow2(k) - 1)));
            x == Pow2(k) * q + r && 0 <= r < Pow2(k)
  {
    ShiftPart(x, k);
    MaskPart(x, k);
    DivMod(x, Pow2(k));
  }

  lemma DivMod(x: int, p: int)
    requires p > 0
    ensures x == p * (x / p) + x % p && 0 <= x % p < p
  {
  }

  lemma QuotientFits(x: I64, p: int)
    requires p > 0
    ensures Fits64(x / p)
  {
    assert Fits64(x);
    if x >= 0 {
      DivShrinks(x, p);
    } else {
      NegativeQuotient(x, p, x / p, x % p);
    }
  }

  lemma NegativeQuotient(x: int, p: int, q: int, r: int)
    requires x < 0 && p > 0 && x == p * q + r && 0 <= r < p
    ensures x <= q < 0
  {
    if q >= 0 {
      MulLe(p, 0, q);
      assert false;
    }
    MulLe(-(q + 1), 1, p);
    assert -(q + 1) * p == -(p * q) - p;
  }

  /** Floor and truncation agree exactly on operands that are not negative or are multiples. */
  lemma FloorIsTruncationExactlyWhen(x: int, p: int)
    requires p > 0
    ensures x / p == TruncDiv(x, p) <==> x >= 0 || x % p == 0
    ensures x % p == TruncRem(x, p) <==> x >= 0 || x % p == 0
  {
    TruncRemBounds(x, p);
    DivMod(x, p);
    if x < 0 && x % p == 0 {
      assert p * -(x / p) == -(p * (x / p));
      ModOf(-x, p, -(x / p), 0);
    }
  }

  /** Shift and mask agree with division towards zero exactly for operands that are
      not negative or are multiples of the divisor. */
  lemma ShiftIsTruncationExactlyWhen(x: I64, k: nat)
    requires k < 63
    ensures Signed(WAShr(ToWord(x), k)) == TruncDiv(x, Pow2(k)) <==> x >= 0 || x % Pow2(k) == 0
    ensures Signed(WAnd(ToWord(x), ToWord(Pow2(k) - 1))) == TruncRem(x, Pow2(k)) <==> x >= 0 || x % Pow2(k) == 0
  {
    ShiftPart(x, k);
    MaskPart(x, k);
    FloorIsTruncationExactlyWhen(x, Pow2(k));
  }
}
