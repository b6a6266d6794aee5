/** The 64-bit instructions that integer lowering emits, each against the exact operator
    it stands for. */
module Instructions {
  import opened Int64
  import opened IntRange

  datatype Op = Add | Sub | Mul | UDiv | URem | SDiv | SRem | And | LShr

  function Apply(op: Op, a: Word, b: Word): Word {
    match op
    case Add => WAdd(a, b)
    case Sub => WSub(a, b)
    case Mul => WMul(a, b)
    case UDiv => if b == 0 then 0 else WUDiv(a, b)
    case URem => if b == 0 then 0 else WURem(a, b)
    case SDiv => if b == 0 then 0 else WSDiv(a, b)
    case SRem => if b == 0 then 0 else WSRem(a, b)
    case And => WAnd(a, b)
    case LShr => WLShr(a, b)
  }

  /** Whether the signed operation leaves the 64-bit range. */
  predicate Overflows(op: Op, a: Word, b: Word) {
    match op
    case Add => !Fits64(Signed(a) + Signed(b))
    case Sub => !Fits64(Signed(a) - Signed(b))
    case Mul => !Fits64(Signed(a) * Signed(b))
    case _ => false
  }

  predicate IsArith(op: BinOp) {
    op == Plus || op == Minus || op == Star
  }

  function ArithOp(op: BinOp): Op {
    if op == Plus then Add else if op == Minus then Sub else Mul
  }

  // -------------------------------------------- each instruction against the operator

  lemma MaskExact(a: Word, mask: I64)
    requires mask >= 0
    ensures Int(Signed(Apply(And, a, ToWord(mask)))) == ExactBinary(Amp, Signed(a), mask)
  {
    WAndExact(a, ToWord(mask));
    SignedToWord(mask);
  }

  /** Unsigned division is right for operands known not to be negative. */
  lemma DivExact(a: Word, d: I64, nonNegative: bool)
    requires d > 0 && (nonNegative ==> Signed(a) >= 0)
    ensures Int(Signed(Apply(if nonNegative then UDiv else SDiv, a, ToWord(d)))) == ExactBinary(Slash, Signed(a), d)
  {
    SignedToWord(d);
    TruncDivBounds(Signed(a), d);
    SignedToWord(TruncDiv(Signed(a), d));
  }

  lemma RemExact(a: Word, d: I64, nonNegative: bool)
    requires d > 0 && (nonNegative ==> Signed(a) >= 0)
    ensures Int(Signed(Apply(if nonNegative then URem else SRem, a, ToWord(d)))) == ExactBinary(Percent, Signed(a), d)
  {
    SignedToWord(d);
    TruncRemBounds(Signed(a), d);
    SignedToWord(TruncRem(Signed(a), d));
  }

  lemma ShrExact(a: Word, k: I64)
    requires 0 <= k < 64 && Signed(a) >= 0
    ensures Int(Signed(Apply(LShr, a, ToWord(k)))) == ExactBinary(Shr, Signed(a), k)
  {
    DivShrinks(a, Pow2(k));
  }

  /** Sums, differences and products are exact when they stay within 64 bits. */
  lemma ArithExact(op: BinOp, a: Word, b: Word)
    requires IsArith(op)
    ensures ExactBinary(op, Signed(a), Signed(b)).Int?
    ensures var v := ExactBinary(op, Signed(a), Signed(b)).i;
            (!Overflows(ArithOp(op), a, b) <==> Fits64(v))
            && (Fits64(v) ==> Signed(Apply(ArithOp(op), a, b)) == v)
  {
    var v := ExactBinary(op, Signed(a), Signed(b)).i;
    WAddExact(a, b);
    WSubExact(a, b);
    WMulExact(a, b);
    if Fits64(v) {
      SignedToWord(v);
    }
  }

  lemma AndExact(a: Word, b: Word)
    ensures ExactBinary(Amp, Signed(a), Signed(b)) == Int(Signed(Apply(And, a, b)))
  {
    WAndExact(a, b);
  }
}
