/** Lowering of integer expressions to 64-bit instructions, after
    ny_lower_raw_int_expr_with_params of src/code/binary.c.  The result is a pair:
    a word to compute and a condition telling whether the word may be used. */
module RawInt {
  import opened Instructions
  import opened Int64
  import opened IntRange
  import opened Common

  datatype Code =
    | Const(w: Word)
    | Tagged(name: string)                       // the tagged value of a variable
    | Raw(name: string)                          // its untagged value, where one is kept
    | Untag(code: Code)
    | Instr(op: Op, left: Code, right: Code)

  datatype Cond =
    | Always
    | IsTagged(code: Code)                       // lowest bit set
    | Both(first: Cond, second: Cond)
    | NoOverflow(op: Op, left: Code, right: Code)
    | SurvivesShift(code: Code)                  // unchanged by shl 2; ashr 2

  datatype Lowered = Lowered(raw: Code, ok: Cond)

  /** The words found in the variables. */
  datatype Machine = Machine(tagged: string -> Word, raw: string -> Word)

  // ------------------------------------------------------------- what code computes

  function Run(m: Machine, c: Code): Word {
    match c
    case Const(w) => w
    case Tagged(name) => m.tagged(name)
    case Raw(name) => m.raw(name)
    case Untag(code) => WAShr(Run(m, code), 1)
    case Instr(op, left, right) => Apply(op, Run(m, left), Run(m, right))
  }

  predicate Holds(m: Machine, c: Cond) {
    match c
    case Always => true
    case IsTagged(code) => Run(m, code) % 2 == 1
    case Both(first, second) => Holds(m, first) && Holds(m, second)
    case NoOverflow(op, left, right) => !Overflows(op, Run(m, left), Run(m, right))
    case SurvivesShift(code) => WAShr(WShl(Run(m, code), 2), 2) == Run(m, code)
  }

  // ----------------------------------------------------------------------- lowering

  const MAX_ACTIVE: nat := 64

  datatype RawParam = RawParam(name: string, code: Lowered, range: Range)

  function Names(params: seq<RawParam>): (r: seq<string>)
    ensures |r| == |params|
  {
    seq(|params|, i requires 0 <= i < |params| => params[i].name)
  }

  function Ranges(params: seq<RawParam>): (r: seq<Range>)
    ensures |r| == |params|
  {
    seq(|params|, i requires 0 <= i < |params| => params[i].range)
  }

  /** ny_raw_int_expr_range_with_params. */
  function RawRange(ctx: Context, e: Expr, params: seq<RawParam>): Range
    requires WellScoped(ctx)
  {
    if params == [] then ProvenRange(ctx, e)
    else if |params| > 16 then Unknown
    else ParamsRange(ctx, e, Names(params), Ranges(params), 0)
  }

  predicate NeedsLiteral(op: BinOp) {
    op == Slash || op == Percent || op == Shr
  }

  /** The instruction alone: usable when both operands are. */
  function Combine(op: Op, lhs: Lowered, rhs: Lowered): (r: Lowered)
    ensures r.raw.Instr?
  {
    Lowered(Instr(op, lhs.raw, rhs.raw), Both(lhs.ok, rhs.ok))
  }

  /** The instruction with its overflow and range checks. */
  function Guarded(op: Op, code: Lowered): Lowered
    requires code.raw.Instr?
  {
    Lowered(code.raw, Both(Both(code.ok, NoOverflow(op, code.raw.left, code.raw.right)), SurvivesShift(code.raw)))
  }

  /** ny_lower_raw_int_expr_with_params; `active` is the stack of calls being inlined. */
  function Lower(ctx: Context, e: Expr, params: seq<RawParam>, recursion: nat, active: seq<nat>): Option<Lowered>
    requires WellScoped(ctx)
    decreases 25 - recursion, 0, e
  {
    if recursion > 24 then None else
    match e
    case Lit(i) => Some(Lowered(Const(ToWord(i)), Always))
    case Nil => Some(Lowered(Const(0), Always))
    case Ident(name) =>
      var i := ParamIndex(Names(params), name);
      if i < |params| then Some(params[i].code)
      else if name in ctx.scope && ctx.scope[name].rawDirect then Some(Lowered(Raw(name), Always))
      else
        var replay := if name in ctx.scope && !ctx.scope[name].isMut && ctx.scope[name].init.Some?
                      then Lower(ctx, ctx.scope[name].init.value, params, recursion + 1, active) else None;
        if replay.Some? then replay
        else Some(Lowered(Untag(Tagged(name)),
                          if name in ctx.scope && ctx.scope[name].intSlot then Always else IsTagged(Tagged(name))))
    case Binary(op, left, right) =>
      if op == Amp && MaskLiteral(right).Some? then
        if RawRange(ctx, left, params).Unknown? then None else
        var lhs := Lower(ctx, left, params, recursion + 1, active);
        if lhs.None? then None
        else Some(Lowered(Instr(And, lhs.value.raw, Const(ToWord(MaskLiteral(right).value))), lhs.value.ok))
      else if op == OtherBin then None
      else if op == Percent || op == Slash then
        if !right.Lit? || right.i <= 0 then None else
        var range := RawRange(ctx, left, params);
        var lhs := Lower(ctx, left, params, recursion + 1, active);
        if lhs.None? then None else
        var nonNegative := range.Known? && range.lo >= 0;
        var instr := if op == Percent then (if nonNegative then URem else SRem)
                     else (if nonNegative then UDiv else SDiv);
        Some(Lowered(Instr(instr, lhs.value.raw, Const(ToWord(right.i))), lhs.value.ok))
      else if op == Shr then
        if !right.Lit? || right.i < 0 || right.i >= 64 then None else
        var range := RawRange(ctx, left, params);
        if range.Unknown? || range.lo < 0 then None else
        var lhs := Lower(ctx, left, params, recursion + 1, active);
        if lhs.None? then None
        else Some(Lowered(Instr(LShr, lhs.value.raw, Const(ToWord(right.i))), lhs.value.ok))
      else
        var lhs := Lower(ctx, left, params, recursion + 1, active);
        var rhs := Lower(ctx, right, params, recursion + 1, active);
        if lhs.None? || rhs.None? then None else
        if op == Amp then Some(Combine(And, lhs.value, rhs.value))
        else if RawRange(ctx, e, params).Known? then Some(Combine(ArithOp(op), lhs.value, rhs.value))
        else Some(Guarded(ArithOp(op), Combine(ArithOp(op), lhs.value, rhs.value)))
    case Call(callee, args) =>
      var sig := ctx.resolve(callee, |args|);
      if |args| > 16 || sig.None? || !sig.value.eligible || |sig.value.params| < |args| || sig.value.ret.None? then None
      else
        var inner := LowerArgs(ctx, args, sig.value.params[..|args|], params, recursion + 1, active);
        if inner.None? || sig.value.id in active || |active| >= MAX_ACTIVE then None
        else Lower(ctx, sig.value.ret.value, inner.value, recursion + 1, active + [sig.value.id])
    case _ => None
  }

  /** The inlined call's parameters: each argument lowered, its range known. */
  function LowerArgs(ctx: Context, args: seq<Expr>, names: seq<string>, params: seq<RawParam>, recursion: nat,
                     active: seq<nat>): (r: Option<seq<RawParam>>)
    requires WellScoped(ctx) && |names| == |args|
    ensures r.Some? ==> Names(r.value) == names
    ensures r.Some? ==> forall i :: 0 <= i < |args| ==>
              Lower(ctx, args[i], params, recursion, active) == Some(r.value[i].code)
              && r.value[i].range == RawRange(ctx, args[i], params) && r.value[i].range.Known?
    decreases 25 - recursion, 1 + |args|
  {
    if args == [] then Some([]) else
    var first := Lower(ctx, args[0], params, recursion, active);
    var range := RawRange(ctx, args[0], params);
    if first.None? || range.Unknown? then None else
    var rest := LowerArgs(ctx, args[1..], names[1..], params, recursion, active);
    if rest.None? then None else Some([RawParam(names[0], first.value, range)] + rest.value)
  }

  // ------------------------------------------------------------------- correctness

  /** The words of `x` stand for its value, as the binding's flags say. */
  ghost predicate Stored(ctx: Context, m: Machine, env: map<string, Value>, x: string) {
    && (m.tagged(x) % 2 == 1 ==> Lookup(env, x) == Int(Signed(WAShr(m.tagged(x), 1))))
    && (x in ctx.scope ==>
          && (ctx.scope[x].intSlot ==> m.tagged(x) % 2 == 1)
          && (ctx.scope[x].rawDirect ==> Lookup(env, x) == Int(Signed(m.raw(x)))))
  }

  /** The usable word is the exact value. */
  ghost predicate Means(m: Machine, code: Lowered, v: Value) {
    Holds(m, code.ok) ==> v == Int(Signed(Run(m, code.raw)))
  }

  // ---- where a nil is used

  predicate NilFree(e: Expr)
    decreases e, 1
  {
    match e
    case Nil => false
    case Unary(_, right) => NilFree(right)
    case Binary(_, left, right) => NilFree(left) && NilFree(right)
    case Call(_, args) => AllNilFree(args)
    case _ => true
  }

  predicate AllNilFree(es: seq<Expr>)
    decreases es, 0
  {
    es == [] || (NilFree(es[0]) && AllNilFree(es[1..]))
  }

  lemma {:induction false} NilFreeAt(es: seq<Expr>, i: nat)
    requires AllNilFree(es) && i < |es|
    ensures NilFree(es[i])
    decreases i
  {
    if i > 0 {
      NilFreeAt(es[1..], i - 1);
    }
  }

  /** `x` is a constant whose initialiser contains a nil. */
  predicate NilInit(ctx: Context, x: string) {
    && !ctx.nilIsZero && x in ctx.scope && !ctx.scope[x].isMut && ctx.scope[x].init.Some?
    && !NilFree(ctx.scope[x].init.value)
  }

  /** Evaluation comes upon a nil, written in the expression, in the initialiser of a
      constant or in the body of a call.  `nils` tells it of the arguments of the body's
      parameters; the argument of a parameter that the body does not mention is not used. */
  predicate NilUsed(ctx: Context, e: Expr, nils: map<string, bool>, fuel: nat)
    decreases fuel, e, 1
  {
    match e
    case Nil => !ctx.nilIsZero
    case Ident(name) => if name in nils then nils[name] else NilInit(ctx, name)
    case Unary(_, right) => NilUsed(ctx, right, nils, fuel)
    case Binary(_, left, right) => NilUsed(ctx, left, nils, fuel) || NilUsed(ctx, right, nils, fuel)
    case Call(callee, args) =>
      var sig := ctx.resolve(callee, |args|);
      && fuel > 0 && sig.Some? && sig.value.ret.Some?
      && NilUsed(ctx, sig.value.ret.value, Bind(map[], sig.value.params, NilArgs(ctx, args, nils, fuel)), fuel - 1)
    case _ => false
  }

  function NilArgs(ctx: Context, args: seq<Expr>, nils: map<string, bool>, fuel: nat): (r: seq<bool>)
    ensures |r| == |args|
    ensures forall i :: 0 <= i < |args| ==> r[i] == NilUsed(ctx, args[i], nils, fuel)
    decreases fuel, args, 0
  {
    if args == [] then [] else [NilUsed(ctx, args[0], nils, fuel)] + NilArgs(ctx, args[1..], nils, fuel)
  }

  /** The usable word is the exact value, unless a nil is used; then there is no integer. */
  ghost predicate MeansBut(m: Machine, code: Lowered, nil: bool, v: Value) {
    Holds(m, code.ok) ==> v == if nil then NotInt else Int(Signed(Run(m, code.raw)))
  }

  // ---- what is asked of names and of calls

  /** A parameter has its lowered argument, any other name its binding and its words. */
  ghost predicate SeesName(ctx: Context, m: Machine, env: map<string, Value>, params: seq<RawParam>,
                           nils: map<string, bool>, x: string) {
    var i := ParamIndex(Names(params), x);
    if i < |params| then
      x in nils && MeansBut(m, params[i].code, nils[x], Lookup(env, x)) && InRange(params[i].range, Lookup(env, x))
    else
      x !in nils && Respects(ctx, env, x) && Stored(ctx, m, env, x)
  }

  ghost predicate Sees(ctx: Context, m: Machine, env: map<string, Value>, params: seq<RawParam>,
                       nils: map<string, bool>, e: Expr) {
    forall x :: x in Idents(e) ==> SeesName(ctx, m, env, params, nils, x)
  }

  /** The words that a name of the body has at the call stand for its value in the body. */
  ghost predicate BodyStored(ctx: Context, m: Machine, f: string, n: nat) {
    var sig := ctx.resolve(f, n);
    Inlinable(sig, n) ==>
      forall x :: x in Idents(sig.value.ret.value) && x !in sig.value.params[..n] ==>
        Stored(ctx, m, Home(ctx, sig.value, n), x)
  }

  ghost predicate BodyMeans(ctx: Context, m: Machine, f: string, n: nat) {
    BodyRespected(ctx, f, n) && BodyStored(ctx, m, f, n)
  }

  ghost predicate BodyInside(ctx: Context, calls: set<(string, nat)>, f: string, n: nat) {
    Inlinable(ctx.resolve(f, n), n) ==> Sites(ctx.resolve(f, n).value.ret.value) <= calls
  }

  /** `calls` holds the calls in `e` and in the bodies inlined for them, and the other names
      of those bodies mean the same where they are called. */
  ghost predicate CallsMean(ctx: Context, m: Machine, calls: set<(string, nat)>, e: Expr) {
    && Sites(e) <= calls
    && forall f, n :: (f, n) in calls ==> BodyMeans(ctx, m, f, n) && BodyInside(ctx, calls, f, n)
  }

  lemma RawRangeSound(ctx: Context, e: Expr, params: seq<RawParam>, nils: map<string, bool>, m: Machine,
                      env: map<string, Value>, fuel: nat)
    requires WellScoped(ctx) && CallsFit(ctx, e) && Sees(ctx, m, env, params, nils, e)
    ensures InRange(RawRange(ctx, e, params), Eval(ctx, e, env, fuel))
  {
    var names, ranges := Names(params), Ranges(params);
    forall x | x in Idents(e)
      ensures if x in names then InRange(ranges[ParamIndex(names, x)], Lookup(env, x)) else Respects(ctx, env, x)
    {
      assert SeesName(ctx, m, env, params, nils, x);
    }
    if params == [] {
      ProvenRangeSound(ctx, e, env, fuel);
    } else if |params| <= 16 {
      ParamsRangeSound(ctx, e, names, ranges, 0, env, fuel);
    }
  }

  lemma BinaryRangeFits(ctx: Context, op: BinOp, left: Expr, right: Expr, params: seq<RawParam>)
    requires WellScoped(ctx) && IsArith(op)
    ensures var r := RawRange(ctx, Binary(op, left, right), params);
            r.Known? ==> SmallInt(r.lo) && SmallInt(r.hi)
  {
  }

  // ------------------------------------------------------------------- main theorem

  ghost predicate LowerPre(ctx: Context, e: Expr, params: seq<RawParam>, nils: map<string, bool>,
                           calls: set<(string, nat)>, recursion: nat, m: Machine, env: map<string, Value>, fuel: nat) {
    && WellScoped(ctx) && CallsMean(ctx, m, calls, e) && Sees(ctx, m, env, params, nils, e)
    && fuel + recursion >= 25
  }

  /** Whenever lowering succeeds and its condition holds, the word read as a signed integer
      is the exact value of the expression, unless that uses a nil and is no integer. */
  lemma {:induction false} LowerCorrect(ctx: Context, e: Expr, params: seq<RawParam>, nils: map<string, bool>,
                                        calls: set<(string, nat)>, recursion: nat, active: seq<nat>,
                                        m: Machine, env: map<string, Value>, fuel: nat)
    requires LowerPre(ctx, e, params, nils, calls, recursion, m, env, fuel)
    requires Lower(ctx, e, params, recursion, active).Some?
    ensures MeansBut(m, Lower(ctx, e, params, recursion, active).value, NilUsed(ctx, e, nils, fuel),
                     Eval(ctx, e, env, fuel))
    decreases 25 - recursion, 0, 2
  {
    match e
    case Lit(i) => SignedToWord(i);
    case Nil => SignedToWord(0);
    case Ident(name) => LowerIdent(ctx, name, params, nils, calls, recursion, active, m, env, fuel);
    case Binary(op, left, right) =>
      if NeedsLiteral(op) || (op == Amp && MaskLiteral(right).Some?) {
        LowerByLiteral(ctx, op, left, right, params, nils, calls, recursion, active, m, env, fuel);
      } else {
        LowerBinary(ctx, op, left, right, params, nils, calls, recursion, active, m, env, fuel);
      }
    case Call(callee, args) => LowerCallExpr(ctx, callee, args, params, nils, calls, recursion, active, m, env, fuel);
    case _ =>
  }

  /** What lowering a call comes down to. */
  lemma CallParts(ctx: Context, callee: string, args: seq<Expr>, params: seq<RawParam>, recursion: nat,
                  active: seq<nat>)
    returns (sig: Sig, inner: seq<RawParam>)
    requires WellScoped(ctx) && Lower(ctx, Call(callee, args), params, recursion, active).Some?
    ensures recursion <= 24 && ctx.resolve(callee, |args|) == Some(sig) && |args| <= |sig.params|
    ensures sig.eligible && sig.ret.Some?
    ensures LowerArgs(ctx, args, sig.params[..|args|], params, recursion + 1, active) == Some(inner)
    ensures Lower(ctx, Call(callee, args), params, recursion, active)
         == Lower(ctx, sig.ret.value, inner, recursion + 1, active + [sig.id])
  {
    sig := ctx.resolve(callee, |args|).value;
    inner := LowerArgs(ctx, args, sig.params[..|args|], params, recursion + 1, active).value;
  }

  lemma EvalCall(ctx: Context, callee: string, args: seq<Expr>, env: map<string, Value>, nils: map<string, bool>,
                 fuel: nat, sig: Sig)
    requires fuel > 0 && ctx.resolve(callee, |args|) == Some(sig) && sig.ret.Some?
    ensures Eval(ctx, Call(callee, args), env, fuel)
         == Eval(ctx, sig.ret.value, CalleeEnv(ctx, sig, EvalArgs(ctx, args, env, fuel)), fuel - 1)
    ensures NilUsed(ctx, Call(callee, args), nils, fuel)
         == NilUsed(ctx, sig.ret.value, Bind(map[], sig.params, NilArgs(ctx, args, nils, fuel)), fuel - 1)
  {
  }

  lemma {:induction false} LowerCallExpr(ctx: Context, callee: string, args: seq<Expr>, params: seq<RawParam>,
                                         nils: map<string, bool>, calls: set<(string, nat)>, recursion: nat,
                                         active: seq<nat>, m: Machine, env: map<string, Value>, fuel: nat)
    requires LowerPre(ctx, Call(callee, args), params, nils, calls, recursion, m, env, fuel)
    requires Lower(ctx, Call(callee, args), params, recursion, active).Some?
    ensures MeansBut(m, Lower(ctx, Call(callee, args), params, recursion, active).value,
                     NilUsed(ctx, Call(callee, args), nils, fuel), Eval(ctx, Call(callee, args), env, fuel))
    decreases 25 - recursion, 0, 1
  {
    var sig, inner := CallParts(ctx, callee, args, params, recursion, active);
    EvalCall(ctx, callee, args, env, nils, fuel, sig);
    LowerArgsMean(ctx, callee, args, sig.params[..|args|], params, nils, calls, recursion, active, m, env, fuel);
    assert (callee, |args|) in Sites(Call(callee, args));
    LowerCall(ctx, callee, calls, recursion, m, fuel, sig, inner, NilArgs(ctx, args, nils, fuel),
              EvalArgs(ctx, args, env, fuel), active + [sig.id]);
  }

  lemma {:induction false} NilIsNoInteger(ctx: Context, e: Expr, env: map<string, Value>, fuel: nat)
    requires CallFree(e)
    ensures !ctx.nilIsZero && !NilFree(e) ==> Eval(ctx, e, env, fuel) == NotInt
    decreases e
  {
    match e
    case Unary(_, right) => NilIsNoInteger(ctx, right, env, fuel);
    case Binary(_, left, right) =>
      NilIsNoInteger(ctx, left, env, fuel);
      NilIsNoInteger(ctx, right, env, fuel);
    case _ =>
  }

  lemma ReplaySafeNil(ctx: Context, e: Expr, nils: map<string, bool>, fuel: nat)
    requires ReplaySafe(e)
    ensures NilUsed(ctx, e, nils, fuel) <==> !ctx.nilIsZero && !NilFree(e)
  {
  }

  lemma {:induction false} LowerIdent(ctx: Context, name: string, params: seq<RawParam>, nils: map<string, bool>,
                                      calls: set<(string, nat)>, recursion: nat, active: seq<nat>,
                                      m: Machine, env: map<string, Value>, fuel: nat)
    requires LowerPre(ctx, Ident(name), params, nils, calls, recursion, m, env, fuel)
    requires Lower(ctx, Ident(name), params, recursion, active).Some?
    ensures MeansBut(m, Lower(ctx, Ident(name), params, recursion, active).value,
                     NilUsed(ctx, Ident(name), nils, fuel), Lookup(env, name))
    decreases 25 - recursion, 0, 0
  {
    assert name in Idents(Ident(name));
    assert SeesName(ctx, m, env, params, nils, name);
    if name !in Names(params) {
      if name in ctx.scope && !ctx.scope[name].isMut && ctx.scope[name].init.Some? {
        var init := ctx.scope[name].init.value;
        ReplaySafeIdents(init);
        ReplaySafeNil(ctx, init, nils, fuel);
        ReplaySafeEval(ctx, init, env, fuel);
        NilIsNoInteger(ctx, init, env, fuel);
        if !ctx.scope[name].rawDirect && Lower(ctx, init, params, recursion + 1, active).Some? {
          LowerCorrect(ctx, init, params, nils, calls, recursion + 1, active, m, env, fuel);
        }
      }
    }
  }

  /** The operand of a division, remainder, shift or mask by a literal, given its meaning. */
  lemma ByLiteralStep(ctx: Context, op: BinOp, left: Expr, d: I64, params: seq<RawParam>, recursion: nat,
                      active: seq<nat>, m: Machine, l: Value)
    requires WellScoped(ctx) && (NeedsLiteral(op) || (op == Amp && MaskLiteral(Lit(d)).Some?))
    requires Lower(ctx, Binary(op, left, Lit(d)), params, recursion, active).Some?
    requires InRange(RawRange(ctx, left, params), l)
    ensures Lower(ctx, left, params, recursion + 1, active).Some?
    ensures Means(m, Lower(ctx, left, params, recursion + 1, active).value, l) ==>
              Means(m, Lower(ctx, Binary(op, left, Lit(d)), params, recursion, active).value,
                    if l.Int? then ExactBinary(op, l.i, d) else NotInt)
  {
    var lhs := Lower(ctx, left, params, recursion + 1, active).value;
    var a := Run(m, lhs.raw);
    var range := RawRange(ctx, left, params);
    if Means(m, lhs, l) && Holds(m, lhs.ok) {
      match op
      case Amp => MaskExact(a, d);
      case Slash => DivExact(a, d, range.Known? && range.lo >= 0);
      case Percent => RemExact(a, d, range.Known? && range.lo >= 0);
      case _ => ShrExact(a, d);
    }
  }

  lemma AndMeans(m: Machine, lhs: Lowered, rhs: Lowered, l: Value, r: Value)
    requires Means(m, lhs, l) && Means(m, rhs, r)
    ensures Means(m, Combine(And, lhs, rhs), if l.Int? && r.Int? then ExactBinary(Amp, l.i, r.i) else NotInt)
  {
    AndExact(Run(m, lhs.raw), Run(m, rhs.raw));
  }

  /** A known small range makes the overflow check of an exact result redundant. */
  lemma ArithMeans(m: Machine, op: BinOp, lhs: Lowered, rhs: Lowered, range: Range, l: Value, r: Value)
    requires IsArith(op) && Means(m, lhs, l) && Means(m, rhs, r)
    requires InRange(range, if l.Int? && r.Int? then ExactBinary(op, l.i, r.i) else NotInt)
    requires range.Known? ==> SmallInt(range.lo) && SmallInt(range.hi)
    ensures var code := Combine(ArithOp(op), lhs, rhs);
            Means(m, if range.Known? then code else Guarded(ArithOp(op), code),
                  if l.Int? && r.Int? then ExactBinary(op, l.i, r.i) else NotInt)
  {
    var o, code := ArithOp(op), Combine(ArithOp(op), lhs, rhs);
    ArithExact(op, Run(m, lhs.raw), Run(m, rhs.raw));
    assert Holds(m, Guarded(o, code).ok) ==> Holds(m, Both(code.ok, NoOverflow(o, lhs.raw, rhs.raw)));
    assert Holds(m, Both(code.ok, NoOverflow(o, lhs.raw, rhs.raw))) ==> Holds(m, NoOverflow(o, lhs.raw, rhs.raw));
    assert Holds(m, code.ok) ==> Holds(m, lhs.ok) && Holds(m, rhs.ok);
    assert Run(m, code.raw) == Apply(o, Run(m, lhs.raw), Run(m, rhs.raw));
    if Holds(m, lhs.ok) && Holds(m, rhs.ok) {
      assert l == Int(Signed(Run(m, lhs.raw))) && r == Int(Signed(Run(m, rhs.raw)));
      var v := ExactBinary(op, l.i, r.i);
      if range.Known? {
        assert Fits64(v.i);
      } else {
        assert Holds(m, NoOverflow(o, lhs.raw, rhs.raw)) <==> Fits64(v.i);
      }
      assert Fits64(v.i) ==> v == Int(Signed(Run(m, code.raw)));
    }
  }

  /** The other binary operators, given the meaning of both operands. */
  lemma ArithStep(ctx: Context, op: BinOp, left: Expr, right: Expr, params: seq<RawParam>, recursion: nat,
                  active: seq<nat>, m: Machine, l: Value, r: Value)
    requires WellScoped(ctx) && !NeedsLiteral(op) && !(op == Amp && MaskLiteral(right).Some?)
    requires Lower(ctx, Binary(op, left, right), params, recursion, active).Some?
    requires InRange(RawRange(ctx, Binary(op, left, right), params),
                     if l.Int? && r.Int? then ExactBinary(op, l.i, r.i) else NotInt)
    ensures Lower(ctx, left, params, recursion + 1, active).Some?
            && Lower(ctx, right, params, recursion + 1, active).Some?
    ensures Means(m, Lower(ctx, left, params, recursion + 1, active).value, l)
            && Means(m, Lower(ctx, right, params, recursion + 1, active).value, r) ==>
              Means(m, Lower(ctx, Binary(op, left, right), params, recursion, active).value,
                    if l.Int? && r.Int? then ExactBinary(op, l.i, r.i) else NotInt)
  {
    var lhs := Lower(ctx, left, params, recursion + 1, active).value;
    var rhs := Lower(ctx, right, params, recursion + 1, active).value;
    if Means(m, lhs, l) && Means(m, rhs, r) {
      if op == Amp {
        AndMeans(m, lhs, rhs, l, r);
      } else {
        BinaryRangeFits(ctx, op, left, right, params);
        ArithMeans(m, op, lhs, rhs, RawRange(ctx, Binary(op, left, right), params), l, r);
      }
    }
  }

  /** A mask by nil is lowered as the mask by 0; elsewhere the literal is a number. */
  lemma LiteralOperand(ctx: Context, op: BinOp, left: Expr, right: Expr, params: seq<RawParam>, recursion: nat,
                       active: seq<nat>)
    returns (d: I64)
    requires WellScoped(ctx) && (NeedsLiteral(op) || (op == Amp && MaskLiteral(right).Some?))
    requires Lower(ctx, Binary(op, left, right), params, recursion, active).Some?
    ensures right == Lit(d) || (right.Nil? && d == 0 && op == Amp)
    ensures NeedsLiteral(op) || (op == Amp && MaskLiteral(Lit(d)).Some?)
    ensures Lower(ctx, Binary(op, left, Lit(d)), params, recursion, active)
         == Lower(ctx, Binary(op, left, right), params, recursion, active)
  {
    d := if right.Nil? then 0 else right.i;
  }

  lemma GuardedUsable(m: Machine, op: Op, code: Lowered)
    requires code.raw.Instr? && Holds(m, Guarded(op, code).ok)
    ensures Holds(m, code.ok)
  {
    assert Holds(m, Both(code.ok, NoOverflow(op, code.raw.left, code.raw.right)));
  }

  /** A usable result has usable operands. */
  lemma OperandsUsable(ctx: Context, op: BinOp, left: Expr, right: Expr, params: seq<RawParam>, recursion: nat,
                       active: seq<nat>, m: Machine)
    requires WellScoped(ctx) && !NeedsLiteral(op) && !(op == Amp && MaskLiteral(right).Some?)
    requires Lower(ctx, Binary(op, left, right), params, recursion, active).Some?
    requires Holds(m, Lower(ctx, Binary(op, left, right), params, recursion, active).value.ok)
    ensures Lower(ctx, left, params, recursion + 1, active).Some?
    ensures Lower(ctx, right, params, recursion + 1, active).Some?
    ensures Holds(m, Lower(ctx, left, params, recursion + 1, active).value.ok)
    ensures Holds(m, Lower(ctx, right, params, recursion + 1, active).value.ok)
  {
    var code := Lower(ctx, Binary(op, left, right), params, recursion, active).value;
    var lhs, rhs := Lower(ctx, left, params, recursion + 1, active), Lower(ctx, right, params, recursion + 1, active);
    var both := Combine(if op == Amp then And else ArithOp(op), lhs.value, rhs.value);
    if code != both {
      assert code == Guarded(ArithOp(op), both);
      GuardedUsable(m, ArithOp(op), both);
    }
  }

  /** With a literal the operand alone decides. */
  lemma OperandUsable(ctx: Context, op: BinOp, left: Expr, right: Expr, params: seq<RawParam>, recursion: nat,
                      active: seq<nat>)
    requires WellScoped(ctx) && (NeedsLiteral(op) || (op == Amp && MaskLiteral(right).Some?))
    requires Lower(ctx, Binary(op, left, right), params, recursion, active).Some?
    ensures Lower(ctx, left, params, recursion + 1, active).Some?
    ensures Lower(ctx, left, params, recursion + 1, active).value.ok
         == Lower(ctx, Binary(op, left, right), params, recursion, active).value.ok
  {
  }

  lemma OperandsPre(ctx: Context, op: BinOp, left: Expr, right: Expr, params: seq<RawParam>, nils: map<string, bool>,
                    calls: set<(string, nat)>, recursion: nat, m: Machine, env: map<string, Value>, fuel: nat)
    requires LowerPre(ctx, Binary(op, left, right), params, nils, calls, recursion, m, env, fuel)
    ensures LowerPre(ctx, left, params, nils, calls, recursion + 1, m, env, fuel)
    ensures LowerPre(ctx, right, params, nils, calls, recursion + 1, m, env, fuel)
    ensures CallsFit(ctx, left) && CallsFit(ctx, Binary(op, left, right))
  {
    assert Idents(Binary(op, left, right)) == Idents(left) + Idents(right);
    assert forall f, n :: (f, n) in calls ==> BodyMeans(ctx, m, f, n);
  }

  lemma {:induction false} LowerByLiteral(ctx: Context, op: BinOp, left: Expr, right: Expr, params: seq<RawParam>,
                                          nils: map<string, bool>, calls: set<(string, nat)>, recursion: nat,
                                          active: seq<nat>, m: Machine, env: map<string, Value>, fuel: nat)
    requires LowerPre(ctx, Binary(op, left, right), params, nils, calls, recursion, m, env, fuel)
    requires Lower(ctx, Binary(op, left, right), params, recursion, active).Some?
    requires NeedsLiteral(op) || (op == Amp && MaskLiteral(right).Some?)
    ensures MeansBut(m, Lower(ctx, Binary(op, left, right), params, recursion, active).value,
                     NilUsed(ctx, Binary(op, left, right), nils, fuel), Eval(ctx, Binary(op, left, right), env, fuel))
    decreases 25 - recursion, 0, 0
  {
    OperandUsable(ctx, op, left, right, params, recursion, active);
    OperandsPre(ctx, op, left, right, params, nils, calls, recursion, m, env, fuel);
    LowerCorrect(ctx, left, params, nils, calls, recursion + 1, active, m, env, fuel);
    var d := LiteralOperand(ctx, op, left, right, params, recursion, active);
    RawRangeSound(ctx, left, params, nils, m, env, fuel);
    ByLiteralStep(ctx, op, left, d, params, recursion, active, m, Eval(ctx, left, env, fuel));
  }

  lemma {:induction false} LowerBinary(ctx: Context, op: BinOp, left: Expr, right: Expr, params: seq<RawParam>,
                                       nils: map<string, bool>, calls: set<(string, nat)>, recursion: nat,
                                       active: seq<nat>, m: Machine, env: map<string, Value>, fuel: nat)
    requires LowerPre(ctx, Binary(op, left, right), params, nils, calls, recursion, m, env, fuel)
    requires Lower(ctx, Binary(op, left, right), params, recursion, active).Some?
    requires !NeedsLiteral(op) && !(op == Amp && MaskLiteral(right).Some?)
    ensures MeansBut(m, Lower(ctx, Binary(op, left, right), params, recursion, active).value,
                     NilUsed(ctx, Binary(op, left, right), nils, fuel), Eval(ctx, Binary(op, left, right), env, fuel))
    decreases 25 - recursion, 0, 0
  {
    if Holds(m, Lower(ctx, Binary(op, left, right), params, recursion, active).value.ok) {
      OperandsUsable(ctx, op, left, right, params, recursion, active, m);
      OperandsPre(ctx, op, left, right, params, nils, calls, recursion, m, env, fuel);
      LowerCorrect(ctx, left, params, nils, calls, recursion + 1, active, m, env, fuel);
      LowerCorrect(ctx, right, params, nils, calls, recursion + 1, active, m, env, fuel);
      RawRangeSound(ctx, Binary(op, left, right), params, nils, m, env, fuel);
      ArithStep(ctx, op, left, right, params, recursion, active, m,
                Eval(ctx, left, env, fuel), Eval(ctx, right, env, fuel));
    }
  }

  /** The arguments of a call as the body finds them. */
  ghost predicate ArgsMean(m: Machine, inner: seq<RawParam>, flags: seq<bool>, vals: seq<Value>) {
    && |inner| == |flags| == |vals|
    && forall i :: 0 <= i < |vals| ==> MeansBut(m, inner[i].code, flags[i], vals[i]) && InRange(inner[i].range, vals[i])
  }

  /** A call means what its body means with the lowered arguments for parameters. */
  lemma {:induction false} LowerCall(ctx: Context, callee: string, calls: set<(string, nat)>, recursion: nat,
                                     m: Machine, fuel: nat, sig: Sig, inner: seq<RawParam>, flags: seq<bool>,
                                     vals: seq<Value>, inlining: seq<nat>)
    requires WellScoped(ctx) && CallsMean(ctx, m, calls, Nil) && (callee, |vals|) in calls
    requires fuel + recursion >= 25 && recursion <= 24 && ArgsMean(m, inner, flags, vals)
    requires ctx.resolve(callee, |vals|) == Some(sig) && Inlinable(Some(sig), |vals|)
    requires Names(inner) == sig.params[..|vals|]
    requires Lower(ctx, sig.ret.value, inner, recursion + 1, inlining).Some?
    ensures MeansBut(m, Lower(ctx, sig.ret.value, inner, recursion + 1, inlining).value,
                     NilUsed(ctx, sig.ret.value, Bind(map[], sig.params, flags), fuel - 1),
                     Eval(ctx, sig.ret.value, CalleeEnv(ctx, sig, vals), fuel - 1))
    decreases 25 - recursion, 0, 0
  {
    CalleePre(ctx, callee, calls, recursion, m, fuel, sig, inner, flags, vals);
    LowerCorrect(ctx, sig.ret.value, inner, Bind(map[], sig.params, flags), calls, recursion + 1, inlining, m,
                 CalleeEnv(ctx, sig, vals), fuel - 1);
  }

  lemma CalleePre(ctx: Context, callee: string, calls: set<(string, nat)>, recursion: nat, m: Machine, fuel: nat,
                  sig: Sig, inner: seq<RawParam>, flags: seq<bool>, vals: seq<Value>)
    requires WellScoped(ctx) && CallsMean(ctx, m, calls, Nil) && (callee, |vals|) in calls
    requires fuel + recursion >= 25 && fuel > 0 && ArgsMean(m, inner, flags, vals)
    requires ctx.resolve(callee, |vals|) == Some(sig) && Inlinable(Some(sig), |vals|)
    requires Names(inner) == sig.params[..|vals|]
    ensures LowerPre(ctx, sig.ret.value, inner, Bind(map[], sig.params, flags), calls, recursion + 1, m,
                     CalleeEnv(ctx, sig, vals), fuel - 1)
  {
    assert BodyMeans(ctx, m, callee, |vals|) && BodyInside(ctx, calls, callee, |vals|);
    CalleeSees(ctx, callee, m, sig, inner, flags, vals);
  }

  lemma CalleeSees(ctx: Context, callee: string, m: Machine, sig: Sig, inner: seq<RawParam>, flags: seq<bool>,
                   vals: seq<Value>)
    requires BodyMeans(ctx, m, callee, |vals|) && ArgsMean(m, inner, flags, vals)
    requires ctx.resolve(callee, |vals|) == Some(sig) && Inlinable(Some(sig), |vals|)
    requires Names(inner) == sig.params[..|vals|]
    ensures Sees(ctx, m, CalleeEnv(ctx, sig, vals), inner, Bind(map[], sig.params, flags), sig.ret.value)
  {
    forall x | x in Idents(sig.ret.value)
      ensures SeesName(ctx, m, CalleeEnv(ctx, sig, vals), inner, Bind(map[], sig.params, flags), x)
    {
      if x in Names(inner) {
        BindLookup(Home(ctx, sig, |vals|), sig.params, vals, x);
        BindLookup(map[], sig.params, flags, x);
      } else {
        BindOther(Home(ctx, sig, |vals|), sig.params, vals, x);
        BindOther(map[], sig.params, flags, x);
      }
    }
  }

  lemma {:induction false} LowerArgsMean(ctx: Context, callee: string, args: seq<Expr>, names: seq<string>,
                                         params: seq<RawParam>, nils: map<string, bool>, calls: set<(string, nat)>,
                                         recursion: nat, active: seq<nat>, m: Machine, env: map<string, Value>,
                                         fuel: nat)
    requires LowerPre(ctx, Call(callee, args), params, nils, calls, recursion, m, env, fuel)
    requires |names| == |args| && LowerArgs(ctx, args, names, params, recursion + 1, active).Some?
    ensures ArgsMean(m, LowerArgs(ctx, args, names, params, recursion + 1, active).value,
                     NilArgs(ctx, args, nils, fuel), EvalArgs(ctx, args, env, fuel))
    decreases 25 - recursion, 0, 0
  {
    var inner := LowerArgs(ctx, args, names, params, recursion + 1, active).value;
    var flags, vals := NilArgs(ctx, args, nils, fuel), EvalArgs(ctx, args, env, fuel);
    assert |Names(inner)| == |vals|;
    forall i | 0 <= i < |args|
      ensures MeansBut(m, inner[i].code, flags[i], vals[i]) && InRange(inner[i].range, vals[i])
    {
      assert Idents(args[i]) <= Idents(Call(callee, args)) && Sites(args[i]) <= Sites(Call(callee, args));
      LowerCorrect(ctx, args[i], params, nils, calls, recursion + 1, active, m, env, fuel);
      RawRangeSound(ctx, args[i], params, nils, m, env, fuel);
    }
  }

  /** The names of the whole expression have their bindings and their words. */
  ghost predicate NamesMean(ctx: Context, m: Machine, env: map<string, Value>, e: Expr) {
    forall x :: x in Idents(e) ==> Respects(ctx, env, x) && Stored(ctx, m, env, x)
  }

  /** The whole expression, as ny_build_mono_raw_int_expr hands it out: a usable word is its
      value, if and only if no nil is used. */
  lemma RawIntExact(ctx: Context, e: Expr, calls: set<(string, nat)>, m: Machine, env: map<string, Value>, fuel: nat)
    requires WellScoped(ctx) && CallsMean(ctx, m, calls, e) && NamesMean(ctx, m, env, e) && fuel >= 25
    requires Lower(ctx, e, [], 0, []).Some? && Holds(m, Lower(ctx, e, [], 0, []).value.ok)
    ensures Eval(ctx, e, env, fuel)
         == if NilUsed(ctx, e, map[], fuel) then NotInt else Int(Signed(Run(m, Lower(ctx, e, [], 0, []).value.raw)))
  {
    LowerCorrect(ctx, e, [], map[], calls, 0, [], m, env, fuel);
  }

  // ------------------------------------------------------------------ nil as a number

  /** The reading in which `nil` is the number 0. */
  function Zero(ctx: Context): Context {
    ctx.(nilIsZero := true)
  }

  lemma {:induction false} ProvenRangeZero(ctx: Context, e: Expr)
    requires WellScoped(ctx)
    ensures ProvenRange(Zero(ctx), e) == ProvenRange(ctx, e)
    decreases if ReplaySafe(e) then 0 else 3, e, 1
  {
    match e
    case Ident(name) => IdentRangeZero(ctx, name);
    case Unary(_, right) => ProvenRangeZero(ctx, right);
    case Binary(_, left, right) =>
      ProvenRangeZero(ctx, left);
      ProvenRangeZero(ctx, right);
    case Call(callee, args) =>
      forall i | 0 <= i < |args|
        ensures ArgRanges(Zero(ctx), args)[i] == ArgRanges(ctx, args)[i]
      {
        ProvenRangeZero(ctx, args[i]);
      }
      assert ArgRanges(Zero(ctx), args) == ArgRanges(ctx, args);
      var sig := ctx.resolve(callee, |args|);
      if |args| <= 16 && sig.Some? && sig.value.ret.Some? && |args| <= |sig.value.params| {
        ParamsRangeZero(ctx, sig.value.ret.value, sig.value.params[..|args|], ArgRanges(ctx, args), 0);
      }
    case _ =>
  }

  lemma {:induction false} IdentRangeZero(ctx: Context, name: string)
    requires WellScoped(ctx)
    ensures IdentRange(Zero(ctx), name) == IdentRange(ctx, name)
    decreases 1, Nil, 0
  {
    if name in ctx.scope && ctx.scope[name].init.Some? {
      ProvenRangeZero(ctx, ctx.scope[name].init.value);
    }
  }

  lemma {:induction false} ParamsRangeZero(ctx: Context, e: Expr, names: seq<string>, ranges: seq<Range>,
                                           recursion: nat)
    requires WellScoped(ctx) && |names| == |ranges|
    ensures ParamsRange(Zero(ctx), e, names, ranges, recursion) == ParamsRange(ctx, e, names, ranges, recursion)
    decreases 2, e, 0
  {
    match e
    case Ident(name) => IdentRangeZero(ctx, name);
    case Unary(_, right) => ParamsRangeZero(ctx, right, names, ranges, recursion + 1);
    case Binary(_, left, right) =>
      ParamsRangeZero(ctx, left, names, ranges, recursion + 1);
      ParamsRangeZero(ctx, right, names, ranges, recursion + 1);
    case _ =>
  }

  lemma RawRangeZero(ctx: Context, e: Expr, params: seq<RawParam>)
    requires WellScoped(ctx)
    ensures RawRange(Zero(ctx), e, params) == RawRange(ctx, e, params)
  {
    ProvenRangeZero(ctx, e);
    ParamsRangeZero(ctx, e, Names(params), Ranges(params), 0);
  }

  /** The lowering does not tell the two readings apart. */
  lemma {:induction false} LowerZero(ctx: Context, e: Expr, params: seq<RawParam>, recursion: nat, active: seq<nat>)
    requires WellScoped(ctx)
    ensures Lower(Zero(ctx), e, params, recursion, active) == Lower(ctx, e, params, recursion, active)
    decreases 25 - recursion, 0, e
  {
    if recursion <= 24 {
      match e
      case Ident(name) =>
        if name in ctx.scope && ctx.scope[name].init.Some? {
          LowerZero(ctx, ctx.scope[name].init.value, params, recursion + 1, active);
        }
      case Binary(_, left, right) =>
        RawRangeZero(ctx, e, params);
        RawRangeZero(ctx, left, params);
        LowerZero(ctx, left, params, recursion + 1, active);
        LowerZero(ctx, right, params, recursion + 1, active);
      case Call(callee, args) =>
        var sig := ctx.resolve(callee, |args|);
        if sig.Some? && |args| <= |sig.value.params| && sig.value.ret.Some? {
          LowerArgsZero(ctx, args, sig.value.params[..|args|], params, recursion + 1, active);
          var inner := LowerArgs(ctx, args, sig.value.params[..|args|], params, recursion + 1, active);
          if inner.Some? {
            LowerZero(ctx, sig.value.ret.value, inner.value, recursion + 1, active + [sig.value.id]);
          }
        }
      case _ =>
    }
  }

  lemma {:induction false} LowerArgsZero(ctx: Context, args: seq<Expr>, names: seq<string>, params: seq<RawParam>,
                                         recursion: nat, active: seq<nat>)
    requires WellScoped(ctx) && |names| == |args|
    ensures LowerArgs(Zero(ctx), args, names, params, recursion, active)
         == LowerArgs(ctx, args, names, params, recursion, active)
    decreases 25 - recursion, 1 + |args|
  {
    if args != [] {
      LowerZero(ctx, args[0], params, recursion, active);
      RawRangeZero(ctx, args[0], params);
      LowerArgsZero(ctx, args[1..], names[1..], params, recursion, active);
    }
  }

  lemma {:induction false} ZeroUsesNone(ctx: Context, e: Expr, nils: map<string, bool>, fuel: nat)
    requires ctx.nilIsZero && forall x :: x in nils ==> !nils[x]
    ensures !NilUsed(ctx, e, nils, fuel)
    decreases fuel, e
  {
    match e
    case Unary(_, right) => ZeroUsesNone(ctx, right, nils, fuel);
    case Binary(_, left, right) =>
      ZeroUsesNone(ctx, left, nils, fuel);
      ZeroUsesNone(ctx, right, nils, fuel);
    case Call(callee, args) =>
      var sig := ctx.resolve(callee, |args|);
      if fuel > 0 && sig.Some? && sig.value.ret.Some? {
        forall i | 0 <= i < |args|
          ensures !NilArgs(ctx, args, nils, fuel)[i]
        {
          ZeroUsesNone(ctx, args[i], nils, fuel);
        }
        BindAll(sig.value.params, NilArgs(ctx, args, nils, fuel));
        ZeroUsesNone(ctx, sig.value.ret.value, Bind(map[], sig.value.params, NilArgs(ctx, args, nils, fuel)), fuel - 1);
      }
    case _ =>
  }

  lemma {:induction false} BindAll(params: seq<string>, flags: seq<bool>)
    requires forall i :: 0 <= i < |flags| ==> !flags[i]
    ensures forall x :: x in Bind(map[], params, flags) ==> !Bind(map[], params, flags)[x]
    decreases |flags|
  {
    if flags != [] && params != [] {
      BindAll(params[1..], flags[1..]);
    }
  }

  /** The lowering implements the language in which `nil` is 0: read so, a usable word is the
      value of every expression. */
  lemma NilReadAsZero(ctx: Context, e: Expr, calls: set<(string, nat)>, m: Machine, env: map<string, Value>, fuel: nat)
    requires WellScoped(ctx) && CallsMean(Zero(ctx), m, calls, e) && NamesMean(Zero(ctx), m, env, e) && fuel >= 25
    requires Lower(ctx, e, [], 0, []).Some? && Holds(m, Lower(ctx, e, [], 0, []).value.ok)
    ensures Eval(Zero(ctx), e, env, fuel) == Int(Signed(Run(m, Lower(ctx, e, [], 0, []).value.raw)))
  {
    LowerZero(ctx, e, [], 0, []);
    ZeroUsesNone(Zero(ctx), e, map[], fuel);
    RawIntExact(Zero(ctx), e, calls, m, env, fuel);
  }

  /** Without calls a nil is used wherever it occurs. */
  lemma {:induction false} CallFreeNilUsed(ctx: Context, e: Expr, fuel: nat)
    requires CallFree(e) && !ctx.nilIsZero
    ensures NilUsed(ctx, e, map[], fuel) <==> !NilFree(e) || exists x :: x in Idents(e) && NilInit(ctx, x)
    ensures Sites(e) == {}
    decreases e
  {
    match e
    case Ident(name) => assert Idents(e) == {name};
    case Unary(_, right) => CallFreeNilUsed(ctx, right, fuel);
    case Binary(_, left, right) =>
      CallFreeNilUsed(ctx, left, fuel);
      CallFreeNilUsed(ctx, right, fuel);
    case _ =>
  }

  /** Without calls, a usable word is the value of the expression exactly when no nil is
      written in it or in the initialiser of a constant it mentions. */
  lemma ExactExactlyWhenNilFree(ctx: Context, e: Expr, m: Machine, env: map<string, Value>, fuel: nat)
    requires WellScoped(ctx) && !ctx.nilIsZero && CallFree(e) && NamesMean(ctx, m, env, e) && fuel >= 25
    requires Lower(ctx, e, [], 0, []).Some? && Holds(m, Lower(ctx, e, [], 0, []).value.ok)
    ensures Eval(ctx, e, env, fuel) == Int(Signed(Run(m, Lower(ctx, e, [], 0, []).value.raw)))
            <==> NilFree(e) && forall x :: x in Idents(e) ==> !NilInit(ctx, x)
  {
    CallFreeNilUsed(ctx, e, fuel);
    RawIntExact(ctx, e, {}, m, env, fuel);
  }

  /** `nil + 1` lowers to the usable word 1. */
  lemma NilPlusOne(ctx: Context, m: Machine)
    requires WellScoped(ctx)
    ensures var code := Lower(ctx, Binary(Plus, Nil, Lit(1)), [], 0, []);
            code.Some? && Holds(m, code.value.ok) && Run(m, code.value.raw) == 1
  {
    var e := Binary(Plus, Nil, Lit(1));
    assert Lower(ctx, Nil, [], 1, []) == Some(Lowered(Const(0), Always));
    assert Lower(ctx, Lit(1), [], 1, []) == Some(Lowered(Const(1), Always));
    assert ProvenRange(ctx, e) == Known(1, 1);
  }

  /** So does `x + 1` for a constant `x` bound to nil, although no nil is written in it. */
  lemma NilConstantPlusOne(ctx: Context, m: Machine, env: map<string, Value>, fuel: nat)
    requires WellScoped(ctx) && !ctx.nilIsZero && "x" in ctx.scope
    requires ctx.scope["x"] == Binding(false, Unknown, Some(Nil), false, false)
    requires Lookup(env, "x") == NotInt && m.tagged("x") % 2 == 0
    ensures var e := Binary(Plus, Ident("x"), Lit(1));
            && NilFree(e) && NamesMean(ctx, m, env, e) && Eval(ctx, e, env, fuel) == NotInt
            && Lower(ctx, e, [], 0, []).Some? && Holds(m, Lower(ctx, e, [], 0, []).value.ok)
            && Run(m, Lower(ctx, e, [], 0, []).value.raw) == 1
  {
    var e := Binary(Plus, Ident("x"), Lit(1));
    assert Lower(ctx, Nil, [], 2, []) == Some(Lowered(Const(0), Always));
    assert Lower(ctx, Ident("x"), [], 1, []) == Some(Lowered(Const(0), Always));
    assert Lower(ctx, Lit(1), [], 1, []) == Some(Lowered(Const(1), Always));
    assert ProvenRange(ctx, Ident("x")) == Known(0, 0);
    assert ProvenRange(ctx, e) == Known(1, 1);
  }

  // ------------------------------------------------------------------- inlined calls

  /** inc(a) { return a + 1 } */
  function Inc(): Sig {
    Sig(0, true, ["a"], Some(Binary(Plus, Ident("a"), Lit(1))), [])
  }

  lemma IncCallsMean(ctx: Context, i: I64, m: Machine)
    requires ctx.resolve("inc", 1) == Some(Inc())
    ensures CallsMean(ctx, m, {("inc", 1)}, Call("inc", [Lit(i)]))
  {
    assert Inc().params[..1] == ["a"];
    assert Idents(Inc().ret.value) == {"a"} && Sites(Inc().ret.value) == {};
    assert [Lit(i)][1..] == [] && SitesOf([Lit(i)]) == {};
    assert BodyMeans(ctx, m, "inc", 1) && BodyInside(ctx, {("inc", 1)}, "inc", 1);
  }

  /** Overload resolution answers with the best candidate for any number of arguments; what
      is said of inc(i) depends on this call alone. */
  lemma IncExact(ctx: Context, i: I64, m: Machine, env: map<string, Value>, fuel: nat)
    requires WellScoped(ctx) && fuel >= 25 && forall n :: ctx.resolve("inc", n) == Some(Inc())
    requires Lower(ctx, Call("inc", [Lit(i)]), [], 0, []).Some?
    requires Holds(m, Lower(ctx, Call("inc", [Lit(i)]), [], 0, []).value.ok)
    ensures Signed(Run(m, Lower(ctx, Call("inc", [Lit(i)]), [], 0, []).value.raw)) == i + 1
  {
    IncCallsMean(ctx, i, m);
    IncValue(ctx, i, env, fuel);
    assert IdentsOf([Lit(i)]) == {};
    RawIntExact(ctx, Call("inc", [Lit(i)]), {("inc", 1)}, m, env, fuel);
  }

  lemma IncValue(ctx: Context, i: I64, env: map<string, Value>, fuel: nat)
    requires fuel > 0 && ctx.resolve("inc", 1) == Some(Inc())
    ensures Eval(ctx, Call("inc", [Lit(i)]), env, fuel) == Int(i + 1)
    ensures !NilUsed(ctx, Call("inc", [Lit(i)]), map[], fuel)
  {
    var args := [Lit(i)];
    EvalCall(ctx, "inc", args, env, map[], fuel, Inc());
    assert EvalArgs(ctx, args, env, fuel) == [Int(i)] && NilArgs(ctx, args, map[], fuel) == [false];
    BindLookup(Home(ctx, Inc(), 1), ["a"], [Int(i)], "a");
    BindLookup(map[], ["a"], [false], "a");
  }

  /** The body of the call is the name `x`, for which the call passes nothing. */
  ghost predicate ReturnsName(sig: Option<Sig>, n: nat, x: string) {
    Inlinable(sig, n) && sig.value.ret == Some(Ident(x)) && x !in sig.value.params[..n]
  }

  /** What the lowering takes `x` for at the call. */
  ghost function Shown(ctx: Context, env: map<string, Value>, x: string): Value {
    if NilInit(ctx, x) then Eval(Zero(ctx), ctx.scope[x].init.value, map[], 0) else Lookup(env, x)
  }

  lemma NilConstantShown(ctx: Context, x: string, inner: seq<RawParam>, active: seq<nat>, m: Machine,
                         env: map<string, Value>)
    requires WellScoped(ctx) && NilInit(ctx, x) && Respects(ctx, env, x) && Stored(ctx, m, env, x)
    requires x !in Names(inner) && Lower(ctx, Ident(x), inner, 1, active).Some?
    ensures Means(m, Lower(ctx, Ident(x), inner, 1, active).value, Shown(ctx, env, x))
  {
    var init := ctx.scope[x].init.value;
    ReplaySafeIdents(init);
    NilIsNoInteger(ctx, init, map[], 0);
    if Lower(ctx, init, inner, 2, active).Some? {
      LowerZero(ctx, init, inner, 2, active);
      ZeroUsesNone(Zero(ctx), init, map[], 25);
      LowerCorrect(Zero(ctx), init, inner, map[], {}, 2, active, m, env, 25);
      ReplaySafeEval(Zero(ctx), init, env, 25);
    }
  }

  /** The word of an inlined `return x` stands for the `x` of the call. */
  lemma InlinedName(ctx: Context, x: string, inner: seq<RawParam>, active: seq<nat>, code: Lowered, m: Machine,
                    env: map<string, Value>)
    requires WellScoped(ctx) && Respects(ctx, env, x) && Stored(ctx, m, env, x)
    requires x !in Names(inner) && Lower(ctx, Ident(x), inner, 1, active) == Some(code)
    ensures Means(m, code, Shown(ctx, env, x))
  {
    if NilInit(ctx, x) {
      NilConstantShown(ctx, x, inner, active, m, env);
    } else {
      assert Idents(Ident(x)) == {x} && SeesName(ctx, m, env, inner, map[], x);
      LowerIdent(ctx, x, inner, map[], {}, 1, active, m, env, 25);
    }
  }

  /** The value of `x` in the body: the default, if `x` is a parameter without an argument,
      or else the value at module level. */
  ghost function InBody(ctx: Context, sig: Sig, n: nat, x: string): Value
    requires n <= |sig.params|
  {
    var i := n + ParamIndex(sig.params[n..], x);
    if i < |sig.params| then sig.Default(i) else Lookup(ctx.globals, x)
  }

  lemma InlinedCallValue(ctx: Context, callee: string, args: seq<Expr>, x: string, env: map<string, Value>, fuel: nat)
    requires fuel > 0 && ReturnsName(ctx.resolve(callee, |args|), |args|, x)
    ensures Eval(ctx, Call(callee, args), env, fuel) == InBody(ctx, ctx.resolve(callee, |args|).value, |args|, x)
  {
    var sig := ctx.resolve(callee, |args|).value;
    EvalCall(ctx, callee, args, env, map[], fuel, sig);
    BindOther(Home(ctx, sig, |args|), sig.params, EvalArgs(ctx, args, env, fuel), x);
    HomeLookup(ctx, sig, |args|, x);
  }

  lemma InlinedParts(ctx: Context, callee: string, args: seq<Expr>, x: string)
    returns (inner: seq<RawParam>, active: seq<nat>)
    requires WellScoped(ctx) && ReturnsName(ctx.resolve(callee, |args|), |args|, x)
    requires Lower(ctx, Call(callee, args), [], 0, []).Some?
    ensures x !in Names(inner) && Lower(ctx, Call(callee, args), [], 0, []) == Lower(ctx, Ident(x), inner, 1, active)
  {
    var sig: Sig;
    sig, inner := CallParts(ctx, callee, args, [], 0, []);
    active := [] + [sig.id];
  }

  lemma InlinedCallMeans(ctx: Context, callee: string, args: seq<Expr>, x: string, m: Machine, env: map<string, Value>)
    requires WellScoped(ctx) && ReturnsName(ctx.resolve(callee, |args|), |args|, x)
    requires Respects(ctx, env, x) && Stored(ctx, m, env, x)
    requires Lower(ctx, Call(callee, args), [], 0, []).Some?
    ensures Means(m, Lower(ctx, Call(callee, args), [], 0, []).value, Shown(ctx, env, x))
  {
    var code := Lower(ctx, Call(callee, args), [], 0, []).value;
    var inner, active := InlinedParts(ctx, callee, args, x);
    InlinedName(ctx, x, inner, active, code, m, env);
  }

  /** The usable word of an inlined `return x` is what `x` is taken for at the call, so it is
      right exactly when that is the value of `x` in the body. */
  lemma InlinedNameExactlyWhen(ctx: Context, callee: string, args: seq<Expr>, x: string, m: Machine,
                               env: map<string, Value>, fuel: nat)
    requires WellScoped(ctx) && fuel > 0 && ReturnsName(ctx.resolve(callee, |args|), |args|, x)
    requires Respects(ctx, env, x) && Stored(ctx, m, env, x)
    requires Lower(ctx, Call(callee, args), [], 0, []).Some?
             && Holds(m, Lower(ctx, Call(callee, args), [], 0, []).value.ok)
    ensures Eval(ctx, Call(callee, args), env, fuel)
            == Int(Signed(Run(m, Lower(ctx, Call(callee, args), [], 0, []).value.raw)))
            <==> Shown(ctx, env, x) == InBody(ctx, ctx.resolve(callee, |args|).value, |args|, x)
  {
    InlinedCallMeans(ctx, callee, args, x, m, env);
    InlinedCallValue(ctx, callee, args, x, env, fuel);
  }

  /** A caller with its own `x` inlines `f() { return x }`, whose `x` is the module's, and
      g(x = 7) { return x }. */
  function Capturing(): Context {
    Context(map["x" := Binding(false, Unknown, None, true, true)],
            (f: string, n: nat) => if f == "f" then Some(Sig(0, true, [], Some(Ident("x")), []))
                                   else Some(Sig(1, true, ["x"], Some(Ident("x")), [Int(7)])),
            map["x" := Int(7)], (_: nat) => NotInt, (_: Expr) => false, false)
  }

  lemma CapturedValue(f: string, fuel: nat)
    requires fuel > 0 && (f == "f" || f == "g")
    ensures Eval(Capturing(), Call(f, []), map["x" := Int(5)], fuel) == Int(7)
  {
    var sig := Capturing().resolve(f, 0).value;
    assert sig.params[0..] == sig.params;
    InlinedCallValue(Capturing(), f, [], "x", map["x" := Int(5)], fuel);
  }

  /** Two such calls, `f()` and `g()`: the lowered word is the caller's variable. */
  lemma CaptureIsWrong(f: string, m: Machine, fuel: nat)
    requires m.raw("x") == 5 && m.tagged("x") == 11 && fuel > 0 && (f == "f" || f == "g")
    ensures WellScoped(Capturing()) && NamesMean(Capturing(), m, map["x" := Int(5)], Call(f, []))
    ensures Respects(Capturing(), map["x" := Int(5)], "x") && Stored(Capturing(), m, map["x" := Int(5)], "x")
    ensures Eval(Capturing(), Call(f, []), map["x" := Int(5)], fuel) == Int(7)
    ensures var code := Lower(Capturing(), Call(f, []), [], 0, []);
            code.Some? && Holds(m, code.value.ok) && Signed(Run(m, code.value.raw)) == 5
  {
    var ctx := Capturing();
    var sig := ctx.resolve(f, 0).value;
    CapturedValue(f, fuel);
    assert sig.params[..0] == [];
    assert LowerArgs(ctx, [], [], [], 1, []) == Some([]);
    assert Lower(ctx, Ident("x"), [], 1, [sig.id]) == Some(Lowered(Raw("x"), Always));
  }
}
