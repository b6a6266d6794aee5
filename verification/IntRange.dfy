/** Integer range analysis of src/code/binary.c: ny_binary_small_int_range,
    ny_expr_range_with_params, ny_call_return_small_int_range and
    ny_expr_proven_small_int_range, against an exact evaluator. */
module IntRange {
  import opened Int64
  import opened Common

  /** Operators by name; the last of each covers every other spelling. */
  datatype BinOp = Plus | Minus | Star | Slash | Percent | Amp | Shr | OtherBin

  datatype UnOp = Pos | Neg | Compl | OtherUn

  datatype Expr =
    | Lit(i: I64)
    | Nil                                   // an integer literal 0 whose token is `nil`
    | Ident(name: string)
    | Unary(prefix: UnOp, operand: Expr)
    | Binary(op: BinOp, left: Expr, right: Expr)
    | Call(callee: string, args: seq<Expr>)
    | Other(id: nat)                        // every kind the two walks give up on

  /** The binding an identifier resolves to. `init` is the initialiser that may be
      evaluated again in its place (ny_binding_var_init_expr). */
  datatype Binding = Binding(isMut: bool, range: Range, init: Option<Expr>, rawDirect: bool, intSlot: bool)

  /** A resolved function; `ret` is its body when that is a single return, `defaults` are the
      values its parameters take when a call passes no argument for them. */
  datatype Sig = Sig(id: nat, eligible: bool, params: seq<string>, ret: Option<Expr>, defaults: seq<Value>) {
    function Default(i: nat): Value {
      if i < |defaults| then defaults[i] else NotInt
    }
  }

  datatype Range = Unknown | Known(lo: I64, hi: I64)

  /** An integer, or anything else. */
  datatype Value = Int(i: int) | NotInt

  /** Bindings visible at the expression, overload resolution, the module level of the
      callees, the values of the other expressions, and the oracle ny_is_proven_int.  In the
      language `nil` is no integer; `nilIsZero` is the reading in which it is the number 0. */
  datatype Context = Context(scope: map<string, Binding>, resolve: (string, nat) -> Option<Sig>,
                             globals: map<string, Value>, others: nat -> Value, provenInt: Expr -> bool,
                             nilIsZero: bool)

  // ------------------------------------------------------------- exact evaluation

  function ExactBinary(op: BinOp, a: int, b: int): Value {
    match op
    case Plus => Int(a + b)
    case Minus => Int(a - b)
    case Star => Int(a * b)
    case Slash => if b == 0 then NotInt else Int(TruncDiv(a, b))
    case Percent => if b == 0 then NotInt else Int(TruncRem(a, b))
    case Amp => Int(BitAnd(a, b))
    case Shr => if b < 0 then NotInt else Int(a / Pow2(b))
    case OtherBin => NotInt
  }

  function ExactUnary(op: UnOp, a: int): Value {
    match op
    case Pos => Int(a)
    case Neg => Int(-a)
    case Compl => Int(-a - 1)
    case OtherUn => NotInt
  }

  function Lookup(env: map<string, Value>, name: string): Value {
    if name in env then env[name] else NotInt
  }

  /** `base` overridden by parameters with their arguments, the first of equally named
      parameters counting. */
  function Bind<T>(base: map<string, T>, params: seq<string>, args: seq<T>): map<string, T>
    decreases |args|
  {
    if args == [] || params == [] then base else Bind(base, params[1..], args[1..])[params[0] := args[0]]
  }

  /** What names mean in a body before the `n` arguments of a call are bound: the module
      level, overridden by the defaults of the parameters that get no argument. */
  function Home(ctx: Context, sig: Sig, n: nat): map<string, Value> {
    if n >= |sig.params| then ctx.globals
    else Bind(ctx.globals, sig.params[n..], seq(|sig.params| - n, i requires 0 <= i => sig.Default(n + i)))
  }

  function CalleeEnv(ctx: Context, sig: Sig, vals: seq<Value>): map<string, Value> {
    Bind(Home(ctx, sig, |vals|), sig.params, vals)
  }

  /** Integer arithmetic without width; `fuel` bounds the call depth. */
  function Eval(ctx: Context, e: Expr, env: map<string, Value>, fuel: nat): Value
    decreases fuel, e, 1
  {
    match e
    case Lit(i) => Int(i)
    case Nil => if ctx.nilIsZero then Int(0) else NotInt
    case Ident(name) => Lookup(env, name)
    case Unary(op, right) =>
      var r := Eval(ctx, right, env, fuel);
      if r.Int? then ExactUnary(op, r.i) else NotInt
    case Binary(op, left, right) =>
      var l := Eval(ctx, left, env, fuel);
      var r := Eval(ctx, right, env, fuel);
      if l.Int? && r.Int? then ExactBinary(op, l.i, r.i) else NotInt
    case Call(callee, args) =>
      var vals := EvalArgs(ctx, args, env, fuel);
      var sig := ctx.resolve(callee, |args|);
      if fuel == 0 || sig.None? || sig.value.ret.None? then NotInt
      else Eval(ctx, sig.value.ret.value, CalleeEnv(ctx, sig.value, vals), fuel - 1)
    case Other(id) => ctx.others(id)
  }

  function EvalArgs(ctx: Context, args: seq<Expr>, env: map<string, Value>, fuel: nat): (vals: seq<Value>)
    ensures |vals| == |args|
    ensures forall i :: 0 <= i < |args| ==> vals[i] == Eval(ctx, args[i], env, fuel)
    decreases fuel, args, 0
  {
    if args == [] then [] else [Eval(ctx, args[0], env, fuel)] + EvalArgs(ctx, args[1..], env, fuel)
  }

  // ------------------------------------------------------------------ the analysis

  /** ny_checked_int_range. */
  function Checked(lo: I64, hi: I64): Range {
    if SmallInt(lo) && SmallInt(hi) then Known(lo, hi) else Unknown
  }

  /** ny_mask_literal_int_range; a nil token is not told apart from the literal 0. */
  function MaskLiteral(e: Expr): Option<I64> {
    if e.Lit? && e.i >= 0 && SmallInt(e.i) then Some(e.i) else if e.Nil? then Some(0) else None
  }

  function Min4(a: int, b: int, c: int, d: int): int {
    var x := if b < a then b else a;
    var y := if c < x then c else x;
    if d < y then d else y
  }

  function Max4(a: int, b: int, c: int, d: int): int {
    -Min4(-a, -b, -c, -d)
  }

  function SumRange(l: Range, r: Range): Range
    requires l.Known? && r.Known?
  {
    if Fits64(l.lo + r.lo) && Fits64(l.hi + r.hi) then Checked(l.lo + r.lo, l.hi + r.hi) else Unknown
  }

  function DifferenceRange(l: Range, r: Range): Range
    requires l.Known? && r.Known?
  {
    if Fits64(l.lo - r.hi) && Fits64(l.hi - r.lo) then Checked(l.lo - r.hi, l.hi - r.lo) else Unknown
  }

  function ProductRange(l: Range, r: Range): Range
    requires l.Known? && r.Known?
  {
    var a, b, c, d := l.lo * r.lo, l.lo * r.hi, l.hi * r.lo, l.hi * r.hi;
    if Fits64(a) && Fits64(b) && Fits64(c) && Fits64(d) then Checked(Min4(a, b, c, d), Max4(a, b, c, d)) else Unknown
  }

  function QuotientRange(l: Range, d: I64): Range
    requires l.Known? && d > 0
  {
    TruncDivBounds(l.lo, d);
    TruncDivBounds(l.hi, d);
    var lo, hi := TruncDiv(l.lo, d), TruncDiv(l.hi, d);
    if lo > hi then Checked(hi, lo) else Checked(lo, hi)
  }

  function ShiftRange(l: Range, k: nat): Range
    requires l.Known? && l.lo >= 0 && k < 64
  {
    Checked(Signed(WLShr(ToWord(l.lo), k)), Signed(WLShr(ToWord(l.hi), k)))
  }

  /** ny_binary_small_int_range. */
  function BinaryRange(op: BinOp, l: Range, r: Range): Range {
    if l.Unknown? || r.Unknown? then Unknown else
    var constant := r.lo == r.hi;
    match op
    case Plus => SumRange(l, r)
    case Minus => DifferenceRange(l, r)
    case Star => ProductRange(l, r)
    case Slash => if constant && r.hi > 0 then QuotientRange(l, r.hi) else Unknown
    case Percent =>
      if constant && r.hi > 0 then Checked(if l.lo >= 0 then 0 else -(r.hi - 1), r.hi - 1) else Unknown
    case Amp => if constant && r.hi >= 0 && l.lo >= 0 then Checked(0, r.hi) else Unknown
    case Shr => if constant && 0 <= r.lo < 64 && l.lo >= 0 then ShiftRange(l, r.lo) else Unknown
    case OtherBin => Unknown
  }

  /** The range of a negation. */
  function NegRange(r: Range): Range {
    if r.Unknown? || r.lo == -TWO63 || r.hi == -TWO63 then Unknown else Checked(-r.hi, -r.lo)
  }

  /** The range of a complement. */
  function NotRange(r: Range): Range {
    if r.Unknown? || r.lo == -TWO63 || r.hi == -TWO63 then Unknown else Checked(-r.hi - 1, -r.lo - 1)
  }

  /** ny_expr_init_replay_safe_depth: no identifiers and no calls. */
  predicate ReplaySafe(e: Expr) {
    match e
    case Ident(_) => false
    case Call(_, _) => false
    case Unary(_, right) => ReplaySafe(right)
    case Binary(_, left, right) => ReplaySafe(left) && ReplaySafe(right)
    case _ => true
  }

  /** What the front end guarantees of the bindings' initialisers. */
  ghost predicate WellScoped(ctx: Context) {
    forall x :: x in ctx.scope && ctx.scope[x].init.Some? ==> ReplaySafe(ctx.scope[x].init.value)
  }

  datatype ParamRange = ParamRange(name: string, range: Range)

  function ParamIndex(names: seq<string>, name: string): (i: nat)
    ensures i <= |names| && (i < |names| ==> names[i] == name)
    ensures forall j :: 0 <= j < i ==> names[j] != name
  {
    if names == [] || names[0] == name then 0 else 1 + ParamIndex(names[1..], name)
  }

  /** The identifier case of ny_expr_proven_small_int_range. */
  function IdentRange(ctx: Context, name: string): Range
    requires WellScoped(ctx)
    decreases 1, Nil, 0
  {
    if name !in ctx.scope then Unknown
    else
      var b := ctx.scope[name];
      if b.range.Known? then b.range
      else if !b.isMut && b.init.Some? then ProvenRange(ctx, b.init.value)
      else Unknown
  }

  /** ny_expr_range_with_params. */
  function ParamsRange(ctx: Context, e: Expr, names: seq<string>, ranges: seq<Range>, recursion: nat): Range
    requires WellScoped(ctx) && |names| == |ranges|
    decreases 2, e, 0
  {
    if recursion > 24 then Unknown else
    match e
    case Lit(i) => Checked(i, i)
    case Nil => Known(0, 0)
    case Ident(name) =>
      var i := ParamIndex(names, name);
      if i < |names| then ranges[i] else IdentRange(ctx, name)
    case Unary(op, right) =>
      if op == Pos then ParamsRange(ctx, right, names, ranges, recursion + 1)
      else if op == Neg then NegRange(ParamsRange(ctx, right, names, ranges, recursion + 1))
      else Unknown
    case Binary(op, left, right) =>
      var mask := if op == Amp then MaskLiteral(right) else None;
      if mask.Some? then Known(0, mask.value)
      else BinaryRange(op, ParamsRange(ctx, left, names, ranges, recursion + 1),
                       ParamsRange(ctx, right, names, ranges, recursion + 1))
    case Call(_, _) => Unknown
    case Other(_) => Unknown
  }

  /** ny_expr_proven_small_int_range. */
  function ProvenRange(ctx: Context, e: Expr): Range
    requires WellScoped(ctx)
    decreases if ReplaySafe(e) then 0 else 3, e, 1
  {
    match e
    case Lit(i) => Checked(i, i)
    case Nil => Known(0, 0)
    case Ident(name) => IdentRange(ctx, name)
    case Unary(op, right) =>
      if op == Pos then ProvenRange(ctx, right)
      else if op == Neg then NegRange(ProvenRange(ctx, right))
      else if op == Compl then NotRange(ProvenRange(ctx, right))
      else Unknown
    case Binary(op, left, right) =>
      var mask := if op == Amp then MaskLiteral(right) else None;
      if mask.Some? && ctx.provenInt(left) then Known(0, mask.value)
      else BinaryRange(op, ProvenRange(ctx, left), ProvenRange(ctx, right))
    case Call(callee, args) =>
      var sig := ctx.resolve(callee, |args|);
      if |args| > 16 || sig.None? || !sig.value.eligible || sig.value.ret.None?
         || |sig.value.params| < |args| then Unknown
      else
        var ranges := ArgRanges(ctx, args);
        if Unknown in ranges then Unknown
        else ParamsRange(ctx, sig.value.ret.value, sig.value.params[..|args|], ranges, 0)
    case Other(_) => Unknown
  }

  function ArgRanges(ctx: Context, args: seq<Expr>): (rs: seq<Range>)
    requires WellScoped(ctx)
    ensures |rs| == |args|
    ensures forall i :: 0 <= i < |args| ==> rs[i] == ProvenRange(ctx, args[i])
    decreases 3, args, 0
  {
    if args == [] then [] else [ProvenRange(ctx, args[0])] + ArgRanges(ctx, args[1..])
  }

  // --------------------------------------------------------------------- soundness

  /** A known range holds every integer the value can be. */
  predicate InRange(r: Range, v: Value) {
    r.Known? && v.Int? ==> r.lo <= v.i <= r.hi
  }

  function Idents(e: Expr): set<string>
    decreases e, 1
  {
    match e
    case Ident(name) => {name}
    case Unary(_, right) => Idents(right)
    case Binary(_, left, right) => Idents(left) + Idents(right)
    case Call(_, args) => IdentsOf(args)
    case _ => {}
  }

  function IdentsOf(es: seq<Expr>): (r: set<string>)
    ensures forall i :: 0 <= i < |es| ==> Idents(es[i]) <= r
    decreases es, 0
  {
    if es == [] then {} else Idents(es[0]) + IdentsOf(es[1..])
  }

  /** What a binding claims about its variable is true of `env`. */
  ghost predicate Respects(ctx: Context, env: map<string, Value>, x: string) {
    x in ctx.scope ==>
      && InRange(ctx.scope[x].range, Lookup(env, x))
      && (!ctx.scope[x].isMut && ctx.scope[x].init.Some? ==>
            Lookup(env, x) == Eval(ctx, ctx.scope[x].init.value, map[], 0))
  }

  ghost predicate RespectsAll(ctx: Context, env: map<string, Value>, e: Expr) {
    forall x :: x in Idents(e) ==> Respects(ctx, env, x)
  }

  predicate CallFree(e: Expr) {
    match e
    case Call(_, _) => false
    case Unary(_, right) => CallFree(right)
    case Binary(_, left, right) => CallFree(left) && CallFree(right)
    case _ => true
  }

  /** The calls that occur in an expression: the callee and the number of arguments. */
  function Sites(e: Expr): set<(string, nat)>
    decreases e, 1
  {
    match e
    case Unary(_, right) => Sites(right)
    case Binary(_, left, right) => Sites(left) + Sites(right)
    case Call(callee, args) => {(callee, |args|)} + SitesOf(args)
    case _ => {}
  }

  function SitesOf(es: seq<Expr>): (r: set<(string, nat)>)
    ensures forall i :: 0 <= i < |es| ==> Sites(es[i]) <= r
    decreases es, 0
  {
    if es == [] then {} else Sites(es[0]) + SitesOf(es[1..])
  }

  /** The calls whose body the two walks look at. */
  predicate Inlinable(sig: Option<Sig>, n: nat) {
    sig.Some? && sig.value.eligible && sig.value.ret.Some? && n <= |sig.value.params| && n <= 16
  }

  /** Whatever a body mentions beside the parameters that get an argument has, where it is
      called, a binding that is true of its value in the body. */
  ghost predicate BodyRespected(ctx: Context, f: string, n: nat) {
    var sig := ctx.resolve(f, n);
    Inlinable(sig, n) ==>
      forall x :: x in Idents(sig.value.ret.value) && x !in sig.value.params[..n] ==>
        Respects(ctx, Home(ctx, sig.value, n), x)
  }

  /** The bodies of the calls in `e` are. */
  ghost predicate CallsFit(ctx: Context, e: Expr) {
    forall f, n :: (f, n) in Sites(e) ==> BodyRespected(ctx, f, n)
  }

  lemma CornerProduct(al: int, a: int, ah: int, b: int)
    requires al <= a <= ah
    ensures al * b <= a * b <= ah * b || ah * b <= a * b <= al * b
  {
    if b >= 0 {
      MulLe(b, al, a);
      MulLe(b, a, ah);
    } else {
      MulLe(-b, al, a);
      MulLe(-b, a, ah);
    }
  }

  /** A product lies between the extreme corner products. */
  lemma FourCorners(al: int, a: int, ah: int, bl: int, b: int, bh: int)
    requires al <= a <= ah && bl <= b <= bh
    ensures Min4(al * bl, al * bh, ah * bl, ah * bh) <= a * b <= Max4(al * bl, al * bh, ah * bl, ah * bh)
  {
    CornerProduct(al, a, ah, b);
    CornerProduct(bl, b, bh, al);
    CornerProduct(bl, b, bh, ah);
    assert b * al == al * b && b * ah == ah * b && bl * al == al * bl && bh * al == al * bh
           && bl * ah == ah * bl && bh * ah == ah * bh;
  }

  lemma ProductSound(l: Range, r: Range, a: int, b: int)
    requires l.Known? && r.Known? && InRange(l, Int(a)) && InRange(r, Int(b))
    ensures InRange(ProductRange(l, r), Int(a * b))
  {
    FourCorners(l.lo, a, l.hi, r.lo, b, r.hi);
  }

  lemma QuotientSound(l: Range, a: int, d: I64)
    requires l.Known? && InRange(l, Int(a)) && d > 0
    ensures InRange(QuotientRange(l, d), Int(TruncDiv(a, d)))
  {
    TruncDivMono(l.lo, a, d);
    TruncDivMono(a, l.hi, d);
  }

  /** The logical shift of a word that is not negative is the quotient. */
  lemma ShrIsQuotient(i: I64, k: nat)
    requires i >= 0
    ensures Signed(WLShr(ToWord(i), k)) == i / Pow2(k)
  {
    SignedToWord(i);
    DivShrinks(i, Pow2(k));
  }

  lemma ShiftSound(l: Range, a: int, k: nat)
    requires l.Known? && l.lo >= 0 && InRange(l, Int(a)) && k < 64
    ensures InRange(ShiftRange(l, k), Int(a / Pow2(k)))
  {
    ShrIsQuotient(l.lo, k);
    ShrIsQuotient(l.hi, k);
    DivMono(l.lo, a, Pow2(k));
    DivMono(a, l.hi, Pow2(k));
  }

  lemma ShiftedBounds(lo: I64, hi: I64, k: nat)
    requires 0 <= lo <= hi
    ensures 0 <= lo / Pow2(k) <= hi / Pow2(k) <= hi
  {
    DivShrinks(lo, Pow2(k));
    DivShrinks(hi, Pow2(k));
    DivMono(lo, hi, Pow2(k));
  }

  /** One operator keeps ranges true. */
  lemma BinaryRangeSound(op: BinOp, l: Range, r: Range, a: int, b: int)
    requires InRange(l, Int(a)) && InRange(r, Int(b))
    ensures InRange(BinaryRange(op, l, r), ExactBinary(op, a, b))
  {
    if BinaryRange(op, l, r).Known? {
      match op
      case Star => ProductSound(l, r, a, b);
      case Slash => QuotientSound(l, a, b);
      case Percent => TruncRemBounds(a, b);
      case Amp => BitAndNat(a, b);
      case Shr => ShiftSound(l, a, b);
      case _ =>
    }
  }

  /** A replay-safe expression has one value, in every environment. */
  lemma {:induction false} ReplaySafeEval(ctx: Context, e: Expr, env: map<string, Value>, fuel: nat)
    requires ReplaySafe(e)
    ensures Eval(ctx, e, env, fuel) == Eval(ctx, e, map[], 0)
    decreases e
  {
    match e
    case Unary(_, right) => ReplaySafeEval(ctx, right, env, fuel);
    case Binary(_, left, right) =>
      ReplaySafeEval(ctx, left, env, fuel);
      ReplaySafeEval(ctx, right, env, fuel);
    case _ =>
  }

  lemma MaskSound(l: Value, right: Expr, ctx: Context, env: map<string, Value>, fuel: nat)
    requires MaskLiteral(right).Some?
    ensures var r := Eval(ctx, right, env, fuel);
            InRange(Known(0, MaskLiteral(right).value), if l.Int? && r.Int? then ExactBinary(Amp, l.i, r.i) else NotInt)
  {
    if l.Int? {
      BitAndNat(l.i, MaskLiteral(right).value);
    }
  }

  /** The range of an initialiser that may be evaluated again holds its value. */
  lemma {:induction false} ReplaySafeRangeSound(ctx: Context, e: Expr)
    requires WellScoped(ctx) && ReplaySafe(e)
    ensures InRange(ProvenRange(ctx, e), Eval(ctx, e, map[], 0))
    decreases e
  {
    match e
    case Unary(_, right) => ReplaySafeRangeSound(ctx, right);
    case Binary(op, left, right) =>
      ReplaySafeRangeSound(ctx, left);
      ReplaySafeRangeSound(ctx, right);
      BinaryCaseSound(ctx, op, left, right, ProvenRange(ctx, left), ProvenRange(ctx, right), map[], 0);
    case _ =>
  }

  lemma IdentRangeSound(ctx: Context, name: string, env: map<string, Value>)
    requires WellScoped(ctx) && Respects(ctx, env, name)
    ensures InRange(IdentRange(ctx, name), Lookup(env, name))
  {
    if name in ctx.scope && !ctx.scope[name].isMut && ctx.scope[name].init.Some? {
      ReplaySafeRangeSound(ctx, ctx.scope[name].init.value);
    }
  }

  /** With ranges for the parameters; every other name has its binding. */
  lemma {:induction false} ParamsRangeSound(ctx: Context, e: Expr, names: seq<string>, ranges: seq<Range>,
                                            recursion: nat, env: map<string, Value>, fuel: nat)
    requires WellScoped(ctx) && |names| == |ranges|
    requires forall x :: x in Idents(e) ==>
               if x in names then InRange(ranges[ParamIndex(names, x)], Lookup(env, x)) else Respects(ctx, env, x)
    ensures InRange(ParamsRange(ctx, e, names, ranges, recursion), Eval(ctx, e, env, fuel))
    decreases e
  {
    if recursion <= 24 {
      match e
      case Ident(name) =>
        assert name in Idents(e);
        if name !in names {
          IdentRangeSound(ctx, name, env);
        }
      case Unary(_, right) => ParamsRangeSound(ctx, right, names, ranges, recursion + 1, env, fuel);
      case Binary(op, left, right) =>
        ParamsRangeSound(ctx, left, names, ranges, recursion + 1, env, fuel);
        ParamsRangeSound(ctx, right, names, ranges, recursion + 1, env, fuel);
        BinaryCaseSound(ctx, op, left, right, ParamsRange(ctx, left, names, ranges, recursion + 1),
                        ParamsRange(ctx, right, names, ranges, recursion + 1), env, fuel);
      case _ =>
    }
  }

  lemma BinaryCaseSound(ctx: Context, op: BinOp, left: Expr, right: Expr, l: Range, r: Range, env: map<string,
                        Value>, fuel: nat)
    requires InRange(l, Eval(ctx, left, env, fuel)) && InRange(r, Eval(ctx, right, env, fuel))
    ensures InRange(BinaryRange(op, l, r), Eval(ctx, Binary(op, left, right), env, fuel))
    ensures op == Amp && MaskLiteral(right).Some? ==>
              InRange(Known(0, MaskLiteral(right).value), Eval(ctx, Binary(op, left, right), env, fuel))
  {
    var a, b := Eval(ctx, left, env, fuel), Eval(ctx, right, env, fuel);
    if a.Int? && b.Int? {
      BinaryRangeSound(op, l, r, a.i, b.i);
    }
    if op == Amp && MaskLiteral(right).Some? {
      MaskSound(a, right, ctx, env, fuel);
    }
  }

  /** Interval soundness: every integer the expression evaluates to lies in its range. */
  lemma {:induction false} ProvenRangeSound(ctx: Context, e: Expr, env: map<string, Value>, fuel: nat)
    requires WellScoped(ctx) && CallsFit(ctx, e) && RespectsAll(ctx, env, e)
    ensures InRange(ProvenRange(ctx, e), Eval(ctx, e, env, fuel))
    decreases e, 1
  {
    match e
    case Ident(name) =>
      assert Respects(ctx, env, name);
      IdentRangeSound(ctx, name, env);
    case Unary(_, right) =>
      ProvenRangeSound(ctx, right, env, fuel);
    case Binary(op, left, right) =>
      ProvenRangeSound(ctx, left, env, fuel);
      ProvenRangeSound(ctx, right, env, fuel);
      BinaryCaseSound(ctx, op, left, right, ProvenRange(ctx, left), ProvenRange(ctx, right), env, fuel);
    case Call(callee, args) =>
      assert (callee, |args|) in Sites(e);
      ArgRangesSound(ctx, args, env, fuel);
      CallRangeSound(ctx, callee, args, env, fuel);
    case _ =>
  }

  lemma {:induction false} ReplaySafeIdents(e: Expr)
    requires ReplaySafe(e)
    ensures Idents(e) == {} && Sites(e) == {} && CallFree(e)
    decreases e
  {
    match e
    case Unary(_, right) => ReplaySafeIdents(right);
    case Binary(_, left, right) =>
      ReplaySafeIdents(left);
      ReplaySafeIdents(right);
    case _ =>
  }

  lemma {:induction false} ArgRangesSound(ctx: Context, args: seq<Expr>, env: map<string, Value>, fuel: nat)
    requires WellScoped(ctx) && (forall f, n :: (f, n) in SitesOf(args) ==> BodyRespected(ctx, f, n))
    requires forall x :: x in IdentsOf(args) ==> Respects(ctx, env, x)
    ensures forall i :: 0 <= i < |args| ==> InRange(ArgRanges(ctx, args)[i], EvalArgs(ctx, args, env, fuel)[i])
    decreases args, 0
  {
    if args != [] {
      ProvenRangeSound(ctx, args[0], env, fuel);
      ArgRangesSound(ctx, args[1..], env, fuel);
    }
  }

  /** Binding parameters in order is looking up the first of that name. */
  lemma {:induction false} BindLookup<T>(base: map<string, T>, params: seq<string>, args: seq<T>, x: string)
    requires |args| <= |params| && x in params[..|args|]
    ensures var i := ParamIndex(params[..|args|], x);
            i < |args| && x in Bind(base, params, args) && Bind(base, params, args)[x] == args[i]
    decreases |args|
  {
    var names := params[..|args|];
    assert names[1..] == params[1..][..|args| - 1];
    if names[0] != x {
      BindLookup(base, params[1..], args[1..], x);
    }
  }

  /** Binding parameters leaves every other name alone. */
  lemma {:induction false} BindOther<T>(base: map<string, T>, params: seq<string>, args: seq<T>, x: string)
    requires |args| <= |params| && x !in params[..|args|]
    ensures x in Bind(base, params, args) <==> x in base
    ensures x in base ==> Bind(base, params, args)[x] == base[x]
    decreases |args|
  {
    if args != [] {
      assert params[..|args|][0] == params[0];
      assert params[..|args|][1..] == params[1..][..|args| - 1];
      BindOther(base, params[1..], args[1..], x);
    }
  }

  /** A parameter without an argument has its default, any other name its module-level value. */
  lemma HomeLookup(ctx: Context, sig: Sig, n: nat, x: string)
    requires n <= |sig.params|
    ensures Lookup(Home(ctx, sig, n), x)
            == var i := ParamIndex(sig.params[n..], x);
               if n + i < |sig.params| then sig.Default(n + i) else Lookup(ctx.globals, x)
  {
    if n < |sig.params| {
      var rest := sig.params[n..];
      var given := seq(|sig.params| - n, i requires 0 <= i => sig.Default(n + i));
      assert rest[..|given|] == rest;
      if x in rest {
        BindLookup(ctx.globals, rest, given, x);
      } else {
        BindOther(ctx.globals, rest, given, x);
      }
    }
  }

  lemma CallRangeSound(ctx: Context, callee: string, args: seq<Expr>, env: map<string, Value>, fuel: nat)
    requires WellScoped(ctx) && BodyRespected(ctx, callee, |args|)
    requires forall i :: 0 <= i < |args| ==> InRange(ArgRanges(ctx, args)[i], EvalArgs(ctx, args, env, fuel)[i])
    ensures InRange(ProvenRange(ctx, Call(callee, args)), Eval(ctx, Call(callee, args), env, fuel))
  {
    var sig := ctx.resolve(callee, |args|);
    if ProvenRange(ctx, Call(callee, args)).Known? && fuel > 0 {
      var ranges, vals := ArgRanges(ctx, args), EvalArgs(ctx, args, env, fuel);
      var names := sig.value.params[..|args|];
      var inner := CalleeEnv(ctx, sig.value, vals);
      forall x | x in Idents(sig.value.ret.value)
        ensures if x in names then InRange(ranges[ParamIndex(names, x)], Lookup(inner, x)) else Respects(ctx, inner, x)
      {
        if x in names {
          BindLookup(Home(ctx, sig.value, |args|), sig.value.params, vals, x);
        } else {
          BindOther(Home(ctx, sig.value, |args|), sig.value.params, vals, x);
        }
      }
      ParamsRangeSound(ctx, sig.value.ret.value, names, ranges, 0, inner, fuel - 1);
    }
  }

  // --------------------------------------------------------------- small bounds

  ghost predicate SmallRange(r: Range) {
    r.Known? ==> SmallInt(r.lo) && SmallInt(r.hi) && r.lo <= r.hi
  }

  ghost predicate SmallBindings(ctx: Context) {
    forall x :: x in ctx.scope ==> SmallRange(ctx.scope[x].range)
  }

  lemma ProductSmall(l: Range, r: Range)
    requires l.Known? && r.Known? && SmallRange(l) && SmallRange(r)
    ensures SmallRange(ProductRange(l, r))
  {
    FourCorners(l.lo, l.lo, l.hi, r.lo, r.lo, r.hi);
  }

  lemma ShiftSmall(l: Range, k: nat)
    requires l.Known? && SmallRange(l) && l.lo >= 0 && k < 64
    ensures SmallRange(ShiftRange(l, k))
  {
    ShiftedBounds(l.lo, l.hi, k);
  }

  lemma QuotientSmall(l: Range, d: I64)
    requires l.Known? && SmallRange(l) && d > 0
    ensures SmallRange(QuotientRange(l, d))
  {
  }

  lemma BinaryRangeSmall(op: BinOp, l: Range, r: Range)
    requires SmallRange(l) && SmallRange(r)
    ensures SmallRange(BinaryRange(op, l, r))
  {
    if l.Known? && r.Known? {
      match op
      case Star => ProductSmall(l, r);
      case Slash => if r.hi > 0 { QuotientSmall(l, r.hi); }
      case Shr => if 0 <= r.lo < 64 && l.lo >= 0 { ShiftSmall(l, r.lo); }
      case _ =>
    }
  }

  lemma {:induction false} ParamsRangeSmall(ctx: Context, e: Expr, names: seq<string>, ranges: seq<Range>,
                                            recursion: nat)
    requires WellScoped(ctx) && SmallBindings(ctx) && |names| == |ranges|
    requires forall i :: 0 <= i < |ranges| ==> SmallRange(ranges[i])
    ensures SmallRange(ParamsRange(ctx, e, names, ranges, recursion))
    decreases 1, e, 0
  {
    if recursion <= 24 {
      match e
      case Ident(name) => IdentRangeSmall(ctx, name);
      case Unary(_, right) => ParamsRangeSmall(ctx, right, names, ranges, recursion + 1);
      case Binary(op, left, right) =>
        ParamsRangeSmall(ctx, left, names, ranges, recursion + 1);
        ParamsRangeSmall(ctx, right, names, ranges, recursion + 1);
        BinaryRangeSmall(op, ParamsRange(ctx, left, names, ranges, recursion + 1),
                         ParamsRange(ctx, right, names, ranges, recursion + 1));
      case _ =>
    }
  }

  lemma {:induction false} IdentRangeSmall(ctx: Context, name: string)
    requires WellScoped(ctx) && SmallBindings(ctx)
    ensures SmallRange(IdentRange(ctx, name))
    decreases 0, Nil, 2
  {
    if name in ctx.scope && !ctx.scope[name].isMut && ctx.scope[name].init.Some? {
      ReplaySafeSmall(ctx, ctx.scope[name].init.value);
    }
  }

  lemma {:induction false} ReplaySafeSmall(ctx: Context, e: Expr)
    requires WellScoped(ctx) && ReplaySafe(e)
    ensures SmallRange(ProvenRange(ctx, e))
    decreases e
  {
    match e
    case Unary(_, right) => ReplaySafeSmall(ctx, right);
    case Binary(op, left, right) =>
      ReplaySafeSmall(ctx, left);
      ReplaySafeSmall(ctx, right);
      BinaryRangeSmall(op, ProvenRange(ctx, left), ProvenRange(ctx, right));
    case _ =>
  }

  /** When every binding's own range is small, so is every range the analysis derives. */
  lemma {:induction false} ProvenRangeSmall(ctx: Context, e: Expr)
    requires WellScoped(ctx) && SmallBindings(ctx)
    ensures SmallRange(ProvenRange(ctx, e))
    decreases 2, e, 1
  {
    match e
    case Ident(name) => IdentRangeSmall(ctx, name);
    case Unary(_, right) => ProvenRangeSmall(ctx, right);
    case Binary(op, left, right) =>
      ProvenRangeSmall(ctx, left);
      ProvenRangeSmall(ctx, right);
      BinaryRangeSmall(op, ProvenRange(ctx, left), ProvenRange(ctx, right));
    case Call(callee, args) =>
      forall i | 0 <= i < |args|
        ensures SmallRange(ArgRanges(ctx, args)[i])
      {
        ProvenRangeSmall(ctx, args[i]);
      }
      var sig := ctx.resolve(callee, |args|);
      if |args| <= 16 && sig.Some? && sig.value.ret.Some? && |args| <= |sig.value.params| {
        ParamsRangeSmall(ctx, sig.value.ret.value, sig.value.params[..|args|], ArgRanges(ctx, args), 0);
      }
    case _ =>
  }
}
