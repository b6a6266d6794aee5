/** The two body walks of src/code/funcpurity.c: the purity check
    (ny_expr/stmt_check_safe_internal) and the effect visitor
    (effects_visit_expr/stmt driven by src/code/visitor.c), and how they agree. */
module Purity {
  import opened Ast

  // ---------------------------------------------------------------- builtin tables

  /** ny_builtin_name_is_pure: the third character picks the row to compare with. */
  predicate BuiltinPure(name: string) {
    && |name| > 2 && name[0] == '_' && name[1] == '_'
    && match name[2]
       case 't' => name in {"__tag", "__untag"}
       case 'i' => name in {"__is_int", "__is_ptr", "__is_ny_obj", "__is_str_obj", "__is_float_obj"}
       case 'a' => name in {"__add", "__and"}
       case 's' => name in {"__sub", "__shl", "__shr"}
       case 'm' => name in {"__mul", "__mod"}
       case 'd' => name == "__div"
       case 'o' => name == "__or"
       case 'x' => name == "__xor"
       case 'n' => name == "__not"
       case 'e' => name == "__eq"
       case 'l' => name in {"__lt", "__le"}
       case 'g' => name in {"__gt", "__ge"}
       case 'f' => name in {"__flt_lt", "__flt_gt", "__flt_eq", "__flt_to_int", "__flt_trunc"}
       case 'T' => name == "__tagof"
       case 'r' => name == "__runtime_tag"
       case _ => false
  }

  /** Two entries stand in rows that another third character selects, and are never found. */
  lemma NeverMatched()
    ensures !BuiltinPure("__untag") && !BuiltinPure("__tagof")
  {
    assert "__untag"[2] == 'u' && "__tagof"[2] == 't';
  }

  predicate StartsWith(name: string, prefix: string) {
    prefix <= name
  }

  /** ny_builtin_name_effects. */
  function BuiltinEffects(name: string): set<Effect> {
    if name == "" then ALL_EFFECTS
    else if BuiltinPure(name) then {}
    else if name in {"__malloc", "__free", "__malloc_raw", "__free_raw", "__realloc", "__zalloc", "__set_args",
                     "__cleanup_args", "__flt_box", "__init_str", "__bytes_new", "__kwarg_new", "__range_new",
                     "__list_as_tuple"} then {Alloc}
    else if StartsWith(name, "__thread_") then {Thread}
    else if StartsWith(name, "__async_") then {Io, Alloc}
    else if StartsWith(name, "__sys") || name in {"__open", "__close", "__ioctl", "__print", "__panic",
                                                  "__trace_func", "__stats"} then {Io}
    else ALL_EFFECTS
  }

  // ------------------------------------------------------------------- purity check

  /** Verdict so far and the scope left behind. */
  datatype Verdict = Verdict(ok: bool, scope: Scope)

  /** ny_sig_is_pure / ny_sig_is_memo_safe of a resolved call; `ok` answers for analysed functions. */
  predicate TargetSafe(t: Target, ok: nat -> bool) {
    match t
    case Unresolved => false
    case Builtin(name) => BuiltinPure(name)
    case Extern(_) => false
    case Std => false
    case Analysed(id) => ok(id)
  }

  function SafeExpr(n: Names, memo: bool, ok: nat -> bool, e: Expr, scope: Scope): Verdict
    decreases e, 1
  {
    match e
    case NoExpr => Verdict(true, scope)
    case Literal => Verdict(true, scope)
    case Ident(name) => Verdict(name != "" && (name in scope || n.isValue(name)), scope)
    case Unary(op, right) =>
      if op == "async" || op == "await" then Verdict(false, scope) else SafeExpr(n, memo, ok, right, scope)
    case Binary(left, right) =>
      var a := SafeExpr(n, memo, ok, left, scope);
      if !a.ok then a else SafeExpr(n, memo, ok, right, a.scope)
    case Ternary(cond, yes, no) =>
      var a := SafeExpr(n, memo, ok, cond, scope);
      if !a.ok then a else
      var b := SafeExpr(n, memo, ok, yes, a.scope);
      if !b.ok then b else SafeExpr(n, memo, ok, no, b.scope)
    case Call(callee, args) =>
      var a := SafeExprs(n, memo, ok, args, scope);
      if !a.ok then a else Verdict(TargetSafe(ResolveCall(n, callee, |args|, a.scope), ok), a.scope)
    case MemCall(target, member, args) =>
      var a := SafeExprs(n, memo, ok, args, scope);
      if !a.ok then a else Verdict(TargetSafe(ResolveMember(n, target, member, a.scope), ok), a.scope)
    case Index(target, start, stop, step) =>
      if !memo then Verdict(false, scope) else
      var a := SafeExpr(n, memo, ok, target, scope);
      if !a.ok then a else
      var b := SafeExpr(n, memo, ok, start, a.scope);
      if !b.ok then b else
      var c := SafeExpr(n, memo, ok, stop, b.scope);
      if !c.ok then c else SafeExpr(n, memo, ok, step, c.scope)
    case Member(target) => if !memo then Verdict(false, scope) else SafeExpr(n, memo, ok, target, scope)
    case Aggregate(items) => if !memo then Verdict(false, scope) else SafeExprs(n, memo, ok, items, scope)
    case PtrType(target) => SafeExpr(n, memo, ok, target, scope)
    case Sizeof(isType, target) => if isType then Verdict(true, scope) else SafeExpr(n, memo, ok, target, scope)
    case MatchExpr(test, arms, default) =>
      var a := SafeExpr(n, memo, ok, test, scope);
      if !a.ok then a else
      var b := SafeArms(n, memo, ok, arms, a.scope);
      if !b.ok then b else SafeStmt(n, memo, ok, default, b.scope)
    case TryExpr(_) => Verdict(false, scope)
    case Asm(_) => Verdict(false, scope)
    case Comptime(_) => Verdict(false, scope)
    case Embed => Verdict(false, scope)
    case Lambda => Verdict(false, scope)
  }

  function SafeExprs(n: Names, memo: bool, ok: nat -> bool, es: seq<Expr>, scope: Scope): Verdict
    decreases es, 0
  {
    if es == [] then Verdict(true, scope) else
    var a := SafeExpr(n, memo, ok, es[0], scope);
    if !a.ok then a else SafeExprs(n, memo, ok, es[1..], a.scope)
  }

  function SafeArms(n: Names, memo: bool, ok: nat -> bool, arms: seq<Arm>, scope: Scope): Verdict
    decreases arms, 0
  {
    if arms == [] then Verdict(true, scope) else
    var a := SafeExprs(n, memo, ok, arms[0].patterns, scope);
    if !a.ok then a else
    var b := SafeExpr(n, memo, ok, arms[0].guard, a.scope);
    if !b.ok then b else
    var c := SafeStmt(n, memo, ok, arms[0].conseq, b.scope);
    if !c.ok then c else SafeArms(n, memo, ok, arms[1..], c.scope)
  }

  function SafeStmts(n: Names, memo: bool, ok: nat -> bool, ss: seq<Stmt>, scope: Scope): Verdict
    decreases ss, 0
  {
    if ss == [] then Verdict(true, scope) else
    var a := SafeStmt(n, memo, ok, ss[0], scope);
    if !a.ok then a else SafeStmts(n, memo, ok, ss[1..], a.scope)
  }

  function SafeStmt(n: Names, memo: bool, ok: nat -> bool, s: Stmt, scope: Scope): Verdict
    decreases s, 1
  {
    match s
    case NoStmt => Verdict(true, scope)
    case Block(body) => Verdict(SafeStmts(n, memo, ok, body, scope).ok, scope)
    case Var(isDecl, names, exprs) =>
      if !isDecl && exists x :: x in names && (x == "" || x !in scope) then Verdict(false, scope) else
      var a := SafeExprs(n, memo, ok, exprs, scope);
      if !a.ok then a else Verdict(true, if isDecl then AddAll(a.scope, names) else a.scope)
    case Eval(value) => SafeExpr(n, memo, ok, value, scope)
    case If(_, test, conseq, alt) =>
      var a := SafeExpr(n, memo, ok, test, scope);
      if !a.ok then a else
      var b := SafeStmt(n, memo, ok, conseq, a.scope);
      if !b.ok then b else SafeStmt(n, memo, ok, alt, b.scope)
    case While(init, test, loop, update) =>
      var a := SafeExpr(n, memo, ok, test, scope);
      if !a.ok then a else
      var b := SafeStmt(n, memo, ok, loop, a.scope);
      if !b.ok then b else
      var c := SafeStmt(n, memo, ok, update, b.scope);
      if !c.ok then c else SafeStmt(n, memo, ok, init, c.scope)
    case For(init, cond, iterable, iterVar, iterIndex, loop, update) =>
      var a := SafeStmt(n, memo, ok, init, scope);
      if !a.ok then a else
      var b := SafeExpr(n, memo, ok, cond, a.scope);
      if !b.ok then b else
      var c := SafeExpr(n, memo, ok, iterable, b.scope);
      if !c.ok then c else
      var inner := Add(Add(c.scope, iterVar), iterIndex);
      var d := SafeStmt(n, memo, ok, loop, inner);
      var u := SafeStmt(n, memo, ok, update, d.scope);
      Verdict(d.ok && u.ok, c.scope)
    case MatchStmt(test, arms, default) =>
      var a := SafeExpr(n, memo, ok, test, scope);
      if !a.ok then a else
      var b := SafeArms(n, memo, ok, arms, a.scope);
      if !b.ok then b else SafeStmt(n, memo, ok, default, b.scope)
    case Guard(value, fallback) =>
      var a := SafeExpr(n, memo, ok, value, scope);
      if !a.ok then a else SafeStmt(n, memo, ok, fallback, a.scope)
    case Jump => Verdict(true, scope)
    case TryStmt(_, _) => Verdict(false, scope)
    case Defer(_) => Verdict(false, scope)
    case Macro(_, _) => Verdict(false, scope)
    case Func(_) => Verdict(false, scope)
    case Methods(_) => Verdict(false, scope)
    case Include => Verdict(false, scope)
    case Opaque => Verdict(false, scope)
    case Declaration => Verdict(false, scope)
  }

  // ------------------------------------------------------------------ effect visitor

  /** Effects collected so far, the analysed callees met, and the scope left behind. */
  datatype Trace = Trace(effects: set<Effect>, callees: set<nat>, scope: Scope)

  /** ny_sig_effects, plus the FFI bit of an unresolved call. */
  function TargetEffects(t: Target, fx: nat -> set<Effect>): set<Effect> {
    match t
    case Unresolved => ALL_EFFECTS
    case Builtin(name) => BuiltinEffects(name)
    case Extern(effects) => effects
    case Std => ALL_EFFECTS
    case Analysed(id) => fx(id)
  }

  function TargetCallees(t: Target): set<nat> {
    if t.Analysed? then {t.id} else {}
  }

  function Then(a: Trace, b: Trace): Trace {
    Trace(a.effects + b.effects, a.callees + b.callees, b.scope)
  }

  function Also(effects: set<Effect>, t: Trace): Trace {
    t.(effects := effects + t.effects)
  }

  function FxExpr(n: Names, fx: nat -> set<Effect>, e: Expr, scope: Scope): Trace
    decreases e, 1
  {
    match e
    case NoExpr => Trace({}, {}, scope)
    case Literal => Trace({}, {}, scope)
    case Ident(_) => Trace({}, {}, scope)
    case Unary(op, right) =>
      Also(if op == "async" || op == "await" then {Thread} else {}, FxExpr(n, fx, right, scope))
    case Binary(left, right) =>
      var a := FxExpr(n, fx, left, scope);
      Then(a, FxExpr(n, fx, right, a.scope))
    case Ternary(cond, yes, no) =>
      var a := FxExpr(n, fx, cond, scope);
      var b := FxExpr(n, fx, yes, a.scope);
      Then(a, Then(b, FxExpr(n, fx, no, b.scope)))
    case Call(callee, args) =>
      var a := FxExpr(n, fx, callee, scope);
      var b := FxExprs(n, fx, args, a.scope);
      var t := ResolveCall(n, callee, |args|, b.scope);
      Then(a, Then(b, Trace(TargetEffects(t, fx), TargetCallees(t), b.scope)))
    case MemCall(target, member, args) =>
      var a := FxExpr(n, fx, target, scope);
      var b := FxExprs(n, fx, args, a.scope);
      var t := ResolveMember(n, target, member, b.scope);
      Then(a, Then(b, Trace(TargetEffects(t, fx), TargetCallees(t), b.scope)))
    case Index(target, start, stop, step) =>
      var a := FxExpr(n, fx, target, scope);
      var b := FxExpr(n, fx, start, a.scope);
      var c := FxExpr(n, fx, stop, b.scope);
      Then(a, Then(b, Then(c, FxExpr(n, fx, step, c.scope))))
    case Member(target) => FxExpr(n, fx, target, scope)
    case Aggregate(items) => Also({Alloc}, FxExprs(n, fx, items, scope))
    case PtrType(target) => FxExpr(n, fx, target, scope)
    case Sizeof(isType, target) => if isType then Trace({}, {}, scope) else FxExpr(n, fx, target, scope)
    case MatchExpr(test, arms, default) =>
      var a := FxExpr(n, fx, test, scope);
      var b := FxArms(n, fx, arms, a.scope);
      Then(a, Then(b, FxStmt(n, fx, default, b.scope)))
    case TryExpr(target) => FxExpr(n, fx, target, scope)
    case Asm(args) => Also({Ffi}, FxExprs(n, fx, args, scope))
    case Comptime(body) => FxStmt(n, fx, body, scope)
    case Embed => Trace({}, {}, scope)
    case Lambda => Trace({Alloc}, {}, scope)
  }

  function FxExprs(n: Names, fx: nat -> set<Effect>, es: seq<Expr>, scope: Scope): Trace
    decreases es, 0
  {
    if es == [] then Trace({}, {}, scope) else
    var a := FxExpr(n, fx, es[0], scope);
    Then(a, FxExprs(n, fx, es[1..], a.scope))
  }

  function FxArms(n: Names, fx: nat -> set<Effect>, arms: seq<Arm>, scope: Scope): Trace
    decreases arms, 0
  {
    if arms == [] then Trace({}, {}, scope) else
    var a := FxExprs(n, fx, arms[0].patterns, scope);
    var b := FxExpr(n, fx, arms[0].guard, a.scope);
    var c := FxStmt(n, fx, arms[0].conseq, b.scope);
    Then(a, Then(b, Then(c, FxArms(n, fx, arms[1..], c.scope))))
  }

  function FxStmts(n: Names, fx: nat -> set<Effect>, ss: seq<Stmt>, scope: Scope): Trace
    decreases ss, 0
  {
    if ss == [] then Trace({}, {}, scope) else
    var a := FxStmt(n, fx, ss[0], scope);
    Then(a, FxStmts(n, fx, ss[1..], a.scope))
  }

  function FxStmt(n: Names, fx: nat -> set<Effect>, s: Stmt, scope: Scope): Trace
    decreases s, 1
  {
    match s
    case NoStmt => Trace({}, {}, scope)
    case Block(body) => FxStmts(n, fx, body, scope).(scope := scope)
    case Var(isDecl, names, exprs) =>
      var a := FxExprs(n, fx, exprs, scope);
      a.(scope := if isDecl then AddAll(a.scope, names) else a.scope)
    case Eval(value) => FxExpr(n, fx, value, scope)
    case If(_, test, conseq, alt) =>
      var a := FxExpr(n, fx, test, scope);
      var b := FxStmt(n, fx, conseq, a.scope);
      Then(a, Then(b, FxStmt(n, fx, alt, b.scope)))
    case While(init, test, loop, update) =>
      var a := FxExpr(n, fx, test, scope);
      var b := FxStmt(n, fx, loop, a.scope);
      var c := FxStmt(n, fx, update, b.scope);
      Then(a, Then(b, Then(c, FxStmt(n, fx, init, c.scope))))
    case For(init, cond, iterable, iterVar, iterIndex, loop, update) =>
      var a := FxStmt(n, fx, init, scope);
      var b := FxExpr(n, fx, cond, a.scope);
      var c := FxExpr(n, fx, iterable, b.scope);
      var d := FxStmt(n, fx, loop, Add(Add(c.scope, iterVar), iterIndex));
      var u := FxStmt(n, fx, update, d.scope);
      Then(a, Then(b, Then(c, Then(d, u)))).(scope := c.scope)
    case MatchStmt(test, arms, default) =>
      var a := FxExpr(n, fx, test, scope);
      var b := FxArms(n, fx, arms, a.scope);
      Then(a, Then(b, FxStmt(n, fx, default, b.scope)))
    case Guard(value, fallback) =>
      var a := FxExpr(n, fx, value, scope);
      Then(a, FxStmt(n, fx, fallback, a.scope))
    case TryStmt(attempt, handler) =>
      var a := FxStmt(n, fx, attempt, scope);
      Then(a, FxStmt(n, fx, handler, a.scope))
    case Defer(deferred) => FxStmt(n, fx, deferred, scope)
    case Macro(args, expansion) =>
      var a := FxExprs(n, fx, args, scope);
      Also(ALL_EFFECTS, Then(a, FxStmt(n, fx, expansion, a.scope)))
    case Func(body) => FxStmt(n, fx, body, scope)
    case Methods(methods) => FxStmts(n, fx, methods, scope)
    case Include => Trace(ALL_EFFECTS, {}, scope)
    case Opaque => Trace({}, {}, scope)
    case Declaration => Trace({}, {}, scope)
    case Jump => Trace({}, {}, scope)
  }

  // ------------------------------------------- effects = local part + callees' part

  /** No callee contributes anything. */
  const SILENT: nat -> set<Effect> := _ => {}

  /** Every callee is acceptable. */
  const ANY: nat -> bool := _ => true

  ghost predicate FromCallee(fx: nat -> set<Effect>, x: Effect, callees: set<nat>) {
    exists g :: g in callees && x in fx(g)
  }

  /** `t` is the trace under `fx`, `local` the one under SILENT. */
  ghost predicate Split(fx: nat -> set<Effect>, x: Effect, t: Trace, local: Trace) {
    && t.callees == local.callees && t.scope == local.scope
    && (x in t.effects <==> x in local.effects || FromCallee(fx, x, t.callees))
  }

  lemma {:induction false} FxSplitExpr(n: Names, fx: nat -> set<Effect>, x: Effect, e: Expr, scope: Scope)
    ensures Split(fx, x, FxExpr(n, fx, e, scope), FxExpr(n, SILENT, e, scope))
    decreases e, 1
  {
    match e
    case NoExpr =>
    case Literal =>
    case Ident(_) =>
    case Unary(_, right) =>
      FxSplitExpr(n, fx, x, right, scope);
    case Binary(left, right) =>
      FxSplitExpr(n, fx, x, left, scope);
      var a := FxExpr(n, fx, left, scope);
      FxSplitExpr(n, fx, x, right, a.scope);
    case Ternary(_, _, _) => FxSplitTernary(n, fx, x, e, scope);
    case Call(_, _) => FxSplitCall(n, fx, x, e, scope);
    case MemCall(_, _, _) => FxSplitMemCall(n, fx, x, e, scope);
    case Index(_, _, _, _) => FxSplitIndex(n, fx, x, e, scope);
    case Member(target) =>
      FxSplitExpr(n, fx, x, target, scope);
    case Aggregate(items) =>
      FxSplitExprs(n, fx, x, items, scope);
    case PtrType(target) =>
      FxSplitExpr(n, fx, x, target, scope);
    case Sizeof(_, target) =>
      FxSplitExpr(n, fx, x, target, scope);
    case MatchExpr(_, _, _) => FxSplitMatchExpr(n, fx, x, e, scope);
    case TryExpr(target) =>
      FxSplitExpr(n, fx, x, target, scope);
    case Asm(args) =>
      FxSplitExprs(n, fx, x, args, scope);
    case Comptime(body) =>
      FxSplitStmt(n, fx, x, body, scope);
    case Embed =>
    case Lambda =>
  }

  lemma {:induction false} FxSplitTernary(n: Names, fx: nat -> set<Effect>, x: Effect, e: Expr, scope: Scope)
    requires e.Ternary?
    ensures Split(fx, x, FxExpr(n, fx, e, scope), FxExpr(n, SILENT, e, scope))
    decreases e, 0
  {
    var Ternary(cond, yes, no) := e;
    FxSplitExpr(n, fx, x, cond, scope);
    var a := FxExpr(n, fx, cond, scope);
    FxSplitExpr(n, fx, x, yes, a.scope);
    var b := FxExpr(n, fx, yes, a.scope);
    FxSplitExpr(n, fx, x, no, b.scope);
  }

  lemma {:induction false} FxSplitCall(n: Names, fx: nat -> set<Effect>, x: Effect, e: Expr, scope: Scope)
    requires e.Call?
    ensures Split(fx, x, FxExpr(n, fx, e, scope), FxExpr(n, SILENT, e, scope))
    decreases e, 0
  {
    var Call(callee, args) := e;
    FxSplitExpr(n, fx, x, callee, scope);
    var a := FxExpr(n, fx, callee, scope);
    FxSplitExprs(n, fx, x, args, a.scope);
  }

  lemma {:induction false} FxSplitMemCall(n: Names, fx: nat -> set<Effect>, x: Effect, e: Expr, scope: Scope)
    requires e.MemCall?
    ensures Split(fx, x, FxExpr(n, fx, e, scope), FxExpr(n, SILENT, e, scope))
    decreases e, 0
  {
    var MemCall(target, _, args) := e;
    FxSplitExpr(n, fx, x, target, scope);
    var a := FxExpr(n, fx, target, scope);
    FxSplitExprs(n, fx, x, args, a.scope);
  }

  lemma {:induction false} FxSplitIndex(n: Names, fx: nat -> set<Effect>, x: Effect, e: Expr, scope: Scope)
    requires e.Index?
    ensures Split(fx, x, FxExpr(n, fx, e, scope), FxExpr(n, SILENT, e, scope))
    decreases e, 0
  {
    var Index(target, start, stop, step) := e;
    FxSplitExpr(n, fx, x, target, scope);
    var a := FxExpr(n, fx, target, scope);
    FxSplitExpr(n, fx, x, start, a.scope);
    var b := FxExpr(n, fx, start, a.scope);
    FxSplitExpr(n, fx, x, stop, b.scope);
    var c := FxExpr(n, fx, stop, b.scope);
    FxSplitExpr(n, fx, x, step, c.scope);
  }

  lemma {:induction false} FxSplitMatchExpr(n: Names, fx: nat -> set<Effect>, x: Effect, e: Expr, scope: Scope)
    requires e.MatchExpr?
    ensures Split(fx, x, FxExpr(n, fx, e, scope), FxExpr(n, SILENT, e, scope))
    decreases e, 0
  {
    var MatchExpr(test, arms, default) := e;
    FxSplitExpr(n, fx, x, test, scope);
    var a := FxExpr(n, fx, test, scope);
    FxSplitArms(n, fx, x, arms, a.scope);
    var b := FxArms(n, fx, arms, a.scope);
    FxSplitStmt(n, fx, x, default, b.scope);
  }

  lemma {:induction false} FxSplitStmt(n: Names, fx: nat -> set<Effect>, x: Effect, s: Stmt, scope: Scope)
    ensures Split(fx, x, FxStmt(n, fx, s, scope), FxStmt(n, SILENT, s, scope))
    decreases s, 1
  {
    match s
    case NoStmt =>
    case Block(body) =>
      FxSplitStmts(n, fx, x, body, scope);
    case Var(_, _, exprs) =>
      FxSplitExprs(n, fx, x, exprs, scope);
    case Eval(value) =>
      FxSplitExpr(n, fx, x, value, scope);
    case If(_, _, _, _) => FxSplitIf(n, fx, x, s, scope);
    case While(_, _, _, _) => FxSplitWhile(n, fx, x, s, scope);
    case For(_, _, _, _, _, _, _) => FxSplitFor(n, fx, x, s, scope);
    case MatchStmt(_, _, _) => FxSplitMatchStmt(n, fx, x, s, scope);
    case Guard(value, fallback) =>
      FxSplitExpr(n, fx, x, value, scope);
      var a := FxExpr(n, fx, value, scope);
      FxSplitStmt(n, fx, x, fallback, a.scope);
    case TryStmt(attempt, handler) =>
      FxSplitStmt(n, fx, x, attempt, scope);
      var a := FxStmt(n, fx, attempt, scope);
      FxSplitStmt(n, fx, x, handler, a.scope);
    case Defer(deferred) =>
      FxSplitStmt(n, fx, x, deferred, scope);
    case Macro(_, _) => FxSplitMacro(n, fx, x, s, scope);
    case Func(body) =>
      FxSplitStmt(n, fx, x, body, scope);
    case Methods(methods) =>
      FxSplitStmts(n, fx, x, methods, scope);
    case Include =>
    case Opaque =>
    case Declaration =>
    case Jump =>
  }

  lemma {:induction false} FxSplitIf(n: Names, fx: nat -> set<Effect>, x: Effect, s: Stmt, scope: Scope)
    requires s.If?
    ensures Split(fx, x, FxStmt(n, fx, s, scope), FxStmt(n, SILENT, s, scope))
    decreases s, 0
  {
    var If(_, test, conseq, alt) := s;
    FxSplitExpr(n, fx, x, test, scope);
    var a := FxExpr(n, fx, test, scope);
    FxSplitStmt(n, fx, x, conseq, a.scope);
    var b := FxStmt(n, fx, conseq, a.scope);
    FxSplitStmt(n, fx, x, alt, b.scope);
  }

  lemma {:induction false} FxSplitWhile(n: Names, fx: nat -> set<Effect>, x: Effect, s: Stmt, scope: Scope)
    requires s.While?
    ensures Split(fx, x, FxStmt(n, fx, s, scope), FxStmt(n, SILENT, s, scope))
    decreases s, 0
  {
    var While(init, test, loop, update) := s;
    FxSplitExpr(n, fx, x, test, scope);
    var a := FxExpr(n, fx, test, scope);
    FxSplitStmt(n, fx, x, loop, a.scope);
    var b := FxStmt(n, fx, loop, a.scope);
    FxSplitStmt(n, fx, x, update, b.scope);
    var c := FxStmt(n, fx, update, b.scope);
    FxSplitStmt(n, fx, x, init, c.scope);
  }

  lemma {:induction false} FxSplitFor(n: Names, fx: nat -> set<Effect>, x: Effect, s: Stmt, scope: Scope)
    requires s.For?
    ensures Split(fx, x, FxStmt(n, fx, s, scope), FxStmt(n, SILENT, s, scope))
    decreases s, 0
  {
    var For(init, cond, iterable, iterVar, iterIndex, loop, update) := s;
    FxSplitStmt(n, fx, x, init, scope);
    var a := FxStmt(n, fx, init, scope);
    FxSplitExpr(n, fx, x, cond, a.scope);
    var b := FxExpr(n, fx, cond, a.scope);
    FxSplitExpr(n, fx, x, iterable, b.scope);
    var c := FxExpr(n, fx, iterable, b.scope);
    FxSplitStmt(n, fx, x, loop, Add(Add(c.scope, iterVar), iterIndex));
    var d := FxStmt(n, fx, loop, Add(Add(c.scope, iterVar), iterIndex));
    FxSplitStmt(n, fx, x, update, d.scope);
  }

  lemma {:induction false} FxSplitMatchStmt(n: Names, fx: nat -> set<Effect>, x: Effect, s: Stmt, scope: Scope)
    requires s.MatchStmt?
    ensures Split(fx, x, FxStmt(n, fx, s, scope), FxStmt(n, SILENT, s, scope))
    decreases s, 0
  {
    var MatchStmt(test, arms, default) := s;
    FxSplitExpr(n, fx, x, test, scope);
    var a := FxExpr(n, fx, test, scope);
    FxSplitArms(n, fx, x, arms, a.scope);
    var b := FxArms(n, fx, arms, a.scope);
    FxSplitStmt(n, fx, x, default, b.scope);
  }

  lemma {:induction false} FxSplitMacro(n: Names, fx: nat -> set<Effect>, x: Effect, s: Stmt, scope: Scope)
    requires s.Macro?
    ensures Split(fx, x, FxStmt(n, fx, s, scope), FxStmt(n, SILENT, s, scope))
    decreases s, 0
  {
    var Macro(args, expansion) := s;
    FxSplitExprs(n, fx, x, args, scope);
    var a := FxExprs(n, fx, args, scope);
    FxSplitStmt(n, fx, x, expansion, a.scope);
  }

  lemma {:induction false} FxSplitExprs(n: Names, fx: nat -> set<Effect>, x: Effect, es: seq<Expr>, scope: Scope)
    ensures Split(fx, x, FxExprs(n, fx, es, scope), FxExprs(n, SILENT, es, scope))
    decreases es, 0
  {
    if es != [] {
      FxSplitExpr(n, fx, x, es[0], scope);
      var a := FxExpr(n, fx, es[0], scope);
      FxSplitExprs(n, fx, x, es[1..], a.scope);
    }
  }

  lemma {:induction false} FxSplitStmts(n: Names, fx: nat -> set<Effect>, x: Effect, ss: seq<Stmt>, scope: Scope)
    ensures Split(fx, x, FxStmts(n, fx, ss, scope), FxStmts(n, SILENT, ss, scope))
    decreases ss, 0
  {
    if ss != [] {
      FxSplitStmt(n, fx, x, ss[0], scope);
      var a := FxStmt(n, fx, ss[0], scope);
      FxSplitStmts(n, fx, x, ss[1..], a.scope);
    }
  }

  lemma {:induction false} FxSplitArms(n: Names, fx: nat -> set<Effect>, x: Effect, arms: seq<Arm>, scope: Scope)
    ensures Split(fx, x, FxArms(n, fx, arms, scope), FxArms(n, SILENT, arms, scope))
    decreases arms, 0
  {
    if arms != [] {
      FxSplitExprs(n, fx, x, arms[0].patterns, scope);
      var a := FxExprs(n, fx, arms[0].patterns, scope);
      FxSplitExpr(n, fx, x, arms[0].guard, a.scope);
      var b := FxExpr(n, fx, arms[0].guard, a.scope);
      FxSplitStmt(n, fx, x, arms[0].conseq, b.scope);
      var c := FxStmt(n, fx, arms[0].conseq, b.scope);
      FxSplitArms(n, fx, x, arms[1..], c.scope);
    }
  }

  // ------------------------------- purity = local part + callees', and no effect of its own

  /** `v` is the verdict under `ok`, `any` the one that accepts every callee, `t` the effect trace.
      A body the strict check accepts shows no effect of its own. */
  ghost predicate Agrees(memo: bool, ok: nat -> bool, v: Verdict, any: Verdict, t: Trace) {
    && (v.ok <==> any.ok && forall g :: g in t.callees ==> ok(g))
    && (any.ok ==> any.scope == t.scope && (memo || t.effects == {}))
    && (v.ok ==> v.scope == t.scope)
  }

  lemma {:induction false} SafeSplitExpr(n: Names, memo: bool, ok: nat -> bool, e: Expr, scope: Scope)
    ensures Agrees(memo, ok, SafeExpr(n, memo, ok, e, scope), SafeExpr(n, memo, ANY, e, scope),
                   FxExpr(n, SILENT, e, scope))
    decreases e, 1
  {
    match e
    case NoExpr =>
    case Literal =>
    case Ident(_) =>
    case Unary(_, right) =>
      SafeSplitExpr(n, memo, ok, right, scope);
    case Binary(left, right) =>
      SafeSplitExpr(n, memo, ok, left, scope);
      var a := FxExpr(n, SILENT, left, scope);
      SafeSplitExpr(n, memo, ok, right, a.scope);
    case Ternary(_, _, _) => SafeSplitTernary(n, memo, ok, e, scope);
    case Call(_, _) => SafeSplitCall(n, memo, ok, e, scope);
    case MemCall(_, _, _) => SafeSplitMemCall(n, memo, ok, e, scope);
    case Index(_, _, _, _) => SafeSplitIndex(n, memo, ok, e, scope);
    case Member(target) =>
      SafeSplitExpr(n, memo, ok, target, scope);
    case Aggregate(items) =>
      SafeSplitExprs(n, memo, ok, items, scope);
    case PtrType(target) =>
      SafeSplitExpr(n, memo, ok, target, scope);
    case Sizeof(_, target) =>
      SafeSplitExpr(n, memo, ok, target, scope);
    case MatchExpr(_, _, _) => SafeSplitMatchExpr(n, memo, ok, e, scope);
    case TryExpr(_) =>
    case Asm(_) =>
    case Comptime(_) =>
    case Embed =>
    case Lambda =>
  }

  lemma {:induction false} SafeSplitTernary(n: Names, memo: bool, ok: nat -> bool, e: Expr, scope: Scope)
    requires e.Ternary?
    ensures Agrees(memo, ok, SafeExpr(n, memo, ok, e, scope), SafeExpr(n, memo, ANY, e, scope),
                   FxExpr(n, SILENT, e, scope))
    decreases e, 0
  {
    var Ternary(cond, yes, no) := e;
    SafeSplitExpr(n, memo, ok, cond, scope);
    var a := FxExpr(n, SILENT, cond, scope);
    SafeSplitExpr(n, memo, ok, yes, a.scope);
    var b := FxExpr(n, SILENT, yes, a.scope);
    SafeSplitExpr(n, memo, ok, no, b.scope);
  }

  lemma {:induction false} SafeSplitCall(n: Names, memo: bool, ok: nat -> bool, e: Expr, scope: Scope)
    requires e.Call?
    ensures Agrees(memo, ok, SafeExpr(n, memo, ok, e, scope), SafeExpr(n, memo, ANY, e, scope),
                   FxExpr(n, SILENT, e, scope))
    decreases e, 0
  {
    var Call(callee, args) := e;
    SafeSplitExpr(n, memo, ok, callee, scope);
    var a := FxExpr(n, SILENT, callee, scope);
    SafeSplitExprs(n, memo, ok, args, a.scope);
  }

  lemma {:induction false} SafeSplitMemCall(n: Names, memo: bool, ok: nat -> bool, e: Expr, scope: Scope)
    requires e.MemCall?
    ensures Agrees(memo, ok, SafeExpr(n, memo, ok, e, scope), SafeExpr(n, memo, ANY, e, scope),
                   FxExpr(n, SILENT, e, scope))
    decreases e, 0
  {
    var MemCall(target, _, args) := e;
    SafeSplitExpr(n, memo, ok, target, scope);
    var a := FxExpr(n, SILENT, target, scope);
    SafeSplitExprs(n, memo, ok, args, a.scope);
  }

  lemma {:induction false} SafeSplitIndex(n: Names, memo: bool, ok: nat -> bool, e: Expr, scope: Scope)
    requires e.Index?
    ensures Agrees(memo, ok, SafeExpr(n, memo, ok, e, scope), SafeExpr(n, memo, ANY, e, scope),
                   FxExpr(n, SILENT, e, scope))
    decreases e, 0
  {
    var Index(target, start, stop, step) := e;
    SafeSplitExpr(n, memo, ok, target, scope);
    var a := FxExpr(n, SILENT, target, scope);
    SafeSplitExpr(n, memo, ok, start, a.scope);
    var b := FxExpr(n, SILENT, start, a.scope);
    SafeSplitExpr(n, memo, ok, stop, b.scope);
    var c := FxExpr(n, SILENT, stop, b.scope);
    SafeSplitExpr(n, memo, ok, step, c.scope);
  }

  lemma {:induction false} SafeSplitMatchExpr(n: Names, memo: bool, ok: nat -> bool, e: Expr, scope: Scope)
    requires e.MatchExpr?
    ensures Agrees(memo, ok, SafeExpr(n, memo, ok, e, scope), SafeExpr(n, memo, ANY, e, scope),
                   FxExpr(n, SILENT, e, scope))
    decreases e, 0
  {
    var MatchExpr(test, arms, default) := e;
    SafeSplitExpr(n, memo, ok, test, scope);
    var a := FxExpr(n, SILENT, test, scope);
    SafeSplitArms(n, memo, ok, arms, a.scope);
    var b := FxArms(n, SILENT, arms, a.scope);
    SafeSplitStmt(n, memo, ok, default, b.scope);
  }

  lemma {:induction false} SafeSplitStmt(n: Names, memo: bool, ok: nat -> bool, s: Stmt, scope: Scope)
    ensures Agrees(memo, ok, SafeStmt(n, memo, ok, s, scope), SafeStmt(n, memo, ANY, s, scope),
                   FxStmt(n, SILENT, s, scope))
    decreases s, 1
  {
    match s
    case NoStmt =>
    case Block(body) =>
      SafeSplitStmts(n, memo, ok, body, scope);
    case Var(_, _, exprs) =>
      SafeSplitExprs(n, memo, ok, exprs, scope);
    case Eval(value) =>
      SafeSplitExpr(n, memo, ok, value, scope);
    case If(_, _, _, _) => SafeSplitIf(n, memo, ok, s, scope);
    case While(_, _, _, _) => SafeSplitWhile(n, memo, ok, s, scope);
    case For(_, _, _, _, _, _, _) => SafeSplitFor(n, memo, ok, s, scope);
    case MatchStmt(_, _, _) => SafeSplitMatchStmt(n, memo, ok, s, scope);
    case Guard(value, fallback) =>
      SafeSplitExpr(n, memo, ok, value, scope);
      var a := FxExpr(n, SILENT, value, scope);
      SafeSplitStmt(n, memo, ok, fallback, a.scope);
    case TryStmt(_, _) =>
    case Defer(_) =>
    case Macro(_, _) =>
    case Func(_) =>
    case Methods(_) =>
    case Include =>
    case Opaque =>
    case Declaration =>
    case Jump =>
  }

  lemma {:induction false} SafeSplitIf(n: Names, memo: bool, ok: nat -> bool, s: Stmt, scope: Scope)
    requires s.If?
    ensures Agrees(memo, ok, SafeStmt(n, memo, ok, s, scope), SafeStmt(n, memo, ANY, s, scope),
                   FxStmt(n, SILENT, s, scope))
    decreases s, 0
  {
    var If(_, test, conseq, alt) := s;
    SafeSplitExpr(n, memo, ok, test, scope);
    var a := FxExpr(n, SILENT, test, scope);
    SafeSplitStmt(n, memo, ok, conseq, a.scope);
    var b := FxStmt(n, SILENT, conseq, a.scope);
    SafeSplitStmt(n, memo, ok, alt, b.scope);
  }

  lemma {:induction false} SafeSplitWhile(n: Names, memo: bool, ok: nat -> bool, s: Stmt, scope: Scope)
    requires s.While?
    ensures Agrees(memo, ok, SafeStmt(n, memo, ok, s, scope), SafeStmt(n, memo, ANY, s, scope),
                   FxStmt(n, SILENT, s, scope))
    decreases s, 0
  {
    var While(init, test, loop, update) := s;
    SafeSplitExpr(n, memo, ok, test, scope);
    var a := FxExpr(n, SILENT, test, scope);
    SafeSplitStmt(n, memo, ok, loop, a.scope);
    var b := FxStmt(n, SILENT, loop, a.scope);
    SafeSplitStmt(n, memo, ok, update, b.scope);
    var c := FxStmt(n, SILENT, update, b.scope);
    SafeSplitStmt(n, memo, ok, init, c.scope);
  }

  lemma {:induction false} SafeSplitFor(n: Names, memo: bool, ok: nat -> bool, s: Stmt, scope: Scope)
    requires s.For?
    ensures Agrees(memo, ok, SafeStmt(n, memo, ok, s, scope), SafeStmt(n, memo, ANY, s, scope),
                   FxStmt(n, SILENT, s, scope))
    decreases s, 0
  {
    var For(init, cond, iterable, iterVar, iterIndex, loop, update) := s;
    SafeSplitStmt(n, memo, ok, init, scope);
    var a := FxStmt(n, SILENT, init, scope);
    SafeSplitExpr(n, memo, ok, cond, a.scope);
    var b := FxExpr(n, SILENT, cond, a.scope);
    SafeSplitExpr(n, memo, ok, iterable, b.scope);
    var c := FxExpr(n, SILENT, iterable, b.scope);
    SafeSplitStmt(n, memo, ok, loop, Add(Add(c.scope, iterVar), iterIndex));
    var d := FxStmt(n, SILENT, loop, Add(Add(c.scope, iterVar), iterIndex));
    SafeSplitStmt(n, memo, ok, update, d.scope);
  }

  lemma {:induction false} SafeSplitMatchStmt(n: Names, memo: bool, ok: nat -> bool, s: Stmt, scope: Scope)
    requires s.MatchStmt?
    ensures Agrees(memo, ok, SafeStmt(n, memo, ok, s, scope), SafeStmt(n, memo, ANY, s, scope),
                   FxStmt(n, SILENT, s, scope))
    decreases s, 0
  {
    var MatchStmt(test, arms, default) := s;
    SafeSplitExpr(n, memo, ok, test, scope);
    var a := FxExpr(n, SILENT, test, scope);
    SafeSplitArms(n, memo, ok, arms, a.scope);
    var b := FxArms(n, SILENT, arms, a.scope);
    SafeSplitStmt(n, memo, ok, default, b.scope);
  }

  lemma {:induction false} SafeSplitExprs(n: Names, memo: bool, ok: nat -> bool, es: seq<Expr>, scope: Scope)
    ensures Agrees(memo, ok, SafeExprs(n, memo, ok, es, scope), SafeExprs(n, memo, ANY, es, scope),
                   FxExprs(n, SILENT, es, scope))
    decreases es, 0
  {
    if es != [] {
      SafeSplitExpr(n, memo, ok, es[0], scope);
      var a := FxExpr(n, SILENT, es[0], scope);
      SafeSplitExprs(n, memo, ok, es[1..], a.scope);
    }
  }

  lemma {:induction false} SafeSplitStmts(n: Names, memo: bool, ok: nat -> bool, ss: seq<Stmt>, scope: Scope)
    ensures Agrees(memo, ok, SafeStmts(n, memo, ok, ss, scope), SafeStmts(n, memo, ANY, ss, scope),
                   FxStmts(n, SILENT, ss, scope))
    decreases ss, 0
  {
    if ss != [] {
      SafeSplitStmt(n, memo, ok, ss[0], scope);
      var a := FxStmt(n, SILENT, ss[0], scope);
      SafeSplitStmts(n, memo, ok, ss[1..], a.scope);
    }
  }

  lemma {:induction false} SafeSplitArms(n: Names, memo: bool, ok: nat -> bool, arms: seq<Arm>, scope: Scope)
    ensures Agrees(memo, ok, SafeArms(n, memo, ok, arms, scope), SafeArms(n, memo, ANY, arms, scope),
                   FxArms(n, SILENT, arms, scope))
    decreases arms, 0
  {
    if arms != [] {
      SafeSplitExprs(n, memo, ok, arms[0].patterns, scope);
      var a := FxExprs(n, SILENT, arms[0].patterns, scope);
      SafeSplitExpr(n, memo, ok, arms[0].guard, a.scope);
      var b := FxExpr(n, SILENT, arms[0].guard, a.scope);
      SafeSplitStmt(n, memo, ok, arms[0].conseq, b.scope);
      var c := FxStmt(n, SILENT, arms[0].conseq, b.scope);
      SafeSplitArms(n, memo, ok, arms[1..], c.scope);
    }
  }
}
