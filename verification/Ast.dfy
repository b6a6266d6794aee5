/** The statement and expression shapes the purity and effect walks tell apart.
    A null child pointer is NoExpr or NoStmt; a null or empty name is "". */
module Ast {

  datatype Expr =
    | NoExpr
    | Literal
    | Ident(name: string)
    | Unary(op: string, right: Expr)
    | Binary(left: Expr, right: Expr)                        // binary and logical operators
    | Ternary(cond: Expr, yes: Expr, no: Expr)
    | Call(callee: Expr, args: seq<Expr>)
    | MemCall(target: Expr, member: string, args: seq<Expr>)
    | Index(target: Expr, start: Expr, stop: Expr, step: Expr)
    | Member(target: Expr)                                   // member access and dereference
    | Aggregate(items: seq<Expr>)                            // list, tuple, set, dict, f-string
    | PtrType(target: Expr)
    | Sizeof(isType: bool, target: Expr)
    | MatchExpr(test: Expr, arms: seq<Arm>, default: Stmt)
    | TryExpr(target: Expr)
    | Asm(args: seq<Expr>)
    | Comptime(body: Stmt)
    | Embed                                                  // embed and inferred member
    | Lambda                                                 // lambda and fn: never entered

  datatype Arm = Arm(patterns: seq<Expr>, guard: Expr, conseq: Stmt)

  datatype Stmt =
    | NoStmt
    | Block(body: seq<Stmt>)
    | Var(isDecl: bool, names: seq<string>, exprs: seq<Expr>)
    | Eval(value: Expr)                                      // expression statement and return
    | If(ifInit: Stmt, test: Expr, conseq: Stmt, alt: Stmt)
    | While(whileInit: Stmt, test: Expr, loop: Stmt, update: Stmt)
    | For(forInit: Stmt, cond: Expr, iterable: Expr, iterVar: string, iterIndex: string, loop: Stmt, update: Stmt)
    | MatchStmt(test: Expr, arms: seq<Arm>, default: Stmt)
    | Guard(value: Expr, fallback: Stmt)
    | TryStmt(attempt: Stmt, handler: Stmt)
    | Defer(deferred: Stmt)
    | Macro(margs: seq<Expr>, expansion: Stmt)
    | Func(fbody: Stmt)
    | Methods(methods: seq<Stmt>)                            // layout and struct
    | Include
    | Opaque                                                 // impl and operator: never entered
    | Declaration                                            // extern, module, use, export, enum, ...
    | Jump                                                   // break and continue

  datatype Effect = Io | Alloc | Ffi | Thread

  const ALL_EFFECTS: set<Effect> := {Io, Alloc, Ffi, Thread}

  /** What a call site resolves to. */
  datatype Target =
    | Unresolved
    | Builtin(name: string)
    | Extern(effects: set<Effect>)
    | Std                                                    // std.* and lib.*: not analysed
    | Analysed(id: nat)

  /** Name resolution is given; the walks only consult it. */
  datatype Names = Names(isValue: string -> bool, call: (string, nat) -> Target, member: (string, string) -> Target)

  type Scope = set<string>

  function Add(scope: Scope, name: string): Scope {
    if name == "" then scope else scope + {name}
  }

  function AddAll(scope: Scope, names: seq<string>): Scope
    decreases |names|
  {
    if names == [] then scope else AddAll(Add(scope, names[0]), names[1..])
  }

  /** ny_purity_resolve_call_sig. */
  function ResolveCall(n: Names, callee: Expr, argc: nat, scope: Scope): Target {
    if callee.Ident? && callee.name != "" && callee.name !in scope
    then n.call(callee.name, argc) else Unresolved
  }

  /** ny_purity_resolve_memcall_sig. */
  function ResolveMember(n: Names, target: Expr, member: string, scope: Scope): Target {
    if target.Ident? && target.name != "" && target.name !in scope
    then n.member(target.name, member) else Unresolved
  }
}
