/** The evaluator of C integer constant expressions in src/code/fficlang.c
    (ny_ffi_expr_* and ny_ffi_parse_integer_expr), against concrete syntax trees. */
module FfiExpr {
  import opened Int64
  import opened Common

  // --------------------------------------------------------------------- characters

  predicate IsSpace(c: char) {
    c == ' ' || '\t' <= c <= '\r'
  }

  predicate IsDigit(c: char) {
    '0' <= c <= '9'
  }

  predicate IsAlpha(c: char) {
    'a' <= c <= 'z' || 'A' <= c <= 'Z'
  }

  predicate IsNameChar(c: char) {
    IsAlpha(c) || IsDigit(c) || c == '_'
  }

  predicate IsTokenChar(c: char) {
    IsNameChar(c) || c == '\''
  }

  predicate Blank(s: string) {
    forall i :: 0 <= i < |s| ==> IsSpace(s[i])
  }

  /** ny_ffi_expr_ws. */
  function Skip(s: string): (r: string)
    ensures |r| <= |s| && (r != [] ==> !IsSpace(r[0]))
  {
    if s != [] && IsSpace(s[0]) then Skip(s[1..]) else s
  }

  /** Length of the longest prefix of name, respectively token, characters. */
  function Run(s: string, token: bool): (n: nat)
    ensures n <= |s|
    ensures forall i :: 0 <= i < n ==> if token then IsTokenChar(s[i]) else IsNameChar(s[i])
    ensures n < |s| ==> if token then !IsTokenChar(s[n]) else !IsNameChar(s[n])
  {
    if s != [] && (if token then IsTokenChar(s[0]) else IsNameChar(s[0])) then 1 + Run(s[1..], token) else 0
  }

  // ----------------------------------------------------------------------- literals

  function Digit(c: char): nat {
    if IsDigit(c) then (c - '0') as nat
    else if 'a' <= c <= 'z' then (c - 'a') as nat + 10
    else if 'A' <= c <= 'Z' then (c - 'A') as nat + 10
    else 99
  }

  /** All of `s` read in base `base`, after `acc`; None at a character that is no digit. */
  function Digits(s: string, base: nat, acc: nat): Option<nat> {
    if s == [] then Some(acc)
    else if Digit(s[0]) >= base then None
    else Digits(s[1..], base, acc * base + Digit(s[0]))
  }

  /** strtoll with base 0 on an unsigned numeral that must be consumed entirely. */
  function StrToLL(s: string): Option<I64> {
    var value :=
      if |s| > 2 && s[0] == '0' && (s[1] == 'x' || s[1] == 'X') then Digits(s[2..], 16, 0)
      else if s != [] && s[0] == '0' then Digits(s, 8, 0)
      else if s != [] then Digits(s, 10, 0)
      else None;
    if value.None? then None else Some(if value.value < TWO63 then value.value else TWO63 - 1)
  }

  function WithoutSeparators(s: string): string {
    if s == [] then []
    else if s[0] == '\'' || s[0] == '_' then WithoutSeparators(s[1..])
    else [s[0]] + WithoutSeparators(s[1..])
  }

  function WithoutSuffix(s: string): string {
    if s != [] && s[|s| - 1] in {'u', 'U', 'l', 'L'} then WithoutSuffix(s[..|s| - 1]) else s
  }

  /** ny_ffi_parse_integer_literal of a token. */
  function LiteralValue(token: string): Option<I64> {
    StrToLL(WithoutSuffix(WithoutSeparators(token)))
  }

  // ---------------------------------------------------------------------- operators

  datatype Op = Or | Xor | And | Shl | Shr | Add | Sub | Mul | Div | Mod

  datatype Sign = Plus | Minus | Tilde

  /** Precedence, loosest first; level 6 is a unary expression. */
  const UNARY: nat := 6

  function LevelOf(op: Op): (l: nat)
    ensures l < UNARY
  {
    match op
    case Or => 0
    case Xor => 1
    case And => 2
    case Shl => 3
    case Shr => 3
    case Add => 4
    case Sub => 4
    case Mul => 5
    case Div => 5
    case Mod => 5
  }

  function Symbol(op: Op): (s: string)
    ensures 1 <= |s| <= 2
  {
    match op
    case Or => "|"
    case Xor => "^"
    case And => "&"
    case Shl => "<<"
    case Shr => ">>"
    case Add => "+"
    case Sub => "-"
    case Mul => "*"
    case Div => "/"
    case Mod => "%"
  }

  function SignChar(sign: Sign): char {
    match sign
    case Plus => '+'
    case Minus => '-'
    case Tilde => '~'
  }

  function Wrap(i: int): I64 {
    Signed(ToWord(i))
  }

  /** None: division by zero or a shift count outside 0..62. */
  function Apply(op: Op, a: I64, b: I64): Option<I64> {
    match op
    case Or => Some(Wrap(a + b - BitAnd(a, b)))
    case Xor => Some(Wrap(a + b - 2 * BitAnd(a, b)))
    case And => Some(Wrap(BitAnd(a, b)))
    case Shl => if b < 0 || b >= 63 then None else Some(Wrap(a * Pow2(b)))
    case Shr => if b < 0 || b >= 63 then None else Some(Wrap(a / Pow2(b)))
    case Add => Some(Wrap(a + b))
    case Sub => Some(Wrap(a - b))
    case Mul => Some(Wrap(a * b))
    case Div => if b == 0 then None else Some(Wrap(TruncDiv(a, b)))
    case Mod => if b == 0 then None else Some(Wrap(TruncRem(a, b)))
  }

  function ApplySign(sign: Sign, a: I64): I64 {
    var i: int := a;
    match sign
    case Plus => a
    case Minus => Wrap(-i)
    case Tilde => Wrap(-i - 1)
  }

  // ------------------------------------------------------------------------- parser

  type Lookup = string -> Option<I64>

  /** What the parser computes with while it reads; it never depends on which. */
  datatype Semantics = Semantics(name: Lookup, literal: string -> Option<I64>,
                                 sign: (Sign, I64) -> I64, apply: (Op, I64, I64) -> Option<I64>)

  /** The evaluator's own arithmetic, `look` being the constants known so far. */
  function Arithmetic(look: Lookup): Semantics {
    Semantics(look, (t: string) => LiteralValue(t), (g: Sign, a: I64) => ApplySign(g, a),
              (op: Op, a: I64, b: I64) => Apply(op, a, b))
  }

  datatype Result = Fail | Ok(v: I64, rest: string)

  predicate Starts(s: string, c: char) {
    s != [] && s[0] == c
  }

  predicate StartsTwice(s: string, c: char) {
    |s| > 1 && s[0] == c && s[1] == c
  }

  /** The operator of `level` that `s` starts with, tried in the order of the source. */
  function OpAt(level: nat, s: string): Option<Op> {
    match level
    case 0 => if Starts(s, '|') then Some(Or) else None
    case 1 => if Starts(s, '^') then Some(Xor) else None
    case 2 => if Starts(s, '&') then Some(And) else None
    case 3 => if StartsTwice(s, '<') then Some(Shl) else if StartsTwice(s, '>') then Some(Shr) else None
    case 4 => if Starts(s, '+') then Some(Add) else if Starts(s, '-') then Some(Sub) else None
    case 5 => if Starts(s, '*') then Some(Mul)
              else if Starts(s, '/') then Some(Div) else if Starts(s, '%') then Some(Mod) else None
    case _ => None
  }

  /** The binary levels: an operand of the next level, then the operator loop. */
  function Parse(c: Semantics, level: nat, s: string): (r: Result)
    requires level <= UNARY
    ensures r.Ok? ==> |r.rest| < |s|
    decreases |s|, 3 + UNARY - level
  {
    if level == UNARY then ParseUnary(c, s)
    else
      var first := Parse(c, level + 1, s);
      if first.Fail? then Fail else ParseLoop(c, level, first.v, first.rest)
  }

  function ParseLoop(c: Semantics, level: nat, v: I64, s: string): (r: Result)
    requires level < UNARY
    ensures r.Ok? ==> |r.rest| <= |s|
    decreases |s|, 0
  {
    var t := Skip(s);
    var op := OpAt(level, t);
    if op.None? then Ok(v, t)
    else
      OpAtSymbol(level, t);
      var right := Parse(c, level + 1, t[|Symbol(op.value)|..]);
      if right.Fail? then Fail
      else
        var w := c.apply(op.value, v, right.v);
        if w.None? then Fail else ParseLoop(c, level, w.value, right.rest)
  }

  /** ny_ffi_expr_unary. */
  function ParseUnary(c: Semantics, s: string): (r: Result)
    ensures r.Ok? ==> |r.rest| < |s|
    decreases |s|, 2
  {
    var t := Skip(s);
    if t == [] then Fail
    else if t[0] == '+' || t[0] == '-' || t[0] == '~' then
      var r := ParseUnary(c, t[1..]);
      if r.Fail? then Fail
      else Ok(c.sign(if t[0] == '+' then Plus else if t[0] == '-' then Minus else Tilde, r.v), r.rest)
    else ParsePrimary(c, t)
  }

  /** ny_ffi_expr_primary on text without leading space or sign. */
  function ParsePrimary(c: Semantics, s: string): (r: Result)
    requires s != []
    ensures r.Ok? ==> |r.rest| < |s|
    decreases |s|, 1
  {
    if s[0] == '(' then
      var inner := Parse(c, 0, s[1..]);
      if inner.Fail? then Fail
      else
        var t := Skip(inner.rest);
        if t == [] || t[0] != ')' then Fail else Ok(inner.v, t[1..])
    else if IsDigit(s[0]) then
      var n := Run(s, true);
      if n >= 128 then Fail
      else
        var v := c.literal(s[..n]);
        if v.None? then Fail else Ok(v.value, s[n..])
    else if IsAlpha(s[0]) || s[0] == '_' then
      var n := Run(s, false);
      if n >= 128 then Fail
      else
        var v := c.name(s[..n]);
        if v.None? then Fail else Ok(v.value, s[n..])
    else Fail
  }

  lemma OpAtSymbol(level: nat, s: string)
    ensures OpAt(level, s).Some? ==> Symbol(OpAt(level, s).value) <= s && LevelOf(OpAt(level, s).value) == level
  {
  }

  /** ny_ffi_parse_integer_expr. */
  function ParseText(c: Semantics, s: string): Option<I64> {
    var r := Parse(c, 0, s);
    if r.Fail? || Skip(r.rest) != [] then None else Some(r.v)
  }

  // ------------------------------------------------------------------------- trees

  /** Concrete syntax: every token with the space before it, parentheses kept. */
  datatype Tree =
    | Num(gap: string, token: string)
    | Name(gap: string, id: string)
    | Paren(gap: string, inner: Tree, closing: string)
    | Un(gap: string, sign: Sign, operand: Tree)
    | Bin(op: Op, left: Tree, gap: string, right: Tree)
  {
    function Text(): string {
      match this
      case Num(gap, token) => gap + token
      case Name(gap, id) => gap + id
      case Paren(gap, inner, closing) => gap + "(" + inner.Text() + closing + ")"
      case Un(gap, sign, operand) => gap + [SignChar(sign)] + operand.Text()
      case Bin(op, left, gap, right) => left.Text() + gap + Symbol(op) + right.Text()
    }

    function Level(): nat {
      if Bin? then LevelOf(op) else UNARY
    }

    /** The grammar: operands bind tighter than their operator, left to right. */
    predicate WellFormed() {
      match this
      case Num(gap, token) => Blank(gap) && 0 < |token| < 128 && IsDigit(token[0]) && Run(token, true) == |token|
      case Name(gap, id) => Blank(gap) && 0 < |id| < 128 && (IsAlpha(id[0]) || id[0] == '_') && Run(id, false) == |id|
      case Paren(gap, inner, closing) => Blank(gap) && Blank(closing) && inner.WellFormed()
      case Un(gap, _, operand) => Blank(gap) && operand.WellFormed() && operand.Level() == UNARY
      case Bin(op, left, gap, right) =>
        Blank(gap) && left.WellFormed() && right.WellFormed()
        && left.Level() >= LevelOf(op) && right.Level() > LevelOf(op)
    }

    function Eval(c: Semantics): Option<I64> {
      match this
      case Num(_, token) => c.literal(token)
      case Name(_, id) => c.name(id)
      case Paren(_, inner, _) => inner.Eval(c)
      case Un(_, sign, operand) =>
        var a := operand.Eval(c);
        if a.None? then None else Some(c.sign(sign, a.value))
      case Bin(op, left, _, right) =>
        var a, b := left.Eval(c), right.Eval(c);
        if a.None? || b.None? then None else c.apply(op, a.value, b.value)
    }
  }

  // ------------------------------------------------------ parsing the text of a tree

  lemma {:induction false} SkipGap(gap: string, s: string)
    requires Blank(gap)
    ensures Skip(gap + s) == Skip(s)
    decreases |gap|
  {
    if gap != [] {
      assert (gap + s)[1..] == gap[1..] + s;
      SkipGap(gap[1..], s);
    } else {
      assert gap + s == s;
    }
  }

  lemma SkipSkip(s: string)
    ensures Skip(Skip(s)) == Skip(s)
  {
  }

  lemma {:induction false} RunStops(token: string, s: string, kind: bool)
    requires Run(token, kind) == |token|
    requires s == [] || (if kind then !IsTokenChar(s[0]) else !IsNameChar(s[0]))
    ensures Run(token + s, kind) == |token|
    decreases |token|
  {
    if token != [] {
      assert (token + s)[1..] == token[1..] + s;
      RunStops(token[1..], s, kind);
    } else {
      assert token + s == s;
    }
  }

  /** `rest` does not continue an expression of `level` or tighter, nor a token. */
  ghost predicate Ends(level: nat, rest: string) {
    && (rest != [] ==> !IsTokenChar(rest[0]))
    && forall l :: level <= l < UNARY ==> OpAt(l, Skip(rest)).None?
  }

  /** What the parser answers on a value, or fails. */
  function Answer(v: Option<I64>, rest: string): Result {
    if v.None? then Fail else Ok(v.value, rest)
  }

  lemma SymbolHead(op: Op, s: string)
    ensures var u := Symbol(op) + s;
            && u[0] == Symbol(op)[0] && !IsTokenChar(u[0]) && !IsSpace(u[0])
            && OpAt(LevelOf(op), u) == Some(op) && (forall l :: LevelOf(op) < l < UNARY ==> OpAt(l, u).None?)
  {
    assert (Symbol(op) + s)[0] == Symbol(op)[0];
  }

  /** An operator after a gap, as the operator loops see it. */
  lemma SymbolStarts(op: Op, gap: string, s: string)
    requires Blank(gap)
    ensures var t, u := gap + Symbol(op) + s, Symbol(op) + s;
            Skip(t) == u && Skip(u) == u && OpAt(LevelOf(op), u) == Some(op) && Ends(LevelOf(op) + 1, t)
  {
    var u := Symbol(op) + s;
    assert gap + Symbol(op) + s == gap + u;
    SkipGap(gap, u);
    SymbolHead(op, s);
    assert (gap + u)[0] == if gap == [] then u[0] else gap[0];
  }

  lemma LoopSkips(c: Semantics, level: nat, v: I64, s: string)
    requires level < UNARY
    ensures ParseLoop(c, level, v, Skip(s)) == ParseLoop(c, level, v, s)
  {
    SkipSkip(s);
  }

  lemma EndsTighter(level: nat, rest: string)
    requires Ends(level, rest)
    ensures Ends(level + 1, rest)
  {
  }

  /** After the text of a tree the operator loop goes on with the tree's value. */
  lemma {:induction false} SpineParse(c: Semantics, tree: Tree, level: nat, rest: string)
    requires tree.WellFormed() && level < UNARY && tree.Level() >= level && Ends(level + 1, rest)
    ensures Parse(c, level, tree.Text() + rest) ==
            if tree.Eval(c).None? then Fail else ParseLoop(c, level, tree.Eval(c).value, rest)
    decreases tree, UNARY - level, 0
  {
    if tree.Level() > level {
      TreeParse(c, tree, level + 1, rest);
      if tree.Eval(c).Some? {
        LoopSkips(c, level, tree.Eval(c).value, rest);
      }
    } else {
      BinParse(c, tree.op, tree.left, tree.gap, tree.right, rest);
    }
  }

  lemma {:induction false} BinParse(c: Semantics, op: Op, left: Tree, gap: string, right: Tree, rest: string)
    requires left.WellFormed() && right.WellFormed() && Blank(gap) && Ends(LevelOf(op) + 1, rest)
    requires left.Level() >= LevelOf(op) && right.Level() > LevelOf(op)
    ensures Parse(c, LevelOf(op), left.Text() + gap + Symbol(op) + right.Text() + rest) ==
            var v := Combine(c, op, left.Eval(c), right.Eval(c));
            if v.None? then Fail else ParseLoop(c, LevelOf(op), v.value, rest)
    decreases Bin(op, left, gap, right), 0, 0
  {
    var s := right.Text() + rest;
    SymbolStarts(op, gap, s);
    SpineParse(c, left, LevelOf(op), gap + Symbol(op) + s);
    TreeParse(c, right, LevelOf(op) + 1, rest);
    BinTexts(c, op, left.Text(), gap, right.Text(), rest, left.Eval(c), right.Eval(c));
  }

  /** The value of an operation whose operands have these values. */
  function Combine(c: Semantics, op: Op, a: Option<I64>, b: Option<I64>): Option<I64> {
    if a.None? || b.None? then None else c.apply(op, a.value, b.value)
  }

  lemma BinTexts(c: Semantics, op: Op, left: string, gap: string, right: string, rest: string, a: Option<I64>,
                 b: Option<I64>)
    requires Blank(gap)
    requires var after := gap + Symbol(op) + (right + rest);
             Parse(c, LevelOf(op), left + after) == if a.None? then Fail else ParseLoop(c, LevelOf(op), a.value, after)
    requires Parse(c, LevelOf(op) + 1, right + rest) == Answer(b, if LevelOf(op) + 1 == UNARY then rest else Skip(rest))
    ensures Parse(c, LevelOf(op), left + gap + Symbol(op) + right + rest) ==
            var v := Combine(c, op, a, b);
            if v.None? then Fail else ParseLoop(c, LevelOf(op), v.value, rest)
  {
    var s := right + rest;
    FiveTexts(left, gap, Symbol(op), right, rest);
    if a.Some? {
      SymbolStarts(op, gap, s);
      DropFirst(Symbol(op), s);
      BinLoop(c, op, a.value, b, gap + Symbol(op) + s, Symbol(op) + s, s, rest);
    }
  }

  lemma FiveTexts(a: string, b: string, c: string, d: string, e: string)
    ensures a + b + c + d + e == a + (b + c + (d + e))
  {
  }

  lemma DropFirst(a: string, b: string)
    ensures (a + b)[|a|..] == b
  {
  }

  /** One turn of the operator loop. */
  lemma BinLoop(c: Semantics, op: Op, a: I64, b: Option<I64>, after: string, t: string, s: string, rest: string)
    requires Skip(after) == t && OpAt(LevelOf(op), t) == Some(op) && |Symbol(op)| <= |t| && t[|Symbol(op)|..] == s
    requires Parse(c, LevelOf(op) + 1, s) == Answer(b, if LevelOf(op) + 1 == UNARY then rest else Skip(rest))
    ensures var v := if b.None? then None else c.apply(op, a, b.value);
            ParseLoop(c, LevelOf(op), a, after) ==
            if v.None? then Fail else ParseLoop(c, LevelOf(op), v.value, rest)
  {
    if b.Some? && c.apply(op, a, b.value).Some? {
      LoopSkips(c, LevelOf(op), c.apply(op, a, b.value).value, rest);
    }
  }

  lemma PrimaryAfterGap(c: Semantics, gap: string, s: string)
    requires Blank(gap) && s != [] && !IsSpace(s[0]) && s[0] != '+' && s[0] != '-' && s[0] != '~'
    ensures Parse(c, UNARY, gap + s) == ParsePrimary(c, s)
  {
    SkipGap(gap, s);
  }

  /** The text of a tree parses to the value of the tree, and fails when the tree has none. */
  lemma {:induction false} TreeParse(c: Semantics, tree: Tree, level: nat, rest: string)
    requires tree.WellFormed() && level <= UNARY && tree.Level() >= level && Ends(level, rest)
    ensures Parse(c, level, tree.Text() + rest) ==
            Answer(tree.Eval(c), if level == UNARY then rest else Skip(rest))
    decreases tree, UNARY - level, 1
  {
    if level < UNARY {
      EndsTighter(level, rest);
      SpineParse(c, tree, level, rest);
    } else {
      match tree
      case Num(gap, token) => NumParse(c, gap, token, rest);
      case Name(gap, id) => NameParse(c, gap, id, rest);
      case Paren(gap, inner, closing) => ParenParse(c, tree, rest);
      case Un(gap, sign, operand) =>
        TreeParse(c, operand, UNARY, rest);
        SignParse(c, gap, sign, operand.Text(), rest);
    }
  }

  lemma NumParse(c: Semantics, gap: string, token: string, rest: string)
    requires Num(gap, token).WellFormed() && Ends(UNARY, rest)
    ensures Parse(c, UNARY, gap + token + rest) == Answer(c.literal(token), rest)
  {
    var s := token + rest;
    assert gap + token + rest == gap + s;
    PrimaryAfterGap(c, gap, s);
    RunStops(token, rest, true);
    assert s[..|token|] == token && s[|token|..] == rest;
  }

  lemma NameParse(c: Semantics, gap: string, id: string, rest: string)
    requires Name(gap, id).WellFormed() && Ends(UNARY, rest)
    ensures Parse(c, UNARY, gap + id + rest) == Answer(c.name(id), rest)
  {
    var s := id + rest;
    assert gap + id + rest == gap + s;
    PrimaryAfterGap(c, gap, s);
    RunStops(id, rest, false);
    assert s[..|id|] == id && s[|id|..] == rest;
  }

  lemma SignParse(c: Semantics, gap: string, sign: Sign, text: string, rest: string)
    requires Blank(gap)
    ensures var r := ParseUnary(c, text + rest);
            Parse(c, UNARY, gap + [SignChar(sign)] + text + rest) ==
            if r.Fail? then Fail else Ok(c.sign(sign, r.v), r.rest)
  {
    var s := [SignChar(sign)] + (text + rest);
    assert gap + [SignChar(sign)] + text + rest == gap + s;
    SkipGap(gap, s);
    assert s[1..] == text + rest;
  }

  lemma {:induction false} ParenParse(c: Semantics, tree: Tree, rest: string)
    requires tree.WellFormed() && tree.Paren?
    ensures Parse(c, UNARY, tree.Text() + rest) == Answer(tree.Eval(c), rest)
    decreases tree, 0, 0
  {
    var Paren(gap, inner, closing) := tree;
    var close := ")" + rest;
    var s := "(" + (inner.Text() + (closing + close));
    assert tree.Text() + rest == gap + s;
    PrimaryAfterGap(c, gap, s);
    assert s[1..] == inner.Text() + (closing + close);
    EndsAtParen(closing, rest);
    TreeParse(c, inner, 0, closing + close);
    assert close[1..] == rest;
  }

  lemma EndsAtParen(closing: string, rest: string)
    requires Blank(closing)
    ensures Ends(0, closing + (")" + rest)) && Skip(closing + (")" + rest)) == ")" + rest
    ensures Skip(")" + rest) == ")" + rest
  {
    var close := ")" + rest;
    SkipGap(closing, close);
    assert (closing + close)[0] == if closing == [] then ')' else closing[0];
  }

  lemma EndsAtEnd(gap: string)
    requires Blank(gap)
    ensures Ends(0, gap) && Skip(gap) == []
  {
    assert gap + [] == gap;
    SkipGap(gap, []);
  }

  /** On the text of any tree, with any space after it, the evaluator returns its value,
      and fails exactly when the tree has none. */
  lemma TextOfTree(c: Semantics, tree: Tree, gap: string)
    requires tree.WellFormed() && Blank(gap)
    ensures ParseText(c, tree.Text() + gap) == tree.Eval(c)
  {
    EndsAtEnd(gap);
    TreeParse(c, tree, 0, gap);
  }

  // ----------------------------------------------- every accepted text is a tree's text

  lemma {:induction false} SkipSplit(s: string) returns (gap: string)
    ensures Blank(gap) && s == gap + Skip(s)
    decreases |s|
  {
    if s != [] && IsSpace(s[0]) {
      var rest := SkipSplit(s[1..]);
      gap := [s[0]] + rest;
      assert s == [s[0]] + s[1..];
    } else {
      gap := [];
      assert s == [] + s;
    }
  }

  /** Whatever the parser accepts it read as the text of some tree, with that tree's value. */
  lemma {:induction false} ParsedTree(c: Semantics, level: nat, s: string) returns (tree: Tree, gap: string)
    requires level <= UNARY && Parse(c, level, s).Ok?
    ensures tree.WellFormed() && tree.Level() >= level && Blank(gap)
    ensures s == tree.Text() + gap + Parse(c, level, s).rest && tree.Eval(c) == Some(Parse(c, level, s).v)
    decreases |s|, 3 + UNARY - level
  {
    if level == UNARY {
      tree := UnaryTree(c, s);
      gap := [];
      assert tree.Text() + gap == tree.Text();
    } else {
      var first := Parse(c, level + 1, s);
      var t0, gap0 := ParsedTree(c, level + 1, s);
      tree, gap := LoopTree(c, level, t0, gap0, first.v, first.rest);
    }
  }

  lemma {:induction false} LoopTree(c: Semantics, level: nat, t0: Tree, gap0: string, v: I64, s: string)
    returns (tree: Tree, gap: string)
    requires level < UNARY && ParseLoop(c, level, v, s).Ok?
    requires t0.WellFormed() && t0.Level() >= level && t0.Eval(c) == Some(v) && Blank(gap0)
    ensures tree.WellFormed() && tree.Level() >= level && Blank(gap)
    ensures t0.Text() + gap0 + s == tree.Text() + gap + ParseLoop(c, level, v, s).rest
    ensures tree.Eval(c) == Some(ParseLoop(c, level, v, s).v)
    decreases |s|, 0
  {
    var g := SkipSplit(s);
    var t := Skip(s);
    var op := OpAt(level, t);
    if op.None? {
      tree, gap := t0, gap0 + g;
      GapsJoin(t0.Text(), gap0, g, t);
    } else {
      OpAtSymbol(level, t);
      var right := Parse(c, level + 1, t[|Symbol(op.value)|..]);
      var next, gap1 := OpTree(c, level, op.value, t0, gap0 + g, v, t);
      GapsJoin(t0.Text(), gap0, g, t);
      tree, gap := LoopTree(c, level, next, gap1, c.apply(op.value, v, right.v).value, right.rest);
    }
  }

  lemma GapsJoin(text: string, gap: string, g: string, t: string)
    ensures text + gap + (g + t) == text + (gap + g) + t
  {
  }

  /** One turn of the operator loop read backwards: the operation as a tree. */
  lemma {:induction false} OpTree(c: Semantics, level: nat, op: Op, t0: Tree, gap: string, v: I64, t: string)
    returns (next: Tree, gap1: string)
    requires level < UNARY && LevelOf(op) == level && Symbol(op) <= t && Blank(gap)
    requires t0.WellFormed() && t0.Level() >= level && t0.Eval(c) == Some(v)
    requires Parse(c, level + 1, t[|Symbol(op)|..]).Ok?
    ensures next.WellFormed() && next.Level() == level && Blank(gap1)
    ensures next.Eval(c) == c.apply(op, v, Parse(c, level + 1, t[|Symbol(op)|..]).v)
    ensures t0.Text() + gap + t == next.Text() + gap1 + Parse(c, level + 1, t[|Symbol(op)|..]).rest
    decreases |t| - 1, 3 + UNARY - level
  {
    var rt: Tree;
    rt, gap1 := ParsedTree(c, level + 1, t[|Symbol(op)|..]);
    next := Bin(op, t0, gap, rt);
    OpTexts(t0.Text(), gap, Symbol(op), rt.Text(), gap1, Parse(c, level + 1, t[|Symbol(op)|..]).rest, t);
  }

  lemma OpTexts(left: string, gap: string, sym: string, right: string, gap1: string, rest: string, t: string)
    requires sym <= t && t[|sym|..] == right + gap1 + rest
    ensures left + gap + t == left + gap + sym + right + gap1 + rest
  {
    assert t == sym + t[|sym|..];
  }

  lemma {:induction false} UnaryTree(c: Semantics, s: string) returns (tree: Tree)
    requires ParseUnary(c, s).Ok?
    ensures tree.WellFormed() && tree.Level() == UNARY
    ensures s == tree.Text() + ParseUnary(c, s).rest && tree.Eval(c) == Some(ParseUnary(c, s).v)
    decreases |s|, 2
  {
    var g := SkipSplit(s);
    var t := Skip(s);
    if t[0] == '+' || t[0] == '-' || t[0] == '~' {
      var operand := UnaryTree(c, t[1..]);
      var sign := if t[0] == '+' then Plus else if t[0] == '-' then Minus else Tilde;
      tree := Un(g, sign, operand);
      SignTexts(g, t, SignChar(sign), operand.Text(), ParseUnary(c, s).rest);
    } else {
      var bare := PrimaryTree(c, t);
      tree := WithGap(g, bare);
      GapTexts(g, bare.Text(), ParsePrimary(c, t).rest);
    }
  }

  lemma SignTexts(g: string, t: string, sign: char, operand: string, rest: string)
    requires t != [] && t[0] == sign && t[1..] == operand + rest
    ensures g + t == g + [sign] + operand + rest
  {
    assert t == [t[0]] + t[1..];
  }

  lemma GapTexts(g: string, text: string, rest: string)
    ensures g + (text + rest) == g + text + rest
  {
  }

  /** The same unary tree with space before it. */
  function WithGap(g: string, t: Tree): (r: Tree)
    requires Blank(g) && t.WellFormed() && (t.Num? || t.Name? || t.Paren?) && t.gap == []
    ensures r.WellFormed() && r.Level() == UNARY && r.Text() == g + t.Text()
    ensures forall c :: r.Eval(c) == t.Eval(c)
  {
    match t
    case Num(_, token) =>
      assert [] + token == token;
      Num(g, token)
    case Name(_, id) =>
      assert [] + id == id;
      Name(g, id)
    case Paren(_, inner, closing) =>
      assert [] + "(" + inner.Text() + closing + ")" == "(" + inner.Text() + closing + ")";
      assert g + "(" + inner.Text() + closing + ")" == g + ("(" + inner.Text() + closing + ")");
      Paren(g, inner, closing)
  }

  lemma {:induction false} RunPrefix(s: string, kind: bool)
    ensures Run(s[..Run(s, kind)], kind) == Run(s, kind)
    decreases |s|
  {
    var n := Run(s, kind);
    if n > 0 {
      assert s[..n][1..] == s[1..][..n - 1];
      RunPrefix(s[1..], kind);
    }
  }

  lemma {:induction false} PrimaryTree(c: Semantics, s: string) returns (tree: Tree)
    requires s != [] && ParsePrimary(c, s).Ok?
    ensures tree.WellFormed() && (tree.Num? || tree.Name? || tree.Paren?) && tree.gap == []
    ensures s == tree.Text() + ParsePrimary(c, s).rest && tree.Eval(c) == Some(ParsePrimary(c, s).v)
    decreases |s|, 1
  {
    if s[0] == '(' {
      var inner := Parse(c, 0, s[1..]);
      var it, g1 := ParsedTree(c, 0, s[1..]);
      var g2 := SkipSplit(inner.rest);
      tree := Paren([], it, g1 + g2);
      ParenTexts(s, it.Text(), g1, g2, Skip(inner.rest));
    } else {
      tree := LeafTree(c, s);
    }
  }

  lemma ParenTexts(s: string, inner: string, g1: string, g2: string, t: string)
    requires s != [] && s[0] == '(' && s[1..] == inner + g1 + (g2 + t) && t != [] && t[0] == ')'
    ensures s == [] + "(" + inner + (g1 + g2) + ")" + t[1..]
  {
    assert s == ['('] + s[1..] && t == [')'] + t[1..];
  }

  lemma LeafTree(c: Semantics, s: string) returns (tree: Tree)
    requires s != [] && s[0] != '(' && ParsePrimary(c, s).Ok?
    ensures tree.WellFormed() && (tree.Num? || tree.Name?) && tree.gap == []
    ensures s == tree.Text() + ParsePrimary(c, s).rest && tree.Eval(c) == Some(ParsePrimary(c, s).v)
  {
    var digits := IsDigit(s[0]);
    RunPrefix(s, digits);
    var n := Run(s, digits);
    tree := if digits then Num([], s[..n]) else Name([], s[..n]);
    assert [] + s[..n] == s[..n] && s[..n] + s[n..] == s;
  }

  /** `s` is the text of `tree` followed by space. */
  ghost predicate IsText(s: string, tree: Tree, gap: string) {
    tree.WellFormed() && Blank(gap) && s == tree.Text() + gap
  }

  /** The evaluator returns a value exactly for the texts of trees with that value. */
  lemma AcceptsExactly(c: Semantics, s: string, v: I64)
    ensures ParseText(c, s) == Some(v) <==> exists tree, gap :: IsText(s, tree, gap) && tree.Eval(c) == Some(v)
  {
    if ParseText(c, s) == Some(v) {
      var tree, gap := ParsedTree(c, 0, s);
      var rest := Parse(c, 0, s).rest;
      var tail := SkipSplit(rest);
      assert rest == tail by {
        assert tail + [] == tail;
      }
      assert s == tree.Text() + (gap + tail);
      assert IsText(s, tree, gap + tail);
    }
    if tree, gap :| IsText(s, tree, gap) && tree.Eval(c) == Some(v) {
      TextOfTree(c, tree, gap);
    }
  }

  // ------------------------------------------------------------------------ printing

  datatype Ast = Const(n: nat) | Ref(id: string) | Prefix(sign: Sign, a: Ast) | Infix(op: Op, a: Ast, b: Ast)
  {
    predicate Printable() {
      match this
      case Const(n) => n < TWO63
      case Ref(id) => 0 < |id| < 128 && (IsAlpha(id[0]) || id[0] == '_') && Run(id, false) == |id|
      case Prefix(_, a) => a.Printable()
      case Infix(_, a, b) => a.Printable() && b.Printable()
    }

    function Value(look: Lookup): Option<I64>
      requires Printable()
    {
      match this
      case Const(n) => Some(n)
      case Ref(id) => look(id)
      case Prefix(sign, a) =>
        var x := a.Value(look);
        if x.None? then None else Some(ApplySign(sign, x.value))
      case Infix(op, a, b) =>
        var x, y := a.Value(look), b.Value(look);
        if x.None? || y.None? then None else Apply(op, x.value, y.value)
    }
  }

  function Decimal(n: nat): (s: string)
    ensures s != []
    ensures forall i :: 0 <= i < |s| ==> IsDigit(s[i])
  {
    (if n < 10 then [] else Decimal(n / 10)) + ['0' + (n % 10) as char]
  }

  /** Prints with parentheses only around an operation that binds looser than `level`. */
  function Print(e: Ast, level: nat): Tree {
    match e
    case Const(n) => Num([], Decimal(n))
    case Ref(id) => Name([], id)
    case Prefix(sign, a) => Un([], sign, Print(a, UNARY))
    case Infix(op, a, b) =>
      var t := Bin(op, Print(a, LevelOf(op)), [], Print(b, LevelOf(op) + 1));
      if LevelOf(op) < level then Paren([], t, []) else t
  }

  lemma {:induction false} DigitsAppend(s: string, d: char, base: nat, acc: nat)
    requires Digits(s, base, acc).Some?
    ensures Digits(s + [d], base, acc) ==
            if Digit(d) >= base then None else Some(Digits(s, base, acc).value * base + Digit(d))
    decreases |s|
  {
    if s == [] {
      assert s + [d] == [d];
      assert [d][1..] == [];
    } else {
      assert (s + [d])[1..] == s[1..] + [d];
      DigitsAppend(s[1..], d, base, acc * base + Digit(s[0]));
    }
  }

  lemma {:induction false} DecimalReads(n: nat)
    ensures Digits(Decimal(n), 10, 0) == Some(n)
    ensures n > 0 ==> Decimal(n)[0] != '0'
    decreases n
  {
    var d := '0' + (n % 10) as char;
    if n < 10 {
      assert Decimal(n) == [d];
      assert [d][1..] == [];
    } else {
      DecimalReads(n / 10);
      DigitsAppend(Decimal(n / 10), d, 10, 0);
    }
  }

  lemma {:induction false} DigitsPlain(s: string)
    requires forall i :: 0 <= i < |s| ==> IsDigit(s[i])
    ensures WithoutSeparators(s) == s && Run(s, true) == |s|
    decreases |s|
  {
    if s != [] {
      DigitsPlain(s[1..]);
    }
  }

  lemma {:induction false} DecimalShort(n: nat, k: nat)
    requires k > 0 && n < Pow2(k)
    ensures |Decimal(n)| <= k
    decreases k
  {
    if n >= 10 {
      DecimalShort(n / 10, k - 1);
    }
  }

  lemma DecimalLiteral(n: nat)
    requires n < TWO63
    ensures LiteralValue(Decimal(n)) == Some(n) && Run(Decimal(n), true) == |Decimal(n)| < 128
  {
    DecimalReads(n);
    DigitsPlain(Decimal(n));
    assert WithoutSuffix(Decimal(n)) == Decimal(n);
    DecimalOfWord(n);
    if n == 0 {
      assert Decimal(0) == ['0'] && ['0'][1..] == [];
      assert Digits([], 8, 0) == Some(0);
      assert Digits(['0'], 8, 0) == Some(0);
    }
  }

  lemma DecimalOfWord(n: nat)
    requires n < TWO63
    ensures |Decimal(n)| <= 63
  {
    Pow2Of64();
    DecimalShort(n, 63);
  }

  lemma {:induction false} PrintKeeps(look: Lookup, e: Ast, level: nat)
    requires e.Printable() && level <= UNARY
    ensures Print(e, level).WellFormed() && Print(e, level).Level() >= level
    ensures Print(e, level).Eval(Arithmetic(look)) == e.Value(look)
    decreases e
  {
    match e
    case Const(n) => DecimalLiteral(n);
    case Ref(_) =>
    case Prefix(_, a) => PrintKeeps(look, a, UNARY);
    case Infix(op, a, b) =>
      PrintKeeps(look, a, LevelOf(op));
      PrintKeeps(look, b, LevelOf(op) + 1);
  }

  /** Printing and evaluating is evaluating: all of the text is read, the value is the
      expression's, and it fails exactly when some divisor is zero, some shift count is
      outside 0..62 or some name is unknown. */
  lemma PrintParse(look: Lookup, e: Ast)
    requires e.Printable()
    ensures ParseText(Arithmetic(look), Print(e, 0).Text()) == e.Value(look)
  {
    PrintKeeps(look, e, 0);
    var text := Print(e, 0).Text();
    TextOfTree(Arithmetic(look), Print(e, 0), []);
    assert text + [] == text;
  }

  // ---------------------------------------------------------- the evaluator itself

  /** ny_ffi_int_expr_t: a text and the cursor all the functions share. */
  class IntExpr {
    const text: string
    const c: Semantics
    var p: nat

    predicate Valid()
      reads this
    {
      p <= |text|
    }

    function Rest(): string
      reads this
      requires Valid()
    {
      text[p..]
    }

    constructor (text: string, c: Semantics)
      ensures Valid() && this.text == text && this.c == c && Rest() == text
    {
      this.text, this.c, p := text, c, 0;
    }

    /** ny_ffi_expr_ws. */
    method Ws()
      requires Valid()
      modifies this
      ensures Valid() && p >= old(p) && Rest() == Skip(old(Rest()))
    {
      while p < |text| && IsSpace(text[p])
        invariant Valid() && p >= old(p) && Skip(Rest()) == Skip(old(Rest()))
      {
        assert text[p..][1..] == text[p + 1..];
        p := p + 1;
      }
    }

    /** ny_ffi_expr_accept of a one-character text. */
    method Accept(ch: char) returns (ok: bool)
      requires Valid()
      modifies this
      ensures Valid() && p >= old(p) && ok == Starts(Skip(old(Rest())), ch)
      ensures Rest() == if ok then Skip(old(Rest()))[1..] else Skip(old(Rest()))
      ensures ok ==> p > old(p)
    {
      Ws();
      ok := p < |text| && text[p] == ch;
      if ok {
        assert text[p..][1..] == text[p + 1..];
        p := p + 1;
      }
    }

    /** ny_ffi_expr_accept of a doubled character. */
    method AcceptTwice(ch: char) returns (ok: bool)
      requires Valid()
      modifies this
      ensures Valid() && p >= old(p) && ok == StartsTwice(Skip(old(Rest())), ch)
      ensures Rest() == if ok then Skip(old(Rest()))[2..] else Skip(old(Rest()))
      ensures ok ==> p > old(p)
    {
      Ws();
      ok := p + 1 < |text| && text[p] == ch && text[p + 1] == ch;
      if ok {
        assert text[p..][2..] == text[p + 2..];
        p := p + 2;
      }
    }

    /** The chain of accepts at the head of one operator loop. */
    method AcceptOp(level: nat) returns (op: Option<Op>)
      requires Valid() && level < UNARY
      modifies this
      ensures Valid() && p >= old(p) && op == OpAt(level, Skip(old(Rest())))
      ensures op.None? ==> Rest() == Skip(old(Rest()))
      ensures op.Some? ==>
                |Symbol(op.value)| <= |Skip(old(Rest()))|
                && Rest() == Skip(old(Rest()))[|Symbol(op.value)|..]
      ensures op.Some? ==> p > old(p)
    {
      if level < 3 {
        op := AcceptLoose(level);
      } else {
        op := AcceptTight(level);
      }
    }

    method AcceptLoose(level: nat) returns (op: Option<Op>)
      requires Valid() && level < 3
      modifies this
      ensures Valid() && p >= old(p) && op == OpAt(level, Skip(old(Rest())))
      ensures op.None? ==> Rest() == Skip(old(Rest()))
      ensures op.Some? ==> |Skip(old(Rest()))| > 0 && Rest() == Skip(old(Rest()))[1..] && p > old(p)
    {
      var ok: bool;
      if level == 0 {
        ok := Accept('|');
        op := if ok then Some(Or) else None;
      } else if level == 1 {
        ok := Accept('^');
        op := if ok then Some(Xor) else None;
      } else {
        ok := Accept('&');
        op := if ok then Some(And) else None;
      }
    }

    method AcceptTight(level: nat) returns (op: Option<Op>)
      requires Valid() && 3 <= level < UNARY
      modifies this
      ensures Valid() && p >= old(p) && op == OpAt(level, Skip(old(Rest())))
      ensures op.None? ==> Rest() == Skip(old(Rest()))
      ensures op.Some? ==>
                |Symbol(op.value)| <= |Skip(old(Rest()))|
                && Rest() == Skip(old(Rest()))[|Symbol(op.value)|..]
      ensures op.Some? ==> p > old(p)
    {
      SkipSkip(Rest());
      op := None;
      var ok: bool;
      if level == 3 {
        ok := AcceptTwice('<');
        if ok { return Some(Shl); }
        ok := AcceptTwice('>');
        if ok { return Some(Shr); }
      } else if level == 4 {
        ok := Accept('+');
        if ok { return Some(Add); }
        ok := Accept('-');
        if ok { return Some(Sub); }
      } else {
        ok := Accept('*');
        if ok { return Some(Mul); }
        ok := Accept('/');
        if ok { return Some(Div); }
        ok := Accept('%');
        if ok { return Some(Mod); }
      }
    }

    /** The operator functions from ny_ffi_expr_number (level 0) down to ny_ffi_expr_mul. */
    method Level(level: nat) returns (v: Option<I64>)
      requires Valid() && level <= UNARY
      modifies this
      ensures Valid() && p >= old(p)
      ensures v.None? <==> Parse(c, level, old(Rest())).Fail?
      ensures v.Some? ==> Parse(c, level, old(Rest())) == Ok(v.value, Rest())
      decreases |text| - p, 3 + UNARY - level
    {
      if level == UNARY {
        v := Unary();
        return;
      }
      v := Level(level + 1);
      if v.Some? {
        v := Operators(level, v.value);
      }
    }

    /** The operator loop of one level. */
    method Operators(level: nat, first: I64) returns (v: Option<I64>)
      requires Valid() && level < UNARY
      modifies this
      ensures Valid() && p >= old(p)
      ensures v.None? <==> ParseLoop(c, level, first, old(Rest())).Fail?
      ensures v.Some? ==> ParseLoop(c, level, first, old(Rest())) == Ok(v.value, Rest())
      decreases |text| - p, 0
    {
      v := Some(first);
      while true
        invariant Valid() && p >= old(p) && v.Some?
        invariant ParseLoop(c, level, v.value, Rest()) == ParseLoop(c, level, first, old(Rest()))
        decreases |text| - p
      {
        var op := AcceptOp(level);
        if op.None? {
          break;
        }
        var r := Level(level + 1);
        if r.None? {
          return None;
        }
        v := c.apply(op.value, v.value, r.value);
        if v.None? {
          return;
        }
      }
    }

    /** ny_ffi_expr_unary. */
    method Unary() returns (v: Option<I64>)
      requires Valid()
      modifies this
      ensures Valid() && p >= old(p)
      ensures v.None? <==> ParseUnary(c, old(Rest())).Fail?
      ensures v.Some? ==> ParseUnary(c, old(Rest())) == Ok(v.value, Rest())
      decreases |text| - p, 2
    {
      SkipSkip(Rest());
      var sign := Plus;
      var ok := Accept('+');
      if !ok {
        sign := Minus;
        ok := Accept('-');
      }
      if !ok {
        sign := Tilde;
        ok := Accept('~');
      }
      if ok {
        var a := Unary();
        return if a.None? then None else Some(c.sign(sign, a.value));
      }
      if p == |text| {
        return None;
      }
      v := Primary();
    }

    /** ny_ffi_expr_primary. */
    method Primary() returns (v: Option<I64>)
      requires Valid() && p < |text| && !IsSpace(text[p])
      modifies this
      ensures Valid() && p >= old(p)
      ensures v.None? <==> ParsePrimary(c, old(Rest())).Fail?
      ensures v.Some? ==> ParsePrimary(c, old(Rest())) == Ok(v.value, Rest())
      decreases |text| - p, 1
    {
      ghost var s := Rest();
      assert Skip(s) == s;
      var open := Accept('(');
      if open {
        v := Level(0);
        if v.Some? {
          var close := Accept(')');
          if !close {
            v := None;
          }
        }
      } else {
        v := Leaf();
      }
    }

    /** Numbers and names. */
    method Leaf() returns (v: Option<I64>)
      requires Valid() && p < |text| && text[p] != '('
      modifies this
      ensures Valid() && p >= old(p)
      ensures v.None? <==> ParsePrimary(c, old(Rest())).Fail?
      ensures v.Some? ==> ParsePrimary(c, old(Rest())) == Ok(v.value, Rest())
    {
      var digits := IsDigit(text[p]);
      if !digits && !IsAlpha(text[p]) && text[p] != '_' {
        return None;
      }
      var start := p;
      ghost var s := Rest();
      Scan(digits);
      if p - start >= 128 {
        return None;
      }
      v := if digits then c.literal(text[start..p]) else c.name(text[start..p]);
    }

    /** Over all following token, respectively name, characters. */
    method Scan(digits: bool)
      requires Valid()
      modifies this
      ensures Valid() && p - old(p) == Run(old(Rest()), digits)
      ensures old(Rest())[..p - old(p)] == text[old(p)..p] && old(Rest())[p - old(p)..] == Rest()
    {
      ghost var start, s := p, Rest();
      while p < |text| && (if digits then IsTokenChar(text[p]) else IsNameChar(text[p]))
        invariant start <= p <= |text|
        invariant Run(s, digits) == (p - start) + Run(text[p..], digits)
      {
        assert text[p..][1..] == text[p + 1..];
        p := p + 1;
      }
    }

    /** The whole text: an expression and space. */
    method Whole() returns (v: Option<I64>)
      requires Valid()
      modifies this
      ensures v == ParseText(c, old(Rest()))
    {
      ghost var r := Parse(c, 0, Rest());
      v := Level(0);
      if v.Some? {
        assert r == Ok(v.value, Rest());
        Ws();
        assert Rest() == Skip(r.rest) && |Rest()| == |text| - p;
        if p < |text| {
          v := None;
        }
      }
    }
  }

  /** ny_ffi_parse_integer_expr; the evaluator runs it with Arithmetic(look). */
  method ParseIntegerExpr(c: Semantics, text: string) returns (v: Option<I64>)
    ensures v == ParseText(c, text)
  {
    var e := new IntExpr(text, c);
    v := e.Whole();
  }
}
