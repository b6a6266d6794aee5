# Verified models of the Nytrix compiler core

Nytrix compiles a small language through LLVM. This project models the parts of it that
are algorithms in their own right and proves what each of them is for. Every module is a
Dafny file of the same name.

| area | modules | original |
|---|---|---|
| shared by the rest: graphs and reachability, small notions | Reachability, Common | |
| recursion marking (Tarjan's algorithm on arrays) | Scc | src/code/funcpurity.c |
| purity and effect inference | Ast, Purity, Sweep, Inference | src/code/funcpurity.c |
| integer ranges, raw-integer lowering, tagged arithmetic | Int64, IntRange, Instructions, RawInt, TaggedInt | src/code/binary.c |
| module ordering and link closure | TopoSort, ModuleOrder, LinkClosure | src/code/core.c |
| constant expressions of C headers | FfiExpr | src/code/fficlang.c |
| string interner, open addressing | Probe, Interner | src/base/intern.c |
| name sets with Bloom filters, scopes | NameSets | src/code/code.h, src/code/core.c |
| region allocator | Arena | src/base/common.h |
| edit distance | Levenshtein | src/base/util.c |
| Windows command lines | WinQuote | src/base/process.c, src/base/run.c |
| loader index file | Loader | src/base/loader.c |

Code that changes arrays, tables or a cursor step by step is modelled by classes and
methods with loops; each is proved against a function or a state machine, about which the
properties are then proved. Hash functions, name resolution, addresses from the allocator,
readability of paths and the clock are arbitrary parameters, so nothing depends on them.

## What the proofs found

Where a property fails of the code, the code is kept and the exact condition is proved.

- The purity and effect passes of the inference stop at a sweep that changes nothing or after
  64 (src/code/funcpurity.c:2099). In the first case the answer is exact for every program.
  In general it is exact just when one more sweep would change nothing, and either pass is
  exact on all programs of n functions exactly when n <= 64
  (`Inference.CapHarmlessExactlyWhen`): beyond that a chain of calls in index order leaves its
  first function wrongly pure and without effects. Pure functions nevertheless never carry
  effects, whatever the cap.
- The module search uses a stack of 4096 frames, and a body's list of imported modules holds
  256. Every module is emitted exactly once in any case. Dependency-first order holds for all
  acyclic programs of n modules importing at most t modules each exactly when n <= 4096 and
  t <= 256, or n <= 1, or t = 0 (`ModuleOrder.CapsSufficeExactlyWhen`). A longer chain of uses
  overruns the stack; the 257th import of a body is forgotten.
- A comment at src/code/core.c:2295 says a `use m as x` creates no dependency; the code at
  src/code/core.c:2313 makes it one. The model follows the code.
- `nil` is parsed as an integer literal 0 (src/parse/expr.c:742), and both the range
  analysis and the lowering treat it as the number 0, also where a constant bound to it is
  replaced by its initialiser (src/code/binary.c:845). A usable word is right exactly when no
  nil is used (`RawInt.RawIntExact`); without calls that is when none is written in the
  expression or in the initialiser of a constant it mentions
  (`RawInt.ExactExactlyWhenNilFree`). With nil read as 0 the lowering is exact throughout
  (`RawInt.NilReadAsZero`).
- A name of an inlined body that is not a parameter with an argument is looked up in the
  scope of the call (src/code/binary.c:834). This concerns module-level names and parameters
  left to their defaults (src/code/gencall/init.c:1998). The soundness results ask, of the
  calls reached from the expression alone, that the binding found there is true of the value
  in the body. For a body `return x` the word is right exactly when x has the same value in
  both places (`RawInt.InlinedNameExactlyWhen`, `RawInt.CaptureIsWrong`).
- Small integers have 63 bits (src/rt/shared.h:568), but the run-time check
  (src/code/binary.c:10) accepts 62. It errs on the safe side: the slow call takes over.
- For a divisor 2^k the shift and mask floor, while the general path truncates. They agree
  exactly for operands that are not negative or are multiples of 2^k.
- Both walks over a body pass by the initialiser of an `if`, so purity and effects agree
  with those present too.
- In the table of pure builtins the entries `__untag` and `__tagof` stand in rows chosen by
  another third character and are never matched (src/code/funcpurity.c:10-51,
  `Purity.NeverMatched`).
- A command line comes back from the C runtime as the same list exactly when the program
  name has no quote and no final backslash; the arguments always do.
- A refused index file of the right kind and time leaves its source time behind as known
  exactly when it carries one and either ends within the count, or is the first to list
  modules and fails at its first record (`Loader.RefusedKnownExactlyWhen`): clearing the list
  forgets the time only if there is a list.

## Model

| member | source | states |
|---|---|---|
| `Scc.MarkRecursive` | src/code/funcpurity.c:1855-1895 | On return a node is flagged exactly when it is enabled and lies on a directed cycle, self-loops included, through enabled nodes; the count is the number of flagged nodes |
| `Scc.Context.Dfs` | src/code/funcpurity.c:1813-1853 | One call keeps the whole invariant of the walk: lowlinks are sound and complete, settled nodes are closed under calls and their flags are exact |
| `Scc.Context.LookAtCallee` | src/code/funcpurity.c:1820-1831 | One turn of the callee loop, in place: skip, recursive call with the lowlink folded in, or lowlink from a stacked callee |
| `Scc.Context.PopComponent` | src/code/funcpurity.c:1834-1841 | Pops the stack exactly down to the root and copies exactly what it popped |
| `Scc.Context.FlagComponent` | src/code/funcpurity.c:1846-1852 | Raises the flag of every member and no other, and counts each newly raised flag once |
| `Scc.Context.Finish` | src/code/funcpurity.c:1832-1852 | At a root: the component is flagged when it has two members or the root calls itself |
| `Scc.Contains` | src/code/funcpurity.c:1782-1796 | The lower-bound search on a sorted list is membership |
| `Scc.VisitedCallee` | src/code/funcpurity.c:1828-1830 | Lowering from a visited callee keeps the loop invariant only through callees still on the stack |
| `Scc.EnterCallee` | src/code/funcpurity.c:1824-1825 | The recursive call is entered with the invariant, one more active node |
| `Scc.LeaveCallee` | src/code/funcpurity.c:1826-1827 | Folding the callee's lowlink in restores the loop invariant |
| `Scc.AllReachYoungest` | src/code/funcpurity.c:1813-1831 | Every stacked node reaches the youngest active call |
| `Scc.ReturnOpen` | src/code/funcpurity.c:1832-1833 | Returning with the lowlink below the index leaves the node for an older root |
| `Scc.SettledIsClosed` | src/code/funcpurity.c:1834-1841 | Nothing popped at a root calls back into what stays on the stack |
| `Scc.PoppedReachesRoot` | src/code/funcpurity.c:1834-1841 | Each popped node reaches the root and is reached from it |
| `Scc.PoppedOnCycle` | src/code/funcpurity.c:1842-1845 | A popped node lies on a cycle exactly when its component has two members or the root calls itself |
| `Scc.ReturnSettled` | src/code/funcpurity.c:1834-1853 | Settling a component gives the postcondition of the call |
| `Purity.FxSplitExpr` | src/code/funcpurity.c:355-407 | The effects of an expression are its own effects and those of the functions it calls; calls and scope do not depend on what the callees are thought to do |
| `Purity.FxSplitStmt` | src/code/funcpurity.c:409-489 | The same for statements, with their local scopes |
| `Purity.SafeSplitExpr` | src/code/funcpurity.c:593-717 | The purity check of an expression accepts exactly when it does with every callee accepted and every callee the effect walk finds is accepted; an accepted one shows no effect of its own and leaves the scope the effect walk leaves |
| `Purity.SafeSplitStmt` | src/code/funcpurity.c:719-839 | The same for statements, through the separate scope handling of the two walks |
| `Purity.NeverMatched` | src/code/funcpurity.c:10-51 | Two names in the table of pure builtins, __untag and __tagof, are never accepted |
| `Inference.LocallyPureIsQuiet` | src/code/funcpurity.c:1897-1919 | A body that is pure on its own has no effect on its own, although the two walks are written separately |
| `Inference.PurityIsRule` | src/code/funcpurity.c:1897-1919 | Checking one function is one application of the propagation rule to the impurity bits |
| `Inference.EffectsIsRule` | src/code/funcpurity.c:491-509 | Computing one effect mask is one application of the rule for each effect bit |
| `Inference.Summary.ApplyPurity` | src/code/funcpurity.c:1990-1997 | One function recomputed in place: the new flag, one rule step on the bits, and whether the flag changed |
| `Inference.Summary.ApplyEffects` | src/code/funcpurity.c:1998-2006 | One mask recomputed in place: one rule step for every effect bit, and whether the mask changed |
| `Inference.Summary.PuritySweep` | src/code/funcpurity.c:2045-2055 | One in-place purity sweep in index order; it reports a change exactly when a flag is no longer what it was |
| `Inference.Summary.EffectSweep` | src/code/funcpurity.c:2045-2055 | One in-place effect sweep, all bits at once, with its report |
| `Inference.Summary.RunPurity` | src/code/funcpurity.c:2042-2057 | The loop with its early exit leaves what the full number of sweeps would leave; it reports convergence exactly when one of its sweeps changes no flag, and then, for any number of functions, its flags are exact; it always converges when the cap exceeds the number of functions |
| `Inference.Summary.RunEffects` | src/code/funcpurity.c:2042-2057 | The same for the effect pass: convergence is reported exactly when one of its sweeps changes no mask, and then each mask is the union of the reachable local effects |
| `Inference.InferPureFunctions` | src/code/funcpurity.c:2059-2105 | For every program: a function recorded pure has no effects; each answer is exact when its pass converged, and exact just when one more sweep would change nothing; fewer than 64 functions always converge, 64 are still exact |
| `Inference.PureHasNoEffects` | src/code/funcpurity.c:2100-2101 | After any number of sweeps no effect bit is set where the impurity bit is not |
| `Inference.PurityExactExactlyWhenSettled` | src/code/funcpurity.c:2054-2055 | Program by program: the purity recorded is "nothing impure is reachable" if and only if one more sweep would change nothing |
| `Inference.EffectsExactExactlyWhenSettled` | src/code/funcpurity.c:2054-2055 | Program by program: the masks recorded are the unions of the reachable local effects if and only if one more sweep would change nothing |
| `Inference.PurityOutcomeExact` | src/code/funcpurity.c:2099-2100 | 64 sweeps give exact purity for programs of at most 64 functions |
| `Inference.EffectsOutcomeExact` | src/code/funcpurity.c:2099-2101 | And exact masks |
| `Inference.CapMissesImpurity` | src/code/funcpurity.c:2099-2100 | For every larger number of functions there is a call chain whose first function is recorded pure although an assembly body is reachable from it |
| `Inference.CapMissesEffect` | src/code/funcpurity.c:2099-2101 | The same chain's first function is recorded without the foreign-code effect of that body |
| `Inference.CapHarmlessExactlyWhen` | src/code/funcpurity.c:2099-2101 | For the purity pass and for the effect pass: the 64-sweep cap is harmless for all programs of n functions if and only if n <= 64 |
| `Sweep.EnoughSweeps` | src/code/funcpurity.c:2042-2057 | In-place sweeps over N nodes reach the exact answer after at most N sweeps, whatever the order |
| `Sweep.SweepSound` | src/code/funcpurity.c:2042-2057 | A sweep never sets a bit that is not justified by a path |
| `Sweep.SweepsStable` | src/code/funcpurity.c:2054-2055 | Once a sweep changes nothing, no later one does |
| `Sweep.StableIsExact` | src/code/funcpurity.c:2054-2055 | A sweep that changes nothing leaves the exact answer, however large the graph |
| `Sweep.ExactExactlyWhenStable` | src/code/funcpurity.c:2054-2055 | Bits below the exact answer are exact if and only if one more sweep changes nothing |
| `Sweep.SweepsBelow` | src/code/funcpurity.c:2042-2057 | Sweeps are monotone in the base bits |
| `Sweep.CapExactlyWhen` | src/code/funcpurity.c:2042-2057 | A sweep cap is right for all graphs on n nodes if and only if it is at least n |
| `IntRange.ProvenRangeSound` | src/code/binary.c:588-745 | Whenever a range is known, every integer the expression takes lies in it, for every environment that respects the bindings of its names; of other functions only the bodies of the calls in it matter |
| `IntRange.ProvenRangeSmall` | src/code/binary.c:588-745 | Both bounds of every derived range are small integers, when the bindings' own ranges are |
| `IntRange.CallRangeSound` | src/code/binary.c:550-586 | A call's range, from the body with the argument ranges for the parameters, holds of the call's value; whatever else this body mentions, a module-level name or a parameter left to its default, must have a binding at the call that is true of it |
| `IntRange.ParamsRangeSound` | src/code/binary.c:495-548 | The analysis with parameter ranges is sound, other names being looked up in the scope |
| `IntRange.IdentRangeSound` | src/code/binary.c:588-612 | The range of a name, its binding's or that of the constant it is bound to, holds of its value |
| `IntRange.BinaryRangeSound` | src/code/binary.c:432-493 | Each operator on ranges contains each operator on integers |
| `IntRange.FourCorners` | src/code/binary.c:432-493 | A product lies between the least and the greatest corner product |
| `IntRange.ProductSound` | src/code/binary.c:432-493 | The range of a product, with its overflow checks, contains the product |
| `IntRange.QuotientSound` | src/code/binary.c:432-493 | The range of a truncating quotient contains the quotient |
| `IntRange.ShrIsQuotient` | src/code/binary.c:486-491 | The logical shift of a word that is not negative is the quotient by the power of two |
| `IntRange.ShiftSound` | src/code/binary.c:486-491 | The range of a right shift contains the shifted value |
| `IntRange.MaskSound` | src/code/binary.c:424-430 | A mask by a nonnegative literal lies between zero and the mask |
| `RawInt.RawIntExact` | src/code/binary.c:1047-1062 | If lowering succeeds and its condition evaluates true, the 64-bit word read as signed is the exact value of the expression, calls included, if and only if no nil is used; conditions concern only the names of the expression and the bodies of the calls reached from it |
| `RawInt.LowerCorrect` | src/code/binary.c:809-1036 | The same for the recursive function, under parameters whose arguments may use a nil, at every recursion depth and inside inlined calls |
| `RawInt.LowerCall` | src/code/binary.c:987-1032 | An inlined call means what its body means with the lowered arguments for parameters and the defaults for the others |
| `RawInt.IncExact` | src/code/binary.c:987-1032 | inc(i) with inc(a) { return a + 1 } lowers to i + 1 even though overload resolution (src/code/syms.c:2066-2115) names inc for every number of arguments |
| `Instructions.ArithExact` | src/code/binary.c:952-985 | Sum, difference and product: the overflow flag is set exactly when the exact result leaves 64 bits, and otherwise the word is exact |
| `Instructions.DivExact` | src/code/binary.c:884-912 | Unsigned division is the truncating quotient when the operand is known not negative, signed division always |
| `Instructions.RemExact` | src/code/binary.c:884-912 | The same for the remainder |
| `Instructions.MaskExact` | src/code/binary.c:860-878 | The masked word is the exact and of the integers |
| `Instructions.ShrExact` | src/code/binary.c:914-934 | The logical shift is exact for an operand that is not negative |
| `RawInt.ExactExactlyWhenNilFree` | src/code/binary.c:819-851 | nil is an integer literal 0 to the lowering: for expressions without calls a usable word is the value if and only if no nil is written in it or in the initialiser of a constant it mentions |
| `RawInt.NilReadAsZero` | src/code/binary.c:809-1036 | Read with nil as the number 0, every expression, calls included, is lowered exactly |
| `RawInt.LowerZero` | src/code/binary.c:809-1036 | The lowering is the same in both readings of nil |
| `RawInt.NilPlusOne` | src/code/binary.c:819-823 | nil + 1 lowers to the usable word 1 |
| `RawInt.NilConstantPlusOne` | src/code/binary.c:845-851 | So does x + 1 for a constant x bound to nil, although no nil is written in it |
| `RawInt.InlinedNameExactlyWhen` | src/code/binary.c:824-858 | For every inlined `return x` with x not among the parameters supplied, whatever the arguments, a usable word is the value of the call if and only if what x is taken for at the call is its value in the body: its default, or its value at module level |
| `RawInt.CaptureIsWrong` | src/code/binary.c:824-858 | Two such calls, of a body with a module-level x and of one with a defaulted parameter x, in a scope with its own x: a usable word that is the caller's variable |
| `TaggedInt.TagKeepsSmall` | src/code/binary.c:18-32 | A word is tagged and untagged without loss exactly for small integers |
| `TaggedInt.TagKeepsOrder` | src/code/binary.c:1439-1453 | Signed comparison and equality of tagged words are those of the integers |
| `TaggedInt.SurvivesShiftIff` | src/code/binary.c:10-16 | The run-time range check passes exactly the 62-bit integers, one bit fewer than a tagged word carries |
| `TaggedInt.GuardedFastExact` | src/code/binary.c:1796-1817 | The guarded block yields the tagged exact result when that has 62 bits and goes to the slow call otherwise |
| `TaggedInt.UnguardedFastExactlyWhen` | src/code/binary.c:1390-1403 | Without the guard the block is right if and only if the exact result is a small integer |
| `TaggedInt.ShiftAndMask` | src/code/binary.c:1409-1418 | Arithmetic shift and mask by 2^k give x = 2^k * q + r with 0 <= r < 2^k |
| `TaggedInt.ShiftIsTruncationExactlyWhen` | src/code/binary.c:1818-1829 | They agree with truncating division and remainder if and only if x >= 0 or 2^k divides x |
| `TopoSort.EachOnce` | src/code/core.c:2376-2437 | Whatever the graph and the stack bound, each module is emitted exactly once |
| `ModuleOrder.ProgramOrdered` | src/code/core.c:2330-2442 | For every program of at most 4096 modules whose bodies import at most 256 modules each, by its use statements: a module that comes before one it uses is itself used, directly or not, by that one |
| `ModuleOrder.ProgramDependencyFirst` | src/code/core.c:2330-2442 | Such a program without cyclic uses is ordered dependency first |
| `ModuleOrder.CapsSufficeExactlyWhen` | src/code/core.c:2298-2442 | All acyclic programs of n modules importing at most t modules each are ordered dependency first if and only if n <= 4096 and t <= 256, or nothing can be used (n <= 1 or t = 0) |
| `ModuleOrder.ChainProgramFails` | src/code/core.c:2420-2421 | The failing family of the stack: a chain of uses longer than 4096 |
| `ModuleOrder.CrowdedProgramFails` | src/code/core.c:2308-2326 | The failing family of the list: the 257th import of a body is lost, and the first module comes before the one it uses |
| `TopoSort.ChainTooLong` | src/code/core.c:2420-2421 | For any stack bound, a dependency chain longer than the stack is out of order |
| `TopoSort.StepMeasure` | src/code/core.c:2392-2436 | Each turn lowers (fresh modules, frames) lexicographically, so the search ends on cyclic graphs too |
| `TopoSort.TopoSortModules` | src/code/core.c:2339-2442 | The order array receives the statement indices of the search, as many as fit |
| `TopoSort.Search.Turn` | src/code/core.c:2393-2435 | One turn on the arrays is one step of the state machine |
| `TopoSort.Search.FindChild` | src/code/core.c:2400-2418 | The scan for the next dependency to descend into |
| `TopoSort.CollectDeps` | src/code/core.c:2298-2328 | The collecting loop with its duplicate search |
| `TopoSort.DepsExact` | src/code/core.c:2298-2328 | The list has no repeats, only whole-module imports, at most 256 |
| `TopoSort.DepsCompleteExactlyWhen` | src/code/core.c:2298-2328 | It holds every whole-module import of the body if and only if there are at most 256 different ones |
| `LinkClosure.BuildLinkAllowed` | src/code/core.c:1650-1704 | On every use graph, cyclic or not, the worklist ends with exactly the modules reached from the seeds, each once |
| `LinkClosure.Drain` | src/code/core.c:1682-1702 | The loop keeps the invariant; it ends by (unexpanded modules, queue length) |
| `LinkClosure.ExpandInv` | src/code/core.c:1689-1700 | Expanding a module keeps: everything found is reached, and uses are found or queued |
| `LinkClosure.DoneInv` | src/code/core.c:1682-1703 | An empty queue means the list is the reachable set |
| `LinkClosure.Has` | src/code/core.c:1508-1517 | Membership |
| `LinkClosure.LinkAllowedExact` | src/code/core.c:1706-1726 | Of the lib modules exactly the reachable ones may link their libraries, plus the compiled module, or all, when there is nothing to start from |
| `FfiExpr.ParseIntegerExpr` | src/code/fficlang.c:1826-1839 | The evaluator on a moving cursor computes the parse of the whole text |
| `FfiExpr.TextOfTree` | src/code/fficlang.c:1826-1839 | On the text of any concrete tree, spaces and parentheses anywhere, all input is consumed and the value is the tree's; it fails exactly when the tree has no value |
| `FfiExpr.AcceptsExactly` | src/code/fficlang.c:1826-1839 | A text evaluates to v if and only if it is the text of some tree with value v |
| `FfiExpr.ParsedTree` | src/code/fficlang.c:1637-1824 | Whatever is accepted was read as the text of a tree, with that tree's value |
| `FfiExpr.TreeParse` | src/code/fficlang.c:1637-1824 | Every level parses the text of a tree of its level and stops right behind it |
| `FfiExpr.SpineParse` | src/code/fficlang.c:1710-1824 | The operator loops associate to the left |
| `FfiExpr.PrintParse` | src/code/fficlang.c:1616-1839 | Printing with minimal parentheses and evaluating gives the value; failure exactly for a zero divisor, a shift count outside 0..62 or an unknown name |
| `FfiExpr.PrintKeeps` | src/code/fficlang.c:1710-1824 | The printer's tree has the precedence it was printed for and the same value |
| `FfiExpr.DecimalLiteral` | src/code/fficlang.c:1584-1614 | Decimal digits of a number below 2^63 read back as that number |
| `FfiExpr.IntExpr.Level` | src/code/fficlang.c:1710-1824 | One precedence level on the cursor computes the specification and moves the cursor to its rest |
| `FfiExpr.IntExpr.Operators` | src/code/fficlang.c:1714-1733 | One operator loop |
| `FfiExpr.IntExpr.Unary` | src/code/fficlang.c:1690-1708 | Signs |
| `FfiExpr.IntExpr.Primary` | src/code/fficlang.c:1637-1688 | Parentheses, numbers and names |
| `FfiExpr.IntExpr.AcceptOp` | src/code/fficlang.c:1626-1633 | The chain of accepts picks the operator of the level at the cursor and moves behind it |
| `Probe.EmptyWithinReach` | src/base/intern.c:114-122 | Every probe loop ends: a table that is not full has an empty slot within one round of any start |
| `Probe.BeforeGap` | src/base/intern.c:114-122 | An item of the table is met before the first empty slot from its home |
| `Probe.InsertValid` | src/base/intern.c:73-81 | Filling the first empty slot keeps every item findable and adds exactly that item |
| `Probe.Rehash` | src/base/intern.c:37-59 | Growth moves every item to a table where it is findable, and no other |
| `Interner.SameIdIffEqual` | src/base/intern.c:103-159 | Over any run of calls two nonempty strings get the same id if and only if they are equal |
| `Interner.RunKeeps` | src/base/intern.c:103-171 | Earlier strings and ids never change, and the id a call returned still stands for its string at the end |
| `Interner.StepKeeps` | src/base/intern.c:129-134 | Ids are dense: a call adds at most one string, at the end |
| `Interner.Interner.Intern` | src/base/intern.c:103-159 | The id and the new table are those of the abstract call, old entries stay, and the pointers grow by the new one only; through table, map and pointer-map growth |
| `Interner.Interner.Enter` | src/base/intern.c:124-158 | A new entry: doubling, cache, pointer map, id map and its growth |
| `Interner.Find` | src/base/intern.c:110-122 | The search finds the id of the string, or proves it absent and stands at its empty slot |
| `Interner.Refill` | src/base/intern.c:141-156 | The regrown id map holds exactly the ids, each where a probe for its hash meets it |
| `Interner.Interner.PtrMapPut` | src/base/intern.c:61-82 | The pointer set gains exactly the pointer, with growth |
| `Interner.Interner.Init` | src/base/intern.c:84-101 | The first use creates the table with the empty string, and no later one does |
| `Interner.Interner.Get` | src/base/intern.c:167-171 | The string of an id, the empty string beyond the table |
| `Interner.Interner.ContainsPtr` | src/base/intern.c:173-191 | True exactly for the pointers handed out, in every valid state; refilling the cache keeps that |
| `Interner.LookupPtr` | src/base/intern.c:181-190 | The probe behind the cache is membership |
| `Interner.Interner.Cleanup` | src/base/intern.c:193-213 | After cleanup nothing is remembered, cache included, and the interner can be used again |
| `Arena.AlignUpExact` | src/base/common.h:323-329 | The mask trick is rounding up to a multiple for every power of two, unless the sum wraps |
| `Arena.AlignUpLeast` | src/base/common.h:323-329 | Rounding up gives the least multiple not below |
| `Arena.PowerTestExact` | src/base/common.h:357 | align & (align - 1) is zero exactly for powers of two |
| `Arena.EffectiveAlign` | src/base/common.h:355-358 | The alignment used is a power of two, at least a word, and the requested one when that qualifies |
| `Arena.RequestOf` | src/base/common.h:353-370 | The size served is at least the size asked for and a multiple of the alignment |
| `Arena.Arena.AllocAligned` | src/base/common.h:352-399 | The block is aligned, lies in its region behind what the region held and meets no live block; the first region with room from the current one serves it, a fresh one otherwise, which always has room |
| `Arena.PlaceKeeps` | src/base/common.h:373-383 | Taking a block at the end of a region keeps all live blocks apart and in their regions |
| `Arena.Arena.PushRegion` | src/base/common.h:341-350 | A region apart from all others keeps the arena valid |
| `Arena.Arena.Reset` | src/base/common.h:412-422 | Every region is empty, none is given up, nothing is live |
| `NameSets.FilterExact` | src/code/code.h:14-40 | The filter lets a hash through exactly when both its low bytes have been added, each by some hash |
| `NameSets.NeverMissed` | src/code/code.h:25-40 | No false negatives |
| `NameSets.BitAdded` | src/code/code.h:14-23 | Adding sets the bit of the byte and no other |
| `NameSets.NameList.Has` | src/code/code.h:198-224 | Filter, hash comparison and list together are membership |
| `NameSets.NameList.Add` | src/code/code.h:236-249 | A name is appended once; list, hashes and filter stay in step |
| `NameSets.NameList.Restore` | src/code/funcpurity.c:329-344 | The list is cut back to the checkpoint and the filter is exactly the one of that prefix |
| `NameSets.Walk` | src/code/funcpurity.c:303-344 | Every properly nested run of declarations, lookups and scopes answers as a plain set does |
| `NameSets.WalkItem` | src/code/funcpurity.c:303-344 | Leaving a scope gives back exactly the list at the matching save |
| `NameSets.ContainsHash` | src/code/core.c:435-451 | At most one round of probing decides membership |
| `NameSets.LazyNames.Insert` | src/code/core.c:453-473 | A name is entered exactly once, the set grows before it is 70 percent full |
| `NameSets.LazyNames.Grow` | src/code/core.c:409-433 | Growth keeps the names |
| `NameSets.LazyNames.Contains` | src/code/core.c:484-496 | Filter, then set, or the list while there is none: membership |
| `NameSets.LazyNames.Add` | src/code/core.c:498-513 | List, filter and set agree after every addition |
| `Levenshtein.Distance` | src/base/util.c:644-697 | The single-row loop, with its argument swap, returns the recursive edit distance |
| `Levenshtein.NextRow` | src/base/util.c:669-691 | One pass overwrites the row in place by the next one, carrying diagonal and left |
| `Levenshtein.RowFollows` | src/base/util.c:669-691 | Each row follows from the one above by the recurrence of the loop |
| `Levenshtein.Symmetric` | src/base/util.c:648-650 | The distance is symmetric, which the swap relies on |
| `Levenshtein.NoCheaper` | src/base/util.c:644-697 | No edit script that makes one string of the other costs less than the distance |
| `Levenshtein.Cheapest` | src/base/util.c:644-697 | Some edit script costs exactly the distance |
| `WinQuote.RoundTrip` | src/base/process.c:38-71 | Parsing the joined text by the runtime's rules for arguments gives back every list of arguments, by the older and the newer rule for doubled quotes |
| `WinQuote.CommandRoundTripExactlyWhen` | src/base/process.c:73-87 | With the program name read by its own rules, the whole list comes back if and only if the name has no quote and no final backslash |
| `WinQuote.ScanEscaped` | src/base/process.c:43-70 | The escaped text of an argument is read back and its closing quote ends the quoting |
| `WinQuote.Buffer.QuoteArg` | src/base/process.c:38-71 | The first writer appends the separator and the quoted argument |
| `WinQuote.Buffer.CmdArg` | src/base/run.c:68-101 | The second writer appends the same text |
| `WinQuote.Buffer.Append` | src/base/process.c:9-33 | The text grows by exactly the data and stays terminated, through reallocation |
| `WinQuote.CaptureCommand` | src/base/process.c:73-87 | Refused exactly for no command, an empty command or a text at the limit; otherwise the joined line |
| `WinQuote.RunCommand` | src/base/run.c:143-150 | The joined line, by the second writer |
| `Loader.RoundTrip` | src/base/loader.c:531-668 | Loading a saved file at the same time restores the same modules in the same order, and the source time |
| `Loader.TruncatedRefused` | src/base/loader.c:531-630 | Every proper prefix of a saved file is refused and an empty list stays empty |
| `Loader.OtherTimeRefused` | src/base/loader.c:543-547 | A file of another time is refused and changes nothing |
| `Loader.RefusedKnownExactlyWhen` | src/base/loader.c:531-630 | For every refused file, by its bytes: one of another kind or time leaves the source time as it was; any other leaves it known exactly when it carries one and ends within the count, or nothing was listed and its first record is cut short or unreadable |
| `Loader.RecordBack` | src/base/loader.c:571-621 | One record is read back whatever follows it |
| `Loader.ShortRecord` | src/base/loader.c:571-613 | No proper prefix of a record is read as one |
| `Loader.PushKeeps` | src/base/loader.c:120-138 | Pushing keeps names distinct and earlier modules in place |
| `Loader.Index.PushMod` | src/base/loader.c:120-138 | The first module of a name stays |
| `Loader.Index.LoadCache` | src/base/loader.c:531-630 | The sequential reads compute the specified outcome, list and time, accepted or not |
| `Loader.Index.LoadRecords` | src/base/loader.c:571-621 | The record loop |
| `Loader.Index.SaveCache` | src/base/loader.c:632-668 | The bytes written are the specified file |
| `Loader.Index.FreeModules` | src/base/loader.c:140-161 | The list and the time are cleared, but only if there is a list |

## Left out

- Scc.MarkRecursive: takes sorted callee lists and cleared flags, as its one caller prepares them (src/code/funcpurity.c:2224-2253); with flags already set it would only keep and not count them.
- Scc: the collection of the call graph from bodies is an input; it does not enter guard, try and defer bodies, so those calls are missing from the graph.
- Inference.InferPureFunctions: models the purity and effect passes; the memoisation and escape passes run the same loop over other fields. Distinct signatures are taken to have distinct records.
- Purity: name resolution is given, as are the targets of calls; std and lib functions count as impure with all effects.
- IntRange: calls of len, load8, get and now_ms, to which the source gives a range of their own, have no known range in the model; environment switches are off.
- RawInt.InlinedNameExactlyWhen: the default of a parameter is one given value; the source evaluates a default expression in the scope of each call that passes no argument.
- IntRange: all functions share one module level of names.
- RawInt.RawIntExact: holds for evaluation to any depth of inlined calls from 25 on; the lowering itself stops at 24. The slot variant behind NYTRIX_RAW_INT_SLOT_EXPR_FAST is a stored raw word like the direct one.
- RawInt: LLVM instructions are trees of 64-bit operations with a meaning, and the thread-local call stack is a list passed along; blocks, metadata and the builder are not modelled.
- TaggedInt: bigint, float and pointer paths, and right shifts of negative numbers.
- FfiExpr.ParseIntegerExpr: overflow of C operators, undefined in C, wraps around in the model; the signed-number branch of the primary is never reached, since signs are taken one level up.
- FfiExpr: numbers are read up to 127 characters as in the source; the value of a name is an arbitrary lookup.
- TopoSort: names of modules are given by the statements; a missing name matches nothing.
- LinkClosure: a statement is reduced to the parts the walks enter; the environment switch is a parameter.
- Interner: a probe start is the hash modulo the capacity, which is the mask for the powers of two in use; freed memory and failing allocation are not modelled, and ids are not cut to 32 bits.
- Arena.Arena.AllocAligned: addresses stay below 2^62 and requests below 2^61, so that no sum wraps; regions are a list instead of a chain of headers, zero-filling and the call without an arena are not modelled.
- NameSets: the hash list always has the length of the name list, as every addition keeps it.
- Levenshtein: lengths fit an int; the choice between stack and heap row is not modelled.
- WinQuote: process creation and pipes; the size overflow check of the append.
- Loader: opening the file, directory creation, the hash tables freed with the list, and reading 8-byte numbers as signed.
- Option parsing, diagnostics, curl, file scanning, process supervision: input and output.
- Lazy reachability of the standard library, escape summaries, constant folding of floats: not modelled.
- strbuf.h, hash.c, args.c: easy next to the modules above.
