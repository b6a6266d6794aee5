/** infer_pure_functions of src/code/funcpurity.c: the purity pass and then the
    effect pass, each a bounded number of in-place sweeps over the functions. */
module Inference {
  import opened Ast
  import opened Purity
  import opened Reachability
  import opened Sweep

  /** The cap on sweeps of one pass. */
  const MAX_ITERS: nat := 64

  /** A function that takes part in the inference; `names` is name resolution in its module. */
  datatype Function = Function(name: string, thread: bool, naked: bool, params: seq<string>, body: Stmt, names: Names) {
    function ParamScope(): Scope {
      AddAll({}, params)
    }
  }

  /** ny_func_decl_is_pure, with `ok` answering for the analysed callees. */
  predicate DeclPure(f: Function, ok: nat -> bool) {
    && f.body != NoStmt && f.name != "" && !f.thread && !f.naked
    && SafeStmt(f.names, false, ok, f.body, f.ParamScope()).ok
  }

  /** ny_func_decl_effects, with `fx` answering for the analysed callees. */
  function DeclEffects(f: Function, fx: nat -> set<Effect>): set<Effect> {
    if f.body == NoStmt then ALL_EFFECTS
    else (if f.thread then {Thread} else {}) + (if f.naked then {Ffi} else {})
         + FxStmt(f.names, fx, f.body, f.ParamScope()).effects
  }

  /** The analysed functions the body calls. */
  function Callees(f: Function): set<nat> {
    if f.body == NoStmt then {} else FxStmt(f.names, SILENT, f.body, f.ParamScope()).callees
  }

  /** Every analysed callee has an index. */
  predicate WellFormed(prog: seq<Function>) {
    forall f :: 0 <= f < |prog| ==> forall g :: g in Callees(prog[f]) ==> g < |prog|
  }

  /** ny_sig_is_pure of an analysed callee, from the flags recorded now. */
  predicate PureAt(prog: seq<Function>, isPure: seq<bool>, g: nat) {
    g < |prog| && g < |isPure| && !prog[g].thread && !prog[g].naked && isPure[g]
  }

  function PureNow(prog: seq<Function>, isPure: seq<bool>): nat -> bool {
    (g: nat) => PureAt(prog, isPure, g)
  }

  /** ny_sig_effects of an analysed callee, from the masks recorded now. */
  function EffectsNow(effects: seq<set<Effect>>): nat -> set<Effect> {
    (g: nat) => if g < |effects| then effects[g] else {}
  }

  // ------------------------------------------------------------ specification side

  function CallGraph(prog: seq<Function>): seq<set<nat>> {
    seq(|prog|, f requires 0 <= f < |prog| => Callees(prog[f]))
  }

  /** Base bit: the function is impure on its own. */
  function PuritySystem(prog: seq<Function>): (sys: System)
    requires WellFormed(prog)
    ensures sys.Valid() && |sys.base| == |prog|
  {
    System(seq(|prog|, f requires 0 <= f < |prog| => !DeclPure(prog[f], ANY)), CallGraph(prog))
  }

  /** Base bit: the function has effect `x` on its own. */
  function EffectSystem(prog: seq<Function>, x: Effect): (sys: System)
    requires WellFormed(prog)
    ensures sys.Valid() && |sys.base| == |prog|
  {
    System(seq(|prog|, f requires 0 <= f < |prog| => x in DeclEffects(prog[f], SILENT)), CallGraph(prog))
  }

  /** `g` is reached from `f` along calls. */
  ghost predicate Calls(prog: seq<Function>, f: nat, g: nat) {
    g < |prog| && Reaches(System(seq(|prog|, _ => false), CallGraph(prog)).Edges(), f, g)
  }

  /** Impurity as the callers see it. */
  function ImpureBits(prog: seq<Function>, isPure: seq<bool>): (bits: seq<bool>) {
    seq(|prog|, f requires 0 <= f < |prog| => !PureAt(prog, isPure, f))
  }

  function EffectBits(effects: seq<set<Effect>>, x: Effect): (bits: seq<bool>) {
    seq(|effects|, f requires 0 <= f < |effects| => x in effects[f])
  }

  // ------------------------------------------------ one recomputation is one rule step

  lemma PurityIsRule(prog: seq<Function>, isPure: seq<bool>, f: nat)
    requires WellFormed(prog) && f < |prog| == |isPure|
    ensures DeclPure(prog[f], PureNow(prog, isPure)) <==> !Rule(PuritySystem(prog), ImpureBits(prog, isPure), f)
  {
    var d := prog[f];
    var bits := ImpureBits(prog, isPure);
    SafeSplitStmt(d.names, false, PureNow(prog, isPure), d.body, d.ParamScope());
    SafeSplitStmt(d.names, false, ANY, d.body, d.ParamScope());
    assert forall g :: g in Callees(d) ==> g < |bits| && bits[g] == !PureAt(prog, isPure, g);
  }

  lemma EffectsIsRule(prog: seq<Function>, effects: seq<set<Effect>>, f: nat, x: Effect)
    requires WellFormed(prog) && f < |prog| == |effects|
    ensures x in DeclEffects(prog[f], EffectsNow(effects)) <==> Rule(EffectSystem(prog, x), EffectBits(effects, x), f)
  {
    var d := prog[f];
    var bits := EffectBits(effects, x);
    FxSplitStmt(d.names, EffectsNow(effects), x, d.body, d.ParamScope());
    if d.body != NoStmt {
      if FromCallee(EffectsNow(effects), x, Callees(d)) {
        var g :| g in Callees(d) && x in EffectsNow(effects)(g);
        assert bits[g];
      }
      assert forall g :: g in Callees(d) ==> g < |bits| && (bits[g] <==> x in EffectsNow(effects)(g));
    }
  }

  /** A function that is pure on its own has no effect on its own. */
  lemma LocallyPureIsQuiet(f: Function)
    requires DeclPure(f, ANY)
    ensures DeclEffects(f, SILENT) == {}
  {
    SafeSplitStmt(f.names, false, ANY, f.body, f.ParamScope());
  }

  // --------------------------------------------------------------------- the passes

  class Summary {
    const prog: seq<Function>
    const isPure: array<bool>
    const effects: array<set<Effect>>

    ghost predicate Ok() {
      WellFormed(prog) && isPure.Length == effects.Length == |prog|
    }

    constructor (prog: seq<Function>)
      requires WellFormed(prog)
      ensures Ok() && this.prog == prog && fresh(isPure) && fresh(effects)
      ensures forall f :: 0 <= f < |prog| ==> isPure[f] && effects[f] == {}
    {
      this.prog := prog;
      isPure := new bool[|prog|](_ => true);
      effects := new set<Effect>[|prog|](_ => {});
    }

    /** ny_apply_infer_pass_to_sig for the purity pass: one flag recomputed in place. */
    method ApplyPurity(i: nat) returns (changed: bool)
      requires Ok() && i < |prog|
      modifies isPure
      ensures isPure[..] == old(isPure[..])[i := DeclPure(prog[i], PureNow(prog, old(isPure[..])))]
      ensures isPure[i] ==> !prog[i].thread && !prog[i].naked
      ensures changed <==> isPure[i] != old(isPure[i])
      ensures var bits := ImpureBits(prog, old(isPure[..]));
              ImpureBits(prog, isPure[..]) == bits[i := Rule(PuritySystem(prog), bits, i)]
    {
      ghost var before := isPure[..];
      PurityIsRule(prog, before, i);
      var pure := DeclPure(prog[i], PureNow(prog, isPure[..]));
      changed := false;
      if isPure[i] != pure {
        isPure[i] := pure;
        changed := true;
      }
      PurityStored(prog, before, i, pure);
      assert isPure[..] == before[i := pure];
    }

    /** One purity sweep. */
    method PuritySweep() returns (changed: bool)
      requires Ok()
      modifies isPure
      ensures ImpureBits(prog, isPure[..]) == SweepFrom(PuritySystem(prog), ImpureBits(prog, old(isPure[..])), 0)
      ensures (changed <==> isPure[..] != old(isPure[..])) && Tidy(prog, isPure[..])
    {
      changed := false;
      ghost var before, first := isPure[..], 0;
      ghost var sys, goal := PuritySystem(prog), SweepFrom(PuritySystem(prog), ImpureBits(prog, isPure[..]), 0);
      var i := 0;
      while i < |prog|
        invariant 0 <= i <= |prog| && |before| == |prog|
        invariant SweepFrom(sys, ImpureBits(prog, isPure[..]), i) == goal
        invariant isPure[i..] == before[i..]
        invariant if changed then 0 <= first < i && isPure[first] != before[first] else isPure[..] == before
        invariant forall f :: 0 <= f < i && isPure[f] ==> !prog[f].thread && !prog[f].naked
      {
        assert isPure[i] == isPure[i..][0] == before[i];
        var stirred := ApplyPurity(i);
        if stirred {
          first := if changed then first else i;
          changed := true;
        }
        i := i + 1;
      }
    }

    /** ny_apply_infer_pass_to_sig for the effect pass: one mask recomputed in place. */
    method ApplyEffects(i: nat) returns (changed: bool)
      requires Ok() && i < |prog|
      modifies effects
      ensures effects[..] == old(effects[..])[i := DeclEffects(prog[i], EffectsNow(old(effects[..])))]
      ensures changed <==> effects[i] != old(effects[i])
      ensures MasksApplied(prog, old(effects[..]), effects[..], i)
    {
      ghost var before := effects[..];
      var fx := DeclEffects(prog[i], EffectsNow(effects[..]));
      changed := false;
      if effects[i] != fx {
        effects[i] := fx;
        changed := true;
      }
      assert effects[..] == before[i := fx];
      forall x
        ensures MaskApplied(prog, before, effects[..], i, x)
      {
        EffectsIsRule(prog, before, i, x);
        EffectsStored(before, i, fx, x);
      }
    }

    /** One effect sweep. */
    method EffectSweep() returns (changed: bool)
      requires Ok()
      modifies effects
      ensures MasksSwept(prog, old(effects[..]), effects[..], |prog|)
      ensures changed <==> effects[..] != old(effects[..])
    {
      changed := false;
      ghost var before, first := effects[..], 0;
      var i := 0;
      while i < |prog|
        invariant 0 <= i <= |prog| && |before| == |prog|
        invariant MasksSwept(prog, before, effects[..], i)
        invariant effects[i..] == before[i..]
        invariant if changed then 0 <= first < i && effects[first] != before[first] else effects[..] == before
      {
        assert effects[i] == effects[i..][0] == before[i];
        ghost var now := effects[..];
        var stirred := ApplyEffects(i);
        MasksStep(prog, before, now, effects[..], i);
        if stirred {
          first := if changed then first else i;
          changed := true;
        }
        i := i + 1;
      }
    }

    /** ny_run_infer_fixed_point for the purity pass; `converged` says whether the loop was
        left because one of its sweeps changed nothing. */
    method RunPurity(maxIters: nat) returns (ghost converged: bool)
      requires Ok() && forall f :: 0 <= f < |prog| ==> isPure[f]
      modifies isPure
      ensures ImpureBits(prog, isPure[..]) == Sweeps(PuritySystem(prog), ImpureBits(prog, old(isPure[..])), maxIters)
      ensures converged <==> PurityStops(prog, old(isPure[..]), maxIters)
      ensures converged ==> PurityExact(prog, isPure[..])
      ensures maxIters > |prog| ==> converged
    {
      ghost var first := isPure[..];
      PurityStart(prog, first);
      converged := false;
      var iter := 0;
      while iter < maxIters
        invariant 0 <= iter <= maxIters && !converged
        invariant PurityGoing(prog, first, isPure[..], iter)
      {
        ghost var before := isPure[..];
        var changed := PuritySweep();
        if !changed {
          PurityStopped(prog, first, before, iter, maxIters);
          converged := true;
          break;
        }
        PurityWentOn(prog, first, before, isPure[..], iter);
        iter := iter + 1;
      }
      if !converged {
        PurityCutShort(prog, first, isPure[..], maxIters);
      }
    }

    /** The same for the effect pass. */
    method RunEffects(maxIters: nat) returns (ghost converged: bool)
      requires Ok() && forall f :: 0 <= f < |prog| ==> effects[f] == {}
      modifies effects
      ensures forall x :: EffectBits(effects[..], x)
                          == Sweeps(EffectSystem(prog, x), EffectBits(old(effects[..]), x), maxIters)
      ensures converged <==> EffectsStops(prog, old(effects[..]), maxIters)
      ensures converged ==> EffectsExact(prog, effects[..])
      ensures maxIters > |prog| ==> converged
    {
      ghost var first := effects[..];
      EffectsStart(prog, first);
      converged := false;
      var iter := 0;
      while iter < maxIters
        invariant 0 <= iter <= maxIters && !converged
        invariant EffectsGoing(prog, first, effects[..], iter)
      {
        ghost var before := effects[..];
        var changed := EffectSweep();
        if !changed {
          EffectsStopped(prog, first, before, iter, maxIters);
          converged := true;
          break;
        }
        EffectsWentOn(prog, first, before, effects[..], iter);
        iter := iter + 1;
      }
      if !converged {
        EffectsCutShort(prog, first, effects[..], maxIters);
      }
    }
  }

  /** The bit of `x` of function `i` is recomputed by the rule, and no other. */
  ghost predicate MaskApplied(prog: seq<Function>, a: seq<set<Effect>>, b: seq<set<Effect>>, i: nat, x: Effect)
    requires WellFormed(prog) && |a| == |b| == |prog| && i < |prog|
  {
    EffectBits(b, x) == EffectBits(a, x)[i := Rule(EffectSystem(prog, x), EffectBits(a, x), i)]
  }

  ghost predicate MasksApplied(prog: seq<Function>, a: seq<set<Effect>>, b: seq<set<Effect>>, i: nat)
    requires WellFormed(prog) && |a| == |b| == |prog| && i < |prog|
  {
    forall x :: MaskApplied(prog, a, b, i, x)
  }

  /** The first `i` functions of a sweep from `first` have been recomputed. */
  ghost predicate MasksSwept(prog: seq<Function>, first: seq<set<Effect>>, now: seq<set<Effect>>, i: nat)
    requires WellFormed(prog) && |first| == |now| == |prog| && i <= |prog|
  {
    forall x :: MaskSwept(prog, first, now, i, x)
  }

  ghost predicate MaskSwept(prog: seq<Function>, first: seq<set<Effect>>, now: seq<set<Effect>>, i: nat, x: Effect)
    requires WellFormed(prog) && |first| == |now| == |prog| && i <= |prog|
  {
    SweepFrom(EffectSystem(prog, x), EffectBits(now, x), i) == SweepFrom(EffectSystem(prog, x), EffectBits(first, x), 0)
  }

  lemma MasksStep(prog: seq<Function>, first: seq<set<Effect>>, a: seq<set<Effect>>, b: seq<set<Effect>>, i: nat)
    requires WellFormed(prog) && |first| == |a| == |b| == |prog| && i < |prog|
    requires MasksSwept(prog, first, a, i) && MasksApplied(prog, a, b, i)
    ensures MasksSwept(prog, first, b, i + 1)
  {
    var next := i + 1;
    forall x
      ensures MaskSwept(prog, first, b, next, x)
    {
      assert MaskSwept(prog, first, a, i, x) && MaskApplied(prog, a, b, i, x);
    }
  }

  /** `k` sweeps from `first` have led to `now`. */
  ghost predicate EffectsRun(prog: seq<Function>, first: seq<set<Effect>>, now: seq<set<Effect>>, k: nat) {
    EffectsKnown(prog, now, k) && |first| == |prog| && forall x :: MaskRun(prog, first, now, k, x)
  }

  ghost predicate MaskRun(prog: seq<Function>, first: seq<set<Effect>>, now: seq<set<Effect>>, k: nat, x: Effect)
    requires WellFormed(prog) && |first| == |now| == |prog|
  {
    EffectBits(now, x) == Sweeps(EffectSystem(prog, x), EffectBits(first, x), k)
  }

  lemma PurityStored(prog: seq<Function>, isPure: seq<bool>, i: nat, pure: bool)
    requires i < |prog| == |isPure| && (pure ==> !prog[i].thread && !prog[i].naked)
    ensures ImpureBits(prog, isPure[i := pure]) == ImpureBits(prog, isPure)[i := !pure]
  {
  }

  lemma EffectsStored(effects: seq<set<Effect>>, i: nat, fx: set<Effect>, x: Effect)
    requires i < |effects|
    ensures EffectBits(effects[i := fx], x) == EffectBits(effects, x)[i := x in fx]
  {
  }

  // -------------------------------------------------------------------- the results

  /** After a sweep no thread or naked function is recorded pure. */
  predicate Tidy(prog: seq<Function>, isPure: seq<bool>)
    requires |isPure| == |prog|
  {
    forall f :: 0 <= f < |prog| && isPure[f] ==> !prog[f].thread && !prog[f].naked
  }

  /** One more sweep of the purity pass changes no answer. */
  ghost predicate PuritySettled(prog: seq<Function>, isPure: seq<bool>) {
    WellFormed(prog) && |isPure| == |prog| && Stable(PuritySystem(prog), ImpureBits(prog, isPure))
  }

  /** Of the sweeps from `first`, the one after `k` changes no flag.  Flags that were never
      recomputed may be wrong about thread and naked functions, whose bits ignore them. */
  ghost predicate PurityStill(prog: seq<Function>, first: seq<bool>, k: nat) {
    && WellFormed(prog) && |first| == |prog| && (k == 0 ==> Tidy(prog, first))
    && Stable(PuritySystem(prog), Sweeps(PuritySystem(prog), ImpureBits(prog, first), k))
  }

  /** One of the first `n` sweeps changes no flag. */
  ghost predicate PurityStops(prog: seq<Function>, first: seq<bool>, n: nat) {
    exists k: nat :: k < n && PurityStill(prog, first, k)
  }

  /** Of the sweeps from `first`, the one after `k` changes no mask. */
  ghost predicate EffectsStill(prog: seq<Function>, first: seq<set<Effect>>, k: nat) {
    WellFormed(prog) && |first| == |prog| && forall x :: MaskStill(prog, first, k, x)
  }

  /** One of the first `n` sweeps changes no mask. */
  ghost predicate EffectsStops(prog: seq<Function>, first: seq<set<Effect>>, n: nat) {
    exists k: nat :: k < n && EffectsStill(prog, first, k)
  }

  ghost predicate MaskStill(prog: seq<Function>, first: seq<set<Effect>>, k: nat, x: Effect)
    requires WellFormed(prog) && |first| == |prog|
  {
    Stable(EffectSystem(prog, x), Sweeps(EffectSystem(prog, x), EffectBits(first, x), k))
  }

  /** One more sweep of the effect pass changes no mask. */
  ghost predicate EffectsSettled(prog: seq<Function>, effects: seq<set<Effect>>) {
    WellFormed(prog) && |effects| == |prog| && forall x :: Stable(EffectSystem(prog, x), EffectBits(effects, x))
  }

  /** The flags after `k` sweeps: not too low, and right about what is fewer than `k` calls away. */
  ghost predicate PurityKnown(prog: seq<Function>, isPure: seq<bool>, k: nat) {
    && WellFormed(prog) && |isPure| == |prog|
    && PuritySystem(prog).Sound(ImpureBits(prog, isPure)) && Knows(PuritySystem(prog), ImpureBits(prog, isPure), 0, k)
  }

  ghost predicate EffectsKnown(prog: seq<Function>, effects: seq<set<Effect>>, k: nat) {
    && WellFormed(prog) && |effects| == |prog|
    && forall x :: MaskKnown(prog, effects, k, x)
  }

  ghost predicate MaskKnown(prog: seq<Function>, effects: seq<set<Effect>>, k: nat, x: Effect)
    requires WellFormed(prog) && |effects| == |prog|
  {
    var sys := EffectSystem(prog, x);
    sys.Sound(EffectBits(effects, x)) && Knows(sys, EffectBits(effects, x), 0, k)
  }

  /** The start of both passes is below the exact answer. */
  lemma PurityStart(prog: seq<Function>, isPure: seq<bool>)
    requires WellFormed(prog) && |isPure| == |prog| && forall f :: 0 <= f < |prog| ==> isPure[f]
    ensures PurityKnown(prog, isPure, 0)
  {
    forall f: nat | f < |prog| && ImpureBits(prog, isPure)[f]
      ensures PuritySystem(prog).Tainted(f)
    {
      assert PuritySystem(prog).base[f];
      ReachesSelf(PuritySystem(prog).Edges(), f);
    }
  }

  /** The same, and each of those sweeps changed something. */
  ghost predicate EffectsGoing(prog: seq<Function>, first: seq<set<Effect>>, now: seq<set<Effect>>, k: nat) {
    && EffectsRun(prog, first, now, k) && k <= |prog|
    && forall j: nat :: j < k ==> !EffectsStill(prog, first, j)
  }

  lemma EffectsCutShort(prog: seq<Function>, first: seq<set<Effect>>, now: seq<set<Effect>>, n: nat)
    requires EffectsGoing(prog, first, now, n)
    ensures !EffectsStops(prog, first, n) && n <= |prog|
    ensures forall x :: EffectBits(now, x) == Sweeps(EffectSystem(prog, x), EffectBits(first, x), n)
  {
    forall x
      ensures EffectBits(now, x) == Sweeps(EffectSystem(prog, x), EffectBits(first, x), n)
    {
      assert MaskRun(prog, first, now, n, x);
    }
  }

  lemma EffectsStart(prog: seq<Function>, effects: seq<set<Effect>>)
    requires WellFormed(prog) && |effects| == |prog| && forall f :: 0 <= f < |prog| ==> effects[f] == {}
    ensures EffectsRun(prog, effects, effects, 0)
  {
  }

  /** `k` sweeps from `first` have led to `now`. */
  ghost predicate PurityRun(prog: seq<Function>, first: seq<bool>, now: seq<bool>, k: nat) {
    && PurityKnown(prog, now, k) && |first| == |prog|
    && (if k == 0 then now == first else Tidy(prog, now))
    && ImpureBits(prog, now) == Sweeps(PuritySystem(prog), ImpureBits(prog, first), k)
  }

  /** The same, and each of those sweeps changed something. */
  ghost predicate PurityGoing(prog: seq<Function>, first: seq<bool>, now: seq<bool>, k: nat) {
    && PurityRun(prog, first, now, k) && k <= |prog|
    && forall j: nat :: j < k ==> !PurityStill(prog, first, j)
  }

  /** A sweep that changed nothing left the exact answer. */
  lemma PuritySettledExact(prog: seq<Function>, now: seq<bool>, k: nat)
    requires PurityKnown(prog, now, k) && PuritySettled(prog, now)
    ensures PurityExact(prog, now)
  {
    StableIsExact(PuritySystem(prog), ImpureBits(prog, now));
    PurityFromBits(prog, now);
  }

  /** And the others would not change it. */
  lemma PurityStopped(prog: seq<Function>, first: seq<bool>, now: seq<bool>, k: nat, n: nat)
    requires PurityGoing(prog, first, now, k) && k < n && PuritySettled(prog, now) && Tidy(prog, now)
    ensures PurityExact(prog, now) && PurityStops(prog, first, n)
    ensures ImpureBits(prog, now) == Sweeps(PuritySystem(prog), ImpureBits(prog, first), n)
  {
    PuritySettledExact(prog, now, k);
    SweepsSettle(PuritySystem(prog), ImpureBits(prog, first), k, n);
    assert PurityStill(prog, first, k);
  }

  lemma PurityCutShort(prog: seq<Function>, first: seq<bool>, now: seq<bool>, n: nat)
    requires PurityGoing(prog, first, now, n)
    ensures !PurityStops(prog, first, n) && n <= |prog|
    ensures ImpureBits(prog, now) == Sweeps(PuritySystem(prog), ImpureBits(prog, first), n)
  {
  }

  lemma EffectsStopped(prog: seq<Function>, first: seq<set<Effect>>, now: seq<set<Effect>>, k: nat, n: nat)
    requires EffectsGoing(prog, first, now, k) && k < n && MasksSwept(prog, now, now, |prog|)
    ensures EffectsExact(prog, now) && EffectsStops(prog, first, n)
    ensures forall x :: EffectBits(now, x) == Sweeps(EffectSystem(prog, x), EffectBits(first, x), n)
  {
    forall x
      ensures EffectSystem(prog, x).Exact(EffectBits(now, x)) && MaskStill(prog, first, k, x)
      ensures EffectBits(now, x) == Sweeps(EffectSystem(prog, x), EffectBits(first, x), n)
    {
      var sys := EffectSystem(prog, x);
      assert MaskKnown(prog, now, k, x) && MaskRun(prog, first, now, k, x) && MaskSwept(prog, now, now, |prog|, x);
      StableIsExact(sys, EffectBits(now, x));
      SweepsSettle(sys, EffectBits(first, x), k, n);
    }
    assert EffectsStill(prog, first, k);
    EffectsFromBits(prog, now);
  }

  /** A sweep that changed something was not yet the one after as many as there are functions. */
  lemma PurityWentOn(prog: seq<Function>, first: seq<bool>, a: seq<bool>, b: seq<bool>, k: nat)
    requires PurityGoing(prog, first, a, k) && |b| == |prog| && a != b && Tidy(prog, b)
    requires ImpureBits(prog, b) == SweepFrom(PuritySystem(prog), ImpureBits(prog, a), 0)
    ensures PurityGoing(prog, first, b, k + 1)
  {
    PurityChanged(prog, a, b, k);
    SweepSound(PuritySystem(prog), ImpureBits(prog, a), 0);
    SweepKnows(PuritySystem(prog), ImpureBits(prog, a), 0, k);
    SweepsNext(PuritySystem(prog), ImpureBits(prog, first), k);
  }

  /** Flags kept in order change only together with their bits, before the answer is exact. */
  lemma PurityChanged(prog: seq<Function>, a: seq<bool>, b: seq<bool>, k: nat)
    requires PurityKnown(prog, a, k) && |b| == |prog| && a != b && Tidy(prog, b)
    requires ImpureBits(prog, b) == SweepFrom(PuritySystem(prog), ImpureBits(prog, a), 0)
    ensures Tidy(prog, a) ==> !PuritySettled(prog, a)
    ensures (k > 0 ==> Tidy(prog, a)) ==> k < |prog|
  {
    var sys, bits := PuritySystem(prog), ImpureBits(prog, a);
    if k >= |prog| {
      KnowsAll(sys, bits, k);
      ExactIsStable(sys, bits, 0);
    }
    if Tidy(prog, a) && PuritySettled(prog, a) {
      SameFlags(prog, a, b);
    }
  }

  lemma SameFlags(prog: seq<Function>, a: seq<bool>, b: seq<bool>)
    requires |a| == |b| == |prog| && ImpureBits(prog, a) == ImpureBits(prog, b)
    requires prog == [] || (Tidy(prog, a) && Tidy(prog, b))
    ensures a == b
  {
    forall f | 0 <= f < |prog|
      ensures a[f] == b[f]
    {
      assert ImpureBits(prog, a)[f] == ImpureBits(prog, b)[f];
    }
  }

  lemma EffectsWentOn(prog: seq<Function>, first: seq<set<Effect>>, a: seq<set<Effect>>, b: seq<set<Effect>>, k: nat)
    requires EffectsGoing(prog, first, a, k) && |b| == |prog| && a != b && MasksSwept(prog, a, b, |prog|)
    ensures EffectsGoing(prog, first, b, k + 1)
  {
    var next := k + 1;
    forall x
      ensures MaskKnown(prog, b, next, x) && MaskRun(prog, first, b, next, x)
      ensures k >= |prog| || MaskStill(prog, first, k, x) ==> EffectBits(a, x) == EffectBits(b, x)
    {
      assert MaskKnown(prog, a, k, x) && MaskRun(prog, first, a, k, x) && MaskSwept(prog, a, b, |prog|, x);
      MaskStep(prog, a, b, k, x);
      SweepsNext(EffectSystem(prog, x), EffectBits(first, x), k);
    }
    if k >= |prog| || EffectsStill(prog, first, k) {
      SameMasks(a, b);
    }
  }

  lemma MaskStep(prog: seq<Function>, a: seq<set<Effect>>, b: seq<set<Effect>>, k: nat, x: Effect)
    requires WellFormed(prog) && |a| == |b| == |prog| && MaskKnown(prog, a, k, x)
    requires EffectBits(b, x) == SweepFrom(EffectSystem(prog, x), EffectBits(a, x), 0)
    ensures MaskKnown(prog, b, k + 1, x)
    ensures k >= |prog| ==> EffectBits(a, x) == EffectBits(b, x)
  {
    var sys, bits := EffectSystem(prog, x), EffectBits(a, x);
    SweepSound(sys, bits, 0);
    SweepKnows(sys, bits, 0, k);
    if k >= |prog| {
      KnowsAll(sys, bits, k);
      ExactIsStable(sys, bits, 0);
    }
  }

  lemma SameMasks(a: seq<set<Effect>>, b: seq<set<Effect>>)
    requires |a| == |b| && forall x :: EffectBits(a, x) == EffectBits(b, x)
    ensures a == b
  {
    forall f | 0 <= f < |a|
      ensures a[f] == b[f]
    {
      forall x
        ensures x in a[f] <==> x in b[f]
      {
        assert EffectBits(a, x)[f] == EffectBits(b, x)[f];
      }
    }
  }

  lemma SameEdges(prog: seq<Function>, f: nat, g: nat, x: Effect)
    requires WellFormed(prog) && g < |prog|
    ensures Calls(prog, f, g) <==> Reaches(PuritySystem(prog).Edges(), f, g)
    ensures Calls(prog, f, g) <==> Reaches(EffectSystem(prog, x).Edges(), f, g)
  {
    var e := System(seq(|prog|, _ => false), CallGraph(prog)).Edges();
    SameReach(e, PuritySystem(prog).Edges(), f, g);
    SameReach(e, EffectSystem(prog, x).Edges(), f, g);
  }

  /** The effect bits never outrun the impurity bits, at any sweep count and any cap. */
  lemma PureHasNoEffects(prog: seq<Function>, isPure: seq<bool>, effects: seq<set<Effect>>, x: Effect, k: nat)
    requires WellFormed(prog) && |isPure| == |effects| == |prog|
    requires forall f :: 0 <= f < |prog| ==> effects[f] == {}
    ensures Below(Sweeps(EffectSystem(prog, x), EffectBits(effects, x), k),
                  Sweeps(PuritySystem(prog), ImpureBits(prog, isPure), k))
  {
    var lo, hi := EffectSystem(prog, x), PuritySystem(prog);
    forall f | 0 <= f < |prog| && lo.base[f]
      ensures hi.base[f]
    {
      if DeclPure(prog[f], ANY) {
        LocallyPureIsQuiet(prog[f]);
      }
    }
    SweepsBelow(lo, hi, EffectBits(effects, x), ImpureBits(prog, isPure), k);
  }

  /** Inferred purity means: nothing impure on its own is reachable along calls. */
  ghost predicate PurityExact(prog: seq<Function>, isPure: seq<bool>) {
    && |isPure| == |prog|
    && forall f: nat :: f < |prog| ==>
         (PureAt(prog, isPure, f) <==> forall g: nat :: Calls(prog, f, g) ==> DeclPure(prog[g], ANY))
  }

  /** Something reachable from `f` has effect `x` on its own. */
  ghost predicate Shows(prog: seq<Function>, f: nat, x: Effect) {
    exists g: nat :: Calls(prog, f, g) && x in DeclEffects(prog[g], SILENT)
  }

  /** An inferred mask is the union of the local effects of everything reachable along calls. */
  ghost predicate EffectsExact(prog: seq<Function>, effects: seq<set<Effect>>) {
    && |effects| == |prog|
    && forall f: nat, x :: f < |prog| ==>
         (x in effects[f] <==> Shows(prog, f, x))
  }

  lemma PurityFromBits(prog: seq<Function>, isPure: seq<bool>)
    requires WellFormed(prog) && |isPure| == |prog|
    ensures PurityExact(prog, isPure) <==> PuritySystem(prog).Exact(ImpureBits(prog, isPure))
  {
    var sys := PuritySystem(prog);
    var bits := ImpureBits(prog, isPure);
    forall f: nat | f < |prog|
      ensures bits[f] == !PureAt(prog, isPure, f)
      ensures sys.Tainted(f) <==> exists g: nat :: Calls(prog, f, g) && !DeclPure(prog[g], ANY)
    {
      forall g: nat | g < |prog|
        ensures Calls(prog, f, g) <==> Reaches(sys.Edges(), f, g)
      {
        SameEdges(prog, f, g, Io);
      }
      if exists g: nat :: Calls(prog, f, g) && !DeclPure(prog[g], ANY) {
        var g: nat :| Calls(prog, f, g) && !DeclPure(prog[g], ANY);
        assert sys.base[g] && Reaches(sys.Edges(), f, g);
      }
    }
  }

  lemma EffectsFromBits(prog: seq<Function>, effects: seq<set<Effect>>)
    requires WellFormed(prog) && |effects| == |prog|
    ensures EffectsExact(prog, effects) <==> forall x :: EffectSystem(prog, x).Exact(EffectBits(effects, x))
  {
    forall f: nat, x | f < |prog|
      ensures EffectBits(effects, x)[f] == (x in effects[f])
      ensures EffectSystem(prog, x).Tainted(f) <==> Shows(prog, f, x)
    {
      MaskTainted(prog, f, x);
    }
    if forall x :: EffectSystem(prog, x).Exact(EffectBits(effects, x)) {
      forall f: nat, x | f < |prog|
        ensures x in effects[f] <==> Shows(prog, f, x)
      {
        assert EffectSystem(prog, x).Exact(EffectBits(effects, x));
      }
    }
  }

  lemma MaskTainted(prog: seq<Function>, f: nat, x: Effect)
    requires WellFormed(prog) && f < |prog|
    ensures EffectSystem(prog, x).Tainted(f) <==> Shows(prog, f, x)
  {
    var sys := EffectSystem(prog, x);
    forall g: nat | g < |prog|
      ensures Calls(prog, f, g) <==> Reaches(sys.Edges(), f, g)
    {
      SameEdges(prog, f, g, x);
    }
    if Shows(prog, f, x) {
      var g: nat :| Calls(prog, f, g) && x in DeclEffects(prog[g], SILENT);
      assert sys.base[g] && Reaches(sys.Edges(), f, g);
    }
  }

  // --------------------------------------------------------------- what the passes leave

  /** What the purity pass leaves behind when it stops. */
  ghost predicate PurityOutcome(prog: seq<Function>, isPure: seq<bool>) {
    && WellFormed(prog) && |isPure| == |prog|
    && ImpureBits(prog, isPure) == Sweeps(PuritySystem(prog), ImpureBits(prog, seq(|prog|, _ => true)), MAX_ITERS)
  }

  /** What the effect pass leaves behind. */
  ghost predicate EffectsOutcome(prog: seq<Function>, effects: seq<set<Effect>>) {
    && WellFormed(prog) && |effects| == |prog|
    && forall x :: EffectBits(effects, x)
                   == Sweeps(EffectSystem(prog, x), EffectBits(seq(|prog|, _ => {}), x), MAX_ITERS)
  }

  /** Of every program: what the purity pass leaves is exact if and only if one more sweep
      would change nothing. */
  lemma PurityExactExactlyWhenSettled(prog: seq<Function>, isPure: seq<bool>)
    requires PurityOutcome(prog, isPure)
    ensures PurityExact(prog, isPure) <==> PuritySettled(prog, isPure)
  {
    var sys, pure0 := PuritySystem(prog), seq(|prog|, _ => true);
    PurityStart(prog, pure0);
    SweepsBounds(sys, ImpureBits(prog, pure0), MAX_ITERS, 0);
    ExactExactlyWhenStable(sys, ImpureBits(prog, isPure));
    PurityFromBits(prog, isPure);
  }

  /** The same for the effect masks. */
  lemma EffectsExactExactlyWhenSettled(prog: seq<Function>, effects: seq<set<Effect>>)
    requires EffectsOutcome(prog, effects)
    ensures EffectsExact(prog, effects) <==> EffectsSettled(prog, effects)
  {
    forall x
      ensures EffectSystem(prog, x).Exact(EffectBits(effects, x))
              <==> Stable(EffectSystem(prog, x), EffectBits(effects, x))
    {
      var sys, fx0 := EffectSystem(prog, x), seq(|prog|, _ => {});
      EffectsStart(prog, fx0);
      assert MaskKnown(prog, fx0, 0, x);
      SweepsBounds(sys, EffectBits(fx0, x), MAX_ITERS, 0);
      ExactExactlyWhenStable(sys, EffectBits(effects, x));
    }
    EffectsFromBits(prog, effects);
  }

  /** infer_pure_functions.  A function recorded pure is recorded without effects, always.
      Each answer is exact when its pass was left by a sweep that changed nothing, and
      exact just when one more sweep would change nothing, for every program; programs of
      fewer than MAX_ITERS functions always get there, one of MAX_ITERS functions is exact. */
  method InferPureFunctions(prog: seq<Function>) returns (s: Summary, ghost pureDone: bool, ghost effectsDone: bool)
    requires WellFormed(prog)
    ensures s.Ok() && s.prog == prog && fresh(s.isPure) && fresh(s.effects)
    ensures forall f: nat :: f < |prog| && PureAt(prog, s.isPure[..], f) ==> s.effects[f] == {}
    ensures PurityOutcome(prog, s.isPure[..]) && EffectsOutcome(prog, s.effects[..])
    ensures PurityExact(prog, s.isPure[..]) <==> PuritySettled(prog, s.isPure[..])
    ensures EffectsExact(prog, s.effects[..]) <==> EffectsSettled(prog, s.effects[..])
    ensures pureDone <==> PurityStops(prog, seq(|prog|, _ => true), MAX_ITERS)
    ensures effectsDone <==> EffectsStops(prog, seq(|prog|, _ => {}), MAX_ITERS)
    ensures (pureDone ==> PurityExact(prog, s.isPure[..])) && (effectsDone ==> EffectsExact(prog, s.effects[..]))
    ensures |prog| < MAX_ITERS ==> pureDone && effectsDone
    ensures |prog| <= MAX_ITERS ==> PurityExact(prog, s.isPure[..]) && EffectsExact(prog, s.effects[..])
  {
    s := new Summary(prog);
    ghost var pure0, fx0 := s.isPure[..], s.effects[..];
    assert pure0 == seq(|prog|, _ => true) && fx0 == seq(|prog|, _ => {});
    pureDone := s.RunPurity(MAX_ITERS);
    effectsDone := s.RunEffects(MAX_ITERS);
    NoEffectsWherePure(prog, s.isPure[..], s.effects[..]);
    PurityExactExactlyWhenSettled(prog, s.isPure[..]);
    EffectsExactExactlyWhenSettled(prog, s.effects[..]);
    if |prog| <= MAX_ITERS {
      PurityOutcomeExact(prog, s.isPure[..]);
      EffectsOutcomeExact(prog, s.effects[..]);
    }
  }

  lemma NoEffectsWherePure(prog: seq<Function>, isPure: seq<bool>, effects: seq<set<Effect>>)
    requires PurityOutcome(prog, isPure) && EffectsOutcome(prog, effects)
    ensures forall f: nat :: f < |prog| && PureAt(prog, isPure, f) ==> effects[f] == {}
  {
    forall f: nat, x | f < |prog| && PureAt(prog, isPure, f)
      ensures x !in effects[f]
    {
      PureHasNoEffects(prog, seq(|prog|, _ => true), seq(|prog|, _ => {}), x, MAX_ITERS);
      assert EffectBits(effects, x)[f] == (x in effects[f]) && !ImpureBits(prog, isPure)[f];
    }
  }

  lemma PurityOutcomeExact(prog: seq<Function>, isPure: seq<bool>)
    requires PurityOutcome(prog, isPure) && |prog| <= MAX_ITERS
    ensures PurityExact(prog, isPure)
  {
    var pure0 := seq(|prog|, _ => true);
    PurityStart(prog, pure0);
    EnoughSweeps(PuritySystem(prog), ImpureBits(prog, pure0), MAX_ITERS);
    PurityFromBits(prog, isPure);
  }

  lemma EffectsOutcomeExact(prog: seq<Function>, effects: seq<set<Effect>>)
    requires EffectsOutcome(prog, effects) && |prog| <= MAX_ITERS
    ensures EffectsExact(prog, effects)
  {
    var fx0 := seq(|prog|, _ => {});
    EffectsStart(prog, fx0);
    forall x
      ensures EffectSystem(prog, x).Exact(EffectBits(effects, x))
    {
      assert MaskKnown(prog, fx0, 0, x);
      EnoughSweeps(EffectSystem(prog, x), EffectBits(fx0, x), MAX_ITERS);
    }
    EffectsFromBits(prog, effects);
  }

  // -------------------------------------------------------------- beyond the sweep cap

  /** Function `i` only calls function `i + 1`; the last one is an inline-assembly body. */
  function ChainFunction(n: nat, i: nat): Function {
    Function("f", false, false, [],
             if i + 1 < n then Eval(Call(Ident("next"), [])) else Eval(Asm([])),
             Names(_ => false, (_, _) => if i + 1 < n then Analysed(i + 1) else Unresolved, (_, _) => Unresolved))
  }

  function ChainProgram(n: nat): seq<Function> {
    seq(n, i requires 0 <= i < n => ChainFunction(n, i))
  }

  lemma ChainFunctionBits(n: nat, i: nat)
    requires i < n
    ensures Callees(ChainFunction(n, i)) == (if i + 1 < n then {i + 1} else {})
    ensures DeclPure(ChainFunction(n, i), ANY) <==> i + 1 < n
    ensures Ffi in DeclEffects(ChainFunction(n, i), SILENT) <==> i + 1 == n
  {
    var f := ChainFunction(n, i);
    assert f.ParamScope() == {};
    assert FxExprs(f.names, SILENT, [], {}) == Trace({}, {}, {});
  }

  lemma ChainProgramSystem(n: nat)
    ensures WellFormed(ChainProgram(n))
    ensures PuritySystem(ChainProgram(n)) == Chain(n) == EffectSystem(ChainProgram(n), Ffi)
    ensures ImpureBits(ChainProgram(n), seq(n, _ => true)) == From(n, n) == EffectBits(seq(n, _ => {}), Ffi)
  {
    var prog := ChainProgram(n);
    forall i | 0 <= i < n
      ensures Callees(prog[i]) == (if i + 1 < n then {i + 1} else {})
      ensures DeclPure(prog[i], ANY) <==> i + 1 < n
      ensures Ffi in DeclEffects(prog[i], SILENT) <==> i + 1 == n
    {
      ChainFunctionBits(n, i);
    }
    assert PuritySystem(prog).base == Chain(n).base;
    assert PuritySystem(prog).succ == Chain(n).succ;
    assert EffectSystem(prog, Ffi).base == Chain(n).base;
    assert EffectSystem(prog, Ffi).succ == Chain(n).succ;
    assert ImpureBits(prog, seq(n, _ => true)) == From(n, n);
    assert EffectBits(seq(n, _ => {}), Ffi) == From(n, n);
  }

  /** The assembly body at the end of the chain is reached from its first function. */
  lemma ChainReached(n: nat) returns (g: nat)
    requires n > 0
    ensures Calls(ChainProgram(n), 0, g) && g + 1 == n
  {
    ChainProgramSystem(n);
    ChainTainted(n, 0);
    g :| g < n && Chain(n).base[g] && Reaches(Chain(n).Edges(), 0, g);
    SameEdges(ChainProgram(n), 0, g, Io);
  }

  /** With more functions than the cap, the first function of such a chain is recorded
      pure although the assembly body is reachable from it. */
  lemma CapMissesImpurity(n: nat, isPure: seq<bool>)
    requires n > MAX_ITERS && |isPure| == n && PurityOutcome(ChainProgram(n), isPure)
    ensures PureAt(ChainProgram(n), isPure, 0) && !PurityExact(ChainProgram(n), isPure)
  {
    var prog := ChainProgram(n);
    ChainProgramSystem(n);
    ChainSweeps(n, n, MAX_ITERS);
    assert ImpureBits(prog, isPure)[0] == !PureAt(prog, isPure, 0);
    var g := ChainReached(n);
    ChainFunctionBits(n, g);
    assert Calls(prog, 0, g) && !DeclPure(prog[g], ANY);
  }

  /** And it is recorded without the foreign-code effect of that body. */
  lemma CapMissesEffect(n: nat, effects: seq<set<Effect>>)
    requires n > MAX_ITERS && |effects| == n && EffectsOutcome(ChainProgram(n), effects)
    ensures Ffi !in effects[0] && !EffectsExact(ChainProgram(n), effects)
  {
    var prog := ChainProgram(n);
    ChainProgramSystem(n);
    ChainSweeps(n, n, MAX_ITERS);
    assert EffectBits(effects, Ffi)[0] == (Ffi in effects[0]);
    var g := ChainReached(n);
    ChainFunctionBits(n, g);
    assert Calls(prog, 0, g) && Ffi in DeclEffects(prog[g], SILENT);
    assert Shows(prog, 0, Ffi);
  }

  /** The passes do leave something behind. */
  lemma PurityLeft(prog: seq<Function>) returns (isPure: seq<bool>)
    requires WellFormed(prog) && forall f :: 0 <= f < |prog| ==> !prog[f].thread && !prog[f].naked
    ensures PurityOutcome(prog, isPure)
  {
    var bits := Sweeps(PuritySystem(prog), ImpureBits(prog, seq(|prog|, _ => true)), MAX_ITERS);
    isPure := seq(|prog|, i requires 0 <= i < |prog| => !bits[i]);
    assert ImpureBits(prog, isPure) == bits;
  }

  function MaskLeft(prog: seq<Function>, x: Effect): (bits: seq<bool>)
    requires WellFormed(prog)
    ensures |bits| == |prog|
  {
    Sweeps(EffectSystem(prog, x), EffectBits(seq(|prog|, _ => {}), x), MAX_ITERS)
  }

  lemma EffectsLeft(prog: seq<Function>) returns (effects: seq<set<Effect>>)
    requires WellFormed(prog)
    ensures EffectsOutcome(prog, effects)
  {
    effects := seq(|prog|, i requires 0 <= i < |prog| => set x | x in ALL_EFFECTS && MaskLeft(prog, x)[i]);
    forall x
      ensures EffectBits(effects, x) == MaskLeft(prog, x)
    {
      assert x in ALL_EFFECTS by {
        match x
        case Io | Alloc | Ffi | Thread =>
      }
    }
  }

  /** The purity pass is exact on every program of `n` functions. */
  ghost predicate PurityPassExact(n: nat) {
    forall prog: seq<Function>, isPure: seq<bool> ::
      |prog| == n && PurityOutcome(prog, isPure) ==> PurityExact(prog, isPure)
  }

  /** The effect pass is. */
  ghost predicate EffectPassExact(n: nat) {
    forall prog: seq<Function>, effects: seq<set<Effect>> ::
      |prog| == n && EffectsOutcome(prog, effects) ==> EffectsExact(prog, effects)
  }

  /** The sweep cap is harmless, for either pass, exactly for programs of at most MAX_ITERS
      functions. */
  lemma CapHarmlessExactlyWhen(n: nat)
    ensures PurityPassExact(n) <==> n <= MAX_ITERS
    ensures EffectPassExact(n) <==> n <= MAX_ITERS
  {
    if n <= MAX_ITERS {
      forall prog: seq<Function>, isPure: seq<bool> | |prog| == n && PurityOutcome(prog, isPure)
        ensures PurityExact(prog, isPure)
      {
        PurityOutcomeExact(prog, isPure);
      }
      forall prog: seq<Function>, effects: seq<set<Effect>> | |prog| == n && EffectsOutcome(prog, effects)
        ensures EffectsExact(prog, effects)
      {
        EffectsOutcomeExact(prog, effects);
      }
    } else {
      ChainProgramSystem(n);
      var isPure := PurityLeft(ChainProgram(n));
      CapMissesImpurity(n, isPure);
      var effects := EffectsLeft(ChainProgram(n));
      CapMissesEffect(n, effects);
    }
  }
}
