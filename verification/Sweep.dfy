/** In-place propagation sweeps over a call graph, one bit at a time: a node takes
    its own base bit or any bit currently recorded for a successor.  This is what
    one bit of the purity or effect inference does (ny_run_infer_fixed_point). */
module Sweep {
  import opened Reachability

  datatype System = System(base: seq<bool>, succ: seq<set<nat>>) {
    predicate Valid() {
      && |base| == |succ|
      && forall f :: 0 <= f < |succ| ==> forall g :: g in succ[f] ==> g < |succ|
    }

    ghost predicate Edge(f: nat, g: nat) {
      f < |succ| && g in succ[f]
    }

    ghost function Edges(): (nat, nat) -> bool {
      (f: nat, g: nat) => Edge(f, g)
    }

    /** The specification: some node reachable from `f` has its base bit set. */
    ghost predicate Tainted(f: nat) {
      exists g: nat :: g < |base| && base[g] && Reaches(Edges(), f, g)
    }

    /** ... reachable in fewer than `k` steps. */
    ghost predicate TaintedWithin(f: nat, k: nat) {
      exists g: nat, j: nat :: j < k && g < |base| && base[g] && StepsTo(Edges(), j, f, g)
    }

    ghost predicate Exact(bits: seq<bool>) {
      |bits| == |base| && forall f: nat :: f < |bits| ==> (bits[f] <==> Tainted(f))
    }

    ghost predicate Sound(bits: seq<bool>) {
      |bits| == |base| && forall f: nat :: f < |bits| && bits[f] ==> Tainted(f)
    }
  }

  /** The bit recomputed for `f` from the bits recorded now. */
  predicate Rule(sys: System, bits: seq<bool>, f: nat)
    requires f < |sys.base| == |sys.succ|
  {
    sys.base[f] || exists g :: g in sys.succ[f] && g < |bits| && bits[g]
  }

  /** The rest of a sweep, from node `i` on, each node overwriting its own bit. */
  function SweepFrom(sys: System, bits: seq<bool>, i: nat): (r: seq<bool>)
    requires sys.Valid() && |bits| == |sys.base| && i <= |bits|
    ensures |r| == |bits|
    decreases |bits| - i
  {
    if i == |bits| then bits else SweepFrom(sys, bits[i := Rule(sys, bits, i)], i + 1)
  }

  function Sweeps(sys: System, bits: seq<bool>, k: nat): (r: seq<bool>)
    requires sys.Valid() && |bits| == |sys.base|
    ensures |r| == |bits|
    decreases k, |bits|
  {
    if k == 0 then bits else Sweeps(sys, SweepFrom(sys, bits, 0), k - 1)
  }

  // ------------------------------------------------------------------ upper bound

  lemma RuleSound(sys: System, bits: seq<bool>, f: nat)
    requires sys.Valid() && sys.Sound(bits) && f < |sys.base| && Rule(sys, bits, f)
    ensures sys.Tainted(f)
  {
    if sys.base[f] {
      ReachesSelf(sys.Edges(), f);
    } else {
      var g: nat :| g in sys.succ[f] && g < |bits| && bits[g];
      var h: nat :| h < |sys.base| && sys.base[h] && Reaches(sys.Edges(), g, h);
      assert sys.Edge(f, g);
      ReachesEdge(sys.Edges(), f, g);
      ReachesTrans(sys.Edges(), f, g, h);
    }
  }

  lemma {:induction false} SweepSound(sys: System, bits: seq<bool>, i: nat)
    requires sys.Valid() && sys.Sound(bits) && i <= |bits|
    ensures sys.Sound(SweepFrom(sys, bits, i))
    decreases |bits| - i
  {
    if i < |bits| {
      if Rule(sys, bits, i) {
        RuleSound(sys, bits, i);
      }
      SweepSound(sys, bits[i := Rule(sys, bits, i)], i + 1);
    }
  }

  // ------------------------------------------------------------------ lower bound

  /** The nodes before `i` know what is fewer than `k + 1` steps away, the others `k`. */
  ghost predicate Knows(sys: System, bits: seq<bool>, i: nat, k: nat) {
    && |bits| == |sys.base|
    && forall f: nat :: f < |bits| && sys.TaintedWithin(f, if f < i then k + 1 else k) ==> bits[f]
  }

  lemma WithinMono(sys: System, f: nat, k: nat)
    requires sys.TaintedWithin(f, k)
    ensures sys.TaintedWithin(f, k + 1)
  {
    var g: nat, j: nat :| j < k && g < |sys.base| && sys.base[g] && StepsTo(sys.Edges(), j, f, g);
    assert j < k + 1;
  }

  lemma RuleKnows(sys: System, bits: seq<bool>, i: nat, k: nat)
    requires sys.Valid() && Knows(sys, bits, i, k) && i < |bits| && sys.TaintedWithin(i, k + 1)
    ensures Rule(sys, bits, i)
  {
    var e := sys.Edges();
    var g: nat, j: nat :| j < k + 1 && g < |sys.base| && sys.base[g] && StepsTo(e, j, i, g);
    if j > 0 {
      var h: nat :| e(i, h) && StepsTo(e, j - 1, h, g);
      assert sys.Edge(i, h);
      assert sys.TaintedWithin(h, k);
      WithinMono(sys, h, k);
      assert bits[h];
    }
  }

  lemma {:induction false} SweepKnows(sys: System, bits: seq<bool>, i: nat, k: nat)
    requires sys.Valid() && Knows(sys, bits, i, k) && i <= |bits|
    ensures Knows(sys, SweepFrom(sys, bits, i), 0, k + 1)
    decreases |bits| - i
  {
    if i < |bits| {
      var next := bits[i := Rule(sys, bits, i)];
      if sys.TaintedWithin(i, k + 1) {
        RuleKnows(sys, bits, i, k);
      }
      assert Knows(sys, next, i + 1, k);
      SweepKnows(sys, next, i + 1, k);
    }
  }

  lemma {:induction false} SweepsBounds(sys: System, bits: seq<bool>, k: nat, known: nat)
    requires sys.Valid() && sys.Sound(bits) && Knows(sys, bits, 0, known)
    ensures sys.Sound(Sweeps(sys, bits, k)) && Knows(sys, Sweeps(sys, bits, k), 0, known + k)
    decreases k
  {
    if k > 0 {
      SweepSound(sys, bits, 0);
      SweepKnows(sys, bits, 0, known);
      SweepsBounds(sys, SweepFrom(sys, bits, 0), k - 1, known + 1);
    }
  }

  /** Sound bits that know as many steps as there are nodes are exact. */
  lemma KnowsAll(sys: System, bits: seq<bool>, k: nat)
    requires sys.Valid() && sys.Sound(bits) && Knows(sys, bits, 0, k) && k >= |sys.base|
    ensures sys.Exact(bits)
  {
    forall f: nat | f < |bits| && sys.Tainted(f)
      ensures bits[f]
    {
      var g: nat :| g < |sys.base| && sys.base[g] && Reaches(sys.Edges(), f, g);
      ShortPath(sys.Edges(), |sys.base|, f, g);
      assert sys.TaintedWithin(f, k);
    }
  }

  /** As many sweeps as there are nodes always suffice, whatever the order of the nodes. */
  lemma EnoughSweeps(sys: System, bits: seq<bool>, k: nat)
    requires sys.Valid() && sys.Sound(bits) && k >= |sys.base|
    ensures sys.Exact(Sweeps(sys, bits, k))
  {
    SweepsBounds(sys, bits, k, 0);
    KnowsAll(sys, Sweeps(sys, bits, k), k);
  }

  // ---------------------------------------------------------------- the early exit

  /** Sweeps can be split anywhere. */
  lemma {:induction false} SweepsAdd(sys: System, bits: seq<bool>, j: nat, k: nat)
    requires sys.Valid() && |bits| == |sys.base|
    ensures Sweeps(sys, Sweeps(sys, bits, j), k) == Sweeps(sys, bits, j + k)
    decreases j
  {
    if j > 0 {
      SweepsAdd(sys, SweepFrom(sys, bits, 0), j - 1, k);
    }
  }

  lemma SweepsNext(sys: System, bits: seq<bool>, k: nat)
    requires sys.Valid() && |bits| == |sys.base|
    ensures Sweeps(sys, bits, k + 1) == SweepFrom(sys, Sweeps(sys, bits, k), 0)
  {
    var now := Sweeps(sys, bits, k);
    SweepsAdd(sys, bits, k, 1);
    assert Sweeps(sys, SweepFrom(sys, now, 0), 0) == SweepFrom(sys, now, 0);
  }

  /** Once a sweep changes nothing, further sweeps change nothing. */
  lemma {:induction false} SweepsStable(sys: System, bits: seq<bool>, k: nat)
    requires sys.Valid() && |bits| == |sys.base| && SweepFrom(sys, bits, 0) == bits
    ensures Sweeps(sys, bits, k) == bits
    decreases k
  {
    if k > 0 {
      SweepsStable(sys, bits, k - 1);
    }
  }

  /** One more sweep changes nothing. */
  predicate Stable(sys: System, bits: seq<bool>)
    requires sys.Valid() && |bits| == |sys.base|
  {
    SweepFrom(sys, bits, 0) == bits
  }

  /** Once sweeping has settled it stays so. */
  lemma SweepsSettle(sys: System, bits: seq<bool>, k: nat, n: nat)
    requires sys.Valid() && |bits| == |sys.base| && k <= n && Stable(sys, Sweeps(sys, bits, k))
    ensures Sweeps(sys, bits, n) == Sweeps(sys, bits, k)
  {
    SweepsStable(sys, Sweeps(sys, bits, k), n - k);
    SweepsAdd(sys, bits, k, n - k);
  }

  /** A sweep that changes nothing leaves the exact answer, however many nodes there are. */
  lemma StableIsExact(sys: System, bits: seq<bool>)
    requires sys.Valid() && sys.Sound(bits) && Stable(sys, bits)
    ensures sys.Exact(bits)
  {
    SweepsStable(sys, bits, |bits|);
    EnoughSweeps(sys, bits, |bits|);
  }

  /** The exact answer satisfies its own rule. */
  lemma ExactIsFixed(sys: System, bits: seq<bool>, f: nat)
    requires sys.Valid() && sys.Exact(bits) && f < |bits|
    ensures Rule(sys, bits, f) == bits[f]
  {
    if Rule(sys, bits, f) {
      RuleSound(sys, bits, f);
    }
    if bits[f] && !sys.base[f] {
      var e := sys.Edges();
      var g: nat :| g < |sys.base| && sys.base[g] && Reaches(e, f, g);
      var k: nat :| StepsTo(e, k, f, g);
      var h: nat :| e(f, h) && StepsTo(e, k - 1, h, g);
      assert sys.Edge(f, h) && Reaches(e, h, g) && sys.Tainted(h);
      assert bits[h];
    }
  }

  lemma {:induction false} ExactIsStable(sys: System, bits: seq<bool>, i: nat)
    requires sys.Valid() && sys.Exact(bits) && i <= |bits|
    ensures SweepFrom(sys, bits, i) == bits
    decreases |bits| - i
  {
    if i < |bits| {
      ExactIsFixed(sys, bits, i);
      assert bits[i := Rule(sys, bits, i)] == bits;
      ExactIsStable(sys, bits, i + 1);
    }
  }

  /** From a sound start, bits are exact if and only if one more sweep changes nothing. */
  lemma ExactExactlyWhenStable(sys: System, bits: seq<bool>)
    requires sys.Valid() && sys.Sound(bits)
    ensures sys.Exact(bits) <==> Stable(sys, bits)
  {
    if sys.Exact(bits) {
      ExactIsStable(sys, bits, 0);
    } else if Stable(sys, bits) {
      StableIsExact(sys, bits);
    }
  }

  // ------------------------------------------------------------------ comparison

  ghost predicate Below(a: seq<bool>, b: seq<bool>) {
    |a| == |b| && forall f :: 0 <= f < |a| && a[f] ==> b[f]
  }

  lemma {:induction false} SweepBelow(lo: System, hi: System, a: seq<bool>, b: seq<bool>, i: nat)
    requires lo.Valid() && hi.Valid() && lo.succ == hi.succ && Below(lo.base, hi.base)
    requires |a| == |lo.base| && Below(a, b) && i <= |a|
    ensures Below(SweepFrom(lo, a, i), SweepFrom(hi, b, i))
    decreases |a| - i
  {
    if i < |a| {
      SweepBelow(lo, hi, a[i := Rule(lo, a, i)], b[i := Rule(hi, b, i)], i + 1);
    }
  }

  /** Fewer base bits never yield more bits after the same number of sweeps. */
  lemma {:induction false} SweepsBelow(lo: System, hi: System, a: seq<bool>, b: seq<bool>, k: nat)
    requires lo.Valid() && hi.Valid() && lo.succ == hi.succ && Below(lo.base, hi.base)
    requires |a| == |lo.base| && Below(a, b)
    ensures Below(Sweeps(lo, a, k), Sweeps(hi, b, k))
    decreases k
  {
    if k > 0 {
      SweepBelow(lo, hi, a, b, 0);
      SweepsBelow(lo, hi, SweepFrom(lo, a, 0), SweepFrom(hi, b, 0), k - 1);
    }
  }

  // ------------------------------------------------------- fewer sweeps do not suffice

  /** Node `i` calls node `i + 1`; only the last one has its base bit set. */
  function Chain(n: nat): (sys: System)
    ensures sys.Valid() && |sys.base| == n
  {
    System(seq(n, i => i == n - 1), seq(n, i => if i + 1 < n then {i + 1} else {}))
  }

  /** The nodes from `from` on are set. */
  function From(n: nat, from: int): seq<bool> {
    seq(n, i => i >= from)
  }

  lemma {:induction false} ChainSweep(n: nat, i: nat, from: int, bits: seq<bool>)
    requires i <= n && 0 <= from <= n && |bits| == n
    requires forall j :: 0 <= j < n ==> bits[j] == (j >= (if j < i then from - 1 else from))
    ensures SweepFrom(Chain(n), bits, i) == From(n, from - 1)
    decreases n - i
  {
    if i < n {
      var next := bits[i := Rule(Chain(n), bits, i)];
      if i + 1 < n {
        assert i + 1 in Chain(n).succ[i];
      }
      assert next[i] == (i >= from - 1);
      ChainSweep(n, i + 1, from, next);
    } else {
      assert bits == From(n, from - 1);
    }
  }

  lemma {:induction false} ChainSweeps(n: nat, from: int, k: nat)
    requires 0 <= from <= n && k <= from
    ensures Sweeps(Chain(n), From(n, from), k) == From(n, from - k)
    decreases k
  {
    if k > 0 {
      ChainSweep(n, 0, from, From(n, from));
      ChainSweeps(n, from - 1, k - 1);
    }
  }

  lemma {:induction false} ChainTainted(n: nat, i: nat)
    requires i < n
    ensures Chain(n).Tainted(i)
    decreases n - i
  {
    var e := Chain(n).Edges();
    if i == n - 1 {
      ReachesSelf(e, i);
    } else {
      var next: nat := i + 1;
      ChainTainted(n, next);
      var g: nat :| g < n && Chain(n).base[g] && Reaches(e, next, g);
      assert Chain(n).Edge(i, next);
      ReachesEdge(e, i, next);
      ReachesTrans(e, i, next, g);
    }
  }

  /** `cap` sweeps give the exact answer on every call graph with `n` nodes. */
  ghost predicate CapSuffices(n: nat, cap: nat) {
    forall sys: System :: sys.Valid() && |sys.base| == n ==> sys.Exact(Sweeps(sys, From(n, n), cap))
  }

  /** A sweep cap is right for all graphs of a size exactly when it is at least the size. */
  lemma CapExactlyWhen(n: nat, cap: nat)
    ensures CapSuffices(n, cap) <==> n <= cap
  {
    if n <= cap {
      forall sys: System | sys.Valid() && |sys.base| == n
        ensures sys.Exact(Sweeps(sys, From(n, n), cap))
      {
        EnoughSweeps(sys, From(n, n), cap);
      }
    } else {
      ChainSweeps(n, n, cap);
      ChainTainted(n, 0);
      assert !Chain(n).Exact(Sweeps(Chain(n), From(n, n), cap));
    }
  }
}
