/** Module initialisation order: codegen_topo_sort_modules of src/code/core.c, a
    depth-first search over an explicit, bounded stack. */
module TopoSort {
  import opened Reachability

  /** Direct dependencies by module index, in order of use; -1 where no module has the name. */
  datatype Graph = Graph(deps: seq<seq<int>>) {
    predicate Valid() {
      forall m, k :: 0 <= m < |deps| && 0 <= k < |deps[m]| ==> -1 <= deps[m][k] < |deps|
    }

    /** `m` depends on another module `d`. */
    ghost predicate Edge(m: nat, d: nat) {
      m < |deps| && d < |deps| && d != m && d in deps[m]
    }

    ghost function Edges(): (nat, nat) -> bool {
      (m: nat, d: nat) => Edge(m, d)
    }

    ghost predicate Acyclic() {
      forall m: nat, d: nat :: Edge(m, d) ==> !Reaches(Edges(), d, m)
    }
  }

  datatype Mark = Fresh | Stacked | Emitted

  datatype Frame = Frame(node: nat, child: nat)

  datatype State = State(stack: seq<Frame>, marks: seq<Mark>, out: seq<nat>)

  // ---------------------------------------------------------------------- one step

  /** A dependency the search descends into. */
  predicate Wanted(g: Graph, marks: seq<Mark>, cur: nat, d: int) {
    d != -1 && d != cur && 0 <= d < |marks| && marks[d] == Fresh
  }

  /** First wanted dependency of `cur` from position `ci`, or the number of dependencies. */
  function NextChild(g: Graph, marks: seq<Mark>, cur: nat, ci: nat): (k: nat)
    requires cur < |g.deps|
    ensures k <= |g.deps[cur]| || k == ci
    ensures forall j :: ci <= j < k && j < |g.deps[cur]| ==> !Wanted(g, marks, cur, g.deps[cur][j])
    ensures k < |g.deps[cur]| ==> ci <= k && Wanted(g, marks, cur, g.deps[cur][k])
    decreases |g.deps[cur]| - ci
  {
    if ci >= |g.deps[cur]| then ci
    else if Wanted(g, marks, cur, g.deps[cur][ci]) then ci
    else NextChild(g, marks, cur, ci + 1)
  }

  predicate Shape(g: Graph, s: State) {
    && g.Valid() && |s.marks| == |g.deps|
    && forall i :: 0 <= i < |s.stack| ==> s.stack[i].node < |g.deps|
  }

  /** The module on top is finished. */
  function Emit(s: State): State
    requires s.stack != [] && s.stack[|s.stack| - 1].node < |s.marks|
  {
    var cur := s.stack[|s.stack| - 1].node;
    State(s.stack[..|s.stack| - 1], s.marks[cur := Emitted], s.out + [cur])
  }

  function Push(s: State, k: nat, d: nat): State
    requires s.stack != [] && d < |s.marks|
  {
    var top := |s.stack| - 1;
    State(s.stack[top := Frame(s.stack[top].node, k + 1)] + [Frame(d, 0)], s.marks[d := Stacked], s.out)
  }

  /** One turn of the inner loop with room for `cap` frames. */
  function Step(g: Graph, cap: nat, s: State): (t: State)
    requires Shape(g, s) && s.stack != []
    ensures Shape(g, t)
  {
    var top := s.stack[|s.stack| - 1];
    var k := NextChild(g, s.marks, top.node, top.child);
    if k < |g.deps[top.node]| && |s.stack| < cap then Push(s, k, g.deps[top.node][k]) else Emit(s)
  }

  ghost function FreshNodes(marks: seq<Mark>): set<nat> {
    set m: nat | m < |marks| && marks[m] == Fresh
  }

  lemma StepDecreases(g: Graph, cap: nat, s: State)
    requires Shape(g, s) && s.stack != []
    ensures var t := Step(g, cap, s);
            FreshNodes(t.marks) < FreshNodes(s.marks)
            || (FreshNodes(t.marks) <= FreshNodes(s.marks) && |t.stack| < |s.stack|)
  {
    var t := Step(g, cap, s);
    assert FreshNodes(t.marks) <= FreshNodes(s.marks);
    var top := s.stack[|s.stack| - 1];
    var k := NextChild(g, s.marks, top.node, top.child);
    if k < |g.deps[top.node]| && |s.stack| < cap {
      assert g.deps[top.node][k] in FreshNodes(s.marks) && g.deps[top.node][k] !in FreshNodes(t.marks);
    }
  }

  lemma StepMeasure(g: Graph, cap: nat, s: State)
    requires Shape(g, s) && s.stack != []
    ensures var t := Step(g, cap, s);
            |FreshNodes(t.marks)| < |FreshNodes(s.marks)|
            || (|FreshNodes(t.marks)| == |FreshNodes(s.marks)| && |t.stack| < |s.stack|)
  {
    StepDecreases(g, cap, s);
    var t := Step(g, cap, s);
    if FreshNodes(t.marks) < FreshNodes(s.marks) {
      var x :| x in FreshNodes(s.marks) && x !in FreshNodes(t.marks);
      SubsetCard(FreshNodes(t.marks) + {x}, FreshNodes(s.marks));
    } else {
      assert FreshNodes(t.marks) == FreshNodes(s.marks);
    }
  }

  /** The inner loop: until the stack is empty. */
  ghost function Drain(g: Graph, cap: nat, s: State): (t: State)
    requires Shape(g, s)
    ensures Shape(g, t) && t.stack == []
    decreases |FreshNodes(s.marks)|, |s.stack|
  {
    if s.stack == [] then s else
    StepMeasure(g, cap, s);
    Drain(g, cap, Step(g, cap, s))
  }

  /** The outer loop from `root` on. */
  ghost function SortFrom(g: Graph, cap: nat, s: State, root: nat): (t: State)
    requires Shape(g, s) && s.stack == [] && root <= |g.deps|
    ensures Shape(g, t) && t.stack == []
    decreases |g.deps| - root
  {
    if root == |g.deps| then s
    else if s.marks[root] != Fresh || cap == 0 then SortFrom(g, cap, s, root + 1)
    else SortFrom(g, cap, Drain(g, cap, State([Frame(root, 0)], s.marks[root := Stacked], s.out)), root + 1)
  }

  function Initial(n: nat): State {
    State([], seq(n, _ => Fresh), [])
  }

  /** The whole search: the order in which modules are emitted. */
  ghost function Sort(g: Graph, cap: nat): seq<nat>
    requires g.Valid()
  {
    SortFrom(g, cap, Initial(|g.deps|), 0).out
  }

  // ------------------------------------------------------------------ what holds always

  /** Marks, stack and output tell the same story; nothing is emitted twice. */
  ghost predicate Consistent(g: Graph, s: State) {
    && Shape(g, s)
    && (forall i, j :: 0 <= i < j < |s.stack| ==> s.stack[i].node != s.stack[j].node)
    && (forall i, j :: 0 <= i < j < |s.out| ==> s.out[i] != s.out[j])
    && (forall i :: 0 <= i < |s.stack| ==> s.marks[s.stack[i].node] == Stacked)
    && (forall i :: 0 <= i < |s.out| ==> s.out[i] < |g.deps| && s.marks[s.out[i]] == Emitted)
    && (forall m: nat :: m < |g.deps| && s.marks[m] == Stacked ==> OnStack(s, m))
    && (forall m: nat :: m < |g.deps| && s.marks[m] == Emitted ==> m in s.out)
  }

  ghost predicate OnStack(s: State, m: nat) {
    exists i :: 0 <= i < |s.stack| && s.stack[i].node == m
  }

  lemma EmitConsistent(g: Graph, s: State)
    requires Consistent(g, s) && s.stack != []
    ensures Consistent(g, Emit(s))
  {
    var t := Emit(s);
    var top := |s.stack| - 1;
    forall m: nat | m < |g.deps| && t.marks[m] == Stacked
      ensures OnStack(t, m)
    {
      assert OnStack(s, m);
      var i :| 0 <= i < |s.stack| && s.stack[i].node == m;
      assert t.stack[i].node == m;
    }
    forall m: nat | m < |g.deps| && t.marks[m] == Emitted
      ensures m in t.out
    {
      assert t.out[|s.out|] == s.stack[top].node;
    }
  }

  lemma PushConsistent(g: Graph, s: State, k: nat, d: nat)
    requires Consistent(g, s) && s.stack != [] && d < |g.deps| && s.marks[d] == Fresh
    ensures Consistent(g, Push(s, k, d))
  {
    var t := Push(s, k, d);
    forall m: nat | m < |g.deps| && t.marks[m] == Stacked
      ensures OnStack(t, m)
    {
      if m == d {
        assert t.stack[|s.stack|].node == m;
      } else {
        assert OnStack(s, m);
        var i :| 0 <= i < |s.stack| && s.stack[i].node == m;
        assert t.stack[i].node == m;
      }
    }
  }

  lemma StepConsistent(g: Graph, cap: nat, s: State)
    requires Consistent(g, s) && s.stack != []
    ensures Consistent(g, Step(g, cap, s))
  {
    var top := s.stack[|s.stack| - 1];
    var k := NextChild(g, s.marks, top.node, top.child);
    if k < |g.deps[top.node]| && |s.stack| < cap {
      PushConsistent(g, s, k, g.deps[top.node][k]);
    } else {
      EmitConsistent(g, s);
    }
  }

  // ----------------------------------------------------- what holds while the stack fits

  /** A dependency of `m` is settled by `out` or leads back to `m`. */
  ghost predicate Placed(g: Graph, out: seq<nat>, m: nat, d: nat) {
    d in out || Reaches(g.Edges(), d, m)
  }

  /** Each emitted module comes after its dependencies, save those that depend on it. */
  ghost predicate GraphOrdered(g: Graph, out: seq<nat>) {
    forall p, d: nat :: 0 <= p < |out| && g.Edge(out[p], d) ==> Placed(g, out[..p], out[p], d)
  }

  /** Each frame was pushed for a dependency of the one below, having looked at `child` of its own. */
  ghost predicate Linked(g: Graph, s: State) {
    && (forall i :: 0 <= i < |s.stack| - 1 ==> g.Edge(s.stack[i].node, s.stack[i + 1].node))
    && (forall i, k :: (0 <= i < |s.stack| && s.stack[i].node < |g.deps|
                        && 0 <= k < s.stack[i].child && k < |g.deps[s.stack[i].node]|) ==>
          !Wanted(g, s.marks, s.stack[i].node, g.deps[s.stack[i].node][k]))
  }

  ghost predicate Inv(g: Graph, s: State) {
    Consistent(g, s) && Linked(g, s) && GraphOrdered(g, s.out)
  }

  lemma {:induction false} StackReaches(g: Graph, s: State, i: nat, j: nat)
    requires Shape(g, s) && Linked(g, s) && i <= j < |s.stack|
    ensures Reaches(g.Edges(), s.stack[i].node, s.stack[j].node)
    decreases j
  {
    if i == j {
      ReachesSelf(g.Edges(), s.stack[i].node);
    } else {
      StackReaches(g, s, i, j - 1);
      assert g.Edge(s.stack[j - 1].node, s.stack[j - 1 + 1].node);
      ReachesEdge(g.Edges(), s.stack[j - 1].node, s.stack[j].node);
      ReachesTrans(g.Edges(), s.stack[i].node, s.stack[j - 1].node, s.stack[j].node);
    }
  }

  /** With nothing left to descend into, every dependency of the top is placed. */
  lemma TopPlaced(g: Graph, s: State, d: nat)
    requires Consistent(g, s) && Linked(g, s) && s.stack != []
    requires var top := s.stack[|s.stack| - 1]; NextChild(g, s.marks, top.node, top.child) >= |g.deps[top.node]|
    requires g.Edge(s.stack[|s.stack| - 1].node, d)
    ensures Placed(g, s.out, s.stack[|s.stack| - 1].node, d)
  {
    var t := |s.stack| - 1;
    var top := s.stack[t];
    var k :| 0 <= k < |g.deps[top.node]| && g.deps[top.node][k] == d;
    assert !Wanted(g, s.marks, top.node, g.deps[top.node][k]);
    if s.marks[d] == Stacked {
      assert OnStack(s, d);
      var i :| 0 <= i < |s.stack| && s.stack[i].node == d;
      StackReaches(g, s, i, t);
    }
  }

  lemma EmitOrdered(g: Graph, s: State)
    requires Inv(g, s) && s.stack != []
    requires var top := s.stack[|s.stack| - 1]; NextChild(g, s.marks, top.node, top.child) >= |g.deps[top.node]|
    ensures GraphOrdered(g, Emit(s).out)
  {
    var out := Emit(s).out;
    forall p, d: nat | 0 <= p < |out| && g.Edge(out[p], d)
      ensures Placed(g, out[..p], out[p], d)
    {
      if p < |s.out| {
        assert out[..p] == s.out[..p];
      } else {
        assert out[..p] == s.out;
        TopPlaced(g, s, d);
      }
    }
  }

  lemma EmitLinked(g: Graph, s: State)
    requires Consistent(g, s) && Linked(g, s) && s.stack != []
    ensures Linked(g, Emit(s))
  {
  }

  lemma PushLinked(g: Graph, s: State, cap: nat)
    requires Consistent(g, s) && Linked(g, s) && s.stack != []
    requires var top := s.stack[|s.stack| - 1]; NextChild(g, s.marks, top.node, top.child) < |g.deps[top.node]|
    ensures var top := s.stack[|s.stack| - 1];
            var k := NextChild(g, s.marks, top.node, top.child);
            Linked(g, Push(s, k, g.deps[top.node][k]))
  {
  }

  /** Distinct stacked modules and a fresh one: the stack is shorter than the module list. */
  lemma StackShort(g: Graph, s: State, d: nat)
    requires Consistent(g, s) && d < |g.deps| && s.marks[d] == Fresh
    ensures |s.stack| < |g.deps|
  {
    var nodes := StackNodes(s.stack);
    StackNodesCard(s.stack);
    assert d !in nodes;
    BoundedCard(|g.deps|, nodes + {d});
  }

  ghost function StackNodes(stack: seq<Frame>): set<nat> {
    set i | 0 <= i < |stack| :: stack[i].node
  }

  lemma {:induction false} StackNodesCard(stack: seq<Frame>)
    requires forall i, j :: 0 <= i < j < |stack| ==> stack[i].node != stack[j].node
    ensures |StackNodes(stack)| == |stack|
    decreases |stack|
  {
    if stack != [] {
      var rest := stack[..|stack| - 1];
      StackNodesCard(rest);
      assert StackNodes(stack) == StackNodes(rest) + {stack[|stack| - 1].node};
    } else {
      assert StackNodes(stack) == {};
    }
  }

  lemma StepInv(g: Graph, cap: nat, s: State)
    requires Inv(g, s) && s.stack != [] && |g.deps| <= cap
    ensures Inv(g, Step(g, cap, s))
  {
    StepConsistent(g, cap, s);
    var top := s.stack[|s.stack| - 1];
    var k := NextChild(g, s.marks, top.node, top.child);
    if k < |g.deps[top.node]| {
      StackShort(g, s, g.deps[top.node][k]);
      PushLinked(g, s, cap);
    } else {
      EmitOrdered(g, s);
      EmitLinked(g, s);
    }
  }

  // ------------------------------------------------------------------------ whole runs

  lemma {:induction false} DrainKeeps(g: Graph, cap: nat, s: State)
    requires Consistent(g, s)
    ensures Consistent(g, Drain(g, cap, s)) && s.out <= Drain(g, cap, s).out
    ensures forall m :: 0 <= m < |g.deps| && s.marks[m] != Fresh ==> Drain(g, cap, s).marks[m] != Fresh
    decreases |FreshNodes(s.marks)|, |s.stack|
  {
    if s.stack != [] {
      StepMeasure(g, cap, s);
      StepConsistent(g, cap, s);
      DrainKeeps(g, cap, Step(g, cap, s));
    }
  }

  lemma {:induction false} DrainInv(g: Graph, cap: nat, s: State)
    requires Inv(g, s) && |g.deps| <= cap
    ensures Inv(g, Drain(g, cap, s))
    decreases |FreshNodes(s.marks)|, |s.stack|
  {
    if s.stack != [] {
      StepMeasure(g, cap, s);
      StepInv(g, cap, s);
      DrainInv(g, cap, Step(g, cap, s));
    }
  }

  lemma StartRoot(g: Graph, s: State, root: nat)
    requires Consistent(g, s) && s.stack == [] && root < |g.deps| && s.marks[root] == Fresh
    ensures var t := State([Frame(root, 0)], s.marks[root := Stacked], s.out);
            Consistent(g, t) && (Inv(g, s) ==> Inv(g, t))
  {
    var t := State([Frame(root, 0)], s.marks[root := Stacked], s.out);
    assert forall m: nat :: !OnStack(s, m);
    forall m: nat | m < |g.deps| && t.marks[m] == Stacked
      ensures OnStack(t, m)
    {
      if m == root {
        assert t.stack[0].node == m;
      }
    }
  }

  ghost function Rooted(s: State, root: nat): State
    requires root < |s.marks|
  {
    State([Frame(root, 0)], s.marks[root := Stacked], s.out)
  }

  lemma {:induction false} SortKeeps(g: Graph, cap: nat, s: State, root: nat)
    requires Consistent(g, s) && s.stack == [] && root <= |g.deps| && cap > 0
    requires forall m :: 0 <= m < root ==> s.marks[m] != Fresh
    ensures Consistent(g, SortFrom(g, cap, s, root)) && s.out <= SortFrom(g, cap, s, root).out
    ensures forall m :: 0 <= m < |g.deps| ==> SortFrom(g, cap, s, root).marks[m] != Fresh
    decreases |g.deps| - root
  {
    if root < |g.deps| {
      if s.marks[root] != Fresh {
        SortKeeps(g, cap, s, root + 1);
      } else {
        StartRoot(g, s, root);
        DrainKeeps(g, cap, Rooted(s, root));
        SortKeeps(g, cap, Drain(g, cap, Rooted(s, root)), root + 1);
      }
    }
  }

  lemma {:induction false} SortInv(g: Graph, cap: nat, s: State, root: nat)
    requires Inv(g, s) && s.stack == [] && root <= |g.deps| && cap > 0 && |g.deps| <= cap
    ensures Inv(g, SortFrom(g, cap, s, root))
    decreases |g.deps| - root
  {
    if root < |g.deps| {
      if s.marks[root] != Fresh {
        SortInv(g, cap, s, root + 1);
      } else {
        StartRoot(g, s, root);
        DrainInv(g, cap, Rooted(s, root));
        SortInv(g, cap, Drain(g, cap, Rooted(s, root)), root + 1);
      }
    }
  }

  /** Whatever the stack bound, every module is emitted exactly once. */
  lemma EachOnce(g: Graph, cap: nat)
    requires g.Valid() && cap > 0
    ensures var out := Sort(g, cap);
            (forall i, j :: 0 <= i < j < |out| ==> out[i] != out[j]) && (forall m: nat :: m in out <==> m < |g.deps|)
            && |out| == |g.deps|
  {
    var s := Initial(|g.deps|);
    SortKeeps(g, cap, s, 0);
    var t := SortFrom(g, cap, s, 0);
    forall m: nat | m < |g.deps|
      ensures m in t.out
    {
      assert t.marks[m] == Stacked ==> OnStack(t, m);
    }
    assert forall i :: 0 <= i < |t.out| ==> t.out[i] < |g.deps|;
    DistinctFull(t.out, |g.deps|);
  }

  lemma {:induction false} DistinctFull(out: seq<nat>, n: nat)
    requires (forall i, j :: 0 <= i < j < |out| ==> out[i] != out[j]) && (forall m: nat :: m in out <==> m < n)
    ensures |out| == n
  {
    var frames := seq(|out|, i requires 0 <= i < |out| => Frame(out[i], 0));
    StackNodesCard(frames);
    var all := StackNodes(frames);
    assert forall i :: 0 <= i < |out| ==> frames[i].node == out[i] && out[i] in out;
    forall m: nat | m < n
      ensures m in all
    {
      assert m in out;
      var i :| 0 <= i < |out| && out[i] == m;
      assert frames[i].node == m;
    }
    BoundedCard(n, all);
    CardAtLeast(n, all);
  }

  /** With no more nodes than frames, a node comes after each of its dependencies in the
      graph, save those that themselves depend on it. */
  lemma SortOrdered(g: Graph, cap: nat)
    requires g.Valid() && 0 < cap && |g.deps| <= cap
    ensures GraphOrdered(g, Sort(g, cap))
  {
    SortInv(g, cap, Initial(|g.deps|), 0);
  }

  ghost predicate GraphDependencyFirst(g: Graph, out: seq<nat>) {
    forall p, d: nat :: 0 <= p < |out| && g.Edge(out[p], d) ==> d in out[..p]
  }

  // ------------------------------------------------------- beyond the stack bound

  /** Module `i` uses module `i + 1`. */
  function Chain(n: nat): (g: Graph)
    ensures g.Valid() && |g.deps| == n
  {
    Graph(seq(n, i => if i + 1 < n then [i + 1] else []))
  }

  /** The search has descended to module `k` of the chain. */
  function ChainState(n: nat, k: nat): State
    requires k < n
  {
    State(seq(k + 1, i requires 0 <= i < k + 1 => Frame(i, if i < k then 1 else 0)),
          seq(n, i => if i <= k then Stacked else Fresh), [])
  }

  lemma {:induction false} ChainOnlyForward(n: nat, k: nat, u: nat, v: nat)
    requires StepsTo(Chain(n).Edges(), k, u, v)
    ensures v == u + k
    decreases k
  {
    if k > 0 {
      var w: nat :| Chain(n).Edges()(u, w) && StepsTo(Chain(n).Edges(), k - 1, w, v);
      assert Chain(n).Edge(u, w);
      ChainOnlyForward(n, k - 1, w, v);
    }
  }

  lemma ChainAcyclic(n: nat)
    ensures Chain(n).Acyclic()
  {
    forall m: nat, d: nat | Chain(n).Edge(m, d)
      ensures !Reaches(Chain(n).Edges(), d, m)
    {
      if k: nat :| StepsTo(Chain(n).Edges(), k, d, m) {
        ChainOnlyForward(n, k, d, m);
        assert false;
      }
    }
  }

  lemma ChainDescends(n: nat, cap: nat, k: nat)
    requires k + 1 < n
    ensures Shape(Chain(n), ChainState(n, k))
    ensures Step(Chain(n), cap, ChainState(n, k)) ==
            if k + 1 < cap then ChainState(n, k + 1) else Emit(ChainState(n, k))
    ensures Emit(ChainState(n, k)).out == [k]
  {
    var g, s := Chain(n), ChainState(n, k);
    assert g.deps[k] == [k + 1];
    assert NextChild(g, s.marks, k, 0) == 0;
    if k + 1 < cap {
      var t, goal := Push(s, 0, k + 1), ChainState(n, k + 1);
      assert t.stack == goal.stack;
      assert t.marks == goal.marks;
    }
  }

  lemma {:induction false} ChainDrains(n: nat, cap: nat, k: nat)
    requires k < cap < n && Consistent(Chain(n), ChainState(n, k))
    ensures var out := Drain(Chain(n), cap, ChainState(n, k)).out; out != [] && out[0] == cap - 1
    decreases cap - k
  {
    var g, s := Chain(n), ChainState(n, k);
    ChainDescends(n, cap, k);
    StepConsistent(g, cap, s);
    if k + 1 < cap {
      ChainDrains(n, cap, k + 1);
    } else {
      DrainKeeps(g, cap, Emit(s));
      assert Drain(g, cap, s) == Drain(g, cap, Emit(s));
    }
  }

  lemma ChainStart(n: nat, cap: nat)
    requires n > 0 && cap > 0
    ensures Consistent(Chain(n), ChainState(n, 0))
    ensures Sort(Chain(n), cap) == SortFrom(Chain(n), cap, Drain(Chain(n), cap, ChainState(n, 0)), 1).out
  {
    var g, s := Chain(n), Initial(n);
    StartRoot(g, s, 0);
    var t := State([Frame(0, 0)], s.marks[0 := Stacked], s.out);
    assert t.stack == ChainState(n, 0).stack && t.marks == ChainState(n, 0).marks;
    assert t == ChainState(n, 0);
  }

  lemma ChainFirstOut(n: nat, cap: nat)
    requires 0 < cap < n
    ensures Sort(Chain(n), cap) != [] && Sort(Chain(n), cap)[0] == cap - 1
  {
    var g, s := Chain(n), ChainState(n, 0);
    ChainStart(n, cap);
    ChainDrains(n, cap, 0);
    DrainKeeps(g, cap, s);
    SortKeeps(g, cap, Drain(g, cap, s), 1);
  }

  /** A chain longer than the stack starts with the module where the stack ran out. */
  lemma ChainTooLong(n: nat, cap: nat)
    requires 0 < cap < n
    ensures !GraphDependencyFirst(Chain(n), Sort(Chain(n), cap))
  {
    ChainFirstOut(n, cap);
    var out := Sort(Chain(n), cap);
    assert Chain(n).Edge(out[0], cap) && out[..0] == [];
  }

  // --------------------------------------------------------------- the program's modules

  /** A statement of a module body. */
  datatype Child =
    | Use(bareStd: bool, target: string, importAll: bool, imports: nat, hasAlias: bool)
    | OtherChild

  datatype Stmt = Module(name: string, children: seq<Child>) | OtherStmt

  const MAX_DEPS: nat := 256
  const STACK_MAX: nat := 4096

  /** A use that imports a whole module. */
  predicate IsDependency(c: Child) {
    c.Use? && !c.bareStd && c.target != "" && (c.importAll || c.imports == 0 || c.hasAlias)
  }

  /** The dependencies met from child `i` on, after those in `acc`. */
  function DepsFrom(children: seq<Child>, i: nat, acc: seq<string>): seq<string>
    requires i <= |children|
    decreases |children| - i
  {
    if i == |children| || |acc| >= MAX_DEPS then acc
    else DepsFrom(children, i + 1,
                  if IsDependency(children[i]) && children[i].target !in acc then acc + [children[i].target] else acc)
  }

  /** What the collected list is for: no repeats, only whole-module imports, and all of
      them unless the list is full. */
  lemma {:induction false} DepsExact(children: seq<Child>, i: nat, acc: seq<string>)
    requires i <= |children| && forall a, b :: 0 <= a < b < |acc| ==> acc[a] != acc[b]
    requires |acc| <= MAX_DEPS
    ensures var r := DepsFrom(children, i, acc);
            && acc <= r && |r| <= MAX_DEPS && (forall a, b :: 0 <= a < b < |r| ==> r[a] != r[b])
            && (forall x :: x in r ==> x in acc || exists c :: c in children[i..] && IsDependency(c) && c.target == x)
            && (|r| < MAX_DEPS ==> forall c :: c in children[i..] && IsDependency(c) ==> c.target in r)
    decreases |children| - i
  {
    if i < |children| && |acc| < MAX_DEPS {
      var next := if IsDependency(children[i]) && children[i].target !in acc then acc + [children[i].target] else acc;
      DepsExact(children, i + 1, next);
      assert children[i..] == [children[i]] + children[i + 1..];
      var r := DepsFrom(children, i, acc);
      assert forall x :: x in next ==> x in r;
      forall c | |r| < MAX_DEPS && c in children[i..] && IsDependency(c)
        ensures c.target in r
      {
        assert c == children[i] || c in children[i + 1..];
      }
    } else if i == |children| {
      assert children[i..] == [];
    }
  }

  /** The names a body imports as whole modules. */
  ghost function Targets(children: seq<Child>): set<string> {
    set c | c in children && IsDependency(c) :: c.target
  }

  ghost function Elements(names: seq<string>): set<string> {
    set x | x in names
  }

  lemma {:induction false} ElementsCard(names: seq<string>)
    requires forall a, b :: 0 <= a < b < |names| ==> names[a] != names[b]
    ensures |Elements(names)| == |names|
    decreases |names|
  {
    if names != [] {
      var rest := names[..|names| - 1];
      ElementsCard(rest);
      assert names == rest + [names[|names| - 1]];
      assert Elements(names) == Elements(rest) + {names[|names| - 1]};
    } else {
      assert Elements(names) == {};
    }
  }

  /** The list holds every imported module if and only if there are no more than 256. */
  lemma DepsCompleteExactlyWhen(children: seq<Child>)
    ensures Targets(children) <= Elements(DepsFrom(children, 0, [])) <==> |Targets(children)| <= MAX_DEPS
    ensures Elements(DepsFrom(children, 0, [])) <= Targets(children)
  {
    var r := DepsFrom(children, 0, []);
    DepsExact(children, 0, []);
    assert children[0..] == children;
    ElementsCard(r);
    var s, t := Elements(r), Targets(children);
    if t <= s {
      SubsetCard(t, s);
    } else if |t| <= MAX_DEPS {
      var x :| x in t && x !in s;
      SubsetCard(s + {x}, t);
      assert false;
    }
  }

  /** codegen_collect_module_deps. */
  method CollectDeps(children: seq<Child>) returns (deps: seq<string>)
    ensures deps == DepsFrom(children, 0, [])
  {
    deps := [];
    var i := 0;
    while i < |children| && |deps| < MAX_DEPS
      invariant 0 <= i <= |children|
      invariant DepsFrom(children, i, deps) == DepsFrom(children, 0, [])
    {
      if IsDependency(children[i]) {
        var dup := false;
        var j := 0;
        while j < |deps|
          invariant 0 <= j <= |deps|
          invariant dup <==> children[i].target in deps[..j]
        {
          if deps[j] == children[i].target {
            dup := true;
            break;
          }
          j := j + 1;
        }
        assert deps[..|deps|] == deps;
        if !dup {
          deps := deps + [children[i].target];
        }
      }
      i := i + 1;
    }
  }

  /** Index of the first module of that name, or -1. */
  function NameIndex(names: seq<string>, name: string): (i: int)
    ensures -1 <= i < |names|
    ensures i >= 0 ==> names[i] == name && forall j :: 0 <= j < i ==> names[j] != name
    ensures i == -1 ==> name !in names
  {
    if names == [] then -1
    else if names[0] == name then 0
    else
      var r := NameIndex(names[1..], name);
      if r == -1 then -1 else r + 1
  }

  method FindModule(names: seq<string>, name: string) returns (i: int)
    ensures i == NameIndex(names, name)
  {
    i := -1;
    var k := 0;
    while k < |names|
      invariant 0 <= k <= |names| && i == -1
      invariant name !in names[..k]
    {
      if names[k] == name {
        i := k;
        break;
      }
      k := k + 1;
    }
    if i == -1 {
      assert names[..|names|] == names;
    } else {
      NameIndexIs(names, name, k);
    }
  }

  lemma {:induction false} NameIndexIs(names: seq<string>, name: string, k: nat)
    requires k < |names| && names[k] == name && name !in names[..k]
    ensures NameIndex(names, name) == k
    decreases k
  {
    if k > 0 {
      assert names[..k] == [names[0]] + names[1..][..k - 1];
      NameIndexIs(names[1..], name, k - 1);
    }
  }

  /** The modules of the program, in program order. */
  datatype Modules = Modules(indices: seq<nat>, names: seq<string>, children: seq<seq<Child>>) {
    predicate Valid() {
      |indices| == |names| == |children|
    }

    function DepIndices(m: nat): seq<int>
      requires Valid() && m < |names|
    {
      var deps := DepsFrom(children[m], 0, []);
      seq(|deps|, k requires 0 <= k < |deps| => NameIndex(names, deps[k]))
    }

    function DepGraph(): (g: Graph)
      requires Valid()
      ensures g.Valid() && |g.deps| == |names|
    {
      Graph(seq(|names|, m requires 0 <= m < |names| => DepIndices(m)))
    }
  }

  function ModulesOf(body: seq<Stmt>): (ms: Modules)
    ensures ms.Valid()
    ensures forall m :: 0 <= m < |ms.indices| ==> ms.indices[m] < |body|
    ensures forall a, b :: 0 <= a < b < |ms.indices| ==> ms.indices[a] < ms.indices[b]
  {
    if body == [] then Modules([], [], []) else
    var last := |body| - 1;
    var ms := ModulesOf(body[..last]);
    match body[last]
    case Module(name, children) => Modules(ms.indices + [last], ms.names + [name], ms.children + [children])
    case OtherStmt => ms
  }

  // ------------------------------------------------------------- the search on arrays

  function Frames(nodes: seq<nat>, children: seq<nat>): seq<Frame>
    requires |nodes| == |children|
  {
    seq(|nodes|, i requires 0 <= i < |nodes| => Frame(nodes[i], children[i]))
  }

  /** visited: 0 = unvisited, 1 = in-stack, 2 = done. */
  function Marks(visited: seq<nat>): seq<Mark> {
    seq(|visited|, i requires 0 <= i < |visited| =>
      if visited[i] == 0 then Fresh else if visited[i] == 1 then Stacked else Emitted)
  }

  function Mapped(indices: seq<nat>, out: seq<nat>): seq<nat>
    requires forall m :: m in out ==> m < |indices|
  {
    seq(|out|, p requires 0 <= p < |out| => assert out[p] in out; indices[out[p]])
  }

  class Search {
    const mods: Modules
    const visited: array<nat>
    const stackNode: array<nat>
    const stackChild: array<nat>
    const order: array<nat>
    var sp: nat
    var count: nat
    ghost var out: seq<nat>

    ghost predicate Ok()
      reads this, visited, order
    {
      && mods.Valid() && visited.Length == |mods.names|
      && stackNode.Length == stackChild.Length == STACK_MAX && sp <= STACK_MAX
      && visited != stackNode && visited != stackChild && visited != order
      && stackNode != stackChild && stackNode != order && stackChild != order
      && (forall m :: m in out ==> m < |mods.indices|)
      && (forall i :: 0 <= i < visited.Length ==> visited[i] <= 2)
      && count == (if |out| < order.Length then |out| else order.Length)
      && order[..count] == Mapped(mods.indices, out)[..count]
    }

    ghost function View(): State
      reads this, visited, stackNode, stackChild
      requires sp <= stackNode.Length && sp <= stackChild.Length
    {
      State(Frames(stackNode[..sp], stackChild[..sp]), Marks(visited[..]), out)
    }

    constructor (mods: Modules, order: array<nat>)
      requires mods.Valid()
      ensures Ok() && this.mods == mods && this.order == order
              && fresh(visited) && fresh(stackNode) && fresh(stackChild)
      ensures View() == Initial(|mods.names|) && sp == 0
    {
      this.mods, this.order := mods, order;
      visited := new nat[|mods.names|](_ => 0);
      stackNode := new nat[STACK_MAX];
      stackChild := new nat[STACK_MAX];
      sp, count, out := 0, 0, [];
    }

    /** Pushes a fresh frame. */
    method Enter(node: nat)
      requires Ok() && sp < STACK_MAX && node < |mods.names|
      modifies this`sp, stackNode, stackChild, visited
      ensures Ok()
      ensures View() == State(old(View()).stack + [Frame(node, 0)], old(View()).marks[node := Stacked], old(View()).out)
    {
      stackNode[sp] := node;
      stackChild[sp] := 0;
      visited[node] := 1;
      sp := sp + 1;
    }

    /** Remembers where to go on in the module on top, and enters its dependency. */
    method Descend(ci: nat, d: nat)
      requires Ok() && 0 < sp < STACK_MAX && d < |mods.names|
      modifies this`sp, stackNode, stackChild, visited
      ensures Ok() && View() == Push(old(View()), ci, d)
    {
      ghost var s := View();
      stackChild[sp - 1] := ci + 1;
      assert View().stack == s.stack[sp - 1 := Frame(s.stack[sp - 1].node, ci + 1)];
      Enter(d);
    }

    /** Emits the module on top, unless `order` is full, and pops it. */
    method Leave()
      requires Ok() && sp > 0 && stackNode[sp - 1] < |mods.names|
      modifies this, visited, order
      ensures Ok() && View() == Emit(old(View()))
    {
      var cur := stackNode[sp - 1];
      visited[cur] := 2;
      ghost var before := out;
      if count < order.Length {
        order[count] := mods.indices[cur];
        count := count + 1;
      }
      out := out + [cur];
      sp := sp - 1;
      assert Mapped(mods.indices, out) == Mapped(mods.indices, before) + [mods.indices[cur]];
    }

    /** The next dependency to descend into: its position and module, or -1. */
    method FindChild(cur: nat, first: nat) returns (ci: nat, d: int)
      requires Ok() && cur < |mods.names|
      ensures var g := mods.DepGraph();
              ci == NextChild(g, View().marks, cur, first)
              && d == (if ci < |g.deps[cur]| then g.deps[cur][ci] else -1)
    {
      ghost var g := mods.DepGraph();
      var deps := CollectDeps(mods.children[cur]);
      assert g.deps[cur] == mods.DepIndices(cur);
      ci := first;
      while ci < |deps|
        invariant first <= ci
        invariant NextChild(g, View().marks, cur, ci) == NextChild(g, View().marks, cur, first)
      {
        d := FindModule(mods.names, deps[ci]);
        if d != -1 && d != cur && visited[d] == 0 {
          return;
        }
        ci := ci + 1;
      }
      d := -1;
    }

    /** One turn of the inner loop. */
    method Turn()
      requires Ok() && sp > 0 && Shape(mods.DepGraph(), View())
      modifies this, visited, stackNode, stackChild, order
      ensures Ok() && View() == Step(mods.DepGraph(), STACK_MAX, old(View()))
    {
      assert View().stack[sp - 1] == Frame(stackNode[sp - 1], stackChild[sp - 1]);
      var ci, d := FindChild(stackNode[sp - 1], stackChild[sp - 1]);
      if d != -1 && sp < STACK_MAX {
        Descend(ci, d);
      } else {
        Leave();
      }
    }

    /** The inner loop. */
    method Run()
      requires Ok() && Shape(mods.DepGraph(), View())
      modifies this, visited, stackNode, stackChild, order
      ensures Ok() && View() == Drain(mods.DepGraph(), STACK_MAX, old(View()))
    {
      ghost var g := mods.DepGraph();
      while sp > 0
        invariant Ok() && Shape(g, View()) && Drain(g, STACK_MAX, View()) == Drain(g, STACK_MAX, old(View()))
        decreases |FreshNodes(View().marks)|, sp
      {
        StepMeasure(g, STACK_MAX, View());
        Turn();
      }
    }

    /** The search from one unvisited root. */
    method Explore(root: nat)
      requires Ok() && sp == 0 && root < |mods.names| && visited[root] == 0 && Shape(mods.DepGraph(), View())
      modifies this, visited, stackNode, stackChild, order
      ensures Ok() && sp == 0
      ensures View() == Drain(mods.DepGraph(), STACK_MAX,
                              State([Frame(root, 0)], old(View()).marks[root := Stacked], old(View()).out))
    {
      ghost var s := View();
      Enter(root);
      assert View() == State([Frame(root, 0)], s.marks[root := Stacked], s.out);
      Run();
      assert |View().stack| == sp;
    }

    /** The outer loop. */
    method RunAll()
      requires Ok() && sp == 0 && View() == Initial(|mods.names|)
      modifies this, visited, stackNode, stackChild, order
      ensures Ok() && out == Sort(mods.DepGraph(), STACK_MAX)
    {
      ghost var g := mods.DepGraph();
      ghost var goal := SortFrom(g, STACK_MAX, View(), 0);
      var root := 0;
      while root < |mods.names|
        invariant 0 <= root <= |mods.names| && Ok() && sp == 0
        invariant Shape(g, View()) && SortFrom(g, STACK_MAX, View(), root) == goal
      {
        VisitRoot(root);
        root := root + 1;
      }
    }

    /** One turn of the outer loop. */
    method VisitRoot(root: nat)
      requires Ok() && sp == 0 && root < |mods.names| && Shape(mods.DepGraph(), View())
      modifies this, visited, stackNode, stackChild, order
      ensures Ok() && sp == 0 && Shape(mods.DepGraph(), View())
      ensures SortFrom(mods.DepGraph(), STACK_MAX, View(), root + 1)
              == SortFrom(mods.DepGraph(), STACK_MAX, old(View()), root)
    {
      assert View().marks[root] == Fresh <==> visited[root] == 0;
      assert View().stack == [];
      if visited[root] == 0 {
        Explore(root);
      }
    }
  }

  lemma WholeSort(g: Graph)
    requires g.Valid()
    ensures |Sort(g, STACK_MAX)| == |g.deps| && forall m :: m in Sort(g, STACK_MAX) ==> m < |g.deps|
  {
    EachOnce(g, STACK_MAX);
  }

  /** codegen_topo_sort_modules: `order` receives the statement indices of the modules
      in the order of the search, as many as fit. */
  method TopoSortModules(body: seq<Stmt>, order: array<nat>) returns (count: nat)
    modifies order
    ensures var ms := ModulesOf(body);
            var out := Sort(ms.DepGraph(), STACK_MAX);
            && count == (if |ms.indices| < order.Length then |ms.indices| else order.Length)
            && count <= |out| && forall p :: 0 <= p < count ==> out[p] < |ms.indices| && order[p] == ms.indices[out[p]]
  {
    var ms := ModulesOf(body);
    WholeSort(ms.DepGraph());
    var search := new Search(ms, order);
    search.RunAll();
    count := search.count;
    ghost var out := Sort(ms.DepGraph(), STACK_MAX);
    assert search.out == out && |out| == |ms.indices|;
    forall p | 0 <= p < count
      ensures out[p] < |ms.indices| && order[p] == ms.indices[out[p]]
    {
      assert out[p] in out;
      assert order[p] == order[..count][p] == Mapped(ms.indices, out)[..count][p];
    }
  }
}
