/** Recursion marking: the strongly-connected-component walk of
    ny_mark_recursive_components(_dfs) in src/code/funcpurity.c. */
module Scc {
  import opened Common
  import opened Reachability

  /** The sentinel `SIZE_MAX` of an unvisited node. */
  const SIZE_MAX: nat := 0xFFFF_FFFF_FFFF_FFFF

  /** Call edges by node index, and the nodes that take part in the walk. */
  datatype Graph = Graph(adj: seq<seq<nat>>, enabled: seq<bool>) {
    /** What the caller sets up: one list per node, each sorted without repeats
        (ny_idx_list_sort_unique), and a node count that is an allocatable size. */
    predicate Valid() {
      && |adj| == |enabled| < SIZE_MAX
      && forall u :: 0 <= u < |adj| ==> Increasing(adj[u])
    }

    ghost predicate Edge(u: nat, v: nat) {
      u < |adj| && v < |adj| && |adj| <= |enabled| && enabled[u] && enabled[v] && v in adj[u]
    }

    ghost function Edges(): (nat, nat) -> bool {
      (u: nat, v: nat) => Edge(u, v)
    }
  }

  predicate Increasing(s: seq<nat>) {
    forall i, j :: 0 <= i < j < |s| ==> s[i] < s[j]
  }

  /** The arrays of ny_recursion_scc_ctx as values. */
  datatype State = State(index: seq<nat>, low: seq<nat>, stack: seq<nat>, onStack: seq<bool>,
                         flag: seq<bool>, next: nat, count: nat)

  ghost predicate Visited(s: State, v: nat) {
    v < |s.index| && s.index[v] != SIZE_MAX
  }

  /** Visited and already popped: its component is settled. */
  ghost predicate Done(s: State, v: nat) {
    Visited(s, v) && v < |s.onStack| && !s.onStack[v]
  }

  ghost function Unvisited(index: seq<nat>): set<nat> {
    set v | 0 <= v < |index| && index[v] == SIZE_MAX
  }

  ghost function Flagged(flag: seq<bool>): set<nat> {
    set v | 0 <= v < |flag| && flag[v]
  }

  // ---------------------------------------------------------------- invariant

  ghost predicate Shape(g: Graph, s: State) {
    && g.Valid()
    && |s.index| == |s.low| == |s.onStack| == |s.flag| == |g.adj|
    && s.next + |Unvisited(s.index)| == |g.adj|
    && (forall v: nat :: v < |g.adj| && s.index[v] != SIZE_MAX ==> s.index[v] < s.next && g.enabled[v])
    && (forall i :: 0 <= i < |s.stack| ==>
          s.stack[i] < |g.adj| && s.onStack[s.stack[i]] && s.index[s.stack[i]] != SIZE_MAX)
    && (forall v: nat :: v < |g.adj| && s.onStack[v] ==> v in s.stack)
    && (forall i, j :: 0 <= i < j < |s.stack| ==> s.index[s.stack[i]] < s.index[s.stack[j]])
  }

  /** Deeper stack entries reach the ones above them. */
  ghost predicate Chained(g: Graph, s: State) {
    forall i, j :: 0 <= i <= j < |s.stack| ==> Reaches(g.Edges(), s.stack[i], s.stack[j])
  }

  /** `a` is an active call no younger than `y` and reached from `y`. */
  ghost predicate Anchor(g: Graph, s: State, active: set<nat>, y: nat, a: nat) {
    && a in active && a in s.stack
    && a < |s.index| && y < |s.index| && s.index[a] <= s.index[y]
    && Reaches(g.Edges(), y, a)
  }

  ghost predicate HasAnchor(g: Graph, s: State, active: set<nat>, y: nat) {
    exists a :: Anchor(g, s, active, y, a)
  }

  ghost predicate Anchored(g: Graph, s: State, active: set<nat>) {
    forall y {:trigger HasAnchor(g, s, active, y)} :: y in s.stack ==> HasAnchor(g, s, active, y)
  }

  /** Settled components never call back out of the settled part. */
  ghost predicate Sealed(g: Graph, s: State) {
    forall u, v :: Done(s, u) && g.Edge(u, v) ==> Done(s, v)
  }

  /** A stacked node whose call has returned has only visited successors. */
  ghost predicate Explored(g: Graph, s: State, active: set<nat>) {
    forall u, v :: u in s.stack && u !in active && g.Edge(u, v) ==> Visited(s, v)
  }

  ghost predicate FlagsExact(g: Graph, s: State) {
    && s.count == |Flagged(s.flag)|
    && forall u: nat :: u < |s.flag| ==> (s.flag[u] <==> Done(s, u) && OnCycle(g.Edges(), u))
  }

  ghost predicate Inv(g: Graph, s: State, active: set<nat>) {
    && Shape(g, s)
    && Chained(g, s)
    && Anchored(g, s, active)
    && Sealed(g, s)
    && Explored(g, s, active)
    && FlagsExact(g, s)
    && forall a :: a in active ==> a in s.stack
  }

  // ------------------------------------------------------- contract of one call

  /** The lowlink of `v` is the index of some stacked node that `v` reaches. */
  ghost predicate LowSound(g: Graph, s: State, v: nat)
  {
    v < |s.low| && exists y: nat :: y in s.stack && y < |s.index| && s.index[y] == s.low[v] && Reaches(g.Edges(), v, y)
  }

  /** No edge from position `from` upwards enters the lowest `base` entries below index `low`. */
  ghost predicate LowComplete(g: Graph, s: State, from: nat, base: nat, low: nat)
  {
    forall i, j :: (from <= i < |s.stack| && 0 <= j < base <= |s.stack| && s.stack[j] < |s.index|
                    && g.Edge(s.stack[i], s.stack[j])) ==> low <= s.index[s.stack[j]]
  }

  /** What was known before is kept. */
  ghost predicate Extends(s: State, t: State) {
    && |s.index| == |t.index| == |s.low| == |t.low|
    && s.stack <= t.stack
    && s.next <= t.next
    && forall w: nat :: w < |s.index| && s.index[w] != SIZE_MAX ==> t.index[w] == s.index[w] && t.low[w] == s.low[w]
  }

  ghost predicate CallPre(g: Graph, s: State, active: set<nat>, v: nat) {
    && Inv(g, s, active)
    && v < |g.adj| && g.enabled[v] && s.index[v] == SIZE_MAX
    && forall x :: x in s.stack ==> Reaches(g.Edges(), x, v)
  }

  ghost predicate CallPost(g: Graph, s: State, t: State, active: set<nat>, v: nat) {
    && Inv(g, t, active)
    && Extends(s, t)
    && v < |g.adj| && t.index[v] == s.next && t.next > s.next
    && LowComplete(g, t, |s.stack|, |s.stack|, t.low[v])
    && if |t.stack| == |s.stack| then t.low[v] == t.index[v]
       else t.stack[|s.stack|] == v && t.low[v] < t.index[v] && LowSound(g, t, v)
  }

  /** `u` was pushed on the stack of `s` and its call is still running in `t`. */
  ghost predicate Running(s: State, t: State, u: nat) {
    && Extends(s, t)
    && u < |s.index| && s.index[u] == SIZE_MAX
    && |s.stack| < |t.stack| && t.stack[|s.stack|] == u
    && t.index[u] == s.next && t.next > s.next
  }

  ghost predicate LowTight(g: Graph, s: State, t: State, u: nat) {
    && u < |t.low| == |t.index| && t.low[u] <= t.index[u] && LowSound(g, t, u)
    && LowComplete(g, t, |s.stack| + 1, |s.stack|, t.low[u])
  }

  ghost predicate LookedAt(g: Graph, s: State, t: State, u: nat, w: nat) {
    Visited(t, w) && (w in s.stack ==> u < |t.low| && t.low[u] <= t.index[w])
  }

  /** The first `i` callees of `u` have been looked at. */
  ghost predicate Looked(g: Graph, s: State, t: State, u: nat, i: nat) {
    && u < |g.adj| && i <= |g.adj[u]|
    && forall k :: 0 <= k < i && g.Edge(u, g.adj[u][k]) ==> LookedAt(g, s, t, u, g.adj[u][k])
  }

  ghost predicate LoopInv(g: Graph, s: State, t: State, active: set<nat>, u: nat, i: nat) {
    && Inv(g, t, active + {u})
    && Running(s, t, u)
    && LowTight(g, s, t, u)
    && Looked(g, s, t, u, i)
  }

  // --------------------------------------------------------------------- steps

  function Push(s: State, v: nat): (t: State)
    requires v < |s.index| == |s.low| == |s.onStack|
  {
    s.(index := s.index[v := s.next], low := s.low[v := s.next], next := s.next + 1,
       stack := s.stack + [v], onStack := s.onStack[v := true])
  }

  function SetLow(s: State, u: nat, low: nat): (t: State)
    requires u < |s.low|
  {
    s.(low := s.low[u := low])
  }

  ghost function Clear(onStack: seq<bool>, out: seq<nat>): (r: seq<bool>) {
    seq(|onStack|, v requires 0 <= v < |onStack| => onStack[v] && v !in out)
  }

  ghost function Raise(flag: seq<bool>, out: seq<nat>): (r: seq<bool>) {
    seq(|flag|, v requires 0 <= v < |flag| => flag[v] || v in out)
  }

  /** Pop everything from position `base` and flag it when `recursive`. */
  ghost function Settle(s: State, base: nat, recursive: bool): (t: State)
    requires base <= |s.stack|
  {
    var out := s.stack[base..];
    var flag := if recursive then Raise(s.flag, out) else s.flag;
    s.(stack := s.stack[..base], onStack := Clear(s.onStack, out), flag := flag,
       count := |Flagged(flag)|)
  }

  lemma StackFits(g: Graph, s: State, i: nat)
    requires Shape(g, s) && i < |s.stack|
    ensures i <= s.index[s.stack[i]]
  {
    if i > 0 {
      StackFits(g, s, i - 1);
    }
  }

  lemma RoomToPush(g: Graph, s: State, v: nat)
    requires Shape(g, s) && v < |g.adj| && s.index[v] == SIZE_MAX
    ensures |s.stack| <= s.next < |g.adj|
  {
    assert v in Unvisited(s.index);
    if |s.stack| > 0 {
      StackFits(g, s, |s.stack| - 1);
    }
  }

  lemma PushShape(g: Graph, s: State, v: nat)
    requires Shape(g, s) && v < |g.adj| && g.enabled[v] && s.index[v] == SIZE_MAX
    ensures Shape(g, Push(s, v))
  {
    RoomToPush(g, s, v);
    var t := Push(s, v);
    assert Unvisited(t.index) == Unvisited(s.index) - {v};
    assert forall i :: 0 <= i < |s.stack| ==> s.stack[i] in s.stack;
    assert forall x :: x in t.stack <==> x in s.stack || x == v;
  }

  lemma PushKeepsDone(s: State, v: nat)
    requires v < |s.index| == |s.low| == |s.onStack| && s.index[v] == SIZE_MAX
    ensures forall u :: Done(Push(s, v), u) <==> Done(s, u)
  {
  }

  lemma PushChained(g: Graph, s: State, v: nat)
    requires Chained(g, s) && v < |s.index| == |s.low| == |s.onStack|
    requires forall x :: x in s.stack ==> Reaches(g.Edges(), x, v)
    ensures Chained(g, Push(s, v))
  {
    var t := Push(s, v);
    ReachesSelf(g.Edges(), v);
    forall i, j | 0 <= i <= j < |t.stack|
      ensures Reaches(g.Edges(), t.stack[i], t.stack[j])
    {
      if i < j == |s.stack| {
        assert s.stack[i] in s.stack;
      }
    }
  }

  lemma PushAnchored(g: Graph, s: State, active: set<nat>, v: nat)
    requires Anchored(g, s, active) && v < |s.index| == |s.low| == |s.onStack|
    requires v !in s.stack
    ensures Anchored(g, Push(s, v), active + {v})
  {
    var t := Push(s, v);
    ReachesSelf(g.Edges(), v);
    forall y | y in t.stack
      ensures HasAnchor(g, t, active + {v}, y)
    {
      if y == v {
        assert t.stack[|s.stack|] == v;
        assert Anchor(g, t, active + {v}, y, v);
      } else {
        assert y in s.stack && HasAnchor(g, s, active, y);
        var a :| Anchor(g, s, active, y, a);
        assert Anchor(g, t, active + {v}, y, a);
      }
    }
  }

  lemma PushInv(g: Graph, s: State, active: set<nat>, v: nat)
    requires CallPre(g, s, active, v)
    ensures LoopInv(g, s, Push(s, v), active, v, 0)
  {
    var t := Push(s, v);
    PushShape(g, s, v);
    PushChained(g, s, v);
    PushAnchored(g, s, active, v);
    PushKeepsDone(s, v);
    assert t.stack[|s.stack|] == v;
    assert Explored(g, t, active + {v}) by {
      assert forall x :: x in t.stack <==> x in s.stack || x == v;
    }
    assert LowSound(g, t, v) by {
      ReachesSelf(g.Edges(), v);
      assert v in t.stack;
    }
  }

  // ------------------------------------------------------------ one callee looked at

  lemma SetLowInv(g: Graph, s: State, active: set<nat>, u: nat, low: nat)
    requires Inv(g, s, active) && u < |g.adj|
    ensures Inv(g, SetLow(s, u, low), active)
  {
    var t := SetLow(s, u, low);
    forall y | y in t.stack
      ensures HasAnchor(g, t, active, y)
    {
      assert HasAnchor(g, s, active, y);
      var a :| Anchor(g, s, active, y, a);
      assert Anchor(g, t, active, y, a);
    }
    assert forall v :: Done(t, v) <==> Done(s, v);
  }

  /** Every stacked node reaches the youngest active call. */
  lemma AllReachYoungest(g: Graph, s: State, active: set<nat>, u: nat)
    requires Inv(g, s, active) && u in active
    requires forall a :: a in active && a in s.stack ==> s.index[a] <= s.index[u]
    ensures forall x :: x in s.stack ==> Reaches(g.Edges(), x, u)
  {
    forall x | x in s.stack
      ensures Reaches(g.Edges(), x, u)
    {
      assert HasAnchor(g, s, active, x);
      var a :| Anchor(g, s, active, x, a);
      var i :| 0 <= i < |s.stack| && s.stack[i] == a;
      var j :| 0 <= j < |s.stack| && s.stack[j] == u;
      assert i <= j;
      ReachesTrans(g.Edges(), x, a, u);
    }
  }

  /** A callee that is out of range or disabled is skipped. */
  lemma SkipCallee(g: Graph, s: State, t: State, active: set<nat>, u: nat, i: nat)
    requires LoopInv(g, s, t, active, u, i) && i < |g.adj[u]|
    requires g.adj[u][i] >= |g.adj| || !g.enabled[g.adj[u][i]]
    ensures LoopInv(g, s, t, active, u, i + 1)
  {
    assert !g.Edge(u, g.adj[u][i]);
  }

  lemma LookedMono(g: Graph, s: State, t: State, t': State, u: nat, i: nat)
    requires Looked(g, s, t, u, i)
    requires |t.index| == |t'.index| == |t.low| == |t'.low| && u < |t.low| && t'.low[u] <= t.low[u]
    requires forall w: nat :: Visited(t, w) ==> t'.index[w] == t.index[w]
    ensures Looked(g, s, t', u, i)
  {
    forall k | 0 <= k < i && g.Edge(u, g.adj[u][k])
      ensures LookedAt(g, s, t', u, g.adj[u][k])
    {
      assert LookedAt(g, s, t, u, g.adj[u][k]);
    }
  }

  lemma LowCompleteMono(g: Graph, s: State, t: State, from: nat, base: nat, low: nat, low': nat)
    requires LowComplete(g, s, from, base, low) && low' <= low
    requires t.stack == s.stack && t.index == s.index
    ensures LowComplete(g, t, from, base, low')
  {
  }

  /** A visited callee lowers the lowlink exactly when it is stacked and older. */
  lemma VisitedCallee(g: Graph, s: State, t: State, active: set<nat>, u: nat, i: nat)
    requires LoopInv(g, s, t, active, u, i) && i < |g.adj[u]|
    requires var w := g.adj[u][i]; w < |g.adj| && g.enabled[w] && Visited(t, w)
    ensures var w := g.adj[u][i];
            LoopInv(g, s, SetLow(t, u, if t.onStack[w] then Min(t.index[w], t.low[u]) else t.low[u]), active, u, i + 1)
  {
    var w := g.adj[u][i];
    var low := if t.onStack[w] then Min(t.index[w], t.low[u]) else t.low[u];
    var t' := SetLow(t, u, low);
    SetLowInv(g, t, active + {u}, u, low);
    VisitedLowSound(g, t, active, u, w);
    LookedMono(g, s, t, t', u, i);
    LowCompleteMono(g, t, t', |s.stack| + 1, |s.stack|, t.low[u], low);
    assert LookedAt(g, s, t', u, w) by {
      PrefixOnStack(g, s, t);
    }
  }

  lemma VisitedLowSound(g: Graph, t: State, active: set<nat>, u: nat, w: nat)
    requires Shape(g, t) && u < |g.adj| && w in g.adj[u] && u in t.stack && LowSound(g, t, u)
    requires w < |g.adj| && g.enabled[w] && Visited(t, w)
    ensures LowSound(g, SetLow(t, u, if t.onStack[w] then Min(t.index[w], t.low[u]) else t.low[u]), u)
  {
    var t' := SetLow(t, u, if t.onStack[w] then Min(t.index[w], t.low[u]) else t.low[u]);
    if t.onStack[w] && t.index[w] < t.low[u] {
      assert g.Edge(u, w);
      ReachesEdge(g.Edges(), u, w);
      assert w in t'.stack && t'.index[w] == t'.low[u];
    } else {
      var y: nat :| y in t.stack && y < |t.index| && t.index[y] == t.low[u] && Reaches(g.Edges(), u, y);
      assert y in t'.stack && t'.index[y] == t'.low[u];
    }
  }

  lemma PrefixOnStack(g: Graph, s: State, t: State)
    requires Shape(g, t) && s.stack <= t.stack
    ensures forall w :: w in s.stack ==> w in t.stack && w < |g.adj| && t.onStack[w]
  {
    assert forall i :: 0 <= i < |s.stack| ==> s.stack[i] == t.stack[i];
  }

  /** Before the recursive call on an unvisited callee. */
  lemma EnterCallee(g: Graph, s: State, t: State, active: set<nat>, u: nat, i: nat)
    requires LoopInv(g, s, t, active, u, i) && i < |g.adj[u]|
    requires forall a :: a in active ==> a in s.stack
    requires Shape(g, s)
    requires var w := g.adj[u][i]; w < |g.adj| && g.enabled[w] && t.index[w] == SIZE_MAX
    ensures CallPre(g, t, active + {u}, g.adj[u][i])
  {
    var w := g.adj[u][i];
    assert t.stack[|s.stack|] == u;
    assert g.Edge(u, w);
    AllReachYoungest(g, t, active + {u}, u);
    forall x | x in t.stack
      ensures Reaches(g.Edges(), x, w)
    {
      ReachesEdge(g.Edges(), u, w);
      ReachesTrans(g.Edges(), x, u, w);
    }
  }

  /** After it: the callee's lowlink is folded into the caller's. */
  lemma LeaveCallee(g: Graph, s: State, t: State, t2: State, active: set<nat>, u: nat, i: nat)
    requires LoopInv(g, s, t, active, u, i) && i < |g.adj[u]|
    requires var w := g.adj[u][i]; w < |g.adj| && g.enabled[w] && t.index[w] == SIZE_MAX
    requires CallPost(g, t, t2, active + {u}, g.adj[u][i])
    ensures LoopInv(g, s, SetLow(t2, u, Min(t2.low[g.adj[u][i]], t2.low[u])), active, u, i + 1)
  {
    var w := g.adj[u][i];
    var low := Min(t2.low[w], t2.low[u]);
    var t' := SetLow(t2, u, low);
    SetLowInv(g, t2, active + {u}, u, low);
    assert Visited(t, u);
    LeaveLowSound(g, s, t, t2, active, u, i);
    LeaveLowComplete(g, s, t, t2, u, w);
    LeaveLooked(g, s, t, t2, u, i, low);
    LeaveRunning(s, t, t2, u, low);
  }

  lemma LeaveRunning(s: State, t: State, t2: State, u: nat, low: nat)
    requires Running(s, t, u) && Extends(t, t2) && t.index[u] != SIZE_MAX
    ensures Running(s, SetLow(t2, u, low), u)
  {
  }

  lemma LeaveLooked(g: Graph, s: State, t: State, t2: State, u: nat, i: nat, low: nat)
    requires Looked(g, s, t, u, i) && i < |g.adj[u]| && Extends(t, t2) && s.stack <= t.stack && Shape(g, t)
    requires u < |t.low| && low <= t.low[u] && |t.low| == |t.index|
    requires var w := g.adj[u][i]; w < |t.index| && t.index[w] == SIZE_MAX && Visited(t2, w)
    ensures Looked(g, s, SetLow(t2, u, low), u, i + 1)
  {
    LookedMono(g, s, t, SetLow(t2, u, low), u, i);
    PrefixOnStack(g, s, t);
    assert g.adj[u][i] !in s.stack;
  }

  lemma LeaveLowComplete(g: Graph, s: State, t: State, t2: State, u: nat, w: nat)
    requires Running(s, t, u) && LowTight(g, s, t, u) && Extends(t, t2) && Shape(g, t)
    requires w < |t2.low| && u < |t2.low| && t2.low[u] == t.low[u]
    requires LowComplete(g, t2, |t.stack|, |t.stack|, t2.low[w])
    ensures LowComplete(g, SetLow(t2, u, Min(t2.low[w], t2.low[u])),
                        |s.stack| + 1, |s.stack|, Min(t2.low[w], t2.low[u]))
  {
    forall i, j | |s.stack| + 1 <= i < |t2.stack| && 0 <= j < |s.stack| && t2.stack[j] < |t2.index|
                  && g.Edge(t2.stack[i], t2.stack[j])
      ensures Min(t2.low[w], t2.low[u]) <= t2.index[t2.stack[j]]
    {
      assert t2.stack[j] == t.stack[j];
      if i < |t.stack| {
        assert t2.stack[i] == t.stack[i];
      }
    }
  }

  lemma LeaveLowSound(g: Graph, s: State, t: State, t2: State, active: set<nat>, u: nat, i: nat)
    requires LoopInv(g, s, t, active, u, i) && i < |g.adj[u]|
    requires var w := g.adj[u][i]; w < |g.adj| && g.enabled[w] && t.index[w] == SIZE_MAX
    requires CallPost(g, t, t2, active + {u}, g.adj[u][i])
    ensures var w := g.adj[u][i];
            var low := Min(t2.low[w], t2.low[u]);
            low <= t2.index[u] && LowSound(g, SetLow(t2, u, low), u)
  {
    var w := g.adj[u][i];
    assert t.stack[|s.stack|] == u && Visited(t, u);
    if t2.low[w] < t2.low[u] {
      var t' := SetLow(t2, u, t2.low[w]);
      var y: nat :| y in t2.stack && y < |t2.index| && t2.index[y] == t2.low[w] && Reaches(g.Edges(), w, y);
      assert g.Edge(u, w);
      ReachesEdge(g.Edges(), u, w);
      ReachesTrans(g.Edges(), u, w, y);
      assert y in t'.stack && t'.index[y] == t'.low[u];
    } else {
      var t' := SetLow(t2, u, t2.low[u]);
      var y: nat :| y in t.stack && y < |t.index| && t.index[y] == t.low[u] && Reaches(g.Edges(), u, y);
      PrefixOnStack(g, t, t2);
      assert y in t'.stack && t'.index[y] == t'.low[u];
    }
  }

  // ------------------------------------------------------------------ the call ends

  lemma AllLooked(g: Graph, s: State, t: State, u: nat, w: nat)
    requires u < |g.adj| && Looked(g, s, t, u, |g.adj[u]|) && g.Edge(u, w)
    ensures LookedAt(g, s, t, u, w)
  {
    var k :| 0 <= k < |g.adj[u]| && g.adj[u][k] == w;
  }

  lemma AllExplored(g: Graph, s: State, t: State, active: set<nat>, u: nat)
    requires u < |g.adj| && Explored(g, t, active + {u}) && Looked(g, s, t, u, |g.adj[u]|)
    ensures Explored(g, t, active)
  {
    forall x, y | x in t.stack && x !in active && g.Edge(x, y)
      ensures Visited(t, y)
    {
      if x == u {
        AllLooked(g, s, t, u, y);
      }
    }
  }

  lemma CrossingFromRoot(g: Graph, s: State, t: State, u: nat)
    requires Running(s, t, u) && LowTight(g, s, t, u) && u < |g.adj| && Looked(g, s, t, u, |g.adj[u]|)
    ensures LowComplete(g, t, |s.stack|, |s.stack|, t.low[u])
  {
    forall i, j | |s.stack| <= i < |t.stack| && 0 <= j < |s.stack| && t.stack[j] < |t.index|
                  && g.Edge(t.stack[i], t.stack[j])
      ensures t.low[u] <= t.index[t.stack[j]]
    {
      if i == |s.stack| {
        AllLooked(g, s, t, u, t.stack[j]);
        assert t.stack[j] == s.stack[j];
      }
    }
  }

  /** When `u` is not the root of its component, an older active call anchors it. */
  lemma ReAnchor(g: Graph, t: State, active: set<nat>, u: nat, y: nat)
    requires Shape(g, t) && Anchored(g, t, active + {u}) && u in t.stack && LowSound(g, t, u)
    requires t.low[u] < t.index[u] && y in t.stack
    ensures HasAnchor(g, t, active, y)
  {
    assert HasAnchor(g, t, active + {u}, y);
    var a :| Anchor(g, t, active + {u}, y, a);
    if a in active {
      assert Anchor(g, t, active, y, a);
    } else {
      var z: nat :| z in t.stack && z < |t.index| && t.index[z] == t.low[u] && Reaches(g.Edges(), u, z);
      assert HasAnchor(g, t, active + {u}, z);
      var b :| Anchor(g, t, active + {u}, z, b);
      ReachesTrans(g.Edges(), u, z, b);
      ReachesTrans(g.Edges(), y, u, b);
      assert Anchor(g, t, active, y, b);
    }
  }

  /** The call of a node that belongs to an older node's component just returns. */
  lemma ReturnOpen(g: Graph, s: State, t: State, active: set<nat>, u: nat)
    requires u < |g.adj| && LoopInv(g, s, t, active, u, |g.adj[u]|)
    requires t.low[u] != t.index[u]
    ensures CallPost(g, s, t, active, u)
  {
    forall y | y in t.stack
      ensures HasAnchor(g, t, active, y)
    {
      ReAnchor(g, t, active, u, y);
    }
    AllExplored(g, s, t, active, u);
    CrossingFromRoot(g, s, t, u);
  }

  /** The settled nodes together with the part of the stack about to be popped. */
  ghost function Settled(t: State, base: nat): set<nat> {
    set v | 0 <= v < |t.index| && (Done(t, v) || (base <= |t.stack| && v in t.stack[base..]))
  }

  /** All callees of `u` are done and `u` turned out to be the root of its component. */
  ghost predicate AtRoot(g: Graph, s: State, t: State, active: set<nat>, u: nat) {
    && u < |g.adj| && LoopInv(g, s, t, active, u, |g.adj[u]|) && t.low[u] == t.index[u]
    && forall a :: a in active ==> a in s.stack
  }

  /** At a component root nothing popped calls back into the rest of the stack. */
  lemma SettledIsClosed(g: Graph, s: State, t: State, active: set<nat>, u: nat)
    requires AtRoot(g, s, t, active, u)
    ensures forall x, y :: x in Settled(t, |s.stack|) && g.Edges()(x, y) ==> y in Settled(t, |s.stack|)
  {
    CrossingFromRoot(g, s, t, u);
    AllExplored(g, s, t, active, u);
    forall x, y | x in Settled(t, |s.stack|) && g.Edges()(x, y)
      ensures y in Settled(t, |s.stack|)
    {
      assert g.Edge(x, y);
      if x in t.stack[|s.stack|..] {
        PoppedEdge(g, s, t, active, u, x, y);
      } else {
        assert Done(t, y);
      }
    }
  }

  lemma PoppedEdge(g: Graph, s: State, t: State, active: set<nat>, u: nat, x: nat, y: nat)
    requires Shape(g, t) && Running(s, t, u) && t.low[u] == t.index[u] && u < |g.adj|
    requires LowComplete(g, t, |s.stack|, |s.stack|, t.low[u]) && Explored(g, t, active)
    requires forall a :: a in active ==> a in s.stack
    requires g.Edge(x, y) && x in t.stack[|s.stack|..]
    ensures y in Settled(t, |s.stack|)
  {
    var i :| |s.stack| <= i < |t.stack| && t.stack[i] == x;
    assert x !in s.stack;
    assert Visited(t, y);
    if t.onStack[y] {
      var j :| 0 <= j < |t.stack| && t.stack[j] == y;
      assert j >= |s.stack|;
    }
  }

  /** The popped nodes are strongly connected: each reaches the root and back. */
  lemma PoppedReachesRoot(g: Graph, s: State, t: State, active: set<nat>, u: nat, y: nat)
    requires AtRoot(g, s, t, active, u)
    requires y in t.stack[|s.stack|..]
    ensures Reaches(g.Edges(), y, u) && Reaches(g.Edges(), u, y)
  {
    var i :| |s.stack| <= i < |t.stack| && t.stack[i] == y;
    assert t.stack[|s.stack|] == u;
    assert HasAnchor(g, t, active + {u}, y);
    var a :| Anchor(g, t, active + {u}, y, a);
    if a != u {
      SettledIsClosed(g, s, t, active, u);
      ReachesStaysInside(g.Edges(), Settled(t, |s.stack|), y, a);
      StackPartsDisjoint(g, s, t, a);
      assert false;
    }
  }

  lemma StackPartsDisjoint(g: Graph, s: State, t: State, a: nat)
    requires Shape(g, t) && s.stack <= t.stack && a in s.stack
    ensures a !in t.stack[|s.stack|..] && !Done(t, a)
  {
    var k :| 0 <= k < |s.stack| && s.stack[k] == a;
    assert t.stack[k] == a;
  }

  /** A popped node lies on a cycle iff its component is bigger than one or calls itself. */
  lemma PoppedOnCycle(g: Graph, s: State, t: State, active: set<nat>, u: nat, y: nat)
    requires AtRoot(g, s, t, active, u)
    requires y in t.stack[|s.stack|..]
    ensures OnCycle(g.Edges(), y) <==> |t.stack| - |s.stack| > 1 || u in g.adj[u]
  {
    if |t.stack| - |s.stack| > 1 {
      BigComponentOnCycle(g, s, t, active, u, y);
    } else {
      assert t.stack[|s.stack|..] == [u];
      LoneNodeOnCycle(g, s, t, active, u);
    }
  }

  lemma BigComponentOnCycle(g: Graph, s: State, t: State, active: set<nat>, u: nat, y: nat)
    requires AtRoot(g, s, t, active, u)
    requires y in t.stack[|s.stack|..] && |t.stack| - |s.stack| > 1
    ensures OnCycle(g.Edges(), y)
  {
    var z := OtherPopped(g, t, |s.stack|, y);
    PoppedReachesRoot(g, s, t, active, u, y);
    PoppedReachesRoot(g, s, t, active, u, z);
    RoundTripOnCycle(g.Edges(), y, u, z);
  }

  lemma OtherPopped(g: Graph, t: State, base: nat, y: nat) returns (z: nat)
    requires Shape(g, t) && base + 1 < |t.stack|
    ensures z in t.stack[base..] && z != y
  {
    var out := t.stack[base..];
    assert out[0] == t.stack[base] && out[1] == t.stack[base + 1];
    assert t.index[t.stack[base]] < t.index[t.stack[base + 1]];
    z := if y == out[0] then out[1] else out[0];
  }

  lemma RoundTripOnCycle(e: (nat, nat) -> bool, y: nat, u: nat, z: nat)
    requires Reaches(e, y, u) && Reaches(e, u, y) && Reaches(e, z, u) && Reaches(e, u, z) && y != z
    ensures OnCycle(e, y)
  {
    ReachesTrans(e, y, u, z);
    ReachesTrans(e, z, u, y);
    TwoNodesOnCycle(e, y, z);
  }

  lemma LoneNodeOnCycle(g: Graph, s: State, t: State, active: set<nat>, u: nat)
    requires AtRoot(g, s, t, active, u)
    requires |t.stack| == |s.stack| + 1
    ensures OnCycle(g.Edges(), u) <==> u in g.adj[u]
  {
    var e := g.Edges();
    assert g.enabled[u];
    if u in g.adj[u] {
      ReachesSelf(e, u);
      assert e(u, u);
    } else {
      forall v | e(u, v)
        ensures !Reaches(e, v, u)
      {
        LoneNodeNotReturned(g, s, t, active, u, v);
      }
    }
  }

  lemma TwoNodesOnCycle(e: (nat, nat) -> bool, y: nat, z: nat)
    requires y != z && Reaches(e, y, z) && Reaches(e, z, y)
    ensures OnCycle(e, y)
  {
    var k: nat :| StepsTo(e, k, y, z);
    var v :| e(y, v) && StepsTo(e, k - 1, v, z);
    ReachesTrans(e, v, z, y);
  }

  lemma LoneNodeNotReturned(g: Graph, s: State, t: State, active: set<nat>, u: nat, v: nat)
    requires AtRoot(g, s, t, active, u)
    requires |t.stack| == |s.stack| + 1 && g.Edge(u, v) && v != u
    ensures !Reaches(g.Edges(), v, u)
  {
    CrossingFromRoot(g, s, t, u);
    AllExplored(g, s, t, active, u);
    assert t.stack[|s.stack|..] == [u];
    PoppedEdge(g, s, t, active, u, u, v);
    var done := set x: nat | x < |t.index| && Done(t, x);
    assert u !in done && v in done;
    SealedPart(g, t, done);
    if Reaches(g.Edges(), v, u) {
      ReachesStaysInside(g.Edges(), done, v, u);
      assert false;
    }
  }

  lemma SealedPart(g: Graph, t: State, done: set<nat>)
    requires Sealed(g, t) && done == set x: nat | x < |t.index| && Done(t, x)
    ensures forall x, y :: x in done && g.Edges()(x, y) ==> y in done
  {
    forall x, y | x in done && g.Edges()(x, y)
      ensures y in done
    {
      assert g.Edge(x, y);
    }
  }

  lemma SettleShape(g: Graph, t: State, base: nat, recursive: bool)
    requires Shape(g, t) && base <= |t.stack|
    ensures Shape(g, Settle(t, base, recursive))
    ensures forall v :: Done(Settle(t, base, recursive), v) <==> v in Settled(t, base)
  {
    var t' := Settle(t, base, recursive);
    assert t.stack == t'.stack + t.stack[base..];
    assert forall i :: 0 <= i < |t'.stack| ==> t'.stack[i] !in t.stack[base..];
  }

  lemma SettleChained(g: Graph, t: State, base: nat, recursive: bool)
    requires Chained(g, t) && base <= |t.stack|
    ensures Chained(g, Settle(t, base, recursive))
  {
  }

  lemma SettleExplored(g: Graph, s: State, t: State, active: set<nat>, u: nat, recursive: bool)
    requires u < |g.adj| && Explored(g, t, active + {u}) && Looked(g, s, t, u, |g.adj[u]|) && s.stack <= t.stack
    ensures Explored(g, Settle(t, |s.stack|, recursive), active)
  {
    AllExplored(g, s, t, active, u);
    var t' := Settle(t, |s.stack|, recursive);
    assert forall x :: x in t'.stack ==> x in t.stack;
  }

  lemma SettleAnchored(g: Graph, s: State, t: State, active: set<nat>, u: nat, recursive: bool)
    requires Shape(g, t) && Running(s, t, u) && Anchored(g, t, active + {u})
    requires forall a :: a in active ==> a in s.stack
    ensures Anchored(g, Settle(t, |s.stack|, recursive), active)
  {
    var t' := Settle(t, |s.stack|, recursive);
    assert t'.stack == s.stack;
    forall y | y in s.stack
      ensures HasAnchor(g, t', active, y)
    {
      SettleAnchor(g, s, t, active, u, y, t');
    }
  }

  lemma SettleAnchor(g: Graph, s: State, t: State, active: set<nat>, u: nat, y: nat, t': State)
    requires Shape(g, t) && Running(s, t, u) && Anchored(g, t, active + {u}) && y in s.stack
    requires t'.stack == s.stack && t'.index == t.index && forall a :: a in active ==> a in s.stack
    ensures HasAnchor(g, t', active, y)
  {
    var k :| 0 <= k < |s.stack| && s.stack[k] == y;
    assert t.stack[k] == y;
    assert HasAnchor(g, t, active + {u}, y);
    var a :| Anchor(g, t, active + {u}, y, a);
    assert t.index[y] < t.index[t.stack[|s.stack|]];
    assert Anchor(g, t', active, y, a);
  }

  lemma SettleSealed(g: Graph, s: State, t: State, active: set<nat>, u: nat, recursive: bool)
    requires AtRoot(g, s, t, active, u)
    ensures Sealed(g, Settle(t, |s.stack|, recursive))
  {
    SettledIsClosed(g, s, t, active, u);
    SettleShape(g, t, |s.stack|, recursive);
    forall x, y | Done(Settle(t, |s.stack|, recursive), x) && g.Edge(x, y)
      ensures Done(Settle(t, |s.stack|, recursive), y)
    {
      assert g.Edges()(x, y);
    }
  }

  lemma SettleFlags(g: Graph, s: State, t: State, active: set<nat>, u: nat)
    requires AtRoot(g, s, t, active, u)
    ensures FlagsExact(g, Settle(t, |s.stack|, |t.stack| - |s.stack| > 1 || u in g.adj[u]))
  {
    var recursive := |t.stack| - |s.stack| > 1 || u in g.adj[u];
    var t' := Settle(t, |s.stack|, recursive);
    SettleShape(g, t, |s.stack|, recursive);
    forall y: nat | y < |t'.flag|
      ensures t'.flag[y] <==> Done(t', y) && OnCycle(g.Edges(), y)
    {
      if y in t.stack[|s.stack|..] {
        PoppedOnCycle(g, s, t, active, u, y);
      }
    }
  }

  lemma SettleInv(g: Graph, s: State, t: State, active: set<nat>, u: nat)
    requires AtRoot(g, s, t, active, u)
    ensures Inv(g, Settle(t, |s.stack|, |t.stack| - |s.stack| > 1 || u in g.adj[u]), active)
  {
    var recursive := |t.stack| - |s.stack| > 1 || u in g.adj[u];
    SettleShape(g, t, |s.stack|, recursive);
    SettleChained(g, t, |s.stack|, recursive);
    SettleExplored(g, s, t, active, u, recursive);
    SettleAnchored(g, s, t, active, u, recursive);
    SettleSealed(g, s, t, active, u, recursive);
    SettleFlags(g, s, t, active, u);
    assert t.stack[..|s.stack|] == s.stack;
  }

  lemma SettleExtends(s: State, t: State, u: nat, recursive: bool)
    requires Running(s, t, u)
    ensures Extends(s, Settle(t, |s.stack|, recursive)) && |Settle(t, |s.stack|, recursive).stack| == |s.stack|
  {
    assert t.stack[..|s.stack|] == s.stack;
  }

  /** The call of a component root settles its whole component. */
  lemma ReturnSettled(g: Graph, s: State, t: State, active: set<nat>, u: nat)
    requires AtRoot(g, s, t, active, u)
    ensures CallPost(g, s, Settle(t, |s.stack|, |t.stack| - |s.stack| > 1 || u in g.adj[u]), active, u)
  {
    SettleInv(g, s, t, active, u);
    SettleExtends(s, t, u, |t.stack| - |s.stack| > 1 || u in g.adj[u]);
  }

  // ------------------------------------------------------------- the walk on arrays

  lemma SetLowSame(s: State, u: nat)
    requires u < |s.low|
    ensures SetLow(s, u, s.low[u]) == s
  {
    assert s.low[u := s.low[u]] == s.low;
  }

  /** ny_idx_list_contains: lower-bound search in a sorted list. */
  method Contains(list: seq<nat>, needle: nat) returns (found: bool)
    requires Increasing(list)
    ensures found <==> needle in list
  {
    var lo, hi := 0, |list|;
    while lo < hi
      invariant 0 <= lo <= hi <= |list|
      invariant forall i :: 0 <= i < lo ==> list[i] < needle
      invariant forall i :: hi <= i < |list| ==> needle <= list[i]
    {
      var mid := lo + (hi - lo) / 2;
      if list[mid] < needle {
        lo := mid + 1;
      } else {
        hi := mid;
      }
    }
    found := lo < |list| && list[lo] == needle;
  }

  /** ny_recursion_scc_ctx. */
  class Context {
    const edges: seq<seq<nat>>
    const enabled: seq<bool>
    const indices: array<nat>
    const lowlink: array<nat>
    const stack: array<nat>
    const component: array<nat>
    const onStack: array<bool>
    const flags: array<bool>
    var nextIndex: nat
    var stackLen: nat
    var recursiveCount: nat

    ghost function G(): Graph {
      Graph(edges, enabled)
    }

    ghost predicate Ok()
      reads this
    {
      && G().Valid()
      && indices.Length == lowlink.Length == stack.Length == component.Length == |edges|
      && onStack.Length == flags.Length == |edges|
      && indices != lowlink && indices != stack && indices != component
      && lowlink != stack && lowlink != component && stack != component && onStack != flags
      && stackLen <= |edges|
    }

    ghost function View(): State
      reads this, indices, lowlink, stack, onStack, flags
      requires stackLen <= stack.Length
    {
      State(indices[..], lowlink[..], stack[..stackLen], onStack[..], flags[..], nextIndex, recursiveCount)
    }

    constructor (edges: seq<seq<nat>>, enabled: seq<bool>, flags: array<bool>, count: nat)
      requires Graph(edges, enabled).Valid() && flags.Length == |edges|
      ensures Ok() && this.edges == edges && this.enabled == enabled && this.flags == flags
      ensures fresh(indices) && fresh(lowlink) && fresh(stack) && fresh(component) && fresh(onStack)
      ensures View().index == seq(|edges|, _ => SIZE_MAX) && View().onStack == seq(|edges|, _ => false)
      ensures View().stack == [] && View().next == 0
      ensures View().flag == flags[..] && View().count == count
    {
      this.edges, this.enabled, this.flags := edges, enabled, flags;
      indices := new nat[|edges|](_ => SIZE_MAX);
      lowlink := new nat[|edges|];
      stack := new nat[|edges|];
      component := new nat[|edges|];
      onStack := new bool[|edges|](_ => false);
      nextIndex, stackLen, recursiveCount := 0, 0, count;
    }

    method Visit(v: nat)
      requires Ok() && v < |edges| && stackLen < |edges|
      modifies this, indices, lowlink, stack, onStack
      ensures Ok() && View() == Push(old(View()), v)
    {
      indices[v] := nextIndex;
      lowlink[v] := nextIndex;
      nextIndex := nextIndex + 1;
      stack[stackLen] := v;
      stackLen := stackLen + 1;
      onStack[v] := true;
    }

    method LowerTo(u: nat, low: nat)
      requires Ok() && u < |edges|
      modifies lowlink
      ensures Ok() && View() == SetLow(old(View()), u, Min(low, old(View()).low[u]))
    {
      SetLowSame(View(), u);
      if low < lowlink[u] {
        lowlink[u] := low;
      }
    }

    /** Pops the stack down to and including `root`, copying what it pops. */
    method PopComponent(root: nat, ghost base: nat) returns (len: nat)
      requires Ok() && base < stackLen && stack[base] == root
      requires forall i :: base <= i < stackLen ==> stack[i] < |edges|
      requires forall i :: base < i < stackLen ==> stack[i] != root
      modifies this`stackLen, component, onStack
      ensures Ok() && stackLen == base && len == old(stackLen) - base
      ensures onStack[..] == Clear(old(onStack[..]), old(stack[base..stackLen]))
      ensures forall v :: v in component[..len] <==> v in old(stack[base..stackLen])
    {
      len := 0;
      ghost var top := stackLen;
      while stackLen > 0
        invariant base <= stackLen <= top && len == top - stackLen
        invariant stack[..] == old(stack[..])
        invariant forall v :: v in component[..len] <==> v in stack[stackLen..top]
        invariant forall v :: 0 <= v < |edges| ==> onStack[v] == (old(onStack[v]) && v !in stack[stackLen..top])
        invariant stackLen > base
      {
        var member := stack[stackLen - 1];
        assert stack[stackLen - 1..top] == [member] + stack[stackLen..top];
        stackLen := stackLen - 1;
        onStack[member] := false;
        component[len] := member;
        len := len + 1;
        assert component[..len] == component[..len - 1] + [member];
        if member == root {
          break;
        }
      }
    }

    /** Flags the first `len` members, counting the newly flagged ones. */
    method FlagComponent(len: nat)
      requires Ok() && len <= |edges| && forall k :: 0 <= k < len ==> component[k] < |edges|
      requires recursiveCount == |Flagged(flags[..])|
      modifies this`recursiveCount, flags
      ensures Ok() && recursiveCount == |Flagged(flags[..])|
      ensures flags[..] == Raise(old(flags[..]), component[..len])
    {
      var i := 0;
      while i < len
        invariant 0 <= i <= len
        invariant recursiveCount == |Flagged(flags[..])|
        invariant forall v :: 0 <= v < |edges| ==> flags[v] == (old(flags[v]) || v in component[..i])
      {
        var member := component[i];
        assert component[..i + 1] == component[..i] + [member];
        if !flags[member] {
          ghost var was := Flagged(flags[..]);
          flags[member] := true;
          recursiveCount := recursiveCount + 1;
          assert Flagged(flags[..]) == was + {member};
        }
        i := i + 1;
      }
    }

    /** ny_mark_recursive_components_dfs. */
    method Dfs(v: nat, ghost active: set<nat>)
      requires Ok() && CallPre(G(), View(), active, v)
      modifies this, indices, lowlink, stack, component, onStack, flags
      ensures Ok() && CallPost(G(), old(View()), View(), active, v)
      decreases |edges| - nextIndex, 0
    {
      ghost var s := View();
      RoomToPush(G(), s, v);
      PushInv(G(), s, active, v);
      Visit(v);
      LookAtCallees(v, s, active);
      Return(v, s, active);
    }

    /** The loop over the callees of `v`. */
    method LookAtCallees(v: nat, ghost s: State, ghost active: set<nat>)
      requires Ok() && v < |edges|
      requires Shape(G(), s) && (forall a :: a in active ==> a in s.stack)
      requires LoopInv(G(), s, View(), active, v, 0)
      modifies this, indices, lowlink, stack, component, onStack, flags
      ensures Ok() && LoopInv(G(), s, View(), active, v, |edges[v]|)
      decreases |edges| - nextIndex, 2
    {
      var i := 0;
      ghost var next := nextIndex;
      while i < |edges[v]|
        invariant Ok() && 0 <= i <= |edges[v]| && nextIndex >= next
        invariant LoopInv(G(), s, View(), active, v, i)
      {
        LookAtCallee(v, i, s, active);
        i := i + 1;
      }
    }

    /** The end of a call: a component root settles its component. */
    method Return(v: nat, ghost s: State, ghost active: set<nat>)
      requires Ok() && v < |edges|
      requires (forall a :: a in active ==> a in s.stack)
      requires LoopInv(G(), s, View(), active, v, |edges[v]|)
      modifies this, component, onStack, flags
      ensures Ok() && CallPost(G(), s, View(), active, v)
    {
      if lowlink[v] != indices[v] {
        ReturnOpen(G(), s, View(), active, v);
        return;
      }
      ReturnSettled(G(), s, View(), active, v);
      RootIsLowest(G(), s, View(), active, v);
      Finish(v, |s.stack|);
    }

    /** One turn of the loop over the callees. */
    method LookAtCallee(v: nat, i: nat, ghost s: State, ghost active: set<nat>)
      requires Ok() && v < |edges| && i < |edges[v]|
      requires Shape(G(), s) && (forall a :: a in active ==> a in s.stack)
      requires LoopInv(G(), s, View(), active, v, i)
      modifies this, indices, lowlink, stack, component, onStack, flags
      ensures Ok() && LoopInv(G(), s, View(), active, v, i + 1) && nextIndex >= old(nextIndex)
      decreases |edges| - nextIndex, 1
    {
      var next := edges[v][i];
      ghost var t := View();
      if next >= |edges| || !enabled[next] {
        SkipCallee(G(), s, t, active, v, i);
      } else if indices[next] == SIZE_MAX {
        EnterCallee(G(), s, t, active, v, i);
        Dfs(next, active + {v});
        LeaveCallee(G(), s, t, View(), active, v, i);
        LowerTo(v, lowlink[next]);
      } else {
        VisitedCallee(G(), s, t, active, v, i);
        SetLowSame(t, v);
        if onStack[next] {
          LowerTo(v, indices[next]);
        }
      }
    }

    /** The tail of the walk at a component root. */
    method Finish(v: nat, ghost base: nat)
      requires Ok() && v < |edges| && RootReady(View(), |edges|, base, v)
      modifies this`stackLen, this`recursiveCount, component, onStack, flags
      ensures Ok()
      ensures View() == Settle(old(View()), base, old(stackLen) - base > 1 || v in edges[v])
    {
      ghost var t := View();
      assert stack[base..stackLen] == t.stack[base..];
      var len := PopComponent(v, base);
      var selfCall := Contains(edges[v], v);
      if len > 1 || selfCall {
        assert forall k :: 0 <= k < len ==> component[k] in component[..len];
        FlagComponent(len);
        RaiseSame(t.flag, component[..len], t.stack[base..]);
      }
    }
  }

  /** `v` sits at position `base` of the stack, and only there. */
  ghost predicate RootReady(t: State, n: nat, base: nat, v: nat) {
    && base < |t.stack| && t.stack[base] == v
    && (forall i :: base < i < |t.stack| ==> t.stack[i] != v)
    && (forall i :: 0 <= i < |t.stack| ==> t.stack[i] < n)
    && t.count == |Flagged(t.flag)|
  }

  lemma RootIsLowest(g: Graph, s: State, t: State, active: set<nat>, v: nat)
    requires AtRoot(g, s, t, active, v)
    ensures RootReady(t, |g.adj|, |s.stack|, v)
  {
  }

  lemma RaiseSame(flag: seq<bool>, a: seq<nat>, b: seq<nat>)
    requires forall v :: v in a <==> v in b
    ensures Raise(flag, a) == Raise(flag, b)
  {
  }

  lemma StartInv(g: Graph, s: State)
    requires g.Valid() && |s.low| == |s.flag| == |g.adj|
    requires s.index == seq(|g.adj|, _ => SIZE_MAX) && s.onStack == seq(|g.adj|, _ => false)
    requires s.stack == [] && s.next == 0 && s.count == 0
    requires forall v :: 0 <= v < |s.flag| ==> !s.flag[v]
    ensures Inv(g, s, {})
  {
    AllUnvisited(s.index);
    assert Flagged(s.flag) == {};
  }

  lemma AllUnvisited(index: seq<nat>)
    requires forall v :: 0 <= v < |index| ==> index[v] == SIZE_MAX
    ensures |Unvisited(index)| == |index|
  {
    if index != [] {
      var last := |index| - 1;
      AllUnvisited(index[..last]);
      assert Unvisited(index) == Unvisited(index[..last]) + {last};
    }
  }

  /** With no call active nothing is left on the stack. */
  lemma QuietStackEmpty(g: Graph, s: State)
    requires Anchored(g, s, {})
    ensures s.stack == []
  {
    assert |s.stack| > 0 ==> !HasAnchor(g, s, {}, s.stack[0]);
  }

  /** ny_mark_recursive_components: on return a node is flagged exactly when it is
      enabled and lies on a cycle of enabled nodes, and the count is the number of
      flagged nodes. */
  method MarkRecursive(edges: seq<seq<nat>>, enabled: seq<bool>, flags: array<bool>) returns (count: nat)
    requires Graph(edges, enabled).Valid() && flags.Length == |edges|
    requires forall v :: 0 <= v < |edges| ==> !flags[v]
    modifies flags
    ensures forall v: nat :: v < |edges| ==>
              (flags[v] <==> enabled[v] && OnCycle(Graph(edges, enabled).Edges(), v))
    ensures count == |set v | 0 <= v < |edges| && flags[v]|
  {
    var ctx := new Context(edges, enabled, flags, 0);
    ghost var g := Graph(edges, enabled);
    StartInv(g, ctx.View());
    var i := 0;
    while i < |edges|
      invariant 0 <= i <= |edges| && ctx.Ok() && ctx.G() == g && Inv(g, ctx.View(), {})
      invariant fresh(ctx.indices) && fresh(ctx.lowlink) && fresh(ctx.stack)
                && fresh(ctx.component) && fresh(ctx.onStack)
      invariant forall v :: 0 <= v < i && enabled[v] ==> Visited(ctx.View(), v)
    {
      QuietStackEmpty(g, ctx.View());
      if enabled[i] && ctx.indices[i] == SIZE_MAX {
        ctx.Dfs(i, {});
      }
      i := i + 1;
    }
    QuietStackEmpty(g, ctx.View());
    ghost var s := ctx.View();
    forall v: nat | v < |edges|
      ensures flags[v] <==> enabled[v] && OnCycle(g.Edges(), v)
    {
      assert s.flag[v] == flags[v];
      assert s.onStack[v] ==> v in s.stack;
    }
    count := ctx.recursiveCount;
    assert Flagged(s.flag) == set v | 0 <= v < |edges| && flags[v];
  }
}
