/** Reachability over an arbitrary edge relation, counted in steps.  Every graph
    result of the project (recursion marking, module ordering, link closure and the
    call-graph inference) is stated with these predicates. */
module Reachability {

  /** `v` is reached from `u` by exactly `k` edges. */
  ghost predicate StepsTo<T(!new)>(edge: (T, T) -> bool, k: nat, u: T, v: T)
    decreases k
  {
    if k == 0 then u == v else exists w :: edge(u, w) && StepsTo(edge, k - 1, w, v)
  }

  ghost predicate Reaches<T(!new)>(edge: (T, T) -> bool, u: T, v: T) {
    exists k: nat :: StepsTo(edge, k, u, v)
  }

  /** `u` lies on a directed cycle; a self-loop is a cycle. */
  ghost predicate OnCycle<T(!new)>(edge: (T, T) -> bool, u: T) {
    exists v :: edge(u, v) && Reaches(edge, v, u)
  }

  lemma ReachesSelf<T(!new)>(edge: (T, T) -> bool, u: T)
    ensures Reaches(edge, u, u)
  {
    assert StepsTo(edge, 0, u, u);
  }

  lemma {:induction false} StepsConcat<T(!new)>(edge: (T, T) -> bool, j: nat, k: nat, u: T, v: T, w: T)
    requires StepsTo(edge, j, u, v) && StepsTo(edge, k, v, w)
    ensures StepsTo(edge, j + k, u, w)
    decreases j
  {
    if j > 0 {
      var x :| edge(u, x) && StepsTo(edge, j - 1, x, v);
      StepsConcat(edge, j - 1, k, x, v, w);
      assert edge(u, x) && StepsTo(edge, j + k - 1, x, w);
    }
  }

  lemma ReachesTrans<T(!new)>(edge: (T, T) -> bool, u: T, v: T, w: T)
    requires Reaches(edge, u, v) && Reaches(edge, v, w)
    ensures Reaches(edge, u, w)
  {
    var j: nat :| StepsTo(edge, j, u, v);
    var k: nat :| StepsTo(edge, k, v, w);
    StepsConcat(edge, j, k, u, v, w);
  }

  lemma ReachesEdge<T(!new)>(edge: (T, T) -> bool, u: T, v: T)
    requires edge(u, v)
    ensures Reaches(edge, u, v)
  {
    assert StepsTo(edge, 0, v, v);
    assert StepsTo(edge, 1, u, v);
  }

  /** A path that starts inside a set closed under the edges never leaves it. */
  lemma {:induction false} StepsStayInside<T(!new)>(edge: (T, T) -> bool, s: set<T>, k: nat, u: T, v: T)
    requires forall x, y :: x in s && edge(x, y) ==> y in s
    requires u in s && StepsTo(edge, k, u, v)
    ensures v in s
    decreases k
  {
    if k > 0 {
      var x :| edge(u, x) && StepsTo(edge, k - 1, x, v);
      StepsStayInside(edge, s, k - 1, x, v);
    }
  }

  lemma ReachesStaysInside<T(!new)>(edge: (T, T) -> bool, s: set<T>, u: T, v: T)
    requires forall x, y :: x in s && edge(x, y) ==> y in s
    requires u in s && Reaches(edge, u, v)
    ensures v in s
  {
    var k: nat :| StepsTo(edge, k, u, v);
    StepsStayInside(edge, s, k, u, v);
  }

  /** The same edges reach the same nodes. */
  lemma SameReach<T(!new)>(d: (T, T) -> bool, e: (T, T) -> bool, f: T, g: T)
    requires forall x, y :: d(x, y) == e(x, y)
    ensures Reaches(d, f, g) <==> Reaches(e, f, g)
  {
    if k: nat :| StepsTo(d, k, f, g) {
      SameSteps(d, e, k, f, g);
    }
    if k: nat :| StepsTo(e, k, f, g) {
      SameSteps(e, d, k, f, g);
    }
  }

  lemma {:induction false} SameSteps<T(!new)>(d: (T, T) -> bool, e: (T, T) -> bool, k: nat, f: T, g: T)
    requires (forall x, y :: d(x, y) == e(x, y)) && StepsTo(d, k, f, g)
    ensures StepsTo(e, k, f, g)
    decreases k
  {
    if k > 0 {
      var h :| d(f, h) && StepsTo(d, k - 1, h, g);
      SameSteps(d, e, k - 1, h, g);
    }
  }

  // ------------------------------------------------- shortest paths in a finite graph

  ghost predicate ReachedBy(edge: (nat, nat) -> bool, u: nat, k: nat, v: nat) {
    exists j: nat :: j <= k && StepsTo(edge, j, u, v)
  }

  /** The nodes below `n` reached from `u` in at most `k` steps. */
  ghost function Within(edge: (nat, nat) -> bool, n: nat, u: nat, k: nat): set<nat> {
    set v: nat | v < n && ReachedBy(edge, u, k, v)
  }

  lemma WithinStep(edge: (nat, nat) -> bool, n: nat, u: nat, k: nat, v: nat, w: nat)
    requires v in Within(edge, n, u, k) && edge(v, w) && w < n
    ensures w in Within(edge, n, u, k + 1)
  {
    var j: nat :| j <= k && StepsTo(edge, j, u, v);
    assert StepsTo(edge, 0, w, w);
    assert StepsTo(edge, 1, v, w);
    StepsConcat(edge, j, 1, u, v, w);
  }

  /** Either some layer stopped growing before `k`, or at least `k + 1` nodes are reached. */
  lemma {:induction false} LayersGrow(edge: (nat, nat) -> bool, n: nat, u: nat, k: nat)
    requires u < n
    ensures (exists j: nat :: j < k && Within(edge, n, u, j) == Within(edge, n, u, j + 1))
         || |Within(edge, n, u, k)| > k
    decreases k
  {
    if k == 0 {
      assert StepsTo(edge, 0, u, u) && ReachedBy(edge, u, 0, u);
      assert {u} <= Within(edge, n, u, 0);
      SubsetCard({u}, Within(edge, n, u, 0));
    } else {
      LayersGrow(edge, n, u, k - 1);
      var a, b := Within(edge, n, u, k - 1), Within(edge, n, u, k - 1 + 1);
      assert a <= b by {
        assert forall v: nat :: ReachedBy(edge, u, k - 1, v) ==> ReachedBy(edge, u, k, v);
      }
      if a != b {
        var v :| v in b && v !in a;
        SubsetCard(a + {v}, b);
      }
    }
  }

  lemma {:induction false} SubsetCard<T>(a: set<T>, b: set<T>)
    requires a <= b
    ensures |a| <= |b|
    decreases a
  {
    if a != {} {
      var x :| x in a;
      SubsetCard(a - {x}, b - {x});
    }
  }

  lemma FullSet(n: nat, s: set<nat>)
    requires |s| >= n && forall v :: v in s ==> v < n
    ensures forall v: nat :: v < n ==> v in s
    decreases n
  {
    if n > 0 {
      if n - 1 in s {
        var rest := s - {n - 1};
        FullSet(n - 1, rest);
        assert forall v :: v in rest ==> v in s;
      } else {
        BoundedCard(n - 1, s);
      }
    }
  }

  lemma BoundedCard(n: nat, s: set<nat>)
    requires forall v :: v in s ==> v < n
    ensures |s| <= n
    decreases n
  {
    if n > 0 {
      BoundedCard(n - 1, s - {n - 1});
    } else {
      assert s == {};
    }
  }

  lemma CardAtLeast(n: nat, s: set<nat>)
    requires forall v: nat :: v < n ==> v in s
    ensures |s| >= n
    decreases n
  {
    if n > 0 {
      CardAtLeast(n - 1, s - {n - 1});
    }
  }

  /** In a graph on `n` nodes, whatever is reachable is reachable in fewer than `n` steps. */
  lemma ShortPath(edge: (nat, nat) -> bool, n: nat, u: nat, v: nat)
    requires u < n && Reaches(edge, u, v) && forall x: nat, y: nat :: edge(x, y) ==> y < n
    ensures exists j: nat :: j < n && StepsTo(edge, j, u, v)
  {
    LayersGrow(edge, n, u, n - 1);
    if j: nat :| j < n - 1 && Within(edge, n, u, j) == Within(edge, n, u, j + 1) {
      var s := Within(edge, n, u, j);
      forall x, y | x in s && edge(x, y)
        ensures y in s
      {
        WithinStep(edge, n, u, j, x, y);
      }
      assert StepsTo(edge, 0, u, u) && ReachedBy(edge, u, j, u);
      ReachesStaysInside(edge, s, u, v);
      var i: nat :| i <= j && StepsTo(edge, i, u, v);
    } else {
      FullSet(n, Within(edge, n, u, n - 1));
      var k: nat :| StepsTo(edge, k, u, v);
      TargetBounded(edge, n, k, u, v);
      assert v in Within(edge, n, u, n - 1) && ReachedBy(edge, u, n - 1, v);
    }
  }

  lemma {:induction false} TargetBounded(edge: (nat, nat) -> bool, n: nat, k: nat, u: nat, v: nat)
    requires u < n && StepsTo(edge, k, u, v) && forall x: nat, y: nat :: edge(x, y) ==> y < n
    ensures v < n
    decreases k
  {
    if k > 0 {
      var x :| edge(u, x) && StepsTo(edge, k - 1, x, v);
      TargetBounded(edge, n, k - 1, x, v);
    }
  }
}
