/** What the module order of src/code/core.c:2298-2442 promises of the program's own use
    statements. */
module ModuleOrder {
  import opened Reachability
  import opened TopoSort

  // ------------------------------------------------------------------- the use graph

  /** The body of module `m` imports the whole of another module `d`: the first of that name. */
  ghost predicate Uses(ms: Modules, m: nat, d: nat)
    requires ms.Valid()
  {
    m < |ms.names| && d < |ms.names| && d != m
    && exists x :: x in Targets(ms.children[m]) && NameIndex(ms.names, x) == d
  }

  ghost function UseEdges(ms: Modules): (nat, nat) -> bool
    requires ms.Valid()
  {
    (m: nat, d: nat) => Uses(ms, m, d)
  }

  ghost predicate Acyclic(ms: Modules)
    requires ms.Valid()
  {
    forall m: nat, d: nat :: Uses(ms, m, d) ==> !Reaches(UseEdges(ms), d, m)
  }

  /** Every module comes after the modules it uses, save those that themselves use it. */
  ghost predicate Ordered(ms: Modules, out: seq<nat>)
    requires ms.Valid()
  {
    forall p, d: nat :: 0 <= p < |out| && Uses(ms, out[p], d) ==> d in out[..p] || Reaches(UseEdges(ms), d, out[p])
  }

  ghost predicate DependencyFirst(ms: Modules, out: seq<nat>)
    requires ms.Valid()
  {
    forall p, d: nat :: 0 <= p < |out| && Uses(ms, out[p], d) ==> d in out[..p]
  }

  /** No body imports more than `t` different modules. */
  ghost predicate AtMost(ms: Modules, t: nat)
    requires ms.Valid()
  {
    forall m :: 0 <= m < |ms.names| ==> |Targets(ms.children[m])| <= t
  }

  /** The order the search gives the program's modules. */
  ghost function OrderOf(ms: Modules): seq<nat>
    requires ms.Valid()
  {
    Sort(ms.DepGraph(), STACK_MAX)
  }

  // ------------------------------------------------- within both caps nothing is lost

  lemma EdgeIsUse(ms: Modules, m: nat, d: nat)
    requires ms.Valid() && AtMost(ms, MAX_DEPS)
    ensures ms.DepGraph().Edge(m, d) <==> Uses(ms, m, d)
  {
    if m < |ms.names| {
      var deps := DepsFrom(ms.children[m], 0, []);
      var indices := ms.DepIndices(m);
      DepsCompleteExactlyWhen(ms.children[m]);
      assert ms.DepGraph().deps[m] == indices;
      if d in indices {
        var k :| 0 <= k < |indices| && indices[k] == d;
        assert deps[k] in Elements(deps);
      }
      if x :| x in Targets(ms.children[m]) && NameIndex(ms.names, x) == d {
        assert x in Elements(deps);
        var k :| 0 <= k < |deps| && deps[k] == x;
        assert indices[k] == d;
      }
    }
  }

  lemma UsesReach(ms: Modules, m: nat, d: nat)
    requires ms.Valid() && AtMost(ms, MAX_DEPS)
    ensures Reaches(ms.DepGraph().Edges(), m, d) <==> Reaches(UseEdges(ms), m, d)
  {
    forall x: nat, y: nat
      ensures ms.DepGraph().Edges()(x, y) == UseEdges(ms)(x, y)
    {
      EdgeIsUse(ms, x, y);
    }
    SameReach(ms.DepGraph().Edges(), UseEdges(ms), m, d);
  }

  /** For every program of at most 4096 modules that import at most 256 modules each:
      whatever module comes before one it uses is itself used, directly or not, by that one. */
  lemma ProgramOrdered(body: seq<Stmt>)
    requires |ModulesOf(body).names| <= STACK_MAX && AtMost(ModulesOf(body), MAX_DEPS)
    ensures Ordered(ModulesOf(body), OrderOf(ModulesOf(body)))
  {
    var ms := ModulesOf(body);
    var g, out := ms.DepGraph(), OrderOf(ms);
    SortOrdered(g, STACK_MAX);
    forall p, d: nat | 0 <= p < |out| && Uses(ms, out[p], d)
      ensures d in out[..p] || Reaches(UseEdges(ms), d, out[p])
    {
      EdgeIsUse(ms, out[p], d);
      assert Placed(g, out[..p], out[p], d);
      UsesReach(ms, d, out[p]);
    }
  }

  lemma ProgramDependencyFirst(body: seq<Stmt>)
    requires |ModulesOf(body).names| <= STACK_MAX && AtMost(ModulesOf(body), MAX_DEPS)
    requires Acyclic(ModulesOf(body))
    ensures DependencyFirst(ModulesOf(body), OrderOf(ModulesOf(body)))
  {
    ProgramOrdered(body);
  }

  // ------------------------------------------------------------------ beyond either cap

  function Name(i: nat): string {
    seq(i + 1, _ => 'm')
  }

  /** A name that no module has. */
  function Foreign(i: nat): string {
    seq(i + 1, _ => 'x')
  }

  function UseOf(name: string): Child {
    Use(false, name, true, 0, false)
  }

  /** A program of `n` modules with the given bodies. */
  function Program(n: nat, bodies: nat -> seq<Child>): seq<Stmt> {
    seq(n, i requires 0 <= i < n => Module(Name(i), bodies(i)))
  }

  function ModuleList(n: nat, bodies: nat -> seq<Child>): (ms: Modules)
    ensures ms.Valid()
  {
    Modules(seq(n, i requires 0 <= i < n => i), seq(n, i requires 0 <= i < n => Name(i)),
            seq(n, i requires 0 <= i < n => bodies(i)))
  }

  lemma {:induction false} ProgramModules(n: nat, bodies: nat -> seq<Child>)
    ensures ModulesOf(Program(n, bodies)) == ModuleList(n, bodies)
    decreases n
  {
    if n > 0 {
      var last: nat := n - 1;
      assert Program(n, bodies)[..last] == Program(last, bodies);
      ProgramModules(last, bodies);
      var a, b := ModuleList(last, bodies), ModuleList(n, bodies);
      assert b.indices == a.indices + [last];
      assert b.names == a.names + [Name(last)];
      assert b.children == a.children + [bodies(last)];
    }
  }

  lemma NameFound(n: nat, bodies: nat -> seq<Child>, j: nat)
    requires j < n
    ensures NameIndex(ModuleList(n, bodies).names, Name(j)) == j
  {
    var names := ModuleList(n, bodies).names;
    assert forall i :: 0 <= i < j ==> |names[..j][i]| == i + 1;
    NameIndexIs(names, Name(j), j);
  }

  lemma ForeignNotFound(n: nat, bodies: nat -> seq<Child>, j: nat)
    ensures NameIndex(ModuleList(n, bodies).names, Foreign(j)) == -1
  {
    var names := ModuleList(n, bodies).names;
    assert forall i :: 0 <= i < n ==> names[i][0] == 'm';
    assert Foreign(j)[0] == 'x';
  }

  lemma {:induction false} TargetsFew(children: seq<Child>)
    ensures |Targets(children)| <= |children|
    decreases |children|
  {
    if children == [] {
      assert Targets(children) == {};
    } else {
      var last := |children| - 1;
      var rest := children[..last];
      TargetsFew(rest);
      assert children == rest + [children[last]];
      var more := if children[last].Use? then {children[last].target} else {};
      assert Targets(children) <= Targets(rest) + more;
      SubsetCard(Targets(children), Targets(rest) + more);
    }
  }

  // ---- the stack: a chain of uses

  function ChainBodies(n: nat): nat -> seq<Child> {
    (i: nat) => if i + 1 < n then [UseOf(Name(i + 1))] else []
  }

  lemma ChainBodyDeps(n: nat, i: nat)
    requires i < n
    ensures DepsFrom(ChainBodies(n)(i), 0, []) == if i + 1 < n then [Name(i + 1)] else []
    ensures |Targets(ChainBodies(n)(i))| <= 1
  {
    var body := ChainBodies(n)(i);
    TargetsFew(body);
    if i + 1 < n {
      assert DepsFrom(body, 1, [Name(i + 1)]) == [Name(i + 1)];
      assert [] + [Name(i + 1)] == [Name(i + 1)];
    }
  }

  lemma ChainProgramGraph(n: nat)
    ensures ModuleList(n, ChainBodies(n)).DepGraph() == Chain(n) && AtMost(ModuleList(n, ChainBodies(n)), 1)
  {
    var ms := ModuleList(n, ChainBodies(n));
    forall i: nat | i < n
      ensures ms.DepIndices(i) == Chain(n).deps[i] && |Targets(ms.children[i])| <= 1
    {
      ChainBodyDeps(n, i);
      if i + 1 < n {
        NameFound(n, ChainBodies(n), i + 1);
      }
    }
    assert ms.DepGraph().deps == Chain(n).deps;
  }

  /** More modules than frames: the chain is acyclic, and not ordered dependency first. */
  lemma ChainProgramFails(n: nat)
    requires n > STACK_MAX
    ensures var ms := ModulesOf(Program(n, ChainBodies(n)));
            |ms.names| == n && AtMost(ms, 1) && Acyclic(ms) && !DependencyFirst(ms, OrderOf(ms))
  {
    ProgramModules(n, ChainBodies(n));
    ChainProgramGraph(n);
    var ms := ModuleList(n, ChainBodies(n));
    ChainAcyclic(n);
    forall m: nat, d: nat | Uses(ms, m, d)
      ensures !Reaches(UseEdges(ms), d, m)
    {
      EdgeIsUse(ms, m, d);
      UsesReach(ms, d, m);
    }
    ChainFirstOut(n, STACK_MAX);
    EdgeIsUse(ms, STACK_MAX - 1, STACK_MAX);
    assert Chain(n).Edge(STACK_MAX - 1, STACK_MAX);
    assert OrderOf(ms)[..0] == [];
  }

  // ---- the list of a body's uses: the 257th is lost

  /** Uses of `k` names that no module has. */
  function Foreigners(k: nat): seq<Child> {
    seq(k, j requires 0 <= j < k => UseOf(Foreign(j)))
  }

  function ForeignNames(k: nat): seq<string> {
    seq(k, j requires 0 <= j < k => Foreign(j))
  }

  /** The first module imports 256 foreign modules and then the second one. */
  function CrowdedBodies(): nat -> seq<Child> {
    (i: nat) => if i == 0 then Foreigners(MAX_DEPS) + [UseOf(Name(1))] else []
  }

  lemma {:induction false} CrowdedDeps(k: nat)
    requires k <= MAX_DEPS
    ensures DepsFrom(CrowdedBodies()(0), k, ForeignNames(k)) == ForeignNames(MAX_DEPS)
    decreases MAX_DEPS - k
  {
    var body := CrowdedBodies()(0);
    if k < MAX_DEPS {
      assert body[k] == UseOf(Foreign(k));
      assert forall j :: 0 <= j < k ==> |ForeignNames(k)[j]| == j + 1;
      assert ForeignNames(k) + [Foreign(k)] == ForeignNames(k + 1);
      CrowdedDeps(k + 1);
    }
  }

  lemma CrowdedGraph(n: nat)
    requires n >= 2
    ensures var ms := ModuleList(n, CrowdedBodies());
            && (forall k :: 0 <= k < |ms.DepGraph().deps[0]| ==> ms.DepGraph().deps[0][k] == -1)
            && AtMost(ms, MAX_DEPS + 1)
  {
    var ms := ModuleList(n, CrowdedBodies());
    assert ForeignNames(0) == [];
    CrowdedDeps(0);
    forall k: nat | k < MAX_DEPS
      ensures NameIndex(ms.names, ForeignNames(MAX_DEPS)[k]) == -1
    {
      ForeignNotFound(n, CrowdedBodies(), k);
    }
    assert ms.DepGraph().deps[0] == ms.DepIndices(0);
    forall m | 0 <= m < n
      ensures |Targets(ms.children[m])| <= MAX_DEPS + 1
    {
      TargetsFew(ms.children[m]);
    }
  }

  /** The only use in it that names a module is the lost one. */
  lemma CrowdedUses(n: nat, m: nat, d: nat)
    requires n >= 2
    ensures Uses(ModuleList(n, CrowdedBodies()), m, d) <==> m == 0 && d == 1
  {
    var ms := ModuleList(n, CrowdedBodies());
    var body := CrowdedBodies()(0);
    if Uses(ms, m, d) {
      var x :| x in Targets(ms.children[m]) && NameIndex(ms.names, x) == d;
      var c :| c in ms.children[m] && IsDependency(c) && c.target == x;
      var j :| 0 <= j < |body| && body[j] == c;
      if j < MAX_DEPS {
        ForeignNotFound(n, CrowdedBodies(), j);
      } else {
        NameFound(n, CrowdedBodies(), 1);
      }
    }
    if m == 0 && d == 1 {
      NameFound(n, CrowdedBodies(), 1);
      assert body[MAX_DEPS] == UseOf(Name(1)) && UseOf(Name(1)) in ms.children[0];
      assert Name(1) in Targets(ms.children[0]);
    }
  }

  lemma NoWayBack(n: nat, k: nat)
    requires n >= 2
    ensures !StepsTo(UseEdges(ModuleList(n, CrowdedBodies())), k, 1, 0)
  {
    forall w: nat
      ensures !Uses(ModuleList(n, CrowdedBodies()), 1, w)
    {
      CrowdedUses(n, 1, w);
    }
  }

  /** A module that wants nothing is emitted at once. */
  lemma FirstAtOnce(g: Graph, cap: nat)
    requires g.Valid() && cap > 0 && |g.deps| > 0
    requires forall k :: 0 <= k < |g.deps[0]| ==> g.deps[0][k] == -1
    ensures Sort(g, cap) != [] && Sort(g, cap)[0] == 0
  {
    var s := Initial(|g.deps|);
    StartRoot(g, s, 0);
    var t := Rooted(s, 0);
    assert t == State([Frame(0, 0)], s.marks[0 := Stacked], s.out);
    StepConsistent(g, cap, t);
    assert Step(g, cap, t) == Emit(t) && Emit(t).out == [0] && Emit(t).stack == [];
    StepMeasure(g, cap, t);
    assert Drain(g, cap, t) == Emit(t);
    SortKeeps(g, cap, Emit(t), 1);
  }

  /** One import too many: acyclic, and the first module comes before the second. */
  lemma CrowdedProgramFails(n: nat)
    requires n >= 2
    ensures var ms := ModulesOf(Program(n, CrowdedBodies()));
            |ms.names| == n && AtMost(ms, MAX_DEPS + 1) && Acyclic(ms) && !DependencyFirst(ms, OrderOf(ms))
  {
    ProgramModules(n, CrowdedBodies());
    CrowdedGraph(n);
    var ms := ModuleList(n, CrowdedBodies());
    forall m: nat, d: nat | Uses(ms, m, d)
      ensures !Reaches(UseEdges(ms), d, m)
    {
      CrowdedUses(n, m, d);
      forall k: nat
        ensures !StepsTo(UseEdges(ms), k, d, m)
      {
        NoWayBack(n, k);
      }
    }
    FirstAtOnce(ms.DepGraph(), STACK_MAX);
    CrowdedUses(n, 0, 1);
    assert OrderOf(ms)[..0] == [];
  }

  // ------------------------------------------------------------------------- the result

  /** Every acyclic program of `n` modules that import at most `t` modules each is ordered
      dependency first. */
  ghost predicate AlwaysDependencyFirst(n: nat, t: nat) {
    forall body: seq<Stmt> ::
      |ModulesOf(body).names| == n && AtMost(ModulesOf(body), t) && Acyclic(ModulesOf(body)) ==>
        DependencyFirst(ModulesOf(body), OrderOf(ModulesOf(body)))
  }

  lemma NoUses(ms: Modules, m: nat, d: nat)
    requires ms.Valid() && (AtMost(ms, 0) || |ms.names| <= 1)
    ensures !Uses(ms, m, d)
  {
    if |ms.names| > 1 && m < |ms.names| {
      assert Targets(ms.children[m]) == {};
    }
  }

  lemma AtMostMore(ms: Modules, t: nat, u: nat)
    requires ms.Valid() && AtMost(ms, t) && t <= u
    ensures AtMost(ms, u)
  {
  }

  /** The order is dependency first for all acyclic programs of `n` modules importing at most
      `t` modules each if and only if both caps hold them, or there is nothing to order. */
  lemma CapsSufficeExactlyWhen(n: nat, t: nat)
    ensures AlwaysDependencyFirst(n, t) <==> n <= 1 || t == 0 || (n <= STACK_MAX && t <= MAX_DEPS)
  {
    if n <= 1 || t == 0 || (n <= STACK_MAX && t <= MAX_DEPS) {
      forall body: seq<Stmt> | |ModulesOf(body).names| == n && AtMost(ModulesOf(body), t) && Acyclic(ModulesOf(body))
        ensures DependencyFirst(ModulesOf(body), OrderOf(ModulesOf(body)))
      {
        var ms := ModulesOf(body);
        if n <= 1 || t == 0 {
          forall m: nat, d: nat
            ensures !Uses(ms, m, d)
          {
            NoUses(ms, m, d);
          }
        } else {
          AtMostMore(ms, t, MAX_DEPS);
          ProgramDependencyFirst(body);
        }
      }
    } else if t > MAX_DEPS {
      CrowdedProgramFails(n);
      AtMostMore(ModulesOf(Program(n, CrowdedBodies())), MAX_DEPS + 1, t);
    } else {
      ChainProgramFails(n);
      AtMostMore(ModulesOf(Program(n, ChainBodies(n))), 1, t);
    }
  }
}
