/** The modules whose native libraries are linked: src/code/core.c:1508-1726. */
module LinkClosure {
  import opened Common
  import opened Reachability

  /** The parts of a statement the walks enter, in the order they enter them. */
  datatype Stmt =
    | Use(bareStd: bool, target: string)
    | Module(name: string, body: seq<Stmt>)
    | Nest(children: seq<Stmt>)                              // block, if, while, for, try, defer, match
    | Other

  datatype Current = NoModule | Compiling(name: string)

  // ----------------------------------------------------------------- walks over bodies

  /** ny_collect_use_modules_stmt. */
  function Uses(s: Stmt): seq<string>
    decreases s, 0
  {
    match s
    case Use(true, _) => ["std.core", "std.os.prim"]
    case Use(false, target) => [target]
    case Module(_, body) => UsesAll(body)
    case Nest(children) => UsesAll(children)
    case Other => []
  }

  function UsesAll(body: seq<Stmt>): seq<string>
    decreases body, 1
  {
    if body == [] then [] else Uses(body[0]) + UsesAll(body[1..])
  }

  /** ny_collect_module_names_stmt. */
  function Names(s: Stmt): seq<string>
    decreases s, 0
  {
    match s
    case Module(name, body) => (if name == "" then [] else [name]) + NamesAll(body)
    case Nest(children) => NamesAll(children)
    case _ => []
  }

  function NamesAll(body: seq<Stmt>): seq<string>
    decreases body, 1
  {
    if body == [] then [] else Names(body[0]) + NamesAll(body[1..])
  }

  function NonEmpty(names: seq<string>): (r: seq<string>)
    ensures forall x :: x in r <==> x in names && x != ""
  {
    if names == [] then [] else (if names[0] == "" then [] else [names[0]]) + NonEmpty(names[1..])
  }

  /** ny_find_module_stmt_any: the body of the first top-level module of that name. */
  function BodyOf(prog: seq<Stmt>, name: string): seq<Stmt> {
    if prog == [] then []
    else if prog[0].Module? && prog[0].name == name then prog[0].body
    else BodyOf(prog[1..], name)
  }

  /** The top-level modules. */
  function TopNames(prog: seq<Stmt>): set<string> {
    if prog == [] then {} else (if prog[0].Module? then {prog[0].name} else {}) + TopNames(prog[1..])
  }

  lemma {:induction false} NoBody(prog: seq<Stmt>, name: string)
    requires name !in TopNames(prog)
    ensures BodyOf(prog, name) == []
  {
    if prog != [] {
      NoBody(prog[1..], name);
    }
  }

  // --------------------------------------------------------------------- the use graph

  ghost predicate UsesModule(prog: seq<Stmt>, m: string, d: string) {
    d != "" && d in UsesAll(BodyOf(prog, m))
  }

  ghost function Edges(prog: seq<Stmt>): (string, string) -> bool {
    (m, d) => UsesModule(prog, m, d)
  }

  function IsStd(current: Current): bool {
    current.Compiling? && "std." <= current.name
  }

  /** Where the closure starts: the user's own uses, else the std module being compiled,
      else every module there is. */
  function Seeds(prog: seq<Stmt>, userUses: seq<string>, current: Current): (r: seq<string>)
    ensures "" !in r
  {
    if NonEmpty(userUses) != [] then NonEmpty(userUses)
    else if IsStd(current) then [current.name]
    else NonEmpty(NamesAll(prog))
  }

  ghost predicate Linked(prog: seq<Stmt>, seeds: seq<string>, m: string) {
    exists seed :: seed in seeds && Reaches(Edges(prog), seed, m)
  }

  // ----------------------------------------------------------------------- the worklist

  ghost function Unexpanded(prog: seq<Stmt>, allowed: seq<string>): set<string> {
    set m | m in TopNames(prog) && m !in allowed
  }

  /** What the loop keeps about the list so far and the queue. */
  ghost predicate Inv(prog: seq<Stmt>, seeds: seq<string>, allowed: seq<string>, queue: seq<string>) {
    && Distinct(allowed) && "" !in allowed && "" !in queue
    && (forall m {:trigger Linked(prog, seeds, m)} :: m in allowed ==> Linked(prog, seeds, m))
    && (forall m {:trigger Linked(prog, seeds, m)} :: m in queue ==> Linked(prog, seeds, m))
    && (forall m :: m in seeds ==> m in allowed || m in queue)
    && (forall m, d :: m in allowed && UsesModule(prog, m, d) ==> d in allowed || d in queue)
  }

  lemma LinkedStep(prog: seq<Stmt>, seeds: seq<string>, m: string, d: string)
    requires Linked(prog, seeds, m) && UsesModule(prog, m, d)
    ensures Linked(prog, seeds, d)
  {
    var seed :| seed in seeds && Reaches(Edges(prog), seed, m);
    ReachesEdge(Edges(prog), m, d);
    ReachesTrans(Edges(prog), seed, m, d);
  }

  lemma StartInv(prog: seq<Stmt>, seeds: seq<string>)
    requires "" !in seeds
    ensures Inv(prog, seeds, [], seeds)
  {
    forall m | m in seeds
      ensures Linked(prog, seeds, m)
    {
      ReachesSelf(Edges(prog), m);
    }
  }

  lemma SkipInv(prog: seq<Stmt>, seeds: seq<string>, allowed: seq<string>, queue: seq<string>, m: string)
    requires Inv(prog, seeds, allowed, queue + [m]) && m in allowed
    ensures Inv(prog, seeds, allowed, queue)
  {
  }

  /** Expanding `m`: its uses join the queue. */
  lemma ExpandInv(prog: seq<Stmt>, seeds: seq<string>, allowed: seq<string>, queue: seq<string>, m: string)
    requires Inv(prog, seeds, allowed, queue + [m]) && m !in allowed
    ensures Inv(prog, seeds, allowed + [m], queue + NonEmpty(UsesAll(BodyOf(prog, m))))
  {
    var deps := NonEmpty(UsesAll(BodyOf(prog, m)));
    assert m in queue + [m];
    forall d | d in deps
      ensures Linked(prog, seeds, d)
    {
      LinkedStep(prog, seeds, m, d);
    }
  }

  /** With an empty queue the list is exactly the linked modules. */
  lemma DoneInv(prog: seq<Stmt>, seeds: seq<string>, allowed: seq<string>)
    requires Inv(prog, seeds, allowed, [])
    ensures forall m :: m in allowed <==> Linked(prog, seeds, m)
  {
    var s := set m | m in allowed;
    forall m | Linked(prog, seeds, m)
      ensures m in allowed
    {
      var seed :| seed in seeds && Reaches(Edges(prog), seed, m);
      ReachesStaysInside(Edges(prog), s, seed, m);
    }
  }

  lemma ExpandMeasure(prog: seq<Stmt>, allowed: seq<string>, m: string)
    requires m !in allowed
    ensures |Unexpanded(prog, allowed + [m])| < |Unexpanded(prog, allowed)|
         || (|Unexpanded(prog, allowed + [m])| == |Unexpanded(prog, allowed)| && BodyOf(prog, m) == [])
  {
    var a, b := Unexpanded(prog, allowed), Unexpanded(prog, allowed + [m]);
    assert b == a - {m};
    if m !in a {
      NoBody(prog, m);
    }
  }

  /** ny_link_allowed_has. */
  method Has(allowed: seq<string>, m: string) returns (found: bool)
    ensures found <==> m != "" && m in allowed
  {
    if m == "" {
      return false;
    }
    for i := 0 to |allowed|
      invariant m !in allowed[..i]
    {
      if allowed[i] == m {
        return true;
      }
    }
    return false;
  }

  /** Both loops that push the nonempty names of a list. */
  method PushAll(queue: seq<string>, names: seq<string>) returns (r: seq<string>)
    ensures r == queue + NonEmpty(names)
  {
    r := queue;
    ghost var rest := names;
    var i := 0;
    while i < |names|
      invariant 0 <= i <= |names| && rest == names[i..]
      invariant r + NonEmpty(rest) == queue + NonEmpty(names)
    {
      if names[i] != "" {
        r := r + [names[i]];
      }
      rest := rest[1..];
      i := i + 1;
    }
  }

  method StartQueue(prog: seq<Stmt>, userUses: seq<string>, current: Current) returns (queue: seq<string>)
    ensures queue == Seeds(prog, userUses, current)
  {
    queue := PushAll([], userUses);
    if |queue| == 0 && IsStd(current) {
      queue := queue + [current.name];
    }
    if |queue| == 0 {
      queue := PushAll(queue, NamesAll(prog));
    }
  }

  /** The worklist loop. */
  method Drain(prog: seq<Stmt>, start: seq<string>) returns (allowed: seq<string>)
    requires "" !in start
    ensures Inv(prog, start, allowed, [])
  {
    allowed := [];
    var queue := start;
    StartInv(prog, start);
    while |queue| > 0
      invariant Inv(prog, start, allowed, queue)
      decreases |Unexpanded(prog, allowed)|, |queue|
    {
      var m := queue[|queue| - 1];
      assert queue == queue[..|queue| - 1] + [m];
      queue := queue[..|queue| - 1];
      if m == "" {
        continue;
      }
      var known := Has(allowed, m);
      if known {
        SkipInv(prog, start, allowed, queue, m);
      } else {
        ExpandInv(prog, start, allowed, queue, m);
        ExpandMeasure(prog, allowed, m);
        allowed := allowed + [m];
        queue := PushAll(queue, UsesAll(BodyOf(prog, m)));
      }
    }
    assert queue == [];
  }

  /** ny_build_link_allowed_modules: on every use graph, cyclic or not, it ends with
      exactly the modules reached from the seeds, each once. */
  method BuildLinkAllowed(prog: seq<Stmt>, userUses: seq<string>, current: Current) returns (allowed: seq<string>)
    ensures Distinct(allowed)
    ensures forall m :: m in allowed <==> Linked(prog, Seeds(prog, userUses, current), m)
  {
    var queue := StartQueue(prog, userUses, current);
    allowed := Drain(prog, queue);
    DoneInv(prog, queue, allowed);
  }

  // ------------------------------------------------------------------- what it decides

  /** ny_link_allowed_for_module. */
  predicate LinkAllowed(allowAll: bool, allowed: seq<string>, userUses: seq<string>, current: Current, m: string) {
    || allowAll
    || m == ""
    || "std." <= m
    || !("lib." <= m)
    || (allowed == [] && current.NoModule?)
    || (allowed == [] && IsStd(current))
    || (allowed == [] && current.Compiling? && current.name == m)
    || (allowed == [] && m in userUses)
    || m in allowed
  }

  lemma NoMembers(names: seq<string>)
    ensures names == [] || exists m :: m in names
  {
    if names != [] {
      assert names[0] in names;
    }
  }

  /** Of the lib modules exactly the linked ones may link their libraries; where there
      is nothing to start from, the module being compiled, or any when there is none. */
  lemma LinkAllowedExact(prog: seq<Stmt>, userUses: seq<string>, current: Current, allowed: seq<string>, m: string)
    requires forall x :: x in allowed <==> Linked(prog, Seeds(prog, userUses, current), x)
    requires "lib." <= m
    ensures var seeds := Seeds(prog, userUses, current);
            LinkAllowed(false, allowed, userUses, current, m) <==>
              Linked(prog, seeds, m) || (seeds == [] && (current.NoModule? || current.name == m))
  {
    var seeds := Seeds(prog, userUses, current);
    assert m[0] == 'l';
    if seeds != [] {
      ReachesSelf(Edges(prog), seeds[0]);
      assert Linked(prog, seeds, seeds[0]);
    } else {
      NoMembers(allowed);
      assert NonEmpty(userUses) == [];
      assert m in userUses ==> m in NonEmpty(userUses);
    }
  }
}
