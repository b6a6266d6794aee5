/** ny_levenshtein of src/base/util.c:644-697: one row, overwritten in place. */
module Levenshtein {
  import opened Common

  /** From the distances without the last character of one side, of the other, of both. */
  function Least(up: nat, left: nat, diag: nat, same: bool): nat {
    Min(Min(up + 1, left + 1), diag + if same then 0 else 1)
  }

  function Init(a: string): string
    requires a != ""
  {
    a[..|a| - 1]
  }

  function Last(a: string): char
    requires a != ""
  {
    a[|a| - 1]
  }

  /** The recursive edit distance. */
  function Dist(a: string, b: string): (d: nat)
    decreases |a| + |b|
  {
    if a == "" then |b|
    else if b == "" then |a|
    else Least(Dist(Init(a), b), Dist(a, Init(b)), Dist(Init(a), Init(b)), Last(a) == Last(b))
  }

  // ------------------------------------------- what it means: the cheapest edit script

  datatype Edit = Keep | Replace(c: char) | Insert(c: char) | Delete

  /** The result of a script, read from the end of the string to its start. */
  function Apply(a: string, script: seq<Edit>): Option<string> {
    if script == [] then (if a == "" then Some("") else None)
    else
      var rest := script[..|script| - 1];
      match script[|script| - 1]
      case Keep => if a == "" then None else Then(Apply(Init(a), rest), [Last(a)])
      case Replace(c) => if a == "" then None else Then(Apply(Init(a), rest), [c])
      case Insert(c) => Then(Apply(a, rest), [c])
      case Delete => if a == "" then None else Apply(Init(a), rest)
  }

  function Then(r: Option<string>, s: string): Option<string> {
    if r.None? then None else Some(r.value + s)
  }

  function Cost(script: seq<Edit>): nat {
    if script == [] then 0
    else Cost(script[..|script| - 1]) + if script[|script| - 1].Keep? then 0 else 1
  }

  /** No script is cheaper than the distance. */
  lemma {:induction false} NoCheaper(a: string, script: seq<Edit>, b: string)
    requires Apply(a, script) == Some(b)
    ensures Dist(a, b) <= Cost(script)
    decreases |script|
  {
    if script != [] {
      var rest := script[..|script| - 1];
      match script[|script| - 1] {
        case Keep =>
          assert Init(b) == Apply(Init(a), rest).value;
          NoCheaper(Init(a), rest, Init(b));
        case Replace(c) =>
          assert Init(b) == Apply(Init(a), rest).value;
          NoCheaper(Init(a), rest, Init(b));
        case Insert(c) =>
          assert Init(b) == Apply(a, rest).value;
          NoCheaper(a, rest, Init(b));
        case Delete =>
          NoCheaper(Init(a), rest, b);
      }
    }
  }

  /** One more edit at the end. */
  lemma Extend(a: string, script: seq<Edit>, e: Edit)
    ensures Cost(script + [e]) == Cost(script) + if e.Keep? then 0 else 1
    ensures e.Insert? ==> Apply(a, script + [e]) == Then(Apply(a, script), [e.c])
    ensures a != "" && e.Delete? ==> Apply(a, script + [e]) == Apply(Init(a), script)
    ensures a != "" && e.Keep? ==> Apply(a, script + [e]) == Then(Apply(Init(a), script), [Last(a)])
    ensures a != "" && e.Replace? ==> Apply(a, script + [e]) == Then(Apply(Init(a), script), [e.c])
  {
    assert (script + [e])[..|script|] == script;
  }

  /** And some script costs just that. */
  lemma {:induction false} Cheapest(a: string, b: string) returns (script: seq<Edit>)
    ensures Apply(a, script) == Some(b) && Cost(script) == Dist(a, b)
    decreases |a| + |b|
  {
    if a == "" && b == "" {
      script := [];
    } else {
      var e: Edit;
      if a == "" || (b != "" && Dist(a, b) == Dist(a, Init(b)) + 1) {
        script := Cheapest(a, Init(b));
        e := Insert(Last(b));
      } else if b == "" || Dist(a, b) == Dist(Init(a), b) + 1 {
        script := Cheapest(Init(a), b);
        e := Delete;
      } else {
        script := Cheapest(Init(a), Init(b));
        e := if Last(a) == Last(b) then Keep else Replace(Last(b));
      }
      Extend(a, script, e);
      script := script + [e];
      assert b != "" ==> Init(b) + [Last(b)] == b;
    }
  }

  lemma {:induction false} Symmetric(a: string, b: string)
    ensures Dist(a, b) == Dist(b, a)
    decreases |a| + |b|
  {
    if a != "" && b != "" {
      Symmetric(Init(a), b);
      Symmetric(a, Init(b));
      Symmetric(Init(a), Init(b));
    }
  }

  // --------------------------------------------------------------------------- the row

  lemma Unfold(x: string, y: string)
    requires x != "" && y != ""
    ensures Dist(x, y) == Least(Dist(Init(x), y), Dist(x, Init(y)), Dist(Init(x), Init(y)), Last(x) == Last(y))
  {
  }

  lemma DistStep(a: string, b: string, c: char, d: char)
    ensures Dist(a + [c], b + [d]) == Least(Dist(a, b + [d]), Dist(a + [c], b), Dist(a, b), c == d)
  {
    var x, y := a + [c], b + [d];
    Unfold(x, y);
    assert Init(x) == a && Init(y) == b;
  }

  /** The distances from `a` to every prefix of `b`. */
  function RowOf(a: string, b: string): (r: seq<nat>)
    ensures |r| == |b| + 1
  {
    seq(|b| + 1, k requires 0 <= k <= |b| => Dist(a, b[..k]))
  }

  /** How the row `below` of one more character `c` follows from the row `above`. */
  ghost predicate Follows(above: seq<nat>, below: seq<nat>, c: char, b: string) {
    && |above| == |below| == |b| + 1
    && below[0] == above[0] + 1
    && forall j {:trigger b[j]} :: 0 <= j < |b| ==>
         below[j + 1] == Least(above[j + 1], below[j], above[j], c == b[j])
  }

  lemma RowFollows(a: string, c: char, b: string)
    ensures Follows(RowOf(a, b), RowOf(a + [c], b), c, b) && RowOf(a, b)[0] == |a|
  {
    assert b[..0] == "";
    forall j {:trigger b[j]} | 0 <= j < |b|
      ensures RowOf(a + [c], b)[j + 1] ==
              Least(RowOf(a, b)[j + 1], RowOf(a + [c], b)[j], RowOf(a, b)[j], c == b[j])
    {
      assert b[..j + 1] == b[..j] + [b[j]];
      DistStep(a, b[..j], c, b[j]);
    }
  }

  /** One pass of the outer loop: the row is overwritten by the next one. */
  method NextRow(v: array<nat>, c: char, s2: string, i: nat, ghost above: seq<nat>, ghost below: seq<nat>)
    requires v[..] == above && Follows(above, below, c, s2) && above[0] == i
    modifies v
    ensures v[..] == below
  {
    var left := i + 1;
    var prevDiag := v[0];
    v[0] := left;
    for j := 0 to |s2|
      invariant left == below[j] && prevDiag == above[j]
      invariant forall k :: 0 <= k <= j ==> v[k] == below[k]
      invariant forall k :: j < k <= |s2| ==> v[k] == above[k]
    {
      var up := v[j + 1];
      var diag := prevDiag;
      var cost := if c == s2[j] then 0 else 1;
      var min := up + 1;
      var ins := left + 1;
      if ins < min {
        min := ins;
      }
      var sub := diag + cost;
      if sub < min {
        min := sub;
      }
      prevDiag := up;
      v[j + 1] := min;
      left := min;
    }
  }

  method Distance(s1: string, s2: string) returns (res: int)
    ensures res == Dist(s1, s2)
    decreases |s1| < |s2|
  {
    if |s1| < |s2| {
      Symmetric(s1, s2);
      res := Distance(s2, s1);
      return;
    }
    if |s2| == 0 {
      return |s1|;
    }
    var v := new nat[|s2| + 1];
    for i := 0 to |s2| + 1
      invariant forall k :: 0 <= k < i ==> v[k] == k
    {
      v[i] := i;
    }
    assert v[..] == RowOf(s1[..0], s2);
    for i := 0 to |s1|
      invariant v[..] == RowOf(s1[..i], s2)
    {
      RowFollows(s1[..i], s1[i], s2);
      assert s1[..i + 1] == s1[..i] + [s1[i]];
      NextRow(v, s1[i], s2, i, RowOf(s1[..i], s2), RowOf(s1[..i + 1], s2));
    }
    assert s1[..|s1|] == s1 && s2[..|s2|] == s2;
    res := v[..][|s2|];
  }
}
