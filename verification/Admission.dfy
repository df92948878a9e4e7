/** Admission of `spec.depends`: per-entry checks, the cycle walk, and what they guarantee about
    the stored dependency graph over every run of serial writes and deletes. */
module Admission {
  import opened Common
  import opened DependencyGraph
  import opened Names
  import Suppression

  datatype Verdict = Accepted(visited: seq<Ref>) | CycleFound | TooDeep

  /** The cycle walk over the stored CRs. A CR that cannot be read is marked and skipped. */
  function CycleVerdict(g: Graph, owner: Ref, deps: seq<Ref>, visited: seq<Ref>, depth: nat): Verdict
    decreases MaxDepth - depth, |deps|
  {
    if depth >= MaxDepth then
      TooDeep
    else if deps == [] then
      Accepted(visited)
    else if deps[0] == owner then
      CycleFound
    else if deps[0] in visited then
      CycleVerdict(g, owner, deps[1..], visited, depth)
    else if deps[0] !in g then
      CycleVerdict(g, owner, deps[1..], visited + [deps[0]], depth)
    else
      match CycleVerdict(g, owner, g[deps[0]], visited + [deps[0]], depth + 1)
      case Accepted(marked) => CycleVerdict(g, owner, deps[1..], marked, depth)
      case CycleFound => CycleFound
      case TooDeep => TooDeep
  }

  method WalkForCycle(g: Graph, owner: Ref, deps: seq<Ref>, visited: Visited, depth: nat)
    returns (err: Option<Verdict>)
    requires visited.Valid()
    modifies visited
    ensures visited.Valid()
    ensures var v := CycleVerdict(g, owner, deps, old(visited.order), depth);
            if v.Accepted? then err == None && visited.order == v.visited else err == Some(v)
    decreases MaxDepth - depth
  {
    if depth >= MaxDepth {
      return Some(TooDeep);
    }
    for i := 0 to |deps|
      invariant visited.Valid()
      invariant CycleVerdict(g, owner, deps[i..], visited.order, depth)
             == CycleVerdict(g, owner, deps, old(visited.order), depth)
    {
      var dep := deps[i];
      assert deps[i..][1..] == deps[i + 1..];
      if dep == owner {
        return Some(CycleFound);
      }
      if dep in visited.keys {
        continue;
      }
      visited.Mark(dep);
      if dep !in g {
        continue;
      }
      var sub := WalkForCycle(g, owner, g[dep], visited, depth + 1);
      if sub.Some? {
        return sub;
      }
    }
    return None;
  }

  // ----- what the walk decides

  /** Marked CRs off the stack have all their dependencies marked, and the owner is never marked. */
  ghost predicate Cleared(g: Graph, owner: Ref, stack: seq<Ref>, visited: seq<Ref>) {
    && owner !in visited
    && forall b, s :: b in visited && b !in stack && s in Deps(g, b) ==> s in visited
  }

  lemma {:induction false} VerdictMonotone(g: Graph, owner: Ref, deps: seq<Ref>, visited: seq<Ref>, depth: nat)
    ensures var v := CycleVerdict(g, owner, deps, visited, depth);
            v.Accepted? ==> visited <= v.visited && forall m :: m in visited ==> m in v.visited
    decreases MaxDepth - depth, |deps|
  {
    if depth < MaxDepth && deps != [] && deps[0] != owner {
      if deps[0] in visited {
        VerdictMonotone(g, owner, deps[1..], visited, depth);
      } else if deps[0] !in g {
        VerdictMonotone(g, owner, deps[1..], visited + [deps[0]], depth);
      } else {
        VerdictMonotone(g, owner, g[deps[0]], visited + [deps[0]], depth + 1);
        var sub := CycleVerdict(g, owner, g[deps[0]], visited + [deps[0]], depth + 1);
        if sub.Accepted? {
          VerdictMonotone(g, owner, deps[1..], sub.visited, depth);
        }
      }
    }
  }

  lemma {:induction false} AcceptanceClears(
    g: Graph, owner: Ref, stack: seq<Ref>, deps: seq<Ref>, visited: seq<Ref>, depth: nat)
    requires Cleared(g, owner, stack, visited)
    ensures var v := CycleVerdict(g, owner, deps, visited, depth);
            v.Accepted? ==> Cleared(g, owner, stack, v.visited) && forall d :: d in deps ==> d in v.visited
    decreases MaxDepth - depth, |deps|
  {
    if depth < MaxDepth && deps != [] && deps[0] != owner {
      var d := deps[0];
      var marked := visited;
      if d !in visited {
        marked := visited + [d];
        if d in g {
          AcceptanceClears(g, owner, stack + [d], g[d], marked, depth + 1);
          VerdictMonotone(g, owner, g[d], marked, depth + 1);
          var sub := CycleVerdict(g, owner, g[d], marked, depth + 1);
          if !sub.Accepted? {
            return;
          }
          assert sub.visited[|visited|] == d;
          marked := sub.visited;
        }
      }
      assert Cleared(g, owner, stack, marked);
      AcceptanceClears(g, owner, stack, deps[1..], marked, depth);
      VerdictMonotone(g, owner, deps[1..], marked, depth);
    }
  }

  lemma {:induction false} CycleFoundIsReal(g: Graph, owner: Ref, deps: seq<Ref>, visited: seq<Ref>, depth: nat)
    returns (d: Ref)
    requires CycleVerdict(g, owner, deps, visited, depth) == CycleFound
    ensures d in deps && Reaches(g, d, owner)
    decreases MaxDepth - depth, |deps|
  {
    d := deps[0];
    if d == owner {
      assert PathBetween(g, [owner], owner, owner);
    } else if d in visited {
      d := CycleFoundIsReal(g, owner, deps[1..], visited, depth);
    } else if d !in g {
      d := CycleFoundIsReal(g, owner, deps[1..], visited + [d], depth);
    } else {
      var sub := CycleVerdict(g, owner, g[d], visited + [d], depth + 1);
      if sub.CycleFound? {
        var e := CycleFoundIsReal(g, owner, g[d], visited + [d], depth + 1);
        var p :| PathBetween(g, p, e, owner);
        assert IsPath(g, [d, e]);
        JoinPaths(g, [d, e], p);
      } else {
        d := CycleFoundIsReal(g, owner, deps[1..], sub.visited, depth);
      }
    }
  }

  /** A too-deep verdict exhibits a simple chain of 16 edges from the owner to a CR that exists. */
  lemma {:induction false} TooDeepHasChain(
    g: Graph, g': Graph, owner: Ref, stack: seq<Ref>, deps: seq<Ref>, visited: seq<Ref>, depth: nat)
    returns (p: seq<Ref>)
    requires g' == g[owner := Deps(g', owner)]
    requires Suppression.Stack(g', stack, deps, [owner] + visited, depth) && stack[0] == owner
    requires depth < MaxDepth && CycleVerdict(g, owner, deps, visited, depth) == TooDeep
    ensures SimpleChain(g', p, owner) && |p| - 1 == MaxDepth && p[MaxDepth] in g
    decreases MaxDepth - depth, |deps|
  {
    var d := deps[0];
    if d in visited {
      p := TooDeepHasChain(g, g', owner, stack, deps[1..], visited, depth);
    } else if d !in g {
      p := TooDeepHasChain(g, g', owner, stack, deps[1..], visited + [d], depth);
    } else {
      var sub := CycleVerdict(g, owner, g[d], visited + [d], depth + 1);
      Suppression.PushKeepsStack(g', stack, deps, [owner] + visited, depth);
      assert [owner] + visited + [d] == [owner] + (visited + [d]);
      if sub.TooDeep? {
        if depth + 1 == MaxDepth {
          p := stack + [d];
        } else {
          p := TooDeepHasChain(g, g', owner, stack + [d], g[d], visited + [d], depth + 1);
        }
      } else {
        VerdictMonotone(g, owner, g[d], visited + [d], depth + 1);
        assert forall v :: v in visited ==> v in visited + [d];
        p := TooDeepHasChain(g, g', owner, stack, deps[1..], sub.visited, depth);
      }
    }
  }

  function CheckNoCycle(g: Graph, owner: Ref, deps: seq<Ref>): Verdict {
    CycleVerdict(g, owner, deps, [], 0)
  }

  /** Acceptance proves the owner unreachable from its new dependencies. */
  lemma AcceptedIsUnreachable(g: Graph, owner: Ref, deps: seq<Ref>)
    requires CheckNoCycle(g, owner, deps).Accepted?
    ensures forall d :: d in deps ==> !Reaches(g, d, owner)
  {
    AcceptanceClears(g, owner, [], deps, [], 0);
    var v := CheckNoCycle(g, owner, deps).visited;
    forall d, p | d in deps && PathBetween(g, p, d, owner) ensures false {
      ClosedUnderPaths(g, v, p);
    }
  }

  /** Both directions: away from the depth cap the walk accepts exactly when no dependency leads
      back to the owner, and a cycle verdict is never wrong, at any depth. */
  lemma CycleCheckExact(g: Graph, owner: Ref, deps: seq<Ref>)
    ensures CheckNoCycle(g, owner, deps).CycleFound? ==> exists d :: d in deps && Reaches(g, d, owner)
    ensures (forall p :: SimpleChain(g[owner := deps], p, owner) && |p| - 1 == MaxDepth ==> p[MaxDepth] !in g) ==>
              (CheckNoCycle(g, owner, deps).Accepted? <==> forall d :: d in deps ==> !Reaches(g, d, owner))
  {
    match CheckNoCycle(g, owner, deps)
    case Accepted(_) =>
      AcceptedIsUnreachable(g, owner, deps);
    case CycleFound =>
      var d := CycleFoundIsReal(g, owner, deps, [], 0);
    case TooDeep =>
      var p := TooDeepHasChain(g, g[owner := deps], owner, [owner], deps, [], 0);
  }

  /** On an unbranched chain of existing CRs the cap is exact: accepted if and only if the chain has
      fewer than 16 edges, one less than the suppression walk can see. */
  lemma AdmissionCapIsExact(g: Graph, p: seq<Ref>)
    requires |p| > 1 && Suppression.Unbranched(g[p[0] := p[1..2]], p) && forall i | 0 < i < |p| :: p[i] in g
    ensures CheckNoCycle(g, p[0], [p[1]]).Accepted? <==> |p| - 1 < 16
    ensures |p| - 1 >= 16 ==> CheckNoCycle(g, p[0], [p[1]]).TooDeep?
  {
    VerdictDownChain(g, p, 0);
    assert p[1..1] == [];
  }

  lemma {:induction false} VerdictDownChain(g: Graph, p: seq<Ref>, depth: nat)
    requires depth < |p| - 1 && depth < MaxDepth
    requires Suppression.Unbranched(g[p[0] := p[1..2]], p) && forall i | 0 < i < |p| :: p[i] in g
    ensures var v := CycleVerdict(g, p[0], [p[depth + 1]], p[1..depth + 1], depth);
            if |p| - 1 < MaxDepth then v.Accepted? else v.TooDeep?
    decreases MaxDepth - depth
  {
    var d := p[depth + 1];
    assert d != p[0] && d !in p[1..depth + 1];
    assert p[1..depth + 1] + [d] == p[1..depth + 2];
    assert g[d] == Deps(g[p[0] := p[1..2]], d);
    assert [d][1..] == [];
    if depth + 1 < MaxDepth && depth + 1 < |p| - 1 {
      VerdictDownChain(g, p, depth + 1);
    }
  }

  // ----- ValidateDepends

  datatype Problem = NotSupported | InvalidName | SelfReference | Duplicate | NotFound | Walk(verdict: Verdict)
  datatype FieldError = FieldError(index: nat, problem: Problem)

  /** What is wrong with one entry, as a statement about the whole list. */
  function EntryProblem(g: Graph, owner: Ref, deps: seq<Ref>, i: nat): Option<Problem>
    requires i < |deps|
  {
    var dep := deps[i];
    if dep.kind.Unknown? then Some(NotSupported)
    else if !IsDNS1123Subdomain(dep.name) then Some(InvalidName)
    else if dep == owner then Some(SelfReference)
    else if dep in deps[..i] then Some(Duplicate)
    else if dep !in g then Some(NotFound)
    else None
  }

  /** The list of dependencies passes admission: known kinds, valid names, no self-reference, no
      repeats, existing CRs, and no way back to the owner that the walk can see. */
  ghost predicate Admits(g: Graph, owner: Ref, deps: seq<Ref>) {
    deps == [] ||
    (&& (forall i | 0 <= i < |deps| ::
           !deps[i].kind.Unknown? && IsDNS1123Subdomain(deps[i].name) && deps[i] != owner && deps[i] in g)
     && (forall i, j | 0 <= i < j < |deps| :: deps[i] != deps[j])
     && CheckNoCycle(g, owner, deps).Accepted?)
  }

  lemma NoProblemsIff(g: Graph, owner: Ref, deps: seq<Ref>)
    ensures (forall i | 0 <= i < |deps| :: EntryProblem(g, owner, deps, i).None?) <==>
              && (forall i | 0 <= i < |deps| ::
                    !deps[i].kind.Unknown? && IsDNS1123Subdomain(deps[i].name) && deps[i] != owner && deps[i] in g)
              && (forall i, j | 0 <= i < j < |deps| :: deps[i] != deps[j])
  {
    if forall i | 0 <= i < |deps| :: EntryProblem(g, owner, deps, i).None? {
      forall i | 0 <= i < |deps|
        ensures !deps[i].kind.Unknown? && IsDNS1123Subdomain(deps[i].name) && deps[i] != owner && deps[i] in g
      {
        assert EntryProblem(g, owner, deps, i).None?;
      }
      forall i, j | 0 <= i < j < |deps| ensures deps[i] != deps[j] {
        assert EntryProblem(g, owner, deps, j).None? && deps[..j][i] == deps[i];
      }
    }
  }

  /** What each error of an entry says about the list. */
  predicate HasProblem(g: Graph, owner: Ref, deps: seq<Ref>, i: nat, p: Problem)
    requires i < |deps| && !p.Walk?
  {
    var dep := deps[i];
    var named := !dep.kind.Unknown? && IsDNS1123Subdomain(dep.name);
    match p
    case NotSupported => dep.kind.Unknown?
    case InvalidName => !dep.kind.Unknown? && !IsDNS1123Subdomain(dep.name)
    case SelfReference => named && dep == owner
    case Duplicate => named && dep != owner && dep in deps[..i]
    case NotFound => named && dep != owner && dep !in deps[..i] && dep !in g
  }

  /** One pass over the entries. */
  method EntryErrors(g: Graph, owner: Ref, deps: seq<Ref>) returns (errs: seq<FieldError>)
    ensures forall k | 0 <= k < |deps| ::
              EntryProblem(g, owner, deps, k).Some? ==> FieldError(k, EntryProblem(g, owner, deps, k).value) in errs
    ensures forall e :: e in errs ==>
              !e.problem.Walk? && e.index < |deps| && EntryProblem(g, owner, deps, e.index) == Some(e.problem)
    ensures forall i, j | 0 <= i < j < |errs| :: errs[i].index < errs[j].index
  {
    errs := [];
    var seen: set<Ref> := {};
    for i := 0 to |deps|
      invariant forall d :: d in seen ==> d in deps[..i]
      invariant forall d :: d in deps[..i] && !d.kind.Unknown? && IsDNS1123Subdomain(d.name) && d != owner ==> d in seen
      invariant forall k | 0 <= k < i ::
                  EntryProblem(g, owner, deps, k).Some? ==> FieldError(k, EntryProblem(g, owner, deps, k).value) in errs
      invariant forall e :: e in errs ==>
                  !e.problem.Walk? && e.index < i && EntryProblem(g, owner, deps, e.index) == Some(e.problem)
      invariant forall a, b | 0 <= a < b < |errs| :: errs[a].index < errs[b].index
    {
      var dep := deps[i];
      assert deps[..i + 1] == deps[..i] + [dep];
      if dep.kind.Unknown? {
        errs := errs + [FieldError(i, NotSupported)];
      } else if !IsDNS1123Subdomain(dep.name) {
        errs := errs + [FieldError(i, InvalidName)];
      } else if dep == owner {
        errs := errs + [FieldError(i, SelfReference)];
      } else if dep in seen {
        errs := errs + [FieldError(i, Duplicate)];
      } else {
        seen := seen + {dep};
        if dep !in g {
          errs := errs + [FieldError(i, NotFound)];
        }
      }
    }
  }

  lemma ProblemIs(g: Graph, owner: Ref, deps: seq<Ref>, i: nat, p: Problem)
    requires i < |deps| && !p.Walk?
    ensures HasProblem(g, owner, deps, i, p) <==> EntryProblem(g, owner, deps, i) == Some(p)
  {}

  method ValidateDepends(g: Graph, owner: Ref, deps: seq<Ref>) returns (errs: seq<FieldError>)
    ensures errs == [] <==> Admits(g, owner, deps)
    ensures forall i, p: Problem | 0 <= i < |deps| && !p.Walk? :: FieldError(i, p) in errs <==> HasProblem(g, owner, deps, i, p)
    ensures forall i, j | 0 <= i < j < |errs| :: errs[i].index < errs[j].index
    ensures forall e :: e in errs && !e.problem.Walk? ==> e.index < |deps|
    ensures forall e :: e in errs && e.problem.Walk? ==>
              errs == [e] && !e.problem.verdict.Accepted? && e.problem.verdict == CheckNoCycle(g, owner, deps)
  {
    errs := [];
    if |deps| == 0 {
      return;
    }
    errs := EntryErrors(g, owner, deps);
    assert errs != [] ==> errs[0] in errs;
    NoProblemsIff(g, owner, deps);
    if errs == [] {
      var visited := new Visited();
      var cycle := WalkForCycle(g, owner, deps, visited, 0);
      if cycle.Some? {
        errs := [FieldError(0, Walk(cycle.value))];
      }
    }
    forall i, p: Problem | 0 <= i < |deps| && !p.Walk?
      ensures FieldError(i, p) in errs <==> HasProblem(g, owner, deps, i, p)
    {
      assert EntryProblem(g, owner, deps, i).Some? ==> FieldError(i, EntryProblem(g, owner, deps, i).value) in errs;
      ProblemIs(g, owner, deps, i, p);
    }
  }

  // ----- runs

  /** A write that creates or updates `owner`, with the outcome of the webhook's other checks, or a
      delete, which the webhook never refuses. */
  datatype Request = Write(owner: Ref, deps: seq<Ref>, otherChecks: bool) | Delete(gone: Ref)

  ghost function Next(g: Graph, r: Request): Graph {
    match r
    case Write(owner, deps, other) =>
      if other && !owner.kind.Unknown? && Admits(g, owner, deps) then g[owner := deps] else g
    case Delete(gone) => g - {gone}
  }

  /** A write takes effect only if every one of its dependencies is stored at that moment. */
  lemma AdmittedDepsExist(requests: seq<Request>, i: nat)
    requires i < |requests| && requests[i].Write?
    ensures var g, g', w := Run(requests[..i]), Run(requests[..i + 1]), requests[i];
            && (g' == g || g' == g[w.owner := w.deps])
            && (g' != g ==> w.otherChecks && forall d :: d in w.deps ==> d in g && d != w.owner)
  {
    assert requests[..i + 1][..i] == requests[..i];
  }

  ghost function Run(requests: seq<Request>): Graph {
    if requests == [] then map[] else Next(Run(requests[..|requests| - 1]), requests[|requests| - 1])
  }

  /** After every run from the empty cluster the stored graph is acyclic, edges to missing CRs included. */
  lemma {:induction false} AlwaysAcyclic(requests: seq<Request>)
    ensures Acyclic(Run(requests))
  {
    if requests == [] {
      forall r ensures !DependsOn(map[], r, r) {
        forall p: seq<Ref> | |p| >= 2 ensures !IsPath(map[], p) {
          assert p[0 + 1] !in Deps(map[], p[0]);
        }
      }
    } else {
      var g := Run(requests[..|requests| - 1]);
      AlwaysAcyclic(requests[..|requests| - 1]);
      match requests[|requests| - 1]
      case Delete(gone) => RemoveKeepsAcyclic(g, gone);
      case Write(owner, deps, other) =>
        if Admits(g, owner, deps) {
          if deps != [] {
            AcceptedIsUnreachable(g, owner, deps);
          }
          WriteKeepsAcyclic(g, owner, deps);
        }
    }
  }
}
