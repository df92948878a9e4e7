/** The scrape-time walk that attributes a failure to an unhealthy dependency, as a function of
    the stored graph and the set of failing CRs, with what it promises on every graph. */
module Suppression {
  import opened Common
  import opened DependencyGraph

  /** `visited` lists the marked nodes in the order they were marked, which is the order they were
      expanded. `cut` is specification only: the depth cap dropped a dependency not yet marked. */
  datatype Outcome = Outcome(found: Option<Ref>, visited: seq<Ref>, cut: bool)

  function Walk(g: Graph, failing: set<Ref>, deps: seq<Ref>, visited: seq<Ref>, depth: nat): Outcome
    decreases MaxDepth - depth, |deps|
  {
    if depth >= MaxDepth then
      Outcome(None, visited, exists d :: d in deps && d !in visited)
    else if deps == [] then
      Outcome(None, visited, false)
    else if deps[0] in visited then
      Walk(g, failing, deps[1..], visited, depth)
    else
      var sub := Walk(g, failing, Deps(g, deps[0]), visited + [deps[0]], depth + 1);
      if sub.found.Some? then
        sub
      else if deps[0] in failing then
        sub.(found := Some(deps[0]))
      else
        var rest := Walk(g, failing, deps[1..], sub.visited, depth);
        rest.(cut := sub.cut || rest.cut)
  }

  function FindUnhealthyDep(g: Graph, failing: set<Ref>, origin: Ref): Outcome {
    Walk(g, failing, Deps(g, origin), [origin], 0)
  }

  /** The walk sees a graph only through its dependency lists. */
  lemma {:induction false} WalkSeesDeps(
    g: Graph, g': Graph, failing: set<Ref>, deps: seq<Ref>, visited: seq<Ref>, depth: nat)
    requires forall r :: Deps(g, r) == Deps(g', r)
    ensures Walk(g, failing, deps, visited, depth) == Walk(g', failing, deps, visited, depth)
    decreases MaxDepth - depth, |deps|
  {
    if depth < MaxDepth && deps != [] {
      if deps[0] in visited {
        WalkSeesDeps(g, g', failing, deps[1..], visited, depth);
      } else {
        WalkSeesDeps(g, g', failing, Deps(g, deps[0]), visited + [deps[0]], depth + 1);
        var sub := Walk(g, failing, Deps(g, deps[0]), visited + [deps[0]], depth + 1);
        WalkSeesDeps(g, g', failing, deps[1..], sub.visited, depth);
      }
    }
  }

  /** The nodes being expanded, from the origin down to the node whose dependencies are walked. */
  ghost predicate Stack(g: Graph, stack: seq<Ref>, deps: seq<Ref>, visited: seq<Ref>, depth: nat) {
    && IsPath(g, stack)
    && Simple(stack)
    && |stack| == depth + 1
    && (forall s :: s in stack ==> s in visited)
    && (forall d :: d in deps ==> d in Deps(g, stack[depth]))
  }

  /** Marked nodes that are no longer on the stack are healthy and all their dependencies are marked. */
  ghost predicate Settled(g: Graph, failing: set<Ref>, stack: seq<Ref>, visited: seq<Ref>) {
    forall b :: b in visited && b !in stack ==>
      b !in failing && forall s :: s in Deps(g, b) ==> s in visited
  }

  lemma PushKeepsStack(g: Graph, stack: seq<Ref>, deps: seq<Ref>, visited: seq<Ref>, depth: nat)
    requires Stack(g, stack, deps, visited, depth) && deps != [] && deps[0] !in visited
    ensures Stack(g, stack + [deps[0]], Deps(g, deps[0]), visited + [deps[0]], depth + 1)
  {}

  /** Marks are only ever added. */
  lemma {:induction false} WalkMonotone(g: Graph, failing: set<Ref>, deps: seq<Ref>, visited: seq<Ref>, depth: nat)
    ensures var r := Walk(g, failing, deps, visited, depth);
            visited <= r.visited && forall v :: v in visited ==> v in r.visited
    decreases MaxDepth - depth, |deps|
  {
    if depth < MaxDepth && deps != [] {
      if deps[0] in visited {
        WalkMonotone(g, failing, deps[1..], visited, depth);
      } else {
        WalkMonotone(g, failing, Deps(g, deps[0]), visited + [deps[0]], depth + 1);
        var sub := Walk(g, failing, Deps(g, deps[0]), visited + [deps[0]], depth + 1);
        WalkMonotone(g, failing, deps[1..], sub.visited, depth);
      }
    }
  }

  /** No node is marked, and therefore none is expanded, twice. */
  lemma {:induction false} WalkMarksOnce(g: Graph, failing: set<Ref>, deps: seq<Ref>, visited: seq<Ref>, depth: nat)
    requires Simple(visited)
    ensures Simple(Walk(g, failing, deps, visited, depth).visited)
    decreases MaxDepth - depth, |deps|
  {
    if depth < MaxDepth && deps != [] {
      if deps[0] in visited {
        WalkMarksOnce(g, failing, deps[1..], visited, depth);
      } else {
        WalkMarksOnce(g, failing, Deps(g, deps[0]), visited + [deps[0]], depth + 1);
        var sub := Walk(g, failing, Deps(g, deps[0]), visited + [deps[0]], depth + 1);
        WalkMarksOnce(g, failing, deps[1..], sub.visited, depth);
      }
    }
  }

  /** A walk that finds nothing and is not cut settles every dependency it was given. */
  lemma {:induction false} WalkSettles(
    g: Graph, failing: set<Ref>, stack: seq<Ref>, deps: seq<Ref>, visited: seq<Ref>, depth: nat)
    requires Settled(g, failing, stack, visited)
    ensures var r := Walk(g, failing, deps, visited, depth);
            r.found.None? && !r.cut ==>
              Settled(g, failing, stack, r.visited) && forall d :: d in deps ==> d in r.visited
    decreases MaxDepth - depth, |deps|
  {
    if depth < MaxDepth && deps != [] {
      var d := deps[0];
      if d in visited {
        WalkSettles(g, failing, stack, deps[1..], visited, depth);
        WalkMonotone(g, failing, deps[1..], visited, depth);
      } else {
        WalkSettles(g, failing, stack + [d], Deps(g, d), visited + [d], depth + 1);
        var sub := Walk(g, failing, Deps(g, d), visited + [d], depth + 1);
        WalkMonotone(g, failing, Deps(g, d), visited + [d], depth + 1);
        assert d in sub.visited by { assert sub.visited[|visited|] == d; }
        if sub.found.None? && !sub.cut && d !in failing {
          assert Settled(g, failing, stack, sub.visited);
          WalkSettles(g, failing, stack, deps[1..], sub.visited, depth);
          WalkMonotone(g, failing, deps[1..], sub.visited, depth);
        }
      }
    }
  }

  /** Whatever the walk reports is failing, was not marked before, and lies within the cap. */
  lemma {:induction false} WalkSound(
    g: Graph, failing: set<Ref>, stack: seq<Ref>, deps: seq<Ref>, visited: seq<Ref>, depth: nat)
    returns (p: seq<Ref>)
    requires Stack(g, stack, deps, visited, depth)
    requires Walk(g, failing, deps, visited, depth).found.Some?
    ensures var f := Walk(g, failing, deps, visited, depth).found.value;
            && f in failing
            && f !in visited
            && PathBetween(g, p, stack[0], f)
            && |p| <= MaxDepth + 1
    decreases MaxDepth - depth, |deps|
  {
    var d := deps[0];
    if d in visited {
      p := WalkSound(g, failing, stack, deps[1..], visited, depth);
    } else {
      PushKeepsStack(g, stack, deps, visited, depth);
      var sub := Walk(g, failing, Deps(g, d), visited + [d], depth + 1);
      if sub.found.Some? {
        p := WalkSound(g, failing, stack + [d], Deps(g, d), visited + [d], depth + 1);
      } else if d in failing {
        p := stack + [d];
      } else {
        WalkMonotone(g, failing, Deps(g, d), visited + [d], depth + 1);
        assert forall v :: v in visited ==> v in visited + [d];
        p := WalkSound(g, failing, stack, deps[1..], sub.visited, depth);
      }
    }
  }

  /** A path down from `p[0]` that never comes back into a cycle of `p[0]`. */
  ghost predicate LeavesCycle(g: Graph, p: seq<Ref>) {
    IsPath(g, p) && |p| >= 2 && forall k | 1 <= k < |p| :: !Reaches(g, p[k], p[0])
  }

  /** No failing CR lies below `f`, except by way of a cycle through `f` itself. */
  ghost predicate RootCause(g: Graph, failing: set<Ref>, f: Ref) {
    forall p :: LeavesCycle(g, p) && p[0] == f ==> p[|p| - 1] !in failing
  }

  /** `f` has no failing transitive dependency at all. */
  ghost predicate NothingFailsBelow(g: Graph, failing: set<Ref>, f: Ref) {
    forall x :: DependsOn(g, f, x) ==> x !in failing
  }

  /** Off cycles the two are the same. */
  lemma RootCauseOffCycle(g: Graph, failing: set<Ref>, f: Ref)
    requires RootCause(g, failing, f) && !DependsOn(g, f, f)
    ensures NothingFailsBelow(g, failing, f)
  {
    forall x, p | |p| >= 2 && PathBetween(g, p, f, x) ensures x !in failing {
      forall k | 1 <= k < |p| ensures !Reaches(g, p[k], f) {
        ReachesBack(g, p, k);
      }
      assert LeavesCycle(g, p);
    }
  }

  lemma ReachesBack(g: Graph, p: seq<Ref>, k: nat)
    requires IsPath(g, p) && 1 <= k < |p|
    ensures Reaches(g, p[k], p[0]) ==> DependsOn(g, p[0], p[0])
  {
    if Reaches(g, p[k], p[0]) {
      var q :| PathBetween(g, q, p[k], p[0]);
      PathSlice(g, p, 0, k + 1);
      JoinPaths(g, p[..k + 1], q);
    }
  }

  /** Everything on a path that leaves the cycles of the top of the stack has left the stack, once
      the top's dependencies are marked. */
  lemma {:induction false} BelowIsSettled(
    g: Graph, failing: set<Ref>, stack: seq<Ref>, visited: seq<Ref>, p: seq<Ref>)
    requires IsPath(g, stack) && Settled(g, failing, stack, visited)
    requires forall s :: s in Deps(g, stack[|stack| - 1]) ==> s in visited
    requires LeavesCycle(g, p) && p[0] == stack[|stack| - 1]
    ensures p[|p| - 1] in visited && p[|p| - 1] !in stack
  {
    var x := p[|p| - 1];
    assert p[|p| - 2 + 1] in Deps(g, p[|p| - 2]);
    if |p| > 2 {
      PathSlice(g, p, 0, |p| - 1);
      BelowIsSettled(g, failing, stack, visited, p[..|p| - 1]);
    }
    if i :| 0 <= i < |stack| && stack[i] == x {
      PathSlice(g, stack, i, |stack|);
      assert PathBetween(g, stack[i..], x, p[0]);
    }
  }

  /** The node on top of the stack, once everything below it has been walked in vain. */
  lemma TopIsRootCause(g: Graph, failing: set<Ref>, stack: seq<Ref>, visited: seq<Ref>)
    requires IsPath(g, stack) && Settled(g, failing, stack, visited)
    requires forall s :: s in Deps(g, stack[|stack| - 1]) ==> s in visited
    ensures RootCause(g, failing, stack[|stack| - 1])
  {
    forall p | LeavesCycle(g, p) && p[0] == stack[|stack| - 1] ensures p[|p| - 1] !in failing {
      BelowIsSettled(g, failing, stack, visited, p);
    }
  }

  /** Coming back from a walk below `deps[0]` that found nothing and was not cut. */
  lemma PopSettles(g: Graph, failing: set<Ref>, stack: seq<Ref>, deps: seq<Ref>, visited: seq<Ref>, depth: nat)
    requires Stack(g, stack, deps, visited, depth) && Settled(g, failing, stack, visited)
    requires depth < MaxDepth && deps != [] && deps[0] !in visited
    requires var sub := Walk(g, failing, Deps(g, deps[0]), visited + [deps[0]], depth + 1);
             sub.found.None? && !sub.cut
    ensures var d, marks := deps[0], Walk(g, failing, Deps(g, deps[0]), visited + [deps[0]], depth + 1).visited;
            && Settled(g, failing, stack + [d], marks)
            && (forall s :: s in Deps(g, d) ==> s in marks)
            && Stack(g, stack, deps[1..], marks, depth)
            && (d !in failing ==> Settled(g, failing, stack, marks))
  {
    var d := deps[0];
    WalkSettles(g, failing, stack + [d], Deps(g, d), visited + [d], depth + 1);
    WalkMonotone(g, failing, Deps(g, d), visited + [d], depth + 1);
    assert forall v :: v in visited ==> v in visited + [d];
  }

  lemma {:induction false} WalkRootCause(
    g: Graph, failing: set<Ref>, stack: seq<Ref>, deps: seq<Ref>, visited: seq<Ref>, depth: nat)
    requires Stack(g, stack, deps, visited, depth) && Settled(g, failing, stack, visited)
    ensures var r := Walk(g, failing, deps, visited, depth);
            r.found.Some? && !r.cut ==> RootCause(g, failing, r.found.value)
    decreases MaxDepth - depth, |deps|
  {
    if depth < MaxDepth && deps != [] {
      var d := deps[0];
      if d in visited {
        WalkRootCause(g, failing, stack, deps[1..], visited, depth);
      } else {
        PushKeepsStack(g, stack, deps, visited, depth);
        var sub := Walk(g, failing, Deps(g, d), visited + [d], depth + 1);
        if sub.found.Some? {
          WalkRootCause(g, failing, stack + [d], Deps(g, d), visited + [d], depth + 1);
        } else if !sub.cut {
          PopSettles(g, failing, stack, deps, visited, depth);
          if d in failing {
            TopIsRootCause(g, failing, stack + [d], sub.visited);
          } else {
            WalkRootCause(g, failing, stack, deps[1..], sub.visited, depth);
          }
        }
      }
    }
  }

  /** The cap drops an unmarked dependency only at the end of a simple chain of 17 edges. */
  lemma {:induction false} WalkCutHasChain(
    g: Graph, failing: set<Ref>, stack: seq<Ref>, deps: seq<Ref>, visited: seq<Ref>, depth: nat)
    returns (p: seq<Ref>)
    requires Stack(g, stack, deps, visited, depth) && depth <= MaxDepth
    requires Walk(g, failing, deps, visited, depth).cut
    ensures SimpleChain(g, p, stack[0]) && |p| - 1 == MaxDepth + 1
    decreases MaxDepth - depth, |deps|
  {
    if depth == MaxDepth {
      var d :| d in deps && d !in visited;
      assert Stack(g, stack, [d], visited, depth);
      PushKeepsStack(g, stack, [d], visited, depth);
      p := stack + [d];
    } else if deps[0] in visited {
      p := WalkCutHasChain(g, failing, stack, deps[1..], visited, depth);
    } else {
      var d := deps[0];
      PushKeepsStack(g, stack, deps, visited, depth);
      var sub := Walk(g, failing, Deps(g, d), visited + [d], depth + 1);
      if sub.cut {
        p := WalkCutHasChain(g, failing, stack + [d], Deps(g, d), visited + [d], depth + 1);
      } else {
        WalkMonotone(g, failing, Deps(g, d), visited + [d], depth + 1);
        assert forall v :: v in visited ==> v in visited + [d];
        p := WalkCutHasChain(g, failing, stack, deps[1..], sub.visited, depth);
      }
    }
  }

  ghost predicate ChainsWithinCap(g: Graph, origin: Ref) {
    forall p :: SimpleChain(g, p, origin) ==> |p| - 1 <= MaxDepth
  }

  /** Some transitive dependency of `origin`, other than `origin` itself, is failing. */
  ghost predicate HasFailingDep(g: Graph, failing: set<Ref>, origin: Ref) {
    exists x :: x != origin && x in failing && DependsOn(g, origin, x)
  }

  /** On every graph, cyclic ones included: a reported dependency is a failing CR other than the
      origin, at most 16 edges away, and no CR is expanded twice. */
  lemma SuppressionSound(g: Graph, failing: set<Ref>, origin: Ref)
    ensures var r := FindUnhealthyDep(g, failing, origin);
            && Simple(r.visited)
            && (r.found.Some? ==>
                  && r.found.value in failing
                  && r.found.value != origin
                  && exists p :: 2 <= |p| <= MaxDepth + 1 && PathBetween(g, p, origin, r.found.value))
  {
    WalkMarksOnce(g, failing, Deps(g, origin), [origin], 0);
    if FindUnhealthyDep(g, failing, origin).found.Some? {
      var p := WalkSound(g, failing, [origin], Deps(g, origin), [origin], 0);
    }
  }

  /** While the cap drops nothing, a dependency is reported exactly when there is a failing one,
      and what is reported is a root cause. */
  lemma ExactUnlessCut(g: Graph, failing: set<Ref>, origin: Ref)
    requires !FindUnhealthyDep(g, failing, origin).cut
    ensures var r := FindUnhealthyDep(g, failing, origin);
            && (r.found.Some? <==> HasFailingDep(g, failing, origin))
            && (r.found.Some? ==> RootCause(g, failing, r.found.value))
  {
    var deps := Deps(g, origin);
    var r := FindUnhealthyDep(g, failing, origin);
    WalkRootCause(g, failing, [origin], deps, [origin], 0);
    SuppressionSound(g, failing, origin);
    if r.found.None? {
      WalkSettles(g, failing, [origin], deps, [origin], 0);
      WalkMonotone(g, failing, deps, [origin], 0);
      assert origin in [origin];
      forall x, p | |p| >= 2 && PathBetween(g, p, origin, x) && x != origin ensures x !in failing {
        ClosedUnderPaths(g, r.visited, p);
      }
    }
  }

  /** If no simple chain from the origin is longer than 16 edges, suppression is exact. */
  lemma SuppressionExact(g: Graph, failing: set<Ref>, origin: Ref)
    requires ChainsWithinCap(g, origin)
    ensures var r := FindUnhealthyDep(g, failing, origin);
            && (r.found.Some? <==> HasFailingDep(g, failing, origin))
            && (r.found.Some? ==> RootCause(g, failing, r.found.value))
  {
    if FindUnhealthyDep(g, failing, origin).cut {
      var p := WalkCutHasChain(g, failing, [origin], Deps(g, origin), [origin], 0);
    }
    ExactUnlessCut(g, failing, origin);
  }

  /** No transitive dependency of `origin`, other than `origin` itself, lies on a cycle. */
  ghost predicate DepsOffCycles(g: Graph, origin: Ref) {
    forall r :: r != origin && DependsOn(g, origin, r) ==> !DependsOn(g, r, r)
  }

  /** Whatever fails, nothing fails below the dependency that is named. */
  ghost predicate AlwaysNamesRootCause(g: Graph, origin: Ref) {
    forall failing: set<Ref> ::
      var r := FindUnhealthyDep(g, failing, origin);
      r.found.Some? ==> NothingFailsBelow(g, failing, r.found.value)
  }

  /** Within the cap, the dependency named is a root cause for every possible set of failures if and
      only if none of the origin's transitive dependencies lies on a cycle. */
  lemma RootCauseIffOffCycles(g: Graph, origin: Ref)
    requires ChainsWithinCap(g, origin)
    ensures AlwaysNamesRootCause(g, origin) <==> DepsOffCycles(g, origin)
  {
    if DepsOffCycles(g, origin) {
      forall failing: set<Ref>
        ensures var r := FindUnhealthyDep(g, failing, origin);
                r.found.Some? ==> NothingFailsBelow(g, failing, r.found.value)
      {
        RootCauseWhenOffCycles(g, failing, origin);
      }
    }
    if AlwaysNamesRootCause(g, origin) {
      forall r | r != origin && DependsOn(g, origin, r) ensures !DependsOn(g, r, r) {
        SuppressionExact(g, {r}, origin);
        SuppressionSound(g, {r}, origin);
        assert HasFailingDep(g, {r}, origin);
        assert FindUnhealthyDep(g, {r}, origin).found == Some(r);
      }
    }
  }

  /** Within the cap and off cycles the reported CR is failing and nothing below it is. */
  lemma RootCauseWhenOffCycles(g: Graph, failing: set<Ref>, origin: Ref)
    requires DepsOffCycles(g, origin) && ChainsWithinCap(g, origin)
    ensures var r := FindUnhealthyDep(g, failing, origin);
            r.found.Some? ==> r.found.value in failing && NothingFailsBelow(g, failing, r.found.value)
  {
    SuppressionExact(g, failing, origin);
    SuppressionSound(g, failing, origin);
    var r := FindUnhealthyDep(g, failing, origin);
    if r.found.Some? {
      assert DependsOn(g, origin, r.found.value);
      RootCauseOffCycle(g, failing, r.found.value);
    }
  }

  /** Through a cycle the report can miss the root cause: `b` is named although its transitive
      dependency `c` is failing too and depends on nothing. */
  lemma CycleHidesRootCause(o: Ref, a: Ref, b: Ref, c: Ref)
    requires Simple([o, a, b, c])
    ensures var g := map[o := [a], a := [b, c], b := [a]];
            && FindUnhealthyDep(g, {b, c}, o).found == Some(b)
            && DependsOn(g, b, c)
            && Deps(g, c) == []
  {
    var g := map[o := [a], a := [b, c], b := [a]];
    var q := [o, a, b, c];
    assert q[0] != q[1] && q[0] != q[2] && q[0] != q[3] && q[1] != q[2] && q[1] != q[3] && q[2] != q[3];
    var empty: seq<Ref> := [];
    assert Walk(g, {b, c}, [a], [o, a, b], 2) == Walk(g, {b, c}, empty, [o, a, b], 2);
    assert [o, a] + [b] == [o, a, b] && [o] + [a] == [o, a];
    assert Walk(g, {b, c}, [b, c], [o, a], 1).found == Some(b);
    assert PathBetween(g, [b, a, c], b, c);
  }

  /** A chain in which each CR has exactly one dependency and the last has none. */
  ghost predicate Unbranched(g: Graph, p: seq<Ref>) {
    && |p| > 0
    && Simple(p)
    && (forall i | 0 <= i < |p| - 1 :: Deps(g, p[i]) == [p[i + 1]])
    && Deps(g, p[|p| - 1]) == []
  }

  /** When only the end of an unbranched chain fails, it is reported if and only if it is at most
      16 edges away: past that the walk fails open. */
  lemma CapIsExact(g: Graph, p: seq<Ref>)
    requires Unbranched(g, p) && |p| > 1
    ensures FindUnhealthyDep(g, {p[|p| - 1]}, p[0]).found.Some? <==> |p| - 1 <= 16
    ensures HasFailingDep(g, {p[|p| - 1]}, p[0])
  {
    WalkDownChain(g, p, 0);
    assert p[..1] == [p[0]];
    assert PathBetween(g, p, p[0], p[|p| - 1]);
  }

  lemma {:induction false} WalkDownChain(g: Graph, p: seq<Ref>, depth: nat)
    requires Unbranched(g, p) && depth < |p| - 1 && depth <= MaxDepth
    ensures Walk(g, {p[|p| - 1]}, Deps(g, p[depth]), p[..depth + 1], depth).found.Some? <==> |p| - 1 <= MaxDepth
    decreases MaxDepth - depth
  {
    if depth < MaxDepth {
      assert p[depth + 1] !in p[..depth + 1];
      assert p[..depth + 1] + [p[depth + 1]] == p[..depth + 2];
      var sub := Walk(g, {p[|p| - 1]}, Deps(g, p[depth + 1]), p[..depth + 2], depth + 1);
      if depth + 1 < |p| - 1 {
        WalkDownChain(g, p, depth + 1);
        assert p[depth + 1] != p[|p| - 1];
        if sub.found.None? {
          assert Walk(g, {p[|p| - 1]}, [], sub.visited, depth).found.None?;
        }
      }
    }
  }
}
