/** The admission walk and the suppression walk compared over the same graph. */
module WalkAgreement {
  import opened Common
  import opened DependencyGraph
  import opened Admission
  import opened Suppression

  /** Where admission accepts, the suppression walk loses nothing to its cap and, if it finds
      nothing, has marked the same CRs in the same order. */
  lemma {:induction false} WalksAgree(
    g: Graph, g': Graph, failing: set<Ref>, owner: Ref, deps: seq<Ref>, visited: seq<Ref>, depth: nat)
    requires forall r :: r != owner ==> Deps(g', r) == Deps(g, r)
    requires CycleVerdict(g, owner, deps, visited, depth).Accepted?
    ensures var r := Suppression.Walk(g', failing, deps, [owner] + visited, depth);
            && !r.cut
            && (r.found.None? ==> r.visited == [owner] + CycleVerdict(g, owner, deps, visited, depth).visited)
    decreases MaxDepth - depth, |deps|
  {
    if deps != [] {
      var d := deps[0];
      var marked := [owner] + visited + [d];
      assert marked == [owner] + (visited + [d]);
      if d in visited {
        WalksAgree(g, g', failing, owner, deps[1..], visited, depth);
      } else if d !in g {
        assert Suppression.Walk(g', failing, Deps(g', d), marked, depth + 1) == Outcome(None, marked, false);
        WalksAgree(g, g', failing, owner, deps[1..], visited + [d], depth);
      } else {
        WalksAgree(g, g', failing, owner, g[d], visited + [d], depth + 1);
        var sub := CycleVerdict(g, owner, g[d], visited + [d], depth + 1);
        WalksAgree(g, g', failing, owner, deps[1..], sub.visited, depth);
      }
    }
  }

  /** Over every run: right after a write is admitted, suppression of its owner is exact, and the
      dependency it names is failing while none of that dependency's own dependencies is. */
  lemma JustAdmittedIsExact(requests: seq<Request>, failing: set<Ref>)
    requires requests != []
    requires var w := requests[|requests| - 1];
             w.Write? && w.otherChecks && !w.owner.kind.Unknown? &&
             Admits(Run(requests[..|requests| - 1]), w.owner, w.deps)
    ensures var g, owner := Run(requests), requests[|requests| - 1].owner;
            var r := FindUnhealthyDep(g, failing, owner);
            && (r.found.Some? <==> HasFailingDep(g, failing, owner))
            && (r.found.Some? ==>
                  r.found.value in failing && NothingFailsBelow(g, failing, r.found.value))
  {
    var before := Run(requests[..|requests| - 1]);
    var w := requests[|requests| - 1];
    var g := Run(requests);
    assert [w.owner] + [] == [w.owner];
    if w.deps != [] {
      WalksAgree(before, g, failing, w.owner, w.deps, [], 0);
    }
    AlwaysAcyclic(requests);
    ExactUnlessCut(g, failing, w.owner);
    SuppressionSound(g, failing, w.owner);
    var r := FindUnhealthyDep(g, failing, w.owner);
    if r.found.Some? {
      RootCauseOffCycle(g, failing, r.found.value);
    }
  }
}
