/** What the suppression walk reports, read off the graph alone: the walk finishes the CRs below the
    origin in one fixed order, whatever fails, and names the first failing one of that order. */
module FinishOrder {
  import opened Common
  import opened DependencyGraph
  import opened Suppression

  datatype Scanned = Scanned(finished: seq<Ref>, visited: seq<Ref>)

  /** The walk without failures: which CRs it finishes, in that order, and which it has marked. */
  function Scan(g: Graph, deps: seq<Ref>, visited: seq<Ref>, depth: nat): Scanned
    decreases MaxDepth - depth, |deps|
  {
    if depth >= MaxDepth || deps == [] then
      Scanned([], visited)
    else if deps[0] in visited then
      Scan(g, deps[1..], visited, depth)
    else
      var sub := Scan(g, Deps(g, deps[0]), visited + [deps[0]], depth + 1);
      var rest := Scan(g, deps[1..], sub.visited, depth);
      Scanned(sub.finished + [deps[0]] + rest.finished, rest.visited)
  }

  /** The CRs a scrape of `origin` looks at, in the order it tests them. */
  function Finished(g: Graph, origin: Ref): seq<Ref> {
    Scan(g, Deps(g, origin), [origin], 0).finished
  }

  function FirstFailing(order: seq<Ref>, failing: set<Ref>): Option<Ref> {
    if order == [] then None
    else if order[0] in failing then Some(order[0])
    else FirstFailing(order[1..], failing)
  }

  lemma {:induction false} FirstFailingConcat(a: seq<Ref>, b: seq<Ref>, failing: set<Ref>)
    ensures FirstFailing(a + b, failing)
         == if FirstFailing(a, failing).Some? then FirstFailing(a, failing) else FirstFailing(b, failing)
  {
    if a == [] {
      assert a + b == b;
    } else {
      assert (a + b)[1..] == a[1..] + b;
      FirstFailingConcat(a[1..], b, failing);
    }
  }

  lemma {:induction false} FirstFailingAt(order: seq<Ref>, failing: set<Ref>)
    ensures match FirstFailing(order, failing)
            case None => forall x :: x in order ==> x !in failing
            case Some(f) =>
              exists i :: 0 <= i < |order| && order[i] == f && f in failing && forall x :: x in order[..i] ==> x !in failing
  {
    if order != [] && order[0] !in failing {
      FirstFailingAt(order[1..], failing);
      var rest := FirstFailing(order[1..], failing);
      if rest.Some? {
        var i :| 0 <= i < |order[1..]| && order[1..][i] == rest.value && rest.value in failing
                 && forall x :: x in order[1..][..i] ==> x !in failing;
        assert order[..i + 1] == [order[0]] + order[1..][..i];
        assert order[i + 1] == rest.value;
      }
    }
  }

  /** At every depth the walk names the first failing CR of the scan, and a fruitless walk leaves the
      marks of the scan. */
  lemma {:induction false} WalkNamesFirst(g: Graph, failing: set<Ref>, deps: seq<Ref>, visited: seq<Ref>, depth: nat)
    ensures var r, s := Walk(g, failing, deps, visited, depth), Scan(g, deps, visited, depth);
            && r.found == FirstFailing(s.finished, failing)
            && (r.found.None? ==> r.visited == s.visited)
    decreases MaxDepth - depth, |deps|
  {
    if depth < MaxDepth && deps != [] {
      var d := deps[0];
      if d in visited {
        WalkNamesFirst(g, failing, deps[1..], visited, depth);
      } else {
        WalkNamesFirst(g, failing, Deps(g, d), visited + [d], depth + 1);
        var sub := Scan(g, Deps(g, d), visited + [d], depth + 1);
        var rest := Scan(g, deps[1..], sub.visited, depth);
        WalkNamesFirst(g, failing, deps[1..], sub.visited, depth);
        FirstFailingConcat(sub.finished, [d], failing);
        FirstFailingConcat(sub.finished + [d], rest.finished, failing);
      }
    }
  }

  /** On every graph and for every set of failures: the report is the first failing CR in finish
      order. */
  lemma ReportIsFirstFinished(g: Graph, failing: set<Ref>, origin: Ref)
    ensures FindUnhealthyDep(g, failing, origin).found == FirstFailing(Finished(g, origin), failing)
  {
    WalkNamesFirst(g, failing, Deps(g, origin), [origin], 0);
  }

  lemma {:induction false} ScanMarks(g: Graph, deps: seq<Ref>, visited: seq<Ref>, depth: nat)
    ensures var s := Scan(g, deps, visited, depth);
            forall x :: x in s.visited <==> x in visited || x in s.finished
    decreases MaxDepth - depth, |deps|
  {
    if depth < MaxDepth && deps != [] {
      var d := deps[0];
      if d in visited {
        ScanMarks(g, deps[1..], visited, depth);
      } else {
        ScanMarks(g, Deps(g, d), visited + [d], depth + 1);
        var sub := Scan(g, Deps(g, d), visited + [d], depth + 1);
        ScanMarks(g, deps[1..], sub.visited, depth);
      }
    }
  }

  lemma ReportedIff(g: Graph, failing: set<Ref>, origin: Ref)
    ensures FindUnhealthyDep(g, failing, origin).found.Some? <==>
              exists x :: x in Finished(g, origin) && x in failing
  {
    ReportIsFirstFinished(g, failing, origin);
    FirstFailingAt(Finished(g, origin), failing);
  }

  /** Whatever fails, a dependency is reported exactly when one is failing. */
  ghost predicate AlwaysExact(g: Graph, origin: Ref) {
    forall failing: set<Ref> ::
      FindUnhealthyDep(g, failing, origin).found.Some? <==> HasFailingDep(g, failing, origin)
  }

  /** The scrape looks at every transitive dependency of the origin. */
  ghost predicate Complete(g: Graph, origin: Ref) {
    forall x :: x != origin && DependsOn(g, origin, x) ==> x in Finished(g, origin)
  }

  /** On every graph, past the cap too: suppression is exact for every set of failures if and only if
      the walk finishes every transitive dependency of the origin. */
  lemma ExactIffComplete(g: Graph, origin: Ref)
    ensures AlwaysExact(g, origin) <==> Complete(g, origin)
  {
    if Complete(g, origin) {
      forall failing: set<Ref>
        ensures FindUnhealthyDep(g, failing, origin).found.Some? <==> HasFailingDep(g, failing, origin)
      {
        ReportedIff(g, failing, origin);
        SuppressionSound(g, failing, origin);
      }
    }
    if AlwaysExact(g, origin) {
      forall x | x != origin && DependsOn(g, origin, x) ensures x in Finished(g, origin) {
        assert HasFailingDep(g, {x}, origin);
        ReportedIff(g, {x}, origin);
      }
    }
  }

  /** Chains within the cap are enough for that, and far from necessary. */
  lemma WithinCapIsComplete(g: Graph, origin: Ref)
    requires ChainsWithinCap(g, origin)
    ensures Complete(g, origin)
  {
    forall failing: set<Ref>
      ensures FindUnhealthyDep(g, failing, origin).found.Some? <==> HasFailingDep(g, failing, origin)
    {
      SuppressionExact(g, failing, origin);
    }
    ExactIffComplete(g, origin);
  }

  /** Every CR is finished after everything below it. */
  ghost predicate BottomUp(g: Graph, order: seq<Ref>) {
    forall i, x :: 0 <= i < |order| && DependsOn(g, order[i], x) ==> x in order[..i]
  }

  /** On every graph, past the cap too: whatever fails, nothing fails below the CR that is named, if
      and only if the finish order is bottom-up. */
  lemma RootCauseIffBottomUp(g: Graph, origin: Ref)
    ensures AlwaysNamesRootCause(g, origin) <==> BottomUp(g, Finished(g, origin))
  {
    var order := Finished(g, origin);
    if BottomUp(g, order) {
      forall failing: set<Ref>
        ensures var r := FindUnhealthyDep(g, failing, origin);
                r.found.Some? ==> NothingFailsBelow(g, failing, r.found.value)
      {
        ReportIsFirstFinished(g, failing, origin);
        FirstFailingAt(order, failing);
      }
    }
    if AlwaysNamesRootCause(g, origin) {
      forall i, x | 0 <= i < |order| && DependsOn(g, order[i], x) ensures x in order[..i] {
        NamedAbove(g, origin, i, x);
      }
    }
  }

  lemma NamedAbove(g: Graph, origin: Ref, i: nat, x: Ref)
    requires i < |Finished(g, origin)| && DependsOn(g, Finished(g, origin)[i], x)
    requires AlwaysNamesRootCause(g, origin)
    ensures x in Finished(g, origin)[..i]
  {
    var order := Finished(g, origin);
    var failing := {order[i], x};
    ReportIsFirstFinished(g, failing, origin);
    FirstFailingAt(order, failing);
    var f := FindUnhealthyDep(g, failing, origin).found;
    assert order[i] in order && order[i] in failing;
    assert NothingFailsBelow(g, failing, f.value);
    var j :| 0 <= j < |order| && order[j] == f.value && forall y :: y in order[..j] ==> y !in failing;
    assert j <= i by {
      assert forall k | 0 <= k < j :: order[k] in order[..j];
    }
    assert f.value == x && j != i;
    assert order[..i][j] == x;
  }

  // ----- the cap is not a distance

  /** A chain of 17 edges or more whose head also depends directly on its 16th follower. */
  ghost predicate Shortcut(g: Graph, p: seq<Ref>) {
    && |p| > MaxDepth + 1
    && Simple(p)
    && Deps(g, p[0]) == [p[1], p[MaxDepth]]
    && forall i | 0 < i <= MaxDepth :: Deps(g, p[i]) == [p[i + 1]]
  }

  lemma {:induction false} ScanDownChain(g: Graph, p: seq<Ref>, depth: nat)
    requires Shortcut(g, p) && 0 < depth <= MaxDepth
    ensures Scan(g, Deps(g, p[depth]), p[..depth + 1], depth).visited == p[..MaxDepth + 1]
    decreases MaxDepth - depth
  {
    if depth < MaxDepth {
      assert p[depth + 1] !in p[..depth + 1];
      assert p[..depth + 1] + [p[depth + 1]] == p[..depth + 2];
      ScanDownChain(g, p, depth + 1);
      assert [p[depth + 1]][1..] == [];
    }
  }

  /** A failing dependency two edges away goes unreported: the walk first meets its parent at the
      bottom of the chain, drops what is below it there, and skips it when it comes up again. */
  lemma ShortcutHidesFailure(g: Graph, p: seq<Ref>)
    requires Shortcut(g, p)
    ensures FindUnhealthyDep(g, {p[MaxDepth + 1]}, p[0]).found == None
    ensures PathBetween(g, [p[0], p[MaxDepth], p[MaxDepth + 1]], p[0], p[MaxDepth + 1])
    ensures !Complete(g, p[0])
  {
    var far := p[MaxDepth + 1];
    var q := [p[0], p[MaxDepth], far];
    assert PathBetween(g, q, p[0], far);
    assert p[..1] + [p[1]] == p[..2] && p[..1] == [p[0]];
    ScanDownChain(g, p, 1);
    var marks := p[..MaxDepth + 1];
    assert [p[1], p[MaxDepth]][1..] == [p[MaxDepth]];
    assert marks[MaxDepth] == p[MaxDepth];
    assert Scan(g, [p[MaxDepth]], marks, 0).visited == marks;
    ScanMarks(g, Deps(g, p[0]), [p[0]], 0);
    assert far !in marks;
    ReportedIff(g, {far}, p[0]);
    assert |q| >= 2 && DependsOn(g, p[0], far);
  }
}
