/** Which dependency graphs a cluster can come to hold: exactly the acyclic, well-formed ones. The
    depth cap of a single admission does not bound what a run of admissions builds. */
module AdmittedGraphs {
  import opened Common
  import opened DependencyGraph
  import opened Suppression
  import opened Admission
  import opened Names
  import opened FinishOrder

  // ----- admissions only ever store well-formed lists

  ghost predicate WellFormedDeps(deps: seq<Ref>) {
    && Simple(deps)
    && forall i | 0 <= i < |deps| :: !deps[i].kind.Unknown? && IsDNS1123Subdomain(deps[i].name)
  }

  ghost predicate WellFormed(g: Graph) {
    forall r :: r in g ==> !r.kind.Unknown? && WellFormedDeps(g[r])
  }

  lemma {:induction false} AlwaysWellFormed(requests: seq<Request>)
    ensures WellFormed(Run(requests))
  {
    if requests != [] {
      var before, last := requests[..|requests| - 1], requests[|requests| - 1];
      AlwaysWellFormed(before);
      assert last.Write? && Admits(Run(before), last.owner, last.deps) ==> WellFormedDeps(last.deps);
    }
  }

  // ----- dependencies on CRs that have none of their own are always admitted

  lemma {:induction false} LeavesAreAccepted(g: Graph, owner: Ref, deps: seq<Ref>, visited: seq<Ref>)
    requires forall i | 0 <= i < |deps| :: deps[i] != owner && deps[i] in g && g[deps[i]] == []
    ensures CycleVerdict(g, owner, deps, visited, 0).Accepted?
    decreases |deps|
  {
    if deps != [] {
      var d := deps[0];
      if d in visited {
        LeavesAreAccepted(g, owner, deps[1..], visited);
      } else {
        assert CycleVerdict(g, owner, g[d], visited + [d], 1) == Accepted(visited + [d]);
        LeavesAreAccepted(g, owner, deps[1..], visited + [d]);
      }
    }
  }

  lemma LeavesAreAdmitted(g: Graph, owner: Ref, deps: seq<Ref>)
    requires WellFormedDeps(deps)
    requires forall i | 0 <= i < |deps| :: deps[i] != owner && deps[i] in g && g[deps[i]] == []
    ensures Admits(g, owner, deps)
  {
    LeavesAreAccepted(g, owner, deps, []);
  }

  // ----- building a graph whose CRs come in an order with every dependency after its dependents

  ghost predicate TopDown(g: Graph, order: seq<Ref>) {
    && Simple(order)
    && forall i, j | 0 <= i <= j < |order| :: order[i] !in Deps(g, order[j])
  }

  lemma RunSnoc(requests: seq<Request>, r: Request)
    ensures Run(requests + [r]) == Next(Run(requests), r)
  {
    assert (requests + [r])[..|requests|] == requests;
  }

  lemma {:induction false} CreateAll(order: seq<Ref>) returns (requests: seq<Request>)
    requires forall r :: r in order ==> !r.kind.Unknown?
    ensures Run(requests) == map r | r in order :: []
  {
    requests := [];
    if order != [] {
      var k := |order| - 1;
      assert order == order[..k] + [order[k]];
      requests := CreateAll(order[..k]);
      RunSnoc(requests, Write(order[k], [], true));
      requests := requests + [Write(order[k], [], true)];
    }
  }

  /** With the first `k` CRs of the order given their dependencies and the others still without. */
  ghost function Linked(g: Graph, order: seq<Ref>, k: nat): Graph
    requires k <= |order|
  {
    map r | r in order :: if r in order[..k] then Deps(g, r) else []
  }

  lemma LinkedNext(g: Graph, order: seq<Ref>, k: nat)
    requires k < |order|
    ensures Linked(g, order, k + 1) == Linked(g, order, k)[order[k] := Deps(g, order[k])]
  {
    assert order[..k + 1] == order[..k] + [order[k]];
    assert order[k] in order;
  }

  lemma DepIsStillLeaf(g: Graph, order: seq<Ref>, k: nat, d: Ref)
    requires TopDown(g, order) && k < |order| && d in Deps(g, order[k]) && d in order
    ensures d != order[k] && d in Linked(g, order, k) && Linked(g, order, k)[d] == []
  {
    assert forall j | 0 <= j <= k :: order[j] != d;
    assert d !in order[..k];
  }

  lemma LinkOne(g: Graph, order: seq<Ref>, k: nat)
    requires WellFormed(g) && TopDown(g, order) && k < |order|
    requires forall d :: d in Deps(g, order[k]) ==> d in order
    ensures Admits(Linked(g, order, k), order[k], Deps(g, order[k]))
  {
    var deps := Deps(g, order[k]);
    assert WellFormedDeps(deps);
    forall i | 0 <= i < |deps|
      ensures deps[i] != order[k] && deps[i] in Linked(g, order, k) && Linked(g, order, k)[deps[i]] == []
    {
      DepIsStillLeaf(g, order, k, deps[i]);
    }
    LeavesAreAdmitted(Linked(g, order, k), order[k], deps);
  }

  lemma LinkOneMore(g: Graph, order: seq<Ref>, k: nat, before: seq<Request>) returns (requests: seq<Request>)
    requires WellFormed(g) && TopDown(g, order) && k < |order|
    requires !order[k].kind.Unknown? && forall d :: d in Deps(g, order[k]) ==> d in order
    requires Run(before) == Linked(g, order, k)
    ensures Run(requests) == Linked(g, order, k + 1)
  {
    LinkOne(g, order, k);
    LinkedNext(g, order, k);
    var link := Write(order[k], Deps(g, order[k]), true);
    RunSnoc(before, link);
    requests := before + [link];
  }

  lemma {:induction false} LinkAll(g: Graph, order: seq<Ref>, k: nat) returns (requests: seq<Request>)
    requires WellFormed(g) && TopDown(g, order) && k <= |order|
    requires forall r :: r in order ==> !r.kind.Unknown? && forall d :: d in Deps(g, r) ==> d in order
    ensures Run(requests) == Linked(g, order, k)
  {
    if k == 0 {
      requests := CreateAll(order);
    } else {
      var before := LinkAll(g, order, k - 1);
      requests := LinkOneMore(g, order, k - 1, before);
    }
  }

  lemma {:induction false} DeleteAll(before: seq<Request>, gone: seq<Ref>) returns (requests: seq<Request>)
    ensures Run(requests) == Run(before) - (set r | r in gone)
  {
    requests := before;
    if gone != [] {
      var k := |gone| - 1;
      assert gone == gone[..k] + [gone[k]];
      requests := DeleteAll(before, gone[..k]);
      RunSnoc(requests, Delete(gone[k]));
      requests := requests + [Delete(gone[k])];
    } else {
      assert Run(before) - {} == Run(before);
    }
  }

  function Missing(g: Graph, order: seq<Ref>): (m: seq<Ref>)
    ensures forall r :: r in m <==> r in order && r !in g
  {
    if order == [] then []
    else if order[0] in g then Missing(g, order[1..])
    else [order[0]] + Missing(g, order[1..])
  }

  /** Create every CR, missing ones too, write the dependencies from the top down, and delete the
      missing ones again: every write is admitted. */
  lemma BuildTopDown(g: Graph, order: seq<Ref>) returns (requests: seq<Request>)
    requires WellFormed(g) && TopDown(g, order)
    requires forall r :: r in order <==> r in Mentioned(g)
    ensures Run(requests) == g
  {
    forall r | r in order ensures !r.kind.Unknown? && forall d :: d in Deps(g, r) ==> d in order {
      MentionedIsClosed(g, r);
    }
    var linked := LinkAll(g, order, |order|);
    requests := DeleteAll(linked, Missing(g, order));
    MissingRemoved(g, order);
  }

  lemma MissingRemoved(g: Graph, order: seq<Ref>)
    requires forall r :: r in g ==> r in order
    ensures Linked(g, order, |order|) - (set r | r in Missing(g, order)) == g
  {
    assert order[..|order|] == order;
  }

  ghost function Mentioned(g: Graph): set<Ref> {
    g.Keys + set r, d | r in g && d in g[r] :: d
  }

  lemma MentionedIsClosed(g: Graph, r: Ref)
    requires WellFormed(g) && r in Mentioned(g)
    ensures !r.kind.Unknown? && forall d :: d in Deps(g, r) ==> d in Mentioned(g)
  {
    if r !in g {
      var o :| o in g && r in g[o];
      assert WellFormedDeps(g[o]);
    }
  }

  // ----- every acyclic graph has such an order

  lemma {:induction false} SimpleFits(p: seq<Ref>, s: set<Ref>)
    requires Simple(p) && forall r :: r in p ==> r in s
    ensures |p| <= |s|
  {
    if p != [] {
      var k := |p| - 1;
      assert p[k] in s && p[k] !in p[..k];
      SimpleFits(p[..k], s - {p[k]});
    }
  }

  lemma FrontIsNew(g: Graph, p: seq<Ref>, q: Ref)
    requires Acyclic(g) && IsPath(g, p) && Simple(p) && p[0] in Deps(g, q)
    ensures IsPath(g, [q] + p) && Simple([q] + p)
  {
    assert IsPath(g, [q, p[0]]);
    JoinPaths(g, [q, p[0]], p);
    assert [q, p[0]] + p[1..] == [q] + p;
    forall k | 0 <= k < |p| ensures p[k] != q {
      PathSlice(g, p, 0, k + 1);
      JoinPaths(g, [q, p[0]], p[..k + 1]);
      assert p[k] == q ==> DependsOn(g, q, q);
    }
  }

  /** Climbing from any path ends at a CR that nothing in `s` depends on. */
  lemma {:induction false} Climb(g: Graph, s: set<Ref>, p: seq<Ref>) returns (top: Ref)
    requires Acyclic(g) && IsPath(g, p) && Simple(p) && forall r :: r in p ==> r in s
    ensures top in s && forall r :: r in s ==> top !in Deps(g, r)
    decreases |s| - |p|
  {
    top := p[0];
    if q :| q in s && p[0] in Deps(g, q) {
      FrontIsNew(g, p, q);
      SimpleFits([q] + p, s);
      top := Climb(g, s, [q] + p);
    }
  }

  lemma {:induction false} TopDownOrder(g: Graph, s: set<Ref>) returns (order: seq<Ref>)
    requires Acyclic(g)
    ensures TopDown(g, order) && forall r :: r in order <==> r in s
  {
    order := [];
    if s != {} {
      var r :| r in s;
      var top := Climb(g, s, [r]);
      var rest := TopDownOrder(g, s - {top});
      order := [top] + rest;
      forall i, j | 0 <= i <= j < |order| ensures order[i] !in Deps(g, order[j]) {
        assert order[j] in order && order[j] in s;
        if i > 0 {
          assert order[i] == rest[i - 1] && order[j] == rest[j - 1];
        }
      }
    }
  }

  /** Some run of writes and deletes from the empty cluster ends in `g`. */
  ghost predicate Reachable(g: Graph) {
    exists requests :: Run(requests) == g
  }

  /** The graphs a cluster can come to hold, over every run of writes and deletes from empty: a graph
      is reachable if and only if it is acyclic and its lists are well-formed. */
  lemma ReachableIff(g: Graph)
    ensures Reachable(g) <==> Acyclic(g) && WellFormed(g)
  {
    if requests :| Run(requests) == g {
      AlwaysAcyclic(requests);
      AlwaysWellFormed(requests);
    }
    if Acyclic(g) && WellFormed(g) {
      var order := TopDownOrder(g, Mentioned(g));
      var requests := BuildTopDown(g, order);
    }
  }

  // ----- admitted graphs on which suppression fails open

  /** References that a cluster can hold: distinct, of a known kind, with a valid name. */
  ghost predicate Admissible(p: seq<Ref>) {
    && p != [] && Simple(p)
    && forall i | 0 <= i < |p| :: !p[i].kind.Unknown? && IsDNS1123Subdomain(p[i].name)
  }

  /** The chain through `p`, in which each CR depends on the next. */
  function Chain(p: seq<Ref>): Graph
    requires p != []
  {
    if |p| == 1 then map[p[0] := []] else Chain(p[1..])[p[0] := [p[1]]]
  }

  lemma {:induction false} ChainIsUnbranched(p: seq<Ref>)
    requires p != [] && Simple(p)
    ensures Unbranched(Chain(p), p) && Chain(p).Keys == set r | r in p
  {
    if |p| > 1 {
      ChainIsUnbranched(p[1..]);
      HeadKeepsUnbranched(Chain(p[1..]), p);
      assert p == [p[0]] + p[1..];
    }
  }

  lemma HeadKeepsUnbranched(g: Graph, p: seq<Ref>)
    requires |p| > 1 && Simple(p) && Unbranched(g, p[1..])
    ensures Unbranched(g[p[0] := [p[1]]], p)
  {
    var g' := g[p[0] := [p[1]]];
    forall i | 0 <= i < |p| - 1 ensures Deps(g', p[i]) == [p[i + 1]] {
      if i > 0 {
        assert Deps(g, p[1..][i - 1]) == [p[1..][i]];
      }
    }
    assert p[1..][|p| - 2] == p[|p| - 1];
  }

  /** A graph over `p` whose CRs depend only on later ones of `p` is the outcome of some run. */
  lemma DownwardIsReachable(g: Graph, p: seq<Ref>)
    requires Admissible(p) && g.Keys == (set r | r in p)
    requires forall i, d :: 0 <= i < |p| && d in Deps(g, p[i]) ==> d in p[i + 1..]
    requires forall i | 0 <= i < |p| :: Simple(Deps(g, p[i]))
    ensures Reachable(g)
  {
    forall i, j | 0 <= i <= j < |p| ensures p[i] !in Deps(g, p[j]) {
      assert forall k | j + 1 <= k < |p| :: p[k] != p[i];
    }
    forall r | r in g ensures !r.kind.Unknown? && WellFormedDeps(g[r]) {
      var i :| 0 <= i < |p| && p[i] == r;
      forall k | 0 <= k < |g[r]| ensures !g[r][k].kind.Unknown? && IsDNS1123Subdomain(g[r][k].name) {
        assert g[r][k] in Deps(g, p[i]);
      }
    }
    forall r, d | r in g && d in g[r] ensures d in p {
      var i :| 0 <= i < |p| && p[i] == r;
      assert d in Deps(g, p[i]);
    }
    var requests := BuildTopDown(g, p);
  }

  /** Through any list of references a cluster can hold there is an admitted chain, and the failure of
      its end is reported at its head if and only if the chain has at most 16 edges. */
  lemma AdmittedChainFailsOpen(p: seq<Ref>)
    requires Admissible(p) && |p| > 1
    ensures var g, failing := Chain(p), {p[|p| - 1]};
            && Reachable(g)
            && HasFailingDep(g, failing, p[0])
            && (FindUnhealthyDep(g, failing, p[0]).found.Some? <==> |p| - 1 <= 16)
  {
    ChainIsUnbranched(p);
    var g := Chain(p);
    forall i | 0 <= i < |p| ensures Simple(Deps(g, p[i])) && forall d :: d in Deps(g, p[i]) ==> d in p[i + 1..] {
      if i < |p| - 1 {
        assert Deps(g, p[i]) == [p[i + 1]] && p[i + 1..][0] == p[i + 1];
      }
    }
    DownwardIsReachable(g, p);
    CapIsExact(g, p);
  }

  lemma ShortcutGraph(p: seq<Ref>)
    requires Simple(p) && |p| > MaxDepth + 1
    ensures var g := Chain(p)[p[0] := [p[1], p[MaxDepth]]];
            && Shortcut(g, p) && g.Keys == (set r | r in p)
            && forall i | 0 <= i < |p| :: Simple(Deps(g, p[i])) && forall d :: d in Deps(g, p[i]) ==> d in p[i + 1..]
  {
    ChainIsUnbranched(p);
    var g := Chain(p)[p[0] := [p[1], p[MaxDepth]]];
    forall i | 0 <= i < |p| ensures Simple(Deps(g, p[i])) && forall d :: d in Deps(g, p[i]) ==> d in p[i + 1..] {
      if i == 0 {
        assert p[1..][0] == p[1] && p[1..][MaxDepth - 1] == p[MaxDepth];
      } else if i < |p| - 1 {
        assert Deps(g, p[i]) == [p[i + 1]] && p[i + 1..][0] == p[i + 1];
      }
    }
  }

  /** Through any 18 references or more there is an admitted graph on which a failure two edges from
      the head goes unreported. */
  lemma AdmittedShortcutFailsOpen(p: seq<Ref>)
    requires Admissible(p) && |p| > MaxDepth + 1
    ensures var g, failing := Chain(p)[p[0] := [p[1], p[MaxDepth]]], {p[MaxDepth + 1]};
            && Reachable(g)
            && PathBetween(g, [p[0], p[MaxDepth], p[MaxDepth + 1]], p[0], p[MaxDepth + 1])
            && HasFailingDep(g, failing, p[0])
            && FindUnhealthyDep(g, failing, p[0]).found == None
  {
    var g := Chain(p)[p[0] := [p[1], p[MaxDepth]]];
    ShortcutGraph(p);
    DownwardIsReachable(g, p);
    ShortcutHidesFailure(g, p);
    assert DependsOn(g, p[0], p[MaxDepth + 1]);
  }
}
