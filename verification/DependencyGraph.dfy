/** The `spec.depends` graph of one namespace: references, stored edges and reachability.
    Edges to CRs that do not exist stay in the graph; such a node simply has no edges of its own. */
module DependencyGraph {
  import opened Common

  datatype Ref = Ref(kind: Kind, name: string)

  type Graph = map<Ref, seq<Ref>>

  /** The depth cap shared by the admission walk and the suppression walk. */
  const MaxDepth: nat := 16

  function Deps(g: Graph, r: Ref): seq<Ref> {
    if r in g then g[r] else []
  }

  ghost predicate IsPath(g: Graph, p: seq<Ref>) {
    && |p| > 0
    && forall i | 0 <= i < |p| - 1 :: p[i + 1] in Deps(g, p[i])
  }

  ghost predicate PathBetween(g: Graph, p: seq<Ref>, a: Ref, b: Ref) {
    IsPath(g, p) && p[0] == a && p[|p| - 1] == b
  }

  /** `b` can be reached from `a` over zero or more edges. */
  ghost predicate Reaches(g: Graph, a: Ref, b: Ref) {
    exists p :: PathBetween(g, p, a, b)
  }

  /** `b` is a transitive dependency of `a`: reached over one or more edges. */
  ghost predicate DependsOn(g: Graph, a: Ref, b: Ref) {
    exists p :: |p| >= 2 && PathBetween(g, p, a, b)
  }

  ghost predicate Acyclic(g: Graph) {
    forall r :: !DependsOn(g, r, r)
  }

  ghost predicate Simple(p: seq<Ref>) {
    forall i, j | 0 <= i < j < |p| :: p[i] != p[j]
  }

  /** A chain of `|p| - 1` edges that starts at `origin` and visits no node twice. */
  ghost predicate SimpleChain(g: Graph, p: seq<Ref>, origin: Ref) {
    IsPath(g, p) && Simple(p) && p[0] == origin
  }

  /** Joining two paths that share an endpoint. */
  lemma JoinPaths(g: Graph, p: seq<Ref>, q: seq<Ref>)
    requires IsPath(g, p) && IsPath(g, q) && p[|p| - 1] == q[0]
    ensures PathBetween(g, p + q[1..], p[0], q[|q| - 1])
  {}

  lemma PathSlice(g: Graph, p: seq<Ref>, lo: nat, hi: nat)
    requires IsPath(g, p) && lo < hi <= |p|
    ensures IsPath(g, p[lo..hi])
  {}

  /** A set of nodes that is closed under dependencies contains everything it reaches. */
  lemma {:induction false} ClosedUnderPaths(g: Graph, closed: seq<Ref>, p: seq<Ref>)
    requires forall b, s :: b in closed && s in Deps(g, b) ==> s in closed
    requires IsPath(g, p) && p[0] in closed
    ensures p[|p| - 1] in closed
  {
    if |p| > 1 {
      PathSlice(g, p, 0, |p| - 1);
      ClosedUnderPaths(g, closed, p[..|p| - 1]);
      assert p[|p| - 2 + 1] in Deps(g, p[|p| - 2]);
    }
  }

  /** Rewriting the edges of `owner` does not create new ways to get to `owner`. */
  lemma {:induction false} ReachOwnerUnchanged(g: Graph, owner: Ref, deps: seq<Ref>, p: seq<Ref>)
    requires IsPath(g[owner := deps], p) && p[|p| - 1] == owner
    ensures Reaches(g, p[0], owner)
  {
    if p[0] == owner {
      assert PathBetween(g, [owner], owner, owner);
    } else {
      PathSlice(g[owner := deps], p, 1, |p|);
      ReachOwnerUnchanged(g, owner, deps, p[1..]);
      var q :| PathBetween(g, q, p[1], owner);
      assert p[0 + 1] in Deps(g[owner := deps], p[0]);
      assert IsPath(g, [p[0], p[1]]);
      JoinPaths(g, [p[0], p[1]], q);
    }
  }

  /** A cycle through `owner` leads from one of its new dependencies back to it. */
  lemma CycleThroughOwner(g: Graph, owner: Ref, deps: seq<Ref>, p: seq<Ref>, i: nat)
    requires IsPath(g[owner := deps], p) && p[0] == p[|p| - 1] && i < |p| - 1 && p[i] == owner
    ensures p[i + 1] in deps && Reaches(g, p[i + 1], owner)
  {
    var g' := g[owner := deps];
    PathSlice(g', p, i + 1, |p|);
    PathSlice(g', p, 0, i + 1);
    JoinPaths(g', p[i + 1..], p[..i + 1]);
    ReachOwnerUnchanged(g, owner, deps, p[i + 1..] + p[..i + 1][1..]);
  }

  lemma NewCycleThroughOwner(g: Graph, owner: Ref, deps: seq<Ref>, r: Ref)
    requires DependsOn(g[owner := deps], r, r)
    ensures DependsOn(g, r, r) || exists d :: d in deps && Reaches(g, d, owner)
  {
    var g' := g[owner := deps];
    var p :| |p| >= 2 && PathBetween(g', p, r, r);
    if i :| 0 <= i < |p| - 1 && p[i] == owner {
      CycleThroughOwner(g, owner, deps, p, i);
    } else {
      forall i | 0 <= i < |p| - 1 ensures p[i + 1] in Deps(g, p[i]) {
        assert p[i + 1] in Deps(g', p[i]);
      }
      assert PathBetween(g, p, r, r);
    }
  }

  /** If no new dependency leads back to `owner`, writing them keeps the graph acyclic. */
  lemma WriteKeepsAcyclic(g: Graph, owner: Ref, deps: seq<Ref>)
    requires Acyclic(g)
    requires forall d :: d in deps ==> !Reaches(g, d, owner)
    ensures Acyclic(g[owner := deps])
  {
    var g' := g[owner := deps];
    forall r ensures !DependsOn(g', r, r) {
      if DependsOn(g', r, r) {
        NewCycleThroughOwner(g, owner, deps, r);
      }
    }
  }

  /** Dropping edges drops dependencies. */
  lemma FewerEdges(g: Graph, g': Graph, a: Ref, b: Ref)
    requires forall r, d :: d in Deps(g', r) ==> d in Deps(g, r)
    ensures DependsOn(g', a, b) ==> DependsOn(g, a, b)
  {}

  /** Removing a CR only removes edges. */
  lemma RemoveKeepsAcyclic(g: Graph, gone: Ref)
    requires Acyclic(g)
    ensures Acyclic(g - {gone})
  {
    forall r ensures !DependsOn(g - {gone}, r, r) {
      FewerEdges(g, g - {gone}, r, r);
    }
  }

  /** The Go map of visited references, shared by reference between the recursive calls. */
  class Visited {
    var keys: set<Ref>
    ghost var order: seq<Ref>

    constructor ()
      ensures Valid() && order == []
    {
      keys, order := {}, [];
    }

    ghost predicate Valid()
      reads this
    {
      keys == set r | r in order
    }

    method Mark(r: Ref)
      requires Valid() && r !in keys
      modifies this
      ensures Valid() && order == old(order) + [r]
    {
      keys := keys + {r};
      order := order + [r];
    }
  }
}
