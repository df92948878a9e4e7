/** From listed Heartbeats to a receiver that resolves every token: the publish loop, the
    handshake and the token index together. */
module ColdStart {
  import opened Common
  import Handshake
  import opened TokenIndex

  /** A listed Heartbeat: whether it is being deleted, and its token if that can be resolved. */
  datatype Item = Item(name: Name, deleting: bool, token: Option<string>)

  predicate Broadcastable(item: Item) {
    !item.deleting && item.token.Some?
  }

  /** The listed Heartbeats a resync speaks for, in list order. */
  function Order(items: seq<Item>): seq<Name> {
    if items == [] then []
    else
      var before, last := Order(items[..|items| - 1]), items[|items| - 1];
      if Broadcastable(last) then before + [last.name] else before
  }

  function LiveTokens(items: seq<Item>): map<Name, string> {
    if items == [] then map[]
    else
      var before, last := LiveTokens(items[..|items| - 1]), items[|items| - 1];
      if Broadcastable(last) then before[last.name := last.token.value] else before
  }

  ghost predicate DistinctNames(items: seq<Item>) {
    forall i, j | 0 <= i < j < |items| :: items[i].name != items[j].name
  }

  lemma {:induction false} OrderIsRound(items: seq<Item>)
    requires DistinctNames(items)
    ensures Round(LiveTokens(items), Order(items))
    ensures forall n :: n in Order(items) ==> exists i :: 0 <= i < |items| && items[i].name == n
  {
    if items != [] {
      OrderIsRound(items[..|items| - 1]);
    }
  }

  /** Read off the list: a Heartbeat is spoken for, with its token, exactly when it is listed with
      that token and not being deleted. */
  lemma {:induction false} LiveTokensIff(items: seq<Item>, n: Name, t: string)
    requires DistinctNames(items)
    ensures n in LiveTokens(items) && LiveTokens(items)[n] == t <==> Item(n, false, Some(t)) in items
  {
    if items != [] {
      var k := |items| - 1;
      assert items == items[..k] + [items[k]];
      LiveTokensIff(items[..k], n, t);
      assert items[k].name == n ==> Item(n, false, Some(t)) !in items[..k];
    }
  }

  lemma PublishedIff(items: seq<Item>, n: Name, t: string)
    requires DistinctNames(items) && Round(LiveTokens(items), Order(items))
    ensures Spec(n, false, Some(t)) in Broadcast(LiveTokens(items), Order(items)) <==> Item(n, false, Some(t)) in items
  {
    var live, order := LiveTokens(items), Order(items);
    LiveTokensIff(items, n, t);
    if n in live && live[n] == t {
      var i :| 0 <= i < |order| && order[i] == n;
      assert Broadcast(live, order)[i] == Spec(n, false, Some(t));
    }
  }

  method ResyncHeartbeats(items: seq<Item>) returns (published: seq<Spec>)
    requires DistinctNames(items)
    ensures Round(LiveTokens(items), Order(items))
    ensures published == Broadcast(LiveTokens(items), Order(items))
    ensures forall n, t :: Spec(n, false, Some(t)) in published <==> Item(n, false, Some(t)) in items
  {
    published := [];
    OrderIsRound([]);
    for i := 0 to |items|
      invariant Round(LiveTokens(items[..i]), Order(items[..i]))
      invariant published == Broadcast(LiveTokens(items[..i]), Order(items[..i]))
    {
      var item := items[i];
      assert items[..i + 1][..i] == items[..i];
      OrderIsRound(items[..i]);
      OrderIsRound(items[..i + 1]);
      if item.deleting {
        continue;
      }
      if item.token.None? {
        continue;
      }
      assert item.name !in Order(items[..i]);
      published := published + [Spec(item.name, false, Some(item.token.value))];
    }
    assert items[..|items|] == items;
    forall n, t ensures Spec(n, false, Some(t)) in published <==> Item(n, false, Some(t)) in items {
      PublishedIff(items, n, t);
    }
  }

  /** Whatever the index holds, two resyncs that see the same live Heartbeats with distinct tokens,
      listed in any two orders, make every live token resolve to its owner. */
  lemma TwoResyncsHeal(x: Index, first: seq<Item>, second: seq<Item>)
    requires DistinctNames(first) && DistinctNames(second)
    requires LiveTokens(first) == LiveTokens(second) && Distinct(LiveTokens(first))
    ensures Round(LiveTokens(first), Order(first)) && Round(LiveTokens(second), Order(second))
    ensures AllResolve(Run(Run(x, Broadcast(LiveTokens(first), Order(first))),
                           Broadcast(LiveTokens(second), Order(second))),
                       LiveTokens(first))
  {
    OrderIsRound(first);
    OrderIsRound(second);
    TwoRoundsHeal(x, LiveTokens(first), Order(first), Order(second));
  }

  /** Over every interleaving: once things are quiet, every receiver that has requested resolves
      every live token to its owner. */
  lemma ReceiversResolveEverything(
    live: map<Name, string>, n: nat, run: seq<Handshake.Action<Name>>, s: Handshake.State<Name>, i: nat)
    requires Distinct(live)
    requires Handshake.After(live.Keys, n, run) == Some(s) && Handshake.Quiescent(s) && s.listening
    requires i < |s.consumers| == n && s.consumers[i].requested
    ensures forall m :: m in s.consumers[i].received ==> m in live
    ensures AllResolve(Run(EmptyIndex, Broadcast(live, s.consumers[i].received)), live)
  {
    Handshake.QuiescentHoldsAll(live.Keys, n, run, s, i);
    OneRoundFromEmpty(live, s.consumers[i].received);
  }
}

/** From the cluster's specs to a metrics consumer that suppresses as the cluster's own graph says:
    the handshake, the store and the suppression walk together. */
module MetricsColdStart {
  import opened Common
  import opened DependencyGraph
  import opened MetricsStore
  import opened StoreStream
  import Handshake
  import Suppression

  /** What a broadcast carries: one live spec for each CR. */
  ghost predicate LiveSpecs(live: set<SpecUpdate>) {
    && (forall spec :: spec in live ==> !spec.deleted)
    && forall a, b :: a in live && b in live && a.key == b.key ==> a == b
  }

  /** The specs of a message history, in order. */
  function SpecsOf(ms: seq<Message>): seq<SpecUpdate> {
    if ms == [] then []
    else
      var before, m := SpecsOf(ms[..|ms| - 1]), ms[|ms| - 1];
      if m.SpecMsg? then before + [m.spec] else before
  }

  lemma {:induction false} CurrentSpecWasSent(ms: seq<Message>, k: Key)
    requires forall spec :: spec in SpecsOf(ms) ==> !spec.deleted
    ensures match CurrentSpec(ms, k)
            case None => forall spec :: spec in SpecsOf(ms) ==> spec.key != k
            case Some(spec) => spec in SpecsOf(ms) && spec.key == k
  {
    if ms != [] {
      assert forall spec :: spec in SpecsOf(ms[..|ms| - 1]) ==> spec in SpecsOf(ms);
      CurrentSpecWasSent(ms[..|ms| - 1], k);
    }
  }

  /** However the specs a consumer received are interleaved with pings and results: its store has the
      dependency list, labels and contract of every live CR, and lists for no other. */
  lemma StoreHoldsLiveSpecs(live: set<SpecUpdate>, ms: seq<Message>)
    requires LiveSpecs(live) && forall spec :: spec in SpecsOf(ms) <==> spec in live
    ensures var c := Run(Empty, ms);
            && (forall spec :: spec in live ==> Reflects(c, spec))
            && forall k :: (forall spec :: spec in live ==> spec.key != k) ==>
                 Find(c.depends, k) == None && Find(c.labels, k) == None
  {
    forall spec | spec in live ensures Reflects(Run(Empty, ms), spec) {
      CurrentSpecWasSent(ms, spec.key);
      CurrentSpecIsReflected(Empty, ms, spec.key);
    }
    forall k | forall spec :: spec in live ==> spec.key != k
      ensures Find(Run(Empty, ms).depends, k) == None && Find(Run(Empty, ms).labels, k) == None
    {
      CurrentSpecWasSent(ms, k);
      SpecsAreHistory(ms, k);
    }
  }

  /** `live` speaks for exactly the CRs of the graph `g` in one namespace. */
  ghost predicate Publishes(live: set<SpecUpdate>, ns: string, g: Graph) {
    && (forall spec :: spec in live && spec.key.ns == ns ==>
          var r := Ref(spec.key.kind, spec.key.name); r in g && g[r] == spec.depends)
    && forall r :: r in g ==> exists spec :: spec in live && spec.key == Key(r.kind, ns, r.name)
  }

  lemma StoreGraphIsCluster(live: set<SpecUpdate>, ms: seq<Message>, ns: string, g: Graph, r: Ref)
    requires LiveSpecs(live) && (forall spec :: spec in SpecsOf(ms) <==> spec in live) && Publishes(live, ns, g)
    ensures Deps(GraphOf(Run(Empty, ms), ns), r) == Deps(g, r)
  {
    var k := Key(r.kind, ns, r.name);
    StoreHoldsLiveSpecs(live, ms);
    ScrapeView(Run(Empty, ms), ns, 0, r);
    if spec :| spec in live && spec.key == k {
      assert Reflects(Run(Empty, ms), spec);
    } else {
      assert r !in g && Find(Run(Empty, ms).depends, k) == None;
    }
  }

  /** Over every interleaving of the handshake, and of the specs with pings and results: once things
      are quiet, a consumer that has requested has every live contract in its store, and suppresses
      in every namespace as the cluster's own graph says. */
  lemma ConsumersSuppressAsCluster(
    live: set<SpecUpdate>, n: nat, run: seq<Handshake.Action<SpecUpdate>>, s: Handshake.State<SpecUpdate>, i: nat,
    ms: seq<Message>, ns: string, g: Graph, failing: set<Ref>, origin: Ref)
    requires LiveSpecs(live) && Publishes(live, ns, g)
    requires Handshake.After(live, n, run) == Some(s) && Handshake.Quiescent(s) && s.listening
    requires i < |s.consumers| == n && s.consumers[i].requested && SpecsOf(ms) == s.consumers[i].received
    ensures forall spec :: spec in live ==> Reflects(Run(Empty, ms), spec)
    ensures Suppression.FindUnhealthyDep(GraphOf(Run(Empty, ms), ns), failing, origin)
         == Suppression.FindUnhealthyDep(g, failing, origin)
  {
    Handshake.QuiescentHoldsAll(live, n, run, s, i);
    StoreHoldsLiveSpecs(live, ms);
    var g' := GraphOf(Run(Empty, ms), ns);
    forall r ensures Deps(g', r) == Deps(g, r) {
      StoreGraphIsCluster(live, ms, ns, g, r);
    }
    Suppression.WalkSeesDeps(g', g, failing, Deps(g, origin), [origin], 0);
  }
}
