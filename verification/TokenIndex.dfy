/** The heartbeat receiver's token index: two maps rebuilt from the spec stream alone. */
module TokenIndex {
  import opened Common

  /** A Heartbeat spec as the receiver sees it; the token is absent on a tombstone, on a spec
      without a payload and on an empty token alike. */
  datatype Spec = Spec(name: Name, deleted: bool, token: Option<string>)

  datatype Index = Index(identities: map<string, Name>, tokens: map<Name, string>)

  const EmptyIndex: Index := Index(map[], map[])

  function LiveToken(spec: Spec): Option<string> {
    if spec.deleted || spec.token.None? || spec.token.value == "" then None else spec.token
  }

  function Apply(x: Index, spec: Spec): Index {
    var n, t := spec.name, LiveToken(spec);
    var y := if n in x.tokens then Index(x.identities - {x.tokens[n]}, x.tokens - {n}) else x;
    if t.None? then y else Index(y.identities[t.value := n], y.tokens[n := t.value])
  }

  class Receiver {
    var identities: map<string, Name>
    var tokens: map<Name, string>
    var warm: bool

    ghost function View(): Index
      reads this
    {
      Index(identities, tokens)
    }

    constructor ()
      ensures View() == EmptyIndex && !warm
    {
      identities, tokens, warm := map[], map[], false;
    }

    method MarkWarm()
      modifies this
      ensures warm && View() == old(View())
    {
      warm := true;
    }

    method OnSpec(kind: Kind, spec: Spec)
      modifies this
      ensures kind != Heartbeat ==> View() == old(View()) && warm == old(warm)
      ensures kind == Heartbeat ==> View() == Apply(old(View()), spec) && warm
    {
      if kind != Heartbeat {
        return;
      }
      warm := true;
      if spec.name in tokens {
        var previous := tokens[spec.name];
        identities := identities - {previous};
        tokens := tokens - {spec.name};
      }
      if spec.deleted || spec.token.None? || spec.token.value == "" {
        return;
      }
      identities := identities[spec.token.value := spec.name];
      tokens := tokens[spec.name := spec.token.value];
    }

    method Lookup(token: string) returns (name: Option<Name>)
      ensures name == Resolve(View(), token)
    {
      if token in identities {
        return Some(identities[token]);
      }
      return None;
    }
  }

  function Resolve(x: Index, token: string): Option<Name> {
    if token in x.identities then Some(x.identities[token]) else None
  }

  function Run(x: Index, specs: seq<Spec>): Index {
    if specs == [] then x else Apply(Run(x, specs[..|specs| - 1]), specs[|specs| - 1])
  }

  /** The token carried by the latest spec of `n`, if that spec is live. */
  function LatestToken(specs: seq<Spec>, n: Name): Option<string> {
    if specs == [] then None
    else if specs[|specs| - 1].name == n then LiveToken(specs[|specs| - 1])
    else LatestToken(specs[..|specs| - 1], n)
  }

  /** Spec `i` is the latest of `n`, it is live, and its token is `t`. */
  ghost predicate Carries(specs: seq<Spec>, n: Name, t: string, i: int) {
    && 0 <= i < |specs| && specs[i] == Spec(n, false, Some(t)) && t != ""
    && forall j | i < j < |specs| :: specs[j].name != n
  }

  lemma {:induction false} LatestTokenIff(specs: seq<Spec>, n: Name, t: string)
    ensures LatestToken(specs, n) == Some(t) <==> exists i :: Carries(specs, n, t, i)
  {
    if specs != [] {
      var k := |specs| - 1;
      var before := specs[..k];
      assert forall j | 0 <= j < k :: before[j] == specs[j];
      if specs[k].name == n {
        assert Carries(specs, n, t, k) <==> LiveToken(specs[k]) == Some(t);
        assert forall i :: Carries(specs, n, t, i) ==> i == k;
      } else {
        LatestTokenIff(before, n, t);
        assert forall i :: Carries(specs, n, t, i) <==> Carries(before, n, t, i);
      }
    }
  }

  /** Over every spec sequence: a token that resolves belongs to a Heartbeat whose latest spec is
      live and carries exactly that token. */
  lemma {:induction false} ResolvedIsCurrent(specs: seq<Spec>, token: string)
    ensures var x := Run(EmptyIndex, specs);
            && (Resolve(x, token).Some? ==> LatestToken(specs, Resolve(x, token).value) == Some(token))
            && forall n :: LatestToken(specs, n) == if n in x.tokens then Some(x.tokens[n]) else None
  {
    if specs != [] {
      ResolvedIsCurrent(specs[..|specs| - 1], token);
    }
  }

  /** Since the latest spec of `n`, the token was taken over: a spec of another Heartbeat carries it,
      or comes from a Heartbeat whose latest token until then was it. */
  predicate Taken(specs: seq<Spec>, n: Name, token: string) {
    specs != [] &&
    var before, last := specs[..|specs| - 1], specs[|specs| - 1];
    last.name != n &&
    (|| Taken(before, n, token)
     || LiveToken(last) == Some(token)
     || LatestToken(before, last.name) == Some(token))
  }

  /** Over every spec sequence, shared tokens included: a token resolves to `n` if and only if it is
      the latest token of `n` and has not been taken over since. */
  lemma {:induction false} ResolvesIff(specs: seq<Spec>, n: Name, token: string)
    ensures Resolve(Run(EmptyIndex, specs), token) == Some(n) <==>
              LatestToken(specs, n) == Some(token) && !Taken(specs, n, token)
  {
    if specs != [] {
      ResolvesIff(specs[..|specs| - 1], n, token);
      ResolvedIsCurrent(specs[..|specs| - 1], token);
    }
  }

  /** No token is ever used by two Heartbeats. */
  ghost predicate Unshared(specs: seq<Spec>) {
    forall a, b :: a in specs && b in specs && LiveToken(a).Some? && LiveToken(a) == LiveToken(b) ==> a.name == b.name
  }

  lemma {:induction false} LatestTokenWasSent(specs: seq<Spec>, n: Name) returns (s: Spec)
    requires LatestToken(specs, n).Some?
    ensures s in specs && s.name == n && LiveToken(s) == LatestToken(specs, n)
  {
    s := specs[|specs| - 1];
    if s.name != n {
      s := LatestTokenWasSent(specs[..|specs| - 1], n);
    }
  }

  lemma {:induction false} UnsharedIsNotTaken(specs: seq<Spec>, n: Name, token: string)
    requires Unshared(specs) && LatestToken(specs, n) == Some(token)
    ensures !Taken(specs, n, token)
  {
    var before, last := specs[..|specs| - 1], specs[|specs| - 1];
    if last.name != n {
      UnsharedIsNotTaken(before, n, token);
      var s := LatestTokenWasSent(before, n);
      assert s in specs;
      if LatestToken(before, last.name).Some? {
        var t := LatestTokenWasSent(before, last.name);
        assert t in specs;
      }
    }
  }

  /** If tokens are never shared, the index is the last-message map. */
  lemma UnsharedResolves(specs: seq<Spec>, n: Name, token: string)
    requires Unshared(specs)
    ensures Resolve(Run(EmptyIndex, specs), token) == Some(n) <==> LatestToken(specs, n) == Some(token)
  {
    ResolvesIff(specs, n, token);
    if LatestToken(specs, n) == Some(token) {
      UnsharedIsNotTaken(specs, n, token);
    }
  }

  /** With a shared token the converse fails: `b` holds a live token that no longer resolves. */
  lemma SharedTokenEvicted(a: Name, b: Name, t: string, u: string)
    requires a != b && t != u && t != "" && u != ""
    ensures var specs := [Spec(a, false, Some(t)), Spec(b, false, Some(t)), Spec(a, false, Some(u))];
            LatestToken(specs, b) == Some(t) && Resolve(Run(EmptyIndex, specs), t) == None
  {
    var s1, s2, s3 := Spec(a, false, Some(t)), Spec(b, false, Some(t)), Spec(a, false, Some(u));
    assert [s1, s2, s3][..2] == [s1, s2] && [s1, s2][..1] == [s1] && [s1][..0] == [];
    assert Run(EmptyIndex, [s1]) == Index(map[t := a], map[a := t]);
    assert Run(EmptyIndex, [s1, s2]) == Index(map[t := b], map[a := t, b := t]);
  }

  // ----- healing by re-broadcast

  /** The live Heartbeats of a cluster and their tokens. */
  ghost predicate Distinct(live: map<Name, string>) {
    && (forall n :: n in live ==> live[n] != "")
    && forall m, n :: m in live && n in live && live[m] == live[n] ==> m == n
  }

  /** Re-broadcasting the named Heartbeats, in that order. */
  function Broadcast(live: map<Name, string>, order: seq<Name>): seq<Spec>
    requires forall n :: n in order ==> n in live
  {
    seq(|order|, i requires 0 <= i < |order| => Spec(order[i], false, Some(live[order[i]])))
  }

  /** A full round: every live Heartbeat at least once, in any order. */
  ghost predicate Round(live: map<Name, string>, order: seq<Name>) {
    forall n :: n in order <==> n in live
  }

  ghost predicate AllResolve(x: Index, live: map<Name, string>) {
    forall n :: n in live ==> Resolve(x, live[n]) == Some(n)
  }

  lemma BroadcastSnoc(x: Index, live: map<Name, string>, order: seq<Name>)
    requires order != [] && forall n :: n in order ==> n in live
    ensures var k := |order| - 1;
            && (forall n :: n in order[..k] ==> n in live)
            && Run(x, Broadcast(live, order))
            == Apply(Run(x, Broadcast(live, order[..k])), Spec(order[k], false, Some(live[order[k]])))
  {
    var k := |order| - 1;
    assert Broadcast(live, order)[..k] == Broadcast(live, order[..k]);
  }

  /** A Heartbeat broadcast at all has its own entry corrected; the others keep theirs. */
  lemma {:induction false} BroadcastTokens(x: Index, live: map<Name, string>, order: seq<Name>)
    requires forall n :: n in order ==> n in live
    requires forall n :: n in live ==> live[n] != ""
    ensures var y := Run(x, Broadcast(live, order));
            forall n :: if n in order then n in y.tokens && y.tokens[n] == live[n]
                        else n in y.tokens <==> n in x.tokens
    ensures var y := Run(x, Broadcast(live, order));
            forall n :: n !in order && n in x.tokens ==> y.tokens[n] == x.tokens[n]
  {
    if order != [] {
      var k := |order| - 1;
      BroadcastSnoc(x, live, order);
      BroadcastTokens(x, live, order[..k]);
      assert order == order[..k] + [order[k]];
    }
  }

  /** What `n` held in `x` is the token of another live Heartbeat `m`. */
  predicate Holds(x: Index, n: Name, live: map<Name, string>, m: Name) {
    m in live && n != m && n in x.tokens && x.tokens[n] == live[m]
  }

  /** `m`'s token is evicted after `m` was last broadcast, by the first broadcast of a Heartbeat
      that held it when the round began. */
  predicate Evicted(x: Index, live: map<Name, string>, order: seq<Name>, m: Name) {
    order != [] &&
    var before, last := order[..|order| - 1], order[|order| - 1];
    last != m && (Evicted(x, live, before, m) || (m in before && last !in before && Holds(x, last, live, m)))
  }

  lemma {:induction false} BroadcastResolves(x: Index, live: map<Name, string>, order: seq<Name>, m: Name)
    requires Distinct(live) && (forall n :: n in order ==> n in live) && m in order
    ensures Resolve(Run(x, Broadcast(live, order)), live[m]) == if Evicted(x, live, order, m) then None else Some(m)
  {
    var k := |order| - 1;
    assert order == order[..k] + [order[k]];
    BroadcastSnoc(x, live, order);
    if order[k] != m {
      BroadcastTokens(x, live, order[..k]);
      BroadcastResolves(x, live, order[..k], m);
    }
  }

  lemma {:induction false} NobodyHoldsNobodyEvicts(x: Index, live: map<Name, string>, order: seq<Name>, m: Name)
    requires forall n :: n in order ==> !Holds(x, n, live, m)
    ensures !Evicted(x, live, order, m)
  {
    if order != [] {
      NobodyHoldsNobodyEvicts(x, live, order[..|order| - 1], m);
    }
  }

  lemma {:induction false} EvictedByLaterHolder(x: Index, live: map<Name, string>, order: seq<Name>, i: nat)
    requires i < |order| && forall a, b | 0 <= a < b < |order| :: order[a] != order[b]
    ensures Evicted(x, live, order, order[i]) <==> exists k | i < k < |order| :: Holds(x, order[k], live, order[i])
  {
    var k := |order| - 1;
    var before := order[..k];
    if i < k {
      EvictedByLaterHolder(x, live, before, i);
      assert before[i] == order[i] && order[k] !in before;
      assert forall j | i < j < k :: before[j] == order[j];
    }
  }

  /** From any index state whatsoever, one round that names every live Heartbeat once leaves every
      live token resolving to its owner if and only if no Heartbeat held, before the round, the
      token of one broadcast ahead of it. */
  lemma OneRoundHealsIff(x: Index, live: map<Name, string>, order: seq<Name>)
    requires Distinct(live) && Round(live, order)
    requires forall a, b | 0 <= a < b < |order| :: order[a] != order[b]
    ensures AllResolve(Run(x, Broadcast(live, order)), live) <==>
              forall i, k | 0 <= i < k < |order| :: !Holds(x, order[k], live, order[i])
  {
    var y := Run(x, Broadcast(live, order));
    forall i | 0 <= i < |order|
      ensures Resolve(y, live[order[i]]) == Some(order[i]) <==>
                !exists k | i < k < |order| :: Holds(x, order[k], live, order[i])
    {
      BroadcastResolves(x, live, order, order[i]);
      EvictedByLaterHolder(x, live, order, i);
    }
    if AllResolve(y, live) {
      assert forall i | 0 <= i < |order| :: Resolve(y, live[order[i]]) == Some(order[i]);
    }
  }

  /** A round heals when no live Heartbeat holds another's token. */
  lemma RoundHeals(x: Index, live: map<Name, string>, order: seq<Name>)
    requires Distinct(live) && Round(live, order)
    requires forall m, n :: n in live ==> !Holds(x, n, live, m)
    ensures AllResolve(Run(x, Broadcast(live, order)), live)
  {
    forall m | m in live ensures Resolve(Run(x, Broadcast(live, order)), live[m]) == Some(m) {
      BroadcastResolves(x, live, order, m);
      NobodyHoldsNobodyEvicts(x, live, order, m);
    }
  }

  /** From the empty index one round, repeats allowed, is enough. */
  lemma OneRoundFromEmpty(live: map<Name, string>, order: seq<Name>)
    requires Distinct(live) && Round(live, order)
    ensures AllResolve(Run(EmptyIndex, Broadcast(live, order)), live)
  {
    RoundHeals(EmptyIndex, live, order);
  }

  /** From any index state two rounds, each in any order, are enough. */
  lemma TwoRoundsHeal(x: Index, live: map<Name, string>, first: seq<Name>, second: seq<Name>)
    requires Distinct(live) && Round(live, first) && Round(live, second)
    ensures AllResolve(Run(Run(x, Broadcast(live, first)), Broadcast(live, second)), live)
  {
    BroadcastTokens(x, live, first);
    RoundHeals(Run(x, Broadcast(live, first)), live, second);
  }

  /** One round is not always enough: two Heartbeats that swap their tokens. */
  lemma SwapNeedsTwoRounds(a: Name, b: Name, t: string, u: string)
    requires a != b && t != u && t != "" && u != ""
    ensures var before := Run(EmptyIndex, Broadcast(map[a := t, b := u], [a, b]));
            var live := map[a := u, b := t];
            && AllResolve(before, map[a := t, b := u])
            && !AllResolve(Run(before, Broadcast(live, [a, b])), live)
  {
    var old', live := map[a := t, b := u], map[a := u, b := t];
    assert a in [a, b] && b in [a, b];
    OneRoundFromEmpty(old', [a, b]);
    BroadcastTokens(EmptyIndex, old', [a, b]);
    var before := Run(EmptyIndex, Broadcast(old', [a, b]));
    OneRoundHealsIff(before, live, [a, b]);
    assert Holds(before, [a, b][1], live, [a, b][0]);
  }
}
