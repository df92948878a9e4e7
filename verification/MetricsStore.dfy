/** The metrics store: last-run tables, heartbeats, dependency lists and user labels, updated in
    place by the spec and result streams and read by the scrape. */
module MetricsStore {
  import opened Common
  import opened DependencyGraph
  import Lifecycle
  import Suppression

  datatype Key = Key(kind: Kind, ns: string, name: string)

  /** Result classes are the wire strings; the empty string stands for "never run". */
  const ResultOK := "ok"
  const ResultTestFailed := "test_failed"
  const NeverRun := ""

  datatype RunState = RunState(result: string, lastRun: int)
  datatype Transition = Transition(key: Key, prev: string, next: string)

  /** A last-run map together with the transitions handed to its callback so far. */
  datatype Table = Table(states: map<Key, RunState>, events: seq<Transition>)

  datatype Contents = Contents(
    probes: Table,
    tests: Table,
    heartbeats: map<Key, Lifecycle.State>,
    depends: map<Key, seq<Ref>>,
    labels: map<Key, map<string, string>>)

  const Empty: Contents := Contents(Table(map[], []), Table(map[], []), map[], map[], map[])

  function Notify(events: seq<Transition>, key: Key, prev: string, next: string): seq<Transition> {
    if prev != next then events + [Transition(key, prev, next)] else events
  }

  function Record(t: Table, key: Key, state: RunState): Table {
    var prev := if key in t.states then t.states[key].result else NeverRun;
    Table(t.states[key := state], Notify(t.events, key, prev, state.result))
  }

  function Forget(c: Contents, key: Key): Contents {
    c.(probes := c.probes.(states := c.probes.states - {key}),
       tests := c.tests.(states := c.tests.states - {key}),
       heartbeats := c.heartbeats - {key})
  }

  function SetOrClear<V(==)>(m: map<Key, V>, key: Key, value: V, none: V): map<Key, V> {
    if value == none then m - {key} else m[key := value]
  }

  function HeartbeatKey(ns: string, name: string): Key {
    Key(Heartbeat, ns, name)
  }

  function StateOf(c: Contents, key: Key): Lifecycle.State {
    if key in c.heartbeats then c.heartbeats[key] else Lifecycle.Zero
  }

  function HeartbeatSpec(
    c: Contents, key: Key, period: real, grace: real, suspend: bool, seed: Lifecycle.Seed): Contents
  {
    c.(heartbeats := c.heartbeats[key :=
         Lifecycle.ApplySpec(StateOf(c, key), key in c.heartbeats, period, grace, suspend, seed)])
  }

  function ResultName(r: Lifecycle.Result): string {
    match r
    case Ok => ResultOK
    case Pending => "pending"
    case Missed => "missed"
    case ReportedFailure => "reported_failure"
  }

  function HeartbeatPing(c: Contents, key: Key, failed: bool, exitCode: int, received: int, now: int): Contents {
    var s := StateOf(c, key);
    var s' := Lifecycle.RecordPing(s, failed, exitCode, received);
    c.(heartbeats := c.heartbeats[key := s'],
       probes := c.probes.(events := Notify(c.probes.events, key,
                   ResultName(Lifecycle.Evaluate(s, now)), ResultName(Lifecycle.Evaluate(s', now)))))
  }

  // ----- the graph a scrape walks

  predicate IsFailing(c: Contents, key: Key, now: int) {
    match key.kind
    case HTTPProbe | DNSProbe | TCPProbe => key in c.probes.states && c.probes.states[key].result != ResultOK
    case K6Test | PlaywrightTest => key in c.tests.states && c.tests.states[key].result != ResultOK
    case Heartbeat =>
      key in c.heartbeats && !c.heartbeats[key].suspended
      && Lifecycle.Evaluate(c.heartbeats[key], now) != Lifecycle.Ok
    case Unknown(_) => false
  }

  ghost function GraphOf(c: Contents, ns: string): Graph {
    map k | k in c.depends && k.ns == ns :: Ref(k.kind, k.name) := c.depends[k]
  }

  ghost function FailingIn(c: Contents, ns: string, now: int): set<Ref> {
    set k | k in c.probes.states.Keys + c.tests.states.Keys + c.heartbeats.Keys && k.ns == ns && IsFailing(c, k, now)
      :: Ref(k.kind, k.name)
  }

  lemma ScrapeView(c: Contents, ns: string, now: int, r: Ref)
    ensures var k := Key(r.kind, ns, r.name);
            && (r in FailingIn(c, ns, now) <==> IsFailing(c, k, now))
            && Deps(GraphOf(c, ns), r) == if k in c.depends then c.depends[k] else []
  {}

  class Store {
    var probes: map<Key, RunState>
    var tests: map<Key, RunState>
    var heartbeats: map<Key, Lifecycle.State>
    var depends: map<Key, seq<Ref>>
    var metricLabels: map<Key, map<string, string>>
    /** What the two transition callbacks have been called with. */
    var probeEvents: seq<Transition>
    var testEvents: seq<Transition>

    ghost function View(): Contents
      reads this
    {
      Contents(Table(probes, probeEvents), Table(tests, testEvents), heartbeats, depends, metricLabels)
    }

    constructor ()
      ensures View() == Empty
    {
      probes, tests, heartbeats, depends, metricLabels := map[], map[], map[], map[], map[];
      probeEvents, testEvents := [], [];
    }

    method Upsert(key: Key, state: RunState)
      modifies this
      ensures View() == old(View()).(probes := Record(old(View()).probes, key, state))
    {
      var prev := NeverRun;
      if key in probes {
        prev := probes[key].result;
      }
      probes := probes[key := state];
      if prev != state.result {
        probeEvents := probeEvents + [Transition(key, prev, state.result)];
      }
    }

    method UpsertTest(key: Key, state: RunState)
      modifies this
      ensures View() == old(View()).(tests := Record(old(View()).tests, key, state))
    {
      var prev := NeverRun;
      if key in tests {
        prev := tests[key].result;
      }
      tests := tests[key := state];
      if prev != state.result {
        testEvents := testEvents + [Transition(key, prev, state.result)];
      }
    }

    method Delete(key: Key)
      modifies this
      ensures View() == Forget(old(View()), key)
    {
      probes := probes - {key};
      tests := tests - {key};
      heartbeats := heartbeats - {key};
    }

    method SetDepends(key: Key, deps: seq<Ref>)
      modifies this
      ensures View() == old(View()).(depends := SetOrClear(old(depends), key, deps, []))
    {
      if |deps| == 0 {
        depends := depends - {key};
        return;
      }
      depends := depends[key := deps];
    }

    method ClearDepends(key: Key)
      modifies this
      ensures View() == old(View()).(depends := old(depends) - {key})
    {
      depends := depends - {key};
    }

    method SetMetricLabels(key: Key, labels: map<string, string>)
      modifies this
      ensures View() == old(View()).(labels := SetOrClear(old(metricLabels), key, labels, map[]))
    {
      if |labels| == 0 {
        metricLabels := metricLabels - {key};
        return;
      }
      metricLabels := metricLabels[key := labels];
    }

    method ClearMetricLabels(key: Key)
      modifies this
      ensures View() == old(View()).(labels := old(metricLabels) - {key})
    {
      metricLabels := metricLabels - {key};
    }

    method SetHeartbeatSpec(
      ns: string, name: string, period: real, grace: real, suspend: bool, seedPing: int, seedFailed: bool)
      modifies this
      ensures View() == HeartbeatSpec(
                old(View()), HeartbeatKey(ns, name), period, grace, suspend, Lifecycle.Seed(seedPing, seedFailed))
    {
      var key := HeartbeatKey(ns, name);
      var existing := key in heartbeats;
      var state := if existing then heartbeats[key] else Lifecycle.Zero;
      state := Lifecycle.ApplySpec(state, existing, period, grace, suspend, Lifecycle.Seed(seedPing, seedFailed));
      heartbeats := heartbeats[key := state];
    }

    method RecordHeartbeatPing(ns: string, name: string, failed: bool, exitCode: int, received: int, now: int)
      modifies this
      ensures View() == HeartbeatPing(old(View()), HeartbeatKey(ns, name), failed, exitCode, received, now)
    {
      var key := HeartbeatKey(ns, name);
      var state := if key in heartbeats then heartbeats[key] else Lifecycle.Zero;
      var previous := ResultName(Lifecycle.Evaluate(state, now));
      state := Lifecycle.RecordPing(state, failed, exitCode, received);
      heartbeats := heartbeats[key := state];
      var next := ResultName(Lifecycle.Evaluate(state, now));
      if previous != next {
        probeEvents := probeEvents + [Transition(key, previous, next)];
      }
    }

    method IsFailingLocked(key: Key, now: int) returns (failing: bool)
      ensures failing == IsFailing(View(), key, now)
    {
      match key.kind
      case HTTPProbe | DNSProbe | TCPProbe =>
        return key in probes && probes[key].result != ResultOK;
      case K6Test | PlaywrightTest =>
        return key in tests && tests[key].result != ResultOK;
      case Heartbeat =>
        return key in heartbeats && !heartbeats[key].suspended
               && Lifecycle.Evaluate(heartbeats[key], now) != Lifecycle.Ok;
      case Unknown(_) =>
        return false;
    }

    /** Every key of one walk carries the same namespace, so `visited` holds references. */
    method WalkDeps(ns: string, deps: seq<Ref>, visited: Visited, depth: nat, now: int)
      returns (failing: Option<Ref>)
      requires visited.Valid()
      modifies visited
      ensures visited.Valid()
      ensures var r := Suppression.Walk(
                GraphOf(View(), ns), FailingIn(View(), ns, now), deps, old(visited.order), depth);
              failing == r.found && visited.order == r.visited
      decreases MaxDepth - depth
    {
      if depth >= MaxDepth {
        return None;
      }
      ghost var g, bad := GraphOf(View(), ns), FailingIn(View(), ns, now);
      ghost var all := Suppression.Walk(g, bad, deps, visited.order, depth);
      for i := 0 to |deps|
        invariant visited.Valid()
        invariant var r := Suppression.Walk(g, bad, deps[i..], visited.order, depth);
                  r.found == all.found && r.visited == all.visited
      {
        var dep := deps[i];
        assert deps[i..][1..] == deps[i + 1..];
        var key := Key(dep.kind, ns, dep.name);
        ScrapeView(View(), ns, now, dep);
        if dep in visited.keys {
          continue;
        }
        visited.Mark(dep);
        var deeper := WalkDeps(ns, if key in depends then depends[key] else [], visited, depth + 1, now);
        if deeper.Some? {
          return deeper;
        }
        var down := IsFailingLocked(key, now);
        if down {
          return Some(dep);
        }
      }
      return None;
    }

    method FindUnhealthyDep(origin: Key, now: int) returns (failing: Option<Ref>)
      ensures failing == Suppression.FindUnhealthyDep(
                GraphOf(View(), origin.ns), FailingIn(View(), origin.ns, now), Ref(origin.kind, origin.name)).found
    {
      var visited := new Visited();
      visited.Mark(Ref(origin.kind, origin.name));
      assert visited.order == [Ref(origin.kind, origin.name)];
      ScrapeView(View(), origin.ns, now, Ref(origin.kind, origin.name));
      failing := WalkDeps(origin.ns, if origin in depends then depends[origin] else [], visited, 0, now);
    }
  }
}
