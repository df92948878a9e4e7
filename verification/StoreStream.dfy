/** The metrics consumer: the store as a fold over the message streams, what that fold computes
    for each CR, and why a re-broadcast of specs cannot be observed. */
module StoreStream {
  import opened Common
  import opened DependencyGraph
  import opened MetricsStore
  import Lifecycle
  import Suppression

  datatype HeartbeatPayload = HeartbeatPayload(
    token: string, periodMs: int, graceMs: int, lastPingUnix: int, lastResult: string)

  datatype SpecUpdate = SpecUpdate(
    key: Key, deleted: bool, suspend: bool, depends: seq<Ref>, labels: map<string, string>,
    heartbeat: Option<HeartbeatPayload>)

  datatype Message =
    | SpecMsg(spec: SpecUpdate)
    | ProbeMsg(key: Key, state: RunState)
    | TestMsg(key: Key, success: bool, lastRun: int)
    | PingMsg(ns: string, name: string, failed: bool, exitCode: int, receivedUnix: int, now: int)

  predicate CarriesContract(spec: SpecUpdate) {
    spec.key.kind == Heartbeat && spec.heartbeat.Some?
  }

  function SeedOf(h: HeartbeatPayload): Lifecycle.Seed {
    Lifecycle.Seed(h.lastPingUnix, h.lastResult == "failed")
  }

  function ApplySpec(c: Contents, spec: SpecUpdate): Contents {
    if spec.deleted then
      var c' := Forget(c, spec.key);
      c'.(depends := c'.depends - {spec.key}, labels := c'.labels - {spec.key})
    else
      var c' := c.(depends := SetOrClear(c.depends, spec.key, spec.depends, []),
                   labels := SetOrClear(c.labels, spec.key, spec.labels, map[]));
      if CarriesContract(spec) then
        var h := spec.heartbeat.value;
        HeartbeatSpec(c', spec.key, Lifecycle.Seconds(h.periodMs), Lifecycle.Seconds(h.graceMs), spec.suspend, SeedOf(h))
      else
        c'
  }

  function TestState(success: bool, lastRun: int): RunState {
    RunState(if success then ResultOK else ResultTestFailed, lastRun)
  }

  function Handle(c: Contents, m: Message): Contents {
    match m
    case SpecMsg(spec) => ApplySpec(c, spec)
    case ProbeMsg(key, state) => c.(probes := Record(c.probes, key, state))
    case TestMsg(key, success, lastRun) => c.(tests := Record(c.tests, key, TestState(success, lastRun)))
    case PingMsg(ns, name, failed, code, received, now) =>
      HeartbeatPing(c, HeartbeatKey(ns, name), failed, code, received, now)
  }

  class Consumer {
    const store: Store

    constructor (store: Store)
      ensures this.store == store
    {
      this.store := store;
    }

    method OnSpec(msg: SpecUpdate)
      modifies store
      ensures store.View() == Handle(old(store.View()), SpecMsg(msg))
    {
      if msg.deleted {
        store.Delete(msg.key);
        store.ClearDepends(msg.key);
        store.ClearMetricLabels(msg.key);
        return;
      }
      store.SetDepends(msg.key, msg.depends);
      store.SetMetricLabels(msg.key, msg.labels);
      if msg.key.kind == Heartbeat && msg.heartbeat.Some? {
        var h := msg.heartbeat.value;
        store.SetHeartbeatSpec(msg.key.ns, msg.key.name, Lifecycle.Seconds(h.periodMs), Lifecycle.Seconds(h.graceMs), msg.suspend,
                               h.lastPingUnix, h.lastResult == "failed");
      }
    }

    /** `now` is the store's clock. */
    method OnHeartbeatPing(ns: string, name: string, failed: bool, exitCode: int, receivedUnix: int, now: int)
      modifies store
      ensures store.View() == Handle(old(store.View()), PingMsg(ns, name, failed, exitCode, receivedUnix, now))
    {
      store.RecordHeartbeatPing(ns, name, failed, exitCode, receivedUnix, now);
    }

    method OnProbeResult(key: Key, result: string, lastRun: int)
      modifies store
      ensures store.View() == Handle(old(store.View()), ProbeMsg(key, RunState(result, lastRun)))
    {
      store.Upsert(key, RunState(result, lastRun));
    }

    method OnTestResult(key: Key, success: bool, lastRun: int)
      modifies store
      ensures store.View() == Handle(old(store.View()), TestMsg(key, success, lastRun))
    {
      var result := ResultTestFailed;
      if success {
        result := ResultOK;
      }
      store.UpsertTest(key, RunState(result, lastRun));
    }
  }

  function Run(c: Contents, ms: seq<Message>): Contents {
    if ms == [] then c else Handle(Run(c, ms[..|ms| - 1]), ms[|ms| - 1])
  }

  // ----- what the store holds for one CR, read off the message history

  predicate SpecFor(m: Message, k: Key) {
    m.SpecMsg? && m.spec.key == k
  }

  predicate Tombstone(m: Message, k: Key) {
    SpecFor(m, k) && m.spec.deleted
  }

  /** The messages since the last tombstone of `k`. */
  function Since(ms: seq<Message>, k: Key): seq<Message> {
    if ms == [] then []
    else
      var m := ms[|ms| - 1];
      if Tombstone(m, k) then [] else Since(ms[..|ms| - 1], k) + [m]
  }

  /** The latest spec of `k`, unless the latest is a tombstone. */
  function CurrentSpec(ms: seq<Message>, k: Key): Option<SpecUpdate> {
    if ms == [] then None
    else
      var m := ms[|ms| - 1];
      if Tombstone(m, k) then None
      else if SpecFor(m, k) then Some(m.spec)
      else CurrentSpec(ms[..|ms| - 1], k)
  }

  function ProbeResults(ms: seq<Message>, k: Key): seq<RunState> {
    if ms == [] then []
    else
      var m, before := ms[|ms| - 1], ProbeResults(ms[..|ms| - 1], k);
      if m.ProbeMsg? && m.key == k then before + [m.state] else before
  }

  function TestResults(ms: seq<Message>, k: Key): seq<RunState> {
    if ms == [] then []
    else
      var m, before := ms[|ms| - 1], TestResults(ms[..|ms| - 1], k);
      if m.TestMsg? && m.key == k then before + [TestState(m.success, m.lastRun)] else before
  }

  /** The lifecycle events of Heartbeat `k`. */
  function LifecycleEvents(ms: seq<Message>, k: Key): seq<Lifecycle.Event> {
    if ms == [] then []
    else
      var before := LifecycleEvents(ms[..|ms| - 1], k);
      var e := EventFor(ms[|ms| - 1], k);
      if e.Some? then before + [e.value] else before
  }

  function Find<V>(m: map<Key, V>, k: Key): Option<V> {
    if k in m then Some(m[k]) else None
  }

  function Last<V>(s: seq<V>): Option<V> {
    if s == [] then None else Some(s[|s| - 1])
  }

  /** A stored list or label set is absent rather than empty. */
  function NonEmpty<V(==)>(v: Option<V>, none: V): Option<V> {
    if v.Some? && v.value == none then None else v
  }

  function DependsOf(spec: SpecUpdate): seq<Ref> { spec.depends }
  function LabelsOf(spec: SpecUpdate): map<string, string> { spec.labels }

  function Field<V>(spec: Option<SpecUpdate>, f: SpecUpdate -> V): Option<V> {
    if spec.Some? then Some(f(spec.value)) else None
  }

  // One message, one table at a time.

  lemma ProbesStep(c: Contents, m: Message, k: Key)
    ensures Find(Handle(c, m).probes.states, k)
         == if Tombstone(m, k) then None
            else if m.ProbeMsg? && m.key == k then Some(m.state)
            else Find(c.probes.states, k)
  {}

  lemma TestsStep(c: Contents, m: Message, k: Key)
    ensures Find(Handle(c, m).tests.states, k)
         == if Tombstone(m, k) then None
            else if m.TestMsg? && m.key == k then Some(TestState(m.success, m.lastRun))
            else Find(c.tests.states, k)
  {}

  lemma DependsStep(c: Contents, m: Message, k: Key)
    ensures Find(Handle(c, m).depends, k)
         == if Tombstone(m, k) then None
            else if SpecFor(m, k) then NonEmpty(Some(m.spec.depends), [])
            else Find(c.depends, k)
  {}

  lemma LabelsStep(c: Contents, m: Message, k: Key)
    ensures Find(Handle(c, m).labels, k)
         == if Tombstone(m, k) then None
            else if SpecFor(m, k) then NonEmpty(Some(m.spec.labels), map[])
            else Find(c.labels, k)
  {}

  /** The lifecycle event a message is for Heartbeat `k`. */
  function EventFor(m: Message, k: Key): Option<Lifecycle.Event> {
    if SpecFor(m, k) && !m.spec.deleted && CarriesContract(m.spec) then
      var h := m.spec.heartbeat.value;
      Some(Lifecycle.Spec(Lifecycle.Seconds(h.periodMs), Lifecycle.Seconds(h.graceMs), m.spec.suspend, SeedOf(h)))
    else if m.PingMsg? && HeartbeatKey(m.ns, m.name) == k then
      Some(Lifecycle.Ping(m.failed, m.exitCode, m.receivedUnix))
    else
      None
  }

  lemma HeartbeatsStep(c: Contents, m: Message, k: Key)
    ensures Find(Handle(c, m).heartbeats, k)
         == if Tombstone(m, k) then None
            else if EventFor(m, k).Some? then
              Some(Lifecycle.Step(StateOf(c, k), k in c.heartbeats, EventFor(m, k).value))
            else Find(c.heartbeats, k)
  {}

  /** For every message history and every CR: results are those since the last tombstone, lists and
      labels are those of the current spec, and a Heartbeat's state is the lifecycle run of its own
      events since the last tombstone. A tombstone therefore leaves no trace. */
  lemma StoreIsHistory(ms: seq<Message>, k: Key)
    ensures var c, live := Run(Empty, ms), Since(ms, k);
            && Find(c.probes.states, k) == Last(ProbeResults(live, k))
            && Find(c.tests.states, k) == Last(TestResults(live, k))
            && Find(c.depends, k) == NonEmpty(Field(CurrentSpec(ms, k), DependsOf), [])
            && Find(c.labels, k) == NonEmpty(Field(CurrentSpec(ms, k), LabelsOf), map[])
            && var events := LifecycleEvents(live, k);
               Find(c.heartbeats, k) == if events == [] then None else Some(Lifecycle.Run(events))
  {
    ResultsAreHistory(ms, k);
    SpecsAreHistory(ms, k);
    HeartbeatsAreHistory(ms, k);
  }

  lemma {:induction false} ResultsAreHistory(ms: seq<Message>, k: Key)
    ensures var c, live := Run(Empty, ms), Since(ms, k);
            && Find(c.probes.states, k) == Last(ProbeResults(live, k))
            && Find(c.tests.states, k) == Last(TestResults(live, k))
  {
    if ms != [] {
      var before, m := ms[..|ms| - 1], ms[|ms| - 1];
      ResultsAreHistory(before, k);
      ProbesStep(Run(Empty, before), m, k);
      TestsStep(Run(Empty, before), m, k);
      var live := Since(before, k);
      assert (live + [m])[..|live|] == live;
    }
  }

  lemma {:induction false} SpecsAreHistory(ms: seq<Message>, k: Key)
    ensures var c := Run(Empty, ms);
            && Find(c.depends, k) == NonEmpty(Field(CurrentSpec(ms, k), DependsOf), [])
            && Find(c.labels, k) == NonEmpty(Field(CurrentSpec(ms, k), LabelsOf), map[])
  {
    if ms != [] {
      SpecsAreHistory(ms[..|ms| - 1], k);
      DependsStep(Run(Empty, ms[..|ms| - 1]), ms[|ms| - 1], k);
      LabelsStep(Run(Empty, ms[..|ms| - 1]), ms[|ms| - 1], k);
    }
  }

  lemma {:induction false} HeartbeatsAreHistory(ms: seq<Message>, k: Key)
    ensures var events := LifecycleEvents(Since(ms, k), k);
            Find(Run(Empty, ms).heartbeats, k) == if events == [] then None else Some(Lifecycle.Run(events))
  {
    if ms != [] {
      var before, m := ms[..|ms| - 1], ms[|ms| - 1];
      HeartbeatsAreHistory(before, k);
      HeartbeatsStep(Run(Empty, before), m, k);
      var live := Since(before, k);
      assert (live + [m])[..|live|] == live;
      if !Tombstone(m, k) && EventFor(m, k).Some? {
        var events := LifecycleEvents(live, k);
        assert (events + [EventFor(m, k).value])[..|events|] == events;
      }
    }
  }

  /** Two message histories whose lifecycle events for `k` differ only in delivery order,
      duplication and re-delivered specs leave the same Heartbeat in the store, if its latest pings
      agree. */
  lemma HeartbeatOrderInsensitive(a: seq<Message>, b: seq<Message>, k: Key)
    requires var x, y := LifecycleEvents(Since(a, k), k), LifecycleEvents(Since(b, k), k);
             (x == [] <==> y == []) && Lifecycle.Rearranges(x, y) && Lifecycle.LatestAgree(x)
    ensures Find(Run(Empty, a).heartbeats, k) == Find(Run(Empty, b).heartbeats, k)
  {
    HeartbeatsAreHistory(a, k);
    HeartbeatsAreHistory(b, k);
    Lifecycle.OrderInsensitive(LifecycleEvents(Since(a, k), k), LifecycleEvents(Since(b, k), k));
  }

  /** The callback of one ping. It reports missed only for a Heartbeat that was pending and whose
      ping is already past the deadline it sets; a fresh enough ping reports its own outcome; an
      older one reports nothing. */
  lemma PingCallback(c: Contents, m: Message)
    requires m.PingMsg?
    ensures var key := HeartbeatKey(m.ns, m.name);
            var s, s' := StateOf(c, key), Handle(c, m).heartbeats[key];
            var prev := if s.lastPing <= 0 then "pending"
                        else if m.now as real > Lifecycle.Deadline(s) then "missed"
                        else if s.reportedFailure then "reported_failure" else "ok";
            var events := Handle(c, m).probes.events;
            if m.receivedUnix < s.lastPing then
              events == c.probes.events
            else if m.receivedUnix <= 0 then
              events == c.probes.events
            else if m.now as real > Lifecycle.Deadline(s') then
              events == c.probes.events + (if s.lastPing <= 0 then [Transition(key, prev, "missed")] else [])
            else
              var next := if m.failed then "reported_failure" else "ok";
              events == c.probes.events + (if prev != next then [Transition(key, prev, next)] else [])
  {}

  // ----- what counts as failing, read off the message history

  /** Message `i` is a probe result of `k`, and neither another one nor a tombstone follows it. */
  ghost predicate LatestProbe(ms: seq<Message>, k: Key, i: int) {
    && 0 <= i < |ms| && ms[i].ProbeMsg? && ms[i].key == k
    && forall j | i < j < |ms| :: !(ms[j].ProbeMsg? && ms[j].key == k) && !Tombstone(ms[j], k)
  }

  /** Message `i` is a test result of `k`, and neither another one nor a tombstone follows it. */
  ghost predicate LatestTest(ms: seq<Message>, k: Key, i: int) {
    && 0 <= i < |ms| && ms[i].TestMsg? && ms[i].key == k
    && forall j | i < j < |ms| :: !(ms[j].TestMsg? && ms[j].key == k) && !Tombstone(ms[j], k)
  }

  lemma LatestProbeStep(before: seq<Message>, m: Message, k: Key, i: int)
    ensures LatestProbe(before + [m], k, i) <==>
              if m.ProbeMsg? && m.key == k then i == |before| else !Tombstone(m, k) && LatestProbe(before, k, i)
  {
    var ms := before + [m];
    assert ms[|before|] == m && forall j | 0 <= j < |before| :: ms[j] == before[j];
  }

  lemma LatestTestStep(before: seq<Message>, m: Message, k: Key, i: int)
    ensures LatestTest(before + [m], k, i) <==>
              if m.TestMsg? && m.key == k then i == |before| else !Tombstone(m, k) && LatestTest(before, k, i)
  {
    var ms := before + [m];
    assert ms[|before|] == m && forall j | 0 <= j < |before| :: ms[j] == before[j];
  }

  /** For every history and every index: the probe result on record is that of the latest probe
      message since the last tombstone, and there is none without one. */
  lemma {:induction false} ProbeOnRecord(ms: seq<Message>, k: Key)
    ensures forall i :: LatestProbe(ms, k, i) ==> Find(Run(Empty, ms).probes.states, k) == Some(ms[i].state)
    ensures Find(Run(Empty, ms).probes.states, k).Some? ==> exists i :: LatestProbe(ms, k, i)
  {
    if ms != [] {
      var before, m := ms[..|ms| - 1], ms[|ms| - 1];
      assert ms == before + [m];
      ProbeOnRecord(before, k);
      ProbesStep(Run(Empty, before), m, k);
      forall i ensures LatestProbe(ms, k, i) <==>
                if m.ProbeMsg? && m.key == k then i == |before| else !Tombstone(m, k) && LatestProbe(before, k, i)
      {
        LatestProbeStep(before, m, k, i);
      }
      if m.ProbeMsg? && m.key == k {
        assert LatestProbe(ms, k, |before|);
      } else if i :| LatestProbe(before, k, i) {
        assert !Tombstone(m, k) ==> LatestProbe(ms, k, i);
      }
    }
  }

  /** The same for tests: a success is recorded as "ok", a failure as "test_failed". */
  lemma {:induction false} TestOnRecord(ms: seq<Message>, k: Key)
    ensures forall i :: LatestTest(ms, k, i) ==>
              Find(Run(Empty, ms).tests.states, k)
              == Some(RunState(if ms[i].success then "ok" else "test_failed", ms[i].lastRun))
    ensures Find(Run(Empty, ms).tests.states, k).Some? ==> exists i :: LatestTest(ms, k, i)
  {
    if ms != [] {
      var before, m := ms[..|ms| - 1], ms[|ms| - 1];
      assert ms == before + [m];
      TestOnRecord(before, k);
      TestsStep(Run(Empty, before), m, k);
      forall i ensures LatestTest(ms, k, i) <==>
                if m.TestMsg? && m.key == k then i == |before| else !Tombstone(m, k) && LatestTest(before, k, i)
      {
        LatestTestStep(before, m, k, i);
      }
      if m.TestMsg? && m.key == k {
        assert LatestTest(ms, k, |before|);
      } else if i :| LatestTest(before, k, i) {
        assert !Tombstone(m, k) ==> LatestTest(ms, k, i);
      }
    }
  }

  /** What a Heartbeat's events say of it: not suspended, and unheard, overdue or reported failed. */
  ghost predicate Troubled(events: seq<Lifecycle.Event>, now: int) {
    && events != [] && !Lifecycle.LastContract(events).suspend
    && (!Lifecycle.Heard(events) || Lifecycle.Overdue(events, now) || Lifecycle.LastWordFailed(events))
  }

  lemma HeartbeatFailingIff(ms: seq<Message>, k: Key, now: int)
    requires k.kind == Heartbeat
    ensures IsFailing(Run(Empty, ms), k, now) <==> Troubled(LifecycleEvents(Since(ms, k), k), now)
  {
    var events := LifecycleEvents(Since(ms, k), k);
    HeartbeatsAreHistory(ms, k);
    Lifecycle.RunSummary(events);
    Lifecycle.ClassificationIff(events, now);
  }

  /** For every message history, namespace and reference: a scrape counts a probe as failing if and
      only if its latest result since the last tombstone is not "ok", a test if and only if its latest
      result is no success, a Heartbeat if and only if its events since then leave it unsuspended and
      unheard, overdue or failed by the last word, and anything else never. */
  lemma FailingIff(ms: seq<Message>, ns: string, r: Ref, now: int)
    ensures var k := Key(r.kind, ns, r.name);
            r in FailingIn(Run(Empty, ms), ns, now) <==>
              match r.kind
              case HTTPProbe | DNSProbe | TCPProbe => exists i :: LatestProbe(ms, k, i) && ms[i].state.result != "ok"
              case K6Test | PlaywrightTest => exists i :: LatestTest(ms, k, i) && !ms[i].success
              case Heartbeat => Troubled(LifecycleEvents(Since(ms, k), k), now)
              case Unknown(_) => false
  {
    var k := Key(r.kind, ns, r.name);
    ScrapeView(Run(Empty, ms), ns, now, r);
    match r.kind
    case HTTPProbe | DNSProbe | TCPProbe => ProbeOnRecord(ms, k);
    case K6Test | PlaywrightTest => TestOnRecord(ms, k);
    case Heartbeat => HeartbeatFailingIff(ms, k, now);
    case Unknown(_) =>
  }

  /** Message `i` is a contract of Heartbeat `k`, and neither another one nor a tombstone follows it. */
  ghost predicate LatestContract(ms: seq<Message>, k: Key, i: int) {
    && k.kind == Heartbeat && 0 <= i < |ms| && IsContract(ms[i], k)
    && forall j | i < j < |ms| :: !IsContract(ms[j], k) && !Tombstone(ms[j], k)
  }

  predicate IsContract(m: Message, k: Key) {
    m.SpecMsg? && m.spec.key == k && !m.spec.deleted && m.spec.heartbeat.Some?
  }

  /** How old a ping may grow, in milliseconds: the period and the grace, or twice the period. */
  function AllowedMs(h: HeartbeatPayload): int {
    h.periodMs + (if h.graceMs <= 0 then h.periodMs else h.graceMs)
  }

  lemma {:induction false} ContractOnRecord(ms: seq<Message>, k: Key, i: int)
    requires LatestContract(ms, k, i)
    ensures var c, h := Run(Empty, ms), ms[i].spec.heartbeat.value;
            && k in c.heartbeats && c.heartbeats[k].suspended == ms[i].spec.suspend
            && c.heartbeats[k].period * 1000.0 == h.periodMs as real
            && c.heartbeats[k].grace * 1000.0 == h.graceMs as real
  {
    var n := |ms| - 1;
    var before, m := ms[..n], ms[n];
    HeartbeatsStep(Run(Empty, before), m, k);
    if i < n {
      assert forall j | 0 <= j < n :: before[j] == ms[j];
      ContractOnRecord(before, k, i);
    }
  }

  /** In whole milliseconds, from the contract message on: a Heartbeat is missed if and only if it
      has been heard of and its last ping is older than the period and the grace, or twice the
      period where the grace is not positive. */
  lemma MissedInMilliseconds(ms: seq<Message>, k: Key, i: int, now: int)
    requires LatestContract(ms, k, i)
    ensures var c := Run(Empty, ms);
            k in c.heartbeats &&
            var s := c.heartbeats[k];
            (Lifecycle.Evaluate(s, now) == Lifecycle.Missed <==>
               s.lastPing > 0 && 1000 * (now - s.lastPing) > AllowedMs(ms[i].spec.heartbeat.value))
  {
    ContractOnRecord(ms, k, i);
    var s, h := Run(Empty, ms).heartbeats[k], ms[i].spec.heartbeat.value;
    assert Lifecycle.Deadline(s) * 1000.0 == (1000 * s.lastPing + AllowedMs(h)) as real;
  }

  /** What a scrape names is on record: a probe or test whose last result was not ok, or a Heartbeat
      that is neither suspended nor ok. Nothing is suppressed by a CR the store knows nothing of. */
  lemma ReportedDepIsOnRecord(c: Contents, origin: Key, now: int)
    ensures var r := Suppression.FindUnhealthyDep(
              GraphOf(c, origin.ns), FailingIn(c, origin.ns, now), Ref(origin.kind, origin.name)).found;
            r.Some? ==>
              var k := Key(r.value.kind, origin.ns, r.value.name);
              && k != origin
              && (|| (k in c.probes.states && c.probes.states[k].result != ResultOK)
                  || (k in c.tests.states && c.tests.states[k].result != ResultOK)
                  || (k.kind == Heartbeat && k in c.heartbeats && !c.heartbeats[k].suspended
                      && Lifecycle.Evaluate(c.heartbeats[k], now) != Lifecycle.Ok))
  {
    var g, bad, o := GraphOf(c, origin.ns), FailingIn(c, origin.ns, now), Ref(origin.kind, origin.name);
    Suppression.SuppressionSound(g, bad, o);
    var r := Suppression.FindUnhealthyDep(g, bad, o).found;
    if r.Some? {
      ScrapeView(c, origin.ns, now, r.value);
    }
  }

  // ----- re-broadcast

  /** The same spec, possibly with a newer replayed status. */
  predicate SameContract(a: SpecUpdate, b: SpecUpdate) {
    && a.key == b.key && a.deleted == b.deleted && a.suspend == b.suspend
    && a.depends == b.depends && a.labels == b.labels
    && match (a.heartbeat, b.heartbeat) {
         case (Some(x), Some(y)) => x.periodMs == y.periodMs && x.graceMs == y.graceMs
         case (None, None) => true
         case _ => false
       }
  }

  /** The store already says everything `spec` says. */
  predicate Reflects(c: Contents, spec: SpecUpdate) {
    && Find(c.depends, spec.key) == NonEmpty(Some(spec.depends), [])
    && Find(c.labels, spec.key) == NonEmpty(Some(spec.labels), map[])
    && (CarriesContract(spec) ==>
          && spec.key in c.heartbeats
          && var s, h := c.heartbeats[spec.key], spec.heartbeat.value;
             s.period == Lifecycle.Seconds(h.periodMs) && s.grace == Lifecycle.Seconds(h.graceMs) && s.suspended == spec.suspend)
  }

  lemma {:induction false} CurrentSpecIsReflected(c: Contents, ms: seq<Message>, k: Key)
    ensures CurrentSpec(ms, k).Some? ==>
              var spec := CurrentSpec(ms, k).value;
              spec.key == k && !spec.deleted && Reflects(Run(c, ms), spec)
  {
    if ms != [] {
      CurrentSpecIsReflected(c, ms[..|ms| - 1], k);
      DependsStep(Run(c, ms[..|ms| - 1]), ms[|ms| - 1], k);
      LabelsStep(Run(c, ms[..|ms| - 1]), ms[|ms| - 1], k);
      HeartbeatsStep(Run(c, ms[..|ms| - 1]), ms[|ms| - 1], k);
    }
  }

  lemma RedeliveryIsNoOp(c: Contents, spec: SpecUpdate, again: SpecUpdate)
    requires Reflects(c, spec) && SameContract(spec, again) && !again.deleted
    ensures ApplySpec(c, again) == c
  {}

  /** `inserted[i]` marks message `i` as a re-delivery of the spec that is current at that point. */
  ghost predicate Rebroadcasts(ms: seq<Message>, inserted: seq<bool>) {
    && |inserted| == |ms|
    && forall i | 0 <= i < |ms| :: inserted[i] ==> IsRedelivery(ms[..i], ms[i])
  }

  ghost predicate IsRedelivery(before: seq<Message>, m: Message) {
    && m.SpecMsg?
    && var current := CurrentSpec(before, m.spec.key);
       current.Some? && SameContract(current.value, m.spec)
  }

  function Original(ms: seq<Message>, inserted: seq<bool>): seq<Message>
    requires |inserted| == |ms|
  {
    if ms == [] then []
    else
      var before := Original(ms[..|ms| - 1], inserted[..|ms| - 1]);
      if inserted[|ms| - 1] then before else before + [ms[|ms| - 1]]
  }

  /** Any number of re-deliveries, anywhere, interleaved with anything: the final store, its
      transition logs included, is the one the original messages produce. */
  lemma {:induction false} RebroadcastIsInvisible(c: Contents, ms: seq<Message>, inserted: seq<bool>)
    requires Rebroadcasts(ms, inserted)
    ensures Run(c, ms) == Run(c, Original(ms, inserted))
  {
    if ms != [] {
      var n := |ms| - 1;
      var before, m := ms[..n], ms[n];
      assert forall i | 0 <= i < n :: ms[..n][..i] == ms[..i];
      RebroadcastIsInvisible(c, before, inserted[..n]);
      if inserted[n] {
        CurrentSpecIsReflected(c, before, m.spec.key);
        RedeliveryIsNoOp(Run(c, before), CurrentSpec(before, m.spec.key).value, m.spec);
      } else {
        var kept := Original(before, inserted[..n]);
        assert (kept + [m])[..|kept|] == kept;
      }
    }
  }

  // ----- transitions

  function ResultsOf(states: seq<RunState>): seq<string> {
    if states == [] then [] else ResultsOf(states[..|states| - 1]) + [states[|states| - 1].result]
  }

  /** Adjacent duplicates removed. */
  function Squash(s: seq<string>): seq<string> {
    if |s| <= 1 then s
    else if s[|s| - 1] == s[|s| - 2] then Squash(s[..|s| - 1])
    else Squash(s[..|s| - 1]) + [s[|s| - 1]]
  }

  lemma {:induction false} SquashKeepsEnds(s: seq<string>)
    requires s != []
    ensures var h := Squash(s);
            && h != [] && h[0] == s[0] && h[|h| - 1] == s[|s| - 1]
            && forall i | 0 <= i < |h| - 1 :: h[i] != h[i + 1]
  {
    if |s| > 1 {
      SquashKeepsEnds(s[..|s| - 1]);
    }
  }

  /** The steps of a history, as transitions of `k`. */
  function Steps(k: Key, h: seq<string>): seq<Transition>
    requires h != []
  {
    var n := |h| - 1;
    if n == 0 then [] else Steps(k, h[..n]) + [Transition(k, h[n - 1], h[n])]
  }

  function EventsOf(events: seq<Transition>, k: Key): seq<Transition> {
    if events == [] then []
    else
      var e, before := events[|events| - 1], EventsOf(events[..|events| - 1], k);
      if e.key == k then before + [e] else before
  }

  lemma EventsOfNotify(events: seq<Transition>, key: Key, prev: string, next: string, k: Key)
    ensures EventsOf(Notify(events, key, prev, next), k)
         == if key == k && prev != next then EventsOf(events, k) + [Transition(key, prev, next)] else EventsOf(events, k)
  {}

  /** The results of a run without adjacent duplicates, starting from "never run". */
  function History(states: seq<RunState>): (h: seq<string>)
    ensures h != []
  {
    SquashKeepsEnds([""] + ResultsOf(states));
    Squash([""] + ResultsOf(states))
  }

  function LastResult(states: seq<RunState>): string {
    if states == [] then "" else states[|states| - 1].result
  }

  lemma SquashSnoc(s: seq<string>, x: string)
    requires s != []
    ensures Squash(s + [x]) == if s[|s| - 1] == x then Squash(s) else Squash(s) + [x]
  {
    assert (s + [x])[..|s|] == s;
  }

  lemma StepsSnoc(k: Key, h: seq<string>, x: string)
    requires h != []
    ensures Steps(k, h + [x]) == Steps(k, h) + [Transition(k, h[|h| - 1], x)]
  {
    assert (h + [x])[..|h|] == h;
  }

  lemma HistorySnoc(states: seq<RunState>, state: RunState)
    ensures var h := History(states);
            && h[|h| - 1] == LastResult(states)
            && History(states + [state]) == if LastResult(states) == state.result then h else h + [state.result]
  {
    var s := [""] + ResultsOf(states);
    assert (states + [state])[..|states|] == states;
    assert [""] + ResultsOf(states + [state]) == s + [state.result];
    SquashKeepsEnds(s);
    SquashSnoc(s, state.result);
  }

  /** One more result extends the history by at most one step. */
  lemma HistoryStep(k: Key, states: seq<RunState>, state: RunState)
    ensures Steps(k, History(states + [state]))
         == if LastResult(states) == state.result then Steps(k, History(states))
            else Steps(k, History(states)) + [Transition(k, LastResult(states), state.result)]
  {
    HistorySnoc(states, state);
    StepsSnoc(k, History(states), state.result);
  }

  /** What came before the last tombstone of `k`, if there is one. */
  function BeforeTombstone(ms: seq<Message>, k: Key): (r: Option<seq<Message>>)
    ensures r.Some? ==> |r.value| < |ms|
  {
    if ms == [] then None
    else if Tombstone(ms[|ms| - 1], k) then Some(ms[..|ms| - 1])
    else BeforeTombstone(ms[..|ms| - 1], k)
  }

  /** The callbacks about `k` that its results call for: the steps of its history, once for each
      stretch between tombstones, each starting over from "never run". */
  function EpochSteps(ms: seq<Message>, k: Key, results: (seq<Message>, Key) -> seq<RunState>): seq<Transition>
    decreases |ms|
  {
    Earlier(ms, k, results) + Steps(k, History(results(Since(ms, k), k)))
  }

  function Earlier(ms: seq<Message>, k: Key, results: (seq<Message>, Key) -> seq<RunState>): seq<Transition>
    decreases |ms|, 0
  {
    var before := BeforeTombstone(ms, k);
    if before.None? then [] else EpochSteps(before.value, k, results)
  }

  lemma RecordEvents(t: Table, state: RunState, k: Key, states: seq<RunState>)
    requires Find(t.states, k) == Last(states)
    ensures EventsOf(Record(t, k, state).events, k)
         == if LastResult(states) != state.result
            then EventsOf(t.events, k) + [Transition(k, LastResult(states), state.result)]
            else EventsOf(t.events, k)
  {
    var prev := if k in t.states then t.states[k].result else NeverRun;
    EventsOfNotify(t.events, k, prev, state.result, k);
  }

  /** A log that gains a step exactly when the result changes keeps up with the history. */
  lemma LogStep(log: seq<Transition>, log': seq<Transition>, k: Key, states: seq<RunState>, state: RunState,
                earlier: seq<Transition>)
    requires log == earlier + Steps(k, History(states))
    requires log' == if LastResult(states) != state.result
                     then log + [Transition(k, LastResult(states), state.result)] else log
    ensures log' == earlier + Steps(k, History(states + [state]))
  {
    HistoryStep(k, states, state);
    AppendAssociates(earlier, Steps(k, History(states)), [Transition(k, LastResult(states), state.result)]);
  }

  lemma AppendAssociates<T>(a: seq<T>, b: seq<T>, c: seq<T>)
    ensures a + b + c == a + (b + c)
  {}

  lemma RecordStep(t: Table, state: RunState, k: Key, states: seq<RunState>, earlier: seq<Transition>)
    requires Find(t.states, k) == Last(states)
    requires EventsOf(t.events, k) == earlier + Steps(k, History(states))
    ensures EventsOf(Record(t, k, state).events, k) == earlier + Steps(k, History(states + [state]))
  {
    RecordEvents(t, state, k, states);
    LogStep(EventsOf(t.events, k), EventsOf(Record(t, k, state).events, k), k, states, state, earlier);
  }

  /** One more message: a tombstone closes the current stretch, anything else extends it. */
  lemma EpochStep(ms: seq<Message>, k: Key, results: (seq<Message>, Key) -> seq<RunState>)
    requires ms != []
    ensures var before, m := ms[..|ms| - 1], ms[|ms| - 1];
            if Tombstone(m, k) then
              Since(ms, k) == [] && Earlier(ms, k, results) == EpochSteps(before, k, results)
            else
              Since(ms, k) == Since(before, k) + [m] && Earlier(ms, k, results) == Earlier(before, k, results)
  {}

  /** Only its own results, and for a Heartbeat its pings, add callbacks about a CR. */
  lemma ProbeEventsStep(c: Contents, m: Message, k: Key)
    requires k.kind != Heartbeat
    ensures EventsOf(Handle(c, m).probes.events, k)
         == if m.ProbeMsg? && m.key == k then EventsOf(Record(c.probes, k, m.state).events, k)
            else EventsOf(c.probes.events, k)
  {}

  lemma TestEventsStep(c: Contents, m: Message, k: Key)
    ensures EventsOf(Handle(c, m).tests.events, k)
         == if m.TestMsg? && m.key == k
            then EventsOf(Record(c.tests, k, TestState(m.success, m.lastRun)).events, k)
            else EventsOf(c.tests.events, k)
  {}

  lemma ResultsStep(live: seq<Message>, m: Message, k: Key)
    ensures ProbeResults(live + [m], k)
         == if m.ProbeMsg? && m.key == k then ProbeResults(live, k) + [m.state] else ProbeResults(live, k)
    ensures TestResults(live + [m], k)
         == if m.TestMsg? && m.key == k then TestResults(live, k) + [TestState(m.success, m.lastRun)]
            else TestResults(live, k)
  {
    assert (live + [m])[..|live|] == live;
  }

  /** For every run and every probe, deleted or not. */
  lemma {:induction false} ProbeTransitionsAreHistory(ms: seq<Message>, k: Key)
    requires k.kind != Heartbeat
    ensures EventsOf(Run(Empty, ms).probes.events, k) == EpochSteps(ms, k, ProbeResults)
  {
    if ms != [] {
      var before, m := ms[..|ms| - 1], ms[|ms| - 1];
      ProbeTransitionsAreHistory(before, k);
      ResultsAreHistory(before, k);
      EpochStep(ms, k, ProbeResults);
      ProbeEventsStep(Run(Empty, before), m, k);
      ResultsStep(Since(before, k), m, k);
      if m.ProbeMsg? && m.key == k {
        RecordStep(Run(Empty, before).probes, m.state, k,
                   ProbeResults(Since(before, k), k), Earlier(before, k, ProbeResults));
      }
    }
  }

  /** For every run and every test, deleted or not. */
  lemma {:induction false} TestTransitionsAreHistory(ms: seq<Message>, k: Key)
    ensures EventsOf(Run(Empty, ms).tests.events, k) == EpochSteps(ms, k, TestResults)
  {
    if ms != [] {
      var before, m := ms[..|ms| - 1], ms[|ms| - 1];
      TestTransitionsAreHistory(before, k);
      ResultsAreHistory(before, k);
      EpochStep(ms, k, TestResults);
      TestEventsStep(Run(Empty, before), m, k);
      ResultsStep(Since(before, k), m, k);
      if m.TestMsg? && m.key == k {
        RecordStep(Run(Empty, before).tests, TestState(m.success, m.lastRun), k,
                   TestResults(Since(before, k), k), Earlier(before, k, TestResults));
      }
    }
  }
}
