/** The in-process probe scheduler: phase arithmetic and the life of its stop channels. */
module Scheduler {
  import opened Common
  import opened Modular

  // ----- phase, in nanoseconds

  /** `sum` is the nonnegative 63-bit FNV hash of the probe's identity. */
  function ProbeOffsetHash(sum: nat, interval: int): (offset: int)
    ensures interval > 0 ==> 0 <= offset < interval
  {
    if interval <= 0 then 0 else sum % interval
  }

  /** Go's remainder: the sign of the dividend. */
  function Rem(x: int, m: int): int
    requires m > 0
  {
    if x >= 0 then x % m else -(-x % m)
  }

  function InitialDelay(now: int, interval: int, offset: int): int {
    if interval <= 0 then 0
    else
      var delay := offset - Rem(now, interval);
      if delay <= 0 then delay + interval else delay
  }

  /** An instant of the probe's phase. */
  predicate OnPhase(x: int, interval: int, offset: int) {
    interval > 0 && x % interval == offset
  }

  lemma RemQuotient(x: int, m: int) returns (q: int)
    requires m > 0
    ensures x == q * m + Rem(x, m) && -m < Rem(x, m) < m
  {
    q := if x >= 0 then x / m else -(-x / m);
  }

  lemma DelayLands(now: int, interval: int, offset: int)
    requires 0 <= offset < interval
    ensures var d := InitialDelay(now, interval, offset);
            && 0 < d < 2 * interval
            && OnPhase(now + d, interval, offset)
            && (d <= interval <==> now >= 0 || offset + (-now) % interval <= interval)
  {
    var q := RemQuotient(now, interval);
    var d := InitialDelay(now, interval, offset);
    if offset - Rem(now, interval) > 0 {
      ModUnique(now + d, interval, q, offset);
    } else {
      assert (q + 1) * interval == q * interval + interval;
      ModUnique(now + d, interval, q + 1, offset);
    }
  }

  /** On every clock the delay is positive and lands on the probe's phase. It is the least such delay
      if and only if the clock is at or after 1970, or so far into its interval, counted back from
      1970, that the offset still fits into the rest. */
  lemma DelayIsLeast(now: int, interval: int, offset: int)
    requires 0 <= offset < interval
    ensures var d := InitialDelay(now, interval, offset);
            && 0 < d
            && OnPhase(now + d, interval, offset)
            && ((forall x | now < x < now + d :: !OnPhase(x, interval, offset)) <==>
                  now >= 0 || offset + (-now) % interval <= interval)
  {
    var d := InitialDelay(now, interval, offset);
    DelayLands(now, interval, offset);
    if d <= interval {
      forall x | now < x < now + d ensures !OnPhase(x, interval, offset) {
        ModAdd(x, interval, now + d - x);
      }
    } else {
      ModAdd(now + d - interval, interval, interval);
      assert OnPhase(now + d - interval, interval, offset);
    }
  }

  function Tick(start: int, interval: int, offset: int, k: nat): int {
    start + InitialDelay(start, interval, offset) + k * interval
  }

  /** The instants at which a loop started at `start` publishes, under an ideal timer. */
  ghost predicate FiresAt(start: int, interval: int, offset: int, x: int) {
    exists k: nat :: x == Tick(start, interval, offset, k)
  }

  /** A loop fires at exactly the instants of its phase from its first tick on, which from 1970 on
      are the ones after its start. */
  lemma FiresOnPhase(start: int, interval: int, offset: int, x: int)
    requires 0 <= offset < interval
    ensures FiresAt(start, interval, offset, x) <==>
              x >= start + InitialDelay(start, interval, offset) && OnPhase(x, interval, offset)
    ensures start >= 0 ==> (FiresAt(start, interval, offset, x) <==> x > start && OnPhase(x, interval, offset))
  {
    DelayIsLeast(start, interval, offset);
    DelayLands(start, interval, offset);
    var first := Tick(start, interval, offset, 0);
    if FiresAt(start, interval, offset, x) {
      var k: nat :| x == Tick(start, interval, offset, k);
      MulBound(k, interval);
      ModMultiple(first, interval, k);
    }
    if x >= first && OnPhase(x, interval, offset) {
      var k := SameResidue(first, x, interval);
      MulBound(k, interval);
      assert x == Tick(start, interval, offset, k);
    }
  }

  /** Restarting a loop does not move its phase: two loops agree on every instant after both first
      ticks, and from 1970 on on every instant after both starts. */
  lemma PhaseIsStable(a: int, b: int, interval: int, offset: int, x: int)
    requires 0 <= offset < interval
    requires || (x >= a + InitialDelay(a, interval, offset) && x >= b + InitialDelay(b, interval, offset))
             || (0 <= a < x && 0 <= b < x)
    ensures FiresAt(a, interval, offset, x) <==> FiresAt(b, interval, offset, x)
  {
    FiresOnPhase(a, interval, offset, x);
    FiresOnPhase(b, interval, offset, x);
  }

  // ----- lifecycle

  datatype ProbeKey = ProbeKey(kind: Kind, name: Name)
  datatype Spec = Spec(key: ProbeKey, intervalMs: int, body: string)

  /** A stop channel is known by the order in which it was made. */
  datatype Scheduled = Scheduled(spec: Spec, interval: int, stop: nat)

  datatype Table = Table(probes: map<ProbeKey, Scheduled>, started: bool, made: nat, closed: set<nat>)

  const Fresh: Table := Table(map[], false, 0, {})

  function Drop(t: Table, key: ProbeKey): Table {
    if key in t.probes then t.(closed := t.closed + {t.probes[key].stop}, probes := t.probes - {key}) else t
  }

  function Entry(spec: Spec, stop: nat): Scheduled {
    Scheduled(spec, spec.intervalMs * 1_000_000, stop)
  }

  function Stops(probes: map<ProbeKey, Scheduled>, keys: set<ProbeKey>): set<nat> {
    set k | k in keys && k in probes :: probes[k].stop
  }

  datatype Op = Start | Register(spec: Spec) | Unregister(key: ProbeKey) | Shutdown

  function Step(t: Table, op: Op): Table {
    match op
    case Start => t.(started := true)
    case Register(spec) =>
      var d := Drop(t, spec.key);
      if d.started then d.(probes := d.probes[spec.key := Entry(spec, d.made)], made := d.made + 1) else d
    case Unregister(key) => Drop(t, key)
    case Shutdown =>
      t.(closed := t.closed + Stops(t.probes, t.probes.Keys), probes := map[])
  }

  /** Entries sit under their own key and own their channel; the channels ever made are the closed
      ones and, disjointly, those in the map. */
  ghost predicate Sound(t: Table) {
    && (forall k :: k in t.probes ==> t.probes[k].spec.key == k)
    && Injective(t.probes)
    && t.closed !! Stops(t.probes, t.probes.Keys)
    && t.closed + Stops(t.probes, t.probes.Keys) == Made(t.made)
  }

  /** The channels made so far, when `n` have been made. */
  function Made(n: nat): (s: set<nat>)
    ensures forall c: nat :: c in s <==> c < n
  {
    if n == 0 then {} else Made(n - 1) + {n - 1}
  }

  ghost predicate Injective(probes: map<ProbeKey, Scheduled>) {
    forall j, k :: j in probes && k in probes && probes[j].stop == probes[k].stop ==> j == k
  }

  class ProbeScheduler {
    var probes: map<ProbeKey, Scheduled>
    var started: bool
    var made: nat
    var closed: set<nat>

    ghost function View(): Table
      reads this
    {
      Table(probes, started, made, closed)
    }

    constructor ()
      ensures View() == Fresh
    {
      probes, started, made, closed := map[], false, 0, {};
    }

    /** Closing a channel twice panics. */
    method Close(stop: nat)
      requires stop !in closed
      modifies this`closed
      ensures closed == old(closed) + {stop}
    {
      closed := closed + {stop};
    }

    method Begin()
      requires Sound(View())
      modifies this
      ensures View() == Step(old(View()), Start) && Sound(View())
    {
      started := true;
    }

    method Add(spec: Spec)
      requires Sound(View())
      modifies this
      ensures View() == Step(old(View()), Register(spec)) && Sound(View())
    {
      StepKeepsSound(View(), Register(spec));
      if spec.key in probes {
        assert probes[spec.key].stop in Stops(probes, probes.Keys);
        Close(probes[spec.key].stop);
        probes := probes - {spec.key};
      }
      if !started {
        return;
      }
      probes := probes[spec.key := Scheduled(spec, spec.intervalMs * 1_000_000, made)];
      made := made + 1;
    }

    method Remove(key: ProbeKey)
      requires Sound(View())
      modifies this
      ensures View() == Step(old(View()), Unregister(key)) && Sound(View())
    {
      StepKeepsSound(View(), Unregister(key));
      if key in probes {
        assert probes[key].stop in Stops(probes, probes.Keys);
        Close(probes[key].stop);
        probes := probes - {key};
      }
    }

    method CloseAll(entries: map<ProbeKey, Scheduled>)
      requires Injective(entries) && closed !! Stops(entries, entries.Keys)
      modifies this`closed
      ensures closed == old(closed) + Stops(entries, entries.Keys)
    {
      var rest := entries.Keys;
      while rest != {}
        invariant rest <= entries.Keys
        invariant closed == old(closed) + Stops(entries, entries.Keys - rest)
        decreases rest
      {
        var k :| k in rest;
        assert entries[k].stop in Stops(entries, entries.Keys);
        Close(entries[k].stop);
        rest := rest - {k};
        assert entries.Keys - rest == (entries.Keys - rest - {k}) + {k};
      }
    }

    method End()
      requires Sound(View())
      modifies this
      ensures View() == Step(old(View()), Shutdown) && Sound(View())
    {
      StepKeepsSound(View(), Shutdown);
      CloseAll(probes);
      probes := map[];
    }
  }

  lemma DropKeepsSound(t: Table, key: ProbeKey)
    requires Sound(t)
    ensures Sound(Drop(t, key))
  {
    if key in t.probes {
      StopsWithout(t.probes, key);
      assert t.probes[key].stop in Stops(t.probes, t.probes.Keys);
    }
  }

  lemma StopsWithout(probes: map<ProbeKey, Scheduled>, key: ProbeKey)
    requires Injective(probes) && key in probes
    ensures var rest := probes - {key};
            Stops(rest, rest.Keys) == Stops(probes, probes.Keys) - {probes[key].stop}
  {
    var rest := probes - {key};
    forall c | c in Stops(probes, probes.Keys) && c != probes[key].stop ensures c in Stops(rest, rest.Keys) {
      var k :| k in probes && probes[k].stop == c;
      assert k in rest.Keys && rest[k].stop == c;
    }
    forall c | c in Stops(rest, rest.Keys) ensures c in Stops(probes, probes.Keys) && c != probes[key].stop {
      var k :| k in rest.Keys && rest[k].stop == c;
      assert k in probes.Keys && probes[k].stop == c;
    }
  }

  lemma StopsWith(probes: map<ProbeKey, Scheduled>, key: ProbeKey, entry: Scheduled)
    requires key !in probes
    ensures var more := probes[key := entry];
            Stops(more, more.Keys) == Stops(probes, probes.Keys) + {entry.stop}
  {
    var more := probes[key := entry];
    forall c | c in Stops(probes, probes.Keys) ensures c in Stops(more, more.Keys) {
      var k :| k in probes && probes[k].stop == c;
      assert k in more.Keys && more[k].stop == c;
    }
    assert key in more.Keys && more[key].stop == entry.stop;
  }

  lemma AddKeepsSound(t: Table, spec: Spec)
    requires Sound(t) && spec.key !in t.probes
    ensures Sound(t.(probes := t.probes[spec.key := Entry(spec, t.made)], made := t.made + 1))
  {
    StopsWith(t.probes, spec.key, Entry(spec, t.made));
    assert t.made !in Made(t.made) && Made(t.made + 1) == Made(t.made) + {t.made};
    assert forall k :: k in t.probes ==> t.probes[k].stop in Stops(t.probes, t.probes.Keys);
  }

  lemma StepKeepsSound(t: Table, op: Op)
    requires Sound(t)
    ensures Sound(Step(t, op))
  {
    match op
    case Start =>
    case Unregister(key) => DropKeepsSound(t, key);
    case Shutdown => assert Stops(map[], {}) == {};
    case Register(spec) =>
      DropKeepsSound(t, spec.key);
      var d := Drop(t, spec.key);
      if d.started {
        AddKeepsSound(d, spec);
      }
  }

  function Run(ops: seq<Op>): Table {
    if ops == [] then Fresh else Step(Run(ops[..|ops| - 1]), ops[|ops| - 1])
  }

  /** The spec that ought to be running for `k`: the latest one registered, provided the scheduler
      had started by then and nothing has removed it since. */
  function Expected(ops: seq<Op>, k: ProbeKey): Option<Spec> {
    if ops == [] then None
    else
      var before, op := ops[..|ops| - 1], ops[|ops| - 1];
      match op
      case Start => Expected(before, k)
      case Register(spec) =>
        if spec.key != k then Expected(before, k) else if Start in before then Some(spec) else None
      case Unregister(key) => if key == k then None else Expected(before, k)
      case Shutdown => None
  }

  lemma {:induction false} RunIsSound(ops: seq<Op>)
    ensures Sound(Run(ops))
  {
    if ops != [] {
      RunIsSound(ops[..|ops| - 1]);
      StepKeepsSound(Run(ops[..|ops| - 1]), ops[|ops| - 1]);
    }
  }

  /** The entry of a key, if any, is a running spec at that spec's interval. */
  predicate Runs(t: Table, k: ProbeKey, spec: Option<Spec>) {
    if spec.Some? then
      k in t.probes && t.probes[k].spec == spec.value && t.probes[k].interval == spec.value.intervalMs * 1_000_000
    else k !in t.probes
  }

  lemma {:induction false} RunsExpected(ops: seq<Op>, k: ProbeKey)
    ensures Runs(Run(ops), k, Expected(ops, k)) && Run(ops).started == (Start in ops)
  {
    if ops != [] {
      assert ops == ops[..|ops| - 1] + [ops[|ops| - 1]];
      RunsExpected(ops[..|ops| - 1], k);
    }
  }

  /** Over every sequence of operations: no channel is closed twice, the open channels are exactly
      those in the map, and each key runs its latest registered spec at that spec's interval. */
  lemma SchedulerLifecycle(ops: seq<Op>, k: ProbeKey)
    ensures Sound(Run(ops)) && Runs(Run(ops), k, Expected(ops, k))
  {
    RunIsSound(ops);
    RunsExpected(ops, k);
  }
}
