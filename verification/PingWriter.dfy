/** The throttled writer that persists the last ping to Heartbeat status, and what a restart that
    reseeds from that status can get wrong. Durations and instants are nanoseconds; the persisted
    ping time, like every replayed or received one, is whole Unix seconds. */
module PingWriter {
  import opened Common
  import Lifecycle

  const Second: int := 1_000_000_000

  datatype Beat = Beat(
    period: int, grace: int, suspend: bool, lastPing: Option<int>, lastResult: string)

  datatype Ping = Ping(name: Name, at: int, failed: bool)

  function Unix(at: int): int {
    at / Second
  }

  function ResultOf(failed: bool): string {
    if failed then "failed" else "ok"
  }

  /** The Heartbeats at the API server and the writer's throttle. */
  datatype World = World(beats: map<Name, Beat>, lastWrite: map<Name, int>)

  predicate Writes(w: World, p: Ping, override: int)
    requires p.name in w.beats
  {
    var b := w.beats[p.name];
    Lifecycle.ShouldPersistPing(
      if p.name in w.lastWrite then w.lastWrite[p.name] else 0, p.name in w.lastWrite, p.at,
      ResultOf(p.failed) != b.lastResult, Lifecycle.WriteInterval(b.period, override))
  }

  function Ingest(w: World, p: Ping, override: int, readFails: bool, patchFails: bool): World {
    if readFails || p.name !in w.beats || !Writes(w, p, override) then w
    else if patchFails then w.(lastWrite := w.lastWrite - {p.name})
    else
      World(w.beats[p.name := w.beats[p.name].(lastPing := Some(Unix(p.at)), lastResult := ResultOf(p.failed))],
            w.lastWrite[p.name := p.at])
  }

  class ApiServer {
    var beats: map<Name, Beat>
  }

  class HeartbeatPingWriter {
    const minWriteInterval: int
    var lastWrite: map<Name, int>

    constructor (minWriteInterval: int)
      ensures this.minWriteInterval == minWriteInterval && lastWrite == map[]
    {
      this.minWriteInterval := minWriteInterval;
      lastWrite := map[];
    }

    method ShouldWrite(name: Name, at: int, outcomeChanged: bool, throttle: int) returns (write: bool)
      modifies this
      ensures write == Lifecycle.ShouldPersistPing(
                if name in old(lastWrite) then old(lastWrite)[name] else 0, name in old(lastWrite), at,
                outcomeChanged, throttle)
      ensures lastWrite == if write then old(lastWrite)[name := at] else old(lastWrite)
    {
      var previous := if name in lastWrite then lastWrite[name] else 0;
      if !Lifecycle.ShouldPersistPing(previous, name in lastWrite, at, outcomeChanged, throttle) {
        return false;
      }
      lastWrite := lastWrite[name := at];
      return true;
    }

    method Forget(name: Name)
      modifies this
      ensures lastWrite == old(lastWrite) - {name}
    {
      lastWrite := lastWrite - {name};
    }

    /** The reads and patches may fail; a read that fails is indistinguishable from a missing CR. */
    method OnPing(api: ApiServer, ping: Ping, readFails: bool, patchFails: bool)
      modifies this, api
      ensures World(api.beats, lastWrite)
           == Ingest(World(old(api.beats), old(lastWrite)), ping, minWriteInterval, readFails, patchFails)
    {
      if readFails || ping.name !in api.beats {
        return;
      }
      var beat := api.beats[ping.name];
      var result := ResultOf(ping.failed);
      var throttle := Lifecycle.WriteInterval(beat.period, minWriteInterval);
      var write := ShouldWrite(ping.name, ping.at, result != beat.lastResult, throttle);
      if !write {
        return;
      }
      if patchFails {
        Forget(ping.name);
      } else {
        api.beats := api.beats[ping.name := beat.(lastPing := Some(Unix(ping.at)), lastResult := result)];
      }
    }
  }

  // ----- runs of pings, interleaved over any number of Heartbeats

  function Run(beats: map<Name, Beat>, pings: seq<Ping>, override: int): World {
    if pings == [] then World(beats, map[])
    else Ingest(Run(beats, pings[..|pings| - 1], override), pings[|pings| - 1], override, false, false)
  }

  function LastFor(pings: seq<Ping>, n: Name): Option<Ping> {
    if pings == [] then None
    else if pings[|pings| - 1].name == n then Some(pings[|pings| - 1])
    else LastFor(pings[..|pings| - 1], n)
  }

  /** The state a spec carrying this CR's status seeds in an empty store. */
  function Seeded(b: Beat): Lifecycle.State {
    Lifecycle.ApplySpec(
      Lifecycle.Zero, false, Seconds(b.period), Seconds(b.grace), b.suspend,
      Lifecycle.Seed(if b.lastPing.Some? then b.lastPing.value else 0, b.lastResult == "failed"))
  }

  /** A duration in nanoseconds as the wire carries it: truncated toward zero. */
  function Milliseconds(ns: int): int {
    if ns >= 0 then ns / 1_000_000 else -(-ns / 1_000_000)
  }

  function Seconds(ns: int): real {
    Lifecycle.Seconds(Milliseconds(ns))
  }

  /** The store that has been running all along and saw every ping. */
  function Live(b: Beat, pings: seq<Ping>, n: Name): Lifecycle.State {
    if pings == [] then Seeded(b)
    else
      var s, p := Live(b, pings[..|pings| - 1], n), pings[|pings| - 1];
      if p.name == n then Lifecycle.RecordPing(s, p.failed, 0, Unix(p.at)) else s
  }

  /** The last delivered ping of `n` among those received at the latest second. */
  function Newest(pings: seq<Ping>, n: Name): Option<Ping> {
    if pings == [] then None
    else
      var before, p := Newest(pings[..|pings| - 1], n), pings[|pings| - 1];
      if p.name == n && (before.None? || Unix(p.at) >= Unix(before.value.at)) then Some(p) else before
  }

  /** The last delivered ping of `n` is at the latest second. Pings before it may come in any order. */
  predicate EndsWithNewest(pings: seq<Ping>, n: Name) {
    LastFor(pings, n) == Newest(pings, n)
  }

  lemma {:induction false} NewestIsLatest(pings: seq<Ping>, n: Name)
    ensures LastFor(pings, n).Some? == Newest(pings, n).Some?
    ensures forall p :: p in pings && p.name == n ==>
              Newest(pings, n).Some? && Unix(p.at) <= Unix(Newest(pings, n).value.at)
  {
    if pings != [] {
      NewestIsLatest(pings[..|pings| - 1], n);
      assert pings == pings[..|pings| - 1] + [pings[|pings| - 1]];
    }
  }

  /** What the writer knows and has persisted about `n` after its last delivered ping `p`. */
  ghost predicate Tracks(w: World, p: Ping, override: int) {
    && p.name in w.beats && p.name in w.lastWrite
    && var b, at := w.beats[p.name], w.lastWrite[p.name];
       && b.lastPing == Some(Unix(at))
       && b.lastResult == ResultOf(p.failed)
       && (at == p.at || p.at - at < Lifecycle.WriteInterval(b.period, override))
  }

  lemma IngestTracks(w: World, prev: Option<Ping>, p: Ping, override: int)
    requires p.name in w.beats
    requires prev.None? ==> p.name !in w.lastWrite
    requires prev.Some? ==> prev.value.name == p.name && Tracks(w, prev.value, override)
    ensures Tracks(Ingest(w, p, override, false, false), p, override)
    ensures SameContract(Ingest(w, p, override, false, false).beats[p.name], w.beats[p.name])
  {}

  predicate SameContract(a: Beat, b: Beat) {
    a.period == b.period && a.grace == b.grace && a.suspend == b.suspend
  }

  /** In whatever order pings are delivered, and however they interleave with those of others: after
      every ping the persisted outcome is that ping's, the persisted time is that of a delivered
      ping, and the last ping is not a write interval or more past it. */
  lemma {:induction false} StatusTracksPings(beats: map<Name, Beat>, pings: seq<Ping>, n: Name, override: int)
    requires n in beats
    ensures var w := Run(beats, pings, override);
            && n in w.beats
            && SameContract(w.beats[n], beats[n])
            && (n in w.lastWrite ==> exists q :: q in pings && q.name == n && q.at == w.lastWrite[n])
            && match LastFor(pings, n)
               case None => n !in w.lastWrite && w.beats[n] == beats[n]
               case Some(p) => p.name == n && Tracks(w, p, override)
  {
    if pings != [] {
      var before, p := pings[..|pings| - 1], pings[|pings| - 1];
      assert pings == before + [p];
      StatusTracksPings(beats, before, n, override);
      if p.name == n {
        IngestTracks(Run(beats, before, override), LastFor(before, n), p, override);
      }
    }
  }

  /** In whatever order pings are delivered: the live store has the newest ping's instant and
      outcome, or the seed's where every ping is older. */
  lemma {:induction false} LiveTracksPings(b: Beat, pings: seq<Ping>, n: Name)
    ensures var s, o := Live(b, pings, n), Seeded(b);
            && s.period == o.period && s.grace == o.grace && o.lastPing >= 0
            && match Newest(pings, n)
               case None => s == o
               case Some(p) =>
                 if Unix(p.at) >= o.lastPing then s.lastPing == Unix(p.at) && s.reportedFailure == p.failed
                 else s.lastPing == o.lastPing && s.reportedFailure == o.reportedFailure
  {
    if pings != [] {
      LiveTracksPings(b, pings[..|pings| - 1], n);
    }
  }

  lemma UnixMonotone(a: int, b: int)
    requires a <= b
    ensures Unix(a) <= Unix(b)
    ensures Second * (Unix(b) - Unix(a)) < b - a + Second
  {}

  /** Restart at any point of any run, in any delivery order: the reseeded deadline is never later
      than the live one, and the two differ by the seconds between their last pings. */
  lemma {:induction false} ReseedIsNeverLater(beats: map<Name, Beat>, pings: seq<Ping>, n: Name, override: int)
    requires n in beats
    ensures var w := Run(beats, pings, override);
            n in w.beats &&
            var reseeded, live := Seeded(w.beats[n]), Live(beats[n], pings, n);
            && reseeded.lastPing <= live.lastPing
            && Lifecycle.Deadline(reseeded) <= Lifecycle.Deadline(live)
            && Lifecycle.Deadline(live) - Lifecycle.Deadline(reseeded)
            == (live.lastPing - reseeded.lastPing) as real
  {
    StatusTracksPings(beats, pings, n, override);
    LiveTracksPings(beats[n], pings, n);
    NewestIsLatest(pings, n);
    var reseeded, live := Seeded(Run(beats, pings, override).beats[n]), Live(beats[n], pings, n);
    assert reseeded.lastPing <= live.lastPing;
    assert (live.lastPing - reseeded.lastPing) as real == live.lastPing as real - reseeded.lastPing as real;
  }

  ghost predicate OkImpliesOk(reseeded: Lifecycle.State, live: Lifecycle.State) {
    forall now :: Lifecycle.Evaluate(reseeded, now) == Lifecycle.Ok ==> Lifecycle.Evaluate(live, now) == Lifecycle.Ok
  }

  /** What decides the live outcome: the newest ping, unless the seed is newer still. */
  function NewestFailed(b: Beat, pings: seq<Ping>, n: Name): bool {
    var p := Newest(pings, n);
    if p.Some? && Unix(p.value.at) >= Seeded(b).lastPing then p.value.failed else Seeded(b).reportedFailure
  }

  /** In whatever order pings are delivered: a reseeded ok is a live ok at every instant if and only
      if the last delivered ping reported a failure or the newest one did not. */
  lemma ReseedOkIff(beats: map<Name, Beat>, pings: seq<Ping>, n: Name, override: int)
    requires n in beats && LastFor(pings, n).Some?
    requires forall p :: p in pings && p.name == n ==> p.at >= Second
    ensures var w := Run(beats, pings, override);
            n in w.beats &&
            (OkImpliesOk(Seeded(w.beats[n]), Live(beats[n], pings, n)) <==>
               LastFor(pings, n).value.failed || !NewestFailed(beats[n], pings, n))
  {
    StatusTracksPings(beats, pings, n, override);
    LiveTracksPings(beats[n], pings, n);
    ReseedIsNeverLater(beats, pings, n, override);
    NewestIsLatest(pings, n);
    var w := Run(beats, pings, override);
    var reseeded, live := Seeded(w.beats[n]), Live(beats[n], pings, n);
    var q :| q in pings && q.name == n && q.at == w.lastWrite[n];
    UnixMonotone(Second, q.at);
    assert reseeded.lastPing == Unix(q.at) >= 1;
    assert reseeded.reportedFailure == LastFor(pings, n).value.failed;
    if !reseeded.reportedFailure {
      var now := Lifecycle.Deadline(reseeded).Floor;
      assert Lifecycle.Evaluate(reseeded, now) == Lifecycle.Ok;
    }
  }

  /** How far the persisted second can lag behind the last ping's under the default throttle. */
  lemma LagIsSmall(at: int, last: int, period: int)
    requires at == last || last - at < period / 4
    requires period > 0
    ensures 4 * Second * (Unix(last) - Unix(at)) < period + 4 * Second
  {
    if at <= last {
      UnixMonotone(at, last);
    } else {
      UnixMonotone(last, at);
    }
  }

  /** If the last delivered ping is the newest, and not older than the status it found, the reseeded
      deadline is earlier by less than a quarter period and a second (default throttle), and
      whenever the reseeded state reads ok so does the live one. */
  lemma ReseedIsSafe(beats: map<Name, Beat>, pings: seq<Ping>, n: Name, override: int)
    requires n in beats && EndsWithNewest(pings, n)
    requires LastFor(pings, n).Some? ==> Unix(LastFor(pings, n).value.at) >= Seeded(beats[n]).lastPing
    ensures var w := Run(beats, pings, override);
            n in w.beats &&
            var reseeded, live := Seeded(w.beats[n]), Live(beats[n], pings, n);
            && Lifecycle.Deadline(reseeded) <= Lifecycle.Deadline(live)
            && Lifecycle.Deadline(live) - Lifecycle.Deadline(reseeded)
            == (live.lastPing - reseeded.lastPing) as real
            && (override <= 0 < beats[n].period ==>
                  4 * Second * (live.lastPing - reseeded.lastPing) < beats[n].period + 4 * Second)
            && OkImpliesOk(reseeded, live)
  {
    StatusTracksPings(beats, pings, n, override);
    LiveTracksPings(beats[n], pings, n);
    ReseedIsNeverLater(beats, pings, n, override);
    var last := LastFor(pings, n);
    if last.Some? {
      var at := Run(beats, pings, override).lastWrite[n];
      if override <= 0 < beats[n].period {
        LagIsSmall(at, last.value.at, beats[n].period);
      }
    }
  }

  /** Nondecreasing delivery ends with the newest ping. */
  lemma {:induction false} InOrderEndsWithNewest(pings: seq<Ping>, n: Name)
    requires forall i, j | 0 <= i < j < |pings| :: pings[i].name == n && pings[j].name == n ==> pings[i].at <= pings[j].at
    ensures EndsWithNewest(pings, n)
    ensures LastFor(pings, n).Some? ==> exists i :: 0 <= i < |pings| && pings[i] == LastFor(pings, n).value && pings[i].name == n
  {
    if pings != [] {
      var before := pings[..|pings| - 1];
      InOrderEndsWithNewest(before, n);
      if LastFor(before, n).Some? {
        var i :| 0 <= i < |before| && before[i] == LastFor(before, n).value && before[i].name == n;
        assert pings[i] == before[i];
        if pings[|pings| - 1].name == n {
          UnixMonotone(pings[i].at, pings[|pings| - 1].at);
        }
      }
    }
  }

  /** The write interval, in nanoseconds: the override, else a quarter of the period, else 15s. */
  function Gap(b: Beat, override: int): int {
    if override > 0 then override else if b.period > 0 then b.period / 4 else 15_000_000_000
  }

  /** What one more ping does, after every run and in numbers: it is written, whole seconds and
      outcome, if it is the first seen, brings another outcome or comes a write interval or more
      after the last write; otherwise it changes nothing at all. */
  lemma WrittenIff(beats: map<Name, Beat>, pings: seq<Ping>, p: Ping, override: int)
    requires p.name in beats
    ensures var w, w' := Run(beats, pings, override), Run(beats, pings + [p], override);
            var n, result := p.name, if p.failed then "failed" else "ok";
            n in w.beats &&
            if n !in w.lastWrite || w.beats[n].lastResult != result || p.at - w.lastWrite[n] >= Gap(beats[n], override)
            then
              && w'.lastWrite == w.lastWrite[n := p.at]
              && w'.beats == w.beats[n := w.beats[n].(lastPing := Some(p.at / 1_000_000_000), lastResult := result)]
            else
              w' == w
  {
    assert (pings + [p])[..|pings|] == pings;
    StatusTracksPings(beats, pings, p.name, override);
  }

  /** A ping that cannot be read for, or whose CR is gone, changes nothing; a failed patch changes no
      status. */
  lemma FailuresLeaveStatus(w: World, p: Ping, override: int, readFails: bool, patchFails: bool)
    ensures readFails || p.name !in w.beats ==> Ingest(w, p, override, readFails, patchFails) == w
    ensures patchFails ==> Ingest(w, p, override, readFails, patchFails).beats == w.beats
  {}

  predicate Written(beats: map<Name, Beat>, pings: seq<Ping>, override: int, i: nat)
    requires i < |pings|
  {
    var w := Run(beats, pings[..i], override);
    pings[i].name in w.beats && Writes(w, pings[i], override)
  }

  /** Between two writes the throttle and the persisted outcome stand still. */
  lemma {:induction false} HeldBetween(beats: map<Name, Beat>, pings: seq<Ping>, override: int, i: nat, k: nat)
    requires i < k <= |pings| && pings[i].name in beats && Written(beats, pings, override, i)
    requires forall m: nat | i < m < k && pings[m].name == pings[i].name :: !Written(beats, pings, override, m)
    ensures var w, n := Run(beats, pings[..k], override), pings[i].name;
            && n in w.beats && n in w.lastWrite && w.lastWrite[n] == pings[i].at
            && w.beats[n].lastResult == ResultOf(pings[i].failed) && w.beats[n].period == beats[n].period
    decreases k
  {
    assert pings[..k][..k - 1] == pings[..k - 1];
    StatusTracksPings(beats, pings[..k], pings[i].name, override);
    if k > i + 1 {
      HeldBetween(beats, pings, override, i, k - 1);
      assert pings[k - 1].name == pings[i].name ==> !Written(beats, pings, override, k - 1);
    }
  }

  /** Over every run: two successive writes of one Heartbeat with the same outcome are at least the
      write interval apart. */
  lemma WritesAreSpaced(beats: map<Name, Beat>, pings: seq<Ping>, override: int, i: nat, j: nat)
    requires i < j < |pings| && pings[i].name == pings[j].name && pings[i].name in beats
    requires Written(beats, pings, override, i) && Written(beats, pings, override, j)
    requires pings[i].failed == pings[j].failed
    requires forall m: nat | i < m < j && pings[m].name == pings[i].name :: !Written(beats, pings, override, m)
    ensures pings[j].at - pings[i].at >= Gap(beats[pings[i].name], override)
  {
    HeldBetween(beats, pings, override, i, j);
  }

  /** After a failed write the next ping of that Heartbeat is persisted, whatever other pings, and
      whatever failures, come in between. */
  lemma FailedWriteIsRetried(w: World, lost: Ping, between: seq<(Ping, bool, bool)>, next: Ping, override: int)
    requires lost.name in w.beats && Writes(w, lost, override)
    requires next.name == lost.name && forall x :: x in between ==> x.0.name != lost.name
    ensures var w' := Replay(Ingest(w, lost, override, false, true), between, override);
            var end := Ingest(w', next, override, false, false);
            && next.name in end.beats
            && end.beats[next.name].lastPing == Some(Unix(next.at))
            && end.beats[next.name].lastResult == ResultOf(next.failed)
  {
    OthersDoNotThrottle(Ingest(w, lost, override, false, true), between, lost.name, override);
  }

  function Replay(w: World, events: seq<(Ping, bool, bool)>, override: int): World
    decreases |events|
  {
    if events == [] then w
    else Replay(Ingest(w, events[0].0, override, events[0].1, events[0].2), events[1..], override)
  }

  lemma {:induction false} OthersDoNotThrottle(w: World, events: seq<(Ping, bool, bool)>, n: Name, override: int)
    requires n in w.beats && n !in w.lastWrite && forall x :: x in events ==> x.0.name != n
    ensures var w' := Replay(w, events, override); n in w'.beats && n !in w'.lastWrite
    decreases |events|
  {
    if events != [] {
      assert events[0] in events;
      OthersDoNotThrottle(Ingest(w, events[0].0, override, events[0].1, events[0].2), events[1..], n, override);
    }
  }

  /** Otherwise a restart can hide a failure: a late-delivered older success overwrites the status of
      a newer failure, so the reseeded state reads ok while the live one reads reported failure. */
  lemma OutOfOrderReseedHidesFailure(n: Name, b: Beat, at: int)
    requires at >= 2 * Second && b.lastPing.None?
    ensures var pings := [Ping(n, at, true), Ping(n, at - Second, false)];
            var w := Run(map[n := b], pings, 0);
            n in w.beats && !OkImpliesOk(Seeded(w.beats[n]), Live(b, pings, n))
  {
    var p, q := Ping(n, at, true), Ping(n, at - Second, false);
    var pings := [p, q];
    assert pings[..1] == [p] && [p][..0] == [];
    assert Newest([], n) == None && LastFor(pings, n) == Some(q);
    assert Newest([p], n) == Some(p);
    assert Unix(at) == Unix(at - Second) + 1;
    assert Newest(pings, n) == Some(p);
    UnixMonotone(2 * Second, at);
    ReseedOkIff(map[n := b], pings, n, 0);
  }
}
