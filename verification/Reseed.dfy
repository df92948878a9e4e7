/** A Heartbeat CR, the spec published for it, and the stores of a consumer that has been running and
    of one that has just started: the status writer and the metrics stream together. */
module Reseed {
  import opened Common
  import opened DependencyGraph
  import opened MetricsStore
  import opened StoreStream
  import Lifecycle
  import PingWriter

  function KeyOf(n: Name): Key {
    HeartbeatKey(n.ns, n.name)
  }

  /** What else a Heartbeat's spec update carries. */
  datatype Extras = Extras(token: string, depends: seq<Ref>, labels: map<string, string>)

  /** The spec update the controller publishes for a Heartbeat. */
  function SpecOf(n: Name, b: PingWriter.Beat, x: Extras): SpecUpdate {
    SpecUpdate(KeyOf(n), false, b.suspend, x.depends, x.labels, Some(HeartbeatPayload(
      x.token, PingWriter.Milliseconds(b.period), PingWriter.Milliseconds(b.grace),
      if b.lastPing.Some? then b.lastPing.value else 0, b.lastResult)))
  }

  /** A ping as the consumer receives it, at any time of its clock. */
  function Received(p: PingWriter.Ping, now: int): Message {
    PingMsg(p.name.ns, p.name.name, p.failed, 0, p.at / 1_000_000_000, now)
  }

  function Stream(n: Name, b: PingWriter.Beat, x: Extras, pings: seq<PingWriter.Ping>, nows: seq<int>): seq<Message>
    requires |nows| == |pings|
  {
    [SpecMsg(SpecOf(n, b, x))] + seq(|pings|, i requires 0 <= i < |pings| => Received(pings[i], nows[i]))
  }

  /** `seconds` is `ns` cut to a whole millisecond. */
  ghost predicate Cut(ns: int, seconds: real) {
    var ms := (seconds * 1000.0).Floor;
    seconds * 1000.0 == ms as real && 1_000_000 * ms <= ns < 1_000_000 * (ms + 1)
  }

  lemma CutSeconds(ns: int)
    requires ns >= 0
    ensures Cut(ns, PingWriter.Seconds(ns))
  {
    var ms := ns / 1_000_000;
    assert PingWriter.Seconds(ns) * 1000.0 == ms as real;
  }

  /** A consumer that has just started has the CR's own contract, cut to whole milliseconds, and the
      instant and outcome of its status. */
  lemma FreshStore(n: Name, b: PingWriter.Beat, x: Extras)
    ensures Find(Run(Empty, [SpecMsg(SpecOf(n, b, x))]).heartbeats, KeyOf(n)) == Some(PingWriter.Seeded(b))
    ensures var s := PingWriter.Seeded(b);
            && s.suspended == b.suspend
            && (b.period >= 0 ==> Cut(b.period, s.period)) && (b.grace >= 0 ==> Cut(b.grace, s.grace))
            && s.lastPing == (if b.lastPing.Some? && b.lastPing.value > 0 then b.lastPing.value else 0)
            && s.reportedFailure == (s.lastPing > 0 && b.lastResult == "failed")
  {
    HeartbeatsStep(Empty, SpecMsg(SpecOf(n, b, x)), KeyOf(n));
    assert [SpecMsg(SpecOf(n, b, x))][..0] == [];
    assert Run(Empty, []) == Empty;
    if b.period >= 0 {
      CutSeconds(b.period);
    }
    if b.grace >= 0 {
      CutSeconds(b.grace);
    }
  }

  lemma PingStep(c: Contents, n: Name, p: PingWriter.Ping, now: int)
    requires KeyOf(n) in c.heartbeats
    ensures Find(Handle(c, Received(p, now)).heartbeats, KeyOf(n))
         == var s := c.heartbeats[KeyOf(n)];
            Some(if p.name == n then Lifecycle.RecordPing(s, p.failed, 0, PingWriter.Unix(p.at)) else s)
  {
    HeartbeatsStep(c, Received(p, now), KeyOf(n));
  }

  lemma RunSnoc(before: seq<Message>, m: Message)
    ensures Run(Empty, before + [m]) == Handle(Run(Empty, before), m)
  {
    assert (before + [m])[..|before|] == before;
  }

  lemma StreamSnoc(n: Name, b: PingWriter.Beat, x: Extras, pings: seq<PingWriter.Ping>, nows: seq<int>)
    requires |nows| == |pings| && pings != []
    ensures var k := |pings| - 1;
            Stream(n, b, x, pings, nows) == Stream(n, b, x, pings[..k], nows[..k]) + [Received(pings[k], nows[k])]
  {}

  /** A consumer that has been running has what the status writer's theorems call the live state. */
  lemma {:induction false} RunningStore(
    n: Name, b: PingWriter.Beat, x: Extras, pings: seq<PingWriter.Ping>, nows: seq<int>)
    requires |nows| == |pings|
    ensures Find(Run(Empty, Stream(n, b, x, pings, nows)).heartbeats, KeyOf(n))
         == Some(PingWriter.Live(b, pings, n))
  {
    if pings == [] {
      assert Stream(n, b, x, pings, nows) == [SpecMsg(SpecOf(n, b, x))];
      FreshStore(n, b, x);
    } else {
      var k := |pings| - 1;
      var before := Stream(n, b, x, pings[..k], nows[..k]);
      RunningStore(n, b, x, pings[..k], nows[..k]);
      StreamSnoc(n, b, x, pings, nows);
      RunSnoc(before, Received(pings[k], nows[k]));
      PingStep(Run(Empty, before), n, pings[k], nows[k]);
    }
  }

  /** What a store says of a Heartbeat. */
  function Says(c: Contents, n: Name, now: int): Option<Lifecycle.Result> {
    if KeyOf(n) in c.heartbeats then Some(Lifecycle.Evaluate(c.heartbeats[KeyOf(n)], now)) else None
  }

  /** From the CR to both stores, over every run of pings, in whatever order: a consumer that has just
      started from the republished spec never says ok where the one that has been running does not,
      if and only if the last delivered ping reported a failure or the newest one did not. */
  lemma RestartedStoreOkIff(
    beats: map<Name, PingWriter.Beat>, pings: seq<PingWriter.Ping>, nows: seq<int>, n: Name, override: int, x: Extras)
    requires |nows| == |pings| && n in beats && PingWriter.LastFor(pings, n).Some?
    requires forall p :: p in pings && p.name == n ==> p.at >= PingWriter.Second
    ensures var w := PingWriter.Run(beats, pings, override);
            n in w.beats &&
            var running := Run(Empty, Stream(n, beats[n], x, pings, nows));
            var restarted := Run(Empty, [SpecMsg(SpecOf(n, w.beats[n], x))]);
            ((forall now :: Says(restarted, n, now) == Some(Lifecycle.Ok) ==> Says(running, n, now) == Some(Lifecycle.Ok))
             <==> PingWriter.LastFor(pings, n).value.failed || !PingWriter.NewestFailed(beats[n], pings, n))
  {
    PingWriter.ReseedOkIff(beats, pings, n, override);
    var w := PingWriter.Run(beats, pings, override);
    RunningStore(n, beats[n], x, pings, nows);
    FreshStore(n, w.beats[n], x);
    var running := Run(Empty, Stream(n, beats[n], x, pings, nows));
    var restarted := Run(Empty, [SpecMsg(SpecOf(n, w.beats[n], x))]);
    assert forall now :: Says(running, n, now) == Some(Lifecycle.Evaluate(PingWriter.Live(beats[n], pings, n), now));
    assert forall now :: Says(restarted, n, now) == Some(Lifecycle.Evaluate(PingWriter.Seeded(w.beats[n]), now));
  }
}
