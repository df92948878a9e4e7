/** Heartbeat state: seeding from a spec, ping ingestion and freshness. Instants are whole Unix
    seconds; periods and graces are fractional seconds. */
module Lifecycle {

  datatype Result = Ok | Pending | Missed | ReportedFailure

  datatype State = State(
    period: real, grace: real, lastPing: int, reportedFailure: bool, exitCode: int, suspended: bool)

  const Zero: State := State(0.0, 0.0, 0, false, 0, false)

  datatype Seed = Seed(lastPing: int, failed: bool)

  /** Milliseconds on the wire, seconds in the store. */
  function Seconds(ms: int): real {
    ms as real / 1000.0
  }

  function ApplySpec(s: State, existing: bool, period: real, grace: real, suspend: bool, seed: Seed): State {
    var s' := s.(period := period, grace := grace, suspended := suspend);
    if !existing && seed.lastPing > 0 then
      s'.(lastPing := seed.lastPing, reportedFailure := seed.failed)
    else
      s'
  }

  function RecordPing(s: State, failed: bool, exitCode: int, received: int): State {
    if received >= s.lastPing then
      s.(lastPing := received, reportedFailure := failed, exitCode := exitCode)
    else
      s
  }

  function Deadline(s: State): real {
    s.lastPing as real + s.period + (if s.grace <= 0.0 then s.period else s.grace)
  }

  function Evaluate(s: State, now: int): Result {
    if s.lastPing <= 0 then Pending
    else if now as real > Deadline(s) then Missed
    else if s.reportedFailure then ReportedFailure
    else Ok
  }

  /** The minimum gap between persisted status writes, in nanoseconds. */
  function WriteInterval(period: int, override: int): int {
    if override > 0 then override
    else if period > 0 then period / 4
    else 15_000_000_000
  }

  predicate ShouldPersistPing(previous: int, seen: bool, at: int, outcomeChanged: bool, interval: int) {
    !seen || outcomeChanged || at - previous >= interval
  }

  // ----- runs for one Heartbeat

  datatype Event =
    | Spec(period: real, grace: real, suspend: bool, seed: Seed)
    | Ping(failed: bool, exitCode: int, received: int)

  function Step(s: State, existing: bool, e: Event): State {
    match e
    case Spec(period, grace, suspend, seed) => ApplySpec(s, existing, period, grace, suspend, seed)
    case Ping(failed, exitCode, received) => RecordPing(s, failed, exitCode, received)
  }

  /** Events are handled in order; state exists from the first one on. */
  function Run(events: seq<Event>): State {
    if events == [] then Zero
    else Step(Run(events[..|events| - 1]), |events| > 1, events[|events| - 1])
  }

  /** What a run starts from: the seed of an opening spec. A run that opens with a ping has state
      before any spec, so no seed is ever applied to it. */
  function Opening(events: seq<Event>): Seed {
    if events != [] && events[0].Spec? && events[0].seed.lastPing > 0 then events[0].seed else Seed(0, false)
  }

  datatype Contract = Contract(period: real, grace: real, suspend: bool)

  /** The contract of the last spec of a run; none before the first. */
  function LastContract(events: seq<Event>): Contract {
    if events == [] then Contract(0.0, 0.0, false)
    else
      match events[|events| - 1]
      case Spec(period, grace, suspend, _) => Contract(period, grace, suspend)
      case Ping(_, _, _) => LastContract(events[..|events| - 1])
  }

  /** `e` is a ping of the run that the state `s` could have its instant and outcome from. */
  predicate Decides(events: seq<Event>, e: Event, s: State) {
    e in events && e.Ping? && e.received == s.lastPing && e.failed == s.reportedFailure && e.exitCode == s.exitCode
  }

  /** `s` has the maximum of the opening seed and every received ping as its last-ping instant, and
      the outcome of a ping received at that instant, or the seed's when every ping is older. */
  ghost predicate Summarises(events: seq<Event>, s: State) {
    var o := Opening(events);
    && s.lastPing >= o.lastPing
    && (forall e :: e in events && e.Ping? ==> e.received <= s.lastPing)
    && (|| (exists e :: Decides(events, e, s))
        || (&& s.lastPing == o.lastPing && s.exitCode == 0 && s.reportedFailure == o.failed
            && forall e :: e in events && e.Ping? ==> e.received < s.lastPing))
  }

  lemma PingSummarises(before: seq<Event>, s: State, e: Event)
    requires e.Ping? && Summarises(before, s)
    ensures Summarises(before + [e], Step(s, before != [], e))
  {
    var s' := Step(s, before != [], e);
    if e.received >= s.lastPing {
      assert Decides(before + [e], e, s');
    } else if d :| Decides(before, d, s) {
      assert Decides(before + [e], d, s');
    }
  }

  lemma SpecSummarises(before: seq<Event>, s: State, e: Event)
    requires e.Spec? && Summarises(before, s) && (before == [] ==> s == Zero)
    ensures Summarises(before + [e], Step(s, before != [], e))
  {
    if d :| Decides(before, d, s) {
      assert Decides(before + [e], d, Step(s, true, e));
    }
  }

  /** For every run, whatever it opens with, the final state summarises it and the contract is that
      of the last spec. */
  lemma {:induction false} RunSummary(events: seq<Event>)
    ensures var s := Run(events);
            Summarises(events, s) && Contract(s.period, s.grace, s.suspended) == LastContract(events)
  {
    if events != [] {
      var before, last := events[..|events| - 1], events[|events| - 1];
      RunSummary(before);
      assert events == before + [last];
      if last.Ping? {
        PingSummarises(before, Run(before), last);
      } else {
        SpecSummarises(before, Run(before), last);
      }
    }
  }

  /** The same opening seed, the same pings and the same last contract, in whatever order, however
      often delivered, and with whatever specs in between. */
  ghost predicate Rearranges(a: seq<Event>, b: seq<Event>) {
    && Opening(a) == Opening(b)
    && (forall e: Event :: e.Ping? ==> (e in a <==> e in b))
    && LastContract(a) == LastContract(b)
  }

  /** `e` is a ping received at the latest instant, and no earlier than the opening seed. */
  ghost predicate Latest(events: seq<Event>, e: Event) {
    && e in events && e.Ping? && e.received >= Opening(events).lastPing
    && forall f :: f in events && f.Ping? ==> f.received <= e.received
  }

  /** All pings received at the latest instant say the same. */
  ghost predicate LatestAgree(events: seq<Event>) {
    forall d, e :: Latest(events, d) && Latest(events, e) ==> d == e
  }

  /** Two arrangements of the same deliveries end in the same state if the latest pings agree. */
  lemma OrderInsensitive(a: seq<Event>, b: seq<Event>)
    requires Rearranges(a, b) && LatestAgree(a)
    ensures Run(a) == Run(b)
  {
    RunSummary(a);
    RunSummary(b);
    var s, t := Run(a), Run(b);
    if e :| Decides(a, e, s) {
      assert e in b && Latest(a, e);
    }
    if e :| Decides(b, e, t) {
      assert e in a && Latest(a, e);
    }
    assert s.lastPing == t.lastPing;
  }

  /** The same events in another order, with the same opening seed and the same last contract. */
  ghost predicate Reorders(a: seq<Event>, b: seq<Event>) {
    multiset(a) == multiset(b) && Opening(a) == Opening(b) && LastContract(a) == LastContract(b)
  }

  lemma ReorderRearranges(a: seq<Event>, b: seq<Event>)
    requires Reorders(a, b)
    ensures Rearranges(a, b)
  {
    forall e: Event ensures e in a <==> e in b {
      assert e in multiset(a) <==> e in multiset(b);
    }
  }

  function Without(a: seq<Event>, i: nat): seq<Event>
    requires i < |a|
  {
    a[..i] + a[i + 1..]
  }

  lemma WithoutOne(a: seq<Event>, i: nat)
    requires i < |a|
    ensures multiset(a) == multiset(Without(a, i)) + multiset{a[i]}
    ensures forall e :: e in Without(a, i) ==> e in a
  {
    assert a == a[..i] + [a[i]] + a[i + 1..];
  }

  /** Pings carry no contract. */
  lemma {:induction false} ContractWithoutPing(a: seq<Event>, i: nat)
    requires i < |a| && a[i].Ping?
    ensures LastContract(Without(a, i)) == LastContract(a)
  {
    var k := |a| - 1;
    if i == k {
      assert Without(a, i) == a[..k];
    } else {
      ContractWithoutPing(a[..k], i);
      assert Without(a, i) == Without(a[..k], i) + [a[k]];
      assert Without(a, i)[..k - 1] == Without(a[..k], i);
    }
  }

  /** Delivered last, a latest ping has the final say. */
  lemma LatestAtEnd(a: seq<Event>, before: seq<Event>, d: Event)
    requires Latest(a, d) && before != [] && Opening(before) == Opening(a)
    requires forall e :: e in before ==> e in a
    ensures var s := Run(before + [d]); s.reportedFailure == d.failed && s.exitCode == d.exitCode
  {
    RunSummary(before);
    assert (before + [d])[..|before|] == before;
    assert d.received >= Run(before).lastPing;
  }

  /** Bringing a ping to the front of a run. */
  lemma ToFront(a: seq<Event>, e: Event) returns (b: seq<Event>)
    requires e in a && e.Ping?
    ensures multiset(b) == multiset(a) && b != [] && b[0] == e && LastContract(b) == LastContract(a)
  {
    var j :| 0 <= j < |a| && a[j] == e;
    WithoutOne(a, j);
    ContractWithoutPing(a, j);
    b := [e] + Without(a, j);
    assert Without(b, 0) == Without(a, j);
    ContractWithoutPing(b, 0);
  }

  /** Taking a latest ping out of a run without changing what the run opens with: where it opened the
      run, another latest ping takes its place. */
  lemma TakeOut(a: seq<Event>, d: Event, e: Event) returns (rest: seq<Event>)
    requires Latest(a, d) && Latest(a, e) && d != e
    ensures multiset(a) == multiset(rest) + multiset{d}
    ensures rest != [] && Opening(rest) == Opening(a) && LastContract(rest) == LastContract(a)
  {
    var i :| 0 <= i < |a| && a[i] == d;
    rest := Without(a, i);
    WithoutOne(a, i);
    ContractWithoutPing(a, i);
    if i == 0 {
      assert e in multiset(rest);
      rest := ToFront(rest, e);
    } else {
      assert rest[0] == a[0];
    }
  }

  /** Of two latest pings, either one can be made to come last by reordering alone. */
  lemma LatestToEnd(a: seq<Event>, d: Event, e: Event) returns (b: seq<Event>)
    requires Latest(a, d) && Latest(a, e) && d != e
    ensures Reorders(a, b) && Run(b).reportedFailure == d.failed && Run(b).exitCode == d.exitCode
  {
    var rest := TakeOut(a, d, e);
    b := rest + [d];
    assert b[..|rest|] == rest;
    forall f | f in rest ensures f in a {
      assert f in multiset(a);
    }
    LatestAtEnd(a, rest, d);
  }

  /** Exactly when the order of delivery does not matter: every reordering of a run ends in the same
      state if and only if its latest pings agree, and then so does every arrangement of the same
      deliveries, repeated or not. */
  lemma OrderInsensitiveIff(a: seq<Event>)
    ensures (forall b :: Reorders(a, b) ==> Run(b) == Run(a)) <==> LatestAgree(a)
    ensures (forall b :: Rearranges(a, b) ==> Run(b) == Run(a)) <==> LatestAgree(a)
  {
    forall b | Reorders(a, b) ensures Rearranges(a, b) {
      ReorderRearranges(a, b);
    }
    if LatestAgree(a) {
      forall b | Rearranges(a, b) ensures Run(b) == Run(a) {
        OrderInsensitive(a, b);
      }
    }
    if forall b :: Reorders(a, b) ==> Run(b) == Run(a) {
      forall d, e | Latest(a, d) && Latest(a, e) ensures d == e {
        if d != e {
          var x := LatestToEnd(a, d, e);
          var y := LatestToEnd(a, e, d);
        }
      }
    }
  }

  /** Two different pings of the latest second do matter: some reordering ends elsewhere. */
  lemma SameSecondOrderMatters(a: seq<Event>, d: Event, e: Event)
    requires Latest(a, d) && Latest(a, e) && d != e
    ensures exists b :: Reorders(a, b) && Run(b) != Run(a)
  {
    OrderInsensitiveIff(a);
  }

  /** Pings never move the deadline back. */
  lemma {:induction false} DeadlineNeverMovesBack(s: State, pings: seq<Event>)
    requires forall e :: e in pings ==> e.Ping?
    ensures Deadline(RunFrom(s, pings)) >= Deadline(s)
    decreases |pings|
  {
    if pings != [] {
      var s' := Step(s, true, pings[0]);
      assert pings[0] in pings && s'.lastPing as real >= s.lastPing as real;
      DeadlineNeverMovesBack(s', pings[1..]);
    }
  }

  function RunFrom(s: State, events: seq<Event>): State
    decreases |events|
  {
    if events == [] then s else RunFrom(Step(s, true, events[0]), events[1..])
  }

  /** How old a ping may grow: the period and the grace, which defaults to one more period. */
  function Allowed(c: Contract): real {
    c.period + (if c.grace <= 0.0 then c.period else c.grace)
  }

  /** Something has been heard of the Heartbeat: a seed or a ping after 1970. */
  ghost predicate Heard(events: seq<Event>) {
    Opening(events).lastPing > 0 || exists e :: e in events && e.Ping? && e.received > 0
  }

  /** All that was heard, the opening seed and every ping, is older than the last contract allows. */
  ghost predicate Overdue(events: seq<Event>, now: int) {
    var allowed := Allowed(LastContract(events));
    && now as real > Opening(events).lastPing as real + allowed
    && forall e :: e in events && e.Ping? ==> now as real > e.received as real + allowed
  }

  /** Event `i` is the ping that has the last word: received no earlier than the opening seed or any
      ping before it, and later than any ping delivered after it. */
  ghost predicate LastWord(events: seq<Event>, i: int) {
    && 0 <= i < |events| && events[i].Ping? && events[i].received >= Opening(events).lastPing
    && (forall j | 0 <= j < i && events[j].Ping? :: events[j].received <= events[i].received)
    && (forall j | i < j < |events| && events[j].Ping? :: events[j].received < events[i].received)
  }

  /** The last word, or the opening seed where no ping has it, was a failure. */
  ghost predicate LastWordFailed(events: seq<Event>) {
    if exists i :: LastWord(events, i) then exists i :: LastWord(events, i) && events[i].failed
    else Opening(events).failed
  }

  lemma LastWordTaken(before: seq<Event>, e: Event)
    requires e.Ping? && e.received >= Run(before).lastPing
    ensures forall i :: LastWord(before + [e], i) <==> i == |before|
  {
    var events := before + [e];
    RunSummary(before);
    assert Opening(events).lastPing <= e.received;
    forall j | 0 <= j < |before| && before[j].Ping? ensures events[j].received <= e.received {
      assert before[j] in before;
    }
    assert events[|before|] == e;
  }

  lemma LastWordKept(before: seq<Event>, e: Event)
    requires e.Ping? ==> e.received < Run(before).lastPing
    requires forall i :: LastWord(before, i) ==> Run(before).lastPing == before[i].received
    requires (exists i :: LastWord(before, i)) || Run(before).lastPing == Opening(before).lastPing
    ensures forall i :: LastWord(before + [e], i) <==> LastWord(before, i)
  {
    var events := before + [e];
    assert forall i | 0 <= i < |before| :: events[i] == before[i];
    assert before != [] ==> Opening(events) == Opening(before);
    assert events[|before|] == e;
    if i :| LastWord(before, i) {
      assert before[i].received == Run(before).lastPing;
    }
  }

  /** For every run the final state has the instant, outcome and exit code of the ping with the last
      word, or the opening seed's where no ping has it. */
  lemma {:induction false} LastWordDecides(events: seq<Event>)
    ensures forall i :: LastWord(events, i) ==>
              var s := Run(events);
              s.lastPing == events[i].received && s.reportedFailure == events[i].failed && s.exitCode == events[i].exitCode
    ensures (exists i :: LastWord(events, i)) ||
              var s := Run(events);
              s.lastPing == Opening(events).lastPing && s.reportedFailure == Opening(events).failed && s.exitCode == 0
  {
    if events != [] {
      var before, e := events[..|events| - 1], events[|events| - 1];
      assert events == before + [e];
      LastWordDecides(before);
      if e.Ping? && e.received >= Run(before).lastPing {
        LastWordTaken(before, e);
        assert LastWord(events, |before|);
      } else {
        LastWordKept(before, e);
        if i :| LastWord(before, i) {
          assert LastWord(events, i);
        }
      }
    }
  }

  /** The classification of every run at every instant, from its events: pending if nothing was heard,
      else missed if all of it is overdue, else what the last word said. */
  lemma ClassificationIff(events: seq<Event>, now: int)
    ensures match Evaluate(Run(events), now)
            case Pending => !Heard(events)
            case Missed => Heard(events) && Overdue(events, now)
            case ReportedFailure => Heard(events) && !Overdue(events, now) && LastWordFailed(events)
            case Ok => Heard(events) && !Overdue(events, now) && !LastWordFailed(events)
  {
    RunSummary(events);
    LastWordDecides(events);
    var s := Run(events);
    assert forall e :: e in events && e.Ping? ==> e.received as real <= s.lastPing as real;
    assert Opening(events).lastPing as real <= s.lastPing as real;
    if e :| Decides(events, e, s) {
      assert e in events && e.Ping?;
    }
  }

  /** For every run: a Heartbeat is missed if and only if something was heard of it and all of that is
      older than its last contract allows. */
  lemma MissedIff(events: seq<Event>, now: int)
    ensures Evaluate(Run(events), now) == Missed <==> Heard(events) && Overdue(events, now)
  {
    ClassificationIff(events, now);
  }

  /** With no new event the classification is constant up to one change, and that change is to
      missed, at the first whole second past the deadline. */
  lemma ClassificationChangesOnce(s: State, early: int, late: int)
    requires early <= late
    ensures Evaluate(s, late) != Evaluate(s, early) ==>
              Evaluate(s, late) == Missed && early as real <= Deadline(s) < late as real
    ensures Evaluate(s, early) == Missed ==> Evaluate(s, late) == Missed
  {}
}
