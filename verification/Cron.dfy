/** Compiling an interval to a CronJob schedule. */
module Cron {
  import opened Common
  import opened Modular
  import Scheduler

  const Minute: int := 60_000_000_000

  datatype Reason = TooShort | MustDivide60 | MustBeWholeHours | MustDivide24

  // One cron field: `*`, `n`, `start/step` (from start to the end of the range) or `*/step`.
  datatype Field = Any | At(n: int) | From(start: int, step: int) | Every(step: int)
  datatype Schedule = Schedule(minute: Field, hour: Field)
  datatype Compiled = Compiled(schedule: Schedule) | Rejected(reason: Reason)

  /** `int(d.Minutes())`: truncation toward zero. */
  function WholeMinutes(d: int): int {
    if d >= 0 then d / Minute else -(-d / Minute)
  }

  /** `sum` is the hash of namespace and name. */
  function IntervalToCron(sum: nat, interval: int): Compiled {
    var total := WholeMinutes(interval);
    if total < 1 then Rejected(TooShort)
    else
      var offset := WholeMinutes(Scheduler.ProbeOffsetHash(sum, interval));
      if total == 1 then Compiled(Schedule(Any, Any))
      else if total < 60 then
        if 60 % total != 0 then Rejected(MustDivide60)
        else Compiled(Schedule(From(offset % total, total), Any))
      else if total % 60 != 0 then Rejected(MustBeWholeHours)
      else
        var hours := total / 60;
        if hours > 24 || 24 % hours != 0 then Rejected(MustDivide24)
        else if hours == 24 then Compiled(Schedule(At(offset % 60), At((offset / 60) % 24)))
        else Compiled(Schedule(At(offset % 60), Every(hours)))
  }

  /** The webhook's check, written out separately in the source. */
  function ValidateCronInterval(interval: int): Option<Reason> {
    var total := WholeMinutes(interval);
    if total < 1 then Some(TooShort) else ValidateMinuteInterval(total)
  }

  function ValidateMinuteInterval(total: int): Option<Reason>
    requires total >= 1
  {
    if total < 60 then
      if 60 % total != 0 then Some(MustDivide60) else None
    else if total % 60 != 0 then Some(MustBeWholeHours)
    else
      var hours := total / 60;
      if hours > 24 || 24 % hours != 0 then Some(MustDivide24) else None
  }

  /** Compilation succeeds exactly when admission accepts, and otherwise gives the same reason. */
  lemma CompilesIffAdmitted(sum: nat, interval: int)
    ensures ValidateCronInterval(interval) ==
              var c := IntervalToCron(sum, interval); if c.Compiled? then None else Some(c.reason)
  {}

  predicate Matches(f: Field, v: int) {
    match f
    case Any => true
    case At(n) => v == n
    case From(start, step) => v >= start && step > 0 && (v - start) % step == 0
    case Every(step) => step > 0 && v % step == 0
  }

  /** Whether the schedule fires in minute `t`, counted in UTC from any midnight. */
  predicate Fires(s: Schedule, t: int) {
    Matches(s.minute, t % 60) && Matches(s.hour, (t / 60) % 24)
  }

  lemma DivisorsOf60(total: int)
    requires 1 <= total < 60
    ensures 60 % total == 0 <==> total in {1, 2, 3, 4, 5, 6, 10, 12, 15, 20, 30}
  {
    var q := 60 / total;
    assert 60 == q * total + 60 % total;
    if total < 8 {
      assert total == 1 || total == 2 || total == 3 || total == 4 || total == 5 || total == 6 || total == 7;
    } else {
      assert q == 1 || q == 2 || q == 3 || q == 4 || q == 5 || q == 6 || q == 7;
    }
  }

  lemma DivisorsOf24(hours: int)
    requires 1 <= hours <= 24
    ensures 24 % hours == 0 <==> hours in {1, 2, 3, 4, 6, 8, 12, 24}
  {
    var q := 24 / hours;
    assert 24 == q * hours + 24 % hours;
    if hours < 5 {
      assert hours == 1 || hours == 2 || hours == 3 || hours == 4;
    } else {
      assert q == 1 || q == 2 || q == 3 || q == 4;
    }
  }

  /** The intervals admission accepts, in whole minutes: the nineteen lengths that cut an hour or a
      day into equal parts. */
  lemma AcceptedIff(interval: int)
    ensures ValidateCronInterval(interval).None? <==>
              interval / 60_000_000_000 in
                {1, 2, 3, 4, 5, 6, 10, 12, 15, 20, 30, 60, 120, 180, 240, 360, 480, 720, 1440}
  {
    var total := interval / 60_000_000_000;
    if 1 <= total < 60 {
      DivisorsOf60(total);
    } else if 60 <= total <= 1440 && total % 60 == 0 {
      DivisorsOf24(total / 60);
    }
  }

  lemma StepField(v: int, start: int, step: int)
    requires 0 <= start < step && v >= 0
    ensures Matches(From(start, step), v) <==> v % step == start
  {
    if v % step == start {
      assert v - start == (v / step) * step + 0;
      ModUnique(v - start, step, v / step, 0);
      assert (v / step) * step >= 0;
    }
    if v >= start && (v - start) % step == 0 {
      ModUnique(v, step, (v - start) / step, start);
    }
  }

  /** Minute and hour together are the minute of the `hours`-hour cycle. */
  lemma HourCycle(t: int, hours: int)
    requires 0 < hours <= 24 && 24 % hours == 0
    ensures t % (60 * hours) == 60 * (((t / 60) % 24) % hours) + t % 60
  {
    var h := t / 60;
    var k := 24 / hours;
    assert 24 == k * hours;
    ModOfMod(h, hours, k);
    var q, r := h / hours, h % hours;
    assert h == q * hours + r;
    assert t == q * (60 * hours) + (60 * r + t % 60);
    ModUnique(t, 60 * hours, q, 60 * r + t % 60);
  }

  lemma MinuteCycle(t: int, total: int, start: int)
    requires 1 < total < 60 && 60 % total == 0 && 0 <= start < total
    ensures Fires(Schedule(From(start, total), Any), t) <==> t % total == start
  {
    var k := 60 / total;
    assert 60 == k * total;
    ModOfMod(t, total, k);
    StepField(t % 60, start, total);
  }

  /** The minute of the cycle at which a CR with this hash fires: the minute of its phase, taken
      modulo the cycle below an hour and of a day, and modulo the hour between. */
  function PhaseMinute(sum: nat, interval: int): int
    requires interval >= 60_000_000_000
  {
    var total, phase := interval / 60_000_000_000, (sum % interval) / 60_000_000_000;
    phase % (if total < 60 || total == 1440 then total else 60)
  }

  /** What is compiled, with the phase in whole minutes. */
  lemma CompiledFields(sum: nat, interval: int)
    requires IntervalToCron(sum, interval).Compiled?
    ensures interval >= 60_000_000_000
    ensures var total, phase := interval / 60_000_000_000, (sum % interval) / 60_000_000_000;
            IntervalToCron(sum, interval).schedule ==
              if total == 1 then Schedule(Any, Any)
              else if total < 60 then Schedule(From(phase % total, total), Any)
              else if total == 1440 then Schedule(At(phase % 60), At((phase / 60) % 24))
              else Schedule(At(phase % 60), Every(total / 60))
    ensures var total := interval / 60_000_000_000;
            if total < 60 then 60 % total == 0 else total % 60 == 0 && total / 60 <= 24 && 24 % (total / 60) == 0
  {
    var total := interval / 60_000_000_000;
    assert total == WholeMinutes(interval) >= 1;
    assert interval >= 60_000_000_000;
    RemainderRange(sum, interval);
    assert (sum % interval) / 60_000_000_000 == WholeMinutes(Scheduler.ProbeOffsetHash(sum, interval));
  }

  lemma PhaseFires(total: int, phase: int, t: int)
    requires 60 <= total <= 1440 && total % 60 == 0 && 24 % (total / 60) == 0
    ensures if total == 1440
            then Fires(Schedule(At(phase % 60), At((phase / 60) % 24)), t) <==> t % total == phase % 1440
            else Fires(Schedule(At(phase % 60), Every(total / 60)), t) <==> t % total == phase % 60
  {
    var hours := total / 60;
    assert total == 60 * hours;
    HourFields(t, hours, phase);
    HourCycle(phase, 24);
  }

  /** For every accepted interval and every hash the schedule fires at exactly one residue class
      modulo the whole-minute interval, over all time. */
  lemma FiresAtOneResidue(sum: nat, interval: int, t: int)
    requires IntervalToCron(sum, interval).Compiled?
    ensures interval >= 60_000_000_000
    ensures var total := interval / 60_000_000_000;
            && 0 <= PhaseMinute(sum, interval) < total
            && (Fires(IntervalToCron(sum, interval).schedule, t) <==> t % total == PhaseMinute(sum, interval))
  {
    CompiledFields(sum, interval);
    var total, phase := interval / 60_000_000_000, (sum % interval) / 60_000_000_000;
    if total < 60 {
      RemainderRange(phase, total);
      if total > 1 {
        MinuteCycle(t, total, phase % total);
      }
    } else {
      PhaseFires(total, phase, t);
    }
  }

  lemma HourFields(t: int, hours: int, offset: int)
    requires 0 < hours <= 24 && 24 % hours == 0
    ensures Fires(Schedule(At(offset % 60), Every(hours)), t) <==> t % (60 * hours) == offset % 60
    ensures hours == 24 ==>
              (Fires(Schedule(At(offset % 60), At((offset / 60) % 24)), t) <==>
                 t % (60 * hours) == 60 * ((offset / 60) % 24) + offset % 60)
  {
    HourCycle(t, hours);
  }

  lemma RemainderRange(x: int, m: int)
    requires m > 0
    ensures 0 <= x % m < m
  {}

  /** Consecutive firings are exactly the interval apart, across hours and days. */
  lemma FiringsAreIntervalApart(sum: nat, interval: int, t: int)
    requires IntervalToCron(sum, interval).Compiled?
    requires Fires(IntervalToCron(sum, interval).schedule, t)
    ensures var total := interval / 60_000_000_000;
            && Fires(IntervalToCron(sum, interval).schedule, t + total)
            && forall u | t < u < t + total :: !Fires(IntervalToCron(sum, interval).schedule, u)
  {
    var total := interval / 60_000_000_000;
    FiresAtOneResidue(sum, interval, t);
    ModAdd(t, total, total);
    FiresAtOneResidue(sum, interval, t + total);
    forall u | t < u < t + total ensures !Fires(IntervalToCron(sum, interval).schedule, u) {
      ModAdd(t, total, u - t);
      FiresAtOneResidue(sum, interval, u);
    }
  }
}
