/** The spec-stream start-up handshake as interleaved steps of one controller, a lossy bus and any
    number of consumers. The bus hands a message to whoever is subscribed when it reaches the
    server and drops it otherwise. The set of live specs is fixed. */
module Handshake {
  import opened Common

  /** `subscribed` and `requested` follow the order of `Start`; `served` is specification only: a
      broadcast has begun since this consumer subscribed. */
  datatype Consumer<T> = Consumer(subscribed: bool, requested: bool, served: bool, inbox: seq<T>, received: seq<T>)

  datatype State<T> = State(
    listening: bool,         // the resync-request subscription exists on the server
    gaveUp: bool,            // that subscription failed; the controller carries on without it
    started: bool,           // the first broadcast has begun
    todo: seq<T>,            // specs the running broadcast has yet to publish
    specWire: seq<T>,        // specs published but not yet at the server
    requestWire: nat,        // requests published but not yet at the server
    requestInbox: nat,       // requests delivered to the controller, handler not yet run
    pending: bool,           // the one-slot channel
    consumers: seq<Consumer<T>>)

  datatype Action<T> =
    | Listen
    | ListenFails
    | FirstBroadcast(order: seq<T>)
    | TickBroadcast(order: seq<T>)
    | RequestedBroadcast(order: seq<T>)
    | Publish
    | RouteSpec
    | RouteRequest
    | HandleRequest
    | Subscribe(i: nat)
    | Request(i: nat)
    | Receive(i: nat)
    | Restart(i: nat)

  function Initial<T>(n: nat): State<T> {
    State(false, false, false, [], [], 0, 0, false, seq(n, _ => Consumer(false, false, false, [], [])))
  }

  /** A broadcast lists every live spec, in whatever order the lists come back. */
  ghost predicate Full<T(!new)>(live: set<T>, order: seq<T>) {
    forall x :: x in order <==> x in live
  }

  ghost predicate Enabled<T(!new)>(live: set<T>, s: State<T>, a: Action<T>) {
    match a
    case Listen => !s.listening && !s.gaveUp
    case ListenFails => !s.listening && !s.gaveUp
    case FirstBroadcast(order) => !s.started && (s.listening || s.gaveUp) && Full(live, order)
    case TickBroadcast(order) => s.started && s.todo == [] && Full(live, order)
    case RequestedBroadcast(order) => s.started && s.todo == [] && s.pending && Full(live, order)
    case Publish => s.todo != []
    case RouteSpec => s.specWire != []
    case RouteRequest => s.requestWire > 0
    case HandleRequest => s.requestInbox > 0
    case Subscribe(i) => i < |s.consumers| && !s.consumers[i].subscribed
    case Request(i) => i < |s.consumers| && s.consumers[i].subscribed && !s.consumers[i].requested
    case Receive(i) => i < |s.consumers| && s.consumers[i].inbox != []
    case Restart(i) => i < |s.consumers|
  }

  function Begin<T>(s: State<T>, order: seq<T>): State<T> {
    s.(started := true, todo := order,
       consumers := seq(|s.consumers|, i requires 0 <= i < |s.consumers| =>
                      var c := s.consumers[i]; if c.subscribed then c.(served := true) else c))
  }

  function Deliver<T>(s: State<T>, x: T): State<T> {
    s.(consumers := seq(|s.consumers|, i requires 0 <= i < |s.consumers| =>
                      var c := s.consumers[i]; if c.subscribed then c.(inbox := c.inbox + [x]) else c))
  }

  ghost function Next<T(!new)>(live: set<T>, s: State<T>, a: Action<T>): State<T>
    requires Enabled(live, s, a)
  {
    match a
    case Listen => s.(listening := true)
    case ListenFails => s.(gaveUp := true)
    case FirstBroadcast(order) => Begin(s, order)
    case TickBroadcast(order) => Begin(s, order)
    case RequestedBroadcast(order) => Begin(s.(pending := false), order)
    case Publish => s.(specWire := s.specWire + [s.todo[0]], todo := s.todo[1..])
    case RouteSpec => Deliver(s.(specWire := s.specWire[1..]), s.specWire[0])
    case RouteRequest =>
      var s' := s.(requestWire := s.requestWire - 1);
      if s.listening then s'.(requestInbox := s.requestInbox + 1) else s'
    case HandleRequest => s.(requestInbox := s.requestInbox - 1, pending := true)
    case Subscribe(i) => s.(consumers := s.consumers[i := s.consumers[i].(subscribed := true)])
    case Request(i) =>
      s.(requestWire := s.requestWire + 1, consumers := s.consumers[i := s.consumers[i].(requested := true)])
    case Receive(i) =>
      var c := s.consumers[i];
      s.(consumers := s.consumers[i := c.(received := c.received + [c.inbox[0]], inbox := c.inbox[1..])])
    case Restart(i) => s.(consumers := s.consumers[i := Consumer(false, false, false, [], [])])
  }

  /** The state an interleaving ends in, if each of its actions was possible when it was taken. */
  ghost function After<T(!new)>(live: set<T>, n: nat, run: seq<Action<T>>): Option<State<T>>
    decreases |run|
  {
    if run == [] then Some(Initial(n))
    else
      var before, a := After(live, n, run[..|run| - 1]), run[|run| - 1];
      if before.Some? && Enabled(live, before.value, a) then Some(Next(live, before.value, a)) else None
  }

  // ----- the invariant

  /** `x` has reached `c` or is still on its way to every subscriber. */
  predicate OnTheWay<T(==)>(s: State<T>, c: Consumer<T>, x: T) {
    x in c.received || x in c.inbox || x in s.specWire || x in s.todo
  }

  ghost predicate OnlyLive<T(!new)>(live: set<T>, s: State<T>) {
    && (forall x :: x in s.todo || x in s.specWire ==> x in live)
    && forall i, x :: 0 <= i < |s.consumers| && (x in s.consumers[i].inbox || x in s.consumers[i].received) ==> x in live
  }

  ghost predicate Controller<T>(s: State<T>) {
    && (s.started ==> s.listening || s.gaveUp)
    && !(s.gaveUp && s.listening)
  }

  /** A request of this consumer is still in the system. */
  predicate RequestAlive<T>(s: State<T>) {
    s.requestWire > 0 || s.requestInbox > 0 || s.pending
  }

  ghost predicate ConsumerInv<T(!new)>(live: set<T>, s: State<T>, c: Consumer<T>) {
    && (c.requested || c.served || c.inbox != [] ==> c.subscribed)
    && (c.served ==> forall x :: x in live ==> OnTheWay(s, c, x))
    && (c.requested && s.listening && s.started ==> c.served || RequestAlive(s))
  }

  ghost predicate Inv<T(!new)>(live: set<T>, n: nat, s: State<T>) {
    && |s.consumers| == n
    && Controller(s)
    && OnlyLive(live, s)
    && forall i | 0 <= i < n :: ConsumerInv(live, s, s.consumers[i])
  }

  lemma PublishKeepsInv<T(!new)>(live: set<T>, n: nat, s: State<T>)
    requires Inv(live, n, s) && s.todo != []
    ensures Inv(live, n, Next(live, s, Publish))
  {}

  lemma RouteSpecKeepsInv<T(!new)>(live: set<T>, n: nat, s: State<T>)
    requires Inv(live, n, s) && s.specWire != []
    ensures Inv(live, n, Next(live, s, RouteSpec))
  {}

  lemma ReceiveKeepsInv<T(!new)>(live: set<T>, n: nat, s: State<T>, i: nat)
    requires Inv(live, n, s) && i < n && s.consumers[i].inbox != []
    ensures Inv(live, n, Next(live, s, Receive(i)))
  {}

  lemma BeginKeepsInv<T(!new)>(live: set<T>, n: nat, s: State<T>, order: seq<T>)
    requires Inv(live, n, s) && Full(live, order) && (s.listening || s.gaveUp)
    ensures Inv(live, n, Begin(s, order)) && Inv(live, n, Begin(s.(pending := false), order))
  {}

  lemma ConsumerStepKeepsInv<T(!new)>(live: set<T>, n: nat, s: State<T>, i: nat, a: Action<T>)
    requires Inv(live, n, s) && Enabled(live, s, a)
    requires a == Subscribe(i) || a == Request(i) || a == Restart(i)
    ensures Inv(live, n, Next(live, s, a))
  {}

  lemma ControlStepKeepsInv<T(!new)>(live: set<T>, n: nat, s: State<T>, a: Action<T>)
    requires Inv(live, n, s) && Enabled(live, s, a)
    requires a.Listen? || a.ListenFails? || a.RouteRequest? || a.HandleRequest?
    ensures Inv(live, n, Next(live, s, a))
  {}

  lemma StepKeepsInv<T(!new)>(live: set<T>, n: nat, s: State<T>, a: Action<T>)
    requires Inv(live, n, s) && Enabled(live, s, a)
    ensures Inv(live, n, Next(live, s, a))
  {
    match a
    case Publish => PublishKeepsInv(live, n, s);
    case RouteSpec => RouteSpecKeepsInv(live, n, s);
    case Receive(i) => ReceiveKeepsInv(live, n, s, i);
    case FirstBroadcast(order) => BeginKeepsInv(live, n, s, order);
    case TickBroadcast(order) => BeginKeepsInv(live, n, s, order);
    case RequestedBroadcast(order) => BeginKeepsInv(live, n, s, order);
    case Subscribe(i) => ConsumerStepKeepsInv(live, n, s, i, a);
    case Request(i) => ConsumerStepKeepsInv(live, n, s, i, a);
    case Restart(i) => ConsumerStepKeepsInv(live, n, s, i, a);
    case _ => ControlStepKeepsInv(live, n, s, a);
  }

  lemma {:induction false} RunKeepsInv<T(!new)>(live: set<T>, n: nat, run: seq<Action<T>>, s: State<T>)
    requires After(live, n, run) == Some(s)
    ensures Inv(live, n, s)
    decreases |run|
  {
    if run != [] {
      var before := After(live, n, run[..|run| - 1]).value;
      RunKeepsInv(live, n, run[..|run| - 1], before);
      StepKeepsInv(live, n, before, run[|run| - 1]);
    }
  }

  // ----- what it gives

  /** The controller has started and nothing is pending, in flight or being broadcast. */
  ghost predicate Quiescent<T>(s: State<T>) {
    && s.started && s.todo == [] && s.specWire == []
    && !RequestAlive(s)
    && forall i | 0 <= i < |s.consumers| :: s.consumers[i].inbox == []
  }

  /** Over every interleaving, with restarts: in every quiescent state a consumer that has
      requested, or that was subscribed when some broadcast began, has received exactly the live
      specs. Collapsing requests into one slot loses no requester. */
  lemma QuiescentHoldsAll<T(!new)>(live: set<T>, n: nat, run: seq<Action<T>>, s: State<T>, i: nat)
    requires After(live, n, run) == Some(s) && Quiescent(s) && i < n
    ensures |s.consumers| == n
    ensures s.consumers[i].served || (s.consumers[i].requested && s.listening) ==>
              forall x :: x in s.consumers[i].received <==> x in live
  {
    RunKeepsInv(live, n, run, s);
    QuietServes(live, n, s, i);
  }

  lemma QuietServes<T(!new)>(live: set<T>, n: nat, s: State<T>, i: nat)
    requires Inv(live, n, s) && Quiescent(s) && i < n
    ensures s.consumers[i].served || (s.consumers[i].requested && s.listening) ==>
              forall x :: x in s.consumers[i].received <==> x in live
  {
    var c := s.consumers[i];
    assert ConsumerInv(live, s, c);
    if c.served {
      forall x | x in live ensures x in c.received {
        assert OnTheWay(s, c, x);
      }
    }
  }

  // ----- every request is answered

  /** Steps the controller, the bus and the handlers take on their own. */
  predicate Internal<T>(a: Action<T>) {
    !(a.ListenFails? || a.TickBroadcast? || a.Subscribe? || a.Request? || a.Restart?)
  }

  ghost predicate CanStep<T(!new)>(live: set<T>, s: State<T>) {
    exists a :: Internal(a) && Enabled(live, s, a)
  }

  /** A scheduler: whenever some internal step is possible it picks one that is. */
  ghost predicate Schedules<T(!new)>(live: set<T>, pick: State<T> -> Action<T>) {
    forall s :: CanStep(live, s) ==> Internal(pick(s)) && Enabled(live, s, pick(s))
  }

  function Waiting<T>(consumers: seq<Consumer<T>>): nat {
    if consumers == [] then 0
    else Waiting(consumers[..|consumers| - 1]) + |consumers[|consumers| - 1].inbox|
  }

  lemma {:induction false} WaitingUpdate<T>(cs: seq<Consumer<T>>, i: nat, c: Consumer<T>)
    requires i < |cs|
    ensures Waiting(cs[i := c]) == Waiting(cs) - |cs[i].inbox| + |c.inbox|
  {
    var k := |cs| - 1;
    if i == k {
      assert cs[i := c][..k] == cs[..k];
    } else {
      assert cs[i := c][..k] == cs[..k][i := c];
      WaitingUpdate(cs[..k], i, c);
    }
  }

  /** Start-up steps the controller has yet to take. */
  function Boot<T>(s: State<T>): nat {
    (if s.listening || s.gaveUp then 0 else 1) + (if s.started then 0 else 1)
  }

  function Slot<T>(s: State<T>): nat {
    if s.pending then 1 else 0
  }

  lemma {:induction false} SomeOrder<T>(live: set<T>) returns (order: seq<T>)
    ensures forall x :: x in order <==> x in live
  {
    order := [];
    if live != {} {
      var x :| x in live;
      var rest := SomeOrder(live - {x});
      order := [x] + rest;
    }
  }

  /** Where nothing can move by itself, all is quiet. */
  lemma StuckIsQuiescent<T(!new)>(live: set<T>, s: State<T>)
    requires !CanStep(live, s)
    ensures Quiescent(s)
  {
    var order := SomeOrder(live);
    assert !Enabled(live, s, Listen) && !Enabled(live, s, FirstBroadcast(order));
    assert !Enabled(live, s, Publish) && !Enabled(live, s, RouteSpec) && !Enabled(live, s, RouteRequest);
    assert !Enabled(live, s, HandleRequest) && !Enabled(live, s, RequestedBroadcast(order));
    forall i | 0 <= i < |s.consumers| ensures s.consumers[i].inbox == [] {
      assert !Enabled(live, s, Receive(i));
    }
  }

  /** One step further down: fewer start-up steps left, or as many and fewer requests on the wire,
      and so on through the handler, the slot, the broadcast, the wire and the inboxes. */
  predicate Below<T>(s': State<T>, s: State<T>) {
    if Boot(s') != Boot(s) then Boot(s') < Boot(s)
    else if s'.requestWire != s.requestWire then s'.requestWire < s.requestWire
    else if s'.requestInbox != s.requestInbox then s'.requestInbox < s.requestInbox
    else if Slot(s') != Slot(s) then Slot(s') < Slot(s)
    else if |s'.todo| != |s.todo| then |s'.todo| < |s.todo|
    else if |s'.specWire| != |s.specWire| then |s'.specWire| < |s.specWire|
    else Waiting(s'.consumers) < Waiting(s.consumers)
  }

  lemma InternalStepGoesDown<T(!new)>(live: set<T>, n: nat, s: State<T>, a: Action<T>)
    requires Inv(live, n, s) && Internal(a) && Enabled(live, s, a)
    ensures Below(Next(live, s, a), s)
  {
    if a.Receive? {
      WaitingUpdate(s.consumers, a.i, Next(live, s, a).consumers[a.i]);
    }
  }

  lemma InternalStepKeepsRequests<T(!new)>(live: set<T>, n: nat, s: State<T>, a: Action<T>)
    requires Inv(live, n, s) && Internal(a) && Enabled(live, s, a)
    ensures var s' := Next(live, s, a);
            && s'.gaveUp == s.gaveUp && |s'.consumers| == n
            && forall i | 0 <= i < n ::
                 && (s.consumers[i].requested ==> s'.consumers[i].requested)
                 && (s.consumers[i].served ==> s'.consumers[i].served)
  {}

  ghost predicate Follows<T(!new)>(live: set<T>, pick: State<T> -> Action<T>, s: State<T>, s': State<T>) {
    Internal(pick(s)) && Enabled(live, s, pick(s)) && s' == Next(live, s, pick(s))
  }

  lemma ScheduledStep<T(!new)>(live: set<T>, n: nat, s: State<T>, pick: State<T> -> Action<T>) returns (s': State<T>)
    requires Inv(live, n, s) && Schedules(live, pick) && CanStep(live, s)
    ensures Follows(live, pick, s, s') && Inv(live, n, s') && Below(s', s) && s'.gaveUp == s.gaveUp
    ensures forall i | 0 <= i < n ::
              && (s.consumers[i].requested ==> s'.consumers[i].requested)
              && (s.consumers[i].served ==> s'.consumers[i].served)
  {
    s' := Next(live, s, pick(s));
    StepKeepsInv(live, n, s, pick(s));
    InternalStepGoesDown(live, n, s, pick(s));
    InternalStepKeepsRequests(live, n, s, pick(s));
  }

  /** The states a scheduler takes the system through, until it can take it no further. */
  ghost predicate FullTrace<T(!new)>(live: set<T>, pick: State<T> -> Action<T>, trace: seq<State<T>>) {
    && trace != []
    && (forall k | 0 <= k < |trace| - 1 :: Follows(live, pick, trace[k], trace[k + 1]))
    && !CanStep(live, trace[|trace| - 1])
  }

  lemma {:induction false} Settles<T(!new)>(live: set<T>, n: nat, s: State<T>, pick: State<T> -> Action<T>)
    returns (trace: seq<State<T>>)
    requires Inv(live, n, s) && Schedules(live, pick)
    ensures FullTrace(live, pick, trace) && trace[0] == s
    ensures var end := trace[|trace| - 1];
            && Inv(live, n, end) && end.gaveUp == s.gaveUp
            && forall i | 0 <= i < n ::
                 && (s.consumers[i].requested ==> end.consumers[i].requested)
                 && (s.consumers[i].served ==> end.consumers[i].served)
    decreases Boot(s), s.requestWire, s.requestInbox, Slot(s), |s.todo|, |s.specWire|, Waiting(s.consumers)
  {
    if CanStep(live, s) {
      var s' := ScheduledStep(live, n, s, pick);
      var rest := Settles(live, n, s', pick);
      trace := [s] + rest;
    } else {
      trace := [s];
    }
  }

  /** From every reachable state of a controller that has not given up listening, whichever internal
      step a scheduler takes each time, the steps come to an end, and then every consumer that had
      requested has received exactly the live specs. */
  lemma EveryRequestIsAnswered<T(!new)>(
    live: set<T>, n: nat, run: seq<Action<T>>, s: State<T>, pick: State<T> -> Action<T>)
    returns (trace: seq<State<T>>)
    requires After(live, n, run) == Some(s) && !s.gaveUp && Schedules(live, pick)
    ensures FullTrace(live, pick, trace) && trace[0] == s
    ensures var end := trace[|trace| - 1];
            && |end.consumers| == |s.consumers| == n
            && Quiescent(end)
            && forall i, x :: 0 <= i < n && s.consumers[i].requested ==>
                 (x in end.consumers[i].received <==> x in live)
  {
    RunKeepsInv(live, n, run, s);
    trace := Settles(live, n, s, pick);
    var end := trace[|trace| - 1];
    StuckIsQuiescent(live, end);
    forall i | 0 <= i < n && s.consumers[i].requested ensures forall x :: x in end.consumers[i].received <==> x in live {
      QuietServes(live, n, end, i);
    }
  }

  lemma Extend<T(!new)>(live: set<T>, n: nat, run: seq<Action<T>>, a: Action<T>, s: State<T>, s': State<T>)
    requires After(live, n, run) == Some(s)
    requires Enabled(live, s, a) && Next(live, s, a) == s'
    ensures After(live, n, run + [a]) == Some(s')
  {}

  // ----- every broadcast reaches its subscribers, listening or not

  predicate IsBroadcast<T>(a: Action<T>) {
    a.FirstBroadcast? || a.TickBroadcast? || a.RequestedBroadcast?
  }

  /** The last step of a run. */
  lemma LastStep<T(!new)>(live: set<T>, n: nat, before: seq<Action<T>>, run: seq<Action<T>>)
    requires run != [] && After(live, n, before + run).Some?
    ensures var k := |run| - 1;
            var s := After(live, n, before + run[..k]);
            s.Some? && Enabled(live, s.value, run[k]) &&
            After(live, n, before + run) == Some(Next(live, s.value, run[k]))
  {
    assert (before + run)[..|before + run| - 1] == before + run[..|run| - 1];
  }

  lemma StepKeepsServed<T(!new)>(live: set<T>, s: State<T>, a: Action<T>, i: nat)
    requires Enabled(live, s, a) && i < |s.consumers| && s.consumers[i].served && a != Restart(i)
    ensures var s' := Next(live, s, a); |s'.consumers| == |s.consumers| && s'.consumers[i].served
  {}

  lemma {:induction false} ServedStays<T(!new)>(
    live: set<T>, n: nat, before: seq<Action<T>>, run: seq<Action<T>>, s: State<T>, s': State<T>, i: nat)
    requires After(live, n, before) == Some(s) && After(live, n, before + run) == Some(s')
    requires i < |s.consumers| && s.consumers[i].served
    requires forall k | 0 <= k < |run| :: run[k] != Restart(i)
    ensures |s'.consumers| == |s.consumers| && s'.consumers[i].served
    decreases |run|
  {
    if run == [] {
      assert before + run == before;
    } else {
      var k := |run| - 1;
      LastStep(live, n, before, run);
      var s1 := After(live, n, before + run[..k]).value;
      ServedStays(live, n, before, run[..k], s, s1, i);
      StepKeepsServed(live, s1, run[k], i);
    }
  }

  /** Over every run, whether the controller listens or not: a consumer that was subscribed when a
      broadcast, the first, a periodic or a requested one, began and has not restarted since has
      received exactly the live specs once all is quiet. */
  lemma BroadcastReachesSubscribers<T(!new)>(
    live: set<T>, n: nat, before: seq<Action<T>>, a: Action<T>, run: seq<Action<T>>,
    s: State<T>, s': State<T>, i: nat)
    requires IsBroadcast(a) && After(live, n, before) == Some(s) && After(live, n, before + [a] + run) == Some(s')
    requires i < |s.consumers| && s.consumers[i].subscribed && Quiescent(s')
    requires forall k | 0 <= k < |run| :: run[k] != Restart(i)
    ensures |s'.consumers| == n == |s.consumers| && HoldsExactly(s'.consumers[i], live)
  {
    AfterPrefix(live, n, before + [a], run);
    assert (before + [a])[..|before|] == before;
    RunKeepsInv(live, n, before, s);
    ServedStays(live, n, before + [a], run, After(live, n, before + [a]).value, s', i);
    RunKeepsInv(live, n, before + [a] + run, s');
    QuietServes(live, n, s', i);
  }

  lemma {:induction false} AfterPrefix<T(!new)>(live: set<T>, n: nat, before: seq<Action<T>>, run: seq<Action<T>>)
    requires After(live, n, before + run).Some?
    ensures After(live, n, before).Some?
    decreases |run|
  {
    if run == [] {
      assert before + run == before;
    } else {
      assert (before + run)[..|before + run| - 1] == before + run[..|run| - 1];
      AfterPrefix(live, n, before, run[..|run| - 1]);
    }
  }

  /** The periodic tick heals every subscriber, requested or not, listening or not: it is possible in
      every quiet state, and whichever steps follow, they end with each of them holding exactly the
      live specs. */
  lemma TickHeals<T(!new)>(
    live: set<T>, n: nat, run: seq<Action<T>>, s: State<T>, order: seq<T>, pick: State<T> -> Action<T>)
    returns (trace: seq<State<T>>)
    requires After(live, n, run) == Some(s) && Quiescent(s) && Full(live, order) && Schedules(live, pick)
    ensures Enabled(live, s, TickBroadcast(order))
    ensures FullTrace(live, pick, trace) && trace[0] == Next(live, s, TickBroadcast(order))
    ensures var end := trace[|trace| - 1];
            && |end.consumers| == |s.consumers| == n
            && Quiescent(end)
            && forall i | 0 <= i < n && s.consumers[i].subscribed :: HoldsExactly(end.consumers[i], live)
  {
    RunKeepsInv(live, n, run, s);
    StepKeepsInv(live, n, s, TickBroadcast(order));
    trace := Settles(live, n, Next(live, s, TickBroadcast(order)), pick);
    var end := trace[|trace| - 1];
    StuckIsQuiescent(live, end);
    forall i | 0 <= i < n && s.consumers[i].subscribed ensures HoldsExactly(end.consumers[i], live) {
      QuietServes(live, n, end, i);
    }
  }

  lemma StepKeepsNothing<T(!new)>(live: set<T>, s: State<T>, a: Action<T>, i: nat)
    requires Enabled(live, s, a) && i < |s.consumers| && s.consumers[i].received == [] && a != Receive(i)
    ensures var s' := Next(live, s, a); i < |s'.consumers| && s'.consumers[i].received == []
  {}

  /** What a consumer held is gone after a restart, until it receives again. */
  lemma {:induction false} RestartForgets<T(!new)>(
    live: set<T>, n: nat, before: seq<Action<T>>, run: seq<Action<T>>, i: nat, s: State<T>)
    requires After(live, n, before + [Restart(i)] + run) == Some(s)
    requires forall k | 0 <= k < |run| :: run[k] != Receive(i)
    ensures i < |s.consumers| && s.consumers[i].received == []
    decreases |run|
  {
    if run == [] {
      assert before + [Restart(i)] + run == before + [Restart(i)];
      LastStep(live, n, before, [Restart(i)]);
    } else {
      var k := |run| - 1;
      LastStep(live, n, before + [Restart(i)], run);
      var s1 := After(live, n, before + [Restart(i)] + run[..k]).value;
      RestartForgets(live, n, before, run[..k], i, s1);
      StepKeepsNothing(live, s1, run[k], i);
    }
  }

  // ----- and only because the controller listens

  /** A controller without its request subscription, done broadcasting, with nobody subscribed. */
  function Deaf<T>(n: nat, todo: seq<T>, wire: seq<T>): State<T> {
    Initial<T>(n).(gaveUp := true, started := true, todo := todo, specWire := wire)
  }

  lemma {:induction false} BroadcastToNobody<T(!new)>(live: set<T>, n: nat, run: seq<Action<T>>, todo: seq<T>)
    returns (run': seq<Action<T>>)
    requires After(live, n, run) == Some(Deaf(n, todo, []))
    ensures After(live, n, run') == Some(Deaf(n, [], []))
    decreases |todo|
  {
    run' := run;
    if todo != [] {
      Extend(live, n, run, Publish, Deaf(n, todo, []), Deaf(n, todo[1..], [todo[0]]));
      assert Deliver(Deaf(n, todo[1..], []), todo[0]).consumers == Initial<T>(n).consumers;
      Extend(live, n, run + [Publish], RouteSpec, Deaf(n, todo[1..], [todo[0]]), Deaf(n, todo[1..], []));
      run' := BroadcastToNobody(live, n, run + [Publish] + [RouteSpec], todo[1..]);
    }
  }

  lemma DeafStart<T(!new)>(live: set<T>, n: nat) returns (run: seq<Action<T>>)
    ensures After(live, n, run) == Some(Deaf(n, [], []))
  {
    var order := SomeOrder(live);
    var failed := Initial<T>(n).(gaveUp := true);
    assert After(live, n, []) == Some(Initial<T>(n));
    Extend(live, n, [], ListenFails, Initial<T>(n), failed);
    assert Begin(failed, order).consumers == Initial<T>(n).consumers;
    Extend(live, n, [] + [ListenFails], FirstBroadcast(order), failed, Deaf(n, order, []));
    run := BroadcastToNobody(live, n, [] + [ListenFails] + [FirstBroadcast(order)], order);
  }

  /** For every live set and any number of consumers: without the request subscription, a consumer
      that subscribes and requests after the first broadcast holds nothing, and all is quiet. */
  lemma DeafControllerLosesRequest<T(!new)>(live: set<T>, n: nat) returns (run: seq<Action<T>>, s: State<T>)
    requires n > 0
    ensures After(live, n, run) == Some(s) && Quiescent(s) && !s.listening
    ensures |s.consumers| == n && s.consumers[0] == Consumer(true, true, false, [], [])
  {
    run := DeafStart(live, n);
    var start := Deaf<T>(n, [], []);
    var here := start.(consumers := start.consumers[0 := Consumer(true, false, false, [], [])]);
    s := start.(consumers := start.consumers[0 := Consumer(true, true, false, [], [])]);
    Extend(live, n, run, Subscribe(0), start, here);
    run := run + [Subscribe(0)];
    assert here.consumers[0 := here.consumers[0].(requested := true)] == s.consumers;
    Extend(live, n, run, Request(0), here, s.(requestWire := 1));
    run := run + [Request(0)];
    Extend(live, n, run, RouteRequest, s.(requestWire := 1), s);
    run := run + [RouteRequest];
  }

  /** In every reachable quiescent state in which the controller listens, or does not, every consumer
      that has requested has received exactly the live specs. */
  ghost predicate Guaranteed<T(!new)>(live: set<T>, n: nat, listening: bool) {
    forall run: seq<Action<T>>, i ::
      var end := After(live, n, run);
      end.Some? && Quiescent(end.value) && end.value.listening == listening
      && 0 <= i < |end.value.consumers| && end.value.consumers[i].requested ==>
        HoldsExactly(end.value.consumers[i], live)
  }

  ghost predicate HoldsExactly<T(!new)>(c: Consumer<T>, live: set<T>) {
    forall x :: x in c.received <==> x in live
  }

  /** The request subscription is exactly what the handshake rests on: with any consumer and any live
      spec at all, quiet requesters hold the live specs if and only if the controller listens. */
  lemma GuaranteedIff<T(!new)>(live: set<T>, n: nat, listening: bool)
    ensures Guaranteed(live, n, listening) <==> listening || n == 0 || live == {}
  {
    if listening || n == 0 || live == {} {
      forall run: seq<Action<T>>, i |
        var end := After(live, n, run);
        end.Some? && Quiescent(end.value) && end.value.listening == listening
        && 0 <= i < |end.value.consumers| && end.value.consumers[i].requested
        ensures HoldsExactly(After(live, n, run).value.consumers[i], live)
      {
        var s := After(live, n, run).value;
        RunKeepsInv(live, n, run, s);
        QuietServes(live, n, s, i);
      }
    } else {
      var run, s := DeafControllerLosesRequest(live, n);
      var x :| x in live;
      assert !HoldsExactly(s.consumers[0], live);
    }
  }
}
