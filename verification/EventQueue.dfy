/**
 * The SDK's delivery client: a bounded queue that drops its oldest event on overflow, one drain task that takes
 * events in order, and retries with exponential backoff. Submissions and shutdown may come between any two steps
 * of the drain task.
 */
module EventQueue {

  type Event = string

  /** Where the drain task is: at its loop test, waiting on the queue, or sending with `tried` failed attempts. */
  datatype Drain = Checking | Waiting | Sending(event: Event, tried: nat, waited: nat)

  datatype Client = Client(
    queueSize: int, maxRetries: int,
    queue: seq<Event>, drain: Drain, shutdown: bool,
    submitted: seq<Event>, dropped: seq<Event>, sent: seq<Event>, failed: seq<Event>, untried: seq<Event>)

  datatype Step = Submit(event: Event) | Shutdown | BeginWait | WaitTimesOut | Take | AttemptSucceeds | AttemptFails

  function NewClient(queueSize: int, maxRetries: int): Client {
    Client(queueSize, maxRetries, [], Checking, false, [], [], [], [], [])
  }

  /** A queue of non-positive capacity is unbounded. */
  predicate Full(queueSize: int, queue: seq<Event>) {
    0 < queueSize <= |queue|
  }

  /** The queue after a submission, and what fell out. */
  function Enqueue(queueSize: int, queue: seq<Event>, e: Event): (seq<Event>, seq<Event>) {
    if Full(queueSize, queue) then (queue[1..] + [e], [queue[0]]) else (queue + [e], [])
  }

  predicate Enabled(c: Client, s: Step) {
    match s
    case Submit(_) => true
    case Shutdown => true
    case BeginWait => c.drain.Checking? && !c.shutdown
    case WaitTimesOut => c.drain.Waiting?
    case Take => c.drain.Waiting? && c.queue != []
    case AttemptSucceeds => c.drain.Sending?
    case AttemptFails => c.drain.Sending?
  }

  /** Delay after failed attempt number `attempt`, in initial delays. */
  function Delay(attempt: nat): nat {
    Pow2(attempt)
  }

  function Pow2(n: nat): nat {
    if n == 0 then 1 else 2 * Pow2(n - 1)
  }

  function Apply(c: Client, s: Step): Client
    requires Enabled(c, s)
  {
    match s
    case Submit(e) =>
      var (queue, out) := Enqueue(c.queueSize, c.queue, e);
      c.(queue := queue, dropped := c.dropped + out, submitted := c.submitted + [e])
    case Shutdown => c.(shutdown := true)
    case BeginWait => c.(drain := Waiting)
    case WaitTimesOut => c.(drain := Checking)
    case Take =>
      if c.maxRetries <= 0 then c.(queue := c.queue[1..], drain := Checking, untried := c.untried + [c.queue[0]])
      else c.(queue := c.queue[1..], drain := Sending(c.queue[0], 0, 0))
    case AttemptSucceeds => c.(drain := Checking, sent := c.sent + [c.drain.event])
    case AttemptFails =>
      if c.drain.tried < c.maxRetries - 1 then
        c.(drain := Sending(c.drain.event, c.drain.tried + 1, c.drain.waited + Delay(c.drain.tried)))
      else c.(drain := Checking, failed := c.failed + [c.drain.event])
  }

  /** A run takes enabled steps only. */
  ghost predicate RunTo(c: Client, steps: seq<Step>, d: Client)
    decreases |steps|
  {
    if steps == [] then c == d
    else Enabled(c, steps[0]) && RunTo(Apply(c, steps[0]), steps[1..], d)
  }

  // ---- every submission has exactly one fate ----

  datatype Fate = Dropped | InFlight | Sent | Failed | Untried

  /** The submissions with a given fate, in submission order. */
  function Select(events: seq<Event>, fates: seq<Fate>, fate: Fate): seq<Event>
    requires |fates| <= |events|
  {
    if fates == [] then []
    else
      var n := |fates| - 1;
      if fates[n] == fate then Select(events, fates[..n], fate) + [events[n]] else Select(events, fates[..n], fate)
  }

  function InFlightEvents(d: Drain): seq<Event> {
    if d.Sending? then [d.event] else []
  }

  /**
   * The event being sent is the only one in flight, and everything that got its fate after it was dropped.
   */
  ghost predicate InFlightAt(fates: seq<Fate>, i: nat) {
    && i < |fates| && fates[i] == InFlight
    && (forall j :: 0 <= j < i ==> fates[j] != InFlight)
    && (forall j :: i < j < |fates| ==> fates[j] == Dropped)
  }

  /**
   * The queue is the tail of the submissions; each earlier submission has one fate, and the logs of dropped,
   * sent, given-up and untried events are those submissions in submission order.
   */
  ghost predicate Explains(c: Client, fates: seq<Fate>) {
    && |fates| <= |c.submitted|
    && c.queue == c.submitted[|fates|..]
    && c.dropped == Select(c.submitted, fates, Dropped)
    && c.sent == Select(c.submitted, fates, Sent)
    && c.failed == Select(c.submitted, fates, Failed)
    && c.untried == Select(c.submitted, fates, Untried)
    && (if c.drain.Sending? then exists i: nat :: InFlightAt(fates, i) && c.drain.event == c.submitted[i]
        else forall j :: 0 <= j < |fates| ==> fates[j] != InFlight)
  }

  ghost predicate Invariant(c: Client) {
    && (exists fates :: Explains(c, fates))
    && (c.queueSize > 0 ==> |c.queue| <= c.queueSize)
    && (c.drain.Sending? ==> c.drain.tried < c.maxRetries && c.drain.waited == Pow2(c.drain.tried) - 1)
    && (if c.maxRetries <= 0 then c.sent == [] && c.failed == [] else c.untried == [])
  }

  lemma {:induction false} SelectPrefix(events: seq<Event>, more: seq<Event>, fates: seq<Fate>, fate: Fate)
    requires |fates| <= |events|
    ensures Select(events + more, fates, fate) == Select(events, fates, fate)
    decreases |fates|
  {
    if fates != [] {
      SelectPrefix(events, more, fates[..|fates| - 1], fate);
    }
  }

  lemma SelectNext(events: seq<Event>, fates: seq<Fate>, next: Fate, fate: Fate)
    requires |fates| < |events|
    ensures Select(events, fates + [next], fate)
         == Select(events, fates, fate) + if next == fate then [events[|fates|]] else []
  {
    assert (fates + [next])[..|fates|] == fates;
  }

  /** Settling the event in flight appends it to the log of its new fate and leaves the other logs alone. */
  lemma {:induction false} SettleFate(events: seq<Event>, fates: seq<Fate>, i: nat, to: Fate, fate: Fate)
    requires |fates| <= |events| && InFlightAt(fates, i) && to in {Sent, Failed} && fate != InFlight
    ensures Select(events, fates[i := to], fate) == Select(events, fates, fate) + if fate == to then [events[i]] else []
    decreases |fates|
  {
    var n := |fates| - 1;
    if n > i {
      SettleFate(events, fates[..n], i, to, fate);
      assert fates[i := to][..n] == fates[..n][i := to];
    } else {
      assert fates[i := to][..n] == fates[..n];
    }
  }

  lemma QueueTail(submitted: seq<Event>, k: nat, e: Event)
    requires k <= |submitted|
    ensures (submitted + [e])[k..] == submitted[k..] + [e]
    ensures k < |submitted| ==> (submitted + [e])[k + 1..] == submitted[k..][1..] + [e]
  {
  }

  /** The fates after a submission: on overflow the oldest queued event becomes a dropped one. */
  lemma LogsAfterSubmit(submitted: seq<Event>, fates: seq<Fate>, e: Event, overflow: bool, f: Fate)
    requires |fates| <= |submitted| && (overflow ==> |fates| < |submitted|)
    ensures Select(submitted + [e], if overflow then fates + [Dropped] else fates, f)
         == Select(submitted, fates, f) + if overflow && f == Dropped then [submitted[|fates|]] else []
  {
    SelectPrefix(submitted, [e], fates, f);
    if overflow {
      SelectNext(submitted + [e], fates, Dropped, f);
    }
  }

  lemma LogsStayExplained(c: Client, fates: seq<Fate>, e: Event)
    requires Explains(c, fates)
    ensures var d, next := Apply(c, Submit(e)), if Full(c.queueSize, c.queue) then fates + [Dropped] else fates;
            && |next| <= |d.submitted| && d.queue == d.submitted[|next|..]
            && d.dropped == Select(d.submitted, next, Dropped) && d.sent == Select(d.submitted, next, Sent)
            && d.failed == Select(d.submitted, next, Failed) && d.untried == Select(d.submitted, next, Untried)
  {
    var overflow := Full(c.queueSize, c.queue);
    QueueTail(c.submitted, |fates|, e);
    LogsAfterSubmit(c.submitted, fates, e, overflow, Dropped);
    LogsAfterSubmit(c.submitted, fates, e, overflow, Sent);
    LogsAfterSubmit(c.submitted, fates, e, overflow, Failed);
    LogsAfterSubmit(c.submitted, fates, e, overflow, Untried);
  }

  lemma InFlightStays(c: Client, fates: seq<Fate>, i: nat, e: Event)
    requires |fates| <= |c.submitted| && InFlightAt(fates, i)
    ensures InFlightAt(fates + [Dropped], i) && (c.submitted + [e])[i] == c.submitted[i]
  {
  }

  lemma SubmittedStaysExplained(c: Client, fates: seq<Fate>, e: Event)
    requires Explains(c, fates)
    ensures Explains(Apply(c, Submit(e)), if Full(c.queueSize, c.queue) then fates + [Dropped] else fates)
  {
    LogsStayExplained(c, fates, e);
    if c.drain.Sending? {
      var i: nat :| InFlightAt(fates, i) && c.drain.event == c.submitted[i];
      InFlightStays(c, fates, i, e);
    }
  }

  lemma SubmitKeeps(c: Client, e: Event)
    requires Invariant(c)
    ensures Invariant(Apply(c, Submit(e)))
  {
    var fates :| Explains(c, fates);
    SubmittedStaysExplained(c, fates, e);
  }

  lemma TakeKeeps(c: Client)
    requires Invariant(c) && Enabled(c, Take)
    ensures Invariant(Apply(c, Take))
  {
    var d := Apply(c, Take);
    var fates :| Explains(c, fates);
    var fate := if c.maxRetries <= 0 then Untried else InFlight;
    forall f {
      SelectNext(c.submitted, fates, fate, f);
    }
    if fate == InFlight {
      assert InFlightAt(fates + [fate], |fates|);
    }
    assert Explains(d, fates + [fate]);
  }

  /** The event in flight is sent or given up. */
  lemma SettledStaysExplained(c: Client, s: Step, fates: seq<Fate>, i: nat)
    requires Enabled(c, s) && (s.AttemptSucceeds? || s.AttemptFails?) && Apply(c, s).drain.Checking?
    requires Explains(c, fates) && InFlightAt(fates, i) && c.drain.event == c.submitted[i]
    ensures Explains(Apply(c, s), fates[i := if s.AttemptSucceeds? then Sent else Failed])
  {
    var to := if s.AttemptSucceeds? then Sent else Failed;
    SettleFate(c.submitted, fates, i, to, Dropped);
    SettleFate(c.submitted, fates, i, to, Sent);
    SettleFate(c.submitted, fates, i, to, Failed);
    SettleFate(c.submitted, fates, i, to, Untried);
  }

  lemma SettleKeeps(c: Client, s: Step)
    requires Invariant(c) && Enabled(c, s) && (s.AttemptSucceeds? || s.AttemptFails?)
    ensures Invariant(Apply(c, s))
  {
    var d := Apply(c, s);
    var fates :| Explains(c, fates);
    if d.drain.Checking? {
      var i: nat :| InFlightAt(fates, i) && c.drain.event == c.submitted[i];
      SettledStaysExplained(c, s, fates, i);
    } else {
      assert Explains(d, fates);
    }
  }

  /** Every step keeps the invariant. */
  lemma StepKeeps(c: Client, s: Step)
    requires Invariant(c) && Enabled(c, s)
    ensures Invariant(Apply(c, s))
  {
    match s
    case Submit(e) => SubmitKeeps(c, e);
    case Take => TakeKeeps(c);
    case AttemptSucceeds => SettleKeeps(c, s);
    case AttemptFails => SettleKeeps(c, s);
    case _ =>
      var fates :| Explains(c, fates);
      assert Explains(Apply(c, s), fates);
  }

  /** Every state of every run of a new client satisfies the invariant. */
  lemma {:induction false} RunKeeps(c: Client, steps: seq<Step>, d: Client)
    requires Invariant(c) && RunTo(c, steps, d)
    ensures Invariant(d) && d.queueSize == c.queueSize && d.maxRetries == c.maxRetries
    decreases |steps|
  {
    if steps != [] {
      StepKeeps(c, steps[0]);
      RunKeeps(Apply(c, steps[0]), steps[1..], d);
    }
  }

  lemma RunOfNewClient(queueSize: int, maxRetries: int, steps: seq<Step>, d: Client)
    requires RunTo(NewClient(queueSize, maxRetries), steps, d)
    ensures Invariant(d) && d.queueSize == queueSize && d.maxRetries == maxRetries
  {
    assert Explains(NewClient(queueSize, maxRetries), []);
    RunKeeps(NewClient(queueSize, maxRetries), steps, d);
  }

  /** A step drops something exactly when it submits to a queue at capacity, and then the event queued longest. */
  lemma DropsExactlyAtCapacity(c: Client, s: Step)
    requires Invariant(c) && Enabled(c, s)
    ensures Apply(c, s).dropped == c.dropped + if s.Submit? && c.queueSize > 0 && |c.queue| == c.queueSize
                                               then [c.queue[0]] else []
  {
  }

  /** Up to its capacity a new client drops nothing, whatever the drain task does; unbounded clients never drop. */
  lemma {:induction false} DropsNeedOverflow(c: Client, steps: seq<Step>, d: Client)
    requires Invariant(c) && RunTo(c, steps, d)
    requires c.dropped != [] ==> 0 < c.queueSize < |c.submitted|
    ensures d.dropped != [] ==> 0 < d.queueSize < |d.submitted|
    decreases |steps|
  {
    if steps != [] {
      StepKeeps(c, steps[0]);
      DropsExactlyAtCapacity(c, steps[0]);
      DropsNeedOverflow(Apply(c, steps[0]), steps[1..], d);
    }
  }

  lemma NothingDroppedBelowCapacity(queueSize: int, maxRetries: int, steps: seq<Step>, d: Client)
    requires RunTo(NewClient(queueSize, maxRetries), steps, d)
    requires queueSize <= 0 || |d.submitted| <= queueSize
    ensures d.dropped == []
  {
    var c := NewClient(queueSize, maxRetries);
    assert Explains(c, []);
    RunOfNewClient(queueSize, maxRetries, steps, d);
    DropsNeedOverflow(c, steps, d);
  }

  ghost function Held(events: seq<Event>, fates: seq<Fate>, fate: Fate): multiset<Event>
    requires |fates| <= |events|
  {
    multiset(Select(events, fates, fate))
  }

  lemma {:induction false} FatesPartition(events: seq<Event>, fates: seq<Fate>)
    requires |fates| <= |events|
    ensures multiset(events[..|fates|]) == Held(events, fates, Dropped) + Held(events, fates, InFlight)
         + Held(events, fates, Sent) + Held(events, fates, Failed) + Held(events, fates, Untried)
    decreases |fates|
  {
    if fates != [] {
      var n := |fates| - 1;
      var before := fates[..n];
      FatesPartition(events, before);
      assert events[..|fates|] == events[..n] + [events[n]];
      var d, i, s, f, u := Held(events, before, Dropped), Held(events, before, InFlight), Held(events, before, Sent),
                           Held(events, before, Failed), Held(events, before, Untried);
      AddToOne(d, i, s, f, u, events[n]);
      match fates[n]
      case Dropped => assert Held(events, fates, Dropped) == d + multiset{events[n]};
      case InFlight => assert Held(events, fates, InFlight) == i + multiset{events[n]};
      case Sent => assert Held(events, fates, Sent) == s + multiset{events[n]};
      case Failed => assert Held(events, fates, Failed) == f + multiset{events[n]};
      case Untried => assert Held(events, fates, Untried) == u + multiset{events[n]};
    }
  }

  lemma AddToOne(d: multiset<Event>, i: multiset<Event>, s: multiset<Event>, f: multiset<Event>,
                 u: multiset<Event>, e: Event)
    ensures var all := d + i + s + f + u + multiset{e};
            && all == d + multiset{e} + i + s + f + u && all == d + (i + multiset{e}) + s + f + u
            && all == d + i + (s + multiset{e}) + f + u && all == d + i + s + (f + multiset{e}) + u
            && all == d + i + s + f + (u + multiset{e})
  {
  }

  lemma {:induction false} OneInFlight(events: seq<Event>, fates: seq<Fate>, i: nat)
    requires |fates| <= |events| && InFlightAt(fates, i)
    ensures Select(events, fates, InFlight) == [events[i]]
    decreases |fates|
  {
    var n := |fates| - 1;
    if n > i {
      OneInFlight(events, fates[..n], i);
    } else {
      NoneSelected(events, fates[..n], InFlight);
    }
  }

  lemma {:induction false} NoneSelected(events: seq<Event>, fates: seq<Fate>, fate: Fate)
    requires |fates| <= |events| && forall j :: 0 <= j < |fates| ==> fates[j] != fate
    ensures Select(events, fates, fate) == []
    decreases |fates|
  {
    if fates != [] {
      NoneSelected(events, fates[..|fates| - 1], fate);
    }
  }

  /** Nothing is lost or duplicated: submissions = dropped + in flight + sent + failed + untried + queued. */
  lemma EventsConserved(c: Client)
    requires Invariant(c)
    ensures multiset(c.submitted) == multiset(c.dropped) + multiset(InFlightEvents(c.drain)) + multiset(c.sent)
         + multiset(c.failed) + multiset(c.untried) + multiset(c.queue)
  {
    var fates :| Explains(c, fates);
    FatesPartition(c.submitted, fates);
    if c.drain.Sending? {
      var i: nat :| InFlightAt(fates, i) && c.drain.event == c.submitted[i];
      OneInFlight(c.submitted, fates, i);
    } else {
      NoneSelected(c.submitted, fates, InFlight);
    }
    assert c.submitted == c.submitted[..|fates|] + c.queue;
  }

  lemma {:induction false} Pow2Monotone(a: nat, b: nat)
    requires a <= b
    ensures 1 <= Pow2(a) <= Pow2(b)
    decreases b
  {
    if b > 0 {
      Pow2Monotone(if a == 0 then 0 else a - 1, b - 1);
    }
  }

  /** The event being sent has failed fewer than maxRetries times and waited at most 2^(maxRetries-1) - 1 delays. */
  lemma BackoffBounded(c: Client)
    requires Invariant(c) && c.drain.Sending?
    ensures c.drain.tried + 1 <= c.maxRetries && c.drain.waited <= Pow2(c.maxRetries - 1) - 1
  {
    Pow2Monotone(c.drain.tried, c.maxRetries - 1);
  }

  /** How many events have left the queue for the drain task. */
  function Taken(c: Client): nat {
    |c.sent| + |c.failed| + |c.untried| + |InFlightEvents(c.drain)|
  }

  /**
   * Shutdown does not flush: after it at most one more event is taken, and none unless the drain task was already
   * waiting for one.
   */
  lemma {:induction false} AtMostOneTakenAfterShutdown(c: Client, steps: seq<Step>, d: Client)
    requires c.shutdown && RunTo(c, steps, d)
    ensures d.shutdown && Taken(d) <= Taken(c) + if c.drain.Waiting? then 1 else 0
    decreases |steps|
  {
    if steps != [] {
      AtMostOneTakenAfterShutdown(Apply(c, steps[0]), steps[1..], d);
    }
  }

  /** Steps of the drain task only: nobody submits any more. */
  ghost predicate NoSubmissions(steps: seq<Step>) {
    forall s :: s in steps ==> !s.Submit?
  }

  /** What the docstring of shutdown promises: nothing queued and nothing in flight any more. */
  predicate Flushed(c: Client) {
    c.queue == [] && !c.drain.Sending?
  }

  /** After shutdown the events that can still be taken are at most those the waiting drain task takes. */
  lemma {:induction false} QueueShrinksByWait(c: Client, steps: seq<Step>, d: Client)
    requires c.shutdown && RunTo(c, steps, d) && NoSubmissions(steps)
    ensures |c.queue| <= |d.queue| + if c.drain.Waiting? then 1 else 0
    decreases |steps|
  {
    if steps != [] {
      assert steps[0] in steps;
      QueueShrinksByWait(Apply(c, steps[0]), steps[1..], d);
    }
  }

  lemma OneStep(c: Client, s: Step)
    requires Enabled(c, s)
    ensures RunTo(c, [s], Apply(c, s))
  {
    assert [s][1..] == [];
  }

  lemma TwoSteps(c: Client, s: Step, t: Step)
    requires Enabled(c, s) && Enabled(Apply(c, s), t)
    ensures RunTo(c, [s, t], Apply(Apply(c, s), t))
  {
    OneStep(Apply(c, s), t);
    assert [s, t][1..] == [t];
  }

  lemma Flush(c: Client) returns (steps: seq<Step>, d: Client)
    requires |c.queue| <= if c.drain.Waiting? then 1 else 0
    ensures NoSubmissions(steps) && RunTo(c, steps, d) && Flushed(d)
  {
    if c.queue != [] {
      d := Apply(c, Take);
      if d.drain.Sending? {
        TwoSteps(c, Take, AttemptSucceeds);
        steps, d := [Take, AttemptSucceeds], Apply(d, AttemptSucceeds);
      } else {
        OneStep(c, Take);
        steps := [Take];
      }
    } else if c.drain.Sending? {
      OneStep(c, AttemptSucceeds);
      steps, d := [AttemptSucceeds], Apply(c, AttemptSucceeds);
    } else {
      steps, d := [], c;
    }
  }

  ghost predicate CanFlush(c: Client) {
    exists steps, d :: NoSubmissions(steps) && RunTo(c, steps, d) && Flushed(d)
  }

  /**
   * Exactly when shutdown can keep its promise to process what is left: when nothing is queued, or a single event is
   * and the drain task was already waiting for it.
   */
  lemma ShutdownFlushesExactly(c: Client)
    requires c.shutdown
    ensures CanFlush(c) <==> |c.queue| <= if c.drain.Waiting? then 1 else 0
  {
    if steps, d :| NoSubmissions(steps) && RunTo(c, steps, d) && Flushed(d) {
      QueueShrinksByWait(c, steps, d);
    }
    if |c.queue| <= if c.drain.Waiting? then 1 else 0 {
      var steps, d := Flush(c);
    }
  }

  /** For instance: a new client that is given one event and shut down before its drain task starts
      keeps it for ever. */
  lemma ShutdownLeavesEvent(queueSize: int, maxRetries: int, e: Event)
    ensures var c := Apply(Apply(NewClient(queueSize, maxRetries), Submit(e)), Shutdown);
            RunTo(NewClient(queueSize, maxRetries), [Submit(e), Shutdown], c) && c.queue == [e] && !CanFlush(c)
  {
    var new0 := NewClient(queueSize, maxRetries);
    TwoSteps(new0, Submit(e), Shutdown);
    ShutdownFlushesExactly(Apply(Apply(new0, Submit(e)), Shutdown));
  }

  /** Among taken events, all are untried when max_retries is zero or less, and none is otherwise. */
  lemma UntriedExactly(c: Client)
    requires Invariant(c)
    ensures if c.maxRetries <= 0 then Taken(c) == |c.untried| else c.untried == []
    ensures Taken(c) > 0 ==> (c.untried != [] <==> c.maxRetries <= 0)
  {
  }

  /** The steps of one retry loop from attempt number i on; `succeeds(i)` says whether attempt i goes through. */
  ghost function AttemptsFrom(succeeds: nat -> bool, maxRetries: int, i: nat): seq<Step>
    decreases maxRetries - i
  {
    if i >= maxRetries then []
    else if succeeds(i) then [AttemptSucceeds]
    else [AttemptFails] + AttemptsFrom(succeeds, maxRetries, i + 1)
  }

  ghost predicate SomeAttemptSucceeds(succeeds: nat -> bool, maxRetries: int, i: nat) {
    exists j: nat :: i <= j < maxRetries && succeeds(j)
  }

  /** The retry loop, seen as steps: the event ends in the sent log if any allowed attempt succeeds, else given up. */
  lemma {:induction false} RetryLoopSettles(c: Client, succeeds: nat -> bool, i: nat)
    requires c.drain.Sending? && c.drain.tried == i && i < c.maxRetries
    ensures RunTo(c, AttemptsFrom(succeeds, c.maxRetries, i),
                  if SomeAttemptSucceeds(succeeds, c.maxRetries, i)
                  then c.(drain := Checking, sent := c.sent + [c.drain.event])
                  else c.(drain := Checking, failed := c.failed + [c.drain.event]))
    decreases c.maxRetries - i
  {
    var steps := AttemptsFrom(succeeds, c.maxRetries, i);
    if succeeds(i) {
      assert steps[1..] == [];
    } else if i + 1 < c.maxRetries {
      RetryLoopSettles(Apply(c, AttemptFails), succeeds, i + 1);
      assert steps[1..] == AttemptsFrom(succeeds, c.maxRetries, i + 1);
    } else {
      assert AttemptsFrom(succeeds, c.maxRetries, i + 1) == [] && steps[1..] == [];
    }
  }

  // ---- the client object ----

  class BackendClient {
    const queueSize: int
    const maxRetries: int
    var queue: seq<Event>
    var drainStarted: bool
    var shutdown: bool

    constructor (queueSize: int, maxRetries: int)
      ensures this.queueSize == queueSize && this.maxRetries == maxRetries
      ensures queue == [] && !drainStarted && !shutdown
    {
      this.queueSize, this.maxRetries := queueSize, maxRetries;
      queue, drainStarted, shutdown := [], false, false;
    }

    /** Never blocks: on overflow the oldest event makes room. */
    method SubmitEvent(e: Event) returns (dropped: seq<Event>)
      modifies this
      ensures (queue, dropped) == Enqueue(queueSize, old(queue), e)
      ensures if 0 < queueSize <= |old(queue)| then dropped + queue == old(queue) + [e] && |dropped| == 1
              else dropped == [] && queue == old(queue) + [e]
      ensures drainStarted == (old(drainStarted) || !shutdown) && shutdown == old(shutdown)
    {
      if !drainStarted && !shutdown {
        drainStarted := true;
      }
      dropped := [];
      if Full(queueSize, queue) {
        dropped := [queue[0]];
        queue := queue[1..];
      }
      queue := queue + [e];
    }

    /**
     * The retry loop. `succeeds(i)` says whether attempt i goes through; `delays` lists the waits.
     */
    method SendEventWithRetry(succeeds: nat -> bool) returns (sent: bool, attempts: nat, delays: seq<nat>)
      ensures sent <==> SomeAttemptSucceeds(succeeds, maxRetries, 0)
      ensures sent <==> exists j: nat :: j < maxRetries && succeeds(j)
      ensures |delays| > 0 ==> delays[0] == 1
      ensures forall i :: 0 < i < |delays| ==> delays[i] == 2 * delays[i - 1]
      ensures attempts <= if maxRetries < 0 then 0 else maxRetries
      ensures sent ==> attempts > 0 && succeeds(attempts - 1)
      ensures forall i: nat :: i < attempts && (sent ==> i + 1 < attempts) ==> !succeeds(i)
      ensures !sent && maxRetries > 0 ==> attempts == maxRetries
      ensures |delays| == if attempts == 0 then 0 else attempts - 1
      ensures Total(delays) == if attempts == 0 then 0 else Pow2(attempts - 1) - 1
    {
      delays := [];
      attempts := 0;
      while attempts < maxRetries
        invariant 0 <= attempts <= if maxRetries < 0 then 0 else maxRetries
        invariant forall i: nat :: i < attempts ==> !succeeds(i)
        invariant |delays| == if attempts == maxRetries && attempts > 0 then attempts - 1 else attempts
        invariant Total(delays) == Pow2(|delays|) - 1
        invariant forall i :: 0 <= i < |delays| ==> delays[i] == Pow2(i)
      {
        attempts := attempts + 1;
        if succeeds(attempts - 1) {
          return true, attempts, delays;
        }
        if attempts - 1 < maxRetries - 1 {
          TotalAppend(delays, Delay(attempts - 1));
          delays := delays + [Delay(attempts - 1)];
        }
      }
      return false, attempts, delays;
    }
  }

  function Total(delays: seq<nat>): nat {
    if delays == [] then 0 else delays[0] + Total(delays[1..])
  }

  lemma {:induction false} TotalAppend(delays: seq<nat>, d: nat)
    ensures Total(delays + [d]) == Total(delays) + d
  {
    if delays == [] {
      assert delays + [d] == [d] && [d][1..] == [];
    } else {
      TotalAppend(delays[1..], d);
      assert (delays + [d])[1..] == delays[1..] + [d];
    }
  }
}
