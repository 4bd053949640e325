/** The event manager: any thread or interrupt submits events; one work item on the system work queue
    dispatches them to their listeners. */
module EventManager {
  import opened Common

  /** Occurrences of events, each submitted once, and the records of their subscribers. */
  type Event = nat
  type Subscriber = nat

  // Dispatch of one event

  /** The listeners that see an event: in priority order, up to and including the first that consumes it. */
  function Notified(subs: seq<Subscriber>, consumes: Subscriber -> bool): seq<Subscriber> {
    if subs == [] then []
    else if consumes(subs[0]) then [subs[0]]
    else [subs[0]] + Notified(subs[1..], consumes)
  }

  lemma {:induction false} NotifiedConcat(a: seq<Subscriber>, b: seq<Subscriber>, consumes: Subscriber -> bool)
    ensures Notified(a + b, consumes) ==
            if exists l :: l in a && consumes(l) then Notified(a, consumes) else a + Notified(b, consumes)
  {
    if a == [] {
      assert a + b == b;
    } else {
      assert (a + b)[1..] == a[1..] + b;
      NotifiedConcat(a[1..], b, consumes);
      assert a == [a[0]] + a[1..];
      if !consumes(a[0]) && !exists l :: l in a[1..] && consumes(l) {
        assert [a[0]] + (a[1..] + Notified(b, consumes)) == a + Notified(b, consumes);
      }
    }
  }

  /** The inner loop, over the subscribers of one priority level. */
  method NotifyLevel(level: seq<Subscriber>, consumes: Subscriber -> bool)
    returns (notified: seq<Subscriber>, consumed: bool)
    ensures notified == Notified(level, consumes)
    ensures consumed <==> exists l :: l in level && consumes(l)
    ensures !consumed ==> notified == level
  {
    notified, consumed := [], false;
    var i := 0;
    while i < |level| && !consumed
      invariant 0 <= i <= |level|
      invariant consumed <==> exists l :: l in level[..i] && consumes(l)
      invariant notified == Notified(level[..i], consumes)
      invariant !consumed ==> notified == level[..i]
    {
      assert level[..i + 1] == level[..i] + [level[i]];
      NotifiedConcat(level[..i], [level[i]], consumes);
      notified := notified + [level[i]];
      consumed := consumes(level[i]);
      i := i + 1;
    }
    assert level == level[..i] + level[i..];
    NotifiedConcat(level[..i], level[i..], consumes);
    assert !consumed ==> level[..i] == level;
  }

  /** The nested loops of `event_processor_fn` over priority levels and subscribers. */
  method NotifyListeners(levels: seq<seq<Subscriber>>, consumes: Subscriber -> bool)
    returns (notified: seq<Subscriber>, consumed: bool)
    ensures notified == Notified(Concat(levels), consumes)
    ensures consumed <==> exists l :: l in Concat(levels) && consumes(l)
  {
    notified, consumed := [], false;
    var prio := 0;
    while prio < |levels| && !consumed
      invariant 0 <= prio <= |levels|
      invariant consumed <==> exists l :: l in Concat(levels[..prio]) && consumes(l)
      invariant consumed ==> notified == Notified(Concat(levels[..prio]), consumes)
      invariant !consumed ==> notified == Concat(levels[..prio])
    {
      ghost var above := Concat(levels[..prio]);
      var level := levels[prio];
      var told;
      told, consumed := NotifyLevel(level, consumes);
      notified := notified + told;
      NotifiedConcat(above, level, consumes);
      assert levels[..prio + 1] == levels[..prio] + [level];
      ConcatSnoc(levels[..prio], level);
      prio := prio + 1;
    }
    assert levels == levels[..prio] + levels[prio..];
    ConcatAppend(levels[..prio], levels[prio..]);
    NotifiedConcat(Concat(levels[..prio]), Concat(levels[prio..]), consumes);
    if !consumed {
      assert levels[..prio] == levels;
    }
  }

  // All interleavings

  /** What the work item is doing. `Started` is before the queue is taken; `Delivering` has notified
      `told` of the subscribers of `event`, the last of which may have consumed it. */
  datatype Phase =
    | Resting
    | Started
    | Running(local: seq<Event>)
    | Delivering(event: Event, told: nat, consumed: bool, local: seq<Event>)

  /** One call of a listener. */
  datatype Call = Call(event: Event, subscriber: Subscriber, consumed: bool)

  /** `submitting` are the events whose submitter is between the append and `k_work_submit`; `appended`,
      `calls` and `freed` are histories. */
  datatype State = State(
    queue: seq<Event>, submitting: set<Event>, pending: bool, phase: Phase,
    appended: seq<Event>, calls: seq<Call>, freed: seq<Event>)

  datatype Step =
    | Append(event: Event)
    | Kick(event: Event)
    | Begin
    | Swap
    | Next
    | Notify(consumed: bool)
    | Free
    | Finish

  const INITIAL := State([], {}, false, Resting, [], [], [])

  /** `subs` gives the subscribers of an event in priority order. The work queue runs the item when it is
      pending and clears the flag first, so a submission during the run makes it pending again. */
  ghost predicate Enabled(subs: Event -> seq<Subscriber>, s: State, t: Step) {
    match t
    case Append(e) => e !in s.appended
    case Kick(e) => e in s.submitting
    case Begin => s.phase == Resting && s.pending
    case Swap => s.phase == Started
    case Next => s.phase.Running? && s.phase.local != []
    case Notify(_) => s.phase.Delivering? && !s.phase.consumed && s.phase.told < |subs(s.phase.event)|
    case Free => s.phase.Delivering? && (s.phase.consumed || s.phase.told >= |subs(s.phase.event)|)
    case Finish => s.phase.Running? && s.phase.local == []
  }

  ghost function Take(subs: Event -> seq<Subscriber>, s: State, t: Step): State
    requires Enabled(subs, s, t)
  {
    match t
    case Append(e) =>
      s.(queue := s.queue + [e], submitting := s.submitting + {e}, appended := s.appended + [e])
    case Kick(e) => s.(pending := true, submitting := s.submitting - {e})
    case Begin => s.(pending := false, phase := Started)
    case Swap =>
      if s.queue == [] then s.(phase := Resting) else s.(queue := [], phase := Running(s.queue))
    case Next => s.(phase := Delivering(s.phase.local[0], 0, false, s.phase.local[1..]))
    case Notify(consumed) =>
      var e, k := s.phase.event, s.phase.told;
      s.(phase := s.phase.(told := k + 1, consumed := consumed),
         calls := s.calls + [Call(e, subs(e)[k], consumed)])
    case Free => s.(phase := Running(s.phase.local), freed := s.freed + [s.phase.event])
    case Finish => s.(phase := Resting)
  }

  /** Events taken off the queue and not yet freed. */
  ghost function Local(p: Phase): seq<Event> {
    match p
    case Running(local) => local
    case Delivering(e, _, _, local) => [e] + local
    case _ => []
  }

  ghost predicate Distinct(es: seq<Event>) {
    forall i, j :: 0 <= i < j < |es| ==> es[i] != es[j]
  }

  function CallsFor(calls: seq<Call>, e: Event): seq<Call> {
    if calls == [] then []
    else
      var n := |calls| - 1;
      CallsFor(calls[..n], e) + (if calls[n].event == e then [calls[n]] else [])
  }

  /** The calls for an event go to its first subscribers, one each, and none but the last consumed it. */
  ghost predicate InOrder(subs: seq<Subscriber>, calls: seq<Call>) {
    && |calls| <= |subs|
    && (forall i :: 0 <= i < |calls| ==> calls[i].subscriber == subs[i])
    && (forall i :: 0 <= i < |calls| - 1 ==> !calls[i].consumed)
  }

  ghost predicate LastConsumed(calls: seq<Call>) { calls != [] && calls[|calls| - 1].consumed }

  /** A finished event told every subscriber, or stopped at the first that consumed it. */
  ghost predicate Completed(subs: seq<Subscriber>, calls: seq<Call>) {
    InOrder(subs, calls) && (LastConsumed(calls) || |calls| == |subs|)
  }

  ghost function Told(calls: seq<Call>): seq<Subscriber> {
    if calls == [] then [] else [calls[0].subscriber] + Told(calls[1..])
  }

  /** The calls of a finished event are those the dispatch loops make. */
  lemma {:induction false} CompletedIsNotified(subs: seq<Subscriber>, calls: seq<Call>, consumes: Subscriber -> bool)
    requires Completed(subs, calls)
    requires forall i :: 0 <= i < |calls| ==> calls[i].consumed == consumes(calls[i].subscriber)
    ensures Told(calls) == Notified(subs, consumes)
  {
    if calls != [] && !calls[0].consumed {
      CompletedIsNotified(subs[1..], calls[1..], consumes);
    } else if calls != [] {
      assert calls[1..] == [];
    }
  }

  ghost predicate CallsFit(subs: Event -> seq<Subscriber>, s: State) {
    && (forall e :: e in s.freed ==> Completed(subs(e), CallsFor(s.calls, e)))
    && (forall e :: e !in s.freed && !(s.phase.Delivering? && s.phase.event == e) ==> CallsFor(s.calls, e) == [])
    && (s.phase.Delivering? ==>
          var cs := CallsFor(s.calls, s.phase.event);
          && InOrder(subs(s.phase.event), cs)
          && |cs| == s.phase.told
          && (s.phase.consumed <==> LastConsumed(cs)))
  }

  ghost predicate Awake(s: State) {
    s.queue != [] ==> s.pending || s.submitting != {} || s.phase == Started
  }

  ghost predicate Ordered(s: State) {
    && s.appended == s.freed + Local(s.phase) + s.queue
    && Distinct(s.appended)
    && (forall e :: e in s.submitting ==> e in s.appended)
    && Awake(s)
  }

  ghost predicate Inv(subs: Event -> seq<Subscriber>, s: State) { Ordered(s) && CallsFit(subs, s) }

  lemma CallsForSnoc(calls: seq<Call>, c: Call, e: Event)
    ensures CallsFor(calls + [c], e) == CallsFor(calls, e) + (if c.event == e then [c] else [])
  {
    assert (calls + [c])[..|calls|] == calls;
  }

  lemma NotifyKeepsCalls(subs: Event -> seq<Subscriber>, s: State, consumed: bool)
    requires Inv(subs, s) && Enabled(subs, s, Notify(consumed))
    requires s.phase.event !in s.freed
    ensures CallsFit(subs, Take(subs, s, Notify(consumed)))
  {
    var s' := Take(subs, s, Notify(consumed));
    var c := Call(s.phase.event, subs(s.phase.event)[s.phase.told], consumed);
    CallsForSnoc(s.calls, c, c.event);
    NextInOrder(subs(c.event), CallsFor(s.calls, c.event), c);
    forall e | e != c.event ensures CallsFor(s'.calls, e) == CallsFor(s.calls, e) {
      CallsForSnoc(s.calls, c, e);
      assert CallsFor(s.calls, e) + [] == CallsFor(s.calls, e);
    }
  }

  /** A call of the next subscriber of an event that nobody consumed yet. */
  lemma NextInOrder(subs: seq<Subscriber>, calls: seq<Call>, c: Call)
    requires InOrder(subs, calls) && !LastConsumed(calls) && |calls| < |subs| && c.subscriber == subs[|calls|]
    ensures InOrder(subs, calls + [c]) && (LastConsumed(calls + [c]) <==> c.consumed)
  {}

  lemma InFlightNotFreed(s: State)
    requires Ordered(s)
    ensures forall e :: e in Local(s.phase) ==> e !in s.freed
  {
    forall e | e in Local(s.phase) ensures e !in s.freed {
      var i :| 0 <= i < |Local(s.phase)| && Local(s.phase)[i] == e;
      assert s.appended[|s.freed| + i] == e;
      forall j | 0 <= j < |s.freed| ensures s.freed[j] != e {
        assert s.appended[j] == s.freed[j];
      }
    }
  }

  lemma StepKeepsInv(subs: Event -> seq<Subscriber>, s: State, t: Step)
    requires Inv(subs, s) && Enabled(subs, s, t)
    ensures Inv(subs, Take(subs, s, t))
  {
    StepKeepsOrder(subs, s, t);
    InFlightNotFreed(s);
    match t
    case Notify(consumed) => NotifyKeepsCalls(subs, s, consumed);
    case _ =>
  }

  lemma StepKeepsOrder(subs: Event -> seq<Subscriber>, s: State, t: Step)
    requires Ordered(s) && Enabled(subs, s, t)
    ensures Ordered(Take(subs, s, t))
  {
    match t
    case Append(e) => Associative(s.freed + Local(s.phase), s.queue, [e]);
    case Next => assert [s.phase.local[0]] + s.phase.local[1..] == s.phase.local;
    case Free => Associative(s.freed, [s.phase.event], s.phase.local);
    case Swap => SwapText(s.freed, s.queue);
    case _ =>
  }

  lemma SwapText(freed: seq<Event>, queue: seq<Event>)
    ensures freed + [] + queue == freed + queue + [] && freed + [] + queue == freed + queue
  {}

  // Whole runs

  ghost predicate Leads(subs: Event -> seq<Subscriber>, s: State, t: Step, s': State) {
    Enabled(subs, s, t) && s' == Take(subs, s, t)
  }

  ghost predicate Run(subs: Event -> seq<Subscriber>, ss: seq<State>, ts: seq<Step>) {
    && |ss| == |ts| + 1
    && forall i {:trigger ts[i]} :: 0 <= i < |ts| ==> Leads(subs, ss[i], ts[i], ss[i + 1])
  }

  lemma {:induction false} RunKeepsInv(subs: Event -> seq<Subscriber>, ss: seq<State>, ts: seq<Step>, k: nat)
    requires Run(subs, ss, ts) && Inv(subs, ss[0]) && k <= |ts|
    ensures Inv(subs, ss[k])
  {
    if k > 0 {
      RunKeepsInv(subs, ss, ts, k - 1);
      LeadKeepsInv(subs, ss[k - 1], ts[k - 1], ss[k]);
    }
  }

  lemma LeadKeepsInv(subs: Event -> seq<Subscriber>, s: State, t: Step, s': State)
    requires Inv(subs, s) && Leads(subs, s, t, s')
    ensures Inv(subs, s')
  {
    StepKeepsInv(subs, s, t);
  }

  /** In every reachable state the events freed, those in hand and those queued are exactly the appended
      ones in their order; no event is freed twice; a freed event went to its subscribers in priority
      order up to the first consumer; and a waiting event has something on its way to wake the handler. */
  lemma SafeAndAwake(subs: Event -> seq<Subscriber>, ss: seq<State>, ts: seq<Step>, k: nat)
    requires Run(subs, ss, ts) && ss[0] == INITIAL && k <= |ts|
    ensures var s := ss[k];
            && s.appended == s.freed + Local(s.phase) + s.queue
            && Distinct(s.freed)
            && (forall e :: e in s.freed ==> Completed(subs(e), CallsFor(s.calls, e)))
            && (s.queue != [] ==> s.pending || s.submitting != {} || s.phase == Started)
  {
    RunKeepsInv(subs, ss, ts, k);
    var s := ss[k];
    assert forall i :: 0 <= i < |s.freed| ==> s.freed[i] == s.appended[i];
  }

  /** No wakeup is lost: when nothing can happen any more but a new submission, every event appended so
      far has been dispatched and freed, in order. */
  lemma QuiescentMeansDone(subs: Event -> seq<Subscriber>, ss: seq<State>, ts: seq<Step>, k: nat)
    requires Run(subs, ss, ts) && ss[0] == INITIAL && k <= |ts|
    requires forall t: Step :: !t.Append? ==> !Enabled(subs, ss[k], t)
    ensures ss[k].freed == ss[k].appended
  {
    RunKeepsInv(subs, ss, ts, k);
    var s := ss[k];
    assert !Enabled(subs, s, Begin) && !Enabled(subs, s, Swap) && !Enabled(subs, s, Next);
    assert !Enabled(subs, s, Notify(false)) && !Enabled(subs, s, Free) && !Enabled(subs, s, Finish);
    forall e | e in s.submitting ensures false {
      assert Enabled(subs, s, Kick(e));
    }
  }

  /** Work left in the system. */
  ghost function Weight(subs: Event -> seq<Subscriber>, es: seq<Event>): nat {
    if es == [] then 0 else |subs(es[0])| + 2 + Weight(subs, es[1..])
  }

  ghost function PhaseWeight(subs: Event -> seq<Subscriber>, p: Phase): int {
    match p
    case Resting => 0
    case Started => 2
    case Running(local) => 1 + Weight(subs, local)
    case Delivering(e, told, _, local) => |subs(e)| - told + 2 + Weight(subs, local)
  }

  ghost function Measure(subs: Event -> seq<Subscriber>, s: State): int {
    4 * |s.submitting| + (if s.pending then 3 else 0) + PhaseWeight(subs, s.phase) + Weight(subs, s.queue)
  }

  lemma StepSpendsMeasure(subs: Event -> seq<Subscriber>, s: State, t: Step)
    requires Inv(subs, s) && Enabled(subs, s, t) && !t.Append?
    ensures Measure(subs, Take(subs, s, t)) < Measure(subs, s)
    ensures Measure(subs, Take(subs, s, t)) >= 0
  {
    StepKeepsInv(subs, s, t);
    if t.Kick? {
      assert |s.submitting - {t.event}| == |s.submitting| - 1;
    }
  }

  lemma {:induction false} MeasureSpent(subs: Event -> seq<Subscriber>, ss: seq<State>, ts: seq<Step>, k: nat)
    requires Run(subs, ss, ts) && Inv(subs, ss[0]) && k <= |ts|
    requires forall i :: 0 <= i < |ts| ==> !ts[i].Append?
    ensures Measure(subs, ss[k]) <= Measure(subs, ss[0]) - k
  {
    if k > 0 {
      MeasureSpent(subs, ss, ts, k - 1);
      RunKeepsInv(subs, ss, ts, k - 1);
      LeadSpendsMeasure(subs, ss[k - 1], ts[k - 1], ss[k]);
    }
  }

  /** Without new submissions every run stops within the measure of its first state; together with
      `QuiescentMeansDone` this is eventual dispatch. */
  lemma DispatchTerminates(subs: Event -> seq<Subscriber>, ss: seq<State>, ts: seq<Step>)
    requires Run(subs, ss, ts) && Inv(subs, ss[0])
    requires forall i :: 0 <= i < |ts| ==> !ts[i].Append?
    ensures |ts| + Measure(subs, ss[|ts|]) <= Measure(subs, ss[0]) && Measure(subs, ss[|ts|]) >= 0
  {
    MeasureSpent(subs, ss, ts, |ts|);
    RunKeepsInv(subs, ss, ts, |ts|);
    MeasureNonNegative(subs, ss[|ts|]);
  }

  lemma LeadSpendsMeasure(subs: Event -> seq<Subscriber>, s: State, t: Step, s': State)
    requires Inv(subs, s) && Leads(subs, s, t, s') && !t.Append?
    ensures 0 <= Measure(subs, s') < Measure(subs, s)
  {
    StepSpendsMeasure(subs, s, t);
  }

  lemma MeasureNonNegative(subs: Event -> seq<Subscriber>, s: State)
    requires Inv(subs, s)
    ensures Measure(subs, s) >= 0
  {}
}
