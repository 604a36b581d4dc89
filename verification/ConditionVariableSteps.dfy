// base/condition_variable_win.cc as a step system: any number of threads wait, time out,
// signal and broadcast in any interleaving. Sections under internal_lock_ are single steps;
// SetEvent and WaitForSingleObject happen outside the lock and are steps of their own.
module ConditionVariableSteps {
  import opened CvLists
  import opened Wrappers

  type Thread = nat
  type Event = nat

  // A call to TimedWait between taking an event and recycling it. Tickets number the waits
  // in the order they start. Released means WaitForSingleObject has returned.
  datatype Wait = Wait(event: Event, ticket: nat, released: bool)

  // A wait that was listed when a notifier held the lock.
  datatype Target = Target(thread: Thread, ticket: nat, event: Event)

  // A call to Broadcast or Signal after it released the lock: a stack of handles still to
  // be set, and (for the specification) the waits it is due to wake.
  datatype Notifier = Notifier(handles: seq<Event>, targets: set<Target>)

  datatype State = State(
    lists: Lists<Event>,
    signaled: set<Event>,          // auto-reset events currently set
    inside: map<Thread, Wait>,
    notifying: map<Thread, Notifier>,
    tickets: nat,
    running: bool)

  datatype Step =
    | StartWait(t: Thread)
    | ReturnSignaled(t: Thread)    // WaitForSingleObject consumes the event's signal
    | ReturnTimedOut(t: Thread)
    | FinishWait(t: Thread)        // RecycleEvent
    | Broadcast(t: Thread)
    | Signal(t: Thread)
    | SetTop(t: Thread)            // SetEvent on the top of the stack
    | FinishNotify(t: Thread)
    | Shutdown                     // the destructor's first assignment

  const INITIAL_STATE: State := State(Lists([], [], 0, 0), {}, map[], map[], 0, true)

  ghost predicate Enabled(s: State, step: Step) {
    match step
    case StartWait(t) => t !in s.inside && t !in s.notifying
    case ReturnSignaled(t) => t in s.inside && !s.inside[t].released && s.inside[t].event in s.signaled
    case ReturnTimedOut(t) => t in s.inside && !s.inside[t].released
    case FinishWait(t) => t in s.inside && s.inside[t].released
    case Broadcast(t) => t !in s.inside && t !in s.notifying
    case Signal(t) => t !in s.inside && t !in s.notifying
    case SetTop(t) => t in s.notifying && s.notifying[t].handles != []
    case FinishNotify(t) => t in s.notifying && s.notifying[t].handles == []
    case Shutdown => true
  }

  ghost function Listed(s: State, events: seq<Event>): set<Target> {
    set t | t in s.inside && s.inside[t].event in events :: Target(t, s.inside[t].ticket, s.inside[t].event)
  }

  ghost function Apply(s: State, step: Step): State
    requires Enabled(s, step) && PopsSafely(s.lists)
  {
    match step
    case StartWait(t) =>
      if !s.running then s
      else
        var created := s.lists.allocations;
        s.(lists := Take(s.lists, created),
           inside := s.inside[t := Wait(TakenEvent(s.lists, created), s.tickets, false)],
           tickets := s.tickets + 1)
    case ReturnSignaled(t) =>
      s.(signaled := s.signaled - {s.inside[t].event}, inside := s.inside[t := s.inside[t].(released := true)])
    case ReturnTimedOut(t) =>
      s.(inside := s.inside[t := s.inside[t].(released := true)])
    case FinishWait(t) =>
      s.(lists := Recycle(s.lists, s.inside[t].event), inside := s.inside - {t})
    case Broadcast(t) =>
      if s.lists.waiting == [] then s
      else s.(lists := AfterBroadcast(s.lists),
              notifying := s.notifying[t := Notifier(BroadcastHandles(s.lists), Listed(s, BroadcastHandles(s.lists)))])
    case Signal(t) =>
      if s.lists.waiting == [] then s
      else s.(lists := AfterSignal(s.lists),
              notifying := s.notifying[t := Notifier(SignalHandles(s.lists), Listed(s, SignalHandles(s.lists)))])
    case SetTop(t) =>
      var n := s.notifying[t];
      s.(signaled := s.signaled + {n.handles[|n.handles| - 1]},
         notifying := s.notifying[t := n.(handles := n.handles[..|n.handles| - 1])])
    case FinishNotify(t) => s.(notifying := s.notifying - {t})
    case Shutdown => s.(running := false)
  }

  // ----- The invariant -----

  ghost predicate Owned(s: State, e: Event) {
    exists t :: t in s.inside && s.inside[t].event == e
  }

  // Every event is either recycled or owned by exactly one thread inside the wait, and
  // only owned events are listed as waiting.
  ghost predicate EventsOk(s: State) {
    && (forall t, u :: t in s.inside && u in s.inside && s.inside[t].event == s.inside[u].event ==> t == u)
    && Distinct(s.lists.recycling) && Distinct(s.lists.waiting)
    && (forall e :: e in s.lists.waiting ==> Owned(s, e))
    && (forall e :: e in s.lists.recycling ==> !Owned(s, e))
    && (forall e: Event :: e < s.lists.allocations <==> e in s.lists.recycling || Owned(s, e))
  }

  ghost predicate CountersOk(s: State) {
    && s.lists.recyclingSize == |s.lists.recycling|
    && s.lists.allocations == |s.lists.recycling| + |s.inside|
  }

  ghost predicate InOrder(waiting: seq<Event>, w: Wait, v: Wait) {
    forall i, j :: 0 <= i < j < |waiting| && w.event == waiting[i] && v.event == waiting[j] ==> w.ticket < v.ticket
  }

  // The waiting list is ordered by when the waits started.
  ghost predicate TicketsOk(s: State) {
    && (forall t :: t in s.inside ==> s.inside[t].ticket < s.tickets)
    && (forall t, u :: t in s.inside && u in s.inside ==> InOrder(s.lists.waiting, s.inside[t], s.inside[u]))
  }

  // The wait is over, or its event is set and nobody else can consume that.
  ghost predicate Woken(s: State, g: Target) {
    || g.thread !in s.inside
    || s.inside[g.thread].ticket != g.ticket
    || s.inside[g.thread].released
    || g.event in s.signaled
  }

  ghost predicate TargetOk(s: State, g: Target, handles: seq<Event>) {
    && g.ticket < s.tickets
    && (g.thread in s.inside && s.inside[g.thread].ticket == g.ticket ==> s.inside[g.thread].event == g.event)
    && (Woken(s, g) || g.event in handles)
  }

  ghost predicate NotifiersOk(s: State) {
    forall t, g :: t in s.notifying && g in s.notifying[t].targets ==> TargetOk(s, g, s.notifying[t].handles)
  }

  ghost predicate Inv(s: State) {
    CountersOk(s) && EventsOk(s) && TicketsOk(s) && NotifiersOk(s)
  }

  // ----- Every step keeps the invariant -----

  // Steps that neither start nor finish a wait leave ownership alone.
  lemma SameOwners(s: State, s': State)
    requires s'.inside.Keys == s.inside.Keys
    requires forall t :: t in s.inside ==> s'.inside[t].event == s.inside[t].event
    ensures forall e :: Owned(s', e) <==> Owned(s, e)
  {
  }

  lemma StartWaitOwners(s: State, t: Thread)
    requires CountersOk(s) && EventsOk(s) && Enabled(s, StartWait(t)) && s.running
    ensures var s' := Apply(s, StartWait(t));
            var e := s'.inside[t].event;
            && !Owned(s, e) && e !in s.lists.waiting
            && forall x :: Owned(s', x) <==> x == e || Owned(s, x)
  {
    var s' := Apply(s, StartWait(t));
    var e := s'.inside[t].event;
    assert Owned(s', e);
    forall x | Owned(s, x)
      ensures Owned(s', x)
    {
      var u :| u in s.inside && s.inside[u].event == x;
      assert u in s'.inside && s'.inside[u].event == x;
    }
  }

  lemma StartWaitEvents(s: State, t: Thread)
    requires CountersOk(s) && EventsOk(s) && Enabled(s, StartWait(t)) && s.running
    ensures CountersOk(Apply(s, StartWait(t))) && EventsOk(Apply(s, StartWait(t)))
  {
    StartWaitOwners(s, t);
    assert forall u :: u in s.inside ==> Owned(s, s.inside[u].event);
  }

  lemma StartWaitTickets(s: State, t: Thread)
    requires CountersOk(s) && EventsOk(s) && TicketsOk(s) && Enabled(s, StartWait(t)) && s.running
    ensures TicketsOk(Apply(s, StartWait(t)))
  {
    var s' := Apply(s, StartWait(t));
    StartWaitOwners(s, t);
    forall u, v | u in s'.inside && v in s'.inside
      ensures InOrder(s'.lists.waiting, s'.inside[u], s'.inside[v])
    {
      if u != t {
        assert Owned(s, s.inside[u].event);
        if v != t {
          assert InOrder(s.lists.waiting, s.inside[u], s.inside[v]);
        }
      }
    }
  }

  lemma StartWaitNotifiers(s: State, t: Thread)
    requires CountersOk(s) && NotifiersOk(s) && Enabled(s, StartWait(t)) && s.running
    ensures NotifiersOk(Apply(s, StartWait(t)))
  {
    var s' := Apply(s, StartWait(t));
    forall u, g | u in s'.notifying && g in s'.notifying[u].targets
      ensures TargetOk(s', g, s'.notifying[u].handles)
    {
      assert TargetOk(s, g, s.notifying[u].handles);
    }
  }

  lemma FinishWaitEvents(s: State, t: Thread)
    requires CountersOk(s) && EventsOk(s) && Enabled(s, FinishWait(t))
    ensures CountersOk(Apply(s, FinishWait(t))) && EventsOk(Apply(s, FinishWait(t)))
  {
    var s' := Apply(s, FinishWait(t));
    var e := s.inside[t].event;
    assert Owned(s, e);
    if e in s.lists.waiting {
      var k := WithoutMeans(s.lists.waiting, e);
    }
    assert e !in s'.lists.waiting;
    forall x | Owned(s, x) && x != e
      ensures Owned(s', x)
    {
      var u :| u in s.inside && s.inside[u].event == x;
      assert u in s'.inside && s'.inside[u].event == x;
    }
  }

  lemma InOrderWithout(waiting: seq<Event>, e: Event, w: Wait, v: Wait)
    requires InOrder(waiting, w, v)
    ensures InOrder(Without(waiting, e), w, v)
  {
    if e in waiting {
      var rest := Without(waiting, e);
      var k := WithoutMeans(waiting, e);
      forall i, j | 0 <= i < j < |rest| && w.event == rest[i] && v.event == rest[j]
        ensures w.ticket < v.ticket
      {
        assert rest[i] == waiting[if i < k then i else i + 1];
        assert rest[j] == waiting[if j < k then j else j + 1];
      }
    }
  }

  lemma FinishWaitTickets(s: State, t: Thread)
    requires CountersOk(s) && TicketsOk(s) && Enabled(s, FinishWait(t))
    ensures TicketsOk(Apply(s, FinishWait(t)))
  {
    var s' := Apply(s, FinishWait(t));
    forall u, v | u in s'.inside && v in s'.inside
      ensures InOrder(s'.lists.waiting, s'.inside[u], s'.inside[v])
    {
      InOrderWithout(s.lists.waiting, s.inside[t].event, s.inside[u], s.inside[v]);
    }
  }

  lemma FinishWaitNotifiers(s: State, t: Thread)
    requires CountersOk(s) && NotifiersOk(s) && Enabled(s, FinishWait(t))
    ensures NotifiersOk(Apply(s, FinishWait(t)))
  {
    var s' := Apply(s, FinishWait(t));
    forall u, g | u in s'.notifying && g in s'.notifying[u].targets
      ensures TargetOk(s', g, s'.notifying[u].handles)
    {
      assert TargetOk(s, g, s.notifying[u].handles);
    }
  }

  ghost predicate IsNotify(step: Step) {
    step.Broadcast? || step.Signal?
  }

  lemma NotifyEvents(s: State, step: Step)
    requires CountersOk(s) && EventsOk(s) && IsNotify(step) && Enabled(s, step)
    ensures CountersOk(Apply(s, step)) && EventsOk(Apply(s, step))
  {
    SameOwners(s, Apply(s, step));
  }

  lemma NotifyTickets(s: State, step: Step)
    requires CountersOk(s) && TicketsOk(s) && IsNotify(step) && Enabled(s, step)
    ensures TicketsOk(Apply(s, step))
  {
    var s' := Apply(s, step);
    forall u, v | u in s'.inside && v in s'.inside
      ensures InOrder(s'.lists.waiting, s'.inside[u], s'.inside[v])
    {
      assert InOrder(s.lists.waiting, s.inside[u], s.inside[v]);
    }
  }

  lemma NotifyNotifiers(s: State, step: Step)
    requires CountersOk(s) && EventsOk(s) && TicketsOk(s) && NotifiersOk(s) && IsNotify(step) && Enabled(s, step)
    ensures NotifiersOk(Apply(s, step))
  {
    var s' := Apply(s, step);
    forall u, g | u in s'.notifying && g in s'.notifying[u].targets
      ensures TargetOk(s', g, s'.notifying[u].handles)
    {
      if u != step.t {
        assert TargetOk(s, g, s.notifying[u].handles);
      }
    }
  }

  lemma SetTopKeeps(s: State, t: Thread)
    requires Inv(s) && Enabled(s, SetTop(t))
    ensures Inv(Apply(s, SetTop(t)))
  {
    var s' := Apply(s, SetTop(t));
    SameOwners(s, s');
    forall u, g | u in s'.notifying && g in s'.notifying[u].targets
      ensures TargetOk(s', g, s'.notifying[u].handles)
    {
      assert TargetOk(s, g, s.notifying[u].handles);
    }
  }

  ghost predicate IsReturn(step: Step) {
    step.ReturnSignaled? || step.ReturnTimedOut?
  }

  lemma ReturnTickets(s: State, step: Step)
    requires CountersOk(s) && TicketsOk(s) && IsReturn(step) && Enabled(s, step)
    ensures TicketsOk(Apply(s, step))
  {
    var s' := Apply(s, step);
    forall u, v | u in s'.inside && v in s'.inside
      ensures InOrder(s'.lists.waiting, s'.inside[u], s'.inside[v])
    {
      assert InOrder(s.lists.waiting, s.inside[u], s.inside[v]);
    }
  }

  // Only the owner of an event can consume its signal.
  lemma ReturnNotifiers(s: State, step: Step)
    requires CountersOk(s) && EventsOk(s) && NotifiersOk(s) && IsReturn(step) && Enabled(s, step)
    ensures NotifiersOk(Apply(s, step))
  {
    var s' := Apply(s, step);
    forall u, g | u in s'.notifying && g in s'.notifying[u].targets
      ensures TargetOk(s', g, s'.notifying[u].handles)
    {
      assert TargetOk(s, g, s.notifying[u].handles);
    }
  }

  lemma StartWaitKeeps(s: State, t: Thread)
    requires Inv(s) && Enabled(s, StartWait(t))
    ensures Inv(Apply(s, StartWait(t)))
  {
    if s.running {
      StartWaitEvents(s, t);
      StartWaitTickets(s, t);
      StartWaitNotifiers(s, t);
    }
  }

  lemma FinishWaitKeeps(s: State, t: Thread)
    requires Inv(s) && Enabled(s, FinishWait(t))
    ensures Inv(Apply(s, FinishWait(t)))
  {
    FinishWaitEvents(s, t);
    FinishWaitTickets(s, t);
    FinishWaitNotifiers(s, t);
  }

  lemma ReturnKeeps(s: State, step: Step)
    requires Inv(s) && IsReturn(step) && Enabled(s, step)
    ensures Inv(Apply(s, step))
  {
    SameOwners(s, Apply(s, step));
    ReturnTickets(s, step);
    ReturnNotifiers(s, step);
  }

  lemma NotifyKeeps(s: State, step: Step)
    requires Inv(s) && IsNotify(step) && Enabled(s, step)
    ensures Inv(Apply(s, step))
  {
    NotifyEvents(s, step);
    NotifyTickets(s, step);
    NotifyNotifiers(s, step);
  }

  lemma QuietKeeps(s: State, step: Step)
    requires Inv(s) && (step.FinishNotify? || step.Shutdown?) && Enabled(s, step)
    ensures Inv(Apply(s, step))
  {
    var s' := Apply(s, step);
    SameOwners(s, s');
    forall u, g | u in s'.notifying && g in s'.notifying[u].targets
      ensures TargetOk(s', g, s'.notifying[u].handles)
    {
      assert TargetOk(s, g, s.notifying[u].handles);
    }
  }

  lemma StepKeepsInv(s: State, step: Step)
    requires Inv(s) && Enabled(s, step)
    ensures Inv(Apply(s, step))
  {
    match step
    case StartWait(t) => StartWaitKeeps(s, t);
    case ReturnSignaled(_) => ReturnKeeps(s, step);
    case ReturnTimedOut(_) => ReturnKeeps(s, step);
    case FinishWait(t) => FinishWaitKeeps(s, t);
    case Broadcast(_) => NotifyKeeps(s, step);
    case Signal(_) => NotifyKeeps(s, step);
    case SetTop(t) => SetTopKeeps(s, t);
    case FinishNotify(_) => QuietKeeps(s, step);
    case Shutdown => QuietKeeps(s, step);
  }

  // ----- Whole runs -----

  // Popping from an empty list would be undefined, so that any state could follow.
  ghost predicate Moves(s: State, step: Step, s': State) {
    Enabled(s, step) && (PopsSafely(s.lists) ==> s' == Apply(s, step))
  }

  ghost predicate IsRun(states: seq<State>, steps: seq<Step>) {
    && |states| == |steps| + 1
    && states[0] == INITIAL_STATE
    && forall i :: 0 <= i < |steps| ==> Moves(states[i], steps[i], states[i+1])
  }

  lemma {:induction false} RunKeepsInv(states: seq<State>, steps: seq<Step>, i: nat)
    requires IsRun(states, steps) && i < |states|
    ensures Inv(states[i])
  {
    if i > 0 {
      RunKeepsInv(states, steps, i - 1);
      assert Moves(states[i-1], steps[i-1], states[i]);
      StepKeepsInv(states[i-1], steps[i-1]);
    }
  }

  // The most threads that were ever inside the wait at once, up to states[i].
  ghost function Peak(states: seq<State>, i: nat): nat
    requires i < |states|
  {
    if i == 0 then |states[0].inside|
    else
      var before := Peak(states, i - 1);
      if |states[i].inside| > before then |states[i].inside| else before
  }

  // A new event is allocated only when every event is owned.
  lemma AllocationStep(s: State, step: Step)
    requires CountersOk(s) && Enabled(s, step)
    ensures var s' := Apply(s, step);
            s'.lists.allocations == if |s'.inside| > s.lists.allocations then |s'.inside| else s.lists.allocations
  {
  }

  lemma {:induction false} AllocationsArePeak(states: seq<State>, steps: seq<Step>, i: nat)
    requires IsRun(states, steps) && i < |states|
    ensures states[i].lists.allocations == Peak(states, i)
  {
    if i > 0 {
      AllocationsArePeak(states, steps, i - 1);
      RunKeepsInv(states, steps, i - 1);
      assert Moves(states[i-1], steps[i-1], states[i]);
      AllocationStep(states[i-1], steps[i-1]);
    }
  }

  /** Bookkeeping: in every reachable state each thread inside the wait owns an event of its
      own; every event is recycled, listed, or popped but still held by its owner, and only one
      of these; the recycling count is exact; and as many events were allocated as threads were
      ever inside the wait at once. */
  lemma Bookkeeping(states: seq<State>, steps: seq<Step>, i: nat)
    requires IsRun(states, steps) && i < |states|
    ensures var s := states[i];
            && s.lists.allocations == Peak(states, i)
            && s.lists.recyclingSize == |s.lists.recycling|
            && Distinct(s.lists.recycling) && Distinct(s.lists.waiting)
            && (forall t, u :: t in s.inside && u in s.inside && s.inside[t].event == s.inside[u].event ==> t == u)
            && (forall e :: e in s.lists.waiting ==> Owned(s, e))
            && (forall e: Event :: (e in s.lists.recycling || Owned(s, e)) <==> e < s.lists.allocations)
            && (forall e :: e in s.lists.recycling ==> !Owned(s, e))
  {
    RunKeepsInv(states, steps, i);
    AllocationsArePeak(states, steps, i);
  }

  // The destructor's test that nobody is left in TimedWait.
  lemma DestructorTestIsExact(states: seq<State>, steps: seq<Step>, i: nat)
    requires IsRun(states, steps) && i < |states|
    ensures states[i].lists.recyclingSize == states[i].lists.allocations <==> states[i].inside == map[]
  {
    RunKeepsInv(states, steps, i);
  }

  // Throughout (i, j] thread t is carrying out the notification it began at step i.
  ghost predicate StillNotifying(states: seq<State>, i: nat, j: nat, t: Thread) {
    i < j < |states| && forall k :: i < k <= j ==> t in states[k].notifying
  }

  lemma {:induction false} TargetsFixed(states: seq<State>, steps: seq<Step>, i: nat, j: nat, t: Thread)
    requires IsRun(states, steps) && StillNotifying(states, i, j, t)
    ensures states[j].notifying[t].targets == states[i+1].notifying[t].targets
  {
    if j > i + 1 {
      TargetsFixed(states, steps, i, j - 1, t);
      RunKeepsInv(states, steps, j - 1);
      assert Moves(states[j-1], steps[j-1], states[j]);
    }
  }

  ghost predicate EndsWith(waiting: seq<Event>, e: Event) {
    waiting != [] && waiting[|waiting| - 1] == e
  }

  /** No wake-up is lost: when the SetEvent loop of a Broadcast or Signal begun at step i has
      emptied its stack, every wait it popped has either ended or has its own event set. */
  lemma NoWakeUpLost(states: seq<State>, steps: seq<Step>, i: nat, j: nat, t: Thread, u: Thread)
    requires IsRun(states, steps) && i < |steps| && (steps[i] == Broadcast(t) || steps[i] == Signal(t))
    requires StillNotifying(states, i, j, t) && states[j].notifying[t].handles == []
    requires u in states[i].inside && states[i].inside[u].event in states[i].lists.waiting
    requires steps[i] == Signal(t) ==> EndsWith(states[i].lists.waiting, states[i].inside[u].event)
    ensures var wait := states[i].inside[u];
            || u !in states[j].inside
            || states[j].inside[u].ticket != wait.ticket
            || states[j].inside[u].released
            || (states[j].inside[u].event == wait.event && wait.event in states[j].signaled)
  {
    TargetsFixed(states, steps, i, j, t);
    RunKeepsInv(states, steps, i);
    RunKeepsInv(states, steps, j);
    assert Moves(states[i], steps[i], states[i+1]);
    BecomesTarget(states[i], steps[i], t, u);
    TargetServed(states[j], t, Target(u, states[i].inside[u].ticket, states[i].inside[u].event));
  }

  lemma BecomesTarget(s: State, step: Step, t: Thread, u: Thread)
    requires Enabled(s, step) && PopsSafely(s.lists) && (step == Broadcast(t) || step == Signal(t))
    requires u in s.inside && s.inside[u].event in s.lists.waiting
    requires step == Signal(t) ==> EndsWith(s.lists.waiting, s.inside[u].event)
    ensures t in Apply(s, step).notifying
    ensures Target(u, s.inside[u].ticket, s.inside[u].event) in Apply(s, step).notifying[t].targets
  {
    ReversedHas(s.lists.waiting, s.inside[u].event);
  }

  // With no handle left to signal, a target has left that wait or is signalled.
  lemma TargetServed(s: State, t: Thread, g: Target)
    requires Inv(s) && t in s.notifying && s.notifying[t].handles == [] && g in s.notifying[t].targets
    ensures TargetOk(s, g, [])
  {
    assert TargetOk(s, g, s.notifying[t].handles);
  }

  lemma ReversedHas(s: seq<Event>, e: Event)
    requires e in s
    ensures e in Reverse(s)
  {
    var i :| 0 <= i < |s| && s[i] == e;
    assert Reverse(s)[|s| - 1 - i] == e;
  }

  /** Signal picks the listed waiter whose wait started last. */
  lemma SignalPicksLatest(states: seq<State>, steps: seq<Step>, i: nat, t: Thread)
    requires IsRun(states, steps) && i < |steps| && steps[i] == Signal(t)
    requires states[i].lists.waiting != []
    ensures t in states[i+1].notifying
    ensures exists u :: && u in states[i].inside
                        && states[i+1].notifying[t].handles == [states[i].inside[u].event]
                        && states[i].inside[u].event in states[i].lists.waiting
                        && forall v :: v in states[i].inside && v != u
                                       && states[i].inside[v].event in states[i].lists.waiting
                                       ==> states[i].inside[v].ticket < states[i].inside[u].ticket
  {
    var s := states[i];
    RunKeepsInv(states, steps, i);
    assert Moves(s, steps[i], states[i+1]);
    var n := |s.lists.waiting| - 1;
    var e := s.lists.waiting[n];
    assert Owned(s, e);
    var u :| u in s.inside && s.inside[u].event == e;
    forall v | v in s.inside && v != u && s.inside[v].event in s.lists.waiting
      ensures s.inside[v].ticket < s.inside[u].ticket
    {
      var k :| 0 <= k < |s.lists.waiting| && s.lists.waiting[k] == s.inside[v].event;
      assert InOrder(s.lists.waiting, s.inside[v], s.inside[u]);
    }
  }

  /** Broadcast sets the events of the listed waiters in the order in which their waits began:
      the stack is popped from its end. */
  lemma BroadcastInOrder(states: seq<State>, steps: seq<Step>, i: nat, t: Thread, a: nat, b: nat, u: Thread, v: Thread)
    requires IsRun(states, steps) && i < |steps| && steps[i] == Broadcast(t)
    requires u in states[i].inside && v in states[i].inside
    requires t in states[i+1].notifying && a < b < |states[i+1].notifying[t].handles|
    requires states[i+1].notifying[t].handles[a] == states[i].inside[u].event
    requires states[i+1].notifying[t].handles[b] == states[i].inside[v].event
    ensures states[i].inside[v].ticket < states[i].inside[u].ticket
  {
    var s := states[i];
    RunKeepsInv(states, steps, i);
    assert Moves(s, steps[i], states[i+1]);
    var n := |s.lists.waiting|;
    assert s.lists.waiting[n-1-a] == s.inside[u].event && s.lists.waiting[n-1-b] == s.inside[v].event;
    assert InOrder(s.lists.waiting, s.inside[v], s.inside[u]);
  }

  // ----- Signals are not multiplied, and nobody waits after shutdown -----

  // How often SetEvent was called for e in the first n steps, and how often a thread returned
  // because e was set.
  ghost function Sets(states: seq<State>, steps: seq<Step>, e: Event, n: nat): nat
    requires IsRun(states, steps) && n <= |steps|
  {
    if n == 0 then 0
    else
      assert Moves(states[n-1], steps[n-1], states[n]);
      Sets(states, steps, e, n - 1) + One(SetsEvent(states[n-1], steps[n-1], e))
  }

  ghost function Returns(states: seq<State>, steps: seq<Step>, e: Event, n: nat): nat
    requires IsRun(states, steps) && n <= |steps|
  {
    if n == 0 then 0
    else
      assert Moves(states[n-1], steps[n-1], states[n]);
      Returns(states, steps, e, n - 1) + One(ReturnsOn(states[n-1], steps[n-1], e))
  }

  ghost predicate SetsEvent(s: State, step: Step, e: Event) {
    step.SetTop? && step.t in s.notifying && s.notifying[step.t].handles != []
    && EndsWith(s.notifying[step.t].handles, e)
  }

  ghost predicate ReturnsOn(s: State, step: Step, e: Event) {
    step.ReturnSignaled? && step.t in s.inside && s.inside[step.t].event == e
  }

  ghost function One(b: bool): nat {
    if b then 1 else 0
  }

  /** Each SetEvent lets at most one waiter go. */
  lemma {:induction false} SignalsNotMultiplied(states: seq<State>, steps: seq<Step>, e: Event, n: nat)
    requires IsRun(states, steps) && n <= |steps|
    ensures Returns(states, steps, e, n) + One(e in states[n].signaled) <= Sets(states, steps, e, n)
  {
    if n > 0 {
      SignalsNotMultiplied(states, steps, e, n - 1);
      RunKeepsInv(states, steps, n - 1);
      assert Moves(states[n-1], steps[n-1], states[n]);
      SignalStep(states[n-1], steps[n-1], e);
    }
  }

  lemma SignalStep(s: State, step: Step, e: Event)
    requires Enabled(s, step) && PopsSafely(s.lists)
    ensures One(ReturnsOn(s, step, e)) + One(e in Apply(s, step).signaled)
         <= One(SetsEvent(s, step, e)) + One(e in s.signaled)
  {
  }

  /** After the destructor's first step no wait begins. */
  lemma {:induction false} NoWaitAfterShutdown(states: seq<State>, steps: seq<Step>, i: nat, n: nat)
    requires IsRun(states, steps) && i < n <= |steps| && steps[i] == Shutdown
    ensures !states[n].running && states[n].tickets == states[i].tickets
    ensures forall t :: t in states[n].inside ==>
              t in states[i].inside && states[i].inside[t].ticket == states[n].inside[t].ticket
  {
    RunKeepsInv(states, steps, n - 1);
    assert Moves(states[n-1], steps[n-1], states[n]);
    if n - 1 > i {
      NoWaitAfterShutdown(states, steps, i, n - 1);
    }
  }
}
