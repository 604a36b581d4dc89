// base/lazy_instance.h and base/lazy_instance.cc: any number of threads calling Pointer(),
// as interleaved steps on state_ and instance_.
module LazyInstances {
  import opened Wrappers
  import Atomics

  const STATE_EMPTY: Atomics.Word := 0
  const STATE_CREATING: Atomics.Word := 1
  const STATE_CREATED: Atomics.Word := 2

  // An object is numbered by the call of New that built it.
  type Object = nat

  datatype Pc =
    | Loading                        // Pointer: the load on the fast path
    | Swapping                       // NeedsInstance: the compare-and-swap
    | Spinning                       // NeedsInstance: waiting for the other thread
    | Building                       // Pointer: in New
    | Assigning(built: Object)       // Pointer: assigning instance_
    | Completing                     // CompleteInstance: storing the state
    | Registering                    // CompleteInstance: registering the destructor
    | Fetching                       // Pointer: reading instance_

  datatype State = State(
    word: Atomics.Word,                      // state_
    instance: Option<Object>,        // instance_
    built: nat,                      // how often New has run to its end
    registered: seq<Option<Object>>, // what AtExitManager was given
    pcs: map<Atomics.Thread, Pc>,            // the threads inside Pointer()
    fetched: seq<Option<Object>>)    // what calls of Pointer() returned

  const INITIAL_STATE := State(STATE_EMPTY, None, 0, [], map[], [])

  datatype Step = Call(t: Atomics.Thread) | Next(t: Atomics.Thread)

  predicate Enabled(s: State, step: Step) {
    if step.Call? then step.t !in s.pcs else step.t in s.pcs
  }

  // hasDtor: Traits::Delete is not null.
  function Apply(s: State, step: Step, hasDtor: bool): State
    requires Enabled(s, step)
  {
    var t := step.t;
    if step.Call? then s.(pcs := s.pcs[t := Loading])
    else
      match s.pcs[t]
      case Loading => s.(pcs := s.pcs[t := if s.word == STATE_CREATED then Fetching else Swapping])
      case Swapping =>
        var e := Atomics.Atomically(Atomics.CompareAndSwap(STATE_EMPTY, STATE_CREATING), s.word);
        s.(word := e.word, pcs := s.pcs[t := if e.result == STATE_EMPTY then Building else Spinning])
      case Spinning => s.(pcs := s.pcs[t := if s.word == STATE_CREATED then Fetching else Spinning])
      case Building => s.(built := s.built + 1, pcs := s.pcs[t := Assigning(s.built)])
      case Assigning(built) => s.(instance := Some(built), pcs := s.pcs[t := Completing])
      case Completing => s.(word := STATE_CREATED, pcs := s.pcs[t := Registering])
      case Registering =>
        s.(registered := if hasDtor then s.registered + [s.instance] else s.registered, pcs := s.pcs[t := Fetching])
      case Fetching => s.(pcs := s.pcs - {t}, fetched := s.fetched + [s.instance])
  }

  // ----- The invariant -----

  // The thread that won the compare-and-swap, until the destructor is registered.
  predicate IsBuilder(pc: Pc) {
    pc.Building? || pc.Assigning? || pc.Completing? || pc.Registering?
  }

  ghost predicate OneBuilder(s: State) {
    forall t, u :: BothBuild(s, t, u) ==> t == u
  }

  ghost predicate BothBuild(s: State, t: Atomics.Thread, u: Atomics.Thread) {
    t in s.pcs && u in s.pcs && IsBuilder(s.pcs[t]) && IsBuilder(s.pcs[u])
  }

  // What a thread's position says about the shared fields.
  ghost predicate PcOk(s: State, pc: Pc) {
    match pc
    case Building => s.word == STATE_CREATING && s.built == 0 && s.registered == []
    case Assigning(built) => s.word == STATE_CREATING && built == 0 && s.built == 1 && s.registered == []
    case Completing => s.word == STATE_CREATING && s.built == 1 && s.instance == Some(0) && s.registered == []
    case Registering => s.word == STATE_CREATED && s.registered == []
    case Fetching => s.word == STATE_CREATED
    case Spinning => s.word != STATE_EMPTY
    case _ => true
  }

  ghost predicate PcsOk(s: State) {
    forall t :: t in s.pcs ==> PcOk(s, s.pcs[t])
  }

  ghost predicate IsBuilding(s: State, t: Atomics.Thread) {
    t in s.pcs && IsBuilder(s.pcs[t])
  }

  // What the state says about the other shared fields.
  ghost predicate FieldsOk(s: State, hasDtor: bool) {
    && (s.word == STATE_EMPTY || s.word == STATE_CREATING || s.word == STATE_CREATED)
    && (s.word == STATE_EMPTY ==> s.built == 0 && s.registered == [] && s.fetched == [])
    && (s.word == STATE_CREATING ==> s.built <= 1 && s.registered == [] && s.fetched == [])
    && (s.word == STATE_CREATED ==> s.built == 1 && s.instance == Some(0))
    && (s.registered == [] || (s.registered == [Some(0)] && hasDtor))
    && forall o :: o in s.fetched ==> o == Some(0)
  }

  // While there is no instance, or its destructor is still to be registered, some thread is
  // on its way to change that.
  ghost predicate BuilderExists(s: State, hasDtor: bool) {
    s.word == STATE_CREATING || (s.word == STATE_CREATED && hasDtor && s.registered == []) ==>
      exists t :: IsBuilding(s, t)
  }

  ghost predicate Inv(s: State, hasDtor: bool) {
    OneBuilder(s) && PcsOk(s) && FieldsOk(s, hasDtor) && BuilderExists(s, hasDtor)
  }

  lemma StepKeepsBuilder(s: State, step: Step, hasDtor: bool)
    requires Enabled(s, step) && Inv(s, hasDtor)
    ensures OneBuilder(Apply(s, step, hasDtor)) && BuilderExists(Apply(s, step, hasDtor), hasDtor)
  {
    var s', t := Apply(s, step, hasDtor), step.t;
    forall u, v | BothBuild(s', u, v)
      ensures u == v
    {
      assert BothBuild(s, u, u) || u == t;
      assert BothBuild(s, v, v) || v == t;
      assert PcsOk(s) && (u in s.pcs ==> PcOk(s, s.pcs[u])) && (v in s.pcs ==> PcOk(s, s.pcs[v]));
      assert BothBuild(s, u, v) ==> u == v;
    }
    if t in s'.pcs && IsBuilder(s'.pcs[t]) {
      assert IsBuilding(s', t);
    } else if u :| IsBuilding(s, u) {
      if u != t {
        assert IsBuilding(s', u);
      }
    }
  }

  lemma StepKeepsPcs(s: State, step: Step, hasDtor: bool)
    requires Enabled(s, step) && Inv(s, hasDtor)
    ensures PcsOk(Apply(s, step, hasDtor))
  {
    var s', t := Apply(s, step, hasDtor), step.t;
    forall u | u in s'.pcs
      ensures PcOk(s', s'.pcs[u])
    {
      assert BothBuild(s, t, u) ==> t == u;
      assert t in s.pcs ==> PcOk(s, s.pcs[t]);
      assert u != t ==> u in s.pcs && s'.pcs[u] == s.pcs[u] && PcOk(s, s.pcs[u]);
    }
  }

  lemma StepKeepsInv(s: State, step: Step, hasDtor: bool)
    requires Enabled(s, step) && Inv(s, hasDtor)
    ensures Inv(Apply(s, step, hasDtor), hasDtor)
  {
    StepKeepsBuilder(s, step, hasDtor);
    StepKeepsPcs(s, step, hasDtor);
    assert step.t in s.pcs ==> PcOk(s, s.pcs[step.t]);
  }

  // ----- Runs -----

  datatype Run = Run(states: seq<State>, steps: seq<Step>)

  ghost predicate Moves(r: Run, k: nat, hasDtor: bool)
    requires k < |r.steps| && |r.states| == |r.steps| + 1
  {
    Enabled(r.states[k], r.steps[k]) && r.states[k+1] == Apply(r.states[k], r.steps[k], hasDtor)
  }

  ghost predicate IsRun(r: Run, hasDtor: bool) {
    && |r.states| == |r.steps| + 1 && r.states[0] == INITIAL_STATE
    && forall k: nat :: k < |r.steps| ==> Moves(r, k, hasDtor)
  }

  lemma {:induction false} RunKeepsInv(r: Run, hasDtor: bool, n: nat)
    requires IsRun(r, hasDtor) && n <= |r.steps|
    ensures Inv(r.states[n], hasDtor)
  {
    if n > 0 {
      RunKeepsInv(r, hasDtor, n - 1);
      assert Moves(r, n - 1, hasDtor);
      StepKeepsInv(r.states[n-1], r.steps[n-1], hasDtor);
    }
  }

  /** New runs at most once, and every call of Pointer() that returned gave the object it built. */
  lemma InitialisedOnce(r: Run, hasDtor: bool, n: nat)
    requires IsRun(r, hasDtor) && n <= |r.steps|
    ensures var s := r.states[n];
            && s.built <= 1 && |s.registered| <= 1 && (!hasDtor ==> s.registered == [])
            && (s.fetched != [] ==> s.word == STATE_CREATED && s.built == 1)
            && (forall o :: o in s.fetched ==> o == Some(0))
            && (forall o :: o in s.registered ==> o == Some(0))
  {
    RunKeepsInv(r, hasDtor, n);
  }

  /** When no call is going on but one has been, there is exactly one instance, and its
      destructor, if any, is registered exactly once. */
  lemma QuietMeansDone(r: Run, hasDtor: bool, n: nat)
    requires IsRun(r, hasDtor) && n <= |r.steps| && r.states[n].pcs == map[]
    ensures var s := r.states[n];
            if n == 0 then s == INITIAL_STATE
            else
              && s.word == STATE_CREATED && s.built == 1 && s.fetched != []
              && s.registered == if hasDtor then [Some(0)] else []
  {
    RunKeepsInv(r, hasDtor, n);
    if n > 0 {
      assert Moves(r, n - 1, hasDtor);
      RunKeepsInv(r, hasDtor, n - 1);
      var s, t := r.states[n-1], r.steps[n-1].t;
      assert t !in r.states[n].pcs;
      assert t in s.pcs ==> PcOk(s, s.pcs[t]);
      assert forall u :: !IsBuilding(r.states[n], u);
    }
  }

  /** A thread never spins on its own: someone else is between winning and storing STATE_CREATED. */
  lemma SpinnersWaitForSomeone(r: Run, hasDtor: bool, n: nat, t: Atomics.Thread)
    requires IsRun(r, hasDtor) && n <= |r.steps|
    requires t in r.states[n].pcs && r.states[n].pcs[t].Spinning?
    ensures r.states[n].word == STATE_CREATED || exists u :: u != t && IsBuilding(r.states[n], u)
  {
    RunKeepsInv(r, hasDtor, n);
    assert PcOk(r.states[n], r.states[n].pcs[t]);
    if r.states[n].word == STATE_CREATING {
      var u :| IsBuilding(r.states[n], u);
    }
  }

  // The word only moves from STATE_EMPTY to STATE_CREATING and from STATE_CREATING to STATE_CREATED.
  lemma WordMovesForward(r: Run, hasDtor: bool, n: nat)
    requires IsRun(r, hasDtor) && n < |r.steps|
    ensures var a, b := r.states[n].word, r.states[n+1].word;
            a == b || (a == STATE_EMPTY && b == STATE_CREATING) || (a == STATE_CREATING && b == STATE_CREATED)
  {
    RunKeepsInv(r, hasDtor, n);
    assert Moves(r, n, hasDtor);
    var s, t := r.states[n], r.steps[n].t;
    assert t in s.pcs ==> PcOk(s, s.pcs[t]);
  }

  /** Nor does it ever move back, so a call that found STATE_CREATED was right for good. */
  lemma {:induction false} WordNeverMovesBack(r: Run, hasDtor: bool, m: nat, n: nat)
    requires IsRun(r, hasDtor) && m <= n <= |r.steps|
    ensures r.states[m].word <= r.states[n].word
    decreases n
  {
    if m < n {
      WordNeverMovesBack(r, hasDtor, m, n - 1);
      WordMovesForward(r, hasDtor, n - 1);
    }
  }
}
