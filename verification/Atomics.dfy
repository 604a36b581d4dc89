// base/atomicops_internals_arm_gcc.h: the retry loops around the kernel's compare-exchange
// helper, as interleaved steps of any number of threads on one shared word, and the atomic
// operations of base/atomicops.h that they stand for.
module Atomics {
  import opened Wrappers

  const TWO_TO_31: int := 0x8000_0000
  const TWO_TO_32: int := 0x1_0000_0000

  type Word = x: int | -TWO_TO_31 <= x < TWO_TO_31

  // The 32-bit two's complement value of x.
  function Wrap(x: int): (w: Word)
    ensures -TWO_TO_31 <= x < TWO_TO_31 ==> w == x
  {
    (x + TWO_TO_31) % TWO_TO_32 - TWO_TO_31
  }

  lemma WrapMeans(x: int)
    ensures (x - Wrap(x)) % TWO_TO_32 == 0
  {
  }

  datatype Op =
    | CompareAndSwap(expected: Word, desired: Word)
    | Exchange(desired: Word)
    | Increment(amount: Word)

  // ----- The specification: each operation at one instant -----

  datatype Effect = Effect(word: Word, result: Word)

  function Atomically(op: Op, word: Word): Effect {
    match op
    case CompareAndSwap(expected, desired) => Effect(if word == expected then desired else word, word)
    case Exchange(desired) => Effect(desired, word)
    case Increment(amount) => Effect(Wrap(word + amount), Wrap(word + amount))
  }

  // What the operations are, in terms of the word before, the word after and the result.
  ghost predicate Does(op: Op, before: Word, after: Word, result: Word) {
    match op
    case CompareAndSwap(expected, desired) =>
      result == before && after == if before == expected then desired else before
    case Exchange(desired) => result == before && after == desired
    case Increment(amount) => result == after && (after as int - before as int - amount as int) % TWO_TO_32 == 0
  }

  lemma AtomicallyDoes(op: Op, word: Word)
    ensures Does(op, word, Atomically(op, word).word, Atomically(op, word).result)
  {
    if op.Increment? {
      WrapMeans(word as int + op.amount as int);
    }
  }

  // ----- The loops -----

  type Thread = nat

  // Where a call is.
  datatype Pc =
    | Reading(op: Op)                               // about to read the word
    | Trying(op: Op, seen: Word)                    // about to call the kernel helper
    | Rereading(expected: Word, desired: Word)      // CompareAndSwap after the helper failed
    | Finished(op: Op, result: Word)

  function OpAt(pc: Pc): Op {
    if pc.Rereading? then CompareAndSwap(pc.expected, pc.desired) else pc.op
  }

  // A thread without a Pc is not inside a call.
  datatype State = State(word: Word, pcs: map<Thread, Pc>)

  datatype Step =
    | Call(t: Thread, op: Op)
    | Load(t: Thread)
    | Swap(t: Thread, fails: bool)    // the kernel helper, which may fail without a reason
    | Return(t: Thread)

  // The arguments of the kernel helper, and what the call returns when it succeeds.
  function Old(op: Op, seen: Word): Word {
    if op.CompareAndSwap? then op.expected else seen
  }

  function New(op: Op, seen: Word): Word {
    match op
    case CompareAndSwap(_, desired) => desired
    case Exchange(desired) => desired
    case Increment(amount) => Wrap(seen + amount)
  }

  function ResultOf(op: Op, seen: Word): Word {
    match op
    case CompareAndSwap(expected, _) => expected
    case Exchange(_) => seen
    case Increment(amount) => Wrap(seen + amount)
  }

  predicate Enabled(s: State, step: Step) {
    match step
    case Call(t, _) => t !in s.pcs
    case Load(t) => t in s.pcs && (s.pcs[t].Reading? || s.pcs[t].Rereading?)
    case Swap(t, fails) => t in s.pcs && s.pcs[t].Trying? && (fails || s.word == Old(s.pcs[t].op, s.pcs[t].seen))
    case Return(t) => t in s.pcs && s.pcs[t].Finished?
  }

  function Apply(s: State, step: Step): State
    requires Enabled(s, step)
  {
    match step
    case Call(t, op) => s.(pcs := s.pcs[t := Reading(op)])
    case Load(t) =>
      (match s.pcs[t]
       case Reading(op) => s.(pcs := s.pcs[t := Trying(op, s.word)])
       case Rereading(expected, desired) =>
         var op := CompareAndSwap(expected, desired);
         s.(pcs := s.pcs[t := if s.word == expected then Trying(op, s.word) else Finished(op, s.word)]))
    case Swap(t, fails) =>
      var op, seen := s.pcs[t].op, s.pcs[t].seen;
      if fails then
        s.(pcs := s.pcs[t := if op.CompareAndSwap? then Rereading(op.expected, op.desired) else Reading(op)])
      else
        State(New(op, seen), s.pcs[t := Finished(op, ResultOf(op, seen))])
    case Return(t) => s.(pcs := s.pcs - {t})
  }

  // ----- One step -----

  // The step at which a call acts: its successful swap, or the re-read that gives up.
  predicate Acts(s: State, step: Step)
    requires Enabled(s, step)
  {
    match step
    case Swap(_, fails) => !fails
    case Load(t) => s.pcs[t].Rereading? && s.word != s.pcs[t].expected
    case _ => false
  }

  // The acting step does to the word what the operation does atomically, and fixes the
  // result; any other step leaves the word alone.
  lemma StepActs(s: State, step: Step)
    requires Enabled(s, step)
    ensures Acts(s, step) ==>
              var op := OpAt(s.pcs[step.t]); var e := Atomically(op, s.word);
              Apply(s, step).word == e.word && Get(Apply(s, step).pcs, step.t) == Some(Finished(op, e.result))
    ensures !Acts(s, step) ==> Apply(s, step).word == s.word
    ensures forall t :: t != step.t ==> Get(Apply(s, step).pcs, t) == Get(s.pcs, t)
  {
  }

  // ----- Forward simulation of the atomic machine -----

  datatype Phase = Pending(op: Op) | Done(op: Op, result: Word)

  datatype Machine = Machine(word: Word, calls: map<Thread, Phase>)

  datatype Event = Invoke(t: Thread, op: Op) | Act(t: Thread) | Respond(t: Thread, result: Word)

  predicate May(m: Machine, e: Event) {
    match e
    case Invoke(t, _) => t !in m.calls
    case Act(t) => t in m.calls && m.calls[t].Pending?
    case Respond(t, result) => t in m.calls && m.calls[t].Done? && m.calls[t].result == result
  }

  function AfterEvent(m: Machine, e: Event): Machine
    requires May(m, e)
  {
    match e
    case Invoke(t, op) => m.(calls := m.calls[t := Pending(op)])
    case Act(t) =>
      var op := m.calls[t].op;
      var e := Atomically(op, m.word);
      Machine(e.word, m.calls[t := Done(op, e.result)])
    case Respond(t, _) => m.(calls := m.calls - {t})
  }

  function PhaseOf(pc: Pc): Phase {
    if pc.Finished? then Done(pc.op, pc.result) else Pending(OpAt(pc))
  }

  function Abstract(s: State): Machine {
    Machine(s.word, map t | t in s.pcs :: PhaseOf(s.pcs[t]))
  }

  // What a step of the loops is to the atomic machine: nothing, or one event.
  function Meaning(s: State, step: Step): Option<Event>
    requires Enabled(s, step)
  {
    match step
    case Call(t, op) => Some(Invoke(t, op))
    case Return(t) => Some(Respond(t, s.pcs[t].result))
    case _ => if Acts(s, step) then Some(Act(step.t)) else None
  }

  lemma StepRefines(s: State, step: Step)
    requires Enabled(s, step)
    ensures match Meaning(s, step)
            case None => Abstract(Apply(s, step)) == Abstract(s)
            case Some(e) => May(Abstract(s), e) && Abstract(Apply(s, step)) == AfterEvent(Abstract(s), e)
  {
    StepActs(s, step);
    var s' := Apply(s, step);
    assert forall t :: t in s'.pcs && t != step.t ==> t in s.pcs && s'.pcs[t] == s.pcs[t];
    match Meaning(s, step)
    case None =>
      assert Abstract(s').calls == Abstract(s).calls;
    case Some(e) =>
      assert Abstract(s').calls == AfterEvent(Abstract(s), e).calls;
  }

  // ----- Runs -----

  // The states of a run and the steps between them.
  datatype Run = Run(states: seq<State>, steps: seq<Step>)

  ghost predicate Moves(r: Run, k: nat)
    requires k < |r.steps| && |r.states| == |r.steps| + 1
  {
    Enabled(r.states[k], r.steps[k]) && r.states[k+1] == Apply(r.states[k], r.steps[k])
  }

  ghost predicate IsRun(r: Run) {
    |r.states| == |r.steps| + 1 && forall k: nat :: k < |r.steps| ==> Moves(r, k)
  }

  ghost predicate MachineRun(m: Machine, events: seq<Event>, m': Machine) {
    if events == [] then m == m'
    else
      var n := |events| - 1;
      exists mid :: MachineRun(m, events[..n], mid) && May(mid, events[n]) && AfterEvent(mid, events[n]) == m'
  }

  // What the first n steps are to the atomic machine.
  ghost function Events(r: Run, n: nat): seq<Event>
    requires IsRun(r) && n <= |r.steps|
  {
    if n == 0 then []
    else
      assert Moves(r, n - 1);
      Events(r, n - 1)
      + match Meaning(r.states[n-1], r.steps[n-1]) case None => [] case Some(e) => [e]
  }

  lemma MachineRunGrows(m: Machine, events: seq<Event>, mid: Machine, e: Event)
    requires MachineRun(m, events, mid) && May(mid, e)
    ensures MachineRun(m, events + [e], AfterEvent(mid, e))
  {
    var longer := events + [e];
    var n := |longer| - 1;
    assert longer[..n] == events && longer[n] == e;
    assert MachineRun(m, longer[..n], mid) && May(mid, longer[n]) && AfterEvent(mid, longer[n]) == AfterEvent(mid, e);
  }

  /** Every run of the loops is a run of the atomic machine, with the same calls and results. */
  lemma {:induction false} RunRefines(r: Run, n: nat)
    requires IsRun(r) && n <= |r.steps|
    ensures MachineRun(Abstract(r.states[0]), Events(r, n), Abstract(r.states[n]))
  {
    if n > 0 {
      RunRefines(r, n - 1);
      assert Moves(r, n - 1);
      var before, mid := Events(r, n - 1), r.states[n-1];
      StepRefines(mid, r.steps[n-1]);
      match Meaning(mid, r.steps[n-1])
      case None =>
        assert Events(r, n) == before;
      case Some(e) =>
        assert Events(r, n) == before + [e];
        MachineRunGrows(Abstract(r.states[0]), before, Abstract(mid), e);
    }
  }

  // ----- The instant at which a call acts -----

  ghost predicate ActsAt(r: Run, k: nat)
    requires IsRun(r)
  {
    k < |r.steps| && (assert Moves(r, k); Acts(r.states[k], r.steps[k]))
  }

  // The call of thread t that began at step i is still going on before step n.
  ghost predicate Ongoing(r: Run, t: Thread, i: nat, n: nat, op: Op) {
    && i < n <= |r.steps| && r.steps[i] == Call(t, op)
    && forall k :: i < k < n && r.steps[k].t == t ==> r.steps[k].Load? || r.steps[k].Swap?
  }

  ghost predicate NoActs(r: Run, t: Thread, i: nat, n: nat)
    requires IsRun(r)
  {
    forall k: nat :: i <= k < n && k < |r.steps| && r.steps[k].t == t ==> !ActsAt(r, k)
  }

  // Of the steps of t from i up to n only step j acts, as op does atomically with this result.
  ghost predicate ActsOnceAt(r: Run, t: Thread, i: nat, j: nat, n: nat, op: Op, result: Word)
    requires IsRun(r)
  {
    && i < j < n <= |r.steps| && r.steps[j].t == t && ActsAt(r, j)
    && NoActs(r, t, i, j) && NoActs(r, t, j + 1, n)
    && Does(op, r.states[j].word, r.states[j+1].word, result)
  }

  ghost predicate Traced(r: Run, t: Thread, n: nat)
    requires IsRun(r) && n <= |r.steps|
  {
    t in r.states[n].pcs ==>
      var pc := r.states[n].pcs[t];
      exists i: nat :: Ongoing(r, t, i, n, OpAt(pc)) &&
        if pc.Finished? then exists j: nat :: ActsOnceAt(r, t, i, j, n, pc.op, pc.result) else NoActs(r, t, i, n)
  }

  lemma {:induction false} AllTraced(r: Run, t: Thread, n: nat)
    requires IsRun(r) && n <= |r.steps| && t !in r.states[0].pcs
    ensures Traced(r, t, n)
  {
    if n > 0 {
      var m := n - 1;
      AllTraced(r, t, m);
      assert Moves(r, m);
      StepActs(r.states[m], r.steps[m]);
      if r.steps[m].t != t {
        OthersStep(r, t, m);
      } else {
        OwnStep(r, t, m);
      }
    }
  }

  lemma OthersStep(r: Run, t: Thread, m: nat)
    requires IsRun(r) && m < |r.steps| && Traced(r, t, m) && r.steps[m].t != t
    ensures Traced(r, t, m + 1)
  {
    assert Moves(r, m);
    var n := m + 1;
    assert Get(r.states[n].pcs, t) == Get(r.states[m].pcs, t);
    if t in r.states[n].pcs {
      var pc := r.states[m].pcs[t];
      var i: nat :| Ongoing(r, t, i, m, OpAt(pc)) &&
        if pc.Finished? then exists j: nat :: ActsOnceAt(r, t, i, j, m, pc.op, pc.result) else NoActs(r, t, i, m);
      assert Ongoing(r, t, i, n, OpAt(pc));
      if pc.Finished? {
        var j: nat :| ActsOnceAt(r, t, i, j, m, pc.op, pc.result);
        assert ActsOnceAt(r, t, i, j, n, pc.op, pc.result);
      }
    }
  }

  lemma OwnStep(r: Run, t: Thread, m: nat)
    requires IsRun(r) && m < |r.steps| && Traced(r, t, m) && r.steps[m].t == t
    ensures Traced(r, t, m + 1)
  {
    assert Moves(r, m);
    var n := m + 1;
    var step := r.steps[m];
    if step.Call? {
      assert Ongoing(r, t, m, n, step.op) && NoActs(r, t, m, n);
    } else if !step.Return? {
      var pc := r.states[m].pcs[t];
      var i: nat :| Ongoing(r, t, i, m, OpAt(pc)) && NoActs(r, t, i, m);
      assert Ongoing(r, t, i, n, OpAt(pc));
      StepActs(r.states[m], step);
      if ActsAt(r, m) {
        AtomicallyDoes(OpAt(pc), r.states[m].word);
        var done := r.states[n].pcs[t];
        assert ActsOnceAt(r, t, i, m, n, done.op, done.result);
      } else {
        assert NoActs(r, t, i, n);
      }
    }
  }

  /** A call that returns has, between its beginning and its return, one instant at which it
      acted atomically, with the result it returns. */
  lemma ReturnsHaveActed(r: Run, k: nat)
    requires IsRun(r) && k < |r.steps| && r.steps[k].Return? && r.steps[k].t !in r.states[0].pcs
    ensures Moves(r, k)
    ensures var t := r.steps[k].t; var pc := r.states[k].pcs[t];
            exists i: nat, j: nat :: Ongoing(r, t, i, k, pc.op) && ActsOnceAt(r, t, i, j, k, pc.op, pc.result)
  {
    AllTraced(r, r.steps[k].t, k);
    assert Moves(r, k);
  }

  // ----- Exchanges only -----

  ghost predicate OnlyExchanges(r: Run) {
    forall k :: 0 <= k < |r.steps| && r.steps[k].Call? ==> r.steps[k].op.Exchange?
  }

  // How many of the calls begun in the first n steps write v.
  ghost function Written(r: Run, v: Word, n: nat): nat
    requires n <= |r.steps| && OnlyExchanges(r)
  {
    if n == 0 then 0
    else Written(r, v, n - 1) + if r.steps[n-1].Call? && r.steps[n-1].op.desired == v then 1 else 0
  }

  // How many of the calls returned in the first n steps returned v.
  ghost function Returned(r: Run, v: Word, n: nat): nat
    requires IsRun(r) && n <= |r.steps|
  {
    if n == 0 then 0
    else
      assert Moves(r, n - 1);
      var step := r.steps[n-1];
      Returned(r, v, n - 1) + if step.Return? && r.states[n-1].pcs[step.t].result == v then 1 else 0
  }

  // Calls that are still to write v, and calls that have it but have not returned it.
  ghost function Holders(s: State, v: Word): set<Thread> {
    set t | t in s.pcs && Holds(s.pcs[t], v)
  }

  ghost predicate Holds(pc: Pc, v: Word) {
    if pc.Finished? then pc.result == v else OpAt(pc).Exchange? && OpAt(pc).desired == v
  }

  ghost function One(b: bool): nat {
    if b then 1 else 0
  }

  ghost predicate ExchangesOnly(s: State) {
    forall t :: t in s.pcs ==> OpAt(s.pcs[t]).Exchange?
  }

  // One step only moves a value about: from the caller to a call, to the word, to a call, and
  // back to the caller.
  lemma ValuesMove(s: State, step: Step, v: Word)
    requires Enabled(s, step) && ExchangesOnly(s) && (step.Call? ==> step.op.Exchange?)
    ensures var s' := Apply(s, step);
            && ExchangesOnly(s')
            && |Holders(s', v)| + One(s'.word == v) + One(step.Return? && s.pcs[step.t].result == v)
               == |Holders(s, v)| + One(s.word == v) + One(step.Call? && step.op.desired == v)
  {
    var s', t := Apply(s, step), step.t;
    StepActs(s, step);
    assert forall u :: u != t ==> Get(s'.pcs, u) == Get(s.pcs, u);
    OthersHold(s, s', v, t);
    HoldersAt(s, v, t);
    HoldersAt(s', v, t);
  }

  lemma OthersHold(s: State, s': State, v: Word, t: Thread)
    requires forall u :: u != t ==> Get(s'.pcs, u) == Get(s.pcs, u)
    ensures Holders(s', v) - {t} == Holders(s, v) - {t}
  {
    forall u | u != t
      ensures u in Holders(s', v) <==> u in Holders(s, v)
    {
      assert Get(s'.pcs, u) == Get(s.pcs, u);
    }
  }

  lemma HoldersAt(s: State, v: Word, t: Thread)
    ensures |Holders(s, v)| == |Holders(s, v) - {t}| + One(t in s.pcs && Holds(s.pcs[t], v))
  {
    if t in Holders(s, v) {
      assert Holders(s, v) == (Holders(s, v) - {t}) + {t};
    } else {
      assert Holders(s, v) == Holders(s, v) - {t};
    }
  }

  lemma {:induction false} ValuesKept(r: Run, v: Word, n: nat)
    requires IsRun(r) && OnlyExchanges(r) && n <= |r.steps| && r.states[0].pcs == map[]
    ensures ExchangesOnly(r.states[n])
    ensures |Holders(r.states[n], v)| + One(r.states[n].word == v) + Returned(r, v, n)
         == One(r.states[0].word == v) + Written(r, v, n)
  {
    if n == 0 {
      assert forall t :: t !in Holders(r.states[0], v);
    } else {
      ValuesKept(r, v, n - 1);
      assert Moves(r, n - 1);
      ValuesMove(r.states[n-1], r.steps[n-1], v);
    }
  }

  /** Exchanges lose and invent nothing: with none in flight, the values returned and the word
      are a permutation of the values written and the first word. */
  lemma ExchangesPermute(r: Run, v: Word)
    requires IsRun(r) && OnlyExchanges(r) && r.states[0].pcs == map[] && r.states[|r.steps|].pcs == map[]
    ensures Returned(r, v, |r.steps|) + One(r.states[|r.steps|].word == v)
         == Written(r, v, |r.steps|) + One(r.states[0].word == v)
  {
    ValuesKept(r, v, |r.steps|);
    assert forall t :: t !in Holders(r.states[|r.steps|], v);
  }
}
