// base/atomic_sequence_num.h: GetNext from any number of threads, over the retry loops of
// Atomics.
module SequenceNumbers {
  import opened Wrappers
  import opened Atomics
  import AtomicLoops

  // What GetNext makes of the result of an increment; also the number that belongs to a ticket.
  function NumberOf(result: int): Word {
    Wrap(result - 1)
  }

  ghost predicate Fresh(s: State) {
    s.word == 0 && s.pcs == map[]
  }

  // The numbers that GetNext returned in the first n steps, in order of return.
  ghost function Numbers(r: Run, n: nat): seq<Word>
    requires IsRun(r) && n <= |r.steps|
  {
    if n == 0 then []
    else
      assert Moves(r, n - 1);
      var step := r.steps[n-1];
      Numbers(r, n - 1) + if step.Return? then [NumberOf(r.states[n-1].pcs[step.t].result)] else []
  }

  ghost predicate OnlyGetNext(r: Run) {
    forall k :: 0 <= k < |r.steps| && r.steps[k].Call? ==> r.steps[k].op == Increment(1)
  }

  // ----- The order in which the increments acted -----

  // A ticket is the number of increments up to this one: those of calls about to return,
  // and those of calls that have.
  datatype Ledger = Ledger(acts: nat, held: map<Thread, nat>, returned: seq<nat>)

  ghost function Record(l: Ledger, s: State, step: Step): Ledger
    requires Enabled(s, step)
  {
    if Acts(s, step) then Ledger(l.acts + 1, l.held[step.t := l.acts + 1], l.returned)
    else if step.Return? && step.t in l.held then Ledger(l.acts, l.held - {step.t}, l.returned + [l.held[step.t]])
    else l
  }

  // The ledgers kept along the first n steps of a run.
  ghost predicate AreLedgers(r: Run, ledgers: seq<Ledger>, n: nat)
    requires IsRun(r) && n <= |r.steps|
  {
    && |ledgers| == n + 1 && ledgers[0] == Ledger(0, map[], [])
    && forall k: nat :: k < n ==> Recorded(r, ledgers, k)
  }

  ghost predicate Recorded(r: Run, ledgers: seq<Ledger>, k: nat)
    requires IsRun(r) && k < |r.steps| && k + 1 < |ledgers|
  {
    assert Moves(r, k);
    ledgers[k+1] == Record(ledgers[k], r.states[k], r.steps[k])
  }

  lemma {:induction false} KeepLedgers(r: Run, n: nat) returns (ledgers: seq<Ledger>)
    requires IsRun(r) && n <= |r.steps|
    ensures AreLedgers(r, ledgers, n)
  {
    if n == 0 {
      ledgers := [Ledger(0, map[], [])];
    } else {
      var before := KeepLedgers(r, n - 1);
      assert Moves(r, n - 1);
      ledgers := before + [Record(before[n-1], r.states[n-1], r.steps[n-1])];
      forall k: nat | k < n
        ensures Recorded(r, ledgers, k)
      {
        assert k < n - 1 ==> Recorded(r, before, k);
      }
    }
  }

  ghost predicate PcMatches(l: Ledger, pc: Pc, t: Thread) {
    && OpAt(pc) == Increment(1)
    && (pc.Finished? <==> t in l.held)
    && (pc.Finished? ==> t in l.held && pc.result == Wrap(l.held[t]))
  }

  ghost predicate Matches(l: Ledger, s: State) {
    && s.word == Wrap(l.acts)
    && (forall t :: t in l.held ==> t in s.pcs)
    && (forall t :: t in s.pcs ==> PcMatches(l, s.pcs[t], t))
  }

  // Every ticket given out so far is held or returned, once.
  ghost predicate TicketsOk(l: Ledger) {
    && (forall t :: t in l.held ==> HeldOk(l, t))
    && (forall t, u :: Different(l, t, u))
    && (forall k :: k in l.returned ==> 1 <= k <= l.acts)
    && Distinct(l.returned)
    && |l.held| + |l.returned| == l.acts
  }

  ghost predicate HeldOk(l: Ledger, t: Thread) {
    t in l.held && 1 <= l.held[t] <= l.acts && l.held[t] !in l.returned
  }

  ghost predicate Different(l: Ledger, t: Thread, u: Thread) {
    t in l.held && u in l.held && t != u ==> l.held[t] != l.held[u]
  }

  lemma WrapCongruent(x: int, y: int)
    requires (x - y) % TWO_TO_32 == 0
    ensures Wrap(x) == Wrap(y)
  {
    var q := (x - y) / TWO_TO_32;
    assert x - y == q * TWO_TO_32;
    assert x + TWO_TO_31 == y + TWO_TO_31 + q * TWO_TO_32;
    ModShift(y + TWO_TO_31, q);
  }

  lemma ModShift(x: int, q: int)
    ensures (x + q * TWO_TO_32) % TWO_TO_32 == x % TWO_TO_32
  {
    var a, b := (x + q * TWO_TO_32) / TWO_TO_32, x / TWO_TO_32;
    assert (a - b - q) * TWO_TO_32 == x % TWO_TO_32 - (x + q * TWO_TO_32) % TWO_TO_32;
  }

  lemma WrapAdd(x: int, d: int)
    ensures Wrap(Wrap(x) + d) == Wrap(x + d)
  {
    WrapMeans(x);
    var q := (x - Wrap(x)) / TWO_TO_32;
    assert x + d == Wrap(x) + d + q * TWO_TO_32;
    assert (Wrap(x) + d - (x + d)) == -q * TWO_TO_32;
    ModShift(0, -q);
    WrapCongruent(Wrap(x) + d, x + d);
  }

  lemma RecordKeepsMatches(l: Ledger, s: State, step: Step)
    requires Enabled(s, step) && Matches(l, s) && (step.Call? ==> step.op == Increment(1))
    ensures Matches(Record(l, s, step), Apply(s, step))
  {
    StepActs(s, step);
    WrapAdd(l.acts, 1);
    var l', s' := Record(l, s, step), Apply(s, step);
    forall t | t in s'.pcs
      ensures PcMatches(l', s'.pcs[t], t)
    {
      if t != step.t {
        assert Get(s'.pcs, t) == Get(s.pcs, t);
        assert PcMatches(l, s.pcs[t], t);
      } else if t in s.pcs {
        assert PcMatches(l, s.pcs[t], t);
      }
    }
    if step.t in s.pcs {
      assert PcMatches(l, s.pcs[step.t], step.t);
    }
  }

  lemma TicketTaken(l: Ledger, t: Thread)
    requires TicketsOk(l) && t !in l.held
    ensures TicketsOk(Ledger(l.acts + 1, l.held[t := l.acts + 1], l.returned))
  {
    var l' := Ledger(l.acts + 1, l.held[t := l.acts + 1], l.returned);
    assert l'.held.Keys == l.held.Keys + {t};
    forall u | u in l'.held
      ensures HeldOk(l', u)
    {
      assert u != t ==> HeldOk(l, u);
    }
    forall u, v
      ensures Different(l', u, v)
    {
      assert Different(l, u, v);
      assert u in l.held ==> HeldOk(l, u);
      assert v in l.held ==> HeldOk(l, v);
    }
  }

  lemma TicketReturned(l: Ledger, t: Thread)
    requires TicketsOk(l) && t in l.held
    ensures TicketsOk(Ledger(l.acts, l.held - {t}, l.returned + [l.held[t]]))
  {
    var l' := Ledger(l.acts, l.held - {t}, l.returned + [l.held[t]]);
    assert HeldOk(l, t);
    assert l'.held.Keys == l.held.Keys - {t};
    forall u | u in l'.held
      ensures HeldOk(l', u)
    {
      assert HeldOk(l, u) && Different(l, t, u);
    }
    forall u, v
      ensures Different(l', u, v)
    {
      assert Different(l, u, v);
    }
  }

  lemma RecordKeepsTickets(l: Ledger, s: State, step: Step)
    requires Enabled(s, step) && Matches(l, s) && TicketsOk(l)
    ensures TicketsOk(Record(l, s, step))
  {
    if step.t in s.pcs {
      assert PcMatches(l, s.pcs[step.t], step.t);
    }
    if Acts(s, step) {
      TicketTaken(l, step.t);
    } else if step.Return? {
      TicketReturned(l, step.t);
    }
  }

  ghost predicate NumbersFollow(numbers: seq<Word>, tickets: seq<nat>) {
    |numbers| == |tickets| && forall k :: 0 <= k < |numbers| ==> numbers[k] == NumberOf(tickets[k])
  }

  ghost predicate LedgerOk(l: Ledger, s: State) {
    Matches(l, s) && TicketsOk(l)
  }

  lemma RecordKeepsLedger(l: Ledger, s: State, step: Step)
    requires Enabled(s, step) && LedgerOk(l, s) && (step.Call? ==> step.op == Increment(1))
    ensures LedgerOk(Record(l, s, step), Apply(s, step))
  {
    RecordKeepsMatches(l, s, step);
    RecordKeepsTickets(l, s, step);
  }

  lemma OneMoreFollows(numbers: seq<Word>, tickets: seq<nat>, result: Word, ticket: nat)
    requires NumbersFollow(numbers, tickets) && result == Wrap(ticket)
    ensures NumbersFollow(numbers + [NumberOf(result)], tickets + [ticket])
  {
    WrapAdd(ticket, -1);
  }

  lemma RecordReturned(l: Ledger, s: State, step: Step)
    requires Enabled(s, step) && Matches(l, s)
    ensures step.Return? ==> step.t in l.held && s.pcs[step.t].result == Wrap(l.held[step.t])
    ensures Record(l, s, step).returned == if step.Return? then l.returned + [l.held[step.t]] else l.returned
  {
    assert step.t in s.pcs ==> PcMatches(l, s.pcs[step.t], step.t);
  }

  // What holds after k steps.
  ghost predicate InStep(r: Run, l: Ledger, k: nat)
    requires IsRun(r) && k <= |r.steps|
  {
    LedgerOk(l, r.states[k]) && NumbersFollow(Numbers(r, k), l.returned)
  }

  lemma StepKeepsLedger(r: Run, l: Ledger, l': Ledger, k: nat)
    requires IsRun(r) && k < |r.steps| && OnlyGetNext(r) && InStep(r, l, k)
    requires Moves(r, k) && l' == Record(l, r.states[k], r.steps[k])
    ensures InStep(r, l', k + 1)
  {
    var s, step := r.states[k], r.steps[k];
    RecordKeepsLedger(l, s, step);
    RecordReturned(l, s, step);
    if step.Return? {
      OneMoreFollows(Numbers(r, k), l.returned, s.pcs[step.t].result, l.held[step.t]);
    }
  }

  lemma FirstLedger(r: Run, ledgers: seq<Ledger>, n: nat)
    requires IsRun(r) && n <= |r.steps| && Fresh(r.states[0]) && AreLedgers(r, ledgers, n)
    ensures InStep(r, ledgers[0], 0)
  {
  }

  lemma NextLedger(r: Run, ledgers: seq<Ledger>, n: nat, k: nat)
    requires IsRun(r) && k < n <= |r.steps| && OnlyGetNext(r) && AreLedgers(r, ledgers, n)
    requires InStep(r, ledgers[k], k)
    ensures InStep(r, ledgers[k+1], k + 1)
  {
    assert Moves(r, k) && Recorded(r, ledgers, k);
    StepKeepsLedger(r, ledgers[k], ledgers[k+1], k);
  }

  lemma {:induction false} RunKeepsLedger(r: Run, ledgers: seq<Ledger>, n: nat, k: nat)
    requires IsRun(r) && k <= n <= |r.steps| && OnlyGetNext(r) && Fresh(r.states[0]) && AreLedgers(r, ledgers, n)
    ensures InStep(r, ledgers[k], k)
  {
    if k == 0 {
      FirstLedger(r, ledgers, n);
    } else {
      RunKeepsLedger(r, ledgers, n, k - 1);
      NextLedger(r, ledgers, n, k - 1);
    }
  }

  function OneTo(n: nat): (all: set<int>)
    ensures |all| == n && forall k :: k in all <==> 1 <= k <= n
  {
    if n == 0 then {} else OneTo(n - 1) + {n}
  }

  // n different numbers from 1 to n are all of them.
  lemma {:induction false} AllTaken(s: seq<nat>, n: nat)
    requires |s| == n && Distinct(s) && forall k :: k in s ==> 1 <= k <= n
    ensures forall k :: 1 <= k <= n ==> k in s
  {
    var taken: set<int> := set i | 0 <= i < |s| :: s[i];
    DistinctSize(s);
    forall x | x in taken
      ensures x in OneTo(n)
    {
      var i :| 0 <= i < |s| && s[i] == x;
      assert s[i] in s;
    }
    assert |taken| == |s| by {
      assert taken == set i | 0 <= i < |s| :: s[i] as int;
    }
    SubsetOfSameSize(taken, OneTo(n));
    forall k | 1 <= k <= n
      ensures k in s
    {
      assert k in taken;
    }
  }

  lemma {:induction false} DistinctSize(s: seq<nat>)
    requires Distinct(s)
    ensures |set i | 0 <= i < |s| :: s[i] as int| == |s|
  {
    var all := set i | 0 <= i < |s| :: s[i] as int;
    if s != [] {
      var n := |s| - 1;
      var before := s[..n];
      DistinctSize(before);
      var some := set i | 0 <= i < |before| :: before[i] as int;
      forall x
        ensures x in all <==> x in some + {s[n]}
      {
        if x in some {
          var i :| 0 <= i < n && before[i] == x;
          assert s[i] == x;
        }
        if x in all {
          var i :| 0 <= i < |s| && s[i] == x;
          assert i < n ==> before[i] == x;
        }
      }
      assert all == some + {s[n] as int};
    }
  }

  lemma SubsetOfSameSize(a: set<int>, b: set<int>)
    requires a <= b && |a| == |b|
    ensures a == b
  {
    assert b == a + (b - a);
    assert |b - a| == 0;
  }

  ghost predicate IsPermutationOfTickets(tickets: seq<nat>, n: nat) {
    |tickets| == n && Distinct(tickets) && forall k :: k in tickets <==> 1 <= k <= n
  }

  /** n completed calls with none in flight return the numbers of n consecutive tickets. */
  lemma NumbersAreTickets(r: Run) returns (tickets: seq<nat>)
    requires IsRun(r) && OnlyGetNext(r) && Fresh(r.states[0])
    requires r.states[|r.steps|].pcs == map[]
    ensures IsPermutationOfTickets(tickets, |Numbers(r, |r.steps|)|)
    ensures NumbersFollow(Numbers(r, |r.steps|), tickets)
  {
    var ledgers := KeepLedgers(r, |r.steps|);
    RunKeepsLedger(r, ledgers, |r.steps|, |r.steps|);
    var l := ledgers[|r.steps|];
    tickets := l.returned;
    assert l.held == map[];
    AllTaken(tickets, l.acts);
  }

  /** They are exactly 0 to n-1 as long as there are at most 2^31 of them. */
  lemma CountsFromZero(r: Run)
    requires IsRun(r) && OnlyGetNext(r) && Fresh(r.states[0])
    requires r.states[|r.steps|].pcs == map[]
    ensures var numbers := Numbers(r, |r.steps|);
            |numbers| <= TWO_TO_31 <==>
            Distinct(numbers) && forall v: Word :: v in numbers <==> 0 <= v < |numbers|
  {
    var numbers := Numbers(r, |r.steps|);
    var n := |numbers|;
    var tickets := NumbersAreTickets(r);
    if n <= TWO_TO_31 {
      forall k | 0 <= k < n
        ensures numbers[k] as int + 1 == tickets[k] && 0 <= numbers[k] < n
      {
        assert tickets[k] in tickets;
      }
      forall v: Word | 0 <= v < n
        ensures v in numbers
      {
        assert v + 1 in tickets;
        var k :| 0 <= k < n && tickets[k] == v + 1;
        assert numbers[k] == v;
      }
    } else {
      assert TWO_TO_31 + 1 in tickets;
      var k :| 0 <= k < n && tickets[k] == TWO_TO_31 + 1;
      assert numbers[k] == -TWO_TO_31 && numbers[k] in numbers;
    }
  }

  /** No number repeats as long as there are at most 2^32 of them. */
  lemma NoRepeats(r: Run)
    requires IsRun(r) && OnlyGetNext(r) && Fresh(r.states[0])
    requires r.states[|r.steps|].pcs == map[]
    ensures Distinct(Numbers(r, |r.steps|)) <==> |Numbers(r, |r.steps|)| <= TWO_TO_32
  {
    var numbers := Numbers(r, |r.steps|);
    var n := |numbers|;
    var tickets := NumbersAreTickets(r);
    if n <= TWO_TO_32 {
      forall i, j | 0 <= i < j < n
        ensures numbers[i] != numbers[j]
      {
        assert tickets[i] in tickets && tickets[j] in tickets;
      }
    } else {
      assert 1 in tickets && TWO_TO_32 + 1 in tickets;
      var i :| 0 <= i < n && tickets[i] == 1;
      var j :| 0 <= j < n && tickets[j] == TWO_TO_32 + 1;
      assert numbers[i] == numbers[j];
    }
  }

  // ----- One call of GetNext -----

  class AtomicSequenceNumber {
    const number: AtomicLoops.SharedWord

    constructor ()
      ensures number.Valid() && number.word == 0 && fresh(number)
    {
      number := new AtomicLoops.SharedWord(0);
    }

    // None is a call that has not come to an end after so many rounds.
    method GetNext(rounds: nat) returns (next: Option<Word>)
      requires number.Valid()
      modifies number
      ensures number.Valid()
      ensures next.Some? ==>
                AtomicLoops.ActedLast(old(number.history), number.history, Op.Increment(1), number.word)
                && next.value == NumberOf(number.word)
      ensures next.None? ==> AtomicLoops.OthersActed(old(number.history), number.history)
    {
      var result := number.AtomicIncrement(1, rounds);
      next := None;
      if result.Some? {
        next := Some(NumberOf(result.value));
      }
    }
  }
}
