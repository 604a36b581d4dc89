// base/id_map.h: a keyed map whose entries may be removed while any number of iterators,
// nested or not, are on it. Removal is then deferred until the last iterator is gone.
module IdMaps {
  import opened Wrappers

  // ----- The map as a value -----

  // The deletion of an object that was stored under a key.
  datatype Deletion = Deletion(key: int, obj: int)

  // order is the traversal order of the hash table.
  datatype Core = Core(order: seq<int>, data: map<int, int>, removed: set<int>, depth: nat,
                       deleted: multiset<Deletion>, owns: bool)

  function Erase(order: seq<int>, dead: set<int>): (rest: seq<int>)
    ensures forall k :: k in rest <==> k in order && k !in dead
    ensures |rest| <= |order|
  {
    if order == [] then []
    else if order[0] in dead then Erase(order[1..], dead)
    else [order[0]] + Erase(order[1..], dead)
  }

  // Where an iterator standing at pos comes to rest: the first entry not yet removed.
  function Skip(c: Core, pos: nat): (p: nat)
    requires pos <= |c.order|
    ensures pos <= p <= |c.order|
    ensures forall i :: pos <= i < p ==> c.order[i] in c.removed
    ensures p < |c.order| ==> c.order[p] !in c.removed
    decreases |c.order| - pos
  {
    if pos < |c.order| && c.order[pos] in c.removed then Skip(c, pos + 1) else pos
  }

  function Deletions(data: map<int, int>, dead: set<int>): set<Deletion> {
    set k | k in dead && k in data :: Deletion(k, data[k])
  }

  // The map once the entries in dead are gone, each object deleted if the map owns it.
  function Without(c: Core, dead: set<int>): Core {
    c.(order := Erase(c.order, dead), data := c.data - dead,
       deleted := if c.owns then c.deleted + multiset(Deletions(c.data, dead)) else c.deleted)
  }

  function AfterRemove(c: Core, id: int): Core {
    if id !in c.order then c
    else if c.depth == 0 then Without(c, {id})
    else c.(removed := c.removed + {id})
  }

  function AfterCompact(c: Core): Core {
    Without(c, c.removed).(removed := {})
  }

  function AfterEnd(c: Core): Core
    requires c.depth > 0
  {
    var c' := c.(depth := c.depth - 1);
    if c'.depth == 0 then AfterCompact(c') else c'
  }

  ghost predicate CoreOk(c: Core) {
    && Distinct(c.order)
    && (forall k :: k in c.data <==> k in c.order)
    && (forall k :: k in c.removed ==> k in c.order)
    && (c.depth == 0 ==> c.removed == {})
  }

  lemma {:induction false} EraseKeepsDistinct(order: seq<int>, dead: set<int>)
    requires Distinct(order)
    ensures Distinct(Erase(order, dead))
  {
    if order != [] {
      EraseKeepsDistinct(order[1..], dead);
    }
  }

  lemma {:induction false} EraseTwice(order: seq<int>, a: set<int>, b: set<int>)
    ensures Erase(Erase(order, a), b) == Erase(order, a + b)
  {
    if order != [] {
      EraseTwice(order[1..], a, b);
    }
  }

  lemma {:induction false} EraseNothing(order: seq<int>)
    ensures Erase(order, {}) == order
  {
    if order != [] {
      EraseNothing(order[1..]);
    }
  }

  // ----- Runs: removals and any number of iterators, interleaved -----

  // pos is the entry an iterator stands on, |order| when it is at the end.
  datatype Event = Removed(key: int) | Landed(iter: nat, key: int)

  datatype State = State(core: Core, iters: map<nat, nat>, started: nat, log: seq<Event>)

  datatype Step = Remove(key: int) | Begin | Advance(iter: nat) | End(iter: nat)

  ghost predicate Initial(s: State) {
    CoreOk(s.core) && s.core.depth == 0 && s.iters == map[] && s.log == [] && s.started == 0
  }

  ghost predicate Enabled(s: State, step: Step) {
    match step
    case Remove(_) => true
    case Begin => true
    case Advance(it) => it in s.iters && s.iters[it] < |s.core.order|
    case End(it) => it in s.iters && s.core.depth > 0
  }

  function Landing(c: Core, it: nat, pos: nat): seq<Event> {
    if pos < |c.order| then [Landed(it, c.order[pos])] else []
  }

  ghost function Apply(s: State, step: Step): State
    requires Enabled(s, step)
  {
    match step
    case Remove(key) =>
      s.(core := AfterRemove(s.core, key), log := if key in s.core.order then s.log + [Removed(key)] else s.log)
    case Begin =>
      var core := s.core.(depth := s.core.depth + 1);
      var pos := Skip(core, 0);
      State(core, s.iters[s.started := pos], s.started + 1, s.log + Landing(core, s.started, pos))
    case Advance(it) =>
      var pos := Skip(s.core, s.iters[it] + 1);
      s.(iters := s.iters[it := pos], log := s.log + Landing(s.core, it, pos))
    case End(it) =>
      s.(core := AfterEnd(s.core), iters := s.iters - {it})
  }

  // How often the iterator landed on the key.
  ghost function Visits(log: seq<Event>, it: nat, key: int): nat {
    multiset(log)[Landed(it, key)]
  }

  // What an iterator at pos has to do with the entry at i, whose key is given.
  ghost predicate SeenOk(log: seq<Event>, it: nat, pos: nat, i: nat, key: int) {
    && Visits(log, it, key) <= 1
    && (i < pos ==> Visits(log, it, key) == 1 || Removed(key) in log)
    && (i == pos ==> Visits(log, it, key) == 1)
    && (i > pos ==> Visits(log, it, key) == 0)
  }

  // An iterator has landed once on every entry it has passed or stands on that was not
  // removed before, and on no other.
  ghost predicate IterOk(s: State, it: nat)
    requires it in s.iters
  {
    && s.iters[it] <= |s.core.order|
    && forall i :: 0 <= i < |s.core.order| ==> SeenOk(s.log, it, s.iters[it], i, s.core.order[i])
  }

  ghost predicate ItersOk(s: State) {
    && s.core.depth == |s.iters|
    && (forall it :: it in s.iters ==> it < s.started && IterOk(s, it))
    && (forall it, key :: it >= s.started ==> Visits(s.log, it, key) == 0)
  }

  // The object was there at the start, and its entry is gone.
  ghost predicate Gone(s: State, s0: State, d: Deletion) {
    d.key in s0.core.order && d.key !in s.core.order && Get(s0.core.data, d.key) == Some(d.obj)
  }

  ghost predicate DeletedOk(s: State, s0: State, d: Deletion) {
    s.core.deleted[d] == s0.core.deleted[d] + if s.core.owns && Gone(s, s0, d) then 1 else 0
  }

  // Stored entries are the ones there at the start, less those removed and no longer deferred.
  ghost predicate StoreOk(s: State, s0: State) {
    && s.core.owns == s0.core.owns
    && (forall k :: k in s.core.order ==> k in s0.core.order && Get(s.core.data, k) == Get(s0.core.data, k)
                                          && (Removed(k) in s.log <==> k in s.core.removed))
    && (forall k :: k in s0.core.order && k !in s.core.order ==> Removed(k) in s.log)
    && (forall d :: DeletedOk(s, s0, d))
  }

  // No iterator lands on a key after its removal.
  ghost predicate NeverLate(log: seq<Event>) {
    forall a, b :: 0 <= a < b < |log| && log[a].Removed? && log[b].Landed? ==> log[a].key != log[b].key
  }

  ghost predicate Inv(s: State, s0: State) {
    CoreOk(s.core) && ItersOk(s) && StoreOk(s, s0) && NeverLate(s.log)
  }

  lemma LandingVisits(log: seq<Event>, c: Core, it: nat, pos: nat, it': nat, key: int)
    ensures Visits(log + Landing(c, it, pos), it', key)
         == Visits(log, it', key) + if it' == it && pos < |c.order| && c.order[pos] == key then 1 else 0
  {
    assert multiset(log + Landing(c, it, pos)) == multiset(log) + multiset(Landing(c, it, pos));
  }

  lemma RemovalVisits(log: seq<Event>, k: int, it: nat, key: int)
    ensures Visits(log + [Removed(k)], it, key) == Visits(log, it, key)
  {
    assert multiset(log + [Removed(k)]) == multiset(log) + multiset{Removed(k)};
  }

  lemma RemoveKeepsIters(s: State, key: int)
    requires CoreOk(s.core) && ItersOk(s)
    ensures ItersOk(Apply(s, Remove(key)))
  {
    var s' := Apply(s, Remove(key));
    if key in s.core.order {
      forall it: nat, k
        ensures Visits(s'.log, it, k) == Visits(s.log, it, k)
      {
        RemovalVisits(s.log, key, it, k);
      }
      if s.core.depth == 0 {
        assert s.iters == map[];
      } else {
        forall it | it in s'.iters
          ensures IterOk(s', it)
        {
          assert IterOk(s, it);
          forall i | 0 <= i < |s.core.order|
            ensures SeenOk(s'.log, it, s.iters[it], i, s.core.order[i])
          {
            assert SeenOk(s.log, it, s.iters[it], i, s.core.order[i]);
          }
        }
      }
    }
  }

  lemma RemoveKeepsStore(s: State, s0: State, key: int)
    requires CoreOk(s.core) && StoreOk(s, s0) && NeverLate(s.log)
    ensures var s' := Apply(s, Remove(key));
            CoreOk(s'.core) && StoreOk(s', s0) && NeverLate(s'.log)
  {
    if key in s.core.order {
      var s' := Apply(s, Remove(key));
      EraseKeepsDistinct(s.core.order, {key});
      assert s'.log[|s.log|] == Removed(key);
      assert forall e :: e in s'.log <==> e in s.log || e == Removed(key);
      if s.core.depth == 0 {
        forall d
          ensures DeletedOk(s', s0, d)
        {
          WithoutDeletes(s, s0, {key}, d);
        }
      } else {
        assert forall d :: DeletedOk(s, s0, d) ==> DeletedOk(s', s0, d);
      }
    }
  }

  // Taking entries out deletes their objects, and no others.
  lemma WithoutDeletes(s: State, s0: State, dead: set<int>, d: Deletion)
    requires CoreOk(s.core) && StoreOk(s, s0)
    ensures DeletedOk(s.(core := Without(s.core, dead)), s0, d)
  {
    assert DeletedOk(s, s0, d);
    assert Get(s.core.data, d.key) == Some(d.obj) && d.key in dead <==> d in Deletions(s.core.data, dead);
  }

  // Landing on an entry that is still there.
  lemma LandingKeeps(s: State, s0: State, it: nat, pos: nat)
    requires CoreOk(s.core) && StoreOk(s, s0) && NeverLate(s.log) && pos <= |s.core.order|
    requires pos < |s.core.order| ==> s.core.order[pos] !in s.core.removed
    ensures var log := s.log + Landing(s.core, it, pos);
            NeverLate(log) && forall k :: Removed(k) in log <==> Removed(k) in s.log
  {
    var log := s.log + Landing(s.core, it, pos);
    assert forall k :: Removed(k) in log <==> Removed(k) in s.log;
  }

  // Iterators that move leave the store alone.
  lemma LandingKeepsStore(s: State, s0: State, s': State)
    requires StoreOk(s, s0) && s'.core.(depth := 0) == s.core.(depth := 0)
    requires forall k :: Removed(k) in s'.log <==> Removed(k) in s.log
    ensures StoreOk(s', s0)
  {
    forall d
      ensures DeletedOk(s', s0, d)
    {
      assert DeletedOk(s, s0, d) && (Gone(s, s0, d) <==> Gone(s', s0, d));
    }
  }

  // An iterator moving to where Skip takes it from the first entry it has not passed.
  lemma MoverOk(s: State, s0: State, core: Core, me: nat, from: nat)
    requires CoreOk(s.core) && StoreOk(s, s0)
    requires core.order == s.core.order && core.removed == s.core.removed && from <= |core.order|
    requires forall i :: 0 <= i < |core.order| ==>
               && Visits(s.log, me, core.order[i]) <= (if i < from then 1 else 0)
               && (i < from ==> Visits(s.log, me, core.order[i]) == 1 || Removed(core.order[i]) in s.log)
    ensures var pos := Skip(core, from);
            forall i :: 0 <= i < |core.order| ==>
              SeenOk(s.log + Landing(core, me, pos), me, pos, i, core.order[i])
  {
    var pos := Skip(core, from);
    var log := s.log + Landing(core, me, pos);
    forall i | 0 <= i < |core.order|
      ensures SeenOk(log, me, pos, i, core.order[i])
    {
      var key := core.order[i];
      LandingVisits(s.log, core, me, pos, me, key);
      assert pos < |core.order| && core.order[pos] == key ==> i == pos;
      assert Removed(key) in s.log ==> Removed(key) in log;
    }
  }

  lemma OthersOk(s: State, core: Core, me: nat, pos: nat, it: nat)
    requires it in s.iters && it != me && IterOk(s, it) && core.order == s.core.order
    ensures forall i :: 0 <= i < |core.order| ==>
              SeenOk(s.log + Landing(core, me, pos), it, s.iters[it], i, core.order[i])
  {
    var log := s.log + Landing(core, me, pos);
    forall i | 0 <= i < |core.order|
      ensures SeenOk(log, it, s.iters[it], i, core.order[i])
    {
      LandingVisits(s.log, core, me, pos, it, core.order[i]);
      assert SeenOk(s.log, it, s.iters[it], i, core.order[i]);
      assert Removed(core.order[i]) in s.log ==> Removed(core.order[i]) in log;
    }
  }

  // Iterators not started yet have landed nowhere.
  lemma FutureUnseen(s: State, core: Core, me: nat, pos: nat, started: nat)
    requires forall it: nat, k :: it >= s.started ==> Visits(s.log, it, k) == 0
    requires s.started <= started && me < started
    ensures forall it: nat, k :: it >= started ==> Visits(s.log + Landing(core, me, pos), it, k) == 0
  {
    forall it: nat, k | it >= started
      ensures Visits(s.log + Landing(core, me, pos), it, k) == 0
    {
      LandingVisits(s.log, core, me, pos, it, k);
    }
  }

  lemma BeginKeepsIters(s: State, s0: State)
    requires CoreOk(s.core) && ItersOk(s) && StoreOk(s, s0)
    ensures ItersOk(Apply(s, Begin))
  {
    var s' := Apply(s, Begin);
    var core := s.core.(depth := s.core.depth + 1);
    var pos, me := Skip(core, 0), s.started;
    MoverOk(s, s0, core, me, 0);
    FutureUnseen(s, core, me, pos, s'.started);
    forall it | it in s'.iters
      ensures it < s'.started && IterOk(s', it)
    {
      if it != me {
        OthersOk(s, core, me, pos, it);
      }
    }
  }

  lemma AdvanceMover(s: State, s0: State, me: nat)
    requires CoreOk(s.core) && ItersOk(s) && StoreOk(s, s0) && Enabled(s, Advance(me))
    ensures var pos := Skip(s.core, s.iters[me] + 1);
            forall i :: 0 <= i < |s.core.order| ==>
              SeenOk(s.log + Landing(s.core, me, pos), me, pos, i, s.core.order[i])
  {
    assert IterOk(s, me);
    forall i | 0 <= i < |s.core.order|
      ensures Visits(s.log, me, s.core.order[i]) <= (if i < s.iters[me] + 1 then 1 else 0)
      ensures i < s.iters[me] + 1 ==> Visits(s.log, me, s.core.order[i]) == 1 || Removed(s.core.order[i]) in s.log
    {
      assert SeenOk(s.log, me, s.iters[me], i, s.core.order[i]);
    }
    MoverOk(s, s0, s.core, me, s.iters[me] + 1);
  }

  lemma AdvanceKeepsIters(s: State, s0: State, me: nat)
    requires CoreOk(s.core) && ItersOk(s) && StoreOk(s, s0) && Enabled(s, Advance(me))
    ensures ItersOk(Apply(s, Advance(me)))
  {
    var s' := Apply(s, Advance(me));
    var pos := Skip(s.core, s.iters[me] + 1);
    AdvanceMover(s, s0, me);
    FutureUnseen(s, s.core, me, pos, s'.started);
    forall it | it in s'.iters
      ensures it < s'.started && IterOk(s', it)
    {
      if it != me {
        OthersOk(s, s.core, me, pos, it);
      }
    }
  }

  lemma EndKeepsIters(s: State, me: nat)
    requires ItersOk(s) && Enabled(s, End(me))
    ensures ItersOk(Apply(s, End(me)))
  {
    var s' := Apply(s, End(me));
    assert |s'.iters| == |s.iters| - 1;
    if s'.core.depth == 0 {
      assert s'.iters == map[];
    } else {
      forall it | it in s'.iters
        ensures it < s'.started && IterOk(s', it)
      {
        assert IterOk(s, it);
      }
    }
  }

  lemma EndKeepsStore(s: State, s0: State, me: nat)
    requires CoreOk(s.core) && StoreOk(s, s0) && Enabled(s, End(me))
    ensures CoreOk(Apply(s, End(me)).core) && StoreOk(Apply(s, End(me)), s0)
  {
    var s' := Apply(s, End(me));
    EraseKeepsDistinct(s.core.order, s.core.removed);
    forall d
      ensures DeletedOk(s', s0, d)
    {
      assert DeletedOk(s, s0, d);
      WithoutDeletes(s, s0, s.core.removed, d);
    }
  }

  lemma RemoveKeepsInv(s: State, s0: State, key: int)
    requires Inv(s, s0) && Enabled(s, Remove(key))
    ensures Inv(Apply(s, Remove(key)), s0)
  {
    RemoveKeepsIters(s, key);
    RemoveKeepsStore(s, s0, key);
  }

  lemma BeginKeepsStore(s: State, s0: State)
    requires CoreOk(s.core) && StoreOk(s, s0) && NeverLate(s.log)
    ensures var s' := Apply(s, Begin); CoreOk(s'.core) && StoreOk(s', s0) && NeverLate(s'.log)
  {
    LandingKeeps(s, s0, s.started, Skip(s.core.(depth := s.core.depth + 1), 0));
    LandingKeepsStore(s, s0, Apply(s, Begin));
  }

  lemma AdvanceKeepsStore(s: State, s0: State, it: nat)
    requires CoreOk(s.core) && StoreOk(s, s0) && NeverLate(s.log) && Enabled(s, Advance(it))
    ensures var s' := Apply(s, Advance(it)); CoreOk(s'.core) && StoreOk(s', s0) && NeverLate(s'.log)
  {
    LandingKeeps(s, s0, it, Skip(s.core, s.iters[it] + 1));
    LandingKeepsStore(s, s0, Apply(s, Advance(it)));
  }

  lemma BeginKeepsInv(s: State, s0: State)
    requires Inv(s, s0)
    ensures Inv(Apply(s, Begin), s0)
  {
    BeginKeepsIters(s, s0);
    BeginKeepsStore(s, s0);
  }

  lemma AdvanceKeepsInv(s: State, s0: State, it: nat)
    requires Inv(s, s0) && Enabled(s, Advance(it))
    ensures Inv(Apply(s, Advance(it)), s0)
  {
    AdvanceKeepsIters(s, s0, it);
    AdvanceKeepsStore(s, s0, it);
  }

  lemma EndKeepsInv(s: State, s0: State, it: nat)
    requires Inv(s, s0) && Enabled(s, End(it))
    ensures Inv(Apply(s, End(it)), s0)
  {
    EndKeepsIters(s, it);
    EndKeepsStore(s, s0, it);
  }

  lemma StepKeepsInv(s: State, s0: State, step: Step)
    requires Inv(s, s0) && Enabled(s, step)
    ensures Inv(Apply(s, step), s0)
  {
    match step
    case Remove(key) => RemoveKeepsInv(s, s0, key);
    case Begin => BeginKeepsInv(s, s0);
    case Advance(it) => AdvanceKeepsInv(s, s0, it);
    case End(it) => EndKeepsInv(s, s0, it);
  }

  ghost predicate IsRun(states: seq<State>, steps: seq<Step>) {
    && |states| == |steps| + 1
    && Initial(states[0])
    && forall i :: 0 <= i < |steps| ==> Enabled(states[i], steps[i]) && states[i+1] == Apply(states[i], steps[i])
  }

  lemma {:induction false} RunKeepsInv(states: seq<State>, steps: seq<Step>, i: nat)
    requires IsRun(states, steps) && i < |states|
    ensures Inv(states[i], states[0])
  {
    if i > 0 {
      RunKeepsInv(states, steps, i - 1);
      StepKeepsInv(states[i-1], states[0], steps[i-1]);
    }
  }

  // The iterator moved past the entry at j, which had been removed before.
  ghost predicate Skips(s: State, s': State, it: nat, j: nat) {
    && it in s'.iters && j < s'.iters[it] && (it in s.iters ==> s.iters[it] < j)
    && j < |s.core.order| && s.core.order[j] in s.core.removed && Removed(s.core.order[j]) in s.log
  }

  lemma MovesPast(s: State, s0: State, step: Step, it: nat, j: nat)
    requires Inv(s, s0) && Enabled(s, step)
    requires var s' := Apply(s, step);
             it in s'.iters && j < |s'.core.order| && j < s'.iters[it] && Visits(s'.log, it, s'.core.order[j]) == 0
    ensures Apply(s, step).core.order == s.core.order
    ensures if it in s.iters && j < s.iters[it] then Visits(s.log, it, s.core.order[j]) == 0
            else Skips(s, Apply(s, step), it, j)
  {
    DeferredToTheLastIterator(s, s0, step);
    VisitsOnlyGrow(s, step, it, s.core.order[j]);
    if it in s.iters {
      assert IterOk(s, it) && SeenOk(s.log, it, s.iters[it], j, s.core.order[j]);
    }
  }

  lemma VisitsOnlyGrow(s: State, step: Step, it: nat, key: int)
    requires Enabled(s, step)
    ensures Visits(s.log, it, key) <= Visits(Apply(s, step).log, it, key)
  {
    assert Apply(s, step).log[..|s.log|] == s.log;
    assert multiset(Apply(s, step).log) == multiset(s.log) + multiset(Apply(s, step).log[|s.log|..]) by {
      assert Apply(s, step).log == s.log + Apply(s, step).log[|s.log|..];
    }
  }

  ghost predicate SkippedAt(states: seq<State>, b: nat, it: nat, j: nat) {
    b + 1 < |states| && Skips(states[b], states[b+1], it, j)
  }

  lemma {:induction false} SkippedOnlyIfRemoved(states: seq<State>, steps: seq<Step>, i: nat, it: nat, j: nat)
    returns (b: nat)
    requires IsRun(states, steps) && i < |states| && it in states[i].iters && j < |states[i].core.order|
    requires j < states[i].iters[it] && Visits(states[i].log, it, states[i].core.order[j]) == 0
    ensures b < i && SkippedAt(states, b, it, j) && states[b].core.order == states[i].core.order
  {
    b := i - 1;
    RunKeepsInv(states, steps, b);
    MovesPast(states[b], states[0], steps[b], it, j);
    if it in states[b].iters && j < states[b].iters[it] {
      b := SkippedOnlyIfRemoved(states, steps, b, it, j);
    }
  }

  /** Under any interleaving of removals and nested iterators, at all times: an iterator has
      landed exactly once on every entry that it has passed or stands on, except the ones
      that were already removed when it passed them; never on an entry ahead of it, and never
      on one after its removal. */
  lemma VisitsExactlyOnce(states: seq<State>, steps: seq<Step>, i: nat, it: nat, j: nat)
    requires IsRun(states, steps) && i < |states| && it in states[i].iters && j < |states[i].core.order|
    ensures var s := states[i];
            var k := s.core.order[j];
            && s.iters[it] <= |s.core.order|
            && Visits(s.log, it, k) <= 1
            && (j < s.iters[it] ==> Visits(s.log, it, k) == 1 || exists b: nat :: b < i && SkippedAt(states, b, it, j))
            && (j == s.iters[it] ==> Visits(s.log, it, k) == 1)
            && (j > s.iters[it] ==> Visits(s.log, it, k) == 0)
            && NeverLate(s.log)
  {
    RunKeepsInv(states, steps, i);
    var s := states[i];
    assert IterOk(s, it) && SeenOk(s.log, it, s.iters[it], j, s.core.order[j]);
    if j < s.iters[it] && Visits(s.log, it, s.core.order[j]) == 0 {
      var b := SkippedOnlyIfRemoved(states, steps, i, it, j);
    }
  }

  /** Deferred removals are always of stored keys, so size() never underflows. No object is
      ever deleted twice, or while its entry is stored; with no iterator left an owning map
      has deleted exactly the removed objects, each once; and nothing else is deleted. */
  lemma ReleasedExactlyOnce(states: seq<State>, steps: seq<Step>, i: nat, d: Deletion)
    requires IsRun(states, steps) && i < |states|
    ensures var s, s0 := states[i], states[0];
            var times := s.core.deleted[d] as int - s0.core.deleted[d] as int;
            var stored := d.key in s0.core.order && Get(s0.core.data, d.key) == Some(d.obj);
            && (forall x :: x in s.core.removed ==> x in s.core.order)
            && 0 <= times <= 1
            && (times == 1 ==> stored && s.core.owns && d.key !in s.core.order && Removed(d.key) in s.log)
            && (s.iters == map[] && s.core.owns && stored && Removed(d.key) in s.log ==> times == 1)
  {
    RunKeepsInv(states, steps, i);
    assert DeletedOk(states[i], states[0], d);
  }

  /** Nothing is deleted, and no entry leaves the table, while an iterator remains. */
  lemma DeferredToTheLastIterator(s: State, s0: State, step: Step)
    requires Inv(s, s0) && Enabled(s, step) && Apply(s, step).iters != map[]
    ensures Apply(s, step).core.deleted == s.core.deleted
    ensures Apply(s, step).core.order == s.core.order && Apply(s, step).core.data == s.core.data
  {
    var s' := Apply(s, step);
    assert |s'.iters| > 0;
    if step.End? {
      assert |s'.iters| == |s.iters| - 1;
    }
  }

  lemma {:induction false} EraseCount(order: seq<int>, dead: set<int>)
    requires Distinct(order) && forall k :: k in dead ==> k in order
    ensures |Erase(order, dead)| == |order| - |dead|
  {
    if order == [] {
      assert forall k :: k !in dead;
    } else {
      var k, rest := order[0], order[1..];
      assert k !in rest;
      if k in dead {
        EraseSame(rest, dead, dead - {k});
        EraseCount(rest, dead - {k});
      } else {
        EraseCount(rest, dead);
      }
    }
  }

  lemma {:induction false} EraseSame(order: seq<int>, a: set<int>, b: set<int>)
    requires forall k :: k in order ==> (k in a <==> k in b)
    ensures Erase(order, a) == Erase(order, b)
  {
    if order != [] {
      var k, rest := order[0], order[1..];
      assert order == [k] + rest;
      assert k in order && (k in a <==> k in b);
      forall x | x in rest
        ensures x in a <==> x in b
      {
        assert x in order;
      }
      EraseSame(rest, a, b);
    }
  }

  // ----- The classes -----

  class IDMap {
    var order: seq<int>        // the keys, in the hash table's traversal order
    var data: map<int, int>    // objects by key
    var removedIds: set<int>
    var iterationDepth: nat
    var nextId: int
    const owns: bool           // IDMapOwnPointer: removed objects are deleted
    var deleted: seq<Deletion> // the objects deleted, in order

    ghost predicate TableOk()
      reads this
    {
      Distinct(order) && forall k :: k in data <==> k in order
    }

    ghost predicate Valid()
      reads this
    {
      TableOk() && forall k :: k in removedIds ==> k in order
    }

    ghost function Abs(): Core
      reads this
    {
      Core(order, data, removedIds, iterationDepth, multiset(deleted), owns)
    }

    constructor (owns: bool)
      ensures Valid() && Abs() == Core([], map[], {}, 0, multiset{}, owns)
      ensures nextId == 1 && deleted == []
    {
      order, data, removedIds, iterationDepth, nextId := [], map[], {}, 0, 1;
      this.owns, deleted := owns, [];
    }

    ghost predicate InsertedInto(before: seq<int>, id: int)
      reads this
    {
      exists at: nat :: at <= |before| && order == before[..at] + [id] + before[at..]
    }

    // The new entry may end up anywhere in the traversal order.
    method AddWithID(obj: int, id: int)
      requires Valid() && id !in data
      modifies this`order, this`data
      ensures Valid() && data == old(data)[id := obj] && InsertedInto(old(order), id)
    {
      var at: nat :| at <= |order|;
      ghost var before := order;
      order := order[..at] + [id] + order[at..];
      assert order == before[..at] + [id] + before[at..];
      data := data[id := obj];
    }

    method Add(obj: int) returns (id: int)
      requires Valid() && nextId !in data
      modifies this`order, this`data, this`nextId
      ensures Valid() && id == old(nextId) && nextId == id + 1
      ensures data == old(data)[id := obj] && InsertedInto(old(order), id)
    {
      id := nextId;
      AddWithID(obj, id);
      nextId := nextId + 1;
    }

    // Releases the object and erases the entry.
    method TakeOut(id: int)
      requires TableOk() && id in data && iterationDepth == 0
      modifies this`order, this`data, this`deleted
      ensures TableOk() && Abs() == Without(old(Abs()), {id}) && old(deleted) <= deleted
    {
      RemovedAtOnce(Abs(), id);
      if owns {
        deleted := deleted + [Deletion(id, data[id])];
      }
      order := Erase(order, {id});
      data := data - {id};
    }

    // Compact calls this while removedIds still lists what is already gone.
    method Remove(id: int)
      requires TableOk()
      modifies this`order, this`data, this`removedIds, this`deleted
      ensures TableOk() && Abs() == AfterRemove(old(Abs()), id)
      ensures old(Valid()) && (iterationDepth > 0 || removedIds == {}) ==> Valid()
      ensures old(deleted) <= deleted
    {
      if id !in data {
        return;
      }
      if iterationDepth == 0 {
        TakeOut(id);
      } else {
        removedIds := removedIds + {id};
      }
    }

    // An entry whose removal is put off is still found.
    method Lookup(id: int) returns (obj: Option<int>)
      requires Valid()
      ensures obj.Some? <==> id in order
      ensures id in removedIds ==> obj.Some?
      ensures obj.Some? ==> id in data && obj.value == data[id]
    {
      obj := None;
      if id in data {
        obj := Some(data[id]);
      }
    }

    // The number of entries that are not waiting to be removed.
    method Size() returns (n: nat)
      requires Valid()
      ensures n == |Erase(order, removedIds)|
    {
      EraseCount(order, removedIds);
      n := |order| - |removedIds|;
    }

    // Carries out the removals that were put off.
    method Compact()
      requires Valid() && iterationDepth == 0
      modifies this`order, this`data, this`removedIds, this`deleted
      ensures Valid() && Abs() == AfterCompact(old(Abs())) && old(deleted) <= deleted
      ensures |deleted| == |old(deleted)| + if owns then |old(removedIds)| else 0
    {
      ghost var before := Abs();
      RemoveAllPutOff();
      removedIds := {};
      CompactSize(before);
      assert |multiset(deleted)| == |deleted|;
    }

    // The loop of Compact.
    method RemoveAllPutOff()
      requires Valid() && iterationDepth == 0
      modifies this`order, this`data, this`removedIds, this`deleted
      ensures TableOk() && Abs() == Without(old(Abs()), old(removedIds)) && old(deleted) <= deleted
    {
      var todo := removedIds;
      ghost var before := Abs();
      NothingWithout(before);
      assert before.removed - todo == {};
      while todo != {}
        invariant todo <= before.removed && Compactable(before)
        invariant TableOk() && Abs() == Without(before, before.removed - todo) && old(deleted) <= deleted
        decreases todo
      {
        var id := AnyOf(todo);
        RemovePutOff(id, before, todo);
        todo := todo - {id};
      }
      assert before.removed - {} == before.removed;
    }

    method RemovePutOff(id: int, ghost before: Core, ghost todo: set<int>)
      requires Compactable(before) && id in todo && todo <= before.removed
      requires TableOk() && Abs() == Without(before, before.removed - todo)
      modifies this`order, this`data, this`removedIds, this`deleted
      ensures TableOk() && Abs() == Without(before, before.removed - (todo - {id})) && old(deleted) <= deleted
    {
      WithoutOneMore(before, before.removed - todo, id);
      assert before.removed - (todo - {id}) == before.removed - todo + {id};
      Remove(id);
    }

    static method AnyOf(s: set<int>) returns (x: int)
      requires s != {}
      ensures x in s
    {
      assert (forall x :: x !in s) ==> s == {};
      x :| x in s;
    }
  }

  lemma RemovedAtOnce(c: Core, id: int)
    requires Distinct(c.order) && (forall k :: k in c.data <==> k in c.order) && id in c.data && c.depth == 0
    ensures Without(c, {id}) == Core(Erase(c.order, {id}), c.data - {id}, c.removed, 0,
              if c.owns then c.deleted + multiset{Deletion(id, c.data[id])} else c.deleted, c.owns)
    ensures Distinct(Erase(c.order, {id})) && forall k :: k in c.data - {id} <==> k in Erase(c.order, {id})
  {
    EraseKeepsDistinct(c.order, {id});
    assert Deletions(c.data, {id}) == {Deletion(id, c.data[id])};
  }

  // The last iterator is gone, and the removals that were put off are still to be done.
  ghost predicate Compactable(c: Core) {
    CoreOk(c.(depth := 1)) && c.depth == 0
  }

  lemma {:induction false} DeletionsSize(c: Core, dead: set<int>)
    requires Compactable(c) && dead <= c.removed
    ensures |Deletions(c.data, dead)| == |dead|
  {
    if k :| k in dead {
      DeletionsSize(c, dead - {k});
      assert Deletions(c.data, dead) == Deletions(c.data, dead - {k}) + {Deletion(k, c.data[k])};
    } else {
      assert forall k :: k !in dead;
      assert forall d :: d !in Deletions(c.data, dead);
    }
  }

  lemma CompactSize(c: Core)
    requires Compactable(c)
    ensures |AfterCompact(c).deleted| == |c.deleted| + if c.owns then |c.removed| else 0
  {
    DeletionsSize(c, c.removed);
  }

  lemma NothingWithout(c: Core)
    ensures Without(c, {}) == c
  {
    EraseNothing(c.order);
    assert Deletions(c.data, {}) == {};
  }

  lemma WithoutOneMore(c: Core, done: set<int>, id: int)
    requires Compactable(c) && id in c.removed && id !in done
    ensures AfterRemove(Without(c, done), id) == Without(c, done + {id})
  {
    EraseTwice(c.order, done, {id});
    DeletionsOfOneMore(c.data, done, id);
    assert c.data - done - {id} == c.data - (done + {id});
  }

  lemma DeletionsOfOneMore(data: map<int, int>, done: set<int>, id: int)
    requires id in data && id !in done
    ensures multiset(Deletions(data, done + {id}))
         == multiset(Deletions(data, done)) + multiset(Deletions(data - done, {id}))
  {
    assert Deletions(data, done + {id}) == Deletions(data, done) + Deletions(data - done, {id});
    DisjointUnion(Deletions(data, done), Deletions(data - done, {id}));
  }

  lemma DisjointUnion(a: set<Deletion>, b: set<Deletion>)
    requires a !! b
    ensures multiset(a + b) == multiset(a) + multiset(b)
  {
  }

  class Iterator {
    const map_: IDMap
    var pos: nat

    ghost predicate Valid()
      reads this, map_
    {
      map_.Valid() && pos <= |map_.order|
    }

    constructor (m: IDMap)
      requires m.Valid()
      modifies m`iterationDepth
      ensures map_ == m && Valid() && m.Abs() == old(m.Abs()).(depth := old(m.iterationDepth) + 1)
      ensures pos == Skip(m.Abs(), 0) && LandedFrom(0)
    {
      map_ := m;
      pos := 0;
      new;
      m.iterationDepth := m.iterationDepth + 1;
      SkipRemovedEntries();
    }

    // The destructor.
    method Destroy()
      requires Valid() && map_.iterationDepth > 0
      modifies map_
      ensures map_.Valid() && map_.Abs() == AfterEnd(old(map_.Abs()))
      ensures old(map_.deleted) <= map_.deleted
      ensures |map_.deleted| == |old(map_.deleted)|
                                + if map_.owns && map_.iterationDepth == 0 then |old(map_.removedIds)| else 0
    {
      map_.iterationDepth := map_.iterationDepth - 1;
      if map_.iterationDepth == 0 {
        map_.Compact();
      }
    }

    // The entries that the iterator has not passed, the one it stands on first.
    ghost function Ahead(): seq<int>
      requires Valid()
      reads this, map_
    {
      map_.order[pos..]
    }

    // Of the entries from here on it went past removed ones only, and stands on none.
    ghost predicate LandedFrom(start: nat)
      requires Valid()
      reads this, map_
    {
      && start <= pos && (forall i :: start <= i < pos ==> map_.order[i] in map_.removedIds)
      && (Ahead() != [] ==> Ahead()[0] !in map_.removedIds)
    }

    predicate IsAtEnd(): (end: bool)
      requires Valid()
      reads this, map_
      ensures end <==> Ahead() == []
    {
      pos == |map_.order|
    }

    function GetCurrentKey(): (key: int)
      requires Valid() && !IsAtEnd()
      reads this, map_
      ensures Ahead() == [key] + Ahead()[1..] && key in map_.data
    {
      map_.order[pos]
    }

    function GetCurrentValue(): (obj: int)
      requires Valid() && !IsAtEnd()
      reads this, map_
      ensures Get(map_.data, GetCurrentKey()) == Some(obj)
    {
      map_.data[GetCurrentKey()]
    }

    method Advance()
      requires Valid() && !IsAtEnd()
      modifies this
      ensures Valid() && pos == Skip(map_.Abs(), old(pos) + 1) && LandedFrom(old(pos) + 1)
    {
      pos := pos + 1;
      SkipRemovedEntries();
    }

    method SkipRemovedEntries()
      requires Valid()
      modifies this
      ensures Valid() && pos == Skip(map_.Abs(), old(pos)) && LandedFrom(old(pos))
    {
      while pos < |map_.order| && map_.order[pos] in map_.removedIds
        invariant pos <= |map_.order| && Skip(map_.Abs(), pos) == Skip(map_.Abs(), old(pos))
      {
        pos := pos + 1;
      }
    }
  }
}
