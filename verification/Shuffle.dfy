// base/file_descriptor_shuffle.cc: a parallel assignment of descriptors performed
// in place, one dup2 at a time.
//
// Arcs are processed in order; before a descriptor that a later arc still reads is
// overwritten, it is duplicated and the later arcs are rewritten to read the copy.
module Shuffle {
  import opened Wrappers
  import opened ShuffleRounds
  import opened ShuffleInvariants
  import opened ShuffleOutcomes
  import opened ShuffleChoices

  /** The InjectionDelegate interface over a descriptor table. Duplicate and Move may fail. */
  class Delegate {
    var table: Table
    var closes: seq<int>      // every descriptor passed to Close, in order
    var failures: nat         // how many operations failed
    var misses: nat           // how often Close was called for a descriptor that is not open

    constructor (table: Table)
      ensures this.table == table && closes == [] && failures == 0 && misses == 0
    {
      this.table := table;
      closes, failures, misses := [], 0, 0;
    }

    // The new descriptor is any one that is not open.
    method Duplicate(fd: int) returns (ok: bool, result: int)
      modifies this`table, this`failures
      ensures ok ==> failures == old(failures) && fd in old(table)
                     && 0 <= result && result !in old(table)
                     && table == old(table)[result := old(table)[fd]]
      ensures !ok ==> failures == old(failures) + 1 && table == old(table)
    {
      ok, result := *, -1;
      ok := ok && fd in table;
      if ok {
        FreshExists(table.Keys);
        result :| 0 <= result && result !in table.Keys;
        table := table[result := table[fd]];
      } else {
        failures := failures + 1;
      }
    }

    // dup2: the source stays open.
    method Move(src: int, dest: int) returns (ok: bool)
      modifies this`table, this`failures
      ensures ok ==> failures == old(failures) && src in old(table)
                     && table == old(table)[dest := old(table)[src]]
      ensures !ok ==> failures == old(failures) + 1 && table == old(table)
    {
      ok := *;
      ok := ok && src in table;
      if ok {
        table := table[dest := table[src]];
      } else {
        failures := failures + 1;
      }
    }

    method Close(fd: int)
      modifies this`table, this`closes, this`misses
      ensures table == old(table) - {fd} && closes == old(closes) + [fd]
      ensures misses == old(misses) + if fd in old(table) then 0 else 1
    {
      if fd !in table {
        misses := misses + 1;
      }
      table := table - {fd};
      closes := closes + [fd];
    }
  }

  // ----- What holds of every call, whatever is open -----

  // Descriptors the arcs do not ask to change.
  ghost predicate Bystander(arcs: seq<Arc>, t0: Table, fd: int) {
    fd in t0 && !IsDest(arcs, fd) && !MarkedClose(arcs, fd)
  }

  ghost predicate BystandersKept(arcs: seq<Arc>, t0: Table, table: Table) {
    forall fd :: Bystander(arcs, t0, fd) ==> Get(table, fd) == Get(t0, fd)
  }

  // Dests stay, and only descriptors that the arcs mark are marked.
  ghost predicate MarksKept(arcs: seq<Arc>, a: seq<Arc>) {
    |a| == |arcs| && forall k :: 0 <= k < |a| ==> MarkKeptAt(arcs, a, k)
  }

  ghost predicate MarkKeptAt(arcs: seq<Arc>, a: seq<Arc>, k: nat)
    requires k < |a| == |arcs|
  {
    a[k].dest == arcs[k].dest && (a[k].close ==> MarkedClose(arcs, a[k].source))
  }

  ghost predicate NoBystanders(arcs: seq<Arc>, t0: Table, temps: seq<int>) {
    forall t :: t in temps ==> !Bystander(arcs, t0, t)
  }

  // Everything that the outer loop keeps, whatever is open.
  ghost predicate Undisturbed(arcs: seq<Arc>, t0: Table, a: seq<Arc>, table: Table, temps: seq<int>) {
    MarksKept(arcs, a) && BystandersKept(arcs, t0, table) && NoBystanders(arcs, t0, Tracked(temps))
  }

  lemma DuplicateDisturbsNobody(arcs: seq<Arc>, t0: Table, d: int, table: Table, table': Table,
                                temps: seq<int>, temps': seq<int>, temp: int)
    requires BystandersKept(arcs, t0, table) && NoBystanders(arcs, t0, Tracked(temps))
    requires Duplicated(d, table, table', temps, temps', temp)
    ensures BystandersKept(arcs, t0, table') && NoBystanders(arcs, t0, Tracked(temps'))
  {
    if temp != -1 {
      assert Bystander(arcs, t0, temp) ==> Get(table, temp) == Get(t0, temp);
    }
  }

  lemma CarryingDisturbsNobody(arcs: seq<Arc>, t0: Table, a: seq<Arc>, table: Table, i: nat)
    requires MarksKept(arcs, a) && BystandersKept(arcs, t0, table) && i < |a|
    requires a[i].source in table || a[i].source == a[i].dest
    ensures BystandersKept(arcs, t0, Carried(table, a[i]))
  {
    assert MarkKeptAt(arcs, a, i);
    assert IsDest(arcs, a[i].dest);
  }

  // ----- The inner loop -----

  // Remembers a temporary for the final clean-up, or leaks it when there is no room.
  method Track(extraFds: array<int>, n: nat, temp: int, ghost temps: seq<int>) returns (n': nat)
    requires extraFds.Length == MAX_EXTRA_FDS
    requires n <= MAX_EXTRA_FDS && extraFds[..n] == Tracked(temps)
    modifies extraFds
    ensures n' <= MAX_EXTRA_FDS && extraFds[..n'] == Tracked(temps + [temp])
  {
    n' := n;
    if n < MAX_EXTRA_FDS {
      extraFds[n] := temp;
      n' := n + 1;
    }
  }

  // Duplicates the dest of the arc at i, unless that is done, and makes the arc at j read the copy.
  method Copy(m: array<Arc>, i: nat, j: nat, tempFd: int, delegate: Delegate, extraFds: array<int>, nextExtraFd: nat,
              ghost table: Table, ghost temps: seq<int>, ghost temps': seq<int>)
    returns (ok: bool, tempFd': int, nextExtraFd': nat, ghost temps'': seq<int>)
    requires i < j < m.Length && extraFds.Length == MAX_EXTRA_FDS
    requires nextExtraFd <= MAX_EXTRA_FDS && extraFds[..nextExtraFd] == Tracked(temps')
    requires Duplicated(m[i].dest, table, delegate.table, temps, temps', tempFd)
    modifies m, delegate`table, delegate`failures, extraFds
    ensures nextExtraFd' <= MAX_EXTRA_FDS && extraFds[..nextExtraFd'] == Tracked(temps'')
    ensures if ok then delegate.failures == old(delegate.failures) && tempFd' != -1 && (tempFd != -1
            ==> tempFd' == tempFd)
                       && m[..] == old(m[..])[j := Arc(tempFd', old(m[j].dest), false)]
            else delegate.failures == old(delegate.failures) + 1 && m[..] == old(m[..]) && tempFd == tempFd' == -1
    ensures Duplicated(old(m[i].dest), table, delegate.table, temps, temps'', tempFd')
  {
    ok, tempFd', nextExtraFd', temps'' := true, tempFd, nextExtraFd, temps';
    if tempFd == -1 {
      ok, tempFd' := delegate.Duplicate(m[i].dest);
      if !ok {
        tempFd' := -1;
        return;
      }
      nextExtraFd' := Track(extraFds, nextExtraFd, tempFd', temps');
      temps'' := temps' + [tempFd'];
    }
    m[j] := Arc(tempFd', m[j].dest, false);
  }

  // Hands the close duty of the arc at i on to the arc at j, or drops it.
  method HandOn(m: array<Arc>, i: nat, j: nat)
    requires i < j < m.Length
    modifies m
    ensures m[..] == HandedOn(old(m[..]), i, j)
  {
    if m[i].close && m[i].source == m[j].dest {
      m[i] := m[i].(close := false);
    }
    if m[i].close && m[i].source == m[j].source {
      m[i] := m[i].(close := false);
      m[j] := m[j].(close := true);
    }
  }

  lemma RelabelKeepsMarks(arcs: seq<Arc>, a: seq<Arc>, i: nat, j: nat, temp: int)
    requires MarksKept(arcs, a) && i < j < |a|
    ensures MarksKept(arcs, a[j := Relabel(a[i], a[j], temp, false)])
  {
    MarksWritten(arcs, a, a[j := Relabel(a[i], a[j], temp, false)], i, j);
  }

  lemma HandedOnKeepsMarks(arcs: seq<Arc>, a: seq<Arc>, i: nat, j: nat)
    requires MarksKept(arcs, a) && i < j < |a|
    ensures MarksKept(arcs, HandedOn(a, i, j))
    ensures HandedOn(a, i, j)[i].source == a[i].source && HandedOn(a, i, j)[i].dest == a[i].dest
  {
    MarksWritten(arcs, a, HandedOn(a, i, j), i, j);
  }

  lemma MarksWritten(arcs: seq<Arc>, a: seq<Arc>, a': seq<Arc>, i: nat, j: nat)
    requires MarksKept(arcs, a) && |a'| == |a| && i < j < |a|
    requires forall k :: 0 <= k < |a| && k != i && k != j ==> a'[k] == a[k]
    requires MarkKeptAt(arcs, a, i) && MarkKeptAt(arcs, a, j) ==> MarkKeptAt(arcs, a', i) && MarkKeptAt(arcs, a', j)
    ensures MarksKept(arcs, a')
  {
    assert MarkKeptAt(arcs, a, i) && MarkKeptAt(arcs, a, j);
    forall k | 0 <= k < |a'|
      ensures MarkKeptAt(arcs, a', k)
    {
      assert MarkKeptAt(arcs, a, k);
    }
  }

  // One pass of the inner loop.
  lemma ScanStep(arcs: seq<Arc>, b: seq<Arc>, a: seq<Arc>, i: nat, j: nat, temp: int, temp': int, hit: int, open: bool)
    returns (hit': int)
    requires MarksKept(arcs, a) && i < j < |a| && (temp != -1 ==> temp' == temp)
    requires open ==> InnerOk(b, a, i, j, temp, hit) && (temp != -1 <==> Matched(b, i, j))
    requires if a[i].source != a[i].dest && a[j].source == a[i].dest then temp' != -1 else temp' == temp
    requires open && temp' != -1 ==> temp' != a[i].source
    ensures var a' := HandedOn(a[j := Relabel(a[i], a[j], temp', false)], i, j);
            && MarksKept(arcs, a') && a'[i].source == a[i].source && a'[i].dest == a[i].dest
            && (open ==> InnerOk(b, a', i, j + 1, temp', hit') && (temp' != -1 <==> Matched(b, i, j + 1)))
  {
    hit' := hit;
    if open {
      ghost var _, hit'' := InnerStep(b, a, i, j, temp, temp', hit);
      hit' := hit'';
    }
    RelabelKeepsMarks(arcs, a, i, j, temp');
    HandedOnKeepsMarks(arcs, a[j := Relabel(a[i], a[j], temp', false)], i, j);
  }

  /** The inner loop for the arc at index i: duplicate its dest if a later arc reads it,
      relabel those arcs, and hand the arc's close duty on. (Were the arc's own source not
      open, the duplicate might take its place; then only the marks are known.) */
  method Scan(m: array<Arc>, i: nat, delegate: Delegate, extraFds: array<int>, nextExtraFd: nat,
              ghost arcs: seq<Arc>, ghost temps: seq<int>)
    returns (ok: bool, nextExtraFd': nat, ghost temps': seq<int>, ghost temp: int, ghost hit: int)
    requires i < m.Length && MarksKept(arcs, m[..])
    requires extraFds.Length == MAX_EXTRA_FDS
    requires nextExtraFd <= MAX_EXTRA_FDS && extraFds[..nextExtraFd] == Tracked(temps)
    modifies m, delegate`table, delegate`failures, extraFds
    ensures MarksKept(arcs, m[..]) && m[i].source == old(m[i].source)
    ensures ok ==> delegate.failures == old(delegate.failures)
                   && Duplicated(m[i].dest, old(delegate.table), delegate.table, temps, temps', temp)
    ensures ok && old(m[i].source in delegate.table) ==>
              InnerOk(old(m[..]), m[..], i, m.Length, temp, hit) && (temp != -1 <==> Matched(old(m[..]), i, m.Length))
    ensures nextExtraFd' <= MAX_EXTRA_FDS && extraFds[..nextExtraFd'] == Tracked(temps')
    ensures !ok ==> delegate.failures == old(delegate.failures) + 1
                    && delegate.table == old(delegate.table) && temps' == temps
  {
    ghost var b, table := m[..], delegate.table;
    ghost var open := m[i].source in delegate.table;
    var tempFd := -1;
    ok, nextExtraFd', temps', temp, hit := true, nextExtraFd, temps, -1, -1;
    var isIdentity := m[i].source == m[i].dest;
    for j := i + 1 to m.Length
      invariant MarksKept(arcs, m[..]) && m[i].source == b[i].source && m[i].dest == b[i].dest
      invariant open ==> InnerOk(b, m[..], i, j, tempFd, hit) && (tempFd != -1 <==> Matched(b, i, j))
      invariant Duplicated(b[i].dest, table, delegate.table, temps, temps', tempFd)
      invariant nextExtraFd' <= MAX_EXTRA_FDS && extraFds[..nextExtraFd'] == Tracked(temps')
      invariant delegate.failures == old(delegate.failures) && ok
    {
      ghost var a, temp0 := m[..], tempFd;
      if !isIdentity && m[i].dest == m[j].source {
        ok, tempFd, nextExtraFd', temps' :=
          Copy(m, i, j, tempFd, delegate, extraFds, nextExtraFd', table, temps, temps');
        if !ok {
          return;
        }
      }
      assert m[..] == a[j := Relabel(a[i], a[j], tempFd, false)];
      hit := ScanStep(arcs, b, a, i, j, temp0, tempFd, hit, open);
      HandOn(m, i, j);
    }
    temp := tempFd;
  }

  // ----- The outer loop -----

  // What is known of the outer loop at index i when all sources are open at the start.
  ghost predicate RunReaches(arcs: seq<Arc>, t0: Table, rounds: seq<Round>, i: nat, s: Stage) {
    IsRun(arcs, t0, rounds) && |rounds| == i && End(arcs, t0, rounds) == s
  }

  lemma SourceIsOpen(arcs: seq<Arc>, t0: Table, rounds: seq<Round>, i: nat, s: Stage)
    requires AllSourcesOpen(arcs, t0) && RunReaches(arcs, t0, rounds, i, s) && i < |arcs|
    ensures i < |s.a| && s.a[i].source in s.table
  {
    RunKeepsReads(arcs, t0, rounds);
    assert ReadsAt(arcs, t0, s.a, s.table, i);
  }

  // Of the arc at index i at most its duplicate has been made.
  ghost predicate Begun(arcs: seq<Arc>, i: nat, table: Table, table': Table)
    requires i < |arcs|
  {
    exists temps: seq<int>, temp: int :: Duplicated(arcs[i].dest, table, table', [], temps, temp)
  }

  lemma BeginsArc(arcs: seq<Arc>, i: nat, a: seq<Arc>, table: Table, table': Table,
                  temps: seq<int>, temps': seq<int>, temp: int)
    requires MarksKept(arcs, a) && i < |arcs| && Duplicated(a[i].dest, table, table', temps, temps', temp)
    ensures Begun(arcs, i, table, table')
  {
    assert MarkKeptAt(arcs, a, i);
    assert Duplicated(arcs[i].dest, table, table', [], if temp == -1 then [] else [temp], temp);
  }

  // Where a call stops at a failed operation: the rounds before it are complete.
  ghost predicate Interrupted(arcs: seq<Arc>, t0: Table, rounds: seq<Round>, table: Table, closes: seq<int>) {
    && IsRun(arcs, t0, rounds) && |rounds| < |arcs| && closes == End(arcs, t0, rounds).closed
    && Begun(arcs, |rounds|, End(arcs, t0, rounds).table, table)
  }

  /** The body of the outer loop for the arc at index i. */
  method CarryOut(m: array<Arc>, i: nat, delegate: Delegate, extraFds: array<int>, nextExtraFd: nat,
                  ghost arcs: seq<Arc>, ghost t0: Table, ghost rounds: seq<Round>,
                  ghost temps: seq<int>, ghost closed: seq<int>)
    returns (ok: bool, nextExtraFd': nat, ghost rounds': seq<Round>, ghost temps': seq<int>, ghost closed': seq<int>)
    requires i < m.Length && extraFds.Length == MAX_EXTRA_FDS && nextExtraFd <= MAX_EXTRA_FDS
    requires Undisturbed(arcs, t0, m[..], delegate.table, temps) && extraFds[..nextExtraFd] == Tracked(temps)
    requires AllSourcesOpen(arcs, t0) ==> RunReaches(arcs, t0, rounds, i, Stage(m[..], delegate.table, temps, closed))
    modifies m, delegate, extraFds
    ensures BystandersKept(arcs, t0, delegate.table)
    // A failed operation is the last one.
    ensures !ok ==> delegate.failures == old(delegate.failures) + 1 && delegate.closes == old(delegate.closes)
                    && rounds' == rounds && closed' == closed
                    && Begun(arcs, i, old(delegate.table), delegate.table)
    ensures ok ==> delegate.failures == old(delegate.failures) && delegate.misses == old(delegate.misses)
                   && closed <= closed' && delegate.closes == old(delegate.closes) + closed'[|closed|..]
    ensures ok ==> nextExtraFd' <= MAX_EXTRA_FDS && extraFds[..nextExtraFd'] == Tracked(temps')
                   && Undisturbed(arcs, t0, m[..], delegate.table, temps')
    ensures ok && AllSourcesOpen(arcs, t0) ==>
              RunReaches(arcs, t0, rounds', i + 1, Stage(m[..], delegate.table, temps', closed'))
  {
    ghost var b, table := m[..], delegate.table;
    ghost var temp, hit;
    rounds', closed' := rounds, closed;
    if AllSourcesOpen(arcs, t0) {
      SourceIsOpen(arcs, t0, rounds, i, Stage(b, table, temps, closed));
    }
    ok, nextExtraFd', temps', temp, hit := Scan(m, i, delegate, extraFds, nextExtraFd, arcs, temps);
    if !ok {
      BeginsArc(arcs, i, b, table, table, temps, temps, -1);
      return;
    }
    ghost var table', a := delegate.table, m[..];
    DuplicateDisturbsNobody(arcs, t0, a[i].dest, table, table', temps, temps', temp);
    BeginsArc(arcs, i, a, table, table', temps, temps', temp);
    if m[i].source != m[i].dest {
      ok := delegate.Move(m[i].source, m[i].dest);
      if !ok {
        return;
      }
    }
    CarryingDisturbsNobody(arcs, t0, a, table', i);
    if m[i].source != m[i].dest && m[i].close {
      delegate.Close(m[i].source);
      closed' := closed + [m[i].source];
    }
    assert delegate.table == Carried(table', a[i]);
    if AllSourcesOpen(arcs, t0) {
      ghost var r := Round(arcs, t0, i, b, table, temps, closed, a, table', temps', temp, hit);
      RunGrows(arcs, t0, rounds, r);
      rounds' := rounds + [r];
    }
  }

  // The final clean-up loop.
  method CloseExtras(delegate: Delegate, extraFds: array<int>, n: nat)
    requires n <= extraFds.Length
    modifies delegate`table, delegate`closes, delegate`misses
    ensures delegate.closes == old(delegate.closes) + extraFds[..n]
    ensures forall fd :: Get(delegate.table, fd) == if fd in extraFds[..n] then None else Get(old(delegate.table), fd)
    ensures Distinct(extraFds[..n]) && (forall t :: t in extraFds[..n] ==> t in old(delegate.table)) ==>
              delegate.misses == old(delegate.misses)
  {
    ghost var good := Distinct(extraFds[..n]) && forall t :: t in extraFds[..n] ==> t in delegate.table;
    for i := 0 to n
      invariant delegate.closes == old(delegate.closes) + extraFds[..i]
      invariant forall fd :: Get(delegate.table, fd) == if fd in extraFds[..i] then None
                else Get(old(delegate.table), fd)
      invariant good ==> delegate.misses == old(delegate.misses)
    {
      assert extraFds[i] in extraFds[..n] && extraFds[..n][i] == extraFds[i];
      assert good ==> extraFds[i] !in extraFds[..i];
      assert Get(delegate.table, extraFds[i]) == if extraFds[i] in extraFds[..i] then None
             else Get(old(delegate.table), extraFds[i]);
      assert extraFds[..i+1] == extraFds[..i] + [extraFds[i]];
      delegate.Close(extraFds[i]);
    }
  }

  // What a successful call leaves when all sources were open: the end of a whole run.
  ghost predicate Completed(arcs: seq<Arc>, t0: Table, rounds: seq<Round>, table: Table, closes: seq<int>) {
    && IsWholeRun(arcs, t0, rounds) && table == FinalTable(arcs, t0, rounds)
    && closes == End(arcs, t0, rounds).closed + Tracked(End(arcs, t0, rounds).temps)
  }

  // The outer loop.
  method CarryOutAll(m: array<Arc>, delegate: Delegate, extraFds: array<int>)
    returns (ok: bool, nextExtraFd: nat, ghost rounds: seq<Round>, ghost temps: seq<int>, ghost closed: seq<int>)
    requires extraFds.Length == MAX_EXTRA_FDS
    modifies m, delegate, extraFds
    ensures BystandersKept(old(m[..]), old(delegate.table), delegate.table)
    ensures if ok then delegate.failures == old(delegate.failures) && delegate.misses == old(delegate.misses)
            else delegate.failures == old(delegate.failures) + 1 && delegate.closes == old(delegate.closes) + closed
    ensures ok ==> nextExtraFd <= MAX_EXTRA_FDS && extraFds[..nextExtraFd] == Tracked(temps)
                   && NoBystanders(old(m[..]), old(delegate.table), Tracked(temps))
                   && delegate.closes == old(delegate.closes) + closed
    ensures ok && AllSourcesOpen(old(m[..]), old(delegate.table)) ==>
              RunReaches(old(m[..]), old(delegate.table), rounds, m.Length, Stage(m[..], delegate.table, temps, closed))
    ensures !ok && AllSourcesOpen(old(m[..]), old(delegate.table)) ==>
              Interrupted(old(m[..]), old(delegate.table), rounds, delegate.table, closed)
  {
    ghost var arcs, t0, closes0 := m[..], delegate.table, delegate.closes;
    ok, nextExtraFd, rounds, temps, closed := true, 0, [], [], [];
    assert forall k :: 0 <= k < |arcs| ==> MarkKeptAt(arcs, arcs, k);
    for i := 0 to m.Length
      invariant ok && nextExtraFd <= MAX_EXTRA_FDS && extraFds[..nextExtraFd] == Tracked(temps)
      invariant Undisturbed(arcs, t0, m[..], delegate.table, temps)
      invariant AllSourcesOpen(arcs, t0)
                ==> RunReaches(arcs, t0, rounds, i, Stage(m[..], delegate.table, temps, closed))
      invariant delegate.closes == closes0 + closed
      invariant delegate.failures == old(delegate.failures) && delegate.misses == old(delegate.misses)
    {
      ghost var before := closed;
      ok, nextExtraFd, rounds, temps, closed :=
        CarryOut(m, i, delegate, extraFds, nextExtraFd, arcs, t0, rounds, temps, closed);
      if !ok {
        return;
      }
      assert closed == before + closed[|before|..];
    }
  }

  lemma RunCompleted(arcs: seq<Arc>, t0: Table, rounds: seq<Round>, s: Stage, table: Table, closes0: seq<int>,
                     closes: seq<int>)
    requires AllSourcesOpen(arcs, t0) && RunReaches(arcs, t0, rounds, |arcs|, s)
    requires forall fd :: Get(table, fd) == if fd in Tracked(s.temps) then None else Get(s.table, fd)
    requires closes == closes0 + s.closed + Tracked(s.temps)
    ensures closes0 <= closes && Completed(arcs, t0, rounds, table, closes[|closes0|..])
  {
    SameTable(table, CleanedUp(s.table, s.temps));
    assert closes == closes0 + (s.closed + Tracked(s.temps));
  }

  lemma TrackedOpen(arcs: seq<Arc>, t0: Table, rounds: seq<Round>, i: nat, s: Stage)
    requires AllSourcesOpen(arcs, t0) && RunReaches(arcs, t0, rounds, i, s)
    ensures Distinct(Tracked(s.temps)) && forall t :: t in Tracked(s.temps) ==> t in s.table
  {
    RunKeepsTemps(arcs, t0, rounds);
  }

  method PerformInjectiveMultimapDestructive(m: array<Arc>, delegate: Delegate)
    returns (ok: bool, ghost rounds: seq<Round>)
    requires DistinctDests(m[..])
    modifies m, delegate
    ensures ok <==> delegate.failures == old(delegate.failures)
    ensures ok && AllSourcesOpen(old(m[..]), old(delegate.table)) ==>
              && old(delegate.closes) <= delegate.closes
              && Completed(old(m[..]), old(delegate.table), rounds, delegate.table,
                  delegate.closes[|old(delegate.closes)|..])
              && delegate.misses == old(delegate.misses)
    // The first operation to fail is the last one.
    ensures !ok ==> delegate.failures == old(delegate.failures) + 1 && old(delegate.closes) <= delegate.closes
    ensures !ok && AllSourcesOpen(old(m[..]), old(delegate.table)) ==>
              Interrupted(old(m[..]), old(delegate.table), rounds, delegate.table,
                  delegate.closes[|old(delegate.closes)|..])
    // Even on failure nothing else is disturbed.
    ensures BystandersKept(old(m[..]), old(delegate.table), delegate.table)
  {
    ghost var arcs, t0, closes0 := m[..], delegate.table, delegate.closes;
    ghost var temps, closed;
    var extraFds := new int[MAX_EXTRA_FDS];
    var nextExtraFd;
    ok, nextExtraFd, rounds, temps, closed := CarryOutAll(m, delegate, extraFds);
    if !ok {
      return;
    }
    ghost var s := Stage(m[..], delegate.table, temps, closed);
    if AllSourcesOpen(arcs, t0) {
      TrackedOpen(arcs, t0, rounds, |arcs|, s);
    }
    CloseExtras(delegate, extraFds, nextExtraFd);
    if AllSourcesOpen(arcs, t0) {
      RunCompleted(arcs, t0, rounds, s, delegate.table, closes0, delegate.closes);
    }
  }

  lemma SameTable(a: Table, b: Table)
    requires forall fd :: Get(a, fd) == Get(b, fd)
    ensures a == b
  {
    forall fd
      ensures fd in a <==> fd in b
      ensures fd in a ==> a[fd] == b[fd]
    {
      assert Get(a, fd) == Get(b, fd);
    }
  }

  // What the caller of a successful shuffle gets.
  ghost predicate Shuffled(arcs: seq<Arc>, t0: Table, table: Table) {
    && Assigned(arcs, t0, table)
    && (Duplicates(arcs, |arcs|) <= 16 ==> forall fd :: fd in table <==> ShouldBeOpen(arcs, t0, fd))
  }

  lemma CompletedMeans(arcs: seq<Arc>, t0: Table, rounds: seq<Round>, table: Table, closes: seq<int>)
    requires DistinctDests(arcs) && AllSourcesOpen(arcs, t0) && Completed(arcs, t0, rounds, table, closes)
    ensures !ClosesADest(arcs) && !MayCloseATemp(arcs, t0) ==> Shuffled(arcs, t0, table)
  {
    AlwaysAssignsIff(arcs, t0);
    if !ClosesADest(arcs) && !MayCloseATemp(arcs, t0) && Duplicates(arcs, |arcs|) <= 16 {
      AlwaysConserves(arcs, t0, rounds);
    }
  }

  // The first n arcs are carried out.
  ghost predicate AssignedBefore(arcs: seq<Arc>, t0: Table, table: Table, n: nat) {
    forall k :: 0 <= k < n <= |arcs| ==> Get(table, arcs[k].dest) == Get(t0, arcs[k].source)
  }

  // What the others are to read is not lost.
  ghost predicate SourcesKept(arcs: seq<Arc>, t0: Table, table: Table, n: nat)
    requires AllSourcesOpen(arcs, t0)
  {
    forall k :: n <= k < |arcs| ==> exists fd :: Get(table, fd) == Get(t0, arcs[k].source)
  }

  /** After a failure the arcs before the one at which it stopped are carried out, and the
      objects for all others are still open. */
  lemma InterruptedMeans(arcs: seq<Arc>, t0: Table, rounds: seq<Round>, table: Table, closes: seq<int>)
    requires DistinctDests(arcs) && AllSourcesOpen(arcs, t0) && !ClosesADest(arcs)
    requires Interrupted(arcs, t0, rounds, table, closes)
    ensures AssignedBefore(arcs, t0, table, |rounds|) && SourcesKept(arcs, t0, table, |rounds|)
  {
    var s := End(arcs, t0, rounds);
    RunCarriesOut(arcs, t0, rounds);
    forall k | 0 <= k < |rounds|
      ensures Get(table, arcs[k].dest) == Get(t0, arcs[k].source)
    {
      assert KeptAt(arcs, t0, s.table, k);
      assert arcs[k].source in t0;
    }
    RunKeepsReads(arcs, t0, rounds);
    forall k | |rounds| <= k < |arcs|
      ensures exists fd :: Get(table, fd) == Get(t0, arcs[k].source)
    {
      assert ReadsAt(arcs, t0, s.a, s.table, k);
      assert Get(table, s.a[k].source) == Get(t0, arcs[k].source);
    }
  }

  method PerformInjectiveMultimap(mIn: seq<Arc>, delegate: Delegate) returns (ok: bool, ghost rounds: seq<Round>)
    requires DistinctDests(mIn)
    modifies delegate
    ensures ok <==> delegate.failures == old(delegate.failures)
    ensures ok && AllSourcesOpen(mIn, old(delegate.table)) ==>
              && old(delegate.closes) <= delegate.closes
              && Completed(mIn, old(delegate.table), rounds, delegate.table, delegate.closes[|old(delegate.closes)|..])
              && delegate.misses == old(delegate.misses)
    ensures ok && AllSourcesOpen(mIn, old(delegate.table))
            && !ClosesADest(mIn) && !MayCloseATemp(mIn, old(delegate.table)) ==>
              Shuffled(mIn, old(delegate.table), delegate.table)
    ensures !ok ==> delegate.failures == old(delegate.failures) + 1 && old(delegate.closes) <= delegate.closes
    ensures !ok && AllSourcesOpen(mIn, old(delegate.table)) ==>
              && Interrupted(mIn, old(delegate.table), rounds, delegate.table,
                  delegate.closes[|old(delegate.closes)|..])
              && (!ClosesADest(mIn) ==>
                    && AssignedBefore(mIn, old(delegate.table), delegate.table, |rounds|)
                    && SourcesKept(mIn, old(delegate.table), delegate.table, |rounds|))
    ensures BystandersKept(mIn, old(delegate.table), delegate.table)
  {
    var m := new Arc[|mIn|](k requires 0 <= k < |mIn| => mIn[k]);
    assert m[..] == mIn;
    ok, rounds := PerformInjectiveMultimapDestructive(m, delegate);
    if ok && AllSourcesOpen(mIn, old(delegate.table)) {
      CompletedMeans(mIn, old(delegate.table), rounds, delegate.table, delegate.closes[|old(delegate.closes)|..]);
    }
    if !ok && AllSourcesOpen(mIn, old(delegate.table)) && !ClosesADest(mIn) {
      InterruptedMeans(mIn, old(delegate.table), rounds, delegate.table, delegate.closes[|old(delegate.closes)|..]);
    }
  }
}
