// base/file_descriptor_shuffle.cc: the shuffle over a delegate that may hand out any
// descriptor that is not open, a dest of the arcs included.
module ShuffleChoices {
  import opened Wrappers
  import opened ShuffleRounds
  import opened ShuffleInvariants
  import opened ShuffleOutcomes

  // ----- An invariant that does not care which descriptors are handed out -----

  // The dest of the arc at m, carried out, holds the object it should.
  ghost predicate KeptAt(arcs: seq<Arc>, t0: Table, table: Table, m: nat)
    requires m < |arcs|
  {
    Get(table, arcs[m].dest) == Get(t0, arcs[m].source)
  }

  // The arc at k will not close the dest of the arc at m.
  ghost predicate Spares(arcs: seq<Arc>, a: seq<Arc>, k: nat, m: nat)
    requires k < |a| && m < |arcs|
  {
    a[k].close ==> a[k].source != arcs[m].dest
  }

  // Whoever reads what the arc at k will close, read it from the beginning.
  ghost predicate OwnSource(arcs: seq<Arc>, a: seq<Arc>, k: nat, l: nat)
    requires k < |a| && l < |a| == |arcs|
  {
    a[k].close && a[l].source == a[k].source ==> arcs[l].source == a[l].source
  }

  // A close duty at k comes from an arc q, and no arc since has the source as its dest.
  ghost predicate ComesFrom(arcs: seq<Arc>, source: int, k: nat, q: nat)
    requires k < |arcs|
  {
    q <= k && arcs[q].close && arcs[q].source == source && forall n :: q < n <= k ==> arcs[n].dest != source
  }

  ghost predicate MarkFrom(arcs: seq<Arc>, a: seq<Arc>, k: nat)
    requires k < |a| == |arcs|
  {
    a[k].close ==> exists q: nat :: ComesFrom(arcs, a[k].source, k, q)
  }

  ghost predicate MarksOk(arcs: seq<Arc>, i: nat, a: seq<Arc>) {
    && i <= |arcs| == |a|
    && (forall k: nat, m: nat :: i <= k < |a| && m < i ==> Spares(arcs, a, k, m))
    && (forall k: nat, l: nat :: i <= k < |a| && i <= l < |a| ==> OwnSource(arcs, a, k, l))
    && (forall k: nat :: i <= k < |a| ==> MarkFrom(arcs, a, k))
  }

  ghost predicate RoundBase(r: Round) {
    && r.Legal() && DistinctDests(r.arcs) && AllSourcesOpen(r.arcs, r.t0)
    && ReadsOk(r.arcs, r.t0, r.i, Stage(r.b, r.table, r.temps, r.closed)) && MarksOk(r.arcs, r.i, r.b)
  }

  ghost predicate RoundStart(r: Round) {
    RoundBase(r) && !ClosesADest(r.arcs)
  }

  // Where a close mark after the inner loop comes from.
  lemma MarkAfter(r: Round, k: nat)
    requires RoundBase(r) && r.i < k < |r.b| && r.a[k].close
    ensures r.a[k].source == r.b[k].source && r.a[k].source in r.table
    ensures r.b[r.i].source != r.b[r.i].dest ==> r.a[k].source != r.b[r.i].dest
    ensures r.b[k].close || (r.b[r.i].close && r.b[k].source == r.b[r.i].source && k == r.hit
            && r.b[k].dest != r.b[r.i].source)
  {
    assert LaterAt(r.b, r.a, r.i, r.temp, r.hit, k) && ReadsAt(r.arcs, r.t0, r.b, r.table, k);
  }

  // The source of a later arc after the inner loop, if it was open before.
  lemma SourceAfter(r: Round, l: nat)
    requires RoundBase(r) && r.i < l < |r.b| && r.a[l].source in r.table
    ensures r.a[l].source == r.b[l].source
  {
    assert LaterAt(r.b, r.a, r.i, r.temp, r.hit, l);
    MatchedMeans(r.b, r.i, |r.b|);
  }

  lemma OwnSourceStep(r: Round, k: nat, l: nat)
    requires RoundStart(r) && r.i < k < |r.b| && r.i < l < |r.b|
    ensures OwnSource(r.arcs, r.a, k, l)
  {
    if r.a[k].close && r.a[l].source == r.a[k].source {
      MarkAfter(r, k);
      SourceAfter(r, l);
      assert OwnSource(r.arcs, r.b, k, l) && OwnSource(r.arcs, r.b, r.i, l);
    }
  }

  lemma MarkFromStep(r: Round, k: nat)
    requires RoundStart(r) && r.i < k < |r.b|
    ensures MarkFrom(r.arcs, r.a, k)
  {
    if r.a[k].close {
      MarkAfter(r, k);
      if r.b[k].close {
        assert MarkFrom(r.arcs, r.b, k);
      } else {
        var s := r.b[r.i].source;
        assert MarkFrom(r.arcs, r.b, r.i);
        var q: nat :| ComesFrom(r.arcs, s, r.i, q);
        forall n | q < n <= k
          ensures r.arcs[n].dest != s
        {
          if n > r.i {
            assert LaterAt(r.b, r.a, r.i, r.temp, r.hit, n) && ReadsAt(r.arcs, r.t0, r.b, r.table, n);
          }
        }
        assert ComesFrom(r.arcs, s, k, q);
      }
    }
  }

  lemma SparesStep(r: Round, k: nat, m: nat)
    requires RoundStart(r) && r.i < k < |r.b| && m <= r.i
    ensures Spares(r.arcs, r.a, k, m)
  {
    if r.a[k].close {
      MarkAfter(r, k);
      assert ReadsAt(r.arcs, r.t0, r.b, r.table, r.i);
      if m < r.i {
        assert Spares(r.arcs, r.b, k, m) && Spares(r.arcs, r.b, r.i, m);
      } else if r.b[r.i].source == r.b[r.i].dest == r.a[k].source {
        MarkOnIdentity(r, k);
      }
    }
  }

  // A close duty on an identity arc's dest behind it is what the arcs ask for.
  lemma MarkOnIdentity(r: Round, k: nat)
    requires RoundBase(r) && r.i < k < |r.b| && r.a[k].close && r.b[r.i].source == r.b[r.i].dest
    requires r.a[k].source == r.b[r.i].dest
    ensures ClosesADest(r.arcs)
  {
    var s := r.b[r.i].source;
    MarkAfter(r, k);
    assert ReadsAt(r.arcs, r.t0, r.b, r.table, r.i);
    assert OwnSource(r.arcs, r.b, k, r.i) && OwnSource(r.arcs, r.b, k, k);
    assert OwnSource(r.arcs, r.b, r.i, r.i) && OwnSource(r.arcs, r.b, r.i, k);
    assert r.arcs[r.i].source == s && r.arcs[k].source == s;
    assert MarkFrom(r.arcs, r.b, k) && MarkFrom(r.arcs, r.b, r.i);
    var p := if r.b[k].close then k else r.i;
    var q: nat :| ComesFrom(r.arcs, s, p, q);
    assert q >= r.i;
  }

  lemma RoundKeepsMarks(r: Round)
    requires RoundStart(r)
    ensures MarksOk(r.arcs, r.i + 1, r.a)
  {
    forall k: nat, m: nat | r.i + 1 <= k < |r.a| && m < r.i + 1
      ensures Spares(r.arcs, r.a, k, m)
    {
      SparesStep(r, k, m);
    }
    forall k: nat, l: nat | r.i + 1 <= k < |r.a| && r.i + 1 <= l < |r.a|
      ensures OwnSource(r.arcs, r.a, k, l)
    {
      OwnSourceStep(r, k, l);
    }
    forall k: nat | r.i + 1 <= k < |r.a|
      ensures MarkFrom(r.arcs, r.a, k)
    {
      MarkFromStep(r, k);
    }
  }

  lemma RoundKeepsDests(r: Round, m: nat)
    requires RoundStart(r) && m <= r.i && (m < r.i ==> KeptAt(r.arcs, r.t0, r.table, m))
    ensures KeptAt(r.arcs, r.t0, r.Result(), m)
  {
    assert ReadsAt(r.arcs, r.t0, r.b, r.table, r.i);
    if m < r.i {
      assert Spares(r.arcs, r.b, r.i, m);
      assert r.arcs[m].dest != r.arcs[r.i].dest;
    }
  }

  ghost predicate CarriedOut(arcs: seq<Arc>, t0: Table, i: nat, s: Stage) {
    i <= |arcs| && MarksOk(arcs, i, s.a) && forall m: nat :: m < i ==> KeptAt(arcs, t0, s.table, m)
  }

  lemma {:induction false} RunCarriesOut(arcs: seq<Arc>, t0: Table, rounds: seq<Round>)
    requires DistinctDests(arcs) && AllSourcesOpen(arcs, t0) && !ClosesADest(arcs) && IsRun(arcs, t0, rounds)
    ensures CarriedOut(arcs, t0, |rounds|, End(arcs, t0, rounds))
  {
    if rounds == [] {
      forall k: nat | k < |arcs|
        ensures MarkFrom(arcs, arcs, k)
      {
        assert arcs[k].close ==> ComesFrom(arcs, arcs[k].source, k, k);
      }
    } else {
      var n := |rounds| - 1;
      RunBefore(arcs, t0, rounds, n);
      RunCarriesOut(arcs, t0, rounds[..n]);
      RunKeepsReads(arcs, t0, rounds[..n]);
      var r := rounds[n];
      RoundKeepsMarks(r);
      forall m: nat | m < |rounds|
        ensures KeptAt(arcs, t0, r.Result(), m)
      {
        assert m < n ==> KeptAt(arcs, t0, r.table, m);
        RoundKeepsDests(r, m);
      }
      assert rounds[..n+1] == rounds;
    }
  }

  /** A whole run performs the assignment exactly when the clean-up closes no dest. */
  lemma RunAssignsIff(arcs: seq<Arc>, t0: Table, rounds: seq<Round>)
    requires DistinctDests(arcs) && AllSourcesOpen(arcs, t0) && !ClosesADest(arcs) && IsWholeRun(arcs, t0, rounds)
    ensures Assigned(arcs, t0, FinalTable(arcs, t0, rounds)) <==>
            NoDests(arcs, Tracked(End(arcs, t0, rounds).temps))
  {
    var s, table' := End(arcs, t0, rounds), FinalTable(arcs, t0, rounds);
    RunCarriesOut(arcs, t0, rounds);
    if t :| t in Tracked(s.temps) && IsDest(arcs, t) {
      var k :| 0 <= k < |arcs| && arcs[k].dest == t;
      assert Get(table', arcs[k].dest) == None;
    } else {
      forall k | 0 <= k < |arcs|
        ensures Get(table', arcs[k].dest) == Get(t0, arcs[k].source)
      {
        assert KeptAt(arcs, t0, s.table, k) && IsDest(arcs, arcs[k].dest);
      }
    }
  }

  // ----- When no choice of descriptors can do harm -----

  // The arc at i needs a duplicate, and there is room to remember it for the clean-up.
  ghost predicate TracksDuplicate(arcs: seq<Arc>, i: nat)
    requires i < |arcs|
  {
    && arcs[i].source != arcs[i].dest && Used(arcs, i + 1, arcs[i].dest)
    && Duplicates(arcs, i) < 16
  }

  // A later dest that is not open can be handed out then.
  ghost predicate MayHandOut(arcs: seq<Arc>, t0: Table, i: nat, k: nat)
    requires i < |arcs| && k < |arcs|
  {
    i < k && TracksDuplicate(arcs, i) && 0 <= arcs[k].dest && arcs[k].dest !in t0
  }

  ghost predicate MayCloseATemp(arcs: seq<Arc>, t0: Table) {
    exists i: nat, k: nat :: i < |arcs| && k < |arcs| && MayHandOut(arcs, t0, i, k)
  }

  // The stage at which the arc at i is carried out, in a run that is clean so far.
  lemma DestNotHandedOut(r: Round, k: nat)
    requires RoundStart(r) && StageOk(r.arcs, r.t0, r.i, Stage(r.b, r.table, r.temps, r.closed))
    requires forall m: nat :: m < r.i ==> KeptAt(r.arcs, r.t0, r.table, m)
    requires !MayCloseATemp(r.arcs, r.t0) && |r.temps| < MAX_EXTRA_FDS && r.temp != -1 && k < |r.arcs|
    ensures r.arcs[k].dest != r.temp
  {
    var d := r.arcs[k].dest;
    MatchedIffUsed(r);
    assert TracksDuplicate(r.arcs, r.i);
    assert !MayHandOut(r.arcs, r.t0, r.i, k);
    if k < r.i {
      assert KeptAt(r.arcs, r.t0, r.table, k);
    } else if k > r.i && d in r.t0 {
      StillOpen(r, k);
    } else if k == r.i {
      assert ReadsAt(r.arcs, r.t0, r.b, r.table, r.i);
    }
  }

  // A dest that was open at the start is open until it is overwritten.
  lemma StillOpen(r: Round, k: nat)
    requires Ready(r.arcs, r.t0, r.i, r.b, r.table, r.temps) && r.i <= k < |r.arcs|
    requires !ClosesADest(r.arcs) && r.arcs[k].dest in r.t0
    ensures r.arcs[k].dest in r.table
  {
    var d := r.arcs[k].dest;
    assert IsDest(r.arcs, d);
    NotTemp(r, d);
    assert ContentAt(r.arcs, r.t0, r.i, r.table, d);
    if ClosedBy(r.arcs, r.i, d) {
      DestStaysOpen(r.arcs, r.i, d);
    }
  }

  ghost predicate TrackedClean(arcs: seq<Arc>, temps: seq<int>) {
    NoDests(arcs, Tracked(temps)) && (|temps| <= MAX_EXTRA_FDS ==> NoDests(arcs, temps))
  }

  lemma {:induction false} TrackedNeverDests(arcs: seq<Arc>, t0: Table, rounds: seq<Round>)
    requires DistinctDests(arcs) && AllSourcesOpen(arcs, t0) && !ClosesADest(arcs) && IsRun(arcs, t0, rounds)
    requires !MayCloseATemp(arcs, t0)
    ensures TrackedClean(arcs, End(arcs, t0, rounds).temps)
  {
    if rounds != [] {
      var n := |rounds| - 1;
      var before, r := rounds[..n], rounds[n];
      RunBefore(arcs, t0, rounds, n);
      TrackedNeverDests(arcs, t0, before);
      assert rounds[..n+1] == rounds;
      if r.temp != -1 && |r.temps| < MAX_EXTRA_FDS {
        CleanRunOk(arcs, t0, before);
        RunCarriesOut(arcs, t0, before);
        RunKeepsReads(arcs, t0, before);
        forall k: nat | k < |arcs|
          ensures arcs[k].dest != r.temp
        {
          DestNotHandedOut(r, k);
        }
      }
    }
  }

  // ----- When one can -----

  lemma Dests(arcs: seq<Arc>) returns (dests: set<int>)
    ensures forall fd :: fd in dests <==> IsDest(arcs, fd)
  {
    dests := set k | 0 <= k < |arcs| :: arcs[k].dest;
  }

  // At the arc at i a run that was clean so far may hand out the dest of the arc at k.
  lemma HarmfulRound(arcs: seq<Arc>, t0: Table, rounds: seq<Round>, k: nat) returns (r: Round)
    requires DistinctDests(arcs) && AllSourcesOpen(arcs, t0) && IsRun(arcs, t0, rounds)
    requires |rounds| < |arcs| && k < |arcs| && MayHandOut(arcs, t0, |rounds|, k)
    requires NoDests(arcs, End(arcs, t0, rounds).temps)
    ensures NextRound(arcs, t0, rounds, r)
    ensures arcs[k].dest in r.temps' && |r.temps'| <= MAX_EXTRA_FDS
  {
    var s, d := End(arcs, t0, rounds), arcs[k].dest;
    CleanRunOk(arcs, t0, rounds);
    assert IsDest(arcs, d);
    assert ContentAt(arcs, t0, |rounds|, s.table, d);
    r := RoundExists(arcs, t0, rounds, d);
    MatchedIffUsed(r);
  }

  lemma HarmfulRun(arcs: seq<Arc>, t0: Table, i: nat, k: nat) returns (whole: seq<Round>)
    requires DistinctDests(arcs) && AllSourcesOpen(arcs, t0)
    requires i < |arcs| && k < |arcs| && MayHandOut(arcs, t0, i, k)
    ensures IsWholeRun(arcs, t0, whole) && !NoDests(arcs, Tracked(End(arcs, t0, whole).temps))
  {
    var before := CleanRun(arcs, t0, i);
    var r := HarmfulRound(arcs, t0, before, k);
    RunGrows(arcs, t0, before, r);
    whole := RunCompletes(arcs, t0, before + [r], {});
    var temps, d := End(arcs, t0, whole).temps, arcs[k].dest;
    assert r.temps' <= temps && IsDest(arcs, d);
    var j :| 0 <= j < |r.temps'| && r.temps'[j] == d;
    assert Tracked(temps)[j] == d;
  }

  // A run of n rounds whose temporaries are no dests.
  lemma CleanRun(arcs: seq<Arc>, t0: Table, n: nat) returns (rounds: seq<Round>)
    requires AllSourcesOpen(arcs, t0) && n <= |arcs|
    ensures IsRun(arcs, t0, rounds) && |rounds| == n && NoDests(arcs, End(arcs, t0, rounds).temps)
  {
    var dests := Dests(arcs);
    rounds := [];
    while |rounds| < n
      invariant |rounds| <= n && IsRun(arcs, t0, rounds)
      invariant NoDests(arcs, End(arcs, t0, rounds).temps)
      decreases n - |rounds|
    {
      var taken := End(arcs, t0, rounds).table.Keys + dests;
      FreshExists(taken);
      var t :| 0 <= t && t !in taken;
      var r := RoundExists(arcs, t0, rounds, t);
      RunGrows(arcs, t0, rounds, r);
      rounds := rounds + [r];
    }
  }

  // ----- The main result -----

  ghost predicate AlwaysAssigns(arcs: seq<Arc>, t0: Table) {
    forall rounds :: IsWholeRun(arcs, t0, rounds) ==> Assigned(arcs, t0, FinalTable(arcs, t0, rounds))
  }

  /** Over a delegate that may hand out any descriptor that is not open, every successful call
      performs the parallel assignment if and only if the arcs do not ask to close a dest, and
      no duplicate that is remembered for the clean-up is made before an arc whose dest is not
      open at the start. */
  lemma AlwaysAssignsIff(arcs: seq<Arc>, t0: Table)
    requires DistinctDests(arcs) && AllSourcesOpen(arcs, t0)
    ensures AlwaysAssigns(arcs, t0) <==> !ClosesADest(arcs) && !MayCloseATemp(arcs, t0)
  {
    if ClosesADest(arcs) {
      var rounds := CleanRun(arcs, t0, |arcs|);
      var s := End(arcs, t0, rounds);
      CleanRunOutcome(arcs, t0, rounds);
      ParallelAssignment(arcs, t0, FinalTable(arcs, t0, rounds), s.temps, s.closed);
    } else if i: nat, k: nat :| i < |arcs| && k < |arcs| && MayHandOut(arcs, t0, i, k) {
      var rounds := HarmfulRun(arcs, t0, i, k);
      RunAssignsIff(arcs, t0, rounds);
    } else {
      forall rounds | IsWholeRun(arcs, t0, rounds)
        ensures Assigned(arcs, t0, FinalTable(arcs, t0, rounds))
      {
        TrackedNeverDests(arcs, t0, rounds);
        RunAssignsIff(arcs, t0, rounds);
      }
    }
  }

  /** With room for all duplicates, every such call also leaves exactly the expected table. */
  lemma AlwaysConserves(arcs: seq<Arc>, t0: Table, rounds: seq<Round>)
    requires DistinctDests(arcs) && AllSourcesOpen(arcs, t0) && IsWholeRun(arcs, t0, rounds)
    requires !ClosesADest(arcs) && !MayCloseATemp(arcs, t0) && Duplicates(arcs, |arcs|) <= 16
    ensures var s := End(arcs, t0, rounds); Outcome(arcs, t0, FinalTable(arcs, t0, rounds), s.temps, s.closed)
    ensures forall fd :: fd in FinalTable(arcs, t0, rounds) <==> ShouldBeOpen(arcs, t0, fd)
  {
    var s := End(arcs, t0, rounds);
    FewTemps(arcs, t0, rounds);
    TrackedNeverDests(arcs, t0, rounds);
    CleanRunOutcome(arcs, t0, rounds);
    assert Leaked(s.temps) == [];
    forall fd
      ensures fd in FinalTable(arcs, t0, rounds) <==> ShouldBeOpen(arcs, t0, fd)
    {
      ConservesDescriptors(arcs, t0, FinalTable(arcs, t0, rounds), s.temps, s.closed, fd);
    }
  }

  /** Beyond sixteen, a run that hands out no dest leaves exactly one descriptor too many for
      each further duplicate. */
  lemma LeaksBeyondSixteen(arcs: seq<Arc>, t0: Table, rounds: seq<Round>)
    requires DistinctDests(arcs) && AllSourcesOpen(arcs, t0) && !ClosesADest(arcs) && IsWholeRun(arcs, t0, rounds)
    requires NoDests(arcs, End(arcs, t0, rounds).temps) && Duplicates(arcs, |arcs|) > 16
    ensures |Extra(arcs, t0, FinalTable(arcs, t0, rounds))| == Duplicates(arcs, |arcs|) - 16
  {
    var s := End(arcs, t0, rounds);
    CleanRunOutcome(arcs, t0, rounds);
    RunKeepsTemps(arcs, t0, rounds);
    LeaksIffTooMany(arcs, t0, FinalTable(arcs, t0, rounds), s.temps, s.closed);
  }

  lemma {:induction false} FewTemps(arcs: seq<Arc>, t0: Table, rounds: seq<Round>)
    requires DistinctDests(arcs) && AllSourcesOpen(arcs, t0) && !ClosesADest(arcs) && IsRun(arcs, t0, rounds)
    requires !MayCloseATemp(arcs, t0) && Duplicates(arcs, |rounds|) <= 16
    ensures |End(arcs, t0, rounds).temps| == Duplicates(arcs, |rounds|)
  {
    if rounds != [] {
      var n := |rounds| - 1;
      var before, r := rounds[..n], rounds[n];
      RunBefore(arcs, t0, rounds, n);
      assert rounds[..n+1] == rounds;
      FewTemps(arcs, t0, before);
      TrackedNeverDests(arcs, t0, before);
      CleanRunOk(arcs, t0, before);
      MatchedIffUsed(r);
    }
  }

  // ----- The failing inputs -----

  /** The arcs 0 -> 1 and 1 -> 5 over a table with 0 to 4 open: dup, which hands out the least
      descriptor that is not open, copies 1 to 5; the second arc turns into 5 -> 5, and the
      clean-up closes the dest. */
  lemma DupTakesADest(t0: Table) returns (rounds: seq<Round>)
    requires (forall fd :: 0 <= fd < 5 ==> fd in t0) && 5 !in t0
    ensures var arcs := [Arc(0, 1, false), Arc(1, 5, false)];
            && IsWholeRun(arcs, t0, rounds)
            && rounds[0].temp == 5 && 5 !in rounds[0].table && (forall fd :: 0 <= fd < 5 ==> fd in rounds[0].table)
            && rounds[1].temp == -1
            && FinalTable(arcs, t0, rounds) == t0[1 := t0[0]] && !Assigned(arcs, t0, FinalTable(arcs, t0, rounds))
  {
    var arcs, relabeled := [Arc(0, 1, false), Arc(1, 5, false)], [Arc(0, 1, false), Arc(5, 5, false)];
    var copied := t0[5 := t0[1]];
    var moved := copied[1 := copied[0]];
    var r0 := Round(arcs, t0, 0, arcs, t0, [], [], relabeled, copied, [5], 5, -1);
    var r1 := Round(arcs, t0, 1, relabeled, moved, [5], [], relabeled, moved, [5], -1, -1);
    assert Matched(arcs, 0, 2) && !Matched(relabeled, 1, 2);
    rounds := [r0, r1];
    assert r0.Legal() && r0.After() == Stage(relabeled, moved, [5], []);
    assert r1.Legal() && r1.After() == Stage(relabeled, moved, [5], []);
    assert InRun(arcs, t0, rounds, 0) && InRun(arcs, t0, rounds, 1);
    assert End(arcs, t0, rounds) == r1.After();
    assert forall fd :: fd in Tracked([5]) <==> fd == 5;
    assert CleanedUp(moved, [5]) == t0[1 := t0[0]];
    assert Get(FinalTable(arcs, t0, rounds), arcs[1].dest) == None;
  }

  /** The arcs 1 -> 1 and 1 -> 2, the second marked close: every call closes 1, a dest. */
  lemma IdentityArcClosed(t0: Table, rounds: seq<Round>)
    requires 1 in t0
    requires IsWholeRun([Arc(1, 1, false), Arc(1, 2, true)], t0, rounds)
    ensures var arcs := [Arc(1, 1, false), Arc(1, 2, true)];
            ClosesADest(arcs) && 1 !in FinalTable(arcs, t0, rounds) && !Assigned(arcs, t0, FinalTable(arcs, t0, rounds))
  {
    var arcs := [Arc(1, 1, false), Arc(1, 2, true)];
    var r0, r1 := rounds[0], rounds[1];
    assert InRun(arcs, t0, rounds, 0) && InRun(arcs, t0, rounds, 1);
    assert !Matched(arcs, 0, 2) && LaterAt(r0.b, r0.a, 0, r0.temp, r0.hit, 1);
    assert r0.b == arcs && r0.table == t0;
    assert r0.hit == -1 && r0.temp == -1 && r0.a[0] == arcs[0] && r0.a[1] == arcs[1];
    assert r0.a == arcs && r0.Result() == t0;
    assert !Matched(arcs, 1, 2);
    assert r1.b == arcs && r1.table == t0;
    assert r1.hit == -1 && r1.temp == -1 && r1.a[1] == arcs[1];
    assert r1.Result() == t0[2 := t0[1]] - {1};
    assert arcs[0].source == arcs[0].dest == arcs[1].source && arcs[1].close;
    assert Get(FinalTable(arcs, t0, rounds), arcs[0].dest) == None;
  }
}
