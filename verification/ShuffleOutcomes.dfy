// base/file_descriptor_shuffle.cc: what a call that succeeds means for its caller.
module ShuffleOutcomes {
  import opened Wrappers
  import opened ShuffleRounds
  import opened ShuffleInvariants

  // Every dest holds what its arc's source held before.
  ghost predicate Assigned(arcs: seq<Arc>, t0: Table, table: Table) {
    forall k :: 0 <= k < |arcs| ==> Get(table, arcs[k].dest) == Get(t0, arcs[k].source)
  }

  // ----- Runs whose temporaries are no dests -----

  /** What a finished run leaves behind: the table, and everything that was closed. */
  ghost predicate Outcome(arcs: seq<Arc>, t0: Table, table: Table, temps: seq<int>, closed: seq<int>) {
    && |temps| == Duplicates(arcs, |arcs|)
    && ClosesOk(arcs, |arcs|, closed)
    // Apart from temporaries that overflowed the clean-up list, the table is the expected one.
    && (forall fd :: fd !in Leaked(temps) ==> ContentAt(arcs, t0, |arcs|, table, fd))
    && (forall t :: t in Leaked(temps) ==> TempAt(arcs, t0, |arcs|, table, t))
  }

  /** Closing the tracked temporaries leaves the expected table. */
  lemma CleanRunOutcome(arcs: seq<Arc>, t0: Table, rounds: seq<Round>)
    requires DistinctDests(arcs) && AllSourcesOpen(arcs, t0)
    requires IsWholeRun(arcs, t0, rounds) && NoDests(arcs, End(arcs, t0, rounds).temps)
    ensures var s := End(arcs, t0, rounds); Outcome(arcs, t0, FinalTable(arcs, t0, rounds), s.temps, s.closed)
  {
    CleanRunOk(arcs, t0, rounds);
    var s := End(arcs, t0, rounds);
    AfterCleanUp(arcs, t0, s.table, s.temps);
  }

  lemma AfterCleanUp(arcs: seq<Arc>, t0: Table, table: Table, temps: seq<int>)
    requires TableOk(arcs, t0, |arcs|, table, temps)
    ensures forall fd :: fd !in Leaked(temps) ==> ContentAt(arcs, t0, |arcs|, CleanedUp(table, temps), fd)
    ensures forall t :: t in Leaked(temps) ==> TempAt(arcs, t0, |arcs|, CleanedUp(table, temps), t)
  {
    var table' := CleanedUp(table, temps);
    assert forall fd :: fd in temps <==> fd in Tracked(temps) || fd in Leaked(temps);
    forall t | t in Leaked(temps)
      ensures TempAt(arcs, t0, |arcs|, table', t)
    {
      assert TempAt(arcs, t0, |arcs|, table, t);
      assert t !in Tracked(temps);
    }
    forall fd | fd !in Leaked(temps)
      ensures ContentAt(arcs, t0, |arcs|, table', fd)
    {
      if fd in temps {
        assert TempAt(arcs, t0, |arcs|, table, fd);
      } else {
        assert ContentAt(arcs, t0, |arcs|, table, fd);
      }
    }
  }

  // A descriptor is closed at the end iff it was marked, and is no dest or one the arcs
  // themselves ask to close.
  lemma ClosedMeans(arcs: seq<Arc>, fd: int)
    requires DistinctDests(arcs)
    ensures ClosedBy(arcs, |arcs|, fd) ==> MarkedClose(arcs, fd)
    ensures !IsDest(arcs, fd) ==> (ClosedBy(arcs, |arcs|, fd) <==> MarkedClose(arcs, fd))
    ensures IsDest(arcs, fd) && ClosedBy(arcs, |arcs|, fd) ==> ClosesADest(arcs)
  {
    DutyMeans(arcs, |arcs|, fd);
    ReadByMeans(arcs, |arcs|, fd);
    if IsDest(arcs, fd) {
      if ClosedBy(arcs, |arcs|, fd) {
        DestStaysOpen(arcs, |arcs|, fd);
      }
    } else if k :| 0 <= k < |arcs| && arcs[k].source == fd && arcs[k].close {
      assert Counts(arcs, fd, k) && arcs[k].dest != fd;
    }
  }

  lemma ClosedDest(arcs: seq<Arc>) returns (fd: int)
    requires DistinctDests(arcs) && ClosesADest(arcs)
    ensures IsDest(arcs, fd) && ClosedBy(arcs, |arcs|, fd)
    ensures exists m :: 0 <= m < |arcs| && arcs[m].source == fd == arcs[m].dest
  {
    var m, j, k :| 0 <= m < j < |arcs| && m <= k < |arcs|
      && arcs[m].source == arcs[m].dest == arcs[j].source == arcs[k].source && arcs[k].close;
    fd := arcs[m].source;
    assert Counts(arcs, fd, k) && Counts(arcs, fd, j) && arcs[j].dest != fd;
    DutyMeans(arcs, |arcs|, fd);
    ReadByMeans(arcs, |arcs|, fd);
  }

  lemma DestContent(arcs: seq<Arc>, t0: Table, table: Table, temps: seq<int>, closed: seq<int>, fd: int)
    requires Outcome(arcs, t0, table, temps, closed) && IsDest(arcs, fd)
    ensures ContentAt(arcs, t0, |arcs|, table, fd)
  {
  }

  /** The parallel assignment is performed, through any mix of chains, cycles and fan-out,
      exactly when no identity arc shares a source that is still to be closed. */
  lemma ParallelAssignment(arcs: seq<Arc>, t0: Table, table: Table, temps: seq<int>, closed: seq<int>)
    requires DistinctDests(arcs) && AllSourcesOpen(arcs, t0)
    requires Outcome(arcs, t0, table, temps, closed)
    ensures Assigned(arcs, t0, table) <==> !ClosesADest(arcs)
  {
    if ClosesADest(arcs) {
      var fd := ClosedDest(arcs);
      DestContent(arcs, t0, table, temps, closed, fd);
    } else {
      forall k | 0 <= k < |arcs|
        ensures Get(table, arcs[k].dest) == Get(t0, arcs[k].source)
      {
        var d := arcs[k].dest;
        assert IsDest(arcs, d);
        DestContent(arcs, t0, table, temps, closed, d);
        ClosedMeans(arcs, d);
        WriterMeans(arcs, |arcs|, d);
      }
    }
  }

  /** Descriptors are conserved: what is open afterwards is what was open plus the dests,
      minus each marked source that is no dest, plus what overflowed the clean-up list. */
  lemma ConservesDescriptors(arcs: seq<Arc>, t0: Table, table: Table, temps: seq<int>, closed: seq<int>, fd: int)
    requires DistinctDests(arcs) && AllSourcesOpen(arcs, t0) && !ClosesADest(arcs)
    requires Outcome(arcs, t0, table, temps, closed)
    ensures fd in table <==>
            fd in Leaked(temps) || ((fd in t0 || IsDest(arcs, fd)) && (MarkedClose(arcs, fd) ==> IsDest(arcs, fd)))
    ensures fd in table && fd !in Leaked(temps) && !IsDest(arcs, fd) ==> fd in t0 && table[fd] == t0[fd]
  {
    ClosedMeans(arcs, fd);
    WriterMeans(arcs, |arcs|, fd);
    if fd in Leaked(temps) {
      assert TempAt(arcs, t0, |arcs|, table, fd);
    } else {
      assert ContentAt(arcs, t0, |arcs|, table, fd);
    }
  }

  // Each marked source that is no dest is closed exactly once, and no other source is,
  // exactly when the arcs do not ask to close a dest.
  lemma ClosesMarkedSources(arcs: seq<Arc>, t0: Table, table: Table, temps: seq<int>, closed: seq<int>)
    requires DistinctDests(arcs) && Outcome(arcs, t0, table, temps, closed)
    ensures Distinct(closed)
    ensures (forall fd :: fd in closed <==> MarkedClose(arcs, fd) && !IsDest(arcs, fd)) <==> !ClosesADest(arcs)
  {
    if ClosesADest(arcs) {
      var fd := ClosedDest(arcs);
      assert fd in closed;
    } else {
      forall fd
        ensures fd in closed <==> MarkedClose(arcs, fd) && !IsDest(arcs, fd)
      {
        ClosedMeans(arcs, fd);
      }
    }
  }

  // What should be open in the end, temporaries aside.
  ghost predicate ShouldBeOpen(arcs: seq<Arc>, t0: Table, fd: int) {
    IsDest(arcs, fd) || (fd in t0 && !MarkedClose(arcs, fd))
  }

  lemma LeakedAt(arcs: seq<Arc>, t0: Table, table: Table, temps: seq<int>, closed: seq<int>, fd: int)
    requires DistinctDests(arcs) && AllSourcesOpen(arcs, t0) && !ClosesADest(arcs)
    requires Outcome(arcs, t0, table, temps, closed)
    ensures fd in table && !ShouldBeOpen(arcs, t0, fd) <==> fd in Leaked(temps)
  {
    ConservesDescriptors(arcs, t0, table, temps, closed, fd);
    if fd in Leaked(temps) {
      assert TempAt(arcs, t0, |arcs|, table, fd);
      ClosedMeans(arcs, fd);
      WriterMeans(arcs, |arcs|, fd);
    }
  }

  ghost function Extra(arcs: seq<Arc>, t0: Table, table: Table): set<int> {
    set fd | fd in table && !ShouldBeOpen(arcs, t0, fd)
  }

  /** How many descriptors are open that should not be: none up to sixteen duplicates, and one
      for each beyond. */
  lemma LeaksIffTooMany(arcs: seq<Arc>, t0: Table, table: Table, temps: seq<int>, closed: seq<int>)
    requires DistinctDests(arcs) && AllSourcesOpen(arcs, t0) && !ClosesADest(arcs)
    requires Outcome(arcs, t0, table, temps, closed) && Distinct(temps)
    ensures var n := Duplicates(arcs, |arcs|);
            if n <= 16 then Extra(arcs, t0, table) == {} else |Extra(arcs, t0, table)| == n - 16
  {
    forall fd
      ensures fd in Extra(arcs, t0, table) <==> fd in Leaked(temps)
    {
      LeakedAt(arcs, t0, table, temps, closed, fd);
    }
    LeakedDistinct(temps);
    SizeOfElements(Leaked(temps), Extra(arcs, t0, table));
  }

  lemma LeakedDistinct(temps: seq<int>)
    requires Distinct(temps)
    ensures Distinct(Leaked(temps))
    ensures |Leaked(temps)| == if |temps| <= 16 then 0 else |temps| - 16
  {
  }

  lemma {:induction false} SizeOfElements(s: seq<int>, elements: set<int>)
    requires Distinct(s) && forall x :: x in elements <==> x in s
    ensures |elements| == |s|
  {
    if s == [] {
      assert forall x :: x !in elements;
    } else {
      var n := |s| - 1;
      assert s == s[..n] + [s[n]];
      SizeOfElements(s[..n], elements - {s[n]});
    }
  }
}
