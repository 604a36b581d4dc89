// base/file_descriptor_shuffle.cc: what the table holds after each round of a run whose
// temporaries are none of the dests.
module ShuffleInvariants {
  import opened Wrappers
  import opened ShuffleRounds

  // An identity arc is followed by another arc with the same source, and that source
  // is still to be closed at or after the identity arc.
  ghost predicate ClosesADest(arcs: seq<Arc>) {
    exists m, j, k :: 0 <= m < j < |arcs| && m <= k < |arcs|
      && arcs[m].source == arcs[m].dest == arcs[j].source == arcs[k].source && arcs[k].close
  }

  // ----- The table after the first i arcs -----

  // The last of the first i arcs that wrote fd, or -1.
  ghost function Writer(arcs: seq<Arc>, i: nat, fd: int): (w: int)
    requires i <= |arcs|
    ensures -1 <= w < i
    ensures w >= 0 ==> arcs[w].dest == fd && arcs[w].source != fd
  {
    if i == 0 then -1
    else if arcs[i-1].dest == fd && arcs[i-1].source != fd then i - 1
    else Writer(arcs, i - 1, fd)
  }

  // Some arc from index i on reads fd.
  ghost predicate Used(arcs: seq<Arc>, i: nat, fd: int)
    requires i <= |arcs|
    decreases |arcs| - i
  {
    i < |arcs| && (arcs[i].source == fd || Used(arcs, i + 1, fd))
  }

  // Close marks on fd take effect from index m on only if no arc overwrites fd and no
  // later arc maps fd to itself.
  ghost predicate Counts(arcs: seq<Arc>, fd: int, m: nat) {
    forall n :: 0 <= n < |arcs| && arcs[n].dest == fd ==> arcs[n].source == fd && n <= m
  }

  ghost predicate Duty(arcs: seq<Arc>, i: nat, fd: int)
    requires i <= |arcs|
  {
    i > 0 && (Duty(arcs, i - 1, fd)
              || (arcs[i-1].source == fd && arcs[i-1].close && Counts(arcs, fd, i - 1)))
  }

  ghost predicate ReadBy(arcs: seq<Arc>, i: nat, fd: int)
    requires i <= |arcs|
  {
    i > 0 && (ReadBy(arcs, i - 1, fd)
              || (arcs[i-1].source == fd && arcs[i-1].dest != fd && Counts(arcs, fd, i - 1)))
  }

  ghost predicate ClosedBy(arcs: seq<Arc>, i: nat, fd: int)
    requires i <= |arcs|
  {
    Duty(arcs, i, fd) && ReadBy(arcs, i, fd) && !Used(arcs, i, fd)
  }

  // What descriptor fd refers to after the first i arcs, temporaries aside.
  ghost function Expected(arcs: seq<Arc>, table: Table, i: nat, fd: int): Option<int>
    requires i <= |arcs|
  {
    if ClosedBy(arcs, i, fd) then None
    else
      var w := Writer(arcs, i, fd);
      if w >= 0 then Get(table, arcs[w].source) else Get(table, fd)
  }

  // How many temporaries the arcs need: arcs whose dest is read later.
  ghost function Duplicates(arcs: seq<Arc>, i: nat): nat
    requires i <= |arcs|
  {
    if i == 0 then 0
    else Duplicates(arcs, i - 1)
         + if arcs[i-1].source != arcs[i-1].dest && Used(arcs, i, arcs[i-1].dest) then 1 else 0
  }

  // ----- Invariants of the outer loop -----

  // The arc at k, still to come, reads the object its original source held.
  ghost predicate PendingAt(arcs: seq<Arc>, t0: Table, i: nat, a: seq<Arc>, table: Table, temps: seq<int>, k: nat)
    requires i <= k < |arcs| == |a|
  {
    && a[k].dest == arcs[k].dest
    && if Writer(arcs, i, arcs[k].source) >= 0 then
         && a[k].source in temps && !a[k].close
         && Get(table, a[k].source) == Get(t0, arcs[k].source)
       else a[k].source == arcs[k].source && a[k].source !in temps
  }

  ghost predicate PendingOk(arcs: seq<Arc>, t0: Table, i: nat, a: seq<Arc>, table: Table, temps: seq<int>) {
    i <= |arcs| == |a| && forall k :: i <= k < |arcs| ==> PendingAt(arcs, t0, i, a, table, temps, k)
  }

  // A close mark at k is a duty handed on; the arc's own mark is kept.
  ghost predicate MarkAt(arcs: seq<Arc>, i: nat, a: seq<Arc>, k: nat)
    requires i <= k < |arcs| == |a|
  {
    Writer(arcs, i, arcs[k].source) < 0 && Counts(arcs, arcs[k].source, k) ==>
      && (a[k].close ==> Duty(arcs, k + 1, arcs[k].source))
      && (arcs[k].close ==> a[k].close)
  }

  // A duty is not lost while its source is still read.
  ghost predicate OwedAt(arcs: seq<Arc>, i: nat, a: seq<Arc>, fd: int)
    requires i <= |arcs| == |a|
  {
    Duty(arcs, i, fd) && Used(arcs, i, fd) ==>
      exists k :: i <= k < |arcs| && arcs[k].source == fd && a[k].close
  }

  ghost predicate DutiesOk(arcs: seq<Arc>, i: nat, a: seq<Arc>) {
    && i <= |arcs| == |a|
    && (forall k :: i <= k < |arcs| ==> MarkAt(arcs, i, a, k))
    && (forall fd :: OwedAt(arcs, i, a, fd))
  }

  ghost predicate SourcesOpen(arcs: seq<Arc>, t0: Table, i: nat) {
    forall m :: 0 <= m < i <= |arcs| && arcs[m].source != arcs[m].dest ==> arcs[m].source in t0
  }

  ghost predicate ContentAt(arcs: seq<Arc>, t0: Table, i: nat, table: Table, fd: int)
    requires i <= |arcs|
  {
    Get(table, fd) == Expected(arcs, t0, i, fd)
  }

  // A temporary is open and not a descriptor the caller will look at.
  ghost predicate TempAt(arcs: seq<Arc>, t0: Table, i: nat, table: Table, t: int)
    requires i <= |arcs|
  {
    t in table && Expected(arcs, t0, i, t) == None && !IsDest(arcs, t)
  }

  ghost predicate TableOk(arcs: seq<Arc>, t0: Table, i: nat, table: Table, temps: seq<int>) {
    && i <= |arcs| && SourcesOpen(arcs, t0, i) && Distinct(temps)
    && (forall fd :: fd !in temps ==> ContentAt(arcs, t0, i, table, fd))
    && (forall t :: t in temps ==> TempAt(arcs, t0, i, table, t))
  }

  ghost predicate ClosesOk(arcs: seq<Arc>, i: nat, closed: seq<int>) {
    && i <= |arcs|
    && Distinct(closed)
    && (forall fd :: fd in closed <==> ClosedBy(arcs, i, fd))
  }

  ghost predicate Ready(arcs: seq<Arc>, t0: Table, i: nat, a: seq<Arc>, table: Table, temps: seq<int>) {
    DistinctDests(arcs) && PendingOk(arcs, t0, i, a, table, temps) && DutiesOk(arcs, i, a)
    && TableOk(arcs, t0, i, table, temps)
  }

  // ----- The recursive definitions in closed form -----

  lemma {:induction false} UsedMeans(arcs: seq<Arc>, i: nat, fd: int)
    requires i <= |arcs|
    ensures Used(arcs, i, fd) <==> exists k :: i <= k < |arcs| && arcs[k].source == fd
    decreases |arcs| - i
  {
    if i < |arcs| {
      UsedMeans(arcs, i + 1, fd);
    }
  }

  lemma {:induction false} WriterMeans(arcs: seq<Arc>, i: nat, fd: int)
    requires i <= |arcs|
    ensures Writer(arcs, i, fd) >= 0 <==> exists m :: 0 <= m < i && arcs[m].dest == fd && arcs[m].source != fd
  {
    if i > 0 {
      WriterMeans(arcs, i - 1, fd);
    }
  }

  lemma {:induction false} DutyMeans(arcs: seq<Arc>, i: nat, fd: int)
    requires i <= |arcs|
    ensures Duty(arcs, i, fd) <==>
            exists m :: 0 <= m < i && arcs[m].source == fd && arcs[m].close && Counts(arcs, fd, m)
  {
    if i > 0 {
      DutyMeans(arcs, i - 1, fd);
    }
  }

  lemma {:induction false} ReadByMeans(arcs: seq<Arc>, i: nat, fd: int)
    requires i <= |arcs|
    ensures ReadBy(arcs, i, fd) <==>
            exists m :: 0 <= m < i && arcs[m].source == fd && arcs[m].dest != fd && Counts(arcs, fd, m)
  {
    if i > 0 {
      ReadByMeans(arcs, i - 1, fd);
    }
  }

  // A dest is only ever closed when the arcs ask for it.
  lemma DestStaysOpen(arcs: seq<Arc>, i: nat, fd: int)
    requires i <= |arcs| && IsDest(arcs, fd) && ClosedBy(arcs, i, fd)
    ensures ClosesADest(arcs)
  {
    DutyMeans(arcs, i, fd);
    ReadByMeans(arcs, i, fd);
    var m :| 0 <= m < |arcs| && arcs[m].dest == fd;
    var k :| 0 <= k < i && arcs[k].source == fd && arcs[k].close && Counts(arcs, fd, k);
    var j :| 0 <= j < i && arcs[j].source == fd && arcs[j].dest != fd && Counts(arcs, fd, j);
    assert m < j && m <= k;
  }

  // How one arc changes what a descriptor should refer to.
  lemma ExpectedStep(arcs: seq<Arc>, t0: Table, i: nat, fd: int)
    requires i < |arcs|
    ensures Expected(arcs, t0, i + 1, fd) ==
            if fd == arcs[i].source && ClosedBy(arcs, i + 1, fd) then None
            else if fd == arcs[i].dest && arcs[i].source != fd then Get(t0, arcs[i].source)
            else Expected(arcs, t0, i, fd)
    ensures fd != arcs[i].source ==> ClosedBy(arcs, i + 1, fd) == ClosedBy(arcs, i, fd)
    ensures !ClosedBy(arcs, i, arcs[i].source)
  {
    if fd == arcs[i].dest {
      DutyMeans(arcs, i + 1, fd);
    }
  }

  // ----- One round of the outer loop -----

  // A round with its invariant, whose duplicate, if any, is no dest.
  ghost predicate Clean(r: Round) {
    && Ready(r.arcs, r.t0, r.i, r.b, r.table, r.temps) && r.i < |r.arcs|
    && AllSourcesOpen(r.arcs, r.t0) && r.Legal()
    && (r.temp != -1 ==> !IsDest(r.arcs, r.temp))
  }

  // The head arc still stands for the original one.
  lemma HeadFacts(r: Round)
    requires Ready(r.arcs, r.t0, r.i, r.b, r.table, r.temps) && r.i < |r.arcs|
    ensures r.b[r.i].dest == r.arcs[r.i].dest
    ensures r.b[r.i].source == r.b[r.i].dest <==> r.arcs[r.i].source == r.arcs[r.i].dest
    ensures Writer(r.arcs, r.i, r.arcs[r.i].dest) < 0
    ensures Get(r.table, r.b[r.i].source) == Get(r.t0, r.arcs[r.i].source)
    ensures r.b[r.i].close ==> Writer(r.arcs, r.i, r.arcs[r.i].source) < 0
    ensures r.b[r.i].close ==> r.b[r.i].source == r.arcs[r.i].source && r.b[r.i].source !in r.temps
  {
    var s := r.arcs[r.i].source;
    assert PendingAt(r.arcs, r.t0, r.i, r.b, r.table, r.temps, r.i);
    WriterMeans(r.arcs, r.i, s);
    WriterMeans(r.arcs, r.i, r.arcs[r.i].dest);
    if Writer(r.arcs, r.i, s) < 0 {
      assert ContentAt(r.arcs, r.t0, r.i, r.table, s);
    } else {
      assert TempAt(r.arcs, r.t0, r.i, r.table, r.b[r.i].source);
    }
  }

  // A later arc reads the head's dest, or the source the head may close, iff the
  // original arc does.
  lemma LaterFacts(r: Round, k: nat)
    requires Ready(r.arcs, r.t0, r.i, r.b, r.table, r.temps) && r.i < k < |r.arcs|
    ensures r.b[k].dest == r.arcs[k].dest
    ensures r.b[k].source == r.b[r.i].dest <==> r.arcs[k].source == r.arcs[r.i].dest
    ensures r.b[r.i].close ==> (r.b[k].source == r.b[r.i].source <==> r.arcs[k].source == r.arcs[r.i].source)
  {
    HeadFacts(r);
    assert PendingAt(r.arcs, r.t0, r.i, r.b, r.table, r.temps, k);
    if Writer(r.arcs, r.i, r.arcs[k].source) >= 0 {
      assert TempAt(r.arcs, r.t0, r.i, r.table, r.b[k].source);
      assert IsDest(r.arcs, r.arcs[r.i].dest);
    }
  }

  // The head duplicates its dest iff a later original arc reads it.
  lemma MatchedIffUsed(r: Round)
    requires Ready(r.arcs, r.t0, r.i, r.b, r.table, r.temps) && r.i < |r.arcs|
    ensures Matched(r.b, r.i, |r.b|) <==>
            r.arcs[r.i].source != r.arcs[r.i].dest && Used(r.arcs, r.i + 1, r.arcs[r.i].dest)
  {
    HeadFacts(r);
    MatchedMeans(r.b, r.i, |r.b|);
    UsedMeans(r.arcs, r.i + 1, r.arcs[r.i].dest);
    if k :| r.i < k < |r.b| && r.b[r.i].source != r.b[r.i].dest && r.b[k].source == r.b[r.i].dest {
      LaterFacts(r, k);
    } else if k :| r.i < k < |r.arcs| && r.arcs[k].source == r.arcs[r.i].dest {
      LaterFacts(r, k);
    }
  }

  lemma FreshTemp(r: Round, t: int)
    requires Ready(r.arcs, r.t0, r.i, r.b, r.table, r.temps) && AllSourcesOpen(r.arcs, r.t0)
    requires t !in r.table && !IsDest(r.arcs, t)
    ensures t !in r.temps && Expected(r.arcs, r.t0, r.i, t) == None
    ensures forall k :: r.i <= k < |r.arcs| && Writer(r.arcs, r.i, r.arcs[k].source) < 0 ==> r.arcs[k].source != t
  {
    assert t in r.temps ==> TempAt(r.arcs, r.t0, r.i, r.table, t);
    assert ContentAt(r.arcs, r.t0, r.i, r.table, t);
    forall k | r.i <= k < |r.arcs| && Writer(r.arcs, r.i, r.arcs[k].source) < 0
      ensures r.arcs[k].source != t
    {
      UsedMeans(r.arcs, r.i, r.arcs[k].source);
    }
  }

  // The head closes its source exactly when it was the last to owe that.
  lemma CloseOnlyIfDone(r: Round)
    requires Clean(r) && r.Closes()
    ensures r.a[r.i].source == r.arcs[r.i].source && r.a[r.i].source !in r.temps'
    ensures ClosedBy(r.arcs, r.i + 1, r.arcs[r.i].source)
  {
    var s := r.arcs[r.i].source;
    HeadFacts(r);
    WriterMeans(r.arcs, r.i, s);
    if r.temp != -1 {
      FreshTemp(r, r.temp);
    }
    forall n | 0 <= n < |r.arcs| && r.arcs[n].dest == s
      ensures r.arcs[n].source == s && n <= r.i
    {
      assert n > r.i ==> LaterAt(r.b, r.a, r.i, r.temp, r.hit, n);
      if n > r.i {
        LaterFacts(r, n);
      }
    }
    assert Counts(r.arcs, s, r.i);
    assert MarkAt(r.arcs, r.i, r.b, r.i);
    UsedMeans(r.arcs, r.i + 1, s);
    if k :| r.i + 1 <= k < |r.arcs| && r.arcs[k].source == s {
      assert LaterAt(r.b, r.a, r.i, r.temp, r.hit, k);
      LaterFacts(r, k);
    }
  }

  lemma CloseIfDone(r: Round)
    requires Clean(r) && ClosedBy(r.arcs, r.i + 1, r.arcs[r.i].source)
    ensures r.Closes()
  {
    var s := r.arcs[r.i].source;
    HeadFacts(r);
    DutyMeans(r.arcs, r.i + 1, s);
    ReadByMeans(r.arcs, r.i + 1, s);
    UsedMeans(r.arcs, r.i + 1, s);
    WriterMeans(r.arcs, r.i, s);
    assert Counts(r.arcs, s, r.i);
    assert MarkAt(r.arcs, r.i, r.b, r.i);
    assert OwedAt(r.arcs, r.i, r.b, s);
    assert r.b[r.i].close;
    if r.hit != -1 {
      LaterFacts(r, r.hit);
    }
  }

  lemma CloseIffDone(r: Round)
    requires Clean(r)
    ensures r.Closes() <==> ClosedBy(r.arcs, r.i + 1, r.arcs[r.i].source)
    ensures r.Closes() ==> r.a[r.i].source == r.arcs[r.i].source && r.a[r.i].source !in r.temps'
  {
    if r.Closes() {
      CloseOnlyIfDone(r);
    }
    if ClosedBy(r.arcs, r.i + 1, r.arcs[r.i].source) {
      CloseIfDone(r);
    }
  }

  lemma ContentStep(r: Round, fd: int)
    requires Clean(r) && fd !in r.temps'
    ensures ContentAt(r.arcs, r.t0, r.i + 1, r.Result(), fd)
  {
    HeadFacts(r);
    CloseIffDone(r);
    ExpectedStep(r.arcs, r.t0, r.i, fd);
    assert ContentAt(r.arcs, r.t0, r.i, r.table, fd);
  }

  lemma TempStep(r: Round, t: int)
    requires Clean(r) && t in r.temps'
    ensures TempAt(r.arcs, r.t0, r.i + 1, r.Result(), t)
    ensures Get(r.Result(), t) == Get(r.table', t)
  {
    HeadFacts(r);
    CloseIffDone(r);
    ExpectedStep(r.arcs, r.t0, r.i, t);
    assert IsDest(r.arcs, r.arcs[r.i].dest);
    if t in r.temps {
      assert TempAt(r.arcs, r.t0, r.i, r.table, t);
    } else {
      FreshTemp(r, t);
    }
  }

  lemma TempsDistinct(r: Round)
    requires Clean(r)
    ensures Distinct(r.temps') && SourcesOpen(r.arcs, r.t0, r.i + 1)
  {
    HeadFacts(r);
    if r.temp != -1 {
      FreshTemp(r, r.temp);
    }
  }

  lemma PendingStep(r: Round, k: nat)
    requires Clean(r) && r.i < k < |r.arcs|
    ensures PendingAt(r.arcs, r.t0, r.i + 1, r.a, r.Result(), r.temps', k)
  {
    var x := r.arcs[k].source;
    HeadFacts(r);
    LaterFacts(r, k);
    assert LaterAt(r.b, r.a, r.i, r.temp, r.hit, k);
    assert PendingAt(r.arcs, r.t0, r.i, r.b, r.table, r.temps, k);
    if x == r.arcs[r.i].dest != r.arcs[r.i].source {
      MatchedIffUsed(r);
      UsedMeans(r.arcs, r.i + 1, x);
      TempStep(r, r.temp);
      assert ContentAt(r.arcs, r.t0, r.i, r.table, x) by { assert IsDest(r.arcs, x); NotTemp(r, x); }
    } else if Writer(r.arcs, r.i, x) >= 0 {
      TempStep(r, r.b[k].source);
      WriterMeans(r.arcs, r.i, x);
    } else if r.temp != -1 {
      FreshTemp(r, r.temp);
    }
  }

  lemma NotTemp(r: Round, fd: int)
    requires Ready(r.arcs, r.t0, r.i, r.b, r.table, r.temps) && IsDest(r.arcs, fd)
    ensures fd !in r.temps
  {
    assert fd in r.temps ==> TempAt(r.arcs, r.t0, r.i, r.table, fd);
  }

  lemma MarkStep(r: Round, k: nat)
    requires Clean(r) && r.i < k < |r.arcs|
    ensures MarkAt(r.arcs, r.i + 1, r.a, k)
  {
    var s := r.arcs[r.i].source;
    HeadFacts(r);
    LaterFacts(r, k);
    assert LaterAt(r.b, r.a, r.i, r.temp, r.hit, k);
    assert MarkAt(r.arcs, r.i, r.b, k);
    if Writer(r.arcs, r.i + 1, r.arcs[k].source) < 0 && Counts(r.arcs, r.arcs[k].source, k)
       && r.a[k].close && !r.b[k].close {
      assert k == r.hit && r.arcs[k].source == s;
      forall n | 0 <= n < |r.arcs| && r.arcs[n].dest == s
        ensures n <= r.i
      {
        assert n > r.i ==> LaterAt(r.b, r.a, r.i, r.temp, r.hit, n);
        if n > r.i {
          LaterFacts(r, n);
        }
      }
      assert Counts(r.arcs, s, r.i);
      assert MarkAt(r.arcs, r.i, r.b, r.i);
      DutyMeans(r.arcs, r.i + 1, s);
      DutyMeans(r.arcs, k + 1, s);
    }
  }

  lemma OwedStep(r: Round, fd: int)
    requires Clean(r)
    ensures OwedAt(r.arcs, r.i + 1, r.a, fd)
  {
    if Duty(r.arcs, r.i + 1, fd) && Used(r.arcs, r.i + 1, fd) {
      HeadFacts(r);
      DutyMeans(r.arcs, r.i + 1, fd);
      UsedMeans(r.arcs, r.i + 1, fd);
      assert Counts(r.arcs, fd, r.i);
      WriterMeans(r.arcs, r.i, fd);
      assert MarkAt(r.arcs, r.i, r.b, r.i);
      assert OwedAt(r.arcs, r.i, r.b, fd);
      if k :| r.i < k < |r.arcs| && r.arcs[k].source == fd && r.b[k].close {
        LaterFacts(r, k);
        assert LaterAt(r.b, r.a, r.i, r.temp, r.hit, k);
        assert r.a[k].close;
      } else {
        assert r.b[r.i].close && r.arcs[r.i].source == fd;
        var j :| r.i < j < |r.arcs| && r.arcs[j].source == fd;
        LaterFacts(r, j);
        assert LaterAt(r.b, r.a, r.i, r.temp, r.hit, j);
        LaterFacts(r, r.hit);
        assert LaterAt(r.b, r.a, r.i, r.temp, r.hit, r.hit);
        assert r.a[r.hit].close;
      }
    }
  }

  // One round keeps every invariant of the outer loop.
  lemma RoundKeepsReady(r: Round)
    requires Clean(r)
    ensures Ready(r.arcs, r.t0, r.i + 1, r.a, r.Result(), r.temps')
  {
    var next, after := r.i + 1, r.Result();
    TempsDistinct(r);
    forall k | next <= k < |r.arcs|
      ensures PendingAt(r.arcs, r.t0, next, r.a, after, r.temps', k) && MarkAt(r.arcs, next, r.a, k)
    {
      PendingStep(r, k);
      MarkStep(r, k);
    }
    forall fd
      ensures OwedAt(r.arcs, next, r.a, fd)
    {
      OwedStep(r, fd);
    }
    forall fd | fd !in r.temps'
      ensures ContentAt(r.arcs, r.t0, next, after, fd)
    {
      ContentStep(r, fd);
    }
    forall t | t in r.temps'
      ensures TempAt(r.arcs, r.t0, next, after, t)
    {
      TempStep(r, t);
    }
  }

  lemma ClosesStep(r: Round)
    requires Clean(r) && ClosesOk(r.arcs, r.i, r.closed)
    ensures ClosesOk(r.arcs, r.i + 1, r.After().closed)
  {
    var s, next, closed' := r.arcs[r.i].source, r.i + 1, r.After().closed;
    CloseIffDone(r);
    ExpectedStep(r.arcs, r.t0, r.i, s);
    assert s !in r.closed;
    forall fd
      ensures fd in closed' <==> ClosedBy(r.arcs, next, fd)
    {
      ExpectedStep(r.arcs, r.t0, r.i, fd);
    }
  }

  // ----- Clean runs -----

  ghost predicate NoDests(arcs: seq<Arc>, temps: seq<int>) {
    forall t :: t in temps ==> !IsDest(arcs, t)
  }

  ghost predicate StageOk(arcs: seq<Arc>, t0: Table, i: nat, s: Stage) {
    && i <= |arcs| && Ready(arcs, t0, i, s.a, s.table, s.temps)
    && ClosesOk(arcs, i, s.closed) && |s.temps| == Duplicates(arcs, i)
  }

  lemma StartOk(arcs: seq<Arc>, t0: Table)
    requires DistinctDests(arcs)
    ensures StageOk(arcs, t0, 0, Stage(arcs, t0, [], []))
  {
    forall k | 0 <= k < |arcs|
      ensures MarkAt(arcs, 0, arcs, k)
    {
      DutyMeans(arcs, k + 1, arcs[k].source);
    }
  }

  lemma CleanRoundOk(r: Round)
    requires Clean(r) && StageOk(r.arcs, r.t0, r.i, Stage(r.b, r.table, r.temps, r.closed))
    ensures StageOk(r.arcs, r.t0, r.i + 1, r.After())
  {
    RoundKeepsReady(r);
    ClosesStep(r);
    MatchedIffUsed(r);
  }

  /** A run whose temporaries are no dests keeps the invariant, and makes a duplicate for
      each arc whose dest is read later. */
  lemma {:induction false} CleanRunOk(arcs: seq<Arc>, t0: Table, rounds: seq<Round>)
    requires DistinctDests(arcs) && AllSourcesOpen(arcs, t0)
    requires IsRun(arcs, t0, rounds) && NoDests(arcs, End(arcs, t0, rounds).temps)
    ensures StageOk(arcs, t0, |rounds|, End(arcs, t0, rounds))
  {
    if rounds == [] {
      StartOk(arcs, t0);
    } else {
      var n := |rounds| - 1;
      RunBefore(arcs, t0, rounds, n);
      assert rounds[..n+1] == rounds;
      var r := rounds[n];
      assert forall t :: t in r.temps ==> t in r.temps';
      CleanRunOk(arcs, t0, rounds[..n]);
      assert r.temp != -1 ==> r.temp in r.temps';
      CleanRoundOk(r);
    }
  }
}
