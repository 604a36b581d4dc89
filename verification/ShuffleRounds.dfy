// base/file_descriptor_shuffle.cc: what one round of the outer loop does to the arcs, the
// descriptor table and the temporaries, and the runs made of such rounds.
//
// A descriptor table is a map from descriptors to the open objects behind them.
module ShuffleRounds {
  import opened Wrappers

  type Table = map<int, int>

  datatype Arc = Arc(source: int, dest: int, close: bool)

  const MAX_EXTRA_FDS := 16

  // ----- What the arcs ask for -----

  ghost predicate IsDest(arcs: seq<Arc>, fd: int) {
    exists k :: 0 <= k < |arcs| && arcs[k].dest == fd
  }

  ghost predicate DistinctDests(arcs: seq<Arc>) {
    forall i, j :: 0 <= i < j < |arcs| ==> arcs[i].dest != arcs[j].dest
  }

  // Some arc reading fd is marked close.
  ghost predicate MarkedClose(arcs: seq<Arc>, fd: int) {
    exists k :: 0 <= k < |arcs| && arcs[k].source == fd && arcs[k].close
  }

  ghost predicate AllSourcesOpen(arcs: seq<Arc>, t0: Table) {
    forall k :: 0 <= k < |arcs| ==> arcs[k].source in t0
  }

  // ----- The inner loop -----

  // What the inner loop does to a later arc b of the head arc.
  function Relabel(head: Arc, b: Arc, temp: int, handed: bool): Arc {
    if head.source != head.dest && b.source == head.dest then Arc(temp, b.dest, false)
    else if handed then b.(close := true)
    else b
  }

  ghost predicate LaterAt(b: seq<Arc>, a: seq<Arc>, i: nat, temp: int, hit: int, k: nat)
    requires i < k < |b| == |a|
  {
    && a[k] == Relabel(b[i], b[k], temp, k == hit && b[k].dest != b[i].source)
    && (b[i].close && (hit == -1 || k < hit) ==> b[k].dest != b[i].source && b[k].source != b[i].source)
  }

  // The inner loop at index j: b is the arc list before it, a the one now; hit is the
  // first later arc that takes the head's close duty away (-1 if none yet).
  ghost predicate InnerOk(b: seq<Arc>, a: seq<Arc>, i: nat, j: nat, temp: int, hit: int) {
    && i < j <= |b| == |a|
    && (hit == -1 || i < hit < j)
    && (forall k :: 0 <= k < i ==> a[k] == b[k])
    && a[i] == b[i].(close := b[i].close && hit == -1)
    && (forall k :: i < k < j ==> LaterAt(b, a, i, temp, hit, k))
    && (hit != -1 ==> b[i].close && (b[hit].dest == b[i].source || b[hit].source == b[i].source))
    && (forall k :: j <= k < |b| ==> a[k] == b[k])
  }

  // One of the arcs in (i, j) reads what the arc at i overwrites.
  ghost predicate Matched(b: seq<Arc>, i: nat, j: nat)
    requires i < j <= |b|
  {
    j > i + 1 && (Matched(b, i, j - 1) || (b[i].source != b[i].dest && b[j-1].source == b[i].dest))
  }

  lemma {:induction false} MatchedMeans(b: seq<Arc>, i: nat, j: nat)
    requires i < j <= |b|
    ensures Matched(b, i, j) <==> exists k :: i < k < j && b[i].source != b[i].dest && b[k].source == b[i].dest
  {
    if j > i + 1 {
      MatchedMeans(b, i, j - 1);
    }
  }

  // The arc at i gives up its close duty at the arc at j, if that reads or writes its source.
  function HandedOn(a: seq<Arc>, i: nat, j: nat): seq<Arc>
    requires i < j < |a|
  {
    if !a[i].close || (a[i].source != a[j].dest && a[i].source != a[j].source) then a
    else
      var a' := a[i := a[i].(close := false)];
      if a[i].source == a[j].dest then a' else a'[j := a[j].(close := true)]
  }

  // One pass of the inner loop's body over the arc at j.
  lemma InnerStep(b: seq<Arc>, a: seq<Arc>, i: nat, j: nat, temp: int, temp': int, hit: int)
    returns (a': seq<Arc>, hit': int)
    requires InnerOk(b, a, i, j, temp, hit) && j < |b|
    requires var copied := b[i].source != b[i].dest && b[j].source == b[i].dest;
             if copied && temp == -1 then temp' != -1 && (b[i].close ==> temp' != b[i].source) else temp' == temp
    requires temp != -1 <==> Matched(b, i, j)
    requires b[i].close && temp != -1 ==> temp != b[i].source
    ensures InnerOk(b, a', i, j + 1, temp', hit')
    ensures a' == HandedOn(a[j := Relabel(a[i], a[j], temp', false)], i, j)
  {
    var later := Relabel(a[i], a[j], temp', false);
    a' := HandedOn(a[j := later], i, j);
    hit' := if a[i].close && (a[i].source == a[j].dest || a[i].source == later.source) then j else hit;
    MatchedMeans(b, i, j);
    forall k | i < k < j + 1
      ensures LaterAt(b, a', i, temp', hit', k)
    {
      assert k < j ==> LaterAt(b, a, i, temp, hit, k);
    }
  }

  // Whatever descriptor t is handed out, the inner loop has a result.
  lemma {:induction false} InnerEnds(b: seq<Arc>, i: nat, j: nat, t: int) returns (a: seq<Arc>, hit: int)
    requires i < j <= |b| && t != -1 && t != b[i].source
    ensures InnerOk(b, a, i, j, if Matched(b, i, j) then t else -1, hit)
  {
    if j == i + 1 {
      a, hit := b, -1;
    } else {
      var a0, hit0 := InnerEnds(b, i, j - 1, t);
      a, hit := InnerStep(b, a0, i, j - 1, if Matched(b, i, j - 1) then t else -1,
                          if Matched(b, i, j) then t else -1, hit0);
    }
  }

  // ----- One round of the outer loop -----

  // The duplicate, if any, made for the head's dest: any descriptor that is not open.
  ghost predicate Duplicated(d: int, table: Table, table': Table, temps: seq<int>, temps': seq<int>, temp: int) {
    if temp == -1 then table' == table && temps' == temps
    else d in table && 0 <= temp && temp !in table
         && table' == table[temp := table[d]] && temps' == temps + [temp]
  }

  // The table once the head arc itself is carried out.
  ghost function Carried(table: Table, head: Arc): Table
    requires head.source in table || head.source == head.dest
  {
    if head.source == head.dest then table
    else
      var moved := table[head.dest := table[head.source]];
      if head.close then moved - {head.source} else moved
  }

  // The state of the outer loop: the arcs as rewritten so far, the table, the temporaries
  // and the sources closed.
  datatype Stage = Stage(a: seq<Arc>, table: Table, temps: seq<int>, closed: seq<int>)

  // The round at index i for the original arcs and table: the stage before it (its arcs
  // called b), and the arcs, the table and the temporaries after its inner loop.
  datatype Round = Round(arcs: seq<Arc>, t0: Table, i: nat,
                         b: seq<Arc>, table: Table, temps: seq<int>, closed: seq<int>,
                         a: seq<Arc>, table': Table, temps': seq<int>, temp: int, hit: int)
  {
    ghost predicate Legal() {
      && i < |b|
      && InnerOk(b, a, i, |b|, temp, hit)
      && (temp != -1 <==> Matched(b, i, |b|))
      && Duplicated(b[i].dest, table, table', temps, temps', temp)
      && (b[i].source in table || b[i].source == b[i].dest)
    }

    ghost function Result(): Table
      requires Legal()
    {
      Carried(table', a[i])
    }

    ghost predicate Closes()
      requires Legal()
    {
      a[i].source != a[i].dest && a[i].close
    }

    ghost function After(): Stage
      requires Legal()
    {
      Stage(a, Result(), temps', if Closes() then closed + [a[i].source] else closed)
    }
  }

  // ----- Runs -----

  ghost predicate InRun(arcs: seq<Arc>, t0: Table, rounds: seq<Round>, k: nat)
    requires k < |rounds|
  {
    var r := rounds[k];
    && r.arcs == arcs && r.t0 == t0 && r.i == k && r.Legal()
    && (k > 0 ==> rounds[k-1].Legal())
    && Stage(r.b, r.table, r.temps, r.closed) == if k == 0 then Stage(arcs, t0, [], []) else rounds[k-1].After()
  }

  // The first rounds of a call in which no operation of the delegate has failed.
  ghost predicate IsRun(arcs: seq<Arc>, t0: Table, rounds: seq<Round>) {
    |rounds| <= |arcs| && forall k: nat :: k < |rounds| ==> InRun(arcs, t0, rounds, k)
  }

  ghost function End(arcs: seq<Arc>, t0: Table, rounds: seq<Round>): Stage
    requires IsRun(arcs, t0, rounds)
  {
    if rounds == [] then Stage(arcs, t0, [], [])
    else
      assert InRun(arcs, t0, rounds, |rounds| - 1);
      rounds[|rounds| - 1].After()
  }

  // The temporaries that the final clean-up knows of, and the others.
  function Tracked(temps: seq<int>): seq<int> {
    if |temps| <= MAX_EXTRA_FDS then temps else temps[..MAX_EXTRA_FDS]
  }

  function Leaked(temps: seq<int>): seq<int> {
    if |temps| <= MAX_EXTRA_FDS then [] else temps[MAX_EXTRA_FDS..]
  }

  // The table after the final clean-up of a whole run.
  ghost function CleanedUp(table: Table, temps: seq<int>): Table {
    map fd | fd in table && fd !in Tracked(temps) :: table[fd]
  }

  ghost predicate IsWholeRun(arcs: seq<Arc>, t0: Table, rounds: seq<Round>) {
    |rounds| == |arcs| && IsRun(arcs, t0, rounds)
  }

  ghost function FinalTable(arcs: seq<Arc>, t0: Table, rounds: seq<Round>): Table
    requires IsWholeRun(arcs, t0, rounds)
  {
    CleanedUp(End(arcs, t0, rounds).table, End(arcs, t0, rounds).temps)
  }

  // The round that follows a run.
  ghost predicate NextRound(arcs: seq<Arc>, t0: Table, rounds: seq<Round>, r: Round)
    requires IsRun(arcs, t0, rounds)
  {
    && r.arcs == arcs && r.t0 == t0 && r.i == |rounds| < |arcs| && r.Legal()
    && Stage(r.b, r.table, r.temps, r.closed) == End(arcs, t0, rounds)
  }

  lemma RunGrows(arcs: seq<Arc>, t0: Table, rounds: seq<Round>, r: Round)
    requires IsRun(arcs, t0, rounds) && NextRound(arcs, t0, rounds, r)
    ensures IsRun(arcs, t0, rounds + [r]) && End(arcs, t0, rounds + [r]) == r.After()
  {
    var longer := rounds + [r];
    forall k: nat | k < |longer|
      ensures InRun(arcs, t0, longer, k)
    {
      assert k < |rounds| ==> InRun(arcs, t0, rounds, k);
      assert k == |rounds| > 0 ==> InRun(arcs, t0, rounds, k - 1);
    }
  }

  lemma RunBefore(arcs: seq<Arc>, t0: Table, rounds: seq<Round>, n: nat)
    requires IsRun(arcs, t0, rounds) && n < |rounds|
    ensures IsRun(arcs, t0, rounds[..n]) && NextRound(arcs, t0, rounds[..n], rounds[n])
    ensures IsRun(arcs, t0, rounds[..n+1]) && End(arcs, t0, rounds[..n+1]) == rounds[n].After()
  {
    var before := rounds[..n];
    forall k: nat | k < n
      ensures InRun(arcs, t0, before, k)
    {
      assert InRun(arcs, t0, rounds, k);
    }
    assert InRun(arcs, t0, rounds, n);
    RunGrows(arcs, t0, before, rounds[n]);
    assert rounds[..n+1] == before + [rounds[n]];
  }

  // ----- With all sources open, no round gets stuck -----

  // The arc at k, still to come, reads the object that its original source held.
  ghost predicate ReadsAt(arcs: seq<Arc>, t0: Table, a: seq<Arc>, table: Table, k: nat)
    requires k < |arcs| == |a|
  {
    a[k].dest == arcs[k].dest && Get(table, a[k].source) == Get(t0, arcs[k].source)
  }

  ghost predicate ReadsOk(arcs: seq<Arc>, t0: Table, i: nat, s: Stage) {
    |s.a| == |arcs| && forall k: nat :: i <= k < |arcs| ==> ReadsAt(arcs, t0, s.a, s.table, k)
  }

  lemma RoundKeepsReads(r: Round)
    requires r.Legal() && AllSourcesOpen(r.arcs, r.t0)
    requires ReadsOk(r.arcs, r.t0, r.i, Stage(r.b, r.table, r.temps, r.closed))
    ensures ReadsOk(r.arcs, r.t0, r.i + 1, r.After())
  {
    assert ReadsAt(r.arcs, r.t0, r.b, r.table, r.i);
    forall k: nat | r.i + 1 <= k < |r.arcs|
      ensures ReadsAt(r.arcs, r.t0, r.a, r.Result(), k)
    {
      assert ReadsAt(r.arcs, r.t0, r.b, r.table, k) && LaterAt(r.b, r.a, r.i, r.temp, r.hit, k);
      if r.b[r.i].source != r.b[r.i].dest && r.b[k].source == r.b[r.i].dest {
        MatchedMeans(r.b, r.i, |r.b|);
      }
    }
  }

  lemma {:induction false} RunKeepsReads(arcs: seq<Arc>, t0: Table, rounds: seq<Round>)
    requires AllSourcesOpen(arcs, t0) && IsRun(arcs, t0, rounds)
    ensures ReadsOk(arcs, t0, |rounds|, End(arcs, t0, rounds))
  {
    if rounds != [] {
      var n := |rounds| - 1;
      RunBefore(arcs, t0, rounds, n);
      RunKeepsReads(arcs, t0, rounds[..n]);
      RoundKeepsReads(rounds[n]);
      assert rounds[..n+1] == rounds;
    }
  }

  /** Whatever descriptor that is not open Duplicate hands out, there is a next round. */
  lemma RoundExists(arcs: seq<Arc>, t0: Table, rounds: seq<Round>, t: int) returns (r: Round)
    requires AllSourcesOpen(arcs, t0) && IsRun(arcs, t0, rounds) && |rounds| < |arcs|
    requires 0 <= t && t !in End(arcs, t0, rounds).table
    ensures NextRound(arcs, t0, rounds, r) && (r.temp == -1 || r.temp == t)
  {
    var i, s := |rounds|, End(arcs, t0, rounds);
    RunKeepsReads(arcs, t0, rounds);
    assert ReadsAt(arcs, t0, s.a, s.table, i);
    var a, hit := InnerEnds(s.a, i, |s.a|, t);
    if Matched(s.a, i, |s.a|) {
      MatchedMeans(s.a, i, |s.a|);
      var k :| i < k < |s.a| && s.a[k].source == s.a[i].dest;
      assert ReadsAt(arcs, t0, s.a, s.table, k);
      r := Round(arcs, t0, i, s.a, s.table, s.temps, s.closed, a, s.table[t := s.table[s.a[i].dest]],
                 s.temps + [t], t, hit);
    } else {
      r := Round(arcs, t0, i, s.a, s.table, s.temps, s.closed, a, s.table, s.temps, -1, hit);
    }
  }

  lemma FreshExists(s: set<int>)
    ensures exists n :: 0 <= n && n !in s
  {
    var bound := Bound(s);
    assert bound !in s;
  }

  ghost function Bound(s: set<int>): (n: nat)
    ensures forall x :: x in s ==> x < n
  {
    if s == {} then 0
    else
      assert (forall x :: x !in s) ==> s == {};
      var x :| x in s;
      var n := Bound(s - {x});
      assert forall y :: y in s ==> y == x || y in s - {x};
      if n <= x then x + 1 else n
  }

  // A run can be completed with temporaries outside any given set.
  lemma {:induction false} RunCompletes(arcs: seq<Arc>, t0: Table, rounds: seq<Round>, avoided: set<int>)
    returns (whole: seq<Round>)
    requires AllSourcesOpen(arcs, t0) && IsRun(arcs, t0, rounds)
    ensures IsWholeRun(arcs, t0, whole) && rounds <= whole
    ensures End(arcs, t0, rounds).temps <= End(arcs, t0, whole).temps
    ensures forall t :: t in End(arcs, t0, whole).temps ==> t in End(arcs, t0, rounds).temps || t !in avoided
    decreases |arcs| - |rounds|
  {
    if |rounds| == |arcs| {
      whole := rounds;
    } else {
      var taken := End(arcs, t0, rounds).table.Keys + avoided;
      FreshExists(taken);
      var t :| 0 <= t && t !in taken;
      var r := RoundExists(arcs, t0, rounds, t);
      RunGrows(arcs, t0, rounds, r);
      whole := RunCompletes(arcs, t0, rounds + [r], avoided);
    }
  }

  // ----- Temporaries stay open until the clean-up -----

  ghost predicate TempsOpen(i: nat, s: Stage) {
    && Distinct(s.temps)
    && (forall t :: t in s.temps ==> t in s.table)
    && forall k :: i <= k < |s.a| && s.a[k].close ==> s.a[k].source !in s.temps
  }

  lemma RoundKeepsTemps(r: Round)
    requires r.Legal() && AllSourcesOpen(r.arcs, r.t0)
    requires ReadsOk(r.arcs, r.t0, r.i, Stage(r.b, r.table, r.temps, r.closed))
    requires TempsOpen(r.i, Stage(r.b, r.table, r.temps, r.closed))
    ensures TempsOpen(r.i + 1, r.After())
  {
    assert ReadsAt(r.arcs, r.t0, r.b, r.table, r.i);
    forall k: nat | r.i + 1 <= k < |r.a| && r.a[k].close
      ensures r.a[k].source !in r.temps'
    {
      assert ReadsAt(r.arcs, r.t0, r.b, r.table, k) && LaterAt(r.b, r.a, r.i, r.temp, r.hit, k);
    }
  }

  lemma {:induction false} RunKeepsTemps(arcs: seq<Arc>, t0: Table, rounds: seq<Round>)
    requires AllSourcesOpen(arcs, t0) && IsRun(arcs, t0, rounds)
    ensures TempsOpen(|rounds|, End(arcs, t0, rounds))
  {
    if rounds != [] {
      var n := |rounds| - 1;
      RunBefore(arcs, t0, rounds, n);
      RunKeepsTemps(arcs, t0, rounds[..n]);
      RunKeepsReads(arcs, t0, rounds[..n]);
      RoundKeepsTemps(rounds[n]);
      assert rounds[..n+1] == rounds;
    }
  }
}
