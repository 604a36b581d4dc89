// base/file_path.cc in its POSIX configuration: one separator, no drive letters.
// "//" at the front of a path names an alternate root (The Open Group Base Specifications
// Issue 7, sections 3.266 and 4.12).
module FilePaths {
  import opened Wrappers

  predicate IsSeparator(c: char) {
    c == '/'
  }

  predicate AreAllSeparators(s: string) {
    forall i :: 0 <= i < |s| ==> IsSeparator(s[i])
  }

  predicate SeparatorFree(s: string) {
    forall i :: 0 <= i < |s| ==> !IsSeparator(s[i])
  }

  predicate EndsWithSeparator(s: string) {
    s != "" && IsSeparator(s[|s| - 1])
  }

  // ----- What the operations compute -----

  // Trailing separators removed; of a path of separators only, a root is kept.
  function Strip(p: string): string {
    if !EndsWithSeparator(p) then p
    else if AreAllSeparators(p) then (if |p| == 2 then p else "/")
    else Strip(p[..|p| - 1])
  }

  // find_last_of(kSeparators), with -1 for npos.
  function LastSeparator(s: string): (i: int)
    ensures -1 <= i < |s|
    ensures i >= 0 ==> IsSeparator(s[i])
    ensures forall j :: i < j < |s| ==> !IsSeparator(s[j])
  {
    if s == "" then -1
    else if EndsWithSeparator(s) then |s| - 1
    else LastSeparator(s[..|s| - 1])
  }

  function DirNameOf(p: string): string {
    var s := Strip(p);
    var last := LastSeparator(s);
    var dir :=
      if last == -1 then ""
      else if last == 0 then s[..1]
      else if last == 1 && IsSeparator(s[0]) then s[..2]
      else s[..last];
    if Strip(dir) == "" then "." else Strip(dir)
  }

  function BaseNameOf(p: string): string {
    var s := Strip(p);
    var last := LastSeparator(s);
    if last != -1 && last < |s| - 1 then s[last + 1..] else s
  }

  function AppendTo(p: string, component: string): string {
    if p == "." then component
    else
      var s := Strip(p);
      if component != "" && s != "" && !EndsWithSeparator(s) then s + "/" + component
      else s + component
  }

  // No absolute path.
  predicate Appendable(component: string) {
    component == "" || !IsSeparator(component[0])
  }

  // ----- What a path means: its root and its runs of other characters -----

  // The length of the first run of characters that are not separators.
  function RunLength(s: string): (n: nat)
    ensures n <= |s| && SeparatorFree(s[..n]) && (n < |s| ==> IsSeparator(s[n]))
  {
    if s == "" || IsSeparator(s[0]) then 0 else 1 + RunLength(s[1..])
  }

  // The maximal separator-free runs, in order.
  function Runs(s: string): seq<string>
    decreases |s|
  {
    if s == "" then []
    else if IsSeparator(s[0]) then Runs(s[1..])
    else [s[..RunLength(s)]] + Runs(s[RunLength(s)..])
  }

  function Leading(s: string): (n: nat)
    ensures n <= |s|
  {
    if s == "" || !IsSeparator(s[0]) then 0 else 1 + Leading(s[1..])
  }

  function Root(p: string): seq<string> {
    var n := Leading(p);
    if n == 0 then []
    else if n == 2 || (n == 3 && Runs(p) != []) then ["//"]
    else ["/"]
  }

  // A leading "." of a relative path is dropped if another component follows, or if it is
  // the whole path.
  predicate DropsDot(p: string) {
    Leading(p) == 0 && Runs(p) != [] && Runs(p)[0] == "." && (|Runs(p)| > 1 || p == ".")
  }

  function ComponentsOf(p: string): seq<string> {
    Root(p) + if DropsDot(p) then Runs(p)[1..] else Runs(p)
  }

  // ----- Basic facts -----

  lemma {:induction false} StripKeeps(p: string)
    ensures Strip(p) <= p
    ensures !AreAllSeparators(p) ==> Strip(p) != "" && !EndsWithSeparator(Strip(p))
    ensures AreAllSeparators(p) ==> Strip(p) == if |p| == 0 then "" else if |p| == 2 then "//" else "/"
    ensures Runs(Strip(p)) == Runs(p)
    decreases |p|
  {
    if EndsWithSeparator(p) {
      if AreAllSeparators(p) {
        AllSeparatorsRuns(p);
      } else {
        var q := p[..|p| - 1];
        assert !AreAllSeparators(q);
        StripKeeps(q);
        assert p == q + "/" + "";
        RunsSplit(q, "");
      }
    }
  }

  lemma {:induction false} AllSeparatorsRuns(p: string)
    requires AreAllSeparators(p)
    ensures Runs(p) == [] && Leading(p) == |p|
  {
    if p != "" {
      AllSeparatorsRuns(p[1..]);
    }
  }

  lemma RunsOfHead(x: string, rest: string)
    requires x != "" && SeparatorFree(x) && (rest == "" || IsSeparator(rest[0]))
    ensures Runs(x + rest) == [x] + Runs(rest)
  {
    var s := x + rest;
    assert s[..|x|] == x && s[|x|..] == rest;
    RunLengthIs(s, |x|);
    assert !IsSeparator(s[0]) by { assert s[0] == x[0]; }
  }

  lemma {:induction false} RunsSplit(a: string, b: string)
    ensures Runs(a + "/" + b) == Runs(a) + Runs(b)
    decreases |a|
  {
    if a == "" {
      assert a + "/" + b == "/" + b && ("/" + b)[1..] == b;
    } else if IsSeparator(a[0]) {
      assert a + "/" + b == [a[0]] + (a[1..] + "/" + b);
      SkipSeparator(a[0], a[1..] + "/" + b);
      RunsSplit(a[1..], b);
    } else {
      var x, rest := a[..RunLength(a)], a[RunLength(a)..];
      RunsSplit(rest, b);
      RunInFront(x, rest, b);
      assert a == x + rest;
    }
  }

  lemma SkipSeparator(c: char, rest: string)
    requires IsSeparator(c)
    ensures Runs([c] + rest) == Runs(rest)
  {
    assert ([c] + rest)[1..] == rest;
  }

  lemma RunInFront(x: string, rest: string, b: string)
    requires x != "" && SeparatorFree(x) && (rest == "" || IsSeparator(rest[0]))
    requires Runs(rest + "/" + b) == Runs(rest) + Runs(b)
    ensures Runs(x + rest + "/" + b) == Runs(x + rest) + Runs(b)
  {
    assert x + rest + "/" + b == x + (rest + "/" + b);
    RunsOfHead(x, rest + "/" + b);
    RunsOfHead(x, rest);
    ConcatAssoc([x], Runs(rest), Runs(b));
  }

  lemma {:induction false} RunLengthIs(s: string, n: nat)
    requires n <= |s| && SeparatorFree(s[..n]) && (n < |s| ==> IsSeparator(s[n]))
    ensures RunLength(s) == n
  {
    if n > 0 {
      assert !IsSeparator(s[..n][0]);
      assert s[1..][..n-1] == s[..n][1..];
      RunLengthIs(s[1..], n - 1);
    }
  }

  lemma RunsOfOne(c: string)
    requires c != "" && SeparatorFree(c)
    ensures Runs(c) == [c] && Leading(c) == 0
  {
    assert c[..|c|] == c;
    RunLengthIs(c, |c|);
  }

  lemma LastSeparatorIs(s: string, i: int)
    requires -1 <= i < |s| && (i >= 0 ==> IsSeparator(s[i])) && forall j :: i < j < |s| ==> !IsSeparator(s[j])
    ensures LastSeparator(s) == i
  {
  }

  lemma {:induction false} LeadingOfConcat(a: string, b: string)
    ensures !AreAllSeparators(a) ==> Leading(a + b) == Leading(a) && Leading(a) < |a|
    ensures AreAllSeparators(a) ==> Leading(a + b) == |a| + Leading(b)
  {
    if a == "" {
      assert a + b == b;
    } else {
      assert (a + b)[1..] == a[1..] + b;
      if IsSeparator(a[0]) {
        LeadingOfConcat(a[1..], b);
        assert AreAllSeparators(a[1..]) ==> AreAllSeparators(a);
      }
    }
  }

  // Stripping is idempotent, and keeps exactly "/" or "//" of a root.
  lemma StripIdempotent(p: string)
    ensures Strip(Strip(p)) == Strip(p)
    ensures EndsWithSeparator(Strip(p)) <==> Strip(p) == "/" || Strip(p) == "//"
  {
    StripKeeps(p);
  }

  // ----- DirName and BaseName take the last run off -----

  // A path with some run ends, after stripping, with its last run.
  lemma LastRun(p: string)
    requires !AreAllSeparators(p)
    ensures var s := Strip(p);
            var i := LastSeparator(s);
            && i < |s| - 1 && BaseNameOf(p) == s[i+1..] && BaseNameOf(p) != "" && SeparatorFree(BaseNameOf(p))
            && Runs(p) == (if i == -1 then [] else Runs(s[..i])) + [BaseNameOf(p)]
  {
    StripKeeps(p);
    RunsOfStripped(Strip(p), LastSeparator(Strip(p)));
  }

  lemma RunsOfStripped(s: string, i: int)
    requires s != "" && !EndsWithSeparator(s) && i == LastSeparator(s)
    ensures i < |s| - 1 && SeparatorFree(s[i+1..])
    ensures Runs(s) == (if i == -1 then [] else Runs(s[..i])) + [s[i+1..]]
  {
    RunsOfOne(s[i+1..]);
    if i >= 0 {
      CutAtSeparator(s, i);
    } else {
      assert s[0..] == s;
    }
  }

  lemma CutAtSeparator(s: string, i: nat)
    requires i < |s| && IsSeparator(s[i])
    ensures Runs(s) == Runs(s[..i]) + Runs(s[i+1..])
  {
    JoinedAt(s, i);
    RunsSplit(s[..i], s[i+1..]);
  }

  lemma JoinedAt(s: string, i: nat)
    requires i < |s| && s[i] == '/'
    ensures s[..i] + "/" + s[i+1..] == s
  {
  }

  lemma SingleRun(p: string)
    requires !AreAllSeparators(p) && LastSeparator(Strip(p)) == -1
    ensures DirNameOf(p) == "." && Leading(p) == 0 && Runs(p) == [Strip(p)]
    ensures p != "." ==> ComponentsOf(p) == ComponentsOf(".") + [BaseNameOf(p)]
  {
    StripKeeps(p);
    LastRun(p);
    assert Strip(p)[0] == p[0];
    RunsOfOne(".");
  }

  lemma RootComponents()
    ensures ComponentsOf("/") == ["/"] && ComponentsOf("//") == ["//"] && ComponentsOf(".") == []
    ensures Strip("/") == "/" && Strip("//") == "//" && Strip(".") == "."
  {
    AllSeparatorsRuns("/");
    AllSeparatorsRuns("//");
    RunsOfOne(".");
  }

  // Everything before the last run is i separators and one more.
  lemma BelowRootDir(p: string, s: string, i: nat)
    requires s == Strip(p) && i < |s| && LastSeparator(s) == i && AreAllSeparators(s[..i])
    ensures DirNameOf(p) == if i == 1 || i == 2 then "//" else "/"
  {
    StripKeeps(s[..i]);
    if i == 0 {
      assert s[..1] == "/";
    } else if i == 1 {
      assert IsSeparator(s[..i][0]) && s[..2] == "//";
    } else {
      assert Strip(s[..i]) == if i == 2 then "//" else "/";
    }
    RootsStripped();
  }

  lemma RootsStripped()
    ensures Strip("/") == "/" && Strip("//") == "//"
  {
  }

  lemma BelowRootParts(p: string, s: string, i: nat)
    requires !AreAllSeparators(p) && s == Strip(p) && LastSeparator(s) == i && AreAllSeparators(s[..i])
    ensures Leading(p) == i + 1 && Runs(p) == [BaseNameOf(p)]
  {
    StripKeeps(p);
    LastRun(p);
    AllSeparatorsRuns(s[..i]);
    SameLeading(p, s);
    LeadingBefore(s, i + 1);
  }

  lemma {:induction false} LeadingBefore(s: string, n: nat)
    requires n < |s| && !IsSeparator(s[n]) && forall j :: 0 <= j < n ==> IsSeparator(s[j])
    ensures Leading(s) == n
  {
    if n > 0 {
      LeadingBefore(s[1..], n - 1);
    }
  }

  lemma RootedRun(p: string, n: nat, x: string)
    requires n > 0 && Leading(p) == n && Runs(p) == [x]
    ensures ComponentsOf(p) == [if n == 2 || n == 3 then "//" else "/"] + [x]
  {
  }

  lemma BelowRoot(p: string)
    requires !AreAllSeparators(p) && LastSeparator(Strip(p)) >= 0
    requires AreAllSeparators(Strip(p)[..LastSeparator(Strip(p))])
    ensures DirNameOf(p) == "/" || DirNameOf(p) == "//"
    ensures ComponentsOf(p) == ComponentsOf(DirNameOf(p)) + [BaseNameOf(p)]
  {
    var s := Strip(p);
    BelowRootDir(p, s, LastSeparator(s));
    BelowRootParts(p, s, LastSeparator(s));
    RootComponents();
    RootedRun(p, LastSeparator(s) + 1, BaseNameOf(p));
  }

  lemma BelowOtherDir(p: string, s: string, i: nat)
    requires s == Strip(p) && i < |s| && LastSeparator(s) == i && !AreAllSeparators(s[..i])
    ensures DirNameOf(p) == Strip(s[..i])
  {
    StripKeeps(s[..i]);
    StripIdempotent(s[..i]);
    if i == 1 {
      assert !IsSeparator(s[0]);
    }
  }

  lemma BelowOtherParts(p: string, s: string, i: nat)
    requires !AreAllSeparators(p) && s == Strip(p) && LastSeparator(s) == i && !AreAllSeparators(s[..i])
    ensures Leading(p) == Leading(Strip(s[..i]))
    ensures Runs(p) == Runs(Strip(s[..i])) + [BaseNameOf(p)]
    ensures Runs(Strip(s[..i])) != [] && !AreAllSeparators(Strip(s[..i]))
  {
    var q := s[..i];
    var d := Strip(q);
    StripKeeps(p);
    StripKeeps(q);
    LastRun(p);
    LastRun(q);
    assert !IsSeparator(d[|d| - 1]);
    SameLeading(p, s);
    SameLeading(s, q);
    SameLeading(q, d);
  }

  // One more run extends the components by one.
  lemma OneMoreRun(p: string, d: string, x: string)
    requires Leading(p) == Leading(d) && Runs(p) == Runs(d) + [x] && Runs(d) != []
    requires Strip(d) != "." || d == "."
    requires !AreAllSeparators(d)
    ensures ComponentsOf(p) == ComponentsOf(d) + [x]
  {
    if Leading(d) == 0 && |Runs(d)| == 1 {
      DotAlone(d);
    }
    assert Runs(p)[0] == Runs(d)[0] && |Runs(p)| > 1;
    assert DropsDot(p) == DropsDot(d) && Root(p) == Root(d);
    OneMore(Root(d), Runs(d), x);
  }

  lemma OneMore(root: seq<string>, runs: seq<string>, x: string)
    requires runs != []
    ensures root + (runs + [x]) == root + runs + [x]
    ensures root + (runs + [x])[1..] == root + runs[1..] + [x]
  {
    assert (runs + [x])[1..] == runs[1..] + [x];
  }

  lemma BelowOther(p: string)
    requires !AreAllSeparators(p) && LastSeparator(Strip(p)) >= 0
    requires !AreAllSeparators(Strip(p)[..LastSeparator(Strip(p))])
    ensures ComponentsOf(p) == ComponentsOf(DirNameOf(p)) + [BaseNameOf(p)]
  {
    var s := Strip(p);
    var i := LastSeparator(s);
    BelowOtherDir(p, s, i);
    BelowOtherParts(p, s, i);
    StripIdempotent(s[..i]);
    OneMoreRun(p, Strip(s[..i]), BaseNameOf(p));
  }

  // A prefix with a run has the same leading separators.
  lemma SameLeading(p: string, q: string)
    requires q <= p && !AreAllSeparators(q)
    ensures Leading(p) == Leading(q) && !AreAllSeparators(p)
  {
    assert p == q + p[|q|..];
    LeadingOfConcat(q, p[|q|..]);
    var i :| 0 <= i < |q| && !IsSeparator(q[i]);
    assert !IsSeparator(p[i]);
  }

  // A relative path with a single run is, but for trailing separators, that run.
  lemma DotAlone(d: string)
    requires Leading(d) == 0 && |Runs(d)| == 1
    ensures Runs(d) == [Strip(d)]
  {
    if AreAllSeparators(d) {
      AllSeparatorsRuns(d);
    }
    LastRun(d);
    var s := Strip(d);
    var i := LastSeparator(s);
    StripKeeps(d);
    assert !IsSeparator(s[0]);
    assert i == -1;
  }

  /** Taking the base name off: the directory has all components but the last. */
  lemma DirStep(p: string)
    requires p != "" && DirNameOf(p) != p
    ensures DirNameOf(p) != ""
    ensures ComponentsOf(p) == ComponentsOf(DirNameOf(p)) + if AreAllSeparators(BaseNameOf(p)) then []
            else [BaseNameOf(p)]
  {
    StripKeeps(p);
    RootComponents();
    if AreAllSeparators(p) {
      AllSeparatorsRuns(p);
      SeparatorsOnly(p);
    } else {
      LastRun(p);
      assert !IsSeparator(BaseNameOf(p)[0]);
      if LastSeparator(Strip(p)) == -1 {
        SingleRun(p);
      } else if AreAllSeparators(Strip(p)[..LastSeparator(Strip(p))]) {
        BelowRoot(p);
      } else {
        BelowOther(p);
      }
    }
  }

  lemma SeparatorsOnly(p: string)
    requires AreAllSeparators(p) && p != ""
    ensures DirNameOf(p) == Strip(p) == BaseNameOf(p)
  {
    StripKeeps(p);
    RootsStripped();
    var s := Strip(p);
    assert s == "/" || s == "//";
    assert LastSeparator(s) == |s| - 1 && s[..|s|] == s;
  }

  // The root by POSIX pathname resolution: exactly two leading separators name a root of
  // their own, one or more than two the ordinary one.
  function PosixRoot(p: string): seq<string> {
    if Leading(p) == 0 then [] else if Leading(p) == 2 then ["//"] else ["/"]
  }

  /** The components are the POSIX root, if any, followed by the runs in order, except where a
      leading "." is dropped and where three separators precede a run. */
  lemma PosixComponentsIff(p: string)
    ensures ComponentsOf(p) == PosixRoot(p) + Runs(p) <==> !DropsDot(p) && !(Leading(p) == 3 && Runs(p) != [])
  {
    if Leading(p) == 3 && Runs(p) != [] {
      assert ComponentsOf(p)[0] == "//" && (PosixRoot(p) + Runs(p))[0] == "/";
    } else if DropsDot(p) {
      assert |ComponentsOf(p)| < |PosixRoot(p) + Runs(p)|;
    }
  }

  // Three separators before a run are taken for the root "//", which POSIX gives to two only.
  lemma ThreeSeparators()
    ensures ComponentsOf("///a") == ["//", "a"] && PosixRoot("///a") + Runs("///a") == ["/", "a"]
    ensures DirNameOf("///a") == "//"
  {
    RunsOfThree("a");
    RunsOfOne("a");
    assert "///" + "a" == "///a";
    LeadingBefore("///a", 3);
    DirOfThree();
  }

  lemma RunsOfThree(a: string)
    ensures Runs("///" + a) == Runs(a)
  {
    assert "///" + a == ['/'] + (['/'] + (['/'] + a));
    SkipSeparator('/', ['/'] + (['/'] + a));
    SkipSeparator('/', ['/'] + a);
    SkipSeparator('/', a);
  }

  lemma DirOfThree()
    ensures DirNameOf("///a") == "//"
  {
    TakeApart("///", "a");
    assert "///" + "a" == "///a";
    BelowRootDir("///a", "///a", 2);
  }

  // In particular: no "." among the runs, and at most two leading separators.
  lemma RootAndRuns(p: string)
    requires "." !in Runs(p) && Leading(p) <= 2
    ensures ComponentsOf(p) == (if Leading(p) == 0 then [] else [p[..Leading(p)]]) + Runs(p)
  {
    PosixComponentsIff(p);
    LeadingAre(p);
    var root := p[..Leading(p)];
    assert |root| == 1 ==> root == "/";
    assert |root| == 2 ==> IsSeparator(root[0]) && IsSeparator(root[1]) && root == "//";
  }

  lemma {:induction false} LeadingAre(p: string)
    ensures AreAllSeparators(p[..Leading(p)])
  {
    if p != "" && IsSeparator(p[0]) {
      LeadingAre(p[1..]);
      assert p[..Leading(p)] == [p[0]] + p[1..][..Leading(p[1..])];
    }
  }

  /** A directory is stripped; it is "." where the stripped path has no separator, and otherwise
      the front of the path up to, and without, its last run. */
  lemma DirAndBase(p: string)
    ensures Strip(DirNameOf(p)) == DirNameOf(p)
    ensures DirNameOf("") == "." && BaseNameOf("") == ""
    ensures AreAllSeparators(p) && p != "" ==> DirNameOf(p) == BaseNameOf(p) == Strip(p)
    ensures !AreAllSeparators(p) ==>
              && BaseNameOf(p) != "" && SeparatorFree(BaseNameOf(p))
              && BaseNameOf(p) == Strip(p)[|Strip(p)| - |BaseNameOf(p)|..]
              && (if SeparatorFree(Strip(p)) then DirNameOf(p) == "." && BaseNameOf(p) == Strip(p)
                  else DirNameOf(p) <= p)
  {
    RootComponents();
    DirStripped(p);
    if AreAllSeparators(p) {
      if p != "" {
        SeparatorsOnly(p);
      }
    } else {
      LastRun(p);
      DirInFront(p);
    }
  }

  lemma DirStripped(p: string)
    ensures Strip(DirNameOf(p)) == DirNameOf(p) && DirNameOf("") == "." && BaseNameOf("") == ""
  {
    RootComponents();
    var s := Strip(p);
    var last := LastSeparator(s);
    StripIdempotent(if last == -1 then "" else if last == 0 then s[..1]
                    else if last == 1 && IsSeparator(s[0]) then s[..2] else s[..last]);
  }

  lemma RootsInFront(s: string, i: nat)
    requires i < |s| && IsSeparator(s[i]) && AreAllSeparators(s[..i])
    ensures "/" <= s && (i > 0 ==> "//" <= s)
  {
    forall k | 0 <= k < i
      ensures s[k] == '/'
    {
      assert IsSeparator(s[..i][k]);
    }
  }

  lemma DirInFront(p: string)
    requires !AreAllSeparators(p)
    ensures if SeparatorFree(Strip(p)) then DirNameOf(p) == "." && BaseNameOf(p) == Strip(p)
            else DirNameOf(p) <= p
  {
    var s := Strip(p);
    var i := LastSeparator(s);
    StripKeeps(p);
    if i == -1 {
      SingleRun(p);
      assert SeparatorFree(s);
    } else if AreAllSeparators(s[..i]) {
      BelowRootDir(p, s, i);
      RootsInFront(s, i);
    } else {
      BelowOtherDir(p, s, i);
      StripKeeps(s[..i]);
      assert IsSeparator(s[i]);
    }
  }

  // ----- DirName chains end -----

  predicate IsTop(p: string) {
    p == "." || p == "/" || p == "//"
  }

  // How far a path is from the end of its DirName chain, at most.
  function Height(p: string): nat {
    if IsTop(p) then 0 else |p| + 1
  }

  lemma DirShrinks(p: string)
    ensures IsTop(p) ==> DirNameOf(p) == p
    ensures !IsTop(p) ==> Height(DirNameOf(p)) < Height(p)
  {
    StripKeeps(p);
    RootComponents();
    if AreAllSeparators(p) {
      if p == "" {
        assert DirNameOf("") == ".";
      } else {
        SeparatorsOnly(p);
      }
    } else {
      var s := Strip(p);
      var i := LastSeparator(s);
      if i == -1 {
        SingleRun(p);
      } else if AreAllSeparators(s[..i]) {
        BelowRoot(p);
      } else {
        BelowOtherDir(p, s, i);
        StripKeeps(s[..i]);
      }
    }
  }

  /** The only fixed points of DirName are ".", "/" and "//". */
  lemma DirFixedPoints(p: string)
    ensures DirNameOf(p) == p <==> IsTop(p)
  {
    DirShrinks(p);
  }

  function DirChain(p: string, n: nat): string
    decreases n
  {
    if n == 0 then p else DirChain(DirNameOf(p), n - 1)
  }

  /** Every DirName chain reaches one of them. */
  lemma {:induction false} DirChainEnds(p: string)
    ensures IsTop(DirChain(p, Height(p)))
    decreases Height(p)
  {
    DirShrinks(p);
    if !IsTop(p) {
      DirChainEnds(DirNameOf(p));
      StaysAtTop(DirNameOf(p), Height(DirNameOf(p)), Height(p) - 1);
    }
  }

  lemma {:induction false} StaysAtTop(p: string, m: nat, n: nat)
    requires m <= n && IsTop(DirChain(p, m))
    ensures IsTop(DirChain(p, n))
    decreases n
  {
    if m > 0 {
      StaysAtTop(DirNameOf(p), m - 1, n - 1);
    } else if n > 0 {
      DirShrinks(p);
      StaysAtTop(DirNameOf(p), 0, n - 1);
    }
  }

  // ----- Append and its inverses -----

  lemma LastSeparatorOf(front: string, c: string)
    requires SeparatorFree(c) && (front == "" || EndsWithSeparator(front))
    ensures LastSeparator(front + c) == |front| - 1
  {
    var a := front + c;
    forall j | |front| <= j < |a|
      ensures !IsSeparator(a[j])
    {
      assert a[j] == c[j - |front|];
    }
    LastSeparatorIs(a, |front| - 1);
  }

  // Taking apart a path known to end with the run c.
  lemma TakeApart(front: string, c: string)
    requires c != "" && SeparatorFree(c) && (front == "" || EndsWithSeparator(front))
    ensures LastSeparator(front + c) == |front| - 1
    ensures Strip(front + c) == front + c && BaseNameOf(front + c) == c
  {
    LastSeparatorOf(front, c);
    EndsWithRun(front, c);
    assert (front + c)[|front|..] == c;
  }

  lemma EndsWithRun(front: string, c: string)
    requires c != "" && SeparatorFree(c)
    ensures !EndsWithSeparator(front + c) && Strip(front + c) == front + c
  {
    assert (front + c)[|front + c| - 1] == c[|c| - 1];
  }

  lemma AppendToRoot(s: string, c: string)
    requires (s == "/" || s == "//") && c != "" && SeparatorFree(c)
    ensures BaseNameOf(s + c) == c && DirNameOf(s + c) == s && Strip(s + c) == s + c
  {
    TakeApart(s, c);
    RootsStripped();
    assert (s + c)[..|s|] == s;
    assert (s + c)[0] == s[0];
  }

  lemma AppendToOther(s: string, c: string)
    requires s != "" && !EndsWithSeparator(s) && c != "" && SeparatorFree(c)
    ensures BaseNameOf(s + "/" + c) == c && DirNameOf(s + "/" + c) == s && Strip(s + "/" + c) == s + "/" + c
  {
    TakeApart(s + "/", c);
    assert (s + "/" + c)[0] == s[0] && (s + "/" + c)[..|s|] == s;
  }

  /** Append is undone by DirName and BaseName. */
  lemma AppendInverts(p: string, c: string)
    requires p != "" && c != "" && SeparatorFree(c)
    ensures BaseNameOf(AppendTo(p, c)) == c
    ensures DirNameOf(AppendTo(p, c)) == Strip(p)
    ensures Strip(AppendTo(p, c)) == AppendTo(p, c)
  {
    var s := Strip(p);
    StripKeeps(p);
    StripIdempotent(p);
    if p == "." {
      TakeApart("", c);
      assert "" + c == c;
    } else if EndsWithSeparator(s) {
      AppendToRoot(s, c);
    } else {
      AppendToOther(s, c);
    }
  }

  /** Appending nothing only strips; appending to nothing, or to ".", gives what is appended. */
  lemma AppendNothing(p: string, c: string)
    ensures p != "." ==> AppendTo(p, "") == Strip(p)
    ensures AppendTo("", c) == c && AppendTo(".", c) == c
  {
    assert Strip(p) + "" == Strip(p) && "" + c == c;
  }

  /** Appending to any other path puts its stripped form in front, with one separator between
      where neither is empty and the path is more than separators. So the runs are joined, and
      the leading separators are those of the path. */
  lemma AppendJoins(p: string, c: string)
    requires p != "." && Appendable(c)
    ensures var a := AppendTo(p, c);
            && Strip(p) <= a && a[|a|-|c|..] == c
            && |a| == |Strip(p)| + |c| + (if c != "" && !AreAllSeparators(p) then 1 else 0)
            && Runs(a) == Runs(p) + Runs(c)
            && (p != "" ==> Leading(a) == Leading(Strip(p)))
  {
    var s := Strip(p);
    StripKeeps(p);
    if c == "" {
      AppendNothing(p, c);
      assert Runs(p) + [] == Runs(p);
    } else if AreAllSeparators(p) {
      AllSeparatorsRuns(p);
      AllSeparatorsRuns(s);
      RootInFront(s, c);
    } else {
      SomeRun(p, s);
      RunsSplit(s, c);
      LeadingKept(s, c);
    }
  }

  lemma LeadingKept(s: string, c: string)
    requires !AreAllSeparators(s)
    ensures Leading(s + "/" + c) == Leading(s)
  {
    ConcatAssoc(s, "/", c);
    LeadingOfConcat(s, "/" + c);
  }

  // A path with some character that is no separator, stripped.
  lemma SomeRun(p: string, s: string)
    requires !AreAllSeparators(p) && s == Strip(p)
    ensures !AreAllSeparators(s)
  {
    StripKeeps(p);
    assert !IsSeparator(s[|s| - 1]);
  }

  lemma {:induction false} RootInFront(s: string, c: string)
    requires AreAllSeparators(s) && Appendable(c)
    ensures Runs(s + c) == Runs(c) && Leading(s + c) == |s|
  {
    if s == "" {
      assert s + c == c;
    } else {
      assert s + c == [s[0]] + (s[1..] + c);
      SkipSeparator(s[0], s[1..] + c);
      RootInFront(s[1..], c);
    }
  }

  // Stripping keeps the components, except of "." with trailing separators.
  lemma StripComponents(p: string)
    requires p != "."
    ensures Strip(p) != "." ==> ComponentsOf(Strip(p)) == ComponentsOf(p)
    ensures Strip(p) == "." ==> ComponentsOf(p) == ["."]
  {
    var s := Strip(p);
    StripKeeps(p);
    if AreAllSeparators(p) {
      AllSeparatorsRuns(p);
      AllSeparatorsRuns(s);
    } else {
      SameLeading(p, s);
      RunsOfOne(".");
    }
  }

  /** Appending a run adds it as a component, exactly when the path is not "." with trailing
      separators (of which the "." is then dropped). */
  lemma AppendComponents(p: string, c: string)
    requires p != "" && p != "." && c != "" && SeparatorFree(c)
    ensures Strip(p) != "." ==> ComponentsOf(AppendTo(p, c)) == ComponentsOf(p) + [c]
    ensures Strip(p) == "." ==> ComponentsOf(p) == ["."] && ComponentsOf(AppendTo(p, c)) == [c]
    ensures AppendTo(p, c) != "" && Strip(AppendTo(p, c)) == AppendTo(p, c) != "."
  {
    var a := AppendTo(p, c);
    StripKeeps(p);
    AppendInverts(p, c);
    StripComponents(p);
    RootComponents();
    assert |a| > |Strip(p)| && |a| > 1;
    DirStep(a);
  }

  // ----- Relative paths -----

  // One path is a parent of another if its components are a non-empty proper prefix.
  ghost predicate IsParentOf(p: string, q: string) {
    ComponentsOf(p) != [] && ComponentsOf(p) < ComponentsOf(q)
  }

  // The components the parent lacks.
  ghost function Beyond(p: string, q: string): seq<string>
    requires IsParentOf(p, q)
  {
    ComponentsOf(q)[|ComponentsOf(p)|..]
  }

  // IsParent is a strict order.
  lemma IsParentStrictOrder(p: string, q: string, r: string)
    ensures !IsParentOf(p, p)
    ensures IsParentOf(p, q) && IsParentOf(q, r) ==> IsParentOf(p, r)
    ensures IsParentOf(p, q) ==> !IsParentOf(q, p)
  {
  }

  function AppendAll(p: string, components: seq<string>): string
    decreases |components|
  {
    if components == [] then p else AppendAll(AppendTo(p, components[0]), components[1..])
  }

  lemma AppendAllStep(p: string, components: seq<string>, i: nat)
    requires i < |components|
    ensures AppendAll(p, components[i..]) == AppendAll(AppendTo(p, components[i]), components[i+1..])
  {
    assert components[i..][1..] == components[i+1..];
  }

  // Everything but a root is a run.
  lemma {:induction false} RunsAreRuns(s: string, i: nat)
    requires i < |Runs(s)|
    ensures Runs(s)[i] != "" && SeparatorFree(Runs(s)[i])
    decreases |s|
  {
    if IsSeparator(s[0]) {
      RunsAreRuns(s[1..], i);
    } else if i > 0 {
      RunsAreRuns(s[RunLength(s)..], i - 1);
    }
  }

  lemma ComponentsAreRuns(p: string, i: nat)
    requires 0 < i < |ComponentsOf(p)|
    ensures ComponentsOf(p)[i] != "" && SeparatorFree(ComponentsOf(p)[i])
  {
    var k := i - |Root(p)| + if DropsDot(p) then 1 else 0;
    assert ComponentsOf(p)[i] == Runs(p)[k];
    RunsAreRuns(p, k);
  }

  lemma AllAppendable(p: string)
    ensures forall i :: 0 < i < |ComponentsOf(p)| ==> Appendable(ComponentsOf(p)[i])
  {
    forall i | 0 < i < |ComponentsOf(p)|
      ensures Appendable(ComponentsOf(p)[i])
    {
      ComponentsAreRuns(p, i);
    }
  }

  lemma {:induction false} AppendAllComponents(p: string, components: seq<string>)
    requires p != "" && p != "." && Strip(p) != "."
    requires forall i :: 0 <= i < |components| ==> components[i] != "" && SeparatorFree(components[i])
    ensures ComponentsOf(AppendAll(p, components)) == ComponentsOf(p) + components
    decreases |components|
  {
    if components != [] {
      var c, rest := components[0], components[1..];
      AppendedKeeps(p, c);
      AppendAllComponents(AppendTo(p, c), rest);
      Regroup(ComponentsOf(p), c, rest);
      assert [c] + rest == components;
    }
  }

  lemma AppendedKeeps(p: string, c: string)
    requires p != "" && p != "." && Strip(p) != "." && c != "" && SeparatorFree(c)
    ensures var a := AppendTo(p, c);
            ComponentsOf(a) == ComponentsOf(p) + [c] && a != "" && a != "." && Strip(a) != "."
  {
    AppendComponents(p, c);
  }

  lemma Regroup(a: seq<string>, x: string, b: seq<string>)
    ensures (a + [x]) + b == a + ([x] + b)
  {
  }

  lemma BeyondAreRuns(parent: string, child: string)
    requires IsParentOf(parent, child)
    ensures var rest := Beyond(parent, child);
            && rest != [] && ComponentsOf(parent) + rest == ComponentsOf(child)
            && forall i :: 0 <= i < |rest| ==> rest[i] != "" && SeparatorFree(rest[i])
  {
    var n, rest := |ComponentsOf(parent)|, Beyond(parent, child);
    forall i | 0 <= i < |rest|
      ensures rest[i] != "" && SeparatorFree(rest[i])
    {
      ComponentsAreRuns(child, n + i);
    }
  }

  // From "." with trailing separators, the "." is lost.
  lemma DotParentLost(parent: string, rest: seq<string>)
    requires Strip(parent) == "." && parent != "" && parent != "." && rest != []
    requires forall i :: 0 <= i < |rest| ==> rest[i] != "" && SeparatorFree(rest[i])
    ensures ComponentsOf(AppendAll(parent, rest)) == rest
  {
    var first := AppendTo(parent, rest[0]);
    DotParentStep(parent, rest[0]);
    AppendAllComponents(first, rest[1..]);
    assert [rest[0]] + rest[1..] == rest;
  }

  lemma DotParentStep(parent: string, c: string)
    requires Strip(parent) == "." && parent != "" && parent != "." && c != "" && SeparatorFree(c)
    ensures var first := AppendTo(parent, c);
            ComponentsOf(first) == [c] && first != "" && first != "." && Strip(first) != "."
  {
    AppendComponents(parent, c);
  }

  /** When the child's components extend the parent's, appending the rest to the parent gives
      the child's components, exactly when the parent is not "." with trailing separators. */
  lemma RelativePathReachesChild(parent: string, child: string)
    requires IsParentOf(parent, child)
    ensures ComponentsOf(AppendAll(parent, Beyond(parent, child))) == ComponentsOf(child) <==> Strip(parent) != "."
  {
    var rest := Beyond(parent, child);
    BeyondAreRuns(parent, child);
    NoComponents();
    if Strip(parent) != "." {
      AppendAllComponents(parent, rest);
    } else {
      DotParentLost(parent, rest);
      assert |ComponentsOf(child)| > |rest|;
    }
  }

  lemma NoComponents()
    ensures ComponentsOf("") == [] && ComponentsOf(".") == []
  {
    RootComponents();
  }

  // "./" has the component "." and so is a parent of "././a", but appending "a" to it gives
  // "./a", whose only component is "a".
  lemma DotSlashLost()
    ensures ComponentsOf("./") == ["."] && ComponentsOf("././a") == [".", "a"]
    ensures ComponentsOf(AppendTo("./", "a")) == ["a"]
  {
    assert !IsSeparator("./"[0]) && "./"[..1] == ".";
    StripKeeps("./");
    RunsOfOne("a");
    AppendComponents("./", "a");
    DotDotA();
  }

  lemma DotDotA()
    ensures ComponentsOf("././a") == [".", "a"]
  {
    DotsInFront("a");
    RunsOfOne("a");
    assert "././" + "a" == "././a" && ["."] + ["."] + ["a"] == [".", ".", "a"];
    assert Root("././a") == [];
    assert [".", ".", "a"][1..] == [".", "a"];
  }

  lemma DotsInFront(a: string)
    ensures Runs("././" + a) == ["."] + ["."] + Runs(a) && Leading("././" + a) == 0
  {
    RunsOfOne(".");
    RunsSplit(".", a);
    RunsSplit(".", "." + "/" + a);
    assert "././" + a == "." + "/" + ("." + "/" + a);
    ConcatAssoc(["."], ["."], Runs(a));
  }

  // ----- Gathering components from the end -----

  // retVal holds, last first, the components that current lacks.
  ghost predicate Gathered(current: string, retVal: seq<string>, all: seq<string>) {
    current != "" && ComponentsOf(current) + Reverse(retVal) == all
  }

  lemma {:induction false} ReverseSnoc(s: seq<string>, x: string)
    ensures Reverse(s + [x]) == [x] + Reverse(s)
  {
    ReverseLast(s + [x]);
    assert (s + [x])[..|s|] == s;
  }

  lemma GatherStep(current: string, retVal: seq<string>, all: seq<string>)
    requires Gathered(current, retVal, all) && DirNameOf(current) != current
    ensures var base := BaseNameOf(current);
            Gathered(DirNameOf(current), if AreAllSeparators(base) then retVal else retVal + [base], all)
    ensures Height(DirNameOf(current)) < Height(current)
  {
    var base := BaseNameOf(current);
    DirFixedPoints(current);
    DirShrinks(current);
    DirStep(current);
    var above, below := ComponentsOf(DirNameOf(current)), Reverse(retVal);
    ReverseSnoc(retVal, base);
    Regroup(above, base, below);
    assert above + [] == above;
  }

  lemma GatherRoot(current: string, retVal: seq<string>, all: seq<string>)
    requires Gathered(current, retVal, all) && DirNameOf(current) == current
    ensures var base := BaseNameOf(current);
            Reverse(if base != "" && base != "." then retVal + [base] else retVal) == all
  {
    DirFixedPoints(current);
    RootComponents();
    ReverseSnoc(retVal, BaseNameOf(current));
    assert [] + Reverse(retVal) == Reverse(retVal);
  }

  // ----- The class -----

  class FilePath {
    var path: string

    constructor (path: string)
      ensures this.path == path
    {
      this.path := path;
    }

    method StripTrailingSeparatorsInternal()
      modifies this
      ensures path == Strip(old(path))
    {
      ghost var p := path;
      StripKeeps(p);
      var start, lastStripped := 1, -1;
      var pos := |path|;
      while pos > start && IsSeparator(path[pos - 1])
        invariant 0 <= pos <= |path| <= |p| && path == p[..|path|]
        invariant pos == |path| ==> lastStripped == if pos == |p| then -1 else pos + 1
        invariant pos == |path| || (pos == 1 && |path| == |p| == 2 && AreAllSeparators(p))
        invariant !AreAllSeparators(p) ==> !AreAllSeparators(path) && Strip(path) == Strip(p)
        invariant p != "" ==> pos > 0
        invariant AreAllSeparators(p) && |p| == 2 ==> |path| == 2
        decreases pos
      {
        if pos != start + 1 || lastStripped == start + 2 || !IsSeparator(path[start - 1]) {
          path := path[..pos - 1];
          lastStripped := pos;
        }
        pos := pos - 1;
      }
    }

    method DirName() returns (newPath: FilePath)
      ensures fresh(newPath) && newPath.path == DirNameOf(path)
    {
      newPath := new FilePath(path);
      newPath.StripTrailingSeparatorsInternal();
      var lastSeparator := LastSeparator(newPath.path);
      if lastSeparator == -1 {
        newPath.path := "";
      } else if lastSeparator == 0 {
        newPath.path := newPath.path[..1];
      } else if lastSeparator == 1 && IsSeparator(newPath.path[0]) {
        newPath.path := newPath.path[..2];
      } else {
        newPath.path := newPath.path[..lastSeparator];
      }
      newPath.StripTrailingSeparatorsInternal();
      if |newPath.path| == 0 {
        newPath.path := ".";
      }
    }

    method BaseName() returns (newPath: FilePath)
      ensures fresh(newPath) && newPath.path == BaseNameOf(path)
    {
      newPath := new FilePath(path);
      newPath.StripTrailingSeparatorsInternal();
      var lastSeparator := LastSeparator(newPath.path);
      if lastSeparator != -1 && lastSeparator < |newPath.path| - 1 {
        newPath.path := newPath.path[lastSeparator + 1..];
      }
    }

    // The component must not be an absolute path (the source DCHECKs it).
    method Append(component: string) returns (newPath: FilePath)
      requires Appendable(component)
      ensures fresh(newPath) && newPath.path == AppendTo(path, component)
    {
      if path == "." {
        newPath := new FilePath(component);
        return;
      }
      newPath := new FilePath(path);
      newPath.StripTrailingSeparatorsInternal();
      if |component| > 0 && |newPath.path| > 0 {
        if !IsSeparator(newPath.path[|newPath.path| - 1]) {
          newPath.path := newPath.path + "/";
        }
      }
      newPath.path := newPath.path + component;
    }

    method GetComponents() returns (components: seq<string>)
      ensures components == ComponentsOf(path)
    {
      components := [];
      if path == "" {
        return;
      }
      var retVal := [];
      var current := new FilePath(path);
      var dir := current.DirName();
      while current.path != dir.path
        invariant fresh(current) && fresh(dir) && dir.path == DirNameOf(current.path)
        invariant Gathered(current.path, retVal, ComponentsOf(path))
        decreases Height(current.path)
      {
        GatherStep(current.path, retVal, ComponentsOf(path));
        var base := current.BaseName();
        if !AreAllSeparators(base.path) {
          retVal := retVal + [base.path];
        }
        current := dir;
        dir := current.DirName();
      }
      GatherRoot(current.path, retVal, ComponentsOf(path));
      var base := current.BaseName();
      if base.path != "" && base.path != "." {
        retVal := retVal + [base.path];
      }
      components := Reverse(retVal);
    }

    // result is NULL for IsParent; it may be any object, this one included.
    method AppendRelativePath(child: FilePath, result: FilePath?) returns (ok: bool)
      modifies result
      ensures ok <==> IsParentOf(old(path), old(child.path))
      ensures result != null && ok ==> result.path == AppendAll(old(result.path), Beyond(old(path), old(child.path)))
      ensures result != null && !ok ==> result.path == old(result.path)
    {
      var parentComponents := GetComponents();
      var childComponents := child.GetComponents();
      if |parentComponents| >= |childComponents| {
        return false;
      }
      if |parentComponents| == 0 {
        return false;
      }
      ok := StartsWith(parentComponents, childComponents);
      if ok && result != null {
        AllAppendable(child.path);
        AppendRest(childComponents, |parentComponents|, result);
      }
    }

    // The loop that compares the components the two paths should share.
    static method StartsWith(parent: seq<string>, child: seq<string>) returns (ok: bool)
      requires |parent| < |child|
      ensures ok <==> parent < child
    {
      var i := 0;
      while i < |parent|
        invariant 0 <= i <= |parent|
        invariant parent[..i] == child[..i]
      {
        if parent[i] != child[i] {
          return false;
        }
        i := i + 1;
      }
      ok := true;
    }

    static method AppendOne(component: string, result: FilePath)
      requires Appendable(component)
      modifies result
      ensures result.path == AppendTo(old(result.path), component)
    {
      var appended := result.Append(component);
      result.path := appended.path;
    }

    // The loop that extends the result by the components the parent lacks.
    static method AppendRest(components: seq<string>, from: nat, result: FilePath)
      requires 0 < from <= |components| && forall i :: 0 < i < |components| ==> Appendable(components[i])
      modifies result
      ensures result.path == AppendAll(old(result.path), components[from..])
    {
      var i := from;
      ghost var all := AppendAll(result.path, components[from..]);
      while i < |components|
        invariant from <= i <= |components|
        invariant all == AppendAll(result.path, components[i..])
      {
        AppendAllStep(result.path, components, i);
        AppendOne(components[i], result);
        i := i + 1;
      }
      assert components[i..] == [];
    }

    method IsParent(child: FilePath) returns (ok: bool)
      ensures ok <==> IsParentOf(path, child.path)
    {
      ok := AppendRelativePath(child, null);
    }
  }

  /** The loop of CreateDirectory (base/file_util_posix.cc) that collects all parents: it
      stops, at a path that is its own parent, and misses none on the way. */
  method CollectParents(fullPath: FilePath) returns (subpaths: seq<string>)
    ensures subpaths != [] && subpaths[0] == fullPath.path
    ensures forall i :: 0 <= i < |subpaths| - 1 ==> !IsTop(subpaths[i]) && subpaths[i+1] == DirNameOf(subpaths[i])
    ensures IsTop(subpaths[|subpaths| - 1])
  {
    var lastPath := fullPath.path;
    subpaths := [fullPath.path];
    var path := fullPath.DirName();
    DirFixedPoints(lastPath);
    while path.path != lastPath
      invariant path.path == DirNameOf(lastPath)
      invariant subpaths != [] && subpaths[0] == fullPath.path && subpaths[|subpaths| - 1] == lastPath
      invariant forall i :: 0 <= i < |subpaths| - 1 ==> !IsTop(subpaths[i]) && subpaths[i+1] == DirNameOf(subpaths[i])
      decreases Height(lastPath)
    {
      DirFixedPoints(lastPath);
      DirShrinks(lastPath);
      subpaths := subpaths + [path.path];
      lastPath := path.path;
      path := path.DirName();
    }
    DirFixedPoints(lastPath);
  }
}
