// The Windows half of base/command_line.cc: WindowsStyleQuote is a printer; the rules of
// CommandLineToArgvW, written out as Split, are the parser it must agree with.
module WindowsQuoting {
  import opened Wrappers

  function Repeat(c: char, n: nat): (s: string)
    ensures |s| == n && forall i :: 0 <= i < n ==> s[i] == c
  {
    if n == 0 then "" else [c] + Repeat(c, n - 1)
  }

  // How many backslashes s starts with.
  function Run(s: string): (n: nat)
    ensures n <= |s| && s[..n] == Repeat('\\', n) && (n < |s| ==> s[n] != '\\')
  {
    if s == "" || s[0] != '\\' then 0 else 1 + Run(s[1..])
  }

  // ----- The printer -----

  predicate NeedsQuotes(arg: string) {
    ' ' in arg || '\\' in arg || '"' in arg
  }

  // What goes between the quotes: backslashes are doubled before a quote and at the end.
  function QuoteBody(arg: string): string
    decreases |arg|
  {
    if arg == "" then ""
    else if arg[0] == '\\' then
      var n := Run(arg);
      Repeat('\\', if n == |arg| || arg[n] == '"' then 2 * n else n) + QuoteBody(arg[n..])
    else if arg[0] == '"' then "\\\"" + QuoteBody(arg[1..])
    else [arg[0]] + QuoteBody(arg[1..])
  }

  function Quote(arg: string): string {
    if NeedsQuotes(arg) then "\"" + QuoteBody(arg) + "\"" else arg
  }

  // out is the quoted form of arg up to position i.
  ghost predicate QuotedUpTo(out: string, arg: string, i: nat) {
    i <= |arg| && out + QuoteBody(arg[i..]) == "\"" + QuoteBody(arg)
  }

  // How many backslashes are written for the run from i to end.
  function Written(arg: string, i: nat, end: nat): nat
    requires i <= end <= |arg|
  {
    if end == |arg| || arg[end] == '"' then 2 * (end - i) else end - i
  }

  lemma AdvanceRun(out: string, arg: string, i: nat, end: nat)
    requires QuotedUpTo(out, arg, i) && i < end <= |arg|
    requires (forall k :: i <= k < end ==> arg[k] == '\\') && (end < |arg| ==> arg[end] != '\\')
    ensures QuotedUpTo(out + Repeat('\\', Written(arg, i, end)), arg, end)
  {
    var todo, n := arg[i..], end - i;
    RunIs(todo, n);
    assert todo[n..] == arg[end..];
    ConcatAssoc(out, Repeat('\\', Written(arg, i, end)), QuoteBody(arg[end..]));
  }

  lemma AdvanceChar(out: string, arg: string, i: nat)
    requires QuotedUpTo(out, arg, i) && i < |arg| && arg[i] != '\\'
    ensures QuotedUpTo(out + if arg[i] == '"' then "\\\"" else [arg[i]], arg, i + 1)
  {
    assert arg[i..][1..] == arg[i+1..];
    ConcatAssoc(out, if arg[i] == '"' then "\\\"" else [arg[i]], QuoteBody(arg[i+1..]));
  }

  lemma QuotedToTheEnd(out: string, arg: string)
    requires QuotedUpTo(out, arg, |arg|) && NeedsQuotes(arg)
    ensures out + "\"" == Quote(arg)
  {
    assert arg[|arg|..] == "" && out + "" == out;
  }

  // The two inner loops of WindowsStyleQuote.
  method RunEnd(arg: string, start: nat) returns (end: nat)
    requires start < |arg| && arg[start] == '\\'
    ensures start < end <= |arg| && (forall k :: start <= k < end ==> arg[k] == '\\')
    ensures end < |arg| ==> arg[end] != '\\'
  {
    end := start + 1;
    while end < |arg| && arg[end] == '\\'
      invariant start < end <= |arg|
      invariant forall k :: start <= k < end ==> arg[k] == '\\'
    {
      end := end + 1;
    }
  }

  method PushBackslashes(before: string, count: nat) returns (out: string)
    ensures out == before + Repeat('\\', count)
  {
    out := before;
    for j := 0 to count
      invariant out == before + Repeat('\\', j)
    {
      RepeatSnoc('\\', j);
      out := out + "\\";
    }
  }

  // One run of backslashes.
  method PushRun(before: string, arg: string, i: nat) returns (out: string, end: nat)
    requires i < |arg| && arg[i] == '\\' && QuotedUpTo(before, arg, i)
    ensures i < end <= |arg| && QuotedUpTo(out, arg, end)
  {
    end := RunEnd(arg, i);
    var backslashCount := end - i;
    AdvanceRun(before, arg, i, end);
    // Backslashes are escapes only if a quote follows, our closing one included.
    if end == |arg| || arg[end] == '"' {
      backslashCount := backslashCount * 2;
    }
    assert backslashCount == Written(arg, i, end);
    out := PushBackslashes(before, backslashCount);
  }

  method WindowsStyleQuote(arg: string) returns (out: string)
    ensures out == Quote(arg)
  {
    if !NeedsQuotes(arg) {
      return arg;
    }
    out := "\"";
    var i := 0;
    assert arg[0..] == arg;
    while i < |arg|
      invariant 0 <= i <= |arg| && QuotedUpTo(out, arg, i)
    {
      if arg[i] == '\\' {
        var end;
        out, end := PushRun(out, arg, i);
        i := end - 1;
      } else {
        AdvanceChar(out, arg, i);
        if arg[i] == '"' {
          out := out + "\\\"";
        } else {
          out := out + [arg[i]];
        }
      }
      i := i + 1;
    }
    QuotedToTheEnd(out, arg);
    out := out + "\"";
  }

  lemma {:induction false} RepeatSnoc(c: char, n: nat)
    ensures Repeat(c, n + 1) == Repeat(c, n) + [c]
  {
    if n > 0 {
      RepeatSnoc(c, n - 1);
    }
  }

  lemma {:induction false} RunIs(s: string, n: nat)
    requires n <= |s| && (forall i :: 0 <= i < n ==> s[i] == '\\') && (n < |s| ==> s[n] != '\\')
    ensures Run(s) == n
  {
    if n > 0 {
      RunIs(s[1..], n - 1);
    }
  }

  // ----- The parser: arguments after the program name -----

  // cur is the argument being read, if one has started.
  function Split(s: string, cur: Option<string>, inQuotes: bool): seq<string>
    decreases |s|
  {
    var read := if cur.Some? then cur.value else "";
    if s == "" then
      if cur.Some? then [read] else []
    else if s[0] == '\\' then
      var n := Run(s);
      if n < |s| && s[n] == '"' then
        // Each pair of backslashes is one; an odd one makes the quote literal.
        if n % 2 == 0 then Split(s[n+1..], Some(read + Repeat('\\', n / 2)), !inQuotes)
        else Split(s[n+1..], Some(read + Repeat('\\', n / 2) + "\""), inQuotes)
      else
        Split(s[n..], Some(read + Repeat('\\', n)), inQuotes)
    else if s[0] == '"' then Split(s[1..], Some(read), !inQuotes)
    else if (s[0] == ' ' || s[0] == '\t') && !inQuotes then
      (if cur.Some? then [read] else []) + Split(s[1..], None, false)
    else Split(s[1..], Some(read + [s[0]]), inQuotes)
  }

  // ----- Reading back one quoted argument -----

  lemma QuotedRead(arg: string, rest: string, cur: string)
    ensures Split(QuoteBody(arg) + "\"" + rest, Some(cur), true) == Split(rest, Some(cur + arg), false)
    decreases |arg|
  {
    var s := QuoteBody(arg) + "\"" + rest;
    if arg == "" {
      assert s[1..] == rest && cur + arg == cur;
    } else if arg[0] == '\\' {
      QuotedRun(arg, rest, cur);
    } else if arg[0] == '"' {
      var tail := QuoteBody(arg[1..]) + "\"" + rest;
      assert s == "\\\"" + tail;
      RunIs(s, 1);
      assert s[2..] == tail;
      assert cur + "" + "\"" + arg[1..] == cur + arg;
      QuotedRead(arg[1..], rest, cur + "" + "\"");
    } else {
      assert s[1..] == QuoteBody(arg[1..]) + "\"" + rest;
      assert cur + [arg[0]] + arg[1..] == cur + arg;
      QuotedRead(arg[1..], rest, cur + [arg[0]]);
    }
  }

  lemma QuotedRun(arg: string, rest: string, cur: string)
    requires arg != "" && arg[0] == '\\'
    ensures Split(QuoteBody(arg) + "\"" + rest, Some(cur), true) == Split(rest, Some(cur + arg), false)
    decreases |arg|, 1
  {
    var n := Run(arg);
    if n == |arg| {
      assert arg == arg[..n] && arg[n..] == "";
      assert QuoteBody(arg) + "\"" + rest == Repeat('\\', 2 * n) + ("\"" + rest);
      EvenRun(n, rest, cur);
    } else if arg[n] == '"' {
      QuotedRunThenQuote(arg, n, rest, cur);
    } else {
      QuotedRunThenOther(arg, n, rest, cur);
    }
  }

  lemma QuotedRunThenQuote(arg: string, n: nat, rest: string, cur: string)
    requires 0 < n == Run(arg) < |arg| && arg[n] == '"'
    ensures Split(QuoteBody(arg) + "\"" + rest, Some(cur), true) == Split(rest, Some(cur + arg), false)
    decreases |arg|, 0
  {
    var tail := QuoteBody(arg[n+1..]) + "\"" + rest;
    QuoteBodyAtQuote(arg, n);
    Regroup4(Repeat('\\', 2 * n), "\\\"", QuoteBody(arg[n+1..]), "\"" + rest);
    assert QuoteBody(arg) + "\"" + rest == QuoteBody(arg) + ("\"" + rest);
    assert tail == QuoteBody(arg[n+1..]) + ("\"" + rest);
    OddRun(n, tail, cur);
    QuotedRead(arg[n+1..], rest, cur + Repeat('\\', n) + "\"");
    RunAndQuoteJoin(cur, arg, n);
  }

  lemma Regroup4(a: string, b: string, c: string, d: string)
    ensures (a + (b + c)) + d == a + b + (c + d)
  {
  }

  lemma QuoteBodyAtQuote(arg: string, n: nat)
    requires 0 < n == Run(arg) < |arg| && arg[n] == '"'
    ensures QuoteBody(arg) == Repeat('\\', 2 * n) + ("\\\"" + QuoteBody(arg[n+1..]))
  {
    assert arg[0] == arg[..n][0] == '\\';
    assert arg[n..][1..] == arg[n+1..];
  }

  lemma RunAndQuoteJoin(cur: string, arg: string, n: nat)
    requires n == Run(arg) < |arg| && arg[n] == '"'
    ensures cur + Repeat('\\', n) + "\"" + arg[n+1..] == cur + arg
  {
    var before := cur + Repeat('\\', n);
    CutJoins(cur, arg, n);
    assert arg[n..][..1] == "\"" && arg[n..][1..] == arg[n+1..];
    CutJoins(before, arg[n..], 1);
  }

  lemma QuotedRunThenOther(arg: string, n: nat, rest: string, cur: string)
    requires 0 < n == Run(arg) < |arg| && arg[n] != '"'
    ensures Split(QuoteBody(arg) + "\"" + rest, Some(cur), true) == Split(rest, Some(cur + arg), false)
    decreases |arg|, 0
  {
    var tail := QuoteBody(arg[n..]) + "\"" + rest;
    QuoteBodyAtOther(arg, n);
    assert QuoteBody(arg) + "\"" + rest == Repeat('\\', n) + tail;
    PlainRun(n, tail, Some(cur), true);
    QuotedRead(arg[n..], rest, cur + Repeat('\\', n));
    CutJoins(cur, arg, n);
  }

  lemma QuoteBodyAtOther(arg: string, n: nat)
    requires 0 < n == Run(arg) < |arg| && arg[n] != '"'
    ensures QuoteBody(arg) == Repeat('\\', n) + QuoteBody(arg[n..])
    ensures QuoteBody(arg[n..]) != "" && QuoteBody(arg[n..])[0] == arg[n] != '\\'
  {
    assert arg[0] == arg[..n][0] == '\\';
  }

  // The three ways of reading a run of backslashes.
  lemma EvenRun(n: nat, rest: string, cur: string)
    requires n > 0
    ensures Split(Repeat('\\', 2 * n) + ("\"" + rest), Some(cur), true)
         == Split(rest, Some(cur + Repeat('\\', n)), false)
  {
    var m := 2 * n;
    var s := Repeat('\\', m) + ("\"" + rest);
    assert m % 2 == 0 && m / 2 == n;
    assert s[0] == '\\' && s[m] == '"';
    RunIs(s, m);
    assert s[m + 1..] == rest;
  }

  lemma OddRun(n: nat, tail: string, cur: string)
    ensures Split(Repeat('\\', 2 * n) + "\\\"" + tail, Some(cur), true)
         == Split(tail, Some(cur + Repeat('\\', n) + "\""), true)
  {
    var m := 2 * n + 1;
    var s := Repeat('\\', 2 * n) + "\\\"" + tail;
    assert m % 2 == 1 && m / 2 == n;
    assert s[0] == '\\' && s[m] == '"';
    RunIs(s, m);
    assert s[m + 1..] == tail;
  }

  function Cur(cur: Option<string>): string {
    if cur.Some? then cur.value else ""
  }

  lemma PlainRun(n: nat, tail: string, cur: Option<string>, inQuotes: bool)
    requires n > 0 && (tail == "" || (tail[0] != '\\' && tail[0] != '"'))
    ensures Split(Repeat('\\', n) + tail, cur, inQuotes) == Split(tail, Some(Cur(cur) + Repeat('\\', n)), inQuotes)
  {
    var s := Repeat('\\', n) + tail;
    assert s[0] == '\\' && (tail != "" ==> s[n] == tail[0]);
    RunIs(s, n);
    assert s[n..] == tail;
  }

  lemma PlainChar(c: char, tail: string, cur: Option<string>)
    requires c != '\\' && c != '"' && c != ' ' && c != '\t'
    ensures Split([c] + tail, cur, false) == Split(tail, Some(Cur(cur) + [c]), false)
  {
    assert ([c] + tail)[1..] == tail;
  }

  lemma OpeningQuote(tail: string, cur: Option<string>)
    ensures Split("\"" + tail, cur, false) == Split(tail, Some(Cur(cur)), true)
  {
    assert ("\"" + tail)[1..] == tail;
  }

  lemma SkippedSpace(tail: string)
    ensures Split(" " + tail, None, false) == Split(tail, None, false)
  {
    assert (" " + tail)[1..] == tail;
    assert [] + Split(tail, None, false) == Split(tail, None, false);
  }

  // ----- Reading back text that was not quoted -----

  // No delimiter and no quote.
  predicate Bare(s: string) {
    forall i :: 0 <= i < |s| ==> s[i] != ' ' && s[i] != '\t' && s[i] != '"'
  }

  // Bare text is read as it stands, provided its last backslashes do not run into a
  // following backslash or quote.
  lemma PlainRead(s: string, rest: string, cur: Option<string>)
    requires s != "" && Bare(s)
    requires rest == "" || s[|s| - 1] != '\\' || (rest[0] != '\\' && rest[0] != '"')
    ensures Split(s + rest, cur, false) == Split(rest, Some(Cur(cur) + s), false)
    decreases |s|
  {
    var n := PlainStep(s, rest, cur);
    if n == |s| {
      assert s[..n] == s && s[n..] + rest == rest;
    } else {
      var more := s[n..];
      assert more[|more| - 1] == s[|s| - 1];
      PlainRead(more, rest, Some(Cur(cur) + s[..n]));
      CutJoins(Cur(cur), s, n);
    }
  }

  lemma PlainStep(s: string, rest: string, cur: Option<string>) returns (n: nat)
    requires s != "" && Bare(s)
    requires rest == "" || s[|s| - 1] != '\\' || (rest[0] != '\\' && rest[0] != '"')
    ensures 0 < n <= |s|
    ensures Split(s + rest, cur, false) == Split(s[n..] + rest, Some(Cur(cur) + s[..n]), false)
  {
    if s[0] == '\\' {
      n := Run(s);
      assert s + rest == s[..n] + (s[n..] + rest);
      assert n == |s| ==> s[n-1] == s[..n][n-1] == '\\';
      PlainRun(n, s[n..] + rest, cur, false);
    } else {
      n := 1;
      assert s + rest == [s[0]] + (s[1..] + rest) && s[..1] == [s[0]];
      PlainChar(s[0], s[1..] + rest, cur);
    }
  }

  // An argument that survives quoting: there is something to read, and a tab is protected by
  // what makes WindowsStyleQuote add quotes.
  predicate Survives(arg: string) {
    arg != "" && ('\t' in arg ==> ' ' in arg || '\\' in arg || '"' in arg)
  }

  /** Quotes are added, one at each end, exactly around an argument with a space, a backslash
      or a quote in it; any other is left as it is. */
  lemma QuotesAddedIff(arg: string)
    ensures Quote(arg) != arg <==> ' ' in arg || '\\' in arg || '"' in arg
    ensures Quote(arg) != arg ==>
              |Quote(arg)| >= |arg| + 2 && Quote(arg)[0] == '"' && Quote(arg)[|Quote(arg)| - 1] == '"'
  {
    BodyNotShorter(arg);
  }

  lemma {:induction false} BodyNotShorter(arg: string)
    ensures |QuoteBody(arg)| >= |arg|
    decreases |arg|
  {
    if arg != "" {
      BodyNotShorter(arg[(if arg[0] == '\\' then Run(arg) else 1)..]);
    }
  }

  // After an argument comes the end of the line or a separating space.
  predicate AtBreak(rest: string) {
    rest == "" || rest[0] == ' '
  }

  lemma QuoteRead(arg: string, rest: string, cur: Option<string>)
    requires Survives(arg) && AtBreak(rest)
    ensures Split(Quote(arg) + rest, cur, false) == Split(rest, Some(Cur(cur) + arg), false)
  {
    if NeedsQuotes(arg) {
      var body := QuoteBody(arg) + "\"" + rest;
      assert Quote(arg) + rest == "\"" + body;
      OpeningQuote(body, cur);
      QuotedRead(arg, rest, Cur(cur));
    } else {
      SurvivorPlain(arg);
      PlainRead(arg, rest, cur);
    }
  }

  lemma SurvivorPlain(arg: string)
    requires Survives(arg) && !NeedsQuotes(arg)
    ensures Bare(arg) && arg[|arg| - 1] != '\\'
  {
    forall i | 0 <= i < |arg|
      ensures arg[i] != ' ' && arg[i] != '\t' && arg[i] != '"' && arg[i] != '\\'
    {
      assert arg[i] in arg;
    }
  }

  // ----- Whole command lines -----

  // What is appended to a command line: an argument, or a switch with an optional value.
  datatype Item = Arg(value: string) | Switch(name: string, value: string)
  {
    // As written, without the separating space.
    function Written(): string {
      match this
      case Arg(v) => Quote(v)
      case Switch(name, v) => if v == "" then "--" + name else "--" + name + "=" + Quote(v)
    }

    // The one argument it stands for.
    function Meaning(): string {
      match this
      case Arg(v) => v
      case Switch(name, v) => if v == "" then "--" + name else "--" + name + "=" + v
    }

    // A switch's name would end or be changed at a space, a tab or a quote.
    predicate Named() {
      Switch? ==> Bare(name)
    }

    predicate Readable() {
      match this
      case Arg(v) => Survives(v)
      case Switch(name, v) => Bare(name) && (v != "" ==> Survives(v))
    }
  }

  function Tail(items: seq<Item>): string {
    if items == [] then "" else " " + items[0].Written() + Tail(items[1..])
  }

  function Meanings(items: seq<Item>): seq<string> {
    if items == [] then [] else [items[0].Meaning()] + Meanings(items[1..])
  }

  lemma WrittenRead(item: Item, rest: string)
    requires item.Readable() && AtBreak(rest)
    ensures Split(item.Written() + rest, None, false) == Split(rest, Some(item.Meaning()), false)
  {
    match item
    case Arg(v) =>
      QuoteRead(v, rest, None);
      assert "" + v == v;
    case Switch(name, v) =>
      if v == "" {
        PlainRead("--" + name, rest, None);
        assert "" + ("--" + name) == "--" + name;
      } else {
        var prefix := "--" + name + "=";
        assert item.Written() + rest == prefix + (Quote(v) + rest);
        assert prefix[|prefix| - 1] == '=';
        PlainRead(prefix, Quote(v) + rest, None);
        assert "" + prefix == prefix;
        QuoteRead(v, rest, Some(prefix));
      }
  }

  lemma TailBreaks(items: seq<Item>)
    ensures AtBreak(Tail(items))
  {
  }

  /** Quoting round-trips: splitting what was built from readable items gives back one
      argument per item, in order. */
  lemma {:induction false} SplitReadsBack(items: seq<Item>)
    requires forall i :: 0 <= i < |items| ==> items[i].Readable()
    ensures Split(Tail(items), None, false) == Meanings(items)
  {
    if items != [] {
      var head, rest := items[0], Tail(items[1..]);
      assert Tail(items) == " " + (head.Written() + rest);
      SkippedSpace(head.Written() + rest);
      TailBreaks(items[1..]);
      WrittenRead(head, rest);
      FinishArgument(rest, head.Meaning());
      SplitReadsBack(items[1..]);
    }
  }

  // At a break the argument read so far is complete.
  lemma FinishArgument(rest: string, arg: string)
    requires AtBreak(rest)
    ensures Split(rest, Some(arg), false) == [arg] + Split(rest, None, false)
  {
    if rest != "" {
      assert rest == " " + rest[1..];
      SkippedSpace(rest[1..]);
    }
  }

  // ----- Which items survive -----

  function Tabs(s: string): nat {
    if s == "" then 0 else Tabs(s[1..]) + if s[0] == '\t' then 1 else 0
  }

  lemma {:induction false} NoTabs(s: string)
    ensures Tabs(s) == 0 <==> '\t' !in s
  {
    if s != "" {
      NoTabs(s[1..]);
      assert s == [s[0]] + s[1..];
    }
  }

  lemma {:induction false} TabsConcat(a: string, b: string)
    ensures Tabs(a + b) == Tabs(a) + Tabs(b)
  {
    if a == "" {
      assert a + b == b;
    } else {
      assert (a + b)[1..] == a[1..] + b;
      TabsConcat(a[1..], b);
    }
  }

  // A tab that is lost takes more weight away than the argument it may make brings.
  function Weight(args: seq<string>): nat {
    if args == [] then 0 else 1 + 2 * Tabs(args[0]) + Weight(args[1..])
  }

  lemma {:induction false} WeightConcat(a: seq<string>, b: seq<string>)
    ensures Weight(a + b) == Weight(a) + Weight(b)
  {
    if a == [] {
      assert a + b == b;
    } else {
      assert (a + b)[1..] == a[1..] + b;
      WeightConcat(a[1..], b);
    }
  }

  lemma {:induction false} WeightWithoutTabs(args: seq<string>)
    requires forall a :: a in args ==> '\t' !in a
    ensures Weight(args) == |args|
  {
    if args != [] {
      NoTabs(args[0]);
      WeightWithoutTabs(args[1..]);
    }
  }

  // Unquoted text that may hold tabs falls into pieces without any.
  lemma UnquotedPieces(arg: string, rest: string, cur: Option<string>) returns (pieces: seq<string>)
    requires !NeedsQuotes(arg) && AtBreak(rest)
    requires cur.Some? ==> cur.value != "" && '\t' !in cur.value
    ensures Split(arg + rest, cur, false) == pieces + Split(rest, None, false)
    ensures forall p :: p in pieces ==> '\t' !in p
    ensures |pieces| <= Tabs(arg) + if arg == "" && cur == None then 0 else 1
    decreases |arg|
  {
    if arg == "" {
      assert arg + rest == rest;
      pieces := if cur.Some? then [cur.value] else [];
      if cur.Some? {
        FinishArgument(rest, cur.value);
      }
    } else {
      var more := arg[1..];
      assert arg + rest == [arg[0]] + (more + rest);
      assert forall c :: c in more ==> c in arg;
      if arg[0] == '\t' {
        var later := UnquotedPieces(more, rest, None);
        TabEnds(more + rest, cur);
        var first := if cur.Some? then [cur.value] else [];
        pieces := first + later;
        ConcatAssoc(first, later, Split(rest, None, false));
      } else {
        PlainChar(arg[0], more + rest, cur);
        pieces := UnquotedPieces(more, rest, Some(Cur(cur) + [arg[0]]));
      }
    }
  }

  // The pieces that an item falls into when it is not read back.
  lemma BrokenPieces(item: Item, rest: string) returns (pieces: seq<string>)
    requires item.Named() && !item.Readable() && AtBreak(rest)
    ensures Split(item.Written() + rest, None, false) == pieces + Split(rest, None, false)
    ensures Weight(pieces) < 1 + 2 * Tabs(item.Meaning())
  {
    match item {
      case Arg(v) =>
        pieces := UnquotedPieces(v, rest, None);
        NoTabs(v);
      case Switch(name, v) =>
        var prefix := "--" + name + "=";
        assert item.Written() + rest == prefix + (Quote(v) + rest);
        PlainRead(prefix, Quote(v) + rest, None);
        assert "" + prefix == prefix;
        pieces := UnquotedPieces(v, rest, Some(prefix));
        NoTabs(v);
        TabsConcat(prefix, v);
    }
    WeightWithoutTabs(pieces);
  }

  lemma ReadableWeight(item: Item, rest: string)
    requires item.Readable() && AtBreak(rest)
    ensures Weight(Split(item.Written() + rest, None, false))
         == 1 + 2 * Tabs(item.Meaning()) + Weight(Split(rest, None, false))
  {
    WrittenRead(item, rest);
    FinishArgument(rest, item.Meaning());
    assert ([item.Meaning()] + Split(rest, None, false))[1..] == Split(rest, None, false);
  }

  lemma {:induction false} SplitWeight(items: seq<Item>)
    requires forall i :: 0 <= i < |items| ==> items[i].Named()
    ensures Weight(Split(Tail(items), None, false)) <= Weight(Meanings(items))
    ensures (exists i :: 0 <= i < |items| && !items[i].Readable()) ==>
              Weight(Split(Tail(items), None, false)) < Weight(Meanings(items))
  {
    if items != [] {
      var head, rest := items[0], Tail(items[1..]);
      assert Tail(items) == " " + (head.Written() + rest);
      SkippedSpace(head.Written() + rest);
      TailBreaks(items[1..]);
      SplitWeight(items[1..]);
      assert Meanings(items)[1..] == Meanings(items[1..]);
      if head.Readable() {
        ReadableWeight(head, rest);
        if i :| 0 <= i < |items| && !items[i].Readable() {
          assert items[1..][i-1] == items[i];
        }
      } else {
        var pieces := BrokenPieces(head, rest);
        WeightConcat(pieces, Split(rest, None, false));
      }
    }
  }

  /** Items whose switches have names free of spaces, tabs and quotes are read back exactly
      when each is readable: an argument survives, and so does a value, if there is one. */
  lemma ReadsBackIff(items: seq<Item>)
    requires forall i :: 0 <= i < |items| ==> items[i].Named()
    ensures Split(Tail(items), None, false) == Meanings(items) <==> forall i :: 0 <= i < |items| ==> items[i].Readable()
  {
    SplitWeight(items);
    if forall i :: 0 <= i < |items| ==> items[i].Readable() {
      SplitReadsBack(items);
    }
  }

  lemma TabEnds(tail: string, cur: Option<string>)
    ensures Split("\t" + tail, cur, false) == (if cur.Some? then [cur.value] else []) + Split(tail, None, false)
  {
    assert ("\t" + tail)[1..] == tail;
  }

  function ArgItems(args: seq<string>): (items: seq<Item>)
    ensures |items| == |args| && forall i :: 0 <= i < |args| ==> items[i] == Arg(args[i])
  {
    if args == [] then [] else [Arg(args[0])] + ArgItems(args[1..])
  }

  lemma {:induction false} ArgMeanings(args: seq<string>)
    ensures Meanings(ArgItems(args)) == args
  {
    if args != [] {
      assert ArgItems(args)[1..] == ArgItems(args[1..]);
      ArgMeanings(args[1..]);
    }
  }

  /** A list of arguments survives quoting and splitting exactly when none is empty and
      each one holding a tab also holds a space, a backslash or a quote. */
  lemma RoundTripIffSurvives(args: seq<string>)
    ensures Split(Tail(ArgItems(args)), None, false) == args <==> forall a :: a in args ==> Survives(a)
  {
    var items := ArgItems(args);
    ReadsBackIff(items);
    ArgMeanings(args);
    forall i | 0 <= i < |items|
      ensures items[i].Readable() <==> Survives(args[i])
    {
    }
    assert (forall a :: a in args ==> Survives(a)) <==> forall i :: 0 <= i < |args| ==> Survives(args[i]);
  }

  // A tab alone does not make WindowsStyleQuote add quotes, so it is taken for a delimiter.
  lemma TabLost()
    ensures Split(" " + Quote("a\tb"), None, false) == ["a", "b"]
  {
    SkippedSpace("a\tb");
    PlainChar('a', "\tb", None);
    assert "a" + "\tb" == "a\tb" && "" + "a" == "a";
    TabEnds("b", Some("a"));
    assert "\t" + "b" == "\tb";
    PlainChar('b', "", None);
    assert "b" + "" == "b" && "" + "b" == "b";
  }

  // ----- Building -----

  lemma {:induction false} TailSnoc(items: seq<Item>, item: Item)
    ensures Tail(items + [item]) == Tail(items) + " " + item.Written()
  {
    if items != [] {
      assert (items + [item])[1..] == items[1..] + [item];
      TailSnoc(items[1..], item);
    } else {
      assert ([] + [item])[1..] == [];
    }
  }

  lemma OneMoreItem(prefix: string, items: seq<Item>, item: Item, line: string)
    requires line == prefix + Tail(items)
    ensures line + " " + item.Written() == prefix + Tail(items + [item])
  {
    TailSnoc(items, item);
    ConcatAssoc(prefix, Tail(items) + " ", item.Written());
    ConcatAssoc(prefix, Tail(items), " ");
  }

  /** The Windows CommandLine. Its string is the program followed by the items appended. */
  class CommandLine {
    var commandLineString: string
    var program: string
    var switches: map<string, string>
    var args: seq<string>
    ghost var prefix: string
    ghost var items: seq<Item>

    ghost predicate Valid()
      reads this
    {
      commandLineString == prefix + Tail(items)
    }

    // What CommandLineToArgvW makes of everything after the program.
    ghost function Reread(): seq<string>
      requires Valid()
      reads this
    {
      Split(commandLineString[|prefix|..], None, false)
    }

    constructor (program: string)
      ensures Valid() && items == [] && switches == map[] && args == []
    {
      this.program := program;
      commandLineString := if program == "" then "" else "\"" + program + "\"";
      prefix := if program == "" then "" else "\"" + program + "\"";
      switches, args, items := map[], [], [];
    }

    method AppendSwitch(name: string)
      requires Valid()
      modifies this
      ensures Valid() && items == old(items) + [Switch(name, "")] && prefix == old(prefix)
      ensures switches == old(switches)[name := ""] && args == old(args)
      ensures commandLineString == old(commandLineString) + " " + ("--" + name)
    {
      OneMoreItem(prefix, items, Switch(name, ""), commandLineString);
      commandLineString := commandLineString + " ";
      commandLineString := commandLineString + ("--" + name);
      switches := switches[name := ""];
      items := items + [Switch(name, "")];
    }

    method AppendSwitchNative(name: string, value: string)
      requires Valid()
      modifies this
      ensures Valid() && items == old(items) + [Switch(name, value)] && prefix == old(prefix)
      ensures switches == old(switches)[name := value] && args == old(args)
      ensures commandLineString ==
              old(commandLineString) + " " + ("--" + name + if value == "" then "" else "=" + Quote(value))
    {
      OneMoreItem(prefix, items, Switch(name, value), commandLineString);
      var combined := "--" + name;
      if value != "" {
        var quoted := WindowsStyleQuote(value);
        ConcatAssoc(combined, "=", quoted);
        combined := combined + "=" + quoted;
      }
      commandLineString := commandLineString + " ";
      commandLineString := commandLineString + combined;
      switches := switches[name := value];
      items := items + [Switch(name, value)];
    }

    method AppendArgNative(value: string)
      requires Valid()
      modifies this
      ensures Valid() && items == old(items) + [Arg(value)] && prefix == old(prefix)
      ensures switches == old(switches) && args == old(args) + [value]
      ensures commandLineString == old(commandLineString) + " " + Quote(value)
    {
      OneMoreItem(prefix, items, Arg(value), commandLineString);
      commandLineString := commandLineString + " ";
      var quoted := WindowsStyleQuote(value);
      commandLineString := commandLineString + quoted;
      args := args + [value];
      items := items + [Arg(value)];
    }

    /** However the line was built, the program it launches sees one argument per item,
        exactly when each is readable. */
    lemma RereadMeanings()
      requires Valid() && forall i :: 0 <= i < |items| ==> items[i].Named()
      ensures Reread() == Meanings(items) <==> forall i :: 0 <= i < |items| ==> items[i].Readable()
    {
      ReadsBackIff(items);
      assert commandLineString[|prefix|..] == Tail(items);
    }
  }
}
