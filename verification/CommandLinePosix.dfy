// base/command_line.cc on POSIX: parsing an argument vector, and building one so that
// parsing it again gives the switches it was built from.
module CommandLinePosix {
  import opened Wrappers

  const SWITCH_PREFIXES: seq<string> := ["--", "-"]
  const SWITCH_TERMINATOR: string := "--"
  const SWITCH_VALUE_SEPARATOR: char := '='

  // ----- One argument -----

  datatype Switch = Switch(name: string, value: string)

  predicate StartsWith(s: string, prefix: string) {
    |prefix| <= |s| && s[..|prefix|] == prefix
  }

  // The first '=' of s from start on, or |s|.
  function FindSeparator(s: string, start: nat): (i: nat)
    requires start <= |s|
    ensures start <= i <= |s| && SWITCH_VALUE_SEPARATOR !in s[start..i]
    ensures i < |s| ==> s[i] == SWITCH_VALUE_SEPARATOR
    decreases |s| - start
  {
    if start == |s| || s[start] == SWITCH_VALUE_SEPARATOR then start
    else
      assert forall i :: start + 1 <= i <= |s| ==> s[start..i] == [s[start]] + s[start+1..i];
      FindSeparator(s, start + 1)
  }

  // What follows the prefix: a name, and after the first '=' a value.
  function SplitSwitch(s: string, start: nat): (r: Switch)
    requires start <= |s|
    ensures SWITCH_VALUE_SEPARATOR !in r.name
    ensures s[start..] == r.name + if FindSeparator(s, start) < |s| then [SWITCH_VALUE_SEPARATOR] + r.value else ""
    ensures FindSeparator(s, start) == |s| ==> r.value == ""
  {
    var i := FindSeparator(s, start);
    Switch(s[start..i], if i < |s| then s[i+1..] else "")
  }

  // The switch that an argument is, if it begins with "-" or "--".
  function SwitchOf(arg: string): Option<Switch> {
    if StartsWith(arg, "--") then Some(SplitSwitch(arg, 2))
    else if StartsWith(arg, "-") then Some(SplitSwitch(arg, 1))
    else None
  }

  method IsSwitch(arg: string) returns (found: bool, name: string, value: string)
    ensures SwitchOf(arg) == if found then Some(Switch(name, value)) else None
    ensures found <==> arg != "" && arg[0] == '-'
    ensures !found ==> name == "" && value == ""
  {
    name, value := "", "";
    assert arg != "" ==> arg[..1] == [arg[0]];
    assert |arg| > 1 ==> arg[..2] == [arg[0], arg[1]];
    for i := 0 to |SWITCH_PREFIXES|
      invariant name == "" && value == ""
      invariant i > 0 ==> !StartsWith(arg, "--")
      invariant i > 1 ==> !StartsWith(arg, "-")
    {
      var prefix := SWITCH_PREFIXES[i];
      if !StartsWith(arg, prefix) {
        continue;
      }
      var start := |prefix|;
      var equals := FindSeparator(arg, start);
      if equals == |arg| {
        name := arg[start..];
      } else {
        name := arg[start..equals];
        value := arg[equals+1..];
      }
      assert arg[start..|arg|] == arg[start..];
      assert Switch(name, value) == SplitSwitch(arg, start);
      assert prefix == "--" || prefix == "-";
      return true, name, value;
    }
    return false, name, value;
  }

  // How a switch is written.
  function Printed(name: string, value: string): string {
    "--" + name + if value == "" then "" else [SWITCH_VALUE_SEPARATOR] + value
  }

  lemma {:induction false} SeparatorAfter(s: string, name: string, rest: string, start: nat)
    requires start <= |s| && s[start..] == name + rest && SWITCH_VALUE_SEPARATOR !in name
    requires rest == "" || rest[0] == SWITCH_VALUE_SEPARATOR
    ensures FindSeparator(s, start) == start + |name|
    decreases |name|
  {
    assert |s| == start + |name| + |rest|;
    if name != "" {
      assert s[start..][0] == name[0] && name[0] in name;
      assert s[start+1..] == name[1..] + rest;
      SeparatorAfter(s, name[1..], rest, start + 1);
    } else if rest != "" {
      assert s[start..][0] == rest[0];
    }
  }

  /** After one dash or two comes the name, up to the first '=', and what follows that is the
      value; one dash is read so only where there are not two. */
  lemma DashesRead(name: string, value: string)
    requires '=' !in name
    ensures SwitchOf("--" + name) == Some(Switch(name, ""))
    ensures SwitchOf("--" + name + "=" + value) == Some(Switch(name, value))
    ensures name == "" || name[0] != '-' ==> SwitchOf("-" + name) == Some(Switch(name, ""))
    ensures name == "" || name[0] != '-' ==> SwitchOf("-" + name + "=" + value) == Some(Switch(name, value))
  {
    DashRead("--", name, "");
    DashRead("--", name, "=" + value);
    DashRead("-", name, "");
    DashRead("-", name, "=" + value);
    assert ("=" + value)[1..] == value;
    assert "--" + name + "" == "--" + name && "-" + name + "" == "-" + name;
    assert "--" + name + ("=" + value) == "--" + name + "=" + value;
    assert "-" + name + ("=" + value) == "-" + name + "=" + value;
  }

  lemma DashRead(prefix: string, name: string, rest: string)
    requires '=' !in name && (rest == "" || rest[0] == '=') && (prefix == "--" || prefix == "-")
    ensures prefix == "--" || name == "" || name[0] != '-' ==>
              SwitchOf(prefix + name + rest) == Some(Switch(name, if rest == "" then "" else rest[1..]))
  {
    var s := prefix + name + rest;
    ConcatAssoc(prefix, name, rest);
    assert s[|prefix|..] == name + rest;
    assert s[..|prefix|] == prefix;
    SplitRead(s, |prefix|, name, rest);
    assert |s| > 1 && prefix == "-" ==> s[..2][1] == (name + rest)[0];
  }

  lemma SplitRead(s: string, start: nat, name: string, rest: string)
    requires start <= |s| && s[start..] == name + rest && '=' !in name && (rest == "" || rest[0] == '=')
    ensures SplitSwitch(s, start) == Switch(name, if rest == "" then "" else rest[1..])
  {
    var i := start + |name|;
    SeparatorAfter(s, name, rest, start);
    assert s[start..i] == s[start..][..|name|] == name;
    assert s[i..] == s[start..][|name|..] == rest;
    assert rest != "" ==> s[i+1..] == s[i..][1..];
  }

  /** A printed switch reads back exactly when its name has no '=' and it is not the terminator. */
  lemma PrintedReadsBack(name: string, value: string)
    ensures Printed(name, value)[..2] == "--"
    ensures Printed(name, value) != SWITCH_TERMINATOR
            && SwitchOf(Printed(name, value)) == Some(Switch(name, value)) <==>
            SWITCH_VALUE_SEPARATOR !in name && !(name == "" && value == "")
  {
    var s := Printed(name, value);
    assert s[..2] == "--";
    if SWITCH_VALUE_SEPARATOR !in name {
      DashesRead(name, value);
      assert "--" + name + "" == "--" + name;
      assert "--" + name + ("=" + value) == "--" + name + "=" + value;
      assert |s| == 2 <==> name == "" && value == "";
    } else {
      assert SwitchOf(s).value.name != name;
    }
  }

  // ----- Parsing -----

  datatype Parsed = Parsed(switches: map<string, string>, args: seq<string>, parsing: bool)

  const NOTHING_PARSED := Parsed(map[], [], true)

  function ParseOne(p: Parsed, arg: string): Parsed {
    if !p.parsing then p.(args := p.args + [arg])
    else if arg == SWITCH_TERMINATOR then p.(parsing := false)
    else
      match SwitchOf(arg)
      case Some(s) => p.(switches := p.switches[s.name := s.value])
      case None => p.(args := p.args + [arg])
  }

  function ParseFrom(p: Parsed, items: seq<string>): Parsed {
    if items == [] then p
    else
      var n := |items| - 1;
      ParseOne(ParseFrom(p, items[..n]), items[n])
  }

  lemma ParseSnoc(p: Parsed, items: seq<string>, arg: string)
    ensures ParseFrom(p, items + [arg]) == ParseOne(ParseFrom(p, items), arg)
  {
    assert (items + [arg])[..|items|] == items;
  }

  ghost predicate NoTerminator(items: seq<string>) {
    SWITCH_TERMINATOR !in items
  }

  lemma {:induction false} ParsingIffNoTerminator(p: Parsed, items: seq<string>)
    requires p.parsing
    ensures ParseFrom(p, items).parsing <==> NoTerminator(items)
  {
    if items != [] {
      var n := |items| - 1;
      ParsingIffNoTerminator(p, items[..n]);
      assert items == items[..n] + [items[n]];
    }
  }

  // Item i sets the switch name to value, and no later item sets it again.
  ghost predicate LastSets(items: seq<string>, i: nat, name: string, value: string) {
    && i < |items| && SwitchOf(items[i]) == Some(Switch(name, value))
    && forall j :: i < j < |items| ==> !Sets(items[j], name)
  }

  ghost predicate Sets(arg: string, name: string) {
    SwitchOf(arg).Some? && SwitchOf(arg).value.name == name
  }

  /** Without a terminator, a switch has the value that its last occurrence gives it. */
  lemma {:induction false} LastOccurrenceWins(items: seq<string>, name: string, value: string)
    requires NoTerminator(items)
    ensures Get(ParseFrom(NOTHING_PARSED, items).switches, name) == Some(value)
            <==> exists i: nat :: LastSets(items, i, name, value)
  {
    if items != [] {
      var n := |items| - 1;
      var before := items[..n];
      assert items == before + [items[n]];
      assert NoTerminator(before) && items[n] != SWITCH_TERMINATOR;
      LastOccurrenceWins(before, name, value);
      ParsingIffNoTerminator(NOTHING_PARSED, before);
      if Sets(items[n], name) {
        assert LastSets(items, n, name, SwitchOf(items[n]).value.value);
      } else {
        LastSetsBefore(before, items[n], name, value);
      }
    }
  }

  lemma LastSetsBefore(before: seq<string>, arg: string, name: string, value: string)
    requires !Sets(arg, name)
    ensures (exists i: nat :: LastSets(before + [arg], i, name, value))
            <==> exists i: nat :: LastSets(before, i, name, value)
  {
    if i: nat :| LastSets(before, i, name, value) {
      assert LastSets(before + [arg], i, name, value);
    }
    if i: nat :| LastSets(before + [arg], i, name, value) {
      assert i < |before|;
      forall j | i < j < |before|
        ensures !Sets(before[j], name)
      {
        assert (before + [arg])[j] == before[j];
      }
      assert LastSets(before, i, name, value);
    }
  }

  // Everything after the terminator is a plain argument.
  lemma {:induction false} AfterTerminator(p: Parsed, items: seq<string>)
    requires !p.parsing
    ensures ParseFrom(p, items) == p.(args := p.args + items)
  {
    if items != [] {
      var n := |items| - 1;
      AfterTerminator(p, items[..n]);
      assert items == items[..n] + [items[n]];
    }
  }

  lemma OneJoins(s: map<string, string>, a: seq<string>, q: Parsed, arg: string)
    requires q.parsing && arg != SWITCH_TERMINATOR
    ensures var r := ParseOne(q, arg);
            ParseOne(Parsed(s + q.switches, a + q.args, true), arg) == Parsed(s + r.switches, a + r.args, true)
  {
    if SwitchOf(arg).Some? {
      var sw := SwitchOf(arg).value;
      assert (s + q.switches)[sw.name := sw.value] == s + q.switches[sw.name := sw.value];
    } else {
      assert a + q.args + [arg] == a + (q.args + [arg]);
    }
  }

  // Parsing items on top of what was parsed before.
  lemma {:induction false} ParseJoins(p: Parsed, items: seq<string>)
    requires p.parsing && NoTerminator(items)
    ensures var q := ParseFrom(NOTHING_PARSED, items);
            ParseFrom(p, items) == Parsed(p.switches + q.switches, p.args + q.args, true)
  {
    if items != [] {
      var n := |items| - 1;
      assert items == items[..n] + [items[n]];
      assert NoTerminator(items[..n]) && items[n] != SWITCH_TERMINATOR;
      ParseJoins(p, items[..n]);
      ParsingIffNoTerminator(NOTHING_PARSED, items[..n]);
      OneJoins(p.switches, p.args, ParseFrom(NOTHING_PARSED, items[..n]), items[n]);
    } else {
      assert p.switches + map[] == p.switches && p.args + [] == p.args;
    }
  }

  lemma {:induction false} ParseConcat(p: Parsed, a: seq<string>, b: seq<string>)
    ensures ParseFrom(p, a + b) == ParseFrom(ParseFrom(p, a), b)
  {
    if b == [] {
      assert a + b == a;
    } else {
      var n := |b| - 1;
      ParseConcat(p, a, b[..n]);
      assert a + b == (a + b[..n]) + [b[n]];
      ParseSnoc(p, a + b[..n], b[n]);
    }
  }

  // ----- What is a plain argument -----

  // Item n is the first "--", or there is none.
  ghost predicate EndsAt(items: seq<string>, n: nat) {
    n <= |items| && "--" !in items[..n] && (n < |items| ==> items[n] == "--")
  }

  predicate Plain(arg: string) {
    arg == "" || arg[0] != '-'
  }

  // pos lists the positions before n of the items that do not begin with '-', in order.
  ghost predicate PlainAt(items: seq<string>, n: nat, pos: seq<nat>) {
    && n <= |items| && (forall i :: 0 <= i < |pos| ==> pos[i] < n)
    && (forall i, j :: 0 <= i < j < |pos| ==> pos[i] < pos[j])
    && (forall k: nat :: k in pos <==> k < n && Plain(items[k]))
  }

  function Picked(items: seq<string>, pos: seq<nat>): (picked: seq<string>)
    requires forall i :: 0 <= i < |pos| ==> pos[i] < |items|
    ensures |picked| == |pos| && forall i :: 0 <= i < |pos| ==> picked[i] == items[pos[i]]
  {
    if pos == [] then []
    else
      var m := |pos| - 1;
      Picked(items, pos[..m]) + [items[pos[m]]]
  }

  // The plain arguments are the items before the first "--" that do not begin with '-', in
  // order, and all the items after it.
  ghost predicate ArgsAre(items: seq<string>, args: seq<string>) {
    exists n: nat, pos: seq<nat> :: ArgsFrom(items, n, pos, args)
  }

  ghost predicate ArgsFrom(items: seq<string>, n: nat, pos: seq<nat>, args: seq<string>) {
    && EndsAt(items, n) && PlainAt(items, n, pos)
    && args == Picked(items, pos) + if n < |items| then items[n+1..] else []
  }

  lemma PlainIffNoSwitch(arg: string)
    ensures Plain(arg) <==> SwitchOf(arg) == None
  {
    assert arg != "" ==> arg[..1] == [arg[0]];
    assert |arg| > 1 ==> arg[..2] == [arg[0], arg[1]];
  }

  lemma {:induction false} PlainBefore(p: Parsed, items: seq<string>, n: nat) returns (pos: seq<nat>)
    requires p.parsing && n <= |items| && "--" !in items[..n]
    ensures PlainAt(items, n, pos)
    ensures ParseFrom(p, items[..n]).args == p.args + Picked(items, pos) && ParseFrom(p, items[..n]).parsing
  {
    if n == 0 {
      pos := [];
    } else {
      var m := n - 1;
      assert items[..n] == items[..m] + [items[m]];
      pos := PlainBefore(p, items, m);
      ParseSnoc(p, items[..m], items[m]);
      PlainOneMore(items, pos, m);
      ParseOnePlain(ParseFrom(p, items[..m]), items[m]);
      if Plain(items[m]) {
        PickOneMore(items, pos, m);
        ConcatAssoc(p.args, Picked(items, pos), [items[m]]);
        pos := pos + [m];
      }
    }
  }

  lemma ParseOnePlain(p: Parsed, arg: string)
    requires p.parsing && arg != "--"
    ensures ParseOne(p, arg).parsing && ParseOne(p, arg).args == if Plain(arg) then p.args + [arg] else p.args
  {
    PlainIffNoSwitch(arg);
  }

  lemma PlainOneMore(items: seq<string>, pos: seq<nat>, n: nat)
    requires n < |items| && PlainAt(items, n, pos)
    ensures PlainAt(items, n + 1, if Plain(items[n]) then pos + [n] else pos)
  {
  }

  lemma PickOneMore(items: seq<string>, pos: seq<nat>, k: nat)
    requires k < |items| && forall i :: 0 <= i < |pos| ==> pos[i] < |items|
    ensures Picked(items, pos + [k]) == Picked(items, pos) + [items[k]]
  {
    assert (pos + [k])[..|pos|] == pos;
  }

  lemma {:induction false} FirstEnd(items: seq<string>) returns (n: nat)
    ensures EndsAt(items, n)
  {
    if items == [] || items[0] == "--" {
      n := 0;
    } else {
      var m := FirstEnd(items[1..]);
      n := m + 1;
      assert items[..n] == [items[0]] + items[1..][..m];
    }
  }

  /** Parsing finds exactly these plain arguments; and switches only before the first "--". */
  lemma PlainArguments(p: Parsed, items: seq<string>) returns (n: nat, pos: seq<nat>)
    requires p.parsing
    ensures EndsAt(items, n) && ParseFrom(p, items).switches == ParseFrom(p, items[..n]).switches
    ensures PlainAt(items, n, pos)
    ensures ParseFrom(p, items).args
         == p.args + (Picked(items, pos) + if n < |items| then items[n+1..] else [])
  {
    n := FirstEnd(items);
    pos := PlainBefore(p, items, n);
    if n < |items| {
      ArgsWithEnd(p, items, n, Picked(items, pos));
    } else {
      assert items[..n] == items && Picked(items, pos) + [] == Picked(items, pos);
    }
  }

  lemma ArgsWithEnd(p: Parsed, items: seq<string>, n: nat, picked: seq<string>)
    requires n < |items| && items[n] == "--"
    requires ParseFrom(p, items[..n]).parsing && ParseFrom(p, items[..n]).args == p.args + picked
    ensures ParseFrom(p, items).args == p.args + (picked + items[n+1..])
    ensures ParseFrom(p, items).switches == ParseFrom(p, items[..n]).switches
  {
    var before, after := items[..n], items[n+1..];
    ParseAtTerminator(p, before, after);
    assert before + ["--"] + after == items;
    ConcatAssoc(p.args, picked, after);
  }

  lemma ParseAtTerminator(p: Parsed, before: seq<string>, after: seq<string>)
    requires ParseFrom(p, before).parsing
    ensures var q := ParseFrom(p, before);
            ParseFrom(p, before + ["--"] + after) == Parsed(q.switches, q.args + after, false)
  {
    ParseSnoc(p, before, "--");
    ParseConcat(p, before + ["--"], after);
    AfterTerminator(ParseFrom(p, before + ["--"]), after);
  }

  lemma EndsOnce(items: seq<string>, n: nat, m: nat)
    requires EndsAt(items, n) && EndsAt(items, m)
    ensures n == m
  {
    NotBefore(items, n);
    NotBefore(items, m);
  }

  lemma NotBefore(items: seq<string>, n: nat)
    requires n <= |items| && "--" !in items[..n]
    ensures forall k :: 0 <= k < n ==> items[k] != "--"
  {
    forall k | 0 <= k < n
      ensures items[k] != "--"
    {
      assert items[..n][k] == items[k];
    }
  }

  /** A switch has the value of its last occurrence before the first "--". */
  lemma SwitchesBeforeTerminator(items: seq<string>, n: nat, name: string, value: string)
    requires EndsAt(items, n)
    ensures Get(ParseFrom(NOTHING_PARSED, items).switches, name) == Some(value)
            <==> exists i: nat :: LastSets(items[..n], i, name, value)
  {
    var m, pos := PlainArguments(NOTHING_PARSED, items);
    EndsOnce(items, n, m);
    LastOccurrenceWins(items[..n], name, value);
  }

  // ----- Command lines as values, and what the operations do to them -----

  datatype Line = Line(argv: seq<string>, switches: map<string, string>, args: seq<string>)

  // Parsing the arguments after the program gives exactly the switches.
  ghost predicate Consistent(l: Line) {
    && |l.argv| > 0 && NoTerminator(l.argv[1..])
    && ParseFrom(NOTHING_PARSED, l.argv[1..]).switches == l.switches
  }

  function WithSwitch(l: Line, name: string, value: string): Line {
    Line(l.argv + [Printed(name, value)], l.switches[name := value], l.args)
  }

  function WithArg(l: Line, value: string): Line {
    l.(argv := l.argv + [value])
  }

  function WithLine(l: Line, other: Line, includeProgram: bool): Line
    requires |other.argv| > 0 && (includeProgram ==> |l.argv| > 0)
  {
    Line((if includeProgram then l.argv[0 := other.argv[0]] else l.argv) + other.argv[1..],
         l.switches + other.switches, l.args)
  }

  /** The joined line has the other's program or its own, then its own arguments, then the
      other's; and the other's switches prevail. */
  lemma JoinedLine(l: Line, other: Line, includeProgram: bool)
    requires |other.argv| > 0 && |l.argv| > 0
    ensures var r := WithLine(l, other, includeProgram);
            && |r.argv| == |l.argv| + |other.argv| - 1 && r.args == l.args
            && r.argv[0] == (if includeProgram then other.argv[0] else l.argv[0])
            && (forall i :: 0 < i < |l.argv| ==> r.argv[i] == l.argv[i])
            && (forall i :: 0 < i < |other.argv| ==> r.argv[|l.argv| + i - 1] == other.argv[i])
            && (forall name :: Get(r.switches, name) ==
                  if name in other.switches then Get(other.switches, name) else Get(l.switches, name))
  {
    var r := WithLine(l, other, includeProgram);
    forall i | 0 < i < |other.argv|
      ensures r.argv[|l.argv| + i - 1] == other.argv[i]
    {
      assert other.argv[1..][i-1] == other.argv[i];
    }
  }

  // One name of CopySwitchesFrom.
  function WithCopied(l: Line, from: map<string, string>, name: string): Line {
    if name in from then WithSwitch(l, name, from[name]) else l
  }

  function WithSwitchesFrom(l: Line, from: map<string, string>, names: seq<string>): Line {
    if names == [] then l
    else
      var n := |names| - 1;
      WithCopied(WithSwitchesFrom(l, from, names[..n]), from, names[n])
  }

  /** Exactly the named switches that the source has are copied, with its values; the vector
      only grows. */
  lemma {:induction false} CopyMeans(l: Line, from: map<string, string>, names: seq<string>)
    ensures var m := WithSwitchesFrom(l, from, names);
            && (forall name :: Get(m.switches, name) ==
                  if name in names && name in from then Get(from, name) else Get(l.switches, name))
            && l.argv <= m.argv && m.args == l.args
  {
    if names != [] {
      var n := |names| - 1;
      CopyMeans(l, from, names[..n]);
      assert forall name :: name in names <==> name in names[..n] || name == names[n];
    }
  }

  // ----- What keeps a command line consistent -----

  lemma AppendedItem(l: Line, arg: string)
    requires Consistent(l)
    ensures (l.argv + [arg])[1..] == l.argv[1..] + [arg]
    ensures NoTerminator((l.argv + [arg])[1..]) <==> arg != SWITCH_TERMINATOR
    ensures ParseFrom(NOTHING_PARSED, (l.argv + [arg])[1..]) == ParseOne(ParseFrom(NOTHING_PARSED, l.argv[1..]), arg)
    ensures ParseFrom(NOTHING_PARSED, l.argv[1..]).parsing
  {
    assert (l.argv + [arg])[1..] == l.argv[1..] + [arg];
    ParseSnoc(NOTHING_PARSED, l.argv[1..], arg);
    ParsingIffNoTerminator(NOTHING_PARSED, l.argv[1..]);
  }

  // A name with '=' in it is never parsed.
  lemma {:induction false} ParsedNames(items: seq<string>)
    ensures forall name :: name in ParseFrom(NOTHING_PARSED, items).switches ==> SWITCH_VALUE_SEPARATOR !in name
  {
    if items != [] {
      ParsedNames(items[..|items| - 1]);
    }
  }

  /** AppendSwitchNative keeps the line consistent exactly for these names and values. */
  lemma SwitchKeepsIff(l: Line, name: string, value: string)
    requires Consistent(l)
    ensures Consistent(WithSwitch(l, name, value)) <==> SWITCH_VALUE_SEPARATOR !in name && !(name == "" && value == "")
  {
    AppendedItem(l, Printed(name, value));
    PrintedReadsBack(name, value);
    ParsedNames(l.argv[1..]);
    ParsedNames(WithSwitch(l, name, value).argv[1..]);
  }

  // A plain argument, or one that repeats a switch that the line already has.
  predicate ArgAllowed(switches: map<string, string>, value: string) {
    value != SWITCH_TERMINATOR &&
    (SwitchOf(value).Some? ==> Get(switches, SwitchOf(value).value.name) == Some(SwitchOf(value).value.value))
  }

  /** AppendArgNative does exactly for these arguments. */
  lemma ArgKeepsIff(l: Line, value: string)
    requires Consistent(l)
    ensures Consistent(WithArg(l, value)) <==> ArgAllowed(l.switches, value)
  {
    AppendedItem(l, value);
  }

  /** Joining two consistent lines gives a consistent line. */
  lemma LineKeeps(l: Line, other: Line, includeProgram: bool)
    requires Consistent(l) && Consistent(other)
    ensures Consistent(WithLine(l, other, includeProgram))
  {
    var r := WithLine(l, other, includeProgram);
    assert r.argv[1..] == l.argv[1..] + other.argv[1..];
    ParseConcat(NOTHING_PARSED, l.argv[1..], other.argv[1..]);
    ParsingIffNoTerminator(NOTHING_PARSED, l.argv[1..]);
    ParseJoins(ParseFrom(NOTHING_PARSED, l.argv[1..]), other.argv[1..]);
  }

  /** CopySwitchesFrom a consistent line does unless it copies the empty switch, which an
      argument "-" leaves behind. */
  lemma {:induction false} CopyKeepsIff(l: Line, source: Line, names: seq<string>)
    requires Consistent(l) && Consistent(source)
    ensures Consistent(WithSwitchesFrom(l, source.switches, names)) <==>
            !("" in names && Get(source.switches, "") == Some(""))
  {
    if names != [] {
      var n := |names| - 1;
      var before, name := names[..n], names[n];
      assert names == before + [name];
      CopyKeepsIff(l, source, before);
      var m := WithSwitchesFrom(l, source.switches, before);
      ParsedNames(source.argv[1..]);
      if Consistent(m) {
        if name in source.switches {
          SwitchKeepsIff(m, name, source.switches[name]);
        }
      } else {
        EmptyCopied(l, source, before);
        if name in source.switches {
          var printed := Printed(name, source.switches[name]);
          assert WithSwitch(m, name, source.switches[name]).argv[1..] == m.argv[1..] + [printed];
        }
      }
    }
  }

  lemma {:induction false} EmptyCopied(l: Line, source: Line, names: seq<string>)
    requires |l.argv| > 0 && "" in names && Get(source.switches, "") == Some("")
    ensures var m := WithSwitchesFrom(l, source.switches, names); |m.argv| > 0 && !NoTerminator(m.argv[1..])
  {
    var n := |names| - 1;
    var before, name := names[..n], names[n];
    var m := WithSwitchesFrom(l, source.switches, before);
    assert names == before + [name];
    CopyGrows(l, source.switches, before);
    if "" in before {
      EmptyCopied(l, source, before);
    }
    if name in source.switches {
      var printed := Printed(name, source.switches[name]);
      assert WithSwitch(m, name, source.switches[name]).argv[1..] == m.argv[1..] + [printed];
      assert name == "" ==> printed == SWITCH_TERMINATOR;
    }
  }

  lemma {:induction false} CopyGrows(l: Line, from: map<string, string>, names: seq<string>)
    ensures |WithSwitchesFrom(l, from, names).argv| >= |l.argv|
  {
    if names != [] {
      CopyGrows(l, from, names[..|names| - 1]);
    }
  }

  lemma CopySnoc(l: Line, from: map<string, string>, names: seq<string>, name: string)
    ensures WithSwitchesFrom(l, from, names + [name]) == WithCopied(WithSwitchesFrom(l, from, names), from, name)
  {
    assert (names + [name])[..|names|] == names;
  }

  // The argument "-" is parsed as a switch with an empty name; copied, it is written as the
  // terminator, after which a switch is no longer parsed.
  lemma DashLost()
    ensures var source, empty := Line(["p", "-"], map["" := ""], []), Line(["p"], map[], []);
            var copied := WithSwitchesFrom(empty, source.switches, [""]);
            && Consistent(source) && Consistent(empty)
            && copied.argv == ["p", "--"] && !Consistent(copied)
    ensures ParseFrom(NOTHING_PARSED, ["--", "--a"]) == Parsed(map[], ["--a"], false)
  {
    DashParsed();
    DashCopied(Line(["p"], map[], []));
    TerminatorThenSwitch();
  }

  lemma DashParsed()
    ensures Consistent(Line(["p", "-"], map["" := ""], [])) && Consistent(Line(["p"], map[], []))
  {
    assert ["p", "-"][1..] == [] + ["-"] && ["p"][1..] == [];
    DashIsSwitch();
    ParseSnoc(NOTHING_PARSED, [], "-");
  }

  lemma DashIsSwitch()
    ensures SwitchOf("-") == Some(Switch("", ""))
  {
    assert "-"[..1] == "-";
  }

  lemma DashCopied(l: Line)
    requires l.argv == ["p"]
    ensures var copied := WithSwitchesFrom(l, map["" := ""], [""]);
            copied.argv == ["p", "--"] && !NoTerminator(copied.argv[1..])
  {
    CopySnoc(l, map["" := ""], [], "");
    assert [] + [""] == [""] && Printed("", "") == "--";
    assert ["p"] + ["--"] == ["p", "--"] && ["p", "--"][1..] == ["--"];
  }

  lemma TerminatorThenSwitch()
    ensures ParseFrom(NOTHING_PARSED, ["--", "--a"]) == Parsed(map[], ["--a"], false)
  {
    assert [] + ["--"] == ["--"] && ["--"] + ["--a"] == ["--", "--a"];
    ParseSnoc(NOTHING_PARSED, [], "--");
    ParseSnoc(NOTHING_PARSED, ["--"], "--a");
  }

  // ----- Whole runs over any number of command lines -----

  type Id = nat

  datatype Operation =
    | NewProgram(id: Id, program: string)
    | FromArgv(id: Id, argv: seq<string>)
    | AppendSwitch(id: Id, name: string, value: string)
    | AppendArg(id: Id, value: string)
    | AppendArguments(id: Id, other: Id)
    | CopySwitches(id: Id, source: Id, names: seq<string>)

  function Parsing(argv: seq<string>): Line {
    var p := ParseFrom(NOTHING_PARSED, if argv == [] then [] else argv[1..]);
    Line(argv, p.switches, p.args)
  }

  predicate SwitchAllowed(name: string, value: string) {
    SWITCH_VALUE_SEPARATOR !in name && !(name == "" && value == "")
  }

  // The command lines that an operation names exist, and are two where they must be.
  predicate Defined(lines: map<Id, Line>, op: Operation) {
    match op
    case AppendSwitch(id, _, _) => id in lines
    case AppendArg(id, _) => id in lines
    case AppendArguments(id, other) => id in lines && other in lines && id != other && lines[other].argv != []
      && lines[id].argv != []
    case CopySwitches(id, source, _) => id in lines && source in lines
    case _ => true
  }

  // Names that can be written, arguments that change no switch, and no terminator.
  predicate Allowed(lines: map<Id, Line>, op: Operation)
    requires Defined(lines, op)
  {
    match op
    case FromArgv(_, argv) => argv != [] && SWITCH_TERMINATOR !in argv[1..]
    case AppendSwitch(_, name, value) => SwitchAllowed(name, value)
    case AppendArg(id, value) => ArgAllowed(lines[id].switches, value)
    case CopySwitches(_, source, names) => !("" in names && Get(lines[source].switches, "") == Some(""))
    case _ => true
  }

  function Perform(lines: map<Id, Line>, op: Operation): map<Id, Line>
    requires Defined(lines, op)
  {
    match op
    case NewProgram(id, program) => lines[id := Line([program], map[], [])]
    case FromArgv(id, argv) => lines[id := Parsing(argv)]
    case AppendSwitch(id, name, value) => lines[id := WithSwitch(lines[id], name, value)]
    case AppendArg(id, value) => lines[id := WithArg(lines[id], value)]
    case AppendArguments(id, other) => lines[id := WithLine(lines[id], lines[other], lines[other].argv[0] != "")]
    case CopySwitches(id, source, names) => lines[id := WithSwitchesFrom(lines[id], lines[source].switches, names)]
  }

  ghost predicate AllConsistent(lines: map<Id, Line>) {
    forall id :: id in lines ==> Consistent(lines[id])
  }

  /** An operation keeps all command lines consistent exactly when it is allowed. */
  lemma PerformKeepsIff(lines: map<Id, Line>, op: Operation)
    requires AllConsistent(lines) && Defined(lines, op)
    ensures AllConsistent(Perform(lines, op)) <==> Allowed(lines, op)
  {
    assert Consistent(Perform(lines, op)[op.id]) <==> Allowed(lines, op) by {
      match op
      case NewProgram(id, program) =>
        assert [program][1..] == [];
      case FromArgv(id, argv) =>
      case AppendSwitch(id, name, value) =>
        SwitchKeepsIff(lines[id], name, value);
      case AppendArg(id, value) =>
        ArgKeepsIff(lines[id], value);
      case AppendArguments(id, other) =>
        LineKeeps(lines[id], lines[other], lines[other].argv[0] != "");
      case CopySwitches(id, source, names) =>
        CopyKeepsIff(lines[id], lines[source], names);
    }
  }

  ghost predicate CanRun(ops: seq<Operation>, lines: map<Id, Line>)
    decreases |ops|
  {
    ops == [] || (Defined(lines, ops[0]) && Allowed(lines, ops[0]) && CanRun(ops[1..], Perform(lines, ops[0])))
  }

  ghost function RunAll(ops: seq<Operation>, lines: map<Id, Line>): map<Id, Line>
    requires CanRun(ops, lines)
    decreases |ops|
  {
    if ops == [] then lines else RunAll(ops[1..], Perform(lines, ops[0]))
  }

  /** After any run of these operations, parsing each argv again gives exactly the switches
      of its command line. */
  lemma {:induction false} BuildingAgreesWithParsing(ops: seq<Operation>, lines: map<Id, Line>)
    requires AllConsistent(lines) && CanRun(ops, lines)
    ensures AllConsistent(RunAll(ops, lines))
    decreases |ops|
  {
    if ops != [] {
      PerformKeepsIff(lines, ops[0]);
      BuildingAgreesWithParsing(ops[1..], Perform(lines, ops[0]));
    }
  }

  // ----- CommandLine -----

  class CommandLine {
    var argv: seq<string>
    var switches: map<string, string>
    var args: seq<string>

    ghost function Value(): Line
      reads this
    {
      Line(argv, switches, args)
    }

    constructor NoProgram()
      ensures Value() == Line([""], map[], []) && Consistent(Value())
    {
      argv, switches, args := [""], map[], [];
    }

    constructor WithProgram(program: string)
      ensures Value() == Line([program], map[], []) && Consistent(Value())
    {
      argv, switches, args := [program], map[], [];
      assert [program][1..] == [];
    }

    constructor (argv: seq<string>)
      ensures Value() == Parsing(argv)
      ensures Consistent(Value()) <==> argv != [] && SWITCH_TERMINATOR !in argv[1..]
    {
      this.argv, switches, args := [], map[], [];
      new;
      InitFromArgv(argv);
    }

    method InitFromArgv(argv: seq<string>)
      modifies this
      ensures this.argv == argv
      ensures var p := ParseFrom(Parsed(old(switches), old(args), true), if argv == [] then [] else argv[1..]);
              switches == p.switches && args == p.args
      ensures old(args) <= args && ArgsAre(if argv == [] then [] else argv[1..], args[|old(args)|..])
    {
      this.argv := argv;
      var parseSwitches := true;
      ghost var p0 := Parsed(switches, args, true);
      ghost var items := if argv == [] then [] else argv[1..];
      var i := 1;
      while i < |argv|
        invariant 1 <= i && (argv != [] ==> i <= |argv|) && this.argv == argv
        invariant Parsed(switches, args, parseSwitches) == ParseFrom(p0, items[..(if argv == [] then 0 else i - 1)])
        decreases |argv| - i
      {
        var arg := argv[i];
        assert items[..i] == items[..i-1] + [arg];
        ParseSnoc(p0, items[..i-1], arg);
        i := i + 1;
        if !parseSwitches {
          args := args + [arg];
          continue;
        }
        if arg == SWITCH_TERMINATOR {
          parseSwitches := false;
          continue;
        }
        var isSwitch, name, value := IsSwitch(arg);
        if isSwitch {
          switches := switches[name := value];
        } else {
          args := args + [arg];
        }
      }
      assert items[..|items|] == items;
      ghost var n, pos := PlainArguments(p0, items);
      assert ArgsFrom(items, n, pos, args[|old(args)|..]);
    }

    function HasSwitch(name: string): (found: bool)
      reads this
      ensures found <==> Get(switches, name).Some?
    {
      name in switches
    }

    function GetSwitchValueNative(name: string): (value: string)
      reads this
      ensures value == "" || Get(switches, name) == Some(value)
      ensures HasSwitch(name) ==> Get(switches, name) == Some(value)
    {
      if name in switches then switches[name] else ""
    }

    method AppendSwitch(name: string)
      modifies this
      ensures Value() == WithSwitch(old(Value()), name, "")
      ensures argv == old(argv) + ["--" + name] && switches == old(switches)[name := ""] && args == old(args)
      ensures old(Consistent(Value())) ==> (Consistent(Value()) <==> SwitchAllowed(name, ""))
    {
      assert Printed(name, "") == SWITCH_PREFIXES[0] + name;
      argv := argv + [SWITCH_PREFIXES[0] + name];
      switches := switches[name := ""];
      if old(Consistent(Value())) {
        SwitchKeepsIff(old(Value()), name, "");
      }
    }

    method AppendSwitchNative(name: string, value: string)
      modifies this
      ensures Value() == WithSwitch(old(Value()), name, value)
      ensures argv == old(argv) + ["--" + name + if value == "" then "" else "=" + value]
      ensures switches == old(switches)[name := value] && args == old(args)
      ensures old(Consistent(Value())) ==> (Consistent(Value()) <==> SwitchAllowed(name, value))
    {
      var combined := SWITCH_PREFIXES[0] + name;
      if value != "" {
        combined := combined + ([SWITCH_VALUE_SEPARATOR] + value);
      }
      assert combined == Printed(name, value);
      argv := argv + [combined];
      switches := switches[name := value];
      if old(Consistent(Value())) {
        SwitchKeepsIff(old(Value()), name, value);
      }
    }

    // args is not updated, so it misses what is appended here.
    method AppendArgNative(value: string)
      modifies this
      ensures Value() == WithArg(old(Value()), value)
      ensures argv == old(argv) + [value] && switches == old(switches) && args == old(args)
      ensures old(Consistent(Value())) ==> (Consistent(Value()) <==> ArgAllowed(switches, value))
    {
      argv := argv + [value];
      if old(Consistent(Value())) {
        ArgKeepsIff(old(Value()), value);
      }
    }

    // Appending a command line to itself would not end.
    method AppendArguments(other: CommandLine, includeProgram: bool)
      requires other != this && |other.argv| > 0 && includeProgram == (other.argv[0] != "")
      requires includeProgram ==> |argv| > 0
      modifies this
      ensures Value() == WithLine(old(Value()), other.Value(), includeProgram)
      ensures old(Consistent(Value())) && Consistent(other.Value()) ==> Consistent(Value())
    {
      if includeProgram {
        argv := argv[0 := other.argv[0]];
      }
      ghost var start := argv;
      for i := 1 to |other.argv|
        invariant argv == start + other.argv[1..i] && switches == old(switches) && args == old(args)
      {
        argv := argv + [other.argv[i]];
      }
      var todo := other.switches.Keys;
      while todo != {}
        invariant todo <= other.switches.Keys && argv == start + other.argv[1..] && args == old(args)
        invariant switches == old(switches) + (other.switches - todo)
        decreases todo
      {
        assert (forall x :: x !in todo) ==> todo == {};
        var name :| name in todo;
        switches := switches[name := other.switches[name]];
        todo := todo - {name};
      }
      assert other.switches - {} == other.switches;
      if old(Consistent(Value())) && Consistent(other.Value()) {
        LineKeeps(old(Value()), other.Value(), includeProgram);
      }
    }

    // source may be this command line itself.
    method CopySwitchesFrom(source: CommandLine, names: seq<string>)
      modifies this
      ensures Value() == WithSwitchesFrom(old(Value()), old(source.switches), names)
      ensures old(Consistent(Value())) && old(Consistent(source.Value())) ==>
                (Consistent(Value()) <==> !("" in names && Get(old(source.switches), "") == Some("")))
    {
      for i := 0 to |names|
        invariant Value() == WithSwitchesFrom(old(Value()), old(source.switches), names[..i])
        invariant source.switches == old(source.switches)
      {
        assert names[..i+1][..i] == names[..i];
        if source.HasSwitch(names[i]) {
          var value := source.GetSwitchValueNative(names[i]);
          AppendSwitchNative(names[i], value);
        }
      }
      assert names[..|names|] == names;
      if old(Consistent(Value())) && old(Consistent(source.Value())) {
        CopyKeepsIff(old(Value()), old(source.Value()), names);
      }
    }
  }
}
