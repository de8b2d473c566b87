/** What an override file says, told from its bytes: which lines are its lines, what each one assigns,
    which values and issues follow. */
module OverrideGrammar {
  import opened Options
  import opened DevOverrides

  // ---------------------------------------------------------------------------- one line

  predicate Name(name: seq<Byte>) {
    name != [] && name[0] != 0x23 && forall i :: 0 <= i < |name| ==> 0x21 <= name[i] <= 0x7E && name[i] != 0x3D
  }

  function Text(value: bool): seq<Byte> {
    if value then [0x74, 0x72, 0x75, 0x65] else [0x66, 0x61, 0x6C, 0x73, 0x65]
  }

  /** The line is name=true or name=false, perhaps with a carriage return. */
  predicate Assigns(line: seq<Byte>, name: seq<Byte>, value: bool) {
    Name(name) && (line == name + [0x3D] + Text(value) || line == name + [0x3D] + Text(value) + [0x0D])
  }

  /** Nothing, or a comment. */
  predicate Ignorable(line: seq<Byte>) { line == [] || line == [0x0D] || line[0] == 0x23 }

  lemma {:induction false} EqualsAt(t: seq<Byte>)
    ensures FirstEquals(t) <= |t| && (forall i :: 0 <= i < FirstEquals(t) ==> t[i] != 0x3D)
    ensures FirstEquals(t) < |t| ==> t[FirstEquals(t)] == 0x3D
  {
    if t != [] && t[0] != 0x3D {
      EqualsAt(t[1..]);
      assert forall i :: 1 <= i < |t| ==> t[i] == t[1..][i-1];
    }
  }

  /** A name=text split is unique. */
  lemma {:induction false} SplitsAt(name: seq<Byte>, text: seq<Byte>)
    requires Name(name)
    ensures var t := name + [0x3D] + text;
            FirstEquals(t) == |name| && t[..|name|] == name && t[|name|+1..] == text && t[0] == name[0]
  {
    FirstEqualsIs(name + [0x3D] + text, |name|);
  }

  lemma {:induction false} StrippedAssigns(line: seq<Byte>, name: seq<Byte>, value: bool)
    ensures Assigns(line, name, value) <==> Name(name) && Stripped(line) == name + [0x3D] + Text(value)
  {
    var t := name + [0x3D] + Text(value);
    assert t[|t|-1] == 0x65;
    assert (t + [0x0D])[..|t|] == t;
    if Stripped(line) == t && line != t { assert line == t + [0x0D]; }
  }

  lemma {:induction false} TextChars(value: bool, i: nat)
    requires i < |Text(value)|
    ensures 0x21 <= Text(value)[i] <= 0x7E && Text(value)[i] != 0x3D
  {
  }

  lemma {:induction false} AssignedMeans(find: Finder, line: seq<Byte>, name: seq<Byte>, value: bool)
    requires Assigns(line, name, value)
    ensures MeaningOf(find, line) == if find(name).None? then Bad(UnknownName) else Gives(find(name).value, value)
  {
    StrippedAssigns(line, name, value);
    var t := Stripped(line);
    SplitsAt(name, Text(value));
    forall i | 0 <= i < |t| ensures 0x21 <= t[i] <= 0x7E {
      if i > |name| { TextChars(value, i - |name| - 1); }
    }
    assert 0x3D !in t[|name|+1..] by {
      forall i | 0 <= i < |Text(value)| ensures Text(value)[i] != 0x3D { TextChars(value, i); }
    }
    hide FirstEquals, Stripped;
  }

  lemma {:induction false} SkippedMeans(find: Finder, line: seq<Byte>)
    ensures MeaningOf(find, line) == Skip <==> Ignorable(line)
  {
    hide FirstEquals;
  }

  /** A line that is neither malformed nor ignored is an assignment. */
  lemma {:induction false} MeantAssigns(find: Finder, line: seq<Byte>) returns (name: seq<Byte>, value: bool)
    requires MeaningOf(find, line) != Skip && MeaningOf(find, line) != Bad(Malformed)
    ensures Assigns(line, name, value)
  {
    var t := Stripped(line);
    var e := FirstEquals(t);
    EqualsAt(t);
    hide FirstEquals;
    name, value := t[..e], t[e+1..] == TRUE_TEXT;
    assert t == name + [0x3D] + t[e+1..];
    assert t[e+1..] == Text(value);
    StrippedAssigns(line, name, value);
  }

  lemma {:induction false} OneAssignment(line: seq<Byte>, name: seq<Byte>, value: bool, other: seq<Byte>, second: bool)
    requires Assigns(line, name, value) && Assigns(line, other, second)
    ensures name == other && value == second
  {
    StrippedAssigns(line, name, value);
    StrippedAssigns(line, other, second);
    SplitsAt(name, Text(value));
    SplitsAt(other, Text(second));
    hide FirstEquals, Stripped;
    assert |Text(value)| == |Text(second)|;
  }

  ghost predicate AnAssignment(line: seq<Byte>) { exists name, value :: Assigns(line, name, value) }

  /** The line gives this key this value. */
  ghost predicate AssignsKey(find: Finder, line: seq<Byte>, key: Key, value: bool) {
    exists name :: Assigns(line, name, value) && find(name) == Some(key)
  }

  ghost predicate AssignsUnknown(find: Finder, line: seq<Byte>) {
    exists name, value :: Assigns(line, name, value) && find(name).None?
  }

  /** LINE. A line is skipped exactly when it is empty or a comment, gives a key a value exactly when it is
      name=true or name=false with that key's name, names something unknown exactly when it is one with
      any other name, and is malformed exactly when it is none of these. */
  lemma {:induction false} LineExactly(find: Finder, line: seq<Byte>)
    ensures MeaningOf(find, line) == Skip <==> Ignorable(line)
    ensures forall key: Key, value :: MeaningOf(find, line) == Gives(key, value) <==> AssignsKey(find, line, key, value)
    ensures MeaningOf(find, line) == Bad(UnknownName) <==> AssignsUnknown(find, line)
    ensures MeaningOf(find, line) == Bad(Malformed) <==> !Ignorable(line) && !AnAssignment(line)
    ensures MeaningOf(find, line) != Bad(Duplicate) && MeaningOf(find, line) != Bad(Conflict)
  {
    var m := MeaningOf(find, line);
    SkippedMeans(find, line);
    MeaningKinds(find, line);
    hide MeaningOf, Assigns, Ignorable;
    if m != Skip && m != Bad(Malformed) {
      var name, value := MeantAssigns(find, line);
      AssignedMeans(find, line, name, value);
    }
    forall name, value | Assigns(line, name, value)
      ensures m == if find(name).None? then Bad(UnknownName) else Gives(find(name).value, value)
    {
      AssignedMeans(find, line, name, value);
    }
  }

  lemma {:induction false} MeaningKinds(find: Finder, line: seq<Byte>)
    ensures var m := MeaningOf(find, line);
            m == Skip || m == Bad(Malformed) || m == Bad(UnknownName) || m.Gives?
  {
  }

  // -------------------------------------------------------------------- the file's lines

  predicate NoBreak(line: seq<Byte>) { forall i :: 0 <= i < |line| ==> line[i] != 0x0A }

  /** The lines, each ended by a line feed. */
  function Ended(lines: seq<seq<Byte>>): seq<Byte> {
    if lines == [] then [] else lines[0] + [0x0A] + Ended(lines[1..])
  }

  /** The file is these lines, the last one perhaps without its line feed. */
  ghost predicate Spells(content: seq<Byte>, lines: seq<seq<Byte>>) {
    (forall i :: 0 <= i < |lines| ==> NoBreak(lines[i])) &&
    (content == Ended(lines) ||
     (lines != [] && lines[|lines|-1] != [] && content + [0x0A] == Ended(lines)))
  }

  lemma {:induction false} BreakAt(content: seq<Byte>)
    ensures NoBreak(content[..FirstNewline(content)])
    ensures FirstNewline(content) < |content| ==> content[FirstNewline(content)] == 0x0A
  {
    if content != [] && content[0] != 0x0A {
      BreakAt(content[1..]);
      var e := FirstNewline(content[1..]);
      assert forall i :: 1 <= i < e + 1 ==> content[i] == content[1..][..e][i-1];
    }
  }

  lemma {:induction false} BreakIs(line: seq<Byte>, more: seq<Byte>)
    requires NoBreak(line)
    ensures FirstNewline(line + [0x0A] + more) == |line|
    ensures FirstNewline(line) == |line|
  {
    if line != [] {
      BreakIs(line[1..], more);
      assert (line + [0x0A] + more)[1..] == line[1..] + [0x0A] + more;
    }
  }

  lemma {:induction false} LinesSpell(content: seq<Byte>)
    ensures Spells(content, Lines(content))
  {
    if content != [] {
      var e := FirstNewline(content);
      BreakAt(content);
      hide FirstNewline;
      if e == |content| {
        assert content[..e] == content;
        assert Lines(content) == [content];
        assert [content][1..] == [];
        assert Ended([content]) == content + [0x0A] + [];
      } else {
        var rest := content[e+1..];
        LinesSpell(rest);
        assert Lines(content)[1..] == Lines(rest);
        assert content == content[..e] + [0x0A] + rest;
        SpellsCons(content[..e], rest, Lines(rest));
        assert Lines(content) == [content[..e]] + Lines(rest);
      }
    } else {
      assert Ended([]) == [];
    }
  }

  lemma {:induction false} SpellsCons(line: seq<Byte>, rest: seq<Byte>, lines: seq<seq<Byte>>)
    requires NoBreak(line) && Spells(rest, lines)
    ensures Spells(line + [0x0A] + rest, [line] + lines)
  {
    hide NoBreak;
    var all := [line] + lines;
    assert all[1..] == lines;
    assert forall i :: 1 <= i < |all| ==> all[i] == lines[i-1];
    if rest + [0x0A] == Ended(lines) && lines != [] {
      assert (line + [0x0A] + rest) + [0x0A] == line + [0x0A] + (rest + [0x0A]);
    }
  }

  lemma {:induction false} SpelledLines(content: seq<Byte>, lines: seq<seq<Byte>>)
    requires Spells(content, lines)
    ensures Lines(content) == lines
    decreases |lines|
  {
    if lines == [] {
      assert Ended([]) == [];
    } else {
      var line, more := lines[0], lines[1..];
      assert NoBreak(line);
      if more == [] && content != Ended(lines) {
        assert Ended(more) == [];
        assert content + [0x0A] == line + [0x0A];
        assert content == (content + [0x0A])[..|content|] == line;
        BreakIs(line, []);
        assert line[..|line|] == line;
        hide FirstNewline;
        assert lines == [line];
      } else {
        RestSpells(content, lines);
        var rest := content[|line|+1..];
        BreakIs(line, rest);
        SpelledLines(rest, more);
        hide FirstNewline;
        assert content[..|line|] == line;
        assert lines == [line] + more;
      }
    }
  }

  lemma {:induction false} RestSpells(content: seq<Byte>, lines: seq<seq<Byte>>)
    requires Spells(content, lines) && lines != [] && (lines[1..] == [] ==> content == Ended(lines))
    ensures |lines[0]| < |content| && content == lines[0] + [0x0A] + content[|lines[0]|+1..]
    ensures Spells(content[|lines[0]|+1..], lines[1..])
  {
    hide NoBreak;
    var line, more := lines[0], lines[1..];
    assert Ended(lines) == line + [0x0A] + Ended(more);
    if content == Ended(lines) {
      assert content[|line|+1..] == Ended(more);
    } else {
      EndedLength(more);
      var rest := content[|line|+1..];
      assert content + [0x0A] == line + [0x0A] + Ended(more);
      assert (content + [0x0A])[|line|+1..] == Ended(more);
      assert (content + [0x0A])[|line|+1..] == rest + [0x0A];
      assert content == (content + [0x0A])[..|content|];
    }
  }

  lemma {:induction false} EndedLength(lines: seq<seq<Byte>>)
    ensures |Ended(lines)| >= |lines|
  {
    if lines != [] { EndedLength(lines[1..]); }
  }

  /** LINES. The lines of a file are the one way to read it as texts without line feeds, each ended by one,
      the last perhaps not. */
  lemma {:induction false} LinesExactly(content: seq<Byte>, lines: seq<seq<Byte>>)
    ensures Lines(content) == lines <==> Spells(content, lines)
  {
    LinesSpell(content);
    if Spells(content, lines) { SpelledLines(content, lines); }
    hide Spells, Lines;
  }

  // --------------------------------------------------------------------- values and issues

  /** Line i is the first to give the key, and gives it this value. */
  ghost predicate FirstAssigns(find: Finder, lines: seq<seq<Byte>>, i: nat, key: Key, value: bool) {
    i < |lines| && AssignsKey(find, lines[i], key, value) &&
    forall n, other :: 0 <= n < i ==> !AssignsKey(find, lines[n], key, other)
  }

  lemma {:induction false} GivesExactly(find: Finder, line: seq<Byte>, key: Key)
    ensures GivesKey(find, line, key) <==> AssignsKey(find, line, key, true) || AssignsKey(find, line, key, false)
    ensures forall value :: MeaningOf(find, line) == Gives(key, value) <==> AssignsKey(find, line, key, value)
  {
    LineExactly(find, line);
    hide MeaningOf, AssignsKey;
    var m := MeaningOf(find, line);
    if m.Gives? && m.key == key { assert m == Gives(key, m.value); }
  }

  lemma {:induction false} FirstExactly(find: Finder, lines: seq<seq<Byte>>, i: nat, key: Key, value: bool)
    ensures FirstGives(find, lines, i, key, value) <==> FirstAssigns(find, lines, i, key, value)
  {
    hide AssignsKey, GivesKey, MeaningOf;
    if i < |lines| {
      GivesExactly(find, lines[i], key);
      forall n | 0 <= n < i
        ensures GivesKey(find, lines[n], key) <==>
                AssignsKey(find, lines[n], key, true) || AssignsKey(find, lines[n], key, false)
      {
        GivesExactly(find, lines[n], key);
      }
      forall n, other: bool | 0 <= n < i && AssignsKey(find, lines[n], key, other)
        ensures AssignsKey(find, lines[n], key, true) || AssignsKey(find, lines[n], key, false)
      {
        assert other == true || other == false;
      }
    }
  }

  /** The groups of keys that write one variable. */
  predicate OneVariable(a: Key, b: Key) {
    a != b && exists g :: 0 <= g < 8 && a in GROUPS[g] && b in GROUPS[g]
  }

  const GROUPS: seq<set<nat>> :=
    [{12, 13}, {14, 15}, {24, 25}, {29, 30, 31}, {49, 54}, {56, 57, 58}, {34, 59}, {53, 60}]

  lemma {:induction false} GroupMembers(g: nat, k: Key)
    requires g < 8
    ensures k in GROUPS[g] <==> Group(k) == g + 1
  {
  }

  lemma {:induction false} VariablesExactly(a: Key, b: Key)
    ensures Paired(a, b) <==> OneVariable(a, b)
  {
    forall g | 0 <= g < 8 ensures (a in GROUPS[g] <==> Group(a) == g + 1) && (b in GROUPS[g] <==> Group(b) == g + 1) {
      GroupMembers(g, a);
      GroupMembers(g, b);
    }
    GroupRange(a);
    hide Group;
    if Paired(a, b) { assert a in GROUPS[Group(a) - 1] && b in GROUPS[Group(a) - 1]; }
  }

  lemma {:induction false} GroupRange(k: Key)
    ensures Group(k) <= 8
  {
  }

  /** VALUES. After a file is parsed a key holds a value exactly when the first line that assigns the key
      gives it that value, and the value is not true while some other key of its variable is given true
      by its own first line. */
  lemma {:induction false} ValueExactly(find: Finder, content: seq<Byte>, key: Key, value: bool)
    ensures Resolved(ParseLines(find, Lines(content))).values[key] == Some(value) <==>
            (exists i: nat :: FirstAssigns(find, Lines(content), i, key, value)) &&
            !(value && exists other: Key, i: nat :: OneVariable(key, other) && FirstAssigns(find, Lines(content), i, other, true))
  {
    var lines := Lines(content);
    FinalValue(find, lines, key, value);
    forall i: nat, k: Key, v: bool ensures FirstGives(find, lines, i, k, v) <==> FirstAssigns(find, lines, i, k, v) {
      FirstExactly(find, lines, i, k, v);
    }
    forall other: Key ensures Paired(key, other) <==> OneVariable(key, other) { VariablesExactly(key, other); }
    hide Resolved, ParseLines, FirstGives, FirstAssigns, Paired, OneVariable, Lines;
  }

  /** What line n (counted from one) is reported for, before conflicts are looked for. */
  ghost predicate Faulty(find: Finder, lines: seq<seq<Byte>>, n: nat, issue: LineIssue) {
    1 <= n <= |lines| &&
    match issue
    case Malformed => !Ignorable(lines[n-1]) && !AnAssignment(lines[n-1])
    case UnknownName => AssignsUnknown(find, lines[n-1])
    case Duplicate => Repeats(find, lines, n - 1)
    case Conflict => false
  }

  /** Line i gives a key that an earlier line gave. */
  ghost predicate Repeats(find: Finder, lines: seq<seq<Byte>>, i: nat)
    requires i < |lines|
  {
    exists key: Key, value :: AssignsKey(find, lines[i], key, value) && GivenBefore(find, lines, i, key)
  }

  ghost predicate GivenBefore(find: Finder, lines: seq<seq<Byte>>, n: nat, key: Key) {
    exists i, value :: 0 <= i < n && i < |lines| && AssignsKey(find, lines[i], key, value)
  }

  ghost predicate SomeGives(find: Finder, lines: seq<seq<Byte>>, key: Key) {
    exists i :: 0 <= i < |lines| && GivesKey(find, lines[i], key)
  }

  lemma {:induction false} ValueGiven(find: Finder, lines: seq<seq<Byte>>, key: Key)
    ensures ParseLines(find, lines).values[key].Some? <==> SomeGives(find, lines, key)
  {
    ValuesExplained(find, lines, key);
    hide ParseLines, MeaningOf;
    if ParseLines(find, lines).values[key].Some? {
      var i := ParseLines(find, lines).lines[key] - 1;
      assert GivesKey(find, lines[i], key);
    }
    hide GivesKey;
  }

  lemma {:induction false} SomeAssigns(find: Finder, lines: seq<seq<Byte>>, key: Key)
    ensures SomeGives(find, lines, key) <==> GivenBefore(find, lines, |lines|, key)
  {
    hide AssignsKey, GivesKey;
    if SomeGives(find, lines, key) {
      var i :| 0 <= i < |lines| && GivesKey(find, lines[i], key);
      GivesExactly(find, lines[i], key);
      assert AssignsKey(find, lines[i], key, true) || AssignsKey(find, lines[i], key, false);
    }
    if GivenBefore(find, lines, |lines|, key) {
      var i, value :| 0 <= i < |lines| && AssignsKey(find, lines[i], key, value);
      GivesExactly(find, lines[i], key);
      assert value == true || value == false;
      assert GivesKey(find, lines[i], key);
    }
  }

  lemma {:induction false} GivenExactly(find: Finder, lines: seq<seq<Byte>>, key: Key)
    ensures ParseLines(find, lines).values[key].Some? <==> GivenBefore(find, lines, |lines|, key)
  {
    hide *;
    ValueGiven(find, lines, key);
    SomeAssigns(find, lines, key);
  }

  lemma {:induction false} LastFault(find: Finder, lines: seq<seq<Byte>>, issue: LineIssue)
    requires lines != []
    ensures var front, m := lines[..|lines|-1], MeaningOf(find, lines[|lines|-1]);
            Faulty(find, lines, |lines|, issue) <==>
            m == Bad(issue) || (issue == Duplicate && m.Gives? && ParseLines(find, front).values[m.key].Some?)
  {
    var front, last := lines[..|lines|-1], lines[|lines|-1];
    var m := MeaningOf(find, last);
    LineExactly(find, last);
    if m.Gives? {
      GivenExactly(find, front, m.key);
      GivenFront(find, lines, m.key);
      assert m == Gives(m.key, m.value);
    }
    hide MeaningOf, ParseLines, AssignsKey, AssignsUnknown, AnAssignment, Ignorable, GivenBefore;
    if issue == Duplicate && Faulty(find, lines, |lines|, issue) {
      var n := |lines| - 1;
      var key: Key, value :| AssignsKey(find, last, key, value) && GivenBefore(find, lines, n, key);
      assert m == Gives(key, value);
    }
  }

  lemma {:induction false} GivenFront(find: Finder, lines: seq<seq<Byte>>, key: Key)
    requires lines != []
    ensures GivenBefore(find, lines[..|lines|-1], |lines| - 1, key) <==> GivenBefore(find, lines, |lines| - 1, key)
  {
    hide AssignsKey;
    var front := lines[..|lines|-1];
    assert forall i :: 0 <= i < |front| ==> front[i] == lines[i];
  }

  lemma {:induction false} EarlierFault(find: Finder, lines: seq<seq<Byte>>, n: nat, issue: LineIssue)
    requires lines != [] && n < |lines|
    ensures Faulty(find, lines[..|lines|-1], n, issue) <==> Faulty(find, lines, n, issue)
  {
    var front := lines[..|lines|-1];
    if 1 <= n {
      var k := n - 1;
      assert front[k] == lines[k];
      forall key: Key ensures GivenBefore(find, front, k, key) <==> GivenBefore(find, lines, k, key) {
        assert forall i :: 0 <= i < k ==> front[i] == lines[i];
        hide AssignsKey;
      }
    }
    hide AssignsKey, AssignsUnknown, AnAssignment, Ignorable, GivenBefore;
  }

  /** ISSUES. The issues lines raise are listed in line order, at most one a line, each exactly for its own
      fault: malformed, an unknown name, or a key some earlier line had given. */
  lemma {:induction false} IssuesExactly(find: Finder, lines: seq<seq<Byte>>)
    ensures forall x :: x in AllIssues(find, lines) <==> Faulty(find, lines, x.line, x.issue)
    ensures forall i, k :: 0 <= i < k < |AllIssues(find, lines)| ==>
              AllIssues(find, lines)[i].line < AllIssues(find, lines)[k].line
  {
    if lines != [] {
      var front, n := lines[..|lines|-1], |lines|;
      IssuesExactly(find, front);
      var all, before := AllIssues(find, lines), AllIssues(find, front);
      var m := MeaningOf(find, lines[n-1]);
      IssuesSnoc(find, lines);
      forall x | x in before ensures x.line < n { assert Faulty(find, front, x.line, x.issue); }
      forall x ensures x in all <==> Faulty(find, lines, x.line, x.issue) {
        if x.line < n { EarlierFault(find, lines, x.line, x.issue); }
        if x.line == n { LastFault(find, lines, x.issue); }
        hide AllIssues, MeaningOf, ParseLines, AssignsKey, AssignsUnknown, AnAssignment, Ignorable, GivenBefore;
      }
      hide AllIssues, Faulty, MeaningOf, ParseLines;
      forall i, k | 0 <= i < k < |all| ensures all[i].line < all[k].line {
        assert i < |before| && before[i] in before;
      }
    }
  }

  lemma {:induction false} IssuesSnoc(find: Finder, lines: seq<seq<Byte>>)
    requires lines != []
    ensures var front, m := lines[..|lines|-1], MeaningOf(find, lines[|lines|-1]);
            AllIssues(find, lines) == AllIssues(find, front) +
              if m.Bad? then [Issue(|lines|, m.issue)]
              else if m.Gives? && ParseLines(find, front).values[m.key].Some? then [Issue(|lines|, Duplicate)]
              else []
  {
    hide MeaningOf, ParseLines;
  }
}
