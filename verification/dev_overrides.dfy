/** The developer override file: its strict line parser and its conflict resolver. Which names
    are keys is a parameter; which keys conflict is the table of the program. */
module DevOverrides {
  import opened Options

  type Byte = n: nat | n < 256
  type Key = n: nat | n < 62
  type Finder = seq<Byte> -> Option<Key>

  const KEYS: nat := 62
  const MAX_ISSUES: nat := 16
  const MAX_BYTES: nat := 2048
  const TRUE_TEXT: seq<Byte> := [0x74, 0x72, 0x75, 0x65]
  const FALSE_TEXT: seq<Byte> := [0x66, 0x61, 0x6C, 0x73, 0x65]

  /** Keys that write different values to one variable; a group of three is its three pairs. */
  const PAIRS: seq<(nat, nat)> :=
    [(12, 13), (14, 15), (24, 25), (29, 30), (29, 31), (30, 31), (49, 54), (56, 57), (56, 58), (57, 58), (34, 59), (53, 60)]

  datatype LineIssue = Malformed | UnknownName | Duplicate | Conflict
  datatype Issue = Issue(line: nat, issue: LineIssue)

  /** Values and their 1-based lines by key; at most sixteen issues are kept, all are counted. */
  datatype Parsed = Parsed(values: seq<Option<bool>>, lines: seq<nat>, issues: seq<Issue>, ignored: nat)

  predicate Sized(p: Parsed) { |p.values| == |p.lines| == KEYS && |p.issues| <= MAX_ISSUES }

  function Empty(): Parsed { Parsed(seq(KEYS, _ => None), seq(KEYS, _ => 0), [], 0) }

  function Noted(p: Parsed, line: nat, issue: LineIssue): Parsed {
    p.(issues := if |p.issues| < MAX_ISSUES then p.issues + [Issue(line, issue)] else p.issues, ignored := p.ignored + 1)
  }

  // ---------------------------------------------------------------------------- one line

  datatype Meaning = Skip | Bad(issue: LineIssue) | Gives(key: Key, value: bool)

  function Stripped(line: seq<Byte>): seq<Byte> {
    if line != [] && line[|line|-1] == 0x0D then line[..|line|-1] else line
  }

  function FirstEquals(t: seq<Byte>): nat {
    if t == [] || t[0] == 0x3D then 0 else 1 + FirstEquals(t[1..])
  }

  /** Exactly name=true or name=false in printable bytes, with one separator after a name. */
  function MeaningOf(find: Finder, line: seq<Byte>): Meaning {
    var t := Stripped(line);
    if t == [] || t[0] == 0x23 then Skip
    else
      var e := FirstEquals(t);
      if (exists i :: 0 <= i < |t| && !(0x21 <= t[i] <= 0x7E)) || e >= |t| || e == 0 || 0x3D in t[e+1..] then Bad(Malformed)
      else if t[e+1..] != TRUE_TEXT && t[e+1..] != FALSE_TEXT then Bad(Malformed)
      else
        var key := find(t[..e]);
        if key.None? then Bad(UnknownName) else Gives(key.value, t[e+1..] == TRUE_TEXT)
  }

  function Taken(p: Parsed, number: nat, m: Meaning): Parsed
    requires Sized(p)
  {
    match m
    case Skip => p
    case Bad(issue) => Noted(p, number, issue)
    case Gives(key, value) =>
      if p.values[key].Some? then Noted(p, number, Duplicate)
      else p.(values := p.values[key := Some(value)], lines := p.lines[key := number])
  }

  function ParseLines(find: Finder, lines: seq<seq<Byte>>): (p: Parsed)
    ensures Sized(p)
  {
    if lines == [] then Empty()
    else Taken(ParseLines(find, lines[..|lines|-1]), |lines|, MeaningOf(find, lines[|lines|-1]))
  }

  // ----------------------------------------------------------------------- conflicts

  predicate Paired(a: Key, b: Key) { a != b && Group(a) == Group(b) != 0 }

  /** The groups the pair table lists, pair by pair. */
  function Group(k: Key): nat {
    if k == 12 || k == 13 then 1
    else if k == 14 || k == 15 then 2
    else if k == 24 || k == 25 then 3
    else if k == 29 || k == 30 || k == 31 then 4
    else if k == 49 || k == 54 then 5
    else if k == 56 || k == 57 || k == 58 then 6
    else if k == 34 || k == 59 then 7
    else if k == 53 || k == 60 then 8
    else 0
  }

  predicate Listed(a: nat, b: nat, pairs: seq<(nat, nat)>) {
    exists i :: 0 <= i < |pairs| && (pairs[i] == (a, b) || pairs[i] == (b, a))
  }

  lemma {:induction false} PairsInGroups(i: nat)
    requires i < |PAIRS|
    ensures PAIRS[i].0 < PAIRS[i].1 < KEYS && Paired(PAIRS[i].0, PAIRS[i].1)
  {
  }

  lemma {:induction false} GroupsInPairs(a: Key, b: Key)
    requires Group(a) == Group(b) != 0 && a < b
    ensures Listed(a, b, PAIRS)
  {
    if a == 12 { assert PAIRS[0] == (a, b); }
    else if a == 14 { assert PAIRS[1] == (a, b); }
    else if a == 24 { assert PAIRS[2] == (a, b); }
    else if a == 29 { assert PAIRS[3] == (a, b) || PAIRS[4] == (a, b); }
    else if a == 30 { assert PAIRS[5] == (a, b); }
    else if a == 49 { assert PAIRS[6] == (a, b); }
    else if a == 56 { assert PAIRS[7] == (a, b) || PAIRS[8] == (a, b); }
    else if a == 57 { assert PAIRS[9] == (a, b); }
    else if a == 34 { assert PAIRS[10] == (a, b); }
    else { assert PAIRS[11] == (a, b); }
  }

  /** The pair table is complete: it lists exactly the pairs of keys in one group. */
  lemma {:induction false} PairsAreGroups(a: Key, b: Key)
    ensures Paired(a, b) <==> Listed(a, b, PAIRS)
  {
    if Paired(a, b) {
      if a < b { GroupsInPairs(a, b); } else { GroupsInPairs(b, a); }
    }
    hide Group;
    forall i | 0 <= i < |PAIRS| ensures Paired(PAIRS[i].0, PAIRS[i].1) && Paired(PAIRS[i].1, PAIRS[i].0) {
      PairsInGroups(i);
    }
  }

  /** Both keys of a pair true. */
  predicate Contradicts(p: Parsed, a: Key, b: Key)
    requires Sized(p)
  {
    Paired(a, b) && p.values[a] == Some(true) && p.values[b] == Some(true)
  }

  ghost predicate Dropped(p: Parsed, k: Key)
    requires Sized(p)
  {
    exists o: Key :: Contradicts(p, k, o)
  }

  /** A dropped key with a true partner on an earlier line. */
  ghost predicate Logged(p: Parsed, k: Key)
    requires Sized(p)
  {
    exists o: Key :: Contradicts(p, k, o) && p.lines[o] < p.lines[k]
  }

  ghost predicate LoggedAt(p: Parsed, line: nat)
    requires Sized(p)
  {
    exists k: Key :: Logged(p, k) && p.lines[k] == line
  }

  /** The logged lines up to a number, in increasing order. */
  ghost function Ascending(p: Parsed, upto: nat): seq<nat>
    requires Sized(p)
  {
    if upto == 0 then []
    else Ascending(p, upto - 1) + if LoggedAt(p, upto) then [upto] else []
  }

  function NotedAll(p: Parsed, conflicts: seq<nat>): Parsed {
    if conflicts == [] then p
    else Noted(NotedAll(p, conflicts[..|conflicts|-1]), conflicts[|conflicts|-1], Conflict)
  }

  ghost function Kept(p: Parsed, k: Key): Option<bool>
    requires Sized(p)
  {
    if Dropped(p, k) then None else p.values[k]
  }

  const LAST_LINE: nat := 0xFFFF

  ghost function Resolved(p: Parsed): Parsed
    requires Sized(p)
  {
    NotedAll(p, Ascending(p, LAST_LINE)).(values := seq(KEYS, k requires 0 <= k < KEYS => Kept(p, k)))
  }

  // ------------------------------------------------------------- what the values come from

  /** Line i is the first that gives this key. */
  ghost predicate FirstGives(find: Finder, lines: seq<seq<Byte>>, i: nat, key: Key, value: bool) {
    i < |lines| && MeaningOf(find, lines[i]) == Gives(key, value) &&
    forall n :: 0 <= n < i ==> !GivesKey(find, lines[n], key)
  }

  predicate GivesKey(find: Finder, line: seq<Byte>, key: Key) {
    var m := MeaningOf(find, line); m.Gives? && m.key == key
  }

  /** What the parsed table says of one key. */
  ghost predicate Explained(find: Finder, lines: seq<seq<Byte>>, p: Parsed, key: Key)
    requires Sized(p)
  {
    if p.values[key].Some?
    then 1 <= p.lines[key] && FirstGives(find, lines, p.lines[key] - 1, key, p.values[key].value)
    else forall n :: 0 <= n < |lines| ==> !GivesKey(find, lines[n], key)
  }

  lemma {:induction false} ExplainedNext(find: Finder, lines: seq<seq<Byte>>, line: seq<Byte>, p: Parsed, key: Key)
    requires Sized(p) && Explained(find, lines, p, key)
    ensures Explained(find, lines + [line], Taken(p, |lines| + 1, MeaningOf(find, line)), key)
  {
    hide MeaningOf;
    var all := lines + [line];
    assert all[|lines|] == line;
    assert forall n :: 0 <= n < |lines| ==> all[n] == lines[n];
  }

  /** FIRST LINE WINS. A key has a value exactly when some line gives one, and it is the first such
      line's, with that line's number. */
  lemma {:induction false} ValuesExplained(find: Finder, lines: seq<seq<Byte>>, key: Key)
    ensures Explained(find, lines, ParseLines(find, lines), key)
  {
    if lines == [] {
    } else {
      var front, last := lines[..|lines|-1], lines[|lines|-1];
      ValuesExplained(find, front, key);
      ExplainedNext(find, front, last, ParseLines(find, front), key);
      assert lines == front + [last];
    }
    hide MeaningOf, Explained;
  }

  /** Distinct keys come from distinct lines. */
  lemma {:induction false} LinesDistinct(find: Finder, lines: seq<seq<Byte>>, a: Key, b: Key)
    ensures var p := ParseLines(find, lines);
            p.values[a].Some? && p.values[b].Some? && a != b ==> p.lines[a] != p.lines[b]
    ensures ParseLines(find, lines).values[a].Some? ==> 1 <= ParseLines(find, lines).lines[a] <= |lines|
  {
    ValuesExplained(find, lines, a);
    ValuesExplained(find, lines, b);
    hide ParseLines, MeaningOf;
  }

  // ----------------------------------------------------------------- issues and their count

  /** Every issue the lines raise, unbounded. */
  function AllIssues(find: Finder, lines: seq<seq<Byte>>): seq<Issue> {
    if lines == [] then []
    else
      var front, m := lines[..|lines|-1], MeaningOf(find, lines[|lines|-1]);
      AllIssues(find, front) +
      (match m
       case Skip => []
       case Bad(issue) => [Issue(|lines|, issue)]
       case Gives(key, _) => if ParseLines(find, front).values[key].Some? then [Issue(|lines|, Duplicate)] else [])
  }

  function FirstSixteen(issues: seq<Issue>): seq<Issue> {
    if |issues| <= MAX_ISSUES then issues else issues[..MAX_ISSUES]
  }

  lemma {:induction false} SixteenSnoc(issues: seq<Issue>, x: Issue)
    ensures FirstSixteen(issues + [x]) ==
            if |issues| < MAX_ISSUES then FirstSixteen(issues) + [x] else FirstSixteen(issues)
  {
    if |issues| >= MAX_ISSUES { assert (issues + [x])[..MAX_ISSUES] == issues[..MAX_ISSUES]; }
  }

  lemma {:induction false} IssuesCounted(find: Finder, lines: seq<seq<Byte>>)
    ensures ParseLines(find, lines).ignored == |AllIssues(find, lines)|
    ensures ParseLines(find, lines).issues == FirstSixteen(AllIssues(find, lines))
  {
    if lines == [] {
    } else {
      var front := lines[..|lines|-1];
      IssuesCounted(find, front);
      hide MeaningOf;
      SixteenSnoc(AllIssues(find, front), Issue(|lines|, Duplicate));
      var m := MeaningOf(find, lines[|lines|-1]);
      if m.Bad? { SixteenSnoc(AllIssues(find, front), Issue(|lines|, m.issue)); }
    }
  }

  function ConflictIssues(lines: seq<nat>): seq<Issue> {
    if lines == [] then [] else ConflictIssues(lines[..|lines|-1]) + [Issue(lines[|lines|-1], Conflict)]
  }

  lemma {:induction false} ConflictsCounted(p: Parsed, all: seq<Issue>, conflicts: seq<nat>)
    requires p.issues == FirstSixteen(all) && p.ignored == |all|
    ensures NotedAll(p, conflicts).issues == FirstSixteen(all + ConflictIssues(conflicts))
    ensures NotedAll(p, conflicts).ignored == |all| + |conflicts| == |all + ConflictIssues(conflicts)|
    ensures NotedAll(p, conflicts).lines == p.lines && NotedAll(p, conflicts).values == p.values
  {
    if conflicts == [] {
      assert all + [] == all;
    } else {
      var front, last := conflicts[..|conflicts|-1], conflicts[|conflicts|-1];
      ConflictsCounted(p, all, front);
      SixteenSnoc(all + ConflictIssues(front), Issue(last, Conflict));
      assert all + ConflictIssues(conflicts) == all + ConflictIssues(front) + [Issue(last, Conflict)];
      hide FirstSixteen;
    }
  }

  lemma {:induction false} AscendingLists(p: Parsed, upto: nat)
    requires Sized(p)
    ensures forall n :: n in Ascending(p, upto) <==> 1 <= n <= upto && LoggedAt(p, n)
    ensures forall i, k :: 0 <= i < k < |Ascending(p, upto)| ==> Ascending(p, upto)[i] < Ascending(p, upto)[k]
  {
    if upto > 0 {
      AscendingLists(p, upto - 1);
      hide LoggedAt;
      var front := Ascending(p, upto - 1);
      assert forall i :: 0 <= i < |front| ==> front[i] in front;
    }
  }

  /** ISSUES. The stored issues are the first sixteen of everything raised, conflicts last and in
      strictly increasing line order, and the count covers all of them. */
  lemma {:induction false} IssuesAfterResolving(find: Finder, lines: seq<seq<Byte>>)
    requires |lines| <= LAST_LINE
    ensures var p := ParseLines(find, lines);
            var conflicts := Ascending(p, LAST_LINE);
            var raised := AllIssues(find, lines) + ConflictIssues(conflicts);
            Resolved(p).issues == FirstSixteen(raised) && Resolved(p).ignored == |raised| &&
            (forall i, k :: 0 <= i < k < |conflicts| ==> conflicts[i] < conflicts[k]) &&
            (forall k: Key :: Logged(p, k) ==> p.lines[k] in conflicts) &&
            (forall n :: n in conflicts ==> LoggedAt(p, n))
  {
    var p := ParseLines(find, lines);
    IssuesCounted(find, lines);
    ConflictsCounted(p, AllIssues(find, lines), Ascending(p, LAST_LINE));
    AscendingLists(p, LAST_LINE);
    forall k: Key | Logged(p, k) ensures p.lines[k] in Ascending(p, LAST_LINE) {
      LinesDistinct(find, lines, k, k);
      assert LoggedAt(p, p.lines[k]);
    }
    hide ParseLines, Ascending, AllIssues, NotedAll, LoggedAt, FirstSixteen, ConflictIssues, Logged;
  }

  predicate SameGroup(a: Key, b: Key) { a == b || Paired(a, b) }

  /** ONE PER GROUP. Of the dropped keys of a group, all but the one on the earliest line are logged. */
  lemma {:induction false} AllButEarliest(find: Finder, lines: seq<seq<Byte>>, k: Key)
    requires Dropped(ParseLines(find, lines), k)
    ensures var p := ParseLines(find, lines);
            Logged(p, k) <==>
            !(forall o: Key :: Dropped(p, o) && SameGroup(k, o) ==> p.lines[k] <= p.lines[o])
  {
    var p := ParseLines(find, lines);
    forall o: Key | Dropped(p, o) && SameGroup(k, o) && p.lines[o] < p.lines[k] ensures Logged(p, k) {
      assert Contradicts(p, k, o);
    }
    if Logged(p, k) {
      var o: Key :| Contradicts(p, k, o) && p.lines[o] < p.lines[k];
      assert Contradicts(p, o, k);
    }
    hide ParseLines;
  }

  lemma {:induction false} DroppedExactly(p: Parsed, k: Key)
    requires Sized(p)
    ensures Dropped(p, k) <==> p.values[k] == Some(true) && exists o: Key :: Paired(k, o) && p.values[o] == Some(true)
  {
    hide Paired;
    forall o: Key | Paired(k, o) && p.values[o] == Some(true) && p.values[k] == Some(true) ensures Dropped(p, k) {
      assert Contradicts(p, k, o);
    }
  }

  /** VALUES. After resolving, a key holds a value exactly when its first well-formed line gives it
      and it is not true together with a true partner. */
  lemma {:induction false} FinalValue(find: Finder, lines: seq<seq<Byte>>, k: Key, value: bool)
    ensures var p := ParseLines(find, lines);
            Resolved(p).values[k] == Some(value) <==>
            (exists i: nat :: FirstGives(find, lines, i, k, value)) &&
            !(value && exists o: Key, i :: Paired(k, o) && FirstGives(find, lines, i, o, true))
  {
    var p := ParseLines(find, lines);
    forall o: Key ensures p.values[o] == Some(true) <==> exists i: nat :: FirstGives(find, lines, i, o, true) {
      TrueWhenFirst(find, lines, o, true);
    }
    TrueWhenFirst(find, lines, k, value);
    DroppedExactly(p, k);
    hide ParseLines, FirstGives, NotedAll, Ascending, Paired, Explained, Dropped;
  }

  lemma {:induction false} FirstUnique(find: Finder, lines: seq<seq<Byte>>, i: nat, n: nat, k: Key, a: bool, b: bool)
    requires FirstGives(find, lines, i, k, a) && FirstGives(find, lines, n, k, b)
    ensures i == n && a == b
  {
    hide MeaningOf;
    assert GivesKey(find, lines[i], k) && GivesKey(find, lines[n], k);
  }

  lemma {:induction false} TrueWhenFirst(find: Finder, lines: seq<seq<Byte>>, k: Key, value: bool)
    ensures ParseLines(find, lines).values[k] == Some(value) <==> exists i: nat :: FirstGives(find, lines, i, k, value)
  {
    var p := ParseLines(find, lines);
    ValuesExplained(find, lines, k);
    hide ParseLines, MeaningOf;
    forall i: nat | FirstGives(find, lines, i, k, value) ensures p.values[k] == Some(value) {
      assert GivesKey(find, lines[i], k);
      FirstUnique(find, lines, i, p.lines[k] - 1, k, value, p.values[k].value);
    }
  }

  /** Every key is given by at most one line. */
  ghost predicate DistinctNames(find: Finder, lines: seq<seq<Byte>>) {
    forall i, k, key: Key :: 0 <= i < k < |lines| && GivesKey(find, lines[i], key) ==> !GivesKey(find, lines[k], key)
  }

  lemma {:induction false} ValuesByMembership(find: Finder, lines: seq<seq<Byte>>, k: Key, value: bool)
    requires DistinctNames(find, lines)
    ensures ParseLines(find, lines).values[k] == Some(value) <==>
            exists line :: line in lines && MeaningOf(find, line) == Gives(k, value)
  {
    TrueWhenFirst(find, lines, k, value);
    hide ParseLines, MeaningOf;
    forall line | line in lines && MeaningOf(find, line) == Gives(k, value)
      ensures exists i: nat :: FirstGives(find, lines, i, k, value)
    {
      var i :| 0 <= i < |lines| && lines[i] == line;
      assert GivesKey(find, lines[i], k);
      assert FirstGives(find, lines, i, k, value);
    }
    forall i: nat | FirstGives(find, lines, i, k, value)
      ensures exists line :: line in lines && MeaningOf(find, line) == Gives(k, value)
    {
      assert lines[i] in lines;
    }
  }

  /** ORDER DOES NOT MATTER. Permuting lines that name distinct keys changes no resolved value. */
  lemma {:induction false} PermutedValues(find: Finder, a: seq<seq<Byte>>, b: seq<seq<Byte>>)
    requires DistinctNames(find, a) && DistinctNames(find, b) && multiset(a) == multiset(b)
    ensures Resolved(ParseLines(find, a)).values == Resolved(ParseLines(find, b)).values
  {
    var p, q := ParseLines(find, a), ParseLines(find, b);
    forall line ensures line in a <==> line in b {
      assert line in a <==> line in multiset(a);
      assert line in b <==> line in multiset(b);
    }
    hide ParseLines, Resolved, MeaningOf;
    forall k: Key ensures p.values[k] == q.values[k] {
      forall value ensures p.values[k] == Some(value) <==> q.values[k] == Some(value) {
        ValuesByMembership(find, a, k, value);
        ValuesByMembership(find, b, k, value);
      }
      if p.values[k].Some? {
        assert q.values[k] == Some(p.values[k].value);
      } else if q.values[k].Some? {
        assert p.values[k] == Some(q.values[k].value);
      }
    }
    SameValuesResolve(p, q);
  }

  lemma {:induction false} SameValuesResolve(p: Parsed, q: Parsed)
    requires Sized(p) && Sized(q) && forall k: Key :: p.values[k] == q.values[k]
    ensures Resolved(p).values == Resolved(q).values
  {
    forall k: Key ensures Kept(p, k) == Kept(q, k) {
      SameValuesDrop(p, q, k);
      SameValuesDrop(q, p, k);
    }
    hide Kept, NotedAll, Ascending;
  }

  lemma {:induction false} SameValuesDrop(p: Parsed, q: Parsed, k: Key)
    requires Sized(p) && Sized(q) && forall k: Key :: p.values[k] == q.values[k]
    ensures Dropped(p, k) ==> Dropped(q, k)
  {
    hide Paired;
    if Dropped(p, k) {
      var o: Key :| Contradicts(p, k, o);
      assert Contradicts(q, k, o);
    }
  }

  // ----------------------------------------------------------------- the file as parsed

  function FirstNewline(content: seq<Byte>): (e: nat)
    ensures e <= |content|
  {
    if content == [] || content[0] == 0x0A then 0 else 1 + FirstNewline(content[1..])
  }

  /** The lines of a file; a final newline starts no further line. */
  function Lines(content: seq<Byte>): seq<seq<Byte>> {
    if content == [] then []
    else
      var e := FirstNewline(content);
      if e == |content| then [content] else [content[..e]] + Lines(content[e+1..])
  }

  lemma {:induction false} LinesBounded(content: seq<Byte>)
    ensures |Lines(content)| <= |content|
  {
    if content != [] && FirstNewline(content) < |content| { LinesBounded(content[FirstNewline(content)+1..]); }
  }

  lemma {:induction false} FirstEqualsIs(t: seq<Byte>, e: nat)
    requires e <= |t| && (forall i :: 0 <= i < e ==> t[i] != 0x3D) && (e < |t| ==> t[e] == 0x3D)
    ensures FirstEquals(t) == e
  {
    if e > 0 { FirstEqualsIs(t[1..], e - 1); }
  }

  /** One line's scan. */
  method ReadLine(find: Finder, line: seq<Byte>) returns (m: Meaning)
    ensures m == MeaningOf(find, line)
  {
    var t := Stripped(line);
    if t == [] || t[0] == 0x23 { return Skip; }
    var equals: nat := |t|;
    for i := 0 to |t|
      invariant forall j :: 0 <= j < i ==> 0x21 <= t[j] <= 0x7E
      invariant equals == |t| || equals < i
      invariant forall j :: 0 <= j < i ==> (t[j] == 0x3D <==> j == equals)
    {
      if t[i] < 0x21 || t[i] > 0x7E { return Bad(Malformed); }
      if t[i] == 0x3D {
        if equals != |t| {
          FirstEqualsIs(t, equals);
          assert t[equals+1..][i - equals - 1] == 0x3D;
          return Bad(Malformed);
        }
        equals := i;
      }
    }
    FirstEqualsIs(t, equals);
    if equals == |t| || equals == 0 { return Bad(Malformed); }
    assert 0x3D !in t[equals+1..];
    var name, text := t[..equals], t[equals+1..];
    if text != TRUE_TEXT && text != FALSE_TEXT { return Bad(Malformed); }
    var key := find(name);
    if key.None? { return Bad(UnknownName); }
    m := Gives(key.value, text == TRUE_TEXT);
  }

  lemma {:induction false} ContradictsPair(p: Parsed, a: Key, b: Key)
    requires Sized(p)
    ensures Contradicts(p, a, b) <==> Listed(a, b, PAIRS) && p.values[a] == Some(true) && p.values[b] == Some(true)
  {
    PairsAreGroups(a, b);
    hide Paired, Listed;
  }

  /** The pairs seen so far that contradict, seen from one key. */
  ghost predicate DroppedBy(p: Parsed, n: nat, k: Key)
    requires Sized(p) && n <= |PAIRS|
  {
    exists o: Key :: Listed(k, o, PAIRS[..n]) && p.values[k] == Some(true) && p.values[o] == Some(true)
  }

  ghost predicate LoggedBy(p: Parsed, n: nat, k: Key)
    requires Sized(p) && n <= |PAIRS|
  {
    exists o: Key :: Listed(k, o, PAIRS[..n]) && p.values[k] == Some(true) && p.values[o] == Some(true) && p.lines[o] < p.lines[k]
  }

  lemma {:induction false} AllPairsSeen(p: Parsed, k: Key)
    requires Sized(p)
    ensures DroppedBy(p, |PAIRS|, k) <==> Dropped(p, k)
    ensures LoggedBy(p, |PAIRS|, k) <==> Logged(p, k)
  {
    assert PAIRS[..|PAIRS|] == PAIRS;
    forall o: Key ensures Contradicts(p, k, o) <==>
      Listed(k, o, PAIRS) && p.values[k] == Some(true) && p.values[o] == Some(true)
    {
      ContradictsPair(p, k, o);
    }
    hide Contradicts, Listed;
  }

  lemma {:induction false} ListedNext(n: nat, a: nat, b: nat)
    requires n < |PAIRS|
    ensures Listed(a, b, PAIRS[..n+1]) <==> Listed(a, b, PAIRS[..n]) || PAIRS[n] == (a, b) || PAIRS[n] == (b, a)
    ensures !Listed(a, b, PAIRS[..0])
  {
    var before, after := PAIRS[..n], PAIRS[..n+1];
    assert after == before + [PAIRS[n]];
    if Listed(a, b, before) {
      var i :| 0 <= i < |before| && (before[i] == (a, b) || before[i] == (b, a));
      assert after[i] == before[i];
    }
    assert after[n] == PAIRS[n];
  }

  lemma {:induction false} NextPair(p: Parsed, n: nat, k: Key)
    requires Sized(p) && n < |PAIRS| && PAIRS[n].0 < PAIRS[n].1 < KEYS
    ensures !DroppedBy(p, 0, k) && !LoggedBy(p, 0, k)
    ensures var a, b := PAIRS[n].0, PAIRS[n].1;
            var both := p.values[a] == Some(true) && p.values[b] == Some(true);
            (DroppedBy(p, n + 1, k) <==> DroppedBy(p, n, k) || (both && (k == a || k == b))) &&
            (LoggedBy(p, n + 1, k) <==>
              LoggedBy(p, n, k) ||
              (both && ((k == a && p.lines[b] < p.lines[a]) || (k == b && p.lines[a] < p.lines[b]))))
  {
    var a: Key, b: Key := PAIRS[n].0, PAIRS[n].1;
    forall o: Key ensures !Listed(k, o, PAIRS[..0]) &&
      (Listed(k, o, PAIRS[..n+1]) <==> Listed(k, o, PAIRS[..n]) || (a, b) == (k, o) || (a, b) == (o, k))
    {
      ListedNext(n, k, o);
    }
    hide Listed;
    var both := p.values[a] == Some(true) && p.values[b] == Some(true);
    if both && k == a { assert Listed(k, b, PAIRS[..n+1]); }
    if both && k == b { assert Listed(k, a, PAIRS[..n+1]); }
  }

  /** Which keys the first n pairs have marked. */
  ghost predicate Marked(p: Parsed, n: nat, dropped: seq<bool>, logged: seq<bool>)
    requires Sized(p) && n <= |PAIRS|
  {
    |dropped| == |logged| == KEYS &&
    forall k: Key :: (dropped[k] <==> DroppedBy(p, n, k)) && (logged[k] <==> LoggedBy(p, n, k))
  }

  lemma {:induction false} NothingMarked(p: Parsed, dropped: seq<bool>, logged: seq<bool>)
    requires Sized(p) && |dropped| == |logged| == KEYS && forall k: Key :: !dropped[k] && !logged[k]
    ensures Marked(p, 0, dropped, logged)
  {
    PairsInGroups(0);
    hide DroppedBy, LoggedBy;
    forall k: Key ensures !DroppedBy(p, 0, k) && !LoggedBy(p, 0, k) { NextPair(p, 0, k); }
  }

  lemma {:induction false} MarkNext(p: Parsed, n: nat, dropped: seq<bool>, logged: seq<bool>)
    requires Sized(p) && OwnLines(p) && n < |PAIRS| && Marked(p, n, dropped, logged)
    requires PAIRS[n].0 < PAIRS[n].1 < KEYS
    ensures var a: Key, b: Key := PAIRS[n].0, PAIRS[n].1;
            if p.values[a] == Some(true) && p.values[b] == Some(true)
            then Marked(p, n + 1, dropped[a := true][b := true], logged[if p.lines[a] > p.lines[b] then a else b := true])
            else Marked(p, n + 1, dropped, logged)
  {
    hide DroppedBy, LoggedBy;
    var a: Key, b: Key := PAIRS[n].0, PAIRS[n].1;
    var both := p.values[a] == Some(true) && p.values[b] == Some(true);
    assert both ==> p.lines[a] != p.lines[b];
    var later := if p.lines[a] > p.lines[b] then a else b;
    var dropped2 := if both then dropped[a := true][b := true] else dropped;
    var logged2 := if both then logged[later := true] else logged;
    forall k: Key
      ensures (dropped2[k] <==> DroppedBy(p, n + 1, k)) && (logged2[k] <==> LoggedBy(p, n + 1, k))
    {
      NextPair(p, n, k);
      assert dropped2[k] <==> dropped[k] || (both && (k == a || k == b));
      assert logged2[k] <==> logged[k] || (both && k == later);
    }
    assert Marked(p, n + 1, dropped2, logged2);
  }

  lemma {:induction false} AllMarked(p: Parsed, dropped: seq<bool>, logged: seq<bool>)
    requires Sized(p) && Marked(p, |PAIRS|, dropped, logged)
    ensures forall k: Key :: (dropped[k] <==> Dropped(p, k)) && (logged[k] <==> Logged(p, k))
  {
    hide DroppedBy, LoggedBy, Dropped, Logged;
    forall k: Key ensures (dropped[k] <==> Dropped(p, k)) && (logged[k] <==> Logged(p, k)) { AllPairsSeen(p, k); }
  }

  /** Given keys have their own lines, numbered from one. */
  ghost predicate OwnLines(p: Parsed)
    requires Sized(p)
  {
    && (forall k: Key :: p.values[k].Some? ==> 1 <= p.lines[k] <= LAST_LINE)
    && (forall a: Key, b: Key :: p.values[a].Some? && p.values[b].Some? && a != b ==> p.lines[a] != p.lines[b])
  }

  /** The next logged line after `previous`, or zero. */
  ghost predicate NextLogged(p: Parsed, previous: nat, next: nat)
    requires Sized(p)
  {
    if next == 0 then forall n :: n > previous ==> !LoggedAt(p, n)
    else next > previous && LoggedAt(p, next) && forall n :: previous < n < next ==> !LoggedAt(p, n)
  }

  lemma {:induction false} AscendingQuiet(p: Parsed, low: nat, high: nat)
    requires Sized(p) && low <= high && forall n :: low < n <= high ==> !LoggedAt(p, n)
    ensures Ascending(p, high) == Ascending(p, low)
  {
    if low < high { AscendingQuiet(p, low, high - 1); }
    hide LoggedAt;
  }

  lemma {:induction false} AscendingNext(p: Parsed, previous: nat, next: nat)
    requires Sized(p) && NextLogged(p, previous, next) && previous <= LAST_LINE
    ensures next == 0 ==> Ascending(p, LAST_LINE) == Ascending(p, previous)
    ensures next != 0 ==> Ascending(p, next) == Ascending(p, previous) + [next]
  {
    if next == 0 {
      AscendingQuiet(p, previous, LAST_LINE);
    } else {
      AscendingQuiet(p, previous, next - 1);
    }
    hide LoggedAt;
  }

  lemma {:induction false} NotedAllSnoc(p: Parsed, conflicts: seq<nat>, line: nat)
    ensures NotedAll(p, conflicts + [line]) == Noted(NotedAll(p, conflicts), line, Conflict)
  {
    assert (conflicts + [line])[..|conflicts|] == conflicts;
  }

  /** The parsed table, filled in place. */
  class Table {
    const values: array<Option<bool>>
    const lines: array<nat>
    const issues: array<Issue>
    var issueCount: nat
    var ignored: nat

    ghost predicate Valid()
      reads this
    {
      values.Length == KEYS && lines.Length == KEYS && issues.Length == MAX_ISSUES && issueCount <= MAX_ISSUES
    }

    ghost function Value(): (p: Parsed)
      requires Valid()
      reads this, values, lines, issues
      ensures Sized(p)
    {
      Parsed(values[..], lines[..], issues[..issueCount], ignored)
    }

    constructor ()
      ensures Valid() && fresh(values) && fresh(lines) && fresh(issues)
      ensures Value() == Empty()
    {
      values := new Option<bool>[KEYS](_ => None);
      lines := new nat[KEYS](_ => 0);
      issues := new Issue[MAX_ISSUES](_ => Issue(0, Malformed));
      issueCount, ignored := 0, 0;
    }

    method AddIssue(line: nat, issue: LineIssue)
      requires Valid()
      modifies this, issues
      ensures Valid() && Value() == Noted(old(Value()), line, issue)
    {
      if issueCount < MAX_ISSUES {
        issues[issueCount] := Issue(line, issue);
        issueCount := issueCount + 1;
      }
      ignored := ignored + 1;
    }

    method ParseLine(find: Finder, number: nat, line: seq<Byte>)
      requires Valid()
      modifies this, values, lines, issues
      ensures Valid() && Value() == Taken(old(Value()), number, MeaningOf(find, line))
    {
      hide MeaningOf, Noted;
      var m := ReadLine(find, line);
      match m
      case Skip =>
      case Bad(issue) => AddIssue(number, issue);
      case Gives(key, value) =>
        if values[key].Some? {
          AddIssue(number, Duplicate);
        } else {
          values[key] := Some(value);
          lines[key] := number;
        }
    }

    /** The line loop. */
    method ParseContent(find: Finder, content: seq<Byte>)
      requires Valid() && Value() == Empty()
      modifies this, values, lines, issues
      ensures Valid() && Value() == ParseLines(find, Lines(content))
    {
      var rest: seq<Byte>, number := content, 0;
      ghost var done: seq<seq<Byte>> := [];
      assert ParseLines(find, []) == Empty();
      hide ParseLines, Lines, Empty, Taken, MeaningOf, FirstNewline;
      while rest != []
        invariant Valid() && Value() == ParseLines(find, done)
        invariant done + Lines(rest) == Lines(content) && number == |done|
        decreases |rest|
      {
        var end := FirstNewline(rest);
        number := number + 1;
        SplitLine(rest);
        Regroup(done, rest[..end], Lines(if end == |rest| then [] else rest[end+1..]));
        NextLine(find, done, rest[..end]);
        ParseLine(find, number, rest[..end]);
        done := done + [rest[..end]];
        rest := if end == |rest| then [] else rest[end+1..];
      }
      SplitLine(rest);
      assert done == Lines(content);
    }

    /** The pair loop. */
    method MarkConflicts() returns (dropped: array<bool>, logged: array<bool>)
      requires Valid() && OwnLines(Value())
      ensures Valid() && fresh(dropped) && fresh(logged) && dropped.Length == KEYS && logged.Length == KEYS
      ensures forall k: Key :: dropped[k] <==> Dropped(Value(), k)
      ensures forall k: Key :: logged[k] <==> Logged(Value(), k)
    {
      dropped := new bool[KEYS](_ => false);
      logged := new bool[KEYS](_ => false);
      ghost var p := Value();
      hide DroppedBy, LoggedBy, Dropped, Logged, OwnLines, Marked;
      NothingMarked(p, dropped[..], logged[..]);
      for n := 0 to |PAIRS|
        invariant Value() == p && Marked(p, n, dropped[..], logged[..])
      {
        PairsInGroups(n);
        MarkNext(p, n, dropped[..], logged[..]);
        var a: Key, b: Key := PAIRS[n].0, PAIRS[n].1;
        if values[a] == Some(true) && values[b] == Some(true) {
          dropped[a] := true;
          dropped[b] := true;
          logged[if lines[a] > lines[b] then a else b] := true;
        }
      }
      AllMarked(p, dropped[..], logged[..]);
    }

    /** The smallest logged line above `previous`. */
    method SelectNext(logged: array<bool>, previous: nat, ghost p: Parsed) returns (next: nat)
      requires Valid() && logged.Length == KEYS && Sized(p) && p.lines == lines[..] && OwnLines(p)
      requires forall k: Key :: logged[k] <==> Logged(p, k)
      ensures NextLogged(p, previous, next) && next <= LAST_LINE
    {
      hide Logged;
      next := 0;
      for i := 0 to KEYS
        invariant next != 0 ==> exists k: Key :: logged[k] && lines[k] == next && next > previous
        invariant forall k: Key :: k < i && logged[k] && lines[k] > previous ==> next != 0 && next <= lines[k]
      {
        if logged[i] && lines[i] > previous && (next == 0 || lines[i] < next) { next := lines[i]; }
      }
      forall n | n > previous && LoggedAt(p, n) ensures next != 0 && next <= n {
        var k: Key :| Logged(p, k) && p.lines[k] == n;
        assert logged[k] && lines[k] == n;
      }
      if next != 0 {
        var k: Key :| logged[k] && lines[k] == next;
        assert Logged(p, k);
        LoggedIsGiven(p, k);
      }
    }

    /** The selection loop terminates: each selected line is larger than the one before. */
    method AddConflicts(logged: array<bool>)
      requires Valid() && logged.Length == KEYS && OwnLines(Value())
      requires forall k: Key :: logged[k] <==> Logged(Value(), k)
      modifies this, issues
      ensures Valid() && Value() == NotedAll(old(Value()), Ascending(old(Value()), LAST_LINE))
    {
      ghost var p := Value();
      var previous: nat, next: nat := 0, 0;
      next := SelectNext(logged, previous, p);
      hide Logged, NotedAll, OwnLines;
      assert Ascending(p, 0) == [] && NotedAll(p, []) == p by { NothingNoted(p); }
      hide Ascending, Noted;
      while next != 0
        invariant Valid() && previous <= LAST_LINE && next <= LAST_LINE && NextLogged(p, previous, next)
        invariant Value() == NotedAll(p, Ascending(p, previous)) && lines[..] == p.lines
        decreases LAST_LINE - previous
      {
        AscendingNext(p, previous, next);
        NotedAllSnoc(p, Ascending(p, previous), next);
        AddIssue(next, Conflict);
        previous := next;
        next := SelectNext(logged, previous, p);
      }
      AscendingNext(p, previous, next);
    }

    method ResolveConflicts()
      requires Valid() && OwnLines(Value())
      modifies this, values, issues
      ensures Valid() && Value() == Resolved(old(Value()))
    {
      ghost var p := Value();
      var dropped, logged := MarkConflicts();
      hide Dropped, Logged, OwnLines, Ascending;
      AddConflicts(logged);
      KeepsTable(p, Ascending(p, LAST_LINE));
      ghost var noted := Value();
      hide NotedAll;
      for i := 0 to KEYS
        invariant Valid() && Value() == noted.(values := Value().values)
        invariant forall k: Key :: k >= i ==> values[k] == p.values[k]
        invariant forall k: Key :: k < i ==> values[k] == Kept(p, k)
        invariant forall k: Key :: dropped[k] <==> Dropped(p, k)
      {
        if dropped[i] { values[i] := None; }
      }
      assert values[..] == Resolved(p).values;
    }
  }

  lemma {:induction false} LoggedIsGiven(p: Parsed, k: Key)
    requires Sized(p) && Logged(p, k)
    ensures p.values[k].Some?
  {
  }

  lemma {:induction false} NothingNoted(p: Parsed)
    requires Sized(p)
    ensures Ascending(p, 0) == [] && NotedAll(p, []) == p
  {
  }

  lemma {:induction false} KeepsTable(p: Parsed, conflicts: seq<nat>)
    ensures NotedAll(p, conflicts).values == p.values && NotedAll(p, conflicts).lines == p.lines
  {
    if conflicts != [] { KeepsTable(p, conflicts[..|conflicts|-1]); }
  }

  lemma {:induction false} ParsedOwnLines(find: Finder, lines: seq<seq<Byte>>)
    requires |lines| <= LAST_LINE
    ensures OwnLines(ParseLines(find, lines))
  {
    hide ParseLines;
    forall a: Key, b: Key ensures
      (ParseLines(find, lines).values[a].Some? ==> 1 <= ParseLines(find, lines).lines[a] <= LAST_LINE) &&
      (ParseLines(find, lines).values[a].Some? && ParseLines(find, lines).values[b].Some? && a != b ==>
        ParseLines(find, lines).lines[a] != ParseLines(find, lines).lines[b])
    {
      LinesDistinct(find, lines, a, b);
    }
  }

  /** The parsed file, or nothing when it is too long or not ASCII. */
  method Parse(find: Finder, content: seq<Byte>) returns (accepted: bool, table: Table)
    ensures accepted <==> |content| <= MAX_BYTES && forall i :: 0 <= i < |content| ==> content[i] <= 0x7F
    ensures fresh(table) && table.Valid()
    ensures accepted ==> table.Value() == Resolved(ParseLines(find, Lines(content)))
  {
    table := new Table();
    accepted := |content| <= MAX_BYTES && forall i :: 0 <= i < |content| ==> content[i] <= 0x7F;
    if !accepted { return; }
    LinesBounded(content);
    ParsedOwnLines(find, Lines(content));
    hide Resolved, ParseLines, OwnLines, Lines, Empty;
    table.ParseContent(find, content);
    table.ResolveConflicts();
  }

  lemma {:induction false} Regroup(done: seq<seq<Byte>>, line: seq<Byte>, more: seq<seq<Byte>>)
    ensures done + ([line] + more) == (done + [line]) + more
  {
  }

  lemma {:induction false} SplitLine(rest: seq<Byte>)
    ensures rest == [] ==> Lines(rest) == []
    ensures rest != [] ==>
              var e := FirstNewline(rest);
              Lines(rest) == [rest[..e]] + Lines(if e == |rest| then [] else rest[e+1..])
  {
    if rest != [] && FirstNewline(rest) == |rest| { assert rest[..|rest|] == rest; }
  }

  lemma {:induction false} NextLine(find: Finder, done: seq<seq<Byte>>, line: seq<Byte>)
    ensures ParseLines(find, done + [line]) == Taken(ParseLines(find, done), |done| + 1, MeaningOf(find, line))
  {
    assert (done + [line])[..|done|] == done;
  }
}
