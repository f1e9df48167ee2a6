/** The build conditions of a selection of dependencies: written to the configure_conditions file,
    read back, overridden from the command line, and used to filter the dependencies again. */
module BuildConditions {
  import opened XmlUtil
  import opened Text
  import opened Dependencies

  // ---- writing ----------------------------------------------------------------------------

  const DEFINES := "DEFINES += "

  function Lines(conditions: seq<string>): string {
    if conditions == [] then "" else DEFINES + conditions[0] + [LF] + Lines(conditions[1..])
  }

  function AllConditions(deps: seq<Fields>): seq<string> {
    if deps == [] then [] else deps[0].buildConditions + AllConditions(deps[1..])
  }

  /** The file for a selection; there is none for the empty selection. */
  function Written(deps: seq<Fields>): Option<string> {
    if deps == [] then None else Some(Lines(AllConditions(deps)))
  }

  lemma {:induction false} LinesConcat(a: seq<string>, b: seq<string>)
    ensures Lines(a + b) == Lines(a) + Lines(b)
  {
    if a == [] {
      assert a + b == b;
    } else {
      assert (a + b)[1..] == a[1..] + b;
      LinesConcat(a[1..], b);
      Regroup(DEFINES + a[0] + [LF], Lines(a[1..]), Lines(b));
    }
  }

  /** QMakeGeneratorBackend::generateConfigureConditionsFile: what is in the file afterwards. */
  method GenerateConfigureConditionsFile(deps: seq<Fields>) returns (file: Option<string>)
    ensures file == Written(deps)
  {
    if deps == [] {
      return None;
    }
    var fos := "";
    for i := 0 to |deps|
      invariant fos + Lines(AllConditions(deps[i..])) == Lines(AllConditions(deps))
    {
      ghost var before := fos;
      var conditions := deps[i].buildConditions;
      for k := 0 to |conditions|
        invariant fos + Lines(conditions[k..]) == before + Lines(conditions)
      {
        assert conditions[k..][1..] == conditions[k + 1..];
        Regroup(fos, DEFINES + conditions[k] + [LF], Lines(conditions[k + 1..]));
        fos := fos + (DEFINES + conditions[k] + [LF]);
      }
      assert conditions[|conditions|..] == [] && fos == before + Lines(conditions);
      assert deps[i..][1..] == deps[i + 1..];
      LinesConcat(conditions, AllConditions(deps[i + 1..]));
      Regroup(before, Lines(conditions), Lines(AllConditions(deps[i + 1..])));
    }
    assert deps[|deps|..] == [] && fos + "" == fos;
    return Some(fos);
  }

  // ---- reading ----------------------------------------------------------------------------

  function EraseAll(s: string, c: char): string {
    if s == [] then [] else if s[0] == c then EraseAll(s[1..], c) else [s[0]] + EraseAll(s[1..], c)
  }

  /** One line of the file. */
  function ReadLine(line: string, m: map<string, bool>): map<string, bool> {
    var results := Split(line, '=');
    if |results| != 2 then m
    else if EraseAll(results[0], ' ') == "DEFINES+" then m[Trim(results[1]) := true]
    else if EraseAll(results[0], ' ') == "DEFINES-" then m[Trim(results[1]) := false]
    else m
  }

  function ReadLines(lines: seq<string>, m: map<string, bool>): map<string, bool> {
    if lines == [] then m else ReadLines(lines[1..], ReadLine(lines[0], m))
  }

  /** Reading the file, if it exists, into a map. */
  function Read(file: Option<string>, m: map<string, bool>): map<string, bool> {
    match file
    case None => m
    case Some(text) => ReadLines(Split(text, LF), m)
  }

  /** QMakeGeneratorBackend::parseConditionsFile. */
  method ParseConditionsFile(file: Option<string>, conditionsMap: map<string, bool>) returns (m: map<string, bool>)
    ensures m == Read(file, conditionsMap)
  {
    m := conditionsMap;
    if file.None? {
      return;
    }
    var text, eof := file.value, false;
    while !eof
      invariant (if eof then m else ReadLines(Split(text, LF), m)) == Read(file, conditionsMap)
      decreases !eof, |text|
    {
      ghost var all := Split(text, LF);
      var line, rest, end := GetLine(text);
      m := ReadLine(line, m);
      assert all[0] == line && all[1..] == if end then [] else Split(rest, LF);
      text, eof := rest, end;
    }
  }

  /** A condition that its line keeps: trimmed, without an equals sign or a line feed. */
  predicate IsPlain(c: string) {
    IsTrimmed(c) && '=' !in c && LF !in c
  }

  const KEY := "DEFINES +"

  /** What the file keeps of some conditions: those without an equals sign, trimmed. */
  function Stored(conditions: seq<string>): set<string> {
    set c | c in conditions && '=' !in c :: Trim(c)
  }

  /** What the line of a condition is read as. */
  lemma LineEffect(c: string, m: map<string, bool>)
    requires LF !in c
    ensures ReadLine(DEFINES + c, m) == (if '=' in c then m else m[Trim(c) := true]) && LF !in DEFINES + c
  {
    hide Split, Trim, EraseAll;
    if '=' in c {
      ManyPieces(c);
    } else {
      TwoPieces(c);
      TrimBlank(c);
      KeyErased();
    }
  }

  lemma ManyPieces(c: string)
    requires '=' in c
    ensures |Split(DEFINES + c, '=')| > 2
  {
    hide Split;
    assert DEFINES + c == KEY + ['='] + (" " + c);
    SplitAfter(KEY, " " + c, '=');
    SplitMore(" " + c, '=');
  }

  lemma TwoPieces(c: string)
    requires '=' !in c
    ensures Split(DEFINES + c, '=') == [KEY, " " + c]
  {
    hide Split;
    assert DEFINES + c == KEY + ['='] + (" " + c);
    SplitOne(" " + c, '=');
    SplitAfter(KEY, " " + c, '=');
  }

  lemma KeyErased()
    ensures EraseAll(KEY, ' ') == "DEFINES+"
  {
    EraseNone("DEFINES", " +", ' ');
    assert KEY == "DEFINES" + " +";
    assert EraseAll("+", ' ') == "+";
    assert EraseAll(" +", ' ') == "+";
  }

  lemma {:induction false} EraseNone(a: string, b: string, c: char)
    requires c !in a
    ensures EraseAll(a + b, c) == a + EraseAll(b, c)
  {
    if a == [] {
      assert a + b == b;
    } else {
      assert (a + b)[1..] == a[1..] + b;
      EraseNone(a[1..], b, c);
    }
  }

  lemma TrimBlank(c: string)
    ensures Trim(" " + c) == Trim(c)
  {
    TrimRightBehind(c);
    if TrimRight(c) != "" { assert (" " + TrimRight(c))[1..] == TrimRight(c); }
  }

  lemma {:induction false} TrimRightBehind(c: string)
    ensures TrimRight(" " + c) == if TrimRight(c) == "" then "" else " " + TrimRight(c)
    decreases |c|
  {
    var s := " " + c;
    if c == "" {
      assert s[..0] == "";
    } else {
      assert s[|s| - 1] == c[|c| - 1] && s[..|s| - 1] == " " + c[..|c| - 1];
      TrimRightBehind(c[..|c| - 1]);
    }
  }

  /** Reading what was written for any conditions of one line each. */
  lemma {:induction false} StoredRead(conditions: seq<string>, m: map<string, bool>)
    requires forall c | c in conditions :: LF !in c
    ensures ReadLines(Split(Lines(conditions), LF), m) == m + map c | c in Stored(conditions) :: true
  {
    hide ReadLine, ReadLines, Split, Lines, Trim;
    if conditions == [] {
      EmptyLast(m);
      NoLines(conditions, m);
    } else {
      var c, rest := conditions[0], conditions[1..];
      assert c in conditions && forall x | x in rest :: x in conditions;
      LineEffect(c, m);
      FirstLine(conditions, m);
      StoredRead(rest, ReadLine(DEFINES + c, m));
      OneMoreStored(conditions, m);
    }
  }

  lemma OneMoreStored(conditions: seq<string>, m: map<string, bool>)
    requires conditions != []
    ensures var c, rest := conditions[0], Stored(conditions[1..]);
      (if '=' in c then m else m[Trim(c) := true]) + (map x | x in rest :: true)
        == m + map x | x in Stored(conditions) :: true
  {
    hide Trim;
    var c, rest := conditions[0], conditions[1..];
    forall x ensures x in Stored(conditions) <==> x in Stored(rest) || ('=' !in c && x == Trim(c)) {
      if x in Stored(conditions) {
        var y :| y in conditions && '=' !in y && x == Trim(y);
        assert y == c || y in rest;
      }
      if x in Stored(rest) {
        var y :| y in rest && '=' !in y && x == Trim(y);
        assert y in conditions;
      }
    }
  }

  lemma ReadWritten(conditions: seq<string>, m: map<string, bool>)
    requires forall c | c in conditions :: IsPlain(c)
    ensures ReadLines(Split(Lines(conditions), LF), m) == m + map c | c in conditions :: true
  {
    hide ReadLines, Split, Lines, Trim;
    StoredRead(conditions, m);
    PlainStored(conditions);
  }

  lemma PlainStored(conditions: seq<string>)
    requires forall c | c in conditions :: IsPlain(c)
    ensures forall c :: c in Stored(conditions) <==> c in conditions
  {
    hide TrimLeft, TrimRight;
    forall c ensures c in Stored(conditions) <==> c in conditions {
      if c in Stored(conditions) {
        var y :| y in conditions && '=' !in y && c == Trim(y);
      }
      if c in conditions { assert c == Trim(c); }
    }
  }

  lemma NoLines(conditions: seq<string>, m: map<string, bool>)
    requires conditions == []
    ensures Lines(conditions) == "" && m + (map c | c in Stored(conditions) :: true) == m
  {
  }

  lemma FirstLine(conditions: seq<string>, m: map<string, bool>)
    requires conditions != [] && LF !in DEFINES + conditions[0]
    ensures ReadLines(Split(Lines(conditions), LF), m)
         == ReadLines(Split(Lines(conditions[1..]), LF), ReadLine(DEFINES + conditions[0], m))
  {
    hide Split, ReadLine;
    var line, rest := DEFINES + conditions[0], Split(Lines(conditions[1..]), LF);
    SplitAfter(line, Lines(conditions[1..]), LF);
    assert ([line] + rest)[1..] == rest;
  }

  /** The piece behind the last line feed is empty, and is no line. */
  lemma EmptyLast(m: map<string, bool>)
    ensures ReadLines(Split("", LF), m) == m
  {
    assert Split("", LF) == [""] && Split("", '=') == [""];
    assert ReadLines([""], m) == ReadLines([], ReadLine("", m));
  }

  /** Whatever a file reads as, its keys are plain. */
  lemma {:induction false} KeysPlain(lines: seq<string>, m: map<string, bool>)
    requires forall i | 0 <= i < |lines| :: LF !in lines[i]
    requires forall c | c in m :: IsPlain(c)
    ensures forall c | c in ReadLines(lines, m) :: IsPlain(c)
  {
    hide Split, Trim;
    if lines != [] {
      var results := Split(lines[0], '=');
      assert |results| == 2 ==> '=' !in results[1] && LF !in results[1];
      KeysPlain(lines[1..], ReadLine(lines[0], m));
    }
  }

  /** Writing a selection's conditions and reading the file maps exactly those conditions to true, if
      and only if each of them is trimmed and free of '=' and line feeds. */
  lemma WrittenRead(deps: seq<Fields>)
    ensures Read(Written(deps), map[]) == (map c | c in AllConditions(deps) :: true)
       <==> forall c | c in AllConditions(deps) :: IsPlain(c)
  {
    hide ReadLines, Split, Lines;
    var cs := AllConditions(deps);
    if deps != [] {
      KeysPlain(Split(Lines(cs), LF), map[]);
      if forall c | c in cs :: IsPlain(c) {
        ReadWritten(cs, map[]);
        assert map[] + (map c | c in cs :: true) == map c | c in cs :: true;
      }
    }
  }

  /** A condition with an equals sign: its line has three pieces and is skipped. */
  lemma EqualsSignLost(d: Fields, answers: nat -> bool)
    requires d.buildConditions == ["A=B"]
    ensures Read(Written([d]), map[]) == map[] && Filter(Read(Written([d]), map[]), [d], answers).1 == 1
  {
    hide Split, EraseAll;
    var m: map<string, bool> := map[];
    var cs := ["A=B"];
    assert AllConditions([d]) == cs + AllConditions([d][1..]) == cs;
    assert LF !in DEFINES + "A=B";
    FirstLine(cs, m);
    ThreePieces();
    assert Lines(cs[1..]) == "";
    EmptyLast(m);
    assert [d][..0] == [] && cs[..0] == [];
    assert Check(m, [], 0, answers) == (true, 0);
    assert Filter(m, [], answers) == ([], 0);
  }

  lemma ThreePieces()
    ensures Split(DEFINES + "A=B", '=') == [KEY, " A", "B"]
  {
    hide Split;
    assert DEFINES + "A=B" == KEY + ['='] + (" A" + ['='] + "B");
    SplitOne("B", '=');
    SplitAfter(" A", "B", '=');
    SplitAfter(KEY, " A" + ['='] + "B", '=');
  }

  // ---- overriding -----------------------------------------------------------------------------

  function ToLower(s: string): string {
    if s == [] then [] else
      [if 'A' <= s[0] <= 'Z' then (s[0] as int + 32) as char else s[0]] + ToLower(s[1..])
  }

  /** boost::iequals on plain characters. */
  predicate EqualsIgnoringCase(a: string, b: string) {
    ToLower(a) == ToLower(b)
  }

  /** What one --condition argument says: a name and a truth value, or nothing. */
  function Forced(arg: string): Option<(string, bool)> {
    var condition := Split(arg, '=');
    if |condition| < 2 || condition[0] == "" || condition[1] == "" then None
    else if EqualsIgnoringCase(condition[1], "true") then Some((condition[0], true))
    else if EqualsIgnoringCase(condition[1], "false") then Some((condition[0], false))
    else None
  }

  /** The last argument that says something about c. */
  function LastForced(args: seq<string>, c: string): Option<bool> {
    if args == [] then None
    else
      var last := Forced(args[|args| - 1]);
      if last.Some? && last.value.0 == c then Some(last.value.1) else LastForced(args[..|args| - 1], c)
  }

  function Lookup(m: map<string, bool>, c: string): Option<bool> {
    if c in m then Some(m[c]) else None
  }

  /** AbstractGeneratorBackend::forceConditions: the command line wins, its last word about a
      condition, and nothing else changes. */
  method ForceConditions(args: seq<string>, conditionsMap: map<string, bool>) returns (m: map<string, bool>)
    ensures forall c ::
      Lookup(m, c) == if LastForced(args, c).Some? then LastForced(args, c) else Lookup(conditionsMap, c)
  {
    hide EqualsIgnoringCase;
    m := conditionsMap;
    assert args[..0] == [];
    for i := 0 to |args|
      invariant forall c ::
        Lookup(m, c) == if LastForced(args[..i], c).Some? then LastForced(args[..i], c) else Lookup(conditionsMap, c)
    {
      assert args[..i + 1][..i] == args[..i] && args[..i + 1][i] == args[i];
      var condition := Split(args[i], '=');
      var conditionName := condition[0];
      var conditionValue := "";
      if |condition| >= 2 {
        conditionValue := condition[1];
      }
      if conditionName != "" && conditionValue != "" {
        if EqualsIgnoringCase(conditionValue, "true") {
          m := m[conditionName := true];
        } else if EqualsIgnoringCase(conditionValue, "false") {
          m := m[conditionName := false];
        }
      }
    }
    assert args[..|args|] == args;
  }

  // ---- filtering --------------------------------------------------------------------------------

  /** The conditions of one dependency, `answers` being what the user says at each prompt and `asked`
      the number of prompts so far. */
  function Check(m: map<string, bool>, conditions: seq<string>, asked: nat, answers: nat -> bool): (bool, nat) {
    if conditions == [] then (true, asked)
    else
      var last := conditions[|conditions| - 1];
      var (fulfilled, n) := Check(m, conditions[..|conditions| - 1], asked, answers);
      if last in m then (fulfilled && m[last], n) else (fulfilled && answers(n), n + 1)
  }

  function Filter(m: map<string, bool>, deps: seq<Fields>, answers: nat -> bool): (seq<Fields>, nat) {
    if deps == [] then ([], 0)
    else
      var last := deps[|deps| - 1];
      var (kept, asked) := Filter(m, deps[..|deps| - 1], answers);
      var (fulfilled, n) := Check(m, last.buildConditions, asked, answers);
      (if fulfilled then kept + [last] else kept, n)
  }

  /** DepUtils::filterConditionDependencies. */
  method FilterConditionDependencies(m: map<string, bool>, deps: seq<Fields>, answers: nat -> bool)
    returns (filtered: seq<Fields>, asked: nat)
    ensures (filtered, asked) == Filter(m, deps, answers)
  {
    filtered, asked := [], 0;
    assert deps[..0] == [];
    for i := 0 to |deps|
      invariant (filtered, asked) == Filter(m, deps[..i], answers)
    {
      assert deps[..i + 1][..i] == deps[..i];
      var fulfilled := true;
      var conditions := deps[i].buildConditions;
      ghost var before := asked;
      assert conditions[..0] == [];
      for k := 0 to |conditions|
        invariant (fulfilled, asked) == Check(m, conditions[..k], before, answers)
      {
        assert conditions[..k + 1][..k] == conditions[..k];
        if conditions[k] !in m {
          var yes := answers(asked);
          asked := asked + 1;
          if !yes {
            fulfilled := false;
          }
        } else if !m[conditions[k]] {
          fulfilled := false;
        }
      }
      assert conditions[..|conditions|] == conditions;
      if fulfilled {
        filtered := filtered + [deps[i]];
      }
    }
    assert deps[..|deps|] == deps;
  }

  lemma {:induction false} CheckAsks(m: map<string, bool>, conditions: seq<string>, asked: nat, answers: nat -> bool)
    ensures Check(m, conditions, asked, answers).1 >= asked
    ensures Check(m, conditions, asked, answers).1 == asked <==> forall c | c in conditions :: c in m
    ensures (forall c | c in conditions :: c in m && m[c]) ==> Check(m, conditions, asked, answers) == (true, asked)
    ensures (exists c | c in conditions :: c in m && !m[c]) ==> !Check(m, conditions, asked, answers).0
  {
    if conditions != [] {
      var front := conditions[..|conditions| - 1];
      CheckAsks(m, front, asked, answers);
      assert conditions == front + [conditions[|conditions| - 1]];
    }
  }

  /** How many of some conditions the map does not know. */
  function Unknown(m: map<string, bool>, conditions: seq<string>): nat {
    if conditions == [] then 0
    else Unknown(m, conditions[..|conditions| - 1]) + if conditions[|conditions| - 1] in m then 0 else 1
  }

  /** Condition j is true in the map or, if it is not there, was answered with yes. */
  predicate Granted(m: map<string, bool>, conditions: seq<string>, j: nat, asked: nat, answers: nat -> bool)
    requires j < |conditions|
  {
    if conditions[j] in m then m[conditions[j]] else answers(asked + Unknown(m, conditions[..j]))
  }

  /** A dependency is kept when each of its conditions is granted; the prompts come in the order of the
      conditions, none left out. */
  lemma {:induction false} CheckMeans(m: map<string, bool>, conditions: seq<string>, asked: nat, answers: nat -> bool)
    ensures Check(m, conditions, asked, answers).1 == asked + Unknown(m, conditions)
    ensures Check(m, conditions, asked, answers).0 <==>
      forall j | 0 <= j < |conditions| :: Granted(m, conditions, j, asked, answers)
  {
    if conditions != [] {
      var n := |conditions| - 1;
      CheckMeans(m, conditions[..n], asked, answers);
      forall j | 0 <= j < n
        ensures Granted(m, conditions, j, asked, answers) == Granted(m, conditions[..n], j, asked, answers)
      {
        assert conditions[..n][..j] == conditions[..j];
      }
      assert Check(m, conditions, asked, answers).0
        <==> (Granted(m, conditions, n, asked, answers) &&
              forall j | 0 <= j < n :: Granted(m, conditions[..n], j, asked, answers));
      assert (forall j | 0 <= j < n :: Granted(m, conditions[..n], j, asked, answers))
        <==> forall j | 0 <= j < n :: Granted(m, conditions, j, asked, answers);
    }
  }

  lemma {:induction false} ConditionsSnoc(deps: seq<Fields>, d: Fields)
    ensures AllConditions(deps + [d]) == AllConditions(deps) + d.buildConditions
  {
    if deps == [] {
      assert deps + [d] == [d];
    } else {
      assert (deps + [d])[1..] == deps[1..] + [d];
      ConditionsSnoc(deps[1..], d);
    }
  }

  /** Nothing is asked when the map knows every condition; if it has them all true, nothing is lost. */
  lemma {:induction false} FilterAsks(m: map<string, bool>, deps: seq<Fields>, answers: nat -> bool)
    ensures Filter(m, deps, answers).1 == 0 <==> forall c | c in AllConditions(deps) :: c in m
    ensures (forall c | c in AllConditions(deps) :: c in m && m[c]) ==> Filter(m, deps, answers) == (deps, 0)
  {
    if deps != [] {
      var front, last := deps[..|deps| - 1], deps[|deps| - 1];
      assert deps == front + [last];
      FilterAsks(m, front, answers);
      ConditionsSnoc(front, last);
      CheckAsks(m, last.buildConditions, Filter(m, front, answers).1, answers);
    }
  }

  /** A selection is reproduced from its own conditions file, read over any map: it comes back
      unchanged and without a prompt. From an empty map that is so only if every condition is plain. */
  lemma SelectionReproduced(deps: seq<Fields>, m: map<string, bool>, answers: nat -> bool)
    ensures (forall c | c in AllConditions(deps) :: IsPlain(c)) ==>
      Filter(Read(Written(deps), m), deps, answers) == (deps, 0)
    ensures Filter(Read(Written(deps), map[]), deps, answers).1 == 0 <==>
      forall c | c in AllConditions(deps) :: IsPlain(c)
  {
    hide ReadLines, Split, Lines, Filter, IsPlain;
    var cs := AllConditions(deps);
    FilterAsks(Read(Written(deps), m), deps, answers);
    FilterAsks(Read(Written(deps), map[]), deps, answers);
    if deps != [] {
      KeysPlain(Split(Lines(cs), LF), map[]);
      if forall c | c in cs :: IsPlain(c) {
        ReadWritten(cs, m);
        ReadWritten(cs, map[]);
      }
    }
  }

  /** A condition forced to false on the command line drops its dependencies, whatever the file says. */
  lemma {:induction false} ForcedFalseDrops(m: map<string, bool>, deps: seq<Fields>, answers: nat -> bool, c: string)
    requires c in m && !m[c]
    ensures forall d | d in Filter(m, deps, answers).0 :: c !in d.buildConditions
  {
    if deps != [] {
      var front, last := deps[..|deps| - 1], deps[|deps| - 1];
      ForcedFalseDrops(m, front, answers, c);
      CheckAsks(m, last.buildConditions, Filter(m, front, answers).1, answers);
    }
  }
}
