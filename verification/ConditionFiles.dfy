/** Conditions files as they are written by hand, line by line, and --condition arguments, and what the
    commands do with the dependencies of a project that has such files. */
module ConditionFiles {
  import opened XmlUtil
  import opened Text
  import opened Dependencies
  import opened BuildConditions
  import opened ProjectConditions
  import DependencyLines

  // ---- lines ------------------------------------------------------------------------------

  /** w is k with spaces put in anywhere. */
  predicate Spread(w: string, k: string) {
    if w == "" then k == ""
    else if w[0] == ' ' then Spread(w[1..], k)
    else k != "" && w[0] == k[0] && Spread(w[1..], k[1..])
  }

  const ON := "DEFINES+"
  const OFF := "DEFINES-"

  /** A line that says that a condition is on or off, with its blanks, or any other line. */
  datatype FileLine =
    | Says(on: bool, key: string, before: string, condition: string, behind: string)
    | Other(text: string)
  {
    function Source(): string {
      match this
      case Says(_, key, before, condition, behind) => key + "=" + (before + condition + behind)
      case Other(text) => text
    }

    ghost predicate Valid() {
      LF !in Source() &&
      match this
      case Says(on, key, before, condition, behind) =>
        && Spread(key, if on then ON else OFF)
        && IsBlank(before) && IsBlank(behind) && IsTrimmed(condition) && '=' !in condition
      case Other(text) => SaysNothing(text)
    }
  }

  /** No equals sign, or more than one, or something else in front of it. */
  ghost predicate SaysNothing(text: string) {
    forall key, value | text == key + "=" + value && '=' !in key && '=' !in value ::
      !Spread(key, ON) && !Spread(key, OFF)
  }

  function FileText(lines: seq<FileLine>): string {
    if lines == [] then "" else lines[0].Source() + "\n" + FileText(lines[1..])
  }

  /** A file of these lines, the last one with or without its line feed; or no file, for no lines. */
  ghost predicate Holds(file: Option<string>, lines: seq<FileLine>) {
    (forall l | l in lines :: l.Valid()) &&
    match file
    case None => lines == []
    case Some(text) =>
      text == FileText(lines) ||
      (lines != [] && text == FileText(lines[..|lines| - 1]) + lines[|lines| - 1].Source())
  }

  /** What the last line about c says. */
  function LastSays(lines: seq<FileLine>, c: string): Option<bool> {
    if lines == [] then None
    else
      var last := lines[|lines| - 1];
      if last.Says? && last.condition == c then Some(last.on) else LastSays(lines[..|lines| - 1], c)
  }

  // ---- one line --------------------------------------------------------------------------------

  lemma {:induction false} SpreadErased(w: string, k: string)
    requires ' ' !in k
    ensures Spread(w, k) <==> EraseAll(w, ' ') == k
  {
    if w != "" {
      if w[0] == ' ' {
        SpreadErased(w[1..], k);
      } else {
        if k != "" {
          assert forall c | c in k[1..] :: c in k;
          SpreadErased(w[1..], k[1..]);
          assert k == [k[0]] + k[1..];
        }
        var e := EraseAll(w, ' ');
        assert e[0] == w[0] && e[1..] == EraseAll(w[1..], ' ');
      }
    }
  }

  lemma {:induction false} NoEquals(w: string, k: string)
    requires Spread(w, k) && '=' !in k
    ensures '=' !in w
  {
    if w != "" {
      if w[0] == ' ' {
        NoEquals(w[1..], k);
      } else {
        assert k[0] in k && forall c | c in k[1..] :: c in k;
        NoEquals(w[1..], k[1..]);
      }
    }
  }

  lemma {:induction false} NoOtherEquals(line: string, key: string, value: string)
    requires line == key + "=" + value && '=' !in key && '=' !in value
    ensures Split(line, '=') == [key, value]
  {
    hide Split;
    SplitOne(value, '=');
    SplitAfter(key, value, '=');
  }

  /** What a line of the file does to the map. */
  lemma LineSays(l: FileLine, m: map<string, bool>)
    requires l.Valid()
    ensures ReadLine(l.Source(), m) == if l.Says? then m[l.condition := l.on] else m
  {
    hide Split, Trim, IsBlank, IsTrimmed, EraseAll, Spread;
    var results := Split(l.Source(), '=');
    match l
    case Says(on, key, before, condition, behind) =>
      var value := before + condition + behind;
      NoEquals(key, if on then ON else OFF);
      BlankHasNoEquals(before);
      BlankHasNoEquals(behind);
      NoOtherEquals(l.Source(), key, value);
      SpreadErased(key, if on then ON else OFF);
      TrimPadded(before, condition, behind);
    case Other(text) =>
      if |results| == 2 {
        JoinSplit(text, '=');
        JoinTwo(results);
        assert text == results[0] + "=" + results[1];
        SpreadErased(results[0], ON);
        SpreadErased(results[0], OFF);
      }
  }

  lemma JoinTwo(pieces: seq<string>)
    requires |pieces| == 2
    ensures Join(pieces, '=') == pieces[0] + "=" + pieces[1]
  {
    assert pieces[1..] == [pieces[1]];
  }

  lemma BlankHasNoEquals(w: string)
    requires IsBlank(w)
    ensures '=' !in w
  {
  }

  // ---- whole files -----------------------------------------------------------------------------

  /** Reading lines one by one. */
  function Told(lines: seq<FileLine>, m: map<string, bool>): map<string, bool> {
    if lines == [] then m
    else Told(lines[1..], if lines[0].Says? then m[lines[0].condition := lines[0].on] else m)
  }

  lemma {:induction false} ToldIsLast(lines: seq<FileLine>, m: map<string, bool>, c: string)
    ensures Lookup(Told(lines, m), c) == if LastSays(lines, c).Some? then LastSays(lines, c) else Lookup(m, c)
    decreases |lines|
  {
    if lines != [] {
      var l, rest := lines[0], lines[1..];
      ToldIsLast(rest, if l.Says? then m[l.condition := l.on] else m, c);
      LastCons(lines, c);
    }
  }

  lemma {:induction false} LastCons(lines: seq<FileLine>, c: string)
    requires lines != []
    ensures LastSays(lines, c) ==
      var later := LastSays(lines[1..], c);
      if later.Some? then later
      else if lines[0].Says? && lines[0].condition == c then Some(lines[0].on) else None
    decreases |lines|
  {
    var n := |lines| - 1;
    if n > 0 {
      LastCons(lines[..n], c);
      assert lines[..n][1..] == lines[1..][..n - 1] && lines[1..][n - 1] == lines[n];
    } else {
      assert lines[1..] == [] && lines[..0] == [];
    }
  }

  /** The lines of a file, and what is behind its last line feed. */
  lemma {:induction false} LinesRead(lines: seq<FileLine>, tail: string, m: map<string, bool>)
    requires (forall l | l in lines :: l.Valid()) && LF !in tail
    ensures ReadLines(Split(FileText(lines) + tail, LF), m) == ReadLine(tail, Told(lines, m))
    decreases |lines|
  {
    hide ReadLine, Split, FileLine.Valid, FileLine.Source;
    if lines == [] {
      assert FileText(lines) + tail == tail;
      SplitOne(tail, LF);
      assert [tail][1..] == [];
    } else {
      var l, rest := lines[0], lines[1..];
      assert l in lines && l.Valid();
      NoLineFeed(l);
      assert FileText(lines) + tail == l.Source() + [LF] + (FileText(rest) + tail);
      SplitAfter(l.Source(), FileText(rest) + tail, LF);
      LineSays(l, m);
      var more := Split(FileText(rest) + tail, LF);
      assert ([l.Source()] + more)[1..] == more;
      LinesRead(rest, tail, ReadLine(l.Source(), m));
    }
  }

  lemma NoLineFeed(l: FileLine)
    requires l.Valid()
    ensures LF !in l.Source()
  {
  }

  lemma NoLine(m: map<string, bool>)
    ensures ReadLine("", m) == m
  {
    assert Split("", '=') == [""];
  }

  /** Reading a file into a map: each condition has what the last line about it says, or what it had. */
  lemma FileRead(file: Option<string>, lines: seq<FileLine>, m: map<string, bool>)
    requires Holds(file, lines)
    ensures Read(file, m) == Told(lines, m)
  {
    hide ReadLine, ReadLines, Split, FileLine.Valid, FileLine.Source, Told, FileText;
    match file
    case None => assert Told([], m) == m by { NothingTold(m); }
    case Some(text) =>
      if text == FileText(lines) {
        assert FileText(lines) + "" == text;
        LinesRead(lines, "", m);
        NoLine(Told(lines, m));
      } else {
        var n := |lines| - 1;
        assert lines[n] in lines && lines[n].Valid() && forall l | l in lines[..n] :: l in lines;
        NoLineFeed(lines[n]);
        LinesRead(lines[..n], lines[n].Source(), m);
        LineSays(lines[n], Told(lines[..n], m));
        ToldSnoc(lines, m);
      }
  }

  lemma NothingTold(m: map<string, bool>)
    ensures Told([], m) == m
  {
  }

  lemma {:induction false} ToldSnoc(lines: seq<FileLine>, m: map<string, bool>)
    requires lines != []
    ensures var n := |lines| - 1; var before := Told(lines[..n], m);
      Told(lines, m) == if lines[n].Says? then before[lines[n].condition := lines[n].on] else before
    decreases |lines|
  {
    var n := |lines| - 1;
    if n > 0 {
      assert lines[1..][..n - 1] == lines[..n][1..] && lines[1..][n - 1] == lines[n];
      ToldSnoc(lines[1..], if lines[0].Says? then m[lines[0].condition := lines[0].on] else m);
    } else {
      assert lines[1..] == [];
    }
  }

  // ---- the command line ---------------------------------------------------------------------------

  /** v is a truth value in letters of either case. */
  predicate SpellsTruth(v: string, b: bool) {
    var small, large := if b then "true" else "false", if b then "TRUE" else "FALSE";
    |v| == |small| && forall i | 0 <= i < |v| :: v[i] == small[i] || v[i] == large[i]
  }

  lemma {:induction false} LowerIs(v: string, w: string, u: string)
    requires |w| == |u| && forall i | 0 <= i < |w| :: 'a' <= w[i] <= 'z' && u[i] as int + 32 == w[i] as int
    ensures ToLower(v) == w <==> |v| == |w| && forall i | 0 <= i < |v| :: v[i] == w[i] || v[i] == u[i]
  {
    if v != "" && w != "" {
      LowerIs(v[1..], w[1..], u[1..]);
      var e := ToLower(v);
      assert e[1..] == ToLower(v[1..]) && (e == w <==> e[0] == w[0] && e[1..] == w[1..]);
      assert (forall i | 0 <= i < |v| && |v| == |w| :: v[i] == w[i] || v[i] == u[i]) ==>
        forall i | 0 <= i < |v[1..]| && |v| == |w| :: v[1..][i] == w[1..][i] || v[1..][i] == u[1..][i];
      if |v| == |w| && (v[0] == w[0] || v[0] == u[0]) &&
        forall i | 0 <= i < |v[1..]| :: v[1..][i] == w[1..][i] || v[1..][i] == u[1..][i] {
        forall i | 0 <= i < |v| ensures v[i] == w[i] || v[i] == u[i] {
          if i > 0 { assert v[i] == v[1..][i - 1]; }
        }
      }
    }
  }

  /** What one argument says: a name and a truth value, and nothing else that counts. */
  lemma ForcedMeans(arg: string, name: string, b: bool)
    ensures Forced(arg) == Some((name, b)) <==>
      (name != "" && '=' !in name && exists v, more :: IsForced(arg, name, b, v, more))
  {
    hide Split, EqualsIgnoringCase, SpellsTruth;
    var pieces := Split(arg, '=');
    if Forced(arg) == Some((name, b)) {
      var v, more := pieces[1], if |pieces| > 2 then "=" + Join(pieces[2..], '=') else "";
      JoinSplit(arg, '=');
      JoinRest(pieces);
      TruthSame(v, b);
      assert IsForced(arg, name, b, v, more);
    }
    if v, more :| name != "" && '=' !in name && IsForced(arg, name, b, v, more) {
      ForcedSplit(arg, name, b, v, more);
      TruthSame(v, true);
      TruthSame(v, false);
      NotBoth(v);
    }
  }

  /** arg is a name, an equals sign, a truth value and, behind another equals sign, anything. */
  ghost predicate IsForced(arg: string, name: string, b: bool, v: string, more: string) {
    SpellsTruth(v, b) && (more == "" || more[0] == '=') && arg == name + "=" + (v + more)
  }

  lemma JoinRest(pieces: seq<string>)
    requires |pieces| >= 2
    ensures Join(pieces, '=')
      == pieces[0] + "=" + (pieces[1] + if |pieces| > 2 then "=" + Join(pieces[2..], '=') else "")
  {
    var rest := pieces[1..];
    assert rest[1..] == pieces[2..];
    if |pieces| == 2 { assert rest == [pieces[1]] && pieces[1] + "" == pieces[1]; }
  }

  lemma ForcedSplit(arg: string, name: string, b: bool, v: string, more: string)
    requires '=' !in name && IsForced(arg, name, b, v, more)
    ensures |Split(arg, '=')| >= 2 && Split(arg, '=')[0] == name && Split(arg, '=')[1] == v && v != ""
  {
    hide Split;
    assert '=' !in v;
    SplitAfter(name, v + more, '=');
    if more == "" {
      assert v + more == v;
      SplitOne(v, '=');
    } else {
      assert v + more == v + ['='] + more[1..];
      SplitAfter(v, more[1..], '=');
    }
  }

  lemma TruthSame(v: string, b: bool)
    ensures EqualsIgnoringCase(v, if b then "true" else "false") <==> SpellsTruth(v, b)
  {
    hide ToLower;
    var small, large := if b then "true" else "false", if b then "TRUE" else "FALSE";
    LowerIs(v, small, large);
    LowerAlready();
  }

  lemma LowerAlready()
    ensures ToLower("true") == "true" && ToLower("false") == "false"
  {
    hide ToLower;
    LowerIs("true", "true", "TRUE");
    LowerIs("false", "false", "FALSE");
  }

  lemma NotBoth(v: string)
    ensures !(SpellsTruth(v, true) && SpellsTruth(v, false))
  {
  }

  // ---- what the commands select ---------------------------------------------------------------------

  /** What the command line says about c or, if it says nothing, the last line of the files. */
  function Decided(args: seq<string>, lines: seq<FileLine>, c: string): Option<bool> {
    if LastForced(args, c).Some? then LastForced(args, c) else LastSays(lines, c)
  }

  predicate AllOn(args: seq<string>, lines: seq<FileLine>, d: Fields) {
    forall c | c in d.buildConditions :: Decided(args, lines, c) == Some(true)
  }

  predicate SomeOff(args: seq<string>, lines: seq<FileLine>, d: Fields) {
    exists c | c in d.buildConditions :: Decided(args, lines, c) == Some(false)
  }

  function Chosen(args: seq<string>, lines: seq<FileLine>, deps: seq<Fields>): seq<Fields> {
    if deps == [] then []
    else
      var last := deps[|deps| - 1];
      Chosen(args, lines, deps[..|deps| - 1]) + if AllOn(args, lines, last) then [last] else []
  }

  /** A selection by a map that has what is decided. Nothing is asked exactly when everything is decided;
      whatever is asked, a dependency with a condition that is off is dropped, and one whose conditions
      are all on is kept. */
  lemma {:induction false} Selects(args: seq<string>, lines: seq<FileLine>, m: map<string, bool>, deps: seq<Fields>,
      answers: nat -> bool)
    requires forall c :: Lookup(m, c) == Decided(args, lines, c)
    ensures var (kept, asked) := Filter(m, deps, answers);
      && (asked == 0 <==> forall c | c in AllConditions(deps) :: Decided(args, lines, c).Some?)
      && (asked == 0 ==> kept == Chosen(args, lines, deps))
      && (forall d | d in kept :: d in deps && !SomeOff(args, lines, d))
      && (forall d | d in deps && AllOn(args, lines, d) :: d in kept)
  {
    hide Check, Decided;
    FilterAsks(m, deps, answers);
    assert forall c :: (c in m <==> Lookup(m, c).Some?);
    if deps != [] {
      var n := |deps| - 1;
      var front, last := deps[..n], deps[n];
      assert deps == front + [last];
      ConditionsSnoc(front, last);
      Selects(args, lines, m, front, answers);
      CheckAsks(m, last.buildConditions, Filter(m, front, answers).1, answers);
      LastSelected(args, lines, m, last, Filter(m, front, answers).1, answers);
    }
  }

  lemma LastSelected(args: seq<string>, lines: seq<FileLine>, m: map<string, bool>, d: Fields, asked: nat,
      answers: nat -> bool)
    requires forall c :: Lookup(m, c) == Decided(args, lines, c)
    ensures var (fulfilled, n) := Check(m, d.buildConditions, asked, answers);
      && (AllOn(args, lines, d) ==> fulfilled) && (SomeOff(args, lines, d) ==> !fulfilled)
      && (n == asked && fulfilled ==> AllOn(args, lines, d))
  {
    hide Check, Decided;
    CheckAsks(m, d.buildConditions, asked, answers);
    forall c ensures c in m <==> Decided(args, lines, c).Some? { assert Lookup(m, c) == Decided(args, lines, c); }
    forall c | c in m ensures Decided(args, lines, c) == Some(m[c]) { assert Lookup(m, c) == Decided(args, lines, c); }
  }

  lemma {:induction false} LastOfBoth(a: seq<FileLine>, b: seq<FileLine>, c: string)
    ensures LastSays(a + b, c) == if LastSays(b, c).Some? then LastSays(b, c) else LastSays(a, c)
    decreases |b|
  {
    if b == [] {
      assert a + b == a;
    } else {
      var n := |b| - 1;
      assert (a + b)[..|a + b| - 1] == a + b[..n] && (a + b)[|a + b| - 1] == b[n];
      LastOfBoth(a, b[..n], c);
    }
  }

  /** `retrieve` in a project whose own file has these lines. */
  lemma RetrieveSelects(project: Project, own: seq<FileLine>, args: seq<string>, deps: seq<Fields>,
      answers: nat -> bool)
    requires Holds(project.archived, own)
    ensures var (kept, asked) := Filter(RetrieveMap(project, args), deps, answers);
      && (asked == 0 <==> forall c | c in AllConditions(deps) :: Decided(args, own, c).Some?)
      && (asked == 0 ==> kept == Chosen(args, own, deps))
      && (forall d | d in kept :: d in deps && !SomeOff(args, own, d))
      && (forall d | d in deps && AllOn(args, own, d) :: d in kept)
  {
    hide Filter, LastForced, LastSays, Read, Told, Override, Holds, SomeOff, AllOn;
    var m := RetrieveMap(project, args);
    FileRead(project.archived, own, map[]);
    forall c ensures Lookup(m, c) == Decided(args, own, c) {
      OverrideLookup(args, Told(own, map[]), c);
      ToldIsLast(own, map[], c);
    }
    Selects(args, own, m, deps, answers);
  }

  /** `configure` reads the generated file behind the project's own, and none with the override option. */
  lemma ConfigureSelects(project: Project, own: seq<FileLine>, generated: seq<FileLine>, override: bool,
      args: seq<string>, deps: seq<Fields>, answers: nat -> bool)
    requires Holds(project.archived, own) && Holds(project.generated, generated)
    ensures var lines := if override then [] else own + generated;
      var (kept, asked) := Filter(ConfigureMap(project, override, args), deps, answers);
      && (asked == 0 <==> forall c | c in AllConditions(deps) :: Decided(args, lines, c).Some?)
      && (asked == 0 ==> kept == Chosen(args, lines, deps))
      && (forall d | d in kept :: d in deps && !SomeOff(args, lines, d))
      && (forall d | d in deps && AllOn(args, lines, d) :: d in kept)
  {
    hide Filter, LastForced, LastSays, Read, Told, Override, Holds, SomeOff, AllOn;
    var lines := if override then [] else own + generated;
    var m := ConfigureMap(project, override, args);
    FileRead(project.archived, own, map[]);
    FileRead(project.generated, generated, Told(own, map[]));
    forall c ensures Lookup(m, c) == Decided(args, lines, c) {
      ConfigureDecides(project, own, generated, override, args, c);
    }
    Selects(args, lines, m, deps, answers);
  }

  lemma ConfigureDecides(project: Project, own: seq<FileLine>, generated: seq<FileLine>, override: bool,
      args: seq<string>, c: string)
    requires Read(project.archived, map[]) == Told(own, map[])
    requires Read(project.generated, Told(own, map[])) == Told(generated, Told(own, map[]))
    ensures Lookup(ConfigureMap(project, override, args), c)
      == Decided(args, if override then [] else own + generated, c)
  {
    hide LastForced, LastSays, Read, Told, Override;
    if override {
      OverrideLookup(args, map[], c);
      NoLinesSay(c);
    } else {
      OverrideLookup(args, Told(generated, Told(own, map[])), c);
      ToldIsLast(own, map[], c);
      ToldIsLast(generated, Told(own, map[]), c);
      LastOfBoth(own, generated, c);
    }
  }

  lemma NoLinesSay(c: string)
    ensures LastSays([], c) == None
  {
  }

  // ---- every file ---------------------------------------------------------------------------------------

  lemma LineFor(text: string) returns (l: FileLine)
    requires LF !in text
    ensures l.Valid() && l.Source() == text
  {
    hide Split, Spread, DependencyLines.Field.Valid;
    var pieces := Split(text, '=');
    if |pieces| == 2 && (Spread(pieces[0], ON) || Spread(pieces[0], OFF)) {
      var f := DependencyLines.FieldOf(pieces[1]);
      JoinSplit(text, '=');
      JoinTwo(pieces);
      l := Says(Spread(pieces[0], ON), pieces[0], f.before, f.word, f.behind);
      FieldParts(f);
    } else {
      l := Other(text);
      forall key, value | text == key + "=" + value && '=' !in key && '=' !in value
        ensures !Spread(key, ON) && !Spread(key, OFF)
      {
        NoOtherEquals(text, key, value);
      }
    }
  }

  lemma FieldParts(f: DependencyLines.Field)
    requires f.Valid() && '=' !in f.Source()
    ensures IsBlank(f.before) && IsBlank(f.behind) && IsTrimmed(f.word) && '=' !in f.word
  {
    assert forall c | c in f.word :: c in f.Source();
  }

  lemma {:induction false} LinesFor(texts: seq<string>) returns (lines: seq<FileLine>)
    requires forall i | 0 <= i < |texts| :: LF !in texts[i]
    ensures |lines| == |texts| && forall i | 0 <= i < |texts| :: lines[i].Valid() && lines[i].Source() == texts[i]
    decreases |texts|
  {
    hide FileLine.Valid, FileLine.Source;
    if texts == [] {
      lines := [];
    } else {
      var l := LineFor(texts[0]);
      var rest := LinesFor(texts[1..]);
      lines := [l] + rest;
    }
  }

  /** Every file is a file of such lines. */
  lemma LinesOf(file: Option<string>) returns (lines: seq<FileLine>)
    ensures Holds(file, lines)
  {
    hide FileLine.Valid, FileLine.Source, Split;
    match file
    case None => lines := [];
    case Some(text) =>
      var texts := Split(text, LF);
      lines := LinesFor(texts);
      JoinSplit(text, LF);
      LinesJoined(lines, texts);
      forall l | l in lines ensures l.Valid() {
        var i :| 0 <= i < |lines| && lines[i] == l;
      }
  }

  lemma {:induction false} LinesJoined(lines: seq<FileLine>, texts: seq<string>)
    requires |lines| == |texts| > 0 && forall i | 0 <= i < |texts| :: lines[i].Source() == texts[i]
    ensures var n := |lines| - 1; Join(texts, LF) == FileText(lines[..n]) + lines[n].Source()
    decreases |lines|
  {
    hide FileLine.Source;
    var n := |lines| - 1;
    if n == 0 {
      assert lines[..0] == [] && "" + texts[0] == texts[0];
    } else {
      LinesJoined(lines[1..], texts[1..]);
      assert lines[1..][..n - 1] == lines[..n][1..] && lines[1..][n - 1] == lines[n];
      assert texts[0] + [LF] + (FileText(lines[..n][1..]) + texts[n])
        == texts[0] + "\n" + FileText(lines[..n][1..]) + texts[n];
    }
  }
}
