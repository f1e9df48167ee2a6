/** The two conditions files of a project, one archived in its folder and one generated in its build
    platform folder, and the commands that read and write them: when does the next command make the
    same selection without asking again? */
module ProjectConditions {
  import opened XmlUtil
  import opened Text
  import opened Dependencies
  import opened BuildConditions

  /** What is in the two files. No command writes the archived one. */
  datatype Project = Project(archived: Option<string>, generated: Option<string>)

  /** The arguments of the command line applied to a map. */
  function Override(args: seq<string>, m: map<string, bool>): map<string, bool> {
    if args == [] then m
    else
      var before := Override(args[..|args| - 1], m);
      match Forced(args[|args| - 1])
      case None => before
      case Some((c, value)) => before[c := value]
  }

  lemma {:induction false} OverrideLookup(args: seq<string>, m: map<string, bool>, c: string)
    ensures Lookup(Override(args, m), c) == if LastForced(args, c).Some? then LastForced(args, c) else Lookup(m, c)
  {
    hide Forced;
    if args != [] {
      OverrideLookup(args[..|args| - 1], m, c);
    }
  }

  lemma SameLookups(a: map<string, bool>, b: map<string, bool>)
    requires forall c :: Lookup(a, c) == Lookup(b, c)
    ensures a == b
  {
    forall c ensures c in a <==> c in b { assert Lookup(a, c) == Lookup(b, c); }
    forall c | c in a ensures a[c] == b[c] { assert Lookup(a, c) == Lookup(b, c); }
  }

  function Archived(project: Project): map<string, bool> {
    Read(project.archived, map[])
  }

  /** What `retrieve` knows before it asks. */
  function RetrieveMap(project: Project, args: seq<string>): map<string, bool> {
    Override(args, Archived(project))
  }

  /** What `configure` knows before it asks: with the override option no file is read. */
  function ConfigureMap(project: Project, override: bool, args: seq<string>): map<string, bool> {
    Override(args, if override then map[] else Read(project.generated, Archived(project)))
  }

  function WithConditions(deps: seq<Fields>): seq<Fields> {
    if deps == [] then []
    else WithConditions(deps[..|deps| - 1]) + if deps[|deps| - 1].buildConditions != [] then [deps[|deps| - 1]] else []
  }

  // ---- the commands ---------------------------------------------------------------------------

  /** retrieveDependencies, as far as conditions go, over the dependencies of its files in a row. */
  method Retrieve(project: Project, args: seq<string>, deps: seq<Fields>, answers: nat -> bool)
    returns (selected: seq<Fields>, asked: nat, after: Project)
    ensures (selected, asked) == Filter(RetrieveMap(project, args), deps, answers)
    ensures after == project.(generated := Written(WithConditions(selected)))
  {
    hide Read, Filter, Override, Written;
    var fromFile := ParseConditionsFile(project.archived, map[]);
    var m := Force(args, fromFile);
    selected, asked := FilterConditionDependencies(m, deps, answers);
    var conditionsDependencies := [];
    assert selected[..0] == [];
    for i := 0 to |selected|
      invariant conditionsDependencies == WithConditions(selected[..i])
    {
      assert selected[..i + 1][..i] == selected[..i];
      if selected[i].buildConditions != [] {
        conditionsDependencies := conditionsDependencies + [selected[i]];
      }
    }
    assert selected[..|selected|] == selected;
    var file := GenerateConfigureConditionsFile(conditionsDependencies);
    after := project.(generated := file);
  }

  /** ConfigureCommand::execute, as far as conditions go, when it does not stop at its timestamp. */
  method Configure(project: Project, override: bool, args: seq<string>, deps: seq<Fields>, answers: nat -> bool)
    returns (selected: seq<Fields>, asked: nat, after: Project)
    ensures (selected, asked) == Filter(ConfigureMap(project, override, args), deps, answers)
    ensures after == project.(generated := Written(selected))
  {
    hide Read, Filter, Override, Written;
    var conditionsMap := map[];
    if !override {
      conditionsMap := ParseConditionsFile(project.archived, conditionsMap);
      conditionsMap := ParseConditionsFile(project.generated, conditionsMap);
    }
    conditionsMap := Force(args, conditionsMap);
    selected, asked := FilterConditionDependencies(conditionsMap, deps, answers);
    var file := GenerateConfigureConditionsFile(selected);
    after := project.(generated := file);
  }

  method Force(args: seq<string>, conditionsMap: map<string, bool>) returns (m: map<string, bool>)
    ensures m == Override(args, conditionsMap)
  {
    hide LastForced, Override;
    m := ForceConditions(args, conditionsMap);
    forall c ensures Lookup(m, c) == Lookup(Override(args, conditionsMap), c) {
      OverrideLookup(args, conditionsMap, c);
    }
    SameLookups(m, Override(args, conditionsMap));
  }

  // ---- selections ---------------------------------------------------------------------------------

  /** Which of the dependencies are kept. */
  function Choices(m: map<string, bool>, deps: seq<Fields>, answers: nat -> bool): (r: seq<bool>)
    ensures |r| == |deps|
  {
    if deps == [] then []
    else
      var n := |deps| - 1;
      Choices(m, deps[..n], answers) + [Check(m, deps[n].buildConditions, Filter(m, deps[..n], answers).1, answers).0]
  }

  function Pick(deps: seq<Fields>, choices: seq<bool>): (r: seq<Fields>)
    requires |choices| == |deps|
    ensures |r| <= |deps|
  {
    if deps == [] then []
    else
      var n := |deps| - 1;
      Pick(deps[..n], choices[..n]) + if choices[n] then [deps[n]] else []
  }

  lemma {:induction false} FilterPicks(m: map<string, bool>, deps: seq<Fields>, answers: nat -> bool)
    ensures Filter(m, deps, answers).0 == Pick(deps, Choices(m, deps, answers))
  {
    hide Check;
    if deps != [] {
      var n := |deps| - 1;
      FilterPicks(m, deps[..n], answers);
      assert Choices(m, deps, answers)[..n] == Choices(m, deps[..n], answers);
    }
  }

  /** Choosing more keeps more, and the same only if nothing more is chosen. */
  lemma {:induction false} PickMore(deps: seq<Fields>, a: seq<bool>, b: seq<bool>)
    requires |a| == |b| == |deps| && forall i | 0 <= i < |deps| :: a[i] ==> b[i]
    ensures |Pick(deps, a)| <= |Pick(deps, b)|
    ensures |Pick(deps, a)| == |Pick(deps, b)| <==> a == b
  {
    if deps != [] {
      var n := |deps| - 1;
      PickMore(deps[..n], a[..n], b[..n]);
      assert a == a[..n] + [a[n]] && b == b[..n] + [b[n]];
    }
  }

  predicate AllTrue(m: map<string, bool>, d: Fields) {
    forall c | c in d.buildConditions :: c in m && m[c]
  }

  /** Where the map knows every condition, the user is not asked, and the map decides. */
  lemma {:induction false} KnownChoices(m: map<string, bool>, deps: seq<Fields>, answers: nat -> bool)
    requires forall c | c in AllConditions(deps) :: c in m
    ensures forall i | 0 <= i < |deps| :: Choices(m, deps, answers)[i] == AllTrue(m, deps[i])
  {
    hide Check, Filter;
    if deps != [] {
      var n := |deps| - 1;
      var asked := Filter(m, deps[..n], answers).1;
      assert deps == deps[..n] + [deps[n]];
      ConditionsSnoc(deps[..n], deps[n]);
      KnownChoices(m, deps[..n], answers);
      CheckAsks(m, deps[n].buildConditions, asked, answers);
      assert forall c | c in deps[n].buildConditions :: c in m;
    }
  }

  /** How often the user is asked does not depend on the answers. */
  lemma {:induction false} SamePrompts(m: map<string, bool>, deps: seq<Fields>,
      answers: nat -> bool, answers': nat -> bool)
    ensures Filter(m, deps, answers).1 == Filter(m, deps, answers').1
  {
    hide Check;
    if deps != [] {
      var n := |deps| - 1;
      SamePrompts(m, deps[..n], answers, answers');
      CheckMeans(m, deps[n].buildConditions, Filter(m, deps[..n], answers).1, answers);
      CheckMeans(m, deps[n].buildConditions, Filter(m, deps[..n], answers).1, answers');
    }
  }

  lemma {:induction false} ConditionsOf(deps: seq<Fields>, i: nat, c: string)
    requires i < |deps| && c in deps[i].buildConditions
    ensures c in AllConditions(deps)
  {
    if i > 0 {
      ConditionsOf(deps[1..], i - 1, c);
    }
  }

  lemma {:induction false} ConditionFrom(deps: seq<Fields>, c: string) returns (i: nat)
    requires c in AllConditions(deps)
    ensures i < |deps| && c in deps[i].buildConditions
  {
    if c in deps[0].buildConditions {
      i := 0;
    } else {
      var k := ConditionFrom(deps[1..], c);
      i := k + 1;
    }
  }

  // ---- retrieving again -----------------------------------------------------------------------------

  /** `retrieve` does not read the file it writes, so the next one asks the same number of times. It
      makes the same selection without asking exactly when the first did not have to ask, which is
      when the archived file or the command line decides every condition. */
  lemma RetrieveAgain(project: Project, args: seq<string>, deps: seq<Fields>, generated: Option<string>,
      answers: nat -> bool, answers': nat -> bool)
    ensures var first := Filter(RetrieveMap(project, args), deps, answers);
      var second := Filter(RetrieveMap(project.(generated := generated), args), deps, answers');
      && second.1 == first.1 && (second == (first.0, 0) <==> first.1 == 0)
      && (first.1 == 0 <==> forall c | c in AllConditions(deps) :: LastForced(args, c).Some? || c in Archived(project))
  {
    hide Filter, LastForced, Override, Read;
    var m := RetrieveMap(project, args);
    SamePrompts(m, deps, answers, answers');
    FilterAsks(m, deps, answers);
    forall c ensures c in m <==> LastForced(args, c).Some? || c in Archived(project) {
      OverrideLookup(args, Archived(project), c);
    }
    if Filter(m, deps, answers).1 == 0 {
      FilterPicks(m, deps, answers);
      FilterPicks(m, deps, answers');
      KnownChoices(m, deps, answers);
      KnownChoices(m, deps, answers');
      assert Choices(m, deps, answers) == Choices(m, deps, answers');
    }
  }

  // ---- configuring after a selection ------------------------------------------------------------------

  /** `configure` knows c after a selection was made and its conditions were written. */
  ghost predicate Known(project: Project, args: seq<string>, selected: seq<Fields>, c: string) {
    LastForced(args, c).Some? || c in Stored(AllConditions(selected)) || c in Archived(project)
  }

  /** And it knows it to be false. */
  ghost predicate KnownFalse(project: Project, args: seq<string>, selected: seq<Fields>, c: string) {
    match LastForced(args, c)
    case Some(value) => !value
    case None => c !in Stored(AllConditions(selected)) && c in Archived(project) && !Archived(project)[c]
  }

  /** Conditions of one line each, as every line of a dependency file gives them. */
  predicate OneLine(deps: seq<Fields>) {
    forall c | c in AllConditions(deps) :: LF !in c
  }

  /** The map of a `configure` that finds the conditions of a selection. */
  lemma NextMap(project: Project, args: seq<string>, selected: seq<Fields>, written: seq<Fields>, c: string)
    requires AllConditions(written) == AllConditions(selected) && OneLine(selected)
    ensures var m := ConfigureMap(project.(generated := Written(written)), false, args);
      (c in m <==> Known(project, args, selected, c)) && (c in m && !m[c] <==> KnownFalse(project, args, selected, c))
  {
    hide LastForced, Override, ReadLines, Split, Lines, Trim;
    var cs, before := AllConditions(selected), Archived(project);
    var fromFiles := Read(Written(written), before);
    if written != [] {
      StoredRead(cs, before);
    }
    assert fromFiles == before + map x | x in Stored(cs) :: true;
    OverrideLookup(args, fromFiles, c);
  }

  /** The dependencies without a condition that is known to be false. */
  ghost function WithoutFalse(project: Project, args: seq<string>, selected: seq<Fields>,
      deps: seq<Fields>): seq<Fields> {
    if deps == [] then []
    else
      var front, last := deps[..|deps| - 1], deps[|deps| - 1];
      WithoutFalse(project, args, selected, front) +
      if exists c | c in last.buildConditions :: KnownFalse(project, args, selected, c) then [] else [last]
  }

  /** A selection was made and written. The next `configure`, over any dependencies, does not ask
      exactly when every condition of theirs is on the command line, in the archived file, or stored
      from a selected dependency; and then it keeps exactly those without a condition known to be
      false. */
  lemma NextConfigure(project: Project, args: seq<string>, selected: seq<Fields>, written: seq<Fields>,
      deps: seq<Fields>, answers: nat -> bool)
    requires AllConditions(written) == AllConditions(selected) && OneLine(selected)
    ensures var next := Filter(ConfigureMap(project.(generated := Written(written)), false, args), deps, answers);
      && (next.1 == 0 <==> forall c | c in AllConditions(deps) :: Known(project, args, selected, c))
      && (next.1 == 0 ==> next.0 == WithoutFalse(project, args, selected, deps))
  {
    hide Filter, LastForced, ConfigureMap, OneLine, KnownFalse, Known;
    var m' := ConfigureMap(project.(generated := Written(written)), false, args);
    forall c
      ensures c in m' <==> Known(project, args, selected, c)
      ensures c in m' && !m'[c] <==> KnownFalse(project, args, selected, c)
    {
      NextMap(project, args, selected, written, c);
    }
    FilterAsks(m', deps, answers);
    if Filter(m', deps, answers).1 == 0 {
      KnownFilter(project, args, selected, m', deps, answers);
    }
  }

  lemma {:induction false} KnownFilter(project: Project, args: seq<string>, selected: seq<Fields>, m: map<string, bool>,
      deps: seq<Fields>, answers: nat -> bool)
    requires forall c | c in AllConditions(deps) :: c in m
    requires forall c :: c in m && !m[c] <==> KnownFalse(project, args, selected, c)
    ensures Filter(m, deps, answers) == (WithoutFalse(project, args, selected, deps), 0)
  {
    hide Check, KnownFalse;
    if deps != [] {
      var front, last := deps[..|deps| - 1], deps[|deps| - 1];
      assert deps == front + [last];
      ConditionsSnoc(front, last);
      KnownFilter(project, args, selected, m, front, answers);
      CheckAsks(m, last.buildConditions, 0, answers);
      assert forall c | c in last.buildConditions :: c in AllConditions(deps) && c in m;
      var out := exists c | c in last.buildConditions :: KnownFalse(project, args, selected, c);
      assert Check(m, last.buildConditions, 0, answers) == (!out, 0);
      var kept := WithoutFalse(project, args, selected, front);
      assert WithoutFalse(project, args, selected, deps) == if out then kept else kept + [last];
    }
  }

  /** The map m made the selection from the same dependencies, under the same command line. If the next
      `configure` does not ask, it makes the same selection exactly when each dependency that was not
      selected has a condition known to be false. */
  lemma ConfigureAfter(project: Project, args: seq<string>, deps: seq<Fields>, m: map<string, bool>,
      written: seq<Fields>, answers: nat -> bool, answers': nat -> bool)
    requires forall c | LastForced(args, c).Some? :: Lookup(m, c) == LastForced(args, c)
    requires AllConditions(written) == AllConditions(Filter(m, deps, answers).0)
    requires OneLine(written)
    ensures var selected := Filter(m, deps, answers).0;
      var next := Filter(ConfigureMap(project.(generated := Written(written)), false, args), deps, answers');
      && (next.1 == 0 <==> forall c | c in AllConditions(deps) :: Known(project, args, selected, c))
      && (next.1 == 0 ==>
           (next.0 == selected <==> DroppedForGood(project, args, deps, selected, Choices(m, deps, answers))))
  {
    hide Filter, LastForced, ConfigureMap, OneLine, KnownFalse, Known, Choices, Pick, AllTrue, Lookup, Archived;
    var selected := Filter(m, deps, answers).0;
    var m' := ConfigureMap(project.(generated := Written(written)), false, args);
    SameLines(selected, written);
    forall c
      ensures c in m' <==> Known(project, args, selected, c)
      ensures c in m' && !m'[c] <==> KnownFalse(project, args, selected, c)
    {
      NextMap(project, args, selected, written, c);
    }
    FilterAsks(m', deps, answers');
    if Filter(m', deps, answers').1 == 0 {
      var a, b := Choices(m, deps, answers), Choices(m', deps, answers');
      FilterPicks(m, deps, answers);
      FilterPicks(m', deps, answers');
      KnownChoices(m', deps, answers');
      forall i | 0 <= i < |deps| && a[i] ensures b[i] {
        SelectedStays(project, args, deps, m, answers, m', i);
      }
      PickMore(deps, a, b);
      forall i | 0 <= i < |deps|
        ensures b[i] <==> forall c | c in deps[i].buildConditions :: !KnownFalse(project, args, selected, c)
      {
        DecidedByMap(project, args, deps, selected, m', i);
      }
    }
  }

  lemma SameLines(a: seq<Fields>, b: seq<Fields>)
    requires AllConditions(a) == AllConditions(b) && OneLine(b)
    ensures OneLine(a)
  {
  }

  /** What a file says of a condition, it says of a plain one. */
  lemma ArchivedPlain(project: Project, c: string)
    requires c in Archived(project)
    ensures IsPlain(c)
  {
    hide Split, ReadLines, Trim;
    if project.archived.Some? {
      KeysPlain(Split(project.archived.value, LF), map[]);
    }
  }

  lemma PlainIsStored(conditions: seq<string>, c: string)
    requires c in conditions && IsPlain(c)
    ensures c in Stored(conditions)
  {
    hide TrimLeft, TrimRight;
    assert Trim(c) == c;
  }

  /** Each dependency was selected or has a condition that is known to be false. */
  ghost predicate DroppedForGood(project: Project, args: seq<string>, deps: seq<Fields>, selected: seq<Fields>,
      choices: seq<bool>)
    requires |choices| == |deps|
  {
    forall i | 0 <= i < |deps| ::
      choices[i] || exists c | c in deps[i].buildConditions :: KnownFalse(project, args, selected, c)
  }

  lemma DecidedByMap(project: Project, args: seq<string>, deps: seq<Fields>, selected: seq<Fields>,
      m': map<string, bool>, i: nat)
    requires i < |deps| && forall c | c in AllConditions(deps) :: c in m'
    requires forall c :: c in m' && !m'[c] <==> KnownFalse(project, args, selected, c)
    ensures AllTrue(m', deps[i]) <==> forall c | c in deps[i].buildConditions :: !KnownFalse(project, args, selected, c)
  {
    hide KnownFalse;
    forall c | c in deps[i].buildConditions ensures c in m' { ConditionsOf(deps, i, c); }
  }

  /** A selected dependency has no condition that the next map has as false. */
  lemma SelectedStays(project: Project, args: seq<string>, deps: seq<Fields>, m: map<string, bool>,
      answers: nat -> bool, m': map<string, bool>, i: nat)
    requires forall c | LastForced(args, c).Some? :: Lookup(m, c) == LastForced(args, c)
    requires i < |deps| && Choices(m, deps, answers)[i] && forall c | c in AllConditions(deps) :: c in m'
    requires var selected := Filter(m, deps, answers).0;
      forall c :: c in m' && !m'[c] <==> KnownFalse(project, args, selected, c)
    ensures AllTrue(m', deps[i])
  {
    hide Filter, LastForced, Choices, Stored, IsPlain;
    var selected := Filter(m, deps, answers).0;
    forall c | c in deps[i].buildConditions ensures c in m' && m'[c] {
      ConditionsOf(deps, i, c);
      ChosenIsNotFalse(m, deps, answers, i, c);
      ChosenIsKept(m, deps, answers, i, c);
      if c in Archived(project) {
        ArchivedPlain(project, c);
        PlainIsStored(AllConditions(selected), c);
      }
    }
  }

  lemma {:induction false} ChosenIsNotFalse(m: map<string, bool>, deps: seq<Fields>,
      answers: nat -> bool, i: nat, c: string)
    requires i < |deps| && Choices(m, deps, answers)[i] && c in deps[i].buildConditions
    ensures Lookup(m, c) != Some(false)
  {
    hide Check, Filter;
    var n := |deps| - 1;
    if i < n {
      ChosenIsNotFalse(m, deps[..n], answers, i, c);
    } else {
      CheckAsks(m, deps[n].buildConditions, Filter(m, deps[..n], answers).1, answers);
    }
  }

  lemma {:induction false} ChosenIsKept(m: map<string, bool>, deps: seq<Fields>,
      answers: nat -> bool, i: nat, c: string)
    requires i < |deps| && Choices(m, deps, answers)[i] && c in deps[i].buildConditions
    ensures c in AllConditions(Filter(m, deps, answers).0)
  {
    hide Check;
    var n := |deps| - 1;
    var before := Filter(m, deps[..n], answers).0;
    if Filter(m, deps, answers).0 != before { ConditionsSnoc(before, deps[n]); }
    if i < n {
      ChosenIsKept(m, deps[..n], answers, i, c);
    }
  }

  /** One `configure` after another. */
  lemma ConfigureAgain(project: Project, override: bool, args: seq<string>, deps: seq<Fields>,
      answers: nat -> bool, answers': nat -> bool)
    requires OneLine(deps)
    ensures var m := ConfigureMap(project, override, args);
      var selected := Filter(m, deps, answers).0;
      var next := Filter(ConfigureMap(project.(generated := Written(selected)), false, args), deps, answers');
      && (next.1 == 0 <==> forall c | c in AllConditions(deps) :: Known(project, args, selected, c))
      && (next.1 == 0 ==>
           (next.0 == selected <==> DroppedForGood(project, args, deps, selected, Choices(m, deps, answers))))
  {
    hide Filter, Override, OneLine, Known, DroppedForGood, Choices, LastForced, Read;
    var m := ConfigureMap(project, override, args);
    forall c ensures LastForced(args, c).Some? ==> Lookup(m, c) == LastForced(args, c) {
      OverrideLookup(args, if override then map[] else Read(project.generated, Archived(project)), c);
    }
    SelectedOneLine(m, deps, answers);
    ConfigureAfter(project, args, deps, m, Filter(m, deps, answers).0, answers, answers');
  }

  /** `configure` after a `retrieve`. It filters the dependencies of nested packages too (`all`), whose
      conditions `retrieve` has written to their own folders; of `deps`, the project's own, it has what
      `retrieve` selected. */
  lemma ConfigureAfterRetrieve(project: Project, args: seq<string>, deps: seq<Fields>, all: seq<Fields>,
      answers: nat -> bool, answers': nat -> bool)
    requires OneLine(deps)
    ensures var selected := Filter(RetrieveMap(project, args), deps, answers).0;
      var m' := ConfigureMap(project.(generated := Written(WithConditions(selected))), false, args);
      var next := Filter(m', all, answers');
      && (next.1 == 0 <==> forall c | c in AllConditions(all) :: Known(project, args, selected, c))
      && (next.1 == 0 ==> next.0 == WithoutFalse(project, args, selected, all))
      && (next.1 == 0 && all == deps ==>
           var choices := Choices(RetrieveMap(project, args), deps, answers);
           (next.0 == selected <==> DroppedForGood(project, args, deps, selected, choices)))
  {
    hide Filter, Override, OneLine, Known, DroppedForGood, Choices, LastForced, Read, WithoutFalse;
    var m := RetrieveMap(project, args);
    var selected := Filter(m, deps, answers).0;
    forall c ensures LastForced(args, c).Some? ==> Lookup(m, c) == LastForced(args, c) {
      OverrideLookup(args, Archived(project), c);
    }
    NoConditionsLost(selected);
    SelectedOneLine(m, deps, answers);
    SameLines(WithConditions(selected), selected);
    NextConfigure(project, args, selected, WithConditions(selected), all, answers');
    if all == deps {
      ConfigureAfter(project, args, deps, m, WithConditions(selected), answers, answers');
    }
  }

  lemma {:induction false} SelectedOneLine(m: map<string, bool>, deps: seq<Fields>, answers: nat -> bool)
    requires OneLine(deps)
    ensures OneLine(Filter(m, deps, answers).0)
  {
    hide Check;
    if deps != [] {
      var front, last := deps[..|deps| - 1], deps[|deps| - 1];
      assert deps == front + [last];
      ConditionsSnoc(front, last);
      SelectedOneLine(m, front, answers);
      ConditionsSnoc(Filter(m, front, answers).0, last);
    }
  }

  lemma {:induction false} NoConditionsLost(deps: seq<Fields>)
    ensures AllConditions(WithConditions(deps)) == AllConditions(deps)
  {
    if deps != [] {
      var front, last := deps[..|deps| - 1], deps[|deps| - 1];
      NoConditionsLost(front);
      assert deps == front + [last];
      ConditionsSnoc(front, last);
      if last.buildConditions != [] {
        ConditionsSnoc(WithConditions(front), last);
      } else {
        assert WithConditions(deps) == WithConditions(front) && AllConditions(deps) == AllConditions(front);
      }
    }
  }

  // ---- the command line on a selection --------------------------------------------------------------------

  /** The dependencies without a condition that the command line says is false. */
  function NotForcedOff(args: seq<string>, deps: seq<Fields>): seq<Fields> {
    if deps == [] then []
    else NotForcedOff(args, deps[..|deps| - 1]) + if ForcedOff(args, deps[|deps| - 1]) then [] else [deps[|deps| - 1]]
  }

  predicate ForcedOff(args: seq<string>, d: Fields) {
    exists c | c in d.buildConditions :: LastForced(args, c) == Some(false)
  }

  lemma {:induction false} ForcedOffFilter(m: map<string, bool>, args: seq<string>, deps: seq<Fields>,
      answers: nat -> bool)
    requires forall c | c in AllConditions(deps) :: Lookup(m, c) == Some(LastForced(args, c) != Some(false))
    ensures Filter(m, deps, answers) == (NotForcedOff(args, deps), 0)
  {
    hide Check, LastForced;
    if deps != [] {
      var front, last := deps[..|deps| - 1], deps[|deps| - 1];
      assert deps == front + [last];
      ConditionsSnoc(front, last);
      ForcedOffFilter(m, args, front, answers);
      CheckAsks(m, last.buildConditions, 0, answers);
      forall c | c in last.buildConditions ensures c in m && (m[c] <==> LastForced(args, c) != Some(false)) {
        assert c in AllConditions(deps);
        assert Lookup(m, c) == Some(LastForced(args, c) != Some(false));
      }
      assert Check(m, last.buildConditions, 0, answers) == (!ForcedOff(args, last), 0);
      var kept := NotForcedOff(args, front);
      assert NotForcedOff(args, deps) == if ForcedOff(args, last) then kept else kept + [last];
    }
  }

  /** A selection whose conditions were written, configured again with other arguments: nothing is
      asked, and exactly the dependencies with a condition forced to false are dropped, whatever the
      archived file says. */
  method Reconfigure(project: Project, selected: seq<Fields>, args: seq<string>, answers: nat -> bool)
    returns (filtered: seq<Fields>, asked: nat, after: Project)
    ensures (forall c | c in AllConditions(selected) :: IsPlain(c)) ==>
      filtered == NotForcedOff(args, selected) && asked == 0
    ensures after == project.(generated := Written(filtered))
  {
    hide Filter, IsPlain, ConfigureMap, Written, NotForcedOff;
    var file := GenerateConfigureConditionsFile(selected);
    filtered, asked, after := Configure(project.(generated := file), false, args, selected, answers);
    if forall c | c in AllConditions(selected) :: IsPlain(c) {
      SelectionForced(project, selected, args, answers);
    }
  }

  lemma SelectionForced(project: Project, selected: seq<Fields>, args: seq<string>, answers: nat -> bool)
    requires forall c | c in AllConditions(selected) :: IsPlain(c)
    ensures Filter(ConfigureMap(project.(generated := Written(selected)), false, args), selected, answers)
         == (NotForcedOff(args, selected), 0)
  {
    hide Filter, IsPlain, ConfigureMap, LastForced, NotForcedOff, Stored;
    PlainStored(AllConditions(selected));
    PlainOneLine(selected);
    var m := ConfigureMap(project.(generated := Written(selected)), false, args);
    forall c | c in AllConditions(selected) ensures Lookup(m, c) == Some(LastForced(args, c) != Some(false)) {
      NextMap(project, args, selected, selected, c);
    }
    ForcedOffFilter(m, args, selected, answers);
  }

  lemma PlainOneLine(deps: seq<Fields>)
    requires forall c | c in AllConditions(deps) :: IsPlain(c)
    ensures OneLine(deps)
  {
  }
}
