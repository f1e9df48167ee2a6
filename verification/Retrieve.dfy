/** Retrieving dependencies: the recursion over the dependency files of packages, against the graph
    that the files describe. */
module Retrieve {

  type Folder = string

  /** packagedependencies and extra-packages. */
  datatype FileType = PACKAGE | EXTRA_DEPS

  /** A dependency: where it is installed, and whether it is a remaken package, with files of its own. */
  datatype Dep = Dep(folder: Folder, remaken: bool)

  /** The files of one kind in one folder: the common one and the platform's. */
  datatype Node = Node(folder: Folder, kind: FileType)

  datatype FileId = FileId(node: Node, platform: bool)

  /** What parsing and filtering the files gives. */
  type Files = map<FileId, seq<Dep>>

  function InFile(files: Files, f: FileId): seq<Dep> {
    if f in files then files[f] else []
  }

  /** getChildrenDependencies, and the loop over the files it finds. */
  function Listed(files: Files, n: Node): seq<Dep> {
    InFile(files, FileId(n, false)) + InFile(files, FileId(n, true))
  }

  // ---- the graph -------------------------------------------------------------------------

  /** A package found in a's files leads to its extra-packages, and to its packagedependencies if it
      was found in packagedependencies. */
  ghost predicate Edge(files: Files, a: Node, b: Node) {
    exists d | d in Listed(files, a) :: d.remaken && b.folder == d.folder && (b.kind == EXTRA_DEPS || a.kind == PACKAGE)
  }

  ghost predicate IsPath(files: Files, p: seq<Node>) {
    p != [] && forall i | 0 <= i < |p| - 1 :: Edge(files, p[i], p[i + 1])
  }

  ghost predicate Reaches(files: Files, a: Node, b: Node) {
    exists p: seq<Node> :: IsPath(files, p) && p[0] == a && p[|p| - 1] == b
  }

  /** No package depends on itself: ranks fall along every edge. */
  ghost predicate Acyclic(files: Files, rank: Node -> nat) {
    forall a, b | Edge(files, a, b) :: rank(b) < rank(a)
  }

  lemma ReachesSelf(files: Files, a: Node)
    ensures Reaches(files, a, a)
  {
    var p := [a];
    assert IsPath(files, p) && p[0] == a && p[|p| - 1] == a;
  }

  lemma ReachesStep(files: Files, a: Node, b: Node, c: Node)
    requires Edge(files, a, b) && Reaches(files, b, c)
    ensures Reaches(files, a, c)
  {
    var p: seq<Node> :| IsPath(files, p) && p[0] == b && p[|p| - 1] == c;
    var q := [a] + p;
    forall i | 0 <= i < |q| - 1 ensures Edge(files, q[i], q[i + 1]) {
      if i > 0 { assert q[i] == p[i - 1] && q[i + 1] == p[i]; }
    }
    assert IsPath(files, q) && q[0] == a && q[|q| - 1] == c;
  }

  lemma ReachesFirst(files: Files, a: Node, c: Node) returns (b: Node)
    requires Reaches(files, a, c) && a != c
    ensures Edge(files, a, b) && Reaches(files, b, c)
  {
    var p: seq<Node> :| IsPath(files, p) && p[0] == a && p[|p| - 1] == c;
    b := p[1];
    var q := p[1..];
    assert Edge(files, p[0], p[1]);
    forall i | 0 <= i < |q| - 1 ensures Edge(files, q[i], q[i + 1]) {
      assert q[i] == p[i + 1] && q[i + 1] == p[i + 2] && Edge(files, p[i + 1], p[i + 2]);
    }
    assert IsPath(files, q) && q[0] == b && q[|q| - 1] == c;
  }

  // ---- the recursion -----------------------------------------------------------------------

  /** The call retrieveDependency( dep, type ). */
  datatype Visit = Visit(dep: Dep, kind: FileType)

  lemma Leads(files: Files, a: Node, i: nat)
    requires i < |Listed(files, a)| && Listed(files, a)[i].remaken
    ensures var f := Listed(files, a)[i].folder;
      Edge(files, a, Node(f, EXTRA_DEPS)) && (a.kind == PACKAGE ==> Edge(files, a, Node(f, PACKAGE)))
  {
    assert Listed(files, a)[i] in Listed(files, a);
  }

  /** The visits of the first n dependencies of a, with what they lead to. */
  ghost function Visits(files: Files, rank: Node -> nat, a: Node, n: nat): seq<Visit>
    requires Acyclic(files, rank) && n <= |Listed(files, a)|
    decreases rank(a), n
  {
    if n == 0 then [] else Visits(files, rank, a, n - 1) + VisitsOf(files, rank, a, n - 1)
  }

  ghost function VisitsOf(files: Files, rank: Node -> nat, a: Node, i: nat): seq<Visit>
    requires Acyclic(files, rank) && i < |Listed(files, a)|
    decreases rank(a), i
  {
    var d := Listed(files, a)[i];
    if !d.remaken then [Visit(d, a.kind)]
    else
      Leads(files, a, i);
      [Visit(d, a.kind)] + AllVisits(files, rank, Node(d.folder, EXTRA_DEPS))
      + if a.kind == PACKAGE then AllVisits(files, rank, Node(d.folder, PACKAGE)) else []
  }

  ghost function AllVisits(files: Files, rank: Node -> nat, a: Node): seq<Visit>
    requires Acyclic(files, rank)
    decreases rank(a), |Listed(files, a)| + 1
  {
    Visits(files, rank, a, |Listed(files, a)|)
  }

  /** The visits below a are the dependencies listed by what a reaches. */
  lemma {:induction false} VisitsReachable(files: Files, rank: Node -> nat, a: Node, v: Visit)
    requires Acyclic(files, rank)
    ensures v in AllVisits(files, rank, a) <==>
      exists b :: Reaches(files, a, b) && b.kind == v.kind && v.dep in Listed(files, b)
    decreases rank(a)
  {
    hide Edge, Reaches;
    if v in AllVisits(files, rank, a) {
      var i := VisitedBy(files, rank, a, |Listed(files, a)|, v);
      FoundBelow(files, rank, a, i, v);
    }
    if b :| Reaches(files, a, b) && b.kind == v.kind && v.dep in Listed(files, b) {
      if b == a {
        var i :| 0 <= i < |Listed(files, a)| && Listed(files, a)[i] == v.dep;
        VisitsInclude(files, rank, a, |Listed(files, a)|, i, v);
      } else {
        var c := ReachesFirst(files, a, b);
        VisitsReachable(files, rank, c, v);
        LeadsBack(files, rank, a, c, v);
      }
    }
  }

  lemma {:induction false} VisitedBy(files: Files, rank: Node -> nat, a: Node, n: nat, v: Visit) returns (i: nat)
    requires Acyclic(files, rank) && n <= |Listed(files, a)| && v in Visits(files, rank, a, n)
    ensures i < |Listed(files, a)| && v in VisitsOf(files, rank, a, i)
    decreases n
  {
    if v in VisitsOf(files, rank, a, n - 1) {
      i := n - 1;
    } else {
      i := VisitedBy(files, rank, a, n - 1, v);
    }
  }

  lemma {:induction false} VisitsInclude(files: Files, rank: Node -> nat, a: Node, n: nat, i: nat, v: Visit)
    requires Acyclic(files, rank) && i < n <= |Listed(files, a)| && v in VisitsOf(files, rank, a, i)
    ensures v in Visits(files, rank, a, n)
    decreases n
  {
    if i < n - 1 {
      VisitsInclude(files, rank, a, n - 1, i, v);
    }
  }

  lemma FoundBelow(files: Files, rank: Node -> nat, a: Node, i: nat, v: Visit)
    requires Acyclic(files, rank) && i < |Listed(files, a)| && v in VisitsOf(files, rank, a, i)
    ensures exists b :: Reaches(files, a, b) && b.kind == v.kind && v.dep in Listed(files, b)
    decreases rank(a), 0
  {
    hide Edge, Reaches;
    var d := Listed(files, a)[i];
    if v == Visit(d, a.kind) {
      ReachesSelf(files, a);
    } else {
      Leads(files, a, i);
      var c := Node(d.folder, if v in AllVisits(files, rank, Node(d.folder, EXTRA_DEPS)) then EXTRA_DEPS else PACKAGE);
      VisitsReachable(files, rank, c, v);
      var b :| Reaches(files, c, b) && b.kind == v.kind && v.dep in Listed(files, b);
      ReachesStep(files, a, c, b);
    }
  }

  lemma LeadsBack(files: Files, rank: Node -> nat, a: Node, c: Node, v: Visit)
    requires Acyclic(files, rank) && Edge(files, a, c) && v in AllVisits(files, rank, c)
    ensures v in AllVisits(files, rank, a)
  {
    var d :| d in Listed(files, a) && d.remaken && c.folder == d.folder && (c.kind == EXTRA_DEPS || a.kind == PACKAGE);
    var i :| 0 <= i < |Listed(files, a)| && Listed(files, a)[i] == d;
    assert c == Node(d.folder, c.kind);
    VisitsInclude(files, rank, a, |Listed(files, a)|, i, v);
  }

  // ---- the order of the visits ------------------------------------------------------------------

  /** One way down: which file of a folder, the common one or the platform's, and which dependency of it. */
  datatype Step = Step(kind: FileType, platform: bool, index: nat)

  ghost predicate There(files: Files, folder: Folder, s: Step) {
    s.index < |InFile(files, FileId(Node(folder, s.kind), s.platform))|
  }

  ghost function DepAt(files: Files, folder: Folder, s: Step): Dep
    requires There(files, folder, s)
  {
    InFile(files, FileId(Node(folder, s.kind), s.platform))[s.index]
  }

  /** A way from a folder to a dependency, through the files of the remaken packages passed. Those found in
      extra-packages have no packagedependencies to go on with. */
  ghost predicate IsWay(files: Files, folder: Folder, way: seq<Step>)
    decreases way
  {
    way != [] && There(files, folder, way[0]) &&
    var d := DepAt(files, folder, way[0]);
    |way| > 1 ==> d.remaken && (way[1].kind == PACKAGE ==> way[0].kind == PACKAGE) && IsWay(files, d.folder, way[1..])
  }

  ghost function VisitAt(files: Files, folder: Folder, way: seq<Step>): Visit
    requires IsWay(files, folder, way)
    decreases way
  {
    var d := DepAt(files, folder, way[0]);
    if |way| == 1 then Visit(d, way[0].kind) else VisitAt(files, d.folder, way[1..])
  }

  /** Extra packages before the others, the common file before the platform's, and each file from its first
      dependency on. */
  predicate Sooner(s: Step, t: Step) {
    || (s.kind == EXTRA_DEPS && t.kind == PACKAGE)
    || (s.kind == t.kind && !s.platform && t.platform)
    || (s.kind == t.kind && s.platform == t.platform && s.index < t.index)
  }

  /** What leads to a dependency comes before it, and otherwise the first step that differs decides. */
  ghost predicate Earlier(a: seq<Step>, b: seq<Step>) {
    b != [] && (a == [] || Sooner(a[0], b[0]) || (a[0] == b[0] && Earlier(a[1..], b[1..])))
  }

  ghost predicate InOrder(ways: seq<seq<Step>>) {
    forall i, j | 0 <= i < j < |ways| :: Earlier(ways[i], ways[j])
  }

  ghost predicate Begins(files: Files, folder: Folder, steps: iset<Step>, way: seq<Step>) {
    IsWay(files, folder, way) && way[0] in steps
  }

  ghost predicate AreWays(files: Files, folder: Folder, steps: iset<Step>, ways: seq<seq<Step>>) {
    forall way :: way in ways <==> Begins(files, folder, steps, way)
  }

  /** The visits at the ways. */
  ghost predicate Along(files: Files, folder: Folder, ways: seq<seq<Step>>, vs: seq<Visit>) {
    && |ways| == |vs|
    && forall j | 0 <= j < |ways| :: IsWay(files, folder, ways[j]) && vs[j] == VisitAt(files, folder, ways[j])
  }

  /** The visits vs are those at the ways, which are all that begin with one of the steps, in order. */
  ghost predicate Ordered(files: Files, folder: Folder, steps: iset<Step>, ways: seq<seq<Step>>, vs: seq<Visit>) {
    InOrder(ways) && Along(files, folder, ways, vs) && AreWays(files, folder, steps, ways)
  }

  /** First the ones and then the others. */
  lemma OrderedConcat(files: Files, folder: Folder, steps: iset<Step>, ways: seq<seq<Step>>, vs: seq<Visit>,
      steps': iset<Step>, ways': seq<seq<Step>>, vs': seq<Visit>)
    requires Ordered(files, folder, steps, ways, vs) && Ordered(files, folder, steps', ways', vs')
    requires forall s, t | s in steps && t in steps' :: Sooner(s, t)
    ensures Ordered(files, folder, steps + steps', ways + ways', vs + vs')
  {
    hide InOrder, Along, AreWays, Begins;
    WaysConcat(files, folder, steps, ways, steps', ways');
    AlongConcat(files, folder, ways, vs, ways', vs');
    InOrderConcat(files, folder, steps, ways, steps', ways');
  }

  lemma WaysConcat(files: Files, folder: Folder, steps: iset<Step>, ways: seq<seq<Step>>,
      steps': iset<Step>, ways': seq<seq<Step>>)
    requires AreWays(files, folder, steps, ways) && AreWays(files, folder, steps', ways')
    ensures AreWays(files, folder, steps + steps', ways + ways')
  {
    hide IsWay;
    assert forall way :: way in ways + ways' <==> way in ways || way in ways';
  }

  lemma AlongConcat(files: Files, folder: Folder, ways: seq<seq<Step>>, vs: seq<Visit>, ways': seq<seq<Step>>,
      vs': seq<Visit>)
    requires Along(files, folder, ways, vs) && Along(files, folder, ways', vs')
    ensures Along(files, folder, ways + ways', vs + vs')
  {
    hide IsWay, VisitAt;
  }

  lemma InOrderConcat(files: Files, folder: Folder, steps: iset<Step>, ways: seq<seq<Step>>,
      steps': iset<Step>, ways': seq<seq<Step>>)
    requires InOrder(ways) && InOrder(ways')
    requires AreWays(files, folder, steps, ways) && AreWays(files, folder, steps', ways')
    requires forall s, t | s in steps && t in steps' :: Sooner(s, t)
    ensures InOrder(ways + ways')
  {
    hide IsWay, Earlier;
    var all := ways + ways';
    forall i, j | 0 <= i < j < |all| ensures Earlier(all[i], all[j]) {
      if i < |ways| <= j {
        assert ways[i] in ways && ways'[j - |ways|] in ways';
        SoonerEarlier(files, folder, ways[i], ways'[j - |ways|], steps, steps');
      } else if |ways| <= i {
        assert Earlier(ways'[i - |ways|], ways'[j - |ways|]);
      }
    }
  }

  lemma SoonerEarlier(files: Files, folder: Folder, a: seq<Step>, b: seq<Step>, steps: iset<Step>, steps': iset<Step>)
    requires Begins(files, folder, steps, a) && Begins(files, folder, steps', b)
    requires forall s, t | s in steps && t in steps' :: Sooner(s, t)
    ensures Earlier(a, b)
  {
    assert Sooner(a[0], b[0]);
  }

  function Behind(s: Step, ways: seq<seq<Step>>): seq<seq<Step>> {
    seq(|ways|, j requires 0 <= j < |ways| => [s] + ways[j])
  }

  /** The dependency at s, and what it leads to if it is a remaken package. */
  lemma OrderedBelow(files: Files, folder: Folder, s: Step, d: Dep, steps: iset<Step>, ways: seq<seq<Step>>,
      vs: seq<Visit>)
    requires There(files, folder, s) && DepAt(files, folder, s) == d
    requires Ordered(files, d.folder, steps, ways, vs)
    requires steps == if d.remaken then FromKinds(s.kind == PACKAGE) else iset{}
    ensures Ordered(files, folder, iset{s}, [[s]] + Behind(s, ways), [Visit(d, s.kind)] + vs)
  {
    hide Behind, Earlier;
    BehindInOrder(s, ways);
    AlongBelow(files, folder, s, d, steps, ways, vs);
    WaysBelow(files, folder, s, d, steps, ways);
  }

  lemma BehindInOrder(s: Step, ways: seq<seq<Step>>)
    requires InOrder(ways) && [] !in ways
    ensures InOrder([[s]] + Behind(s, ways))
  {
    var all := [[s]] + Behind(s, ways);
    forall i, j | 0 <= i < j < |all| ensures Earlier(all[i], all[j]) {
      assert ways[j - 1] in ways;
      assert all[j] == [s] + ways[j - 1] && all[j][1..] == ways[j - 1];
      if i > 0 { assert all[i] == [s] + ways[i - 1] && all[i][1..] == ways[i - 1]; }
    }
  }

  lemma AlongBelow(files: Files, folder: Folder, s: Step, d: Dep, steps: iset<Step>, ways: seq<seq<Step>>,
      vs: seq<Visit>)
    requires There(files, folder, s) && DepAt(files, folder, s) == d
    requires Along(files, d.folder, ways, vs) && AreWays(files, d.folder, steps, ways)
    requires steps == if d.remaken then FromKinds(s.kind == PACKAGE) else iset{}
    ensures Along(files, folder, [[s]] + Behind(s, ways), [Visit(d, s.kind)] + vs)
  {
    hide FromKinds, IsWay, VisitAt, AreWays;
    var all, visits := [[s]] + Behind(s, ways), [Visit(d, s.kind)] + vs;
    WayHere(files, folder, s);
    forall j | 0 <= j < |all| ensures IsWay(files, folder, all[j]) && visits[j] == VisitAt(files, folder, all[j]) {
      if j > 0 {
        assert all[j] == [s] + ways[j - 1];
        BeginsAll(files, d.folder, steps, ways, j - 1);
        WayBelow(files, folder, s, d, steps, ways[j - 1]);
      }
    }
  }

  lemma WayHere(files: Files, folder: Folder, s: Step)
    requires There(files, folder, s)
    ensures IsWay(files, folder, [s])
    ensures VisitAt(files, folder, [s]) == Visit(DepAt(files, folder, s), s.kind)
  {
  }

  lemma BeginsAll(files: Files, folder: Folder, steps: iset<Step>, ways: seq<seq<Step>>, j: nat)
    requires AreWays(files, folder, steps, ways) && j < |ways|
    ensures Begins(files, folder, steps, ways[j])
  {
    hide Begins;
    assert ways[j] in ways;
  }

  lemma WaysBelow(files: Files, folder: Folder, s: Step, d: Dep, steps: iset<Step>, ways: seq<seq<Step>>)
    requires There(files, folder, s) && DepAt(files, folder, s) == d
    requires AreWays(files, d.folder, steps, ways)
    requires steps == if d.remaken then FromKinds(s.kind == PACKAGE) else iset{}
    ensures AreWays(files, folder, iset{s}, [[s]] + Behind(s, ways))
  {
    var all := [[s]] + Behind(s, ways);
    assert all[0] == [s] && Begins(files, folder, iset{s}, [s]);
    forall way ensures way in all <==> Begins(files, folder, iset{s}, way) {
      if way in all && way != [s] {
        var j :| 0 <= j < |ways| && way == [s] + ways[j];
        WayBelow(files, folder, s, d, steps, ways[j]);
      }
      if Begins(files, folder, iset{s}, way) && |way| == 1 {
        assert way == [s];
      } else if Begins(files, folder, iset{s}, way) {
        assert Begins(files, d.folder, steps, way[1..]);
        var j :| 0 <= j < |ways| && ways[j] == way[1..];
        assert way == [s] + way[1..] == all[j + 1];
      }
    }
  }

  lemma WayBelow(files: Files, folder: Folder, s: Step, d: Dep, steps: iset<Step>, way: seq<Step>)
    requires There(files, folder, s) && DepAt(files, folder, s) == d
    requires Begins(files, d.folder, steps, way)
    requires steps == if d.remaken then FromKinds(s.kind == PACKAGE) else iset{}
    ensures IsWay(files, folder, [s] + way) && VisitAt(files, folder, [s] + way) == VisitAt(files, d.folder, way)
  {
    var longer := [s] + way;
    assert longer[1..] == way && longer[1] == way[0];
  }

  ghost function FromKind(kind: FileType): iset<Step> {
    iset s: Step | s.kind == kind
  }

  /** The place of a step in the files of a node, and the step at a place. */
  ghost function Place(files: Files, a: Node, s: Step): nat {
    s.index + if s.platform then |InFile(files, FileId(a, false))| else 0
  }

  ghost function StepAt(files: Files, a: Node, i: nat): Step {
    var common := |InFile(files, FileId(a, false))|;
    if i < common then Step(a.kind, false, i) else Step(a.kind, true, i - common)
  }

  ghost function StepsTo(files: Files, a: Node, n: nat): iset<Step> {
    iset s: Step | s.kind == a.kind && There(files, a.folder, s) && Place(files, a, s) < n
  }

  lemma StepOfPlace(files: Files, a: Node, i: nat)
    requires i < |Listed(files, a)|
    ensures There(files, a.folder, StepAt(files, a, i))
    ensures DepAt(files, a.folder, StepAt(files, a, i)) == Listed(files, a)[i]
    ensures StepsTo(files, a, i + 1) == StepsTo(files, a, i) + iset{StepAt(files, a, i)}
    ensures forall s | s in StepsTo(files, a, i) :: Sooner(s, StepAt(files, a, i))
  {
    assert a == Node(a.folder, a.kind);
  }

  /** The visits below a, of all its dependencies or of the first n. */
  lemma {:induction false} VisitsOrdered(files: Files, rank: Node -> nat, a: Node) returns (ways: seq<seq<Step>>)
    requires Acyclic(files, rank)
    ensures Ordered(files, a.folder, FromKind(a.kind), ways, AllVisits(files, rank, a))
    decreases rank(a), |Listed(files, a)| + 2
  {
    hide Acyclic, VisitAt, InOrder, Along;
    var n := |Listed(files, a)|;
    ways := FirstOrdered(files, rank, a, n);
    forall way ensures way in ways <==> Begins(files, a.folder, FromKind(a.kind), way) {
      assert way in ways <==> Begins(files, a.folder, StepsTo(files, a, n), way);
      assert a == Node(a.folder, a.kind);
    }
  }

  lemma {:induction false} FirstOrdered(files: Files, rank: Node -> nat, a: Node, n: nat) returns (ways: seq<seq<Step>>)
    requires Acyclic(files, rank) && n <= |Listed(files, a)|
    ensures Ordered(files, a.folder, StepsTo(files, a, n), ways, Visits(files, rank, a, n))
    decreases rank(a), n + 1
  {
    hide Acyclic, VisitsOf, Ordered, StepAt, There;
    if n == 0 {
      ways := [];
      NoneOrdered(files, a.folder, StepsTo(files, a, 0));
    } else {
      var first := FirstOrdered(files, rank, a, n - 1);
      var last := OneOrdered(files, rank, a, n - 1);
      ways := first + last;
      StepOfPlace(files, a, n - 1);
      OrderedConcat(files, a.folder, StepsTo(files, a, n - 1), first, Visits(files, rank, a, n - 1),
        iset{StepAt(files, a, n - 1)}, last, VisitsOf(files, rank, a, n - 1));
    }
  }

  lemma NoneOrdered(files: Files, folder: Folder, steps: iset<Step>)
    requires steps == iset{}
    ensures Ordered(files, folder, steps, [], [])
  {
  }

  lemma {:induction false} OneOrdered(files: Files, rank: Node -> nat, a: Node, i: nat) returns (ways: seq<seq<Step>>)
    requires Acyclic(files, rank) && i < |Listed(files, a)|
    ensures Ordered(files, a.folder, iset{StepAt(files, a, i)}, ways, VisitsOf(files, rank, a, i))
    decreases rank(a), i + 1
  {
    hide Acyclic, Ordered, AllVisits, Edge, There, DepAt;
    var d, s := Listed(files, a)[i], StepAt(files, a, i);
    StepOfPlace(files, a, i);
    var steps: iset<Step> := if d.remaken then FromKinds(a.kind == PACKAGE) else iset{};
    var below: seq<seq<Step>>;
    if !d.remaken {
      below := [];
      NoneOrdered(files, d.folder, steps);
      OrderedBelow(files, a.folder, s, d, steps, below, []);
      assert [Visit(d, a.kind)] + [] == VisitsOf(files, rank, a, i);
    } else {
      LeadsDown(files, rank, a, i);
      below := BothOrdered(files, rank, d.folder, a.kind == PACKAGE, rank(a));
      var vs := BothVisits(files, rank, d.folder, a.kind == PACKAGE);
      OrderedBelow(files, a.folder, s, d, steps, below, vs);
      assert [Visit(d, a.kind)] + vs == VisitsOf(files, rank, a, i);
    }
    ways := [[s]] + Behind(s, below);
  }

  ghost function BothVisits(files: Files, rank: Node -> nat, folder: Folder, both: bool): seq<Visit>
    requires Acyclic(files, rank)
  {
    AllVisits(files, rank, Node(folder, EXTRA_DEPS))
    + if both then AllVisits(files, rank, Node(folder, PACKAGE)) else []
  }

  ghost function FromKinds(both: bool): iset<Step> {
    iset t: Step | t.kind == PACKAGE ==> both
  }

  lemma {:induction false} BothOrdered(files: Files, rank: Node -> nat, folder: Folder, both: bool, top: nat)
    returns (ways: seq<seq<Step>>)
    requires Acyclic(files, rank)
    requires rank(Node(folder, EXTRA_DEPS)) < top && (both ==> rank(Node(folder, PACKAGE)) < top)
    ensures Ordered(files, folder, FromKinds(both), ways, BothVisits(files, rank, folder, both))
    decreases top, 0
  {
    hide Acyclic, Ordered, AllVisits;
    var extra, package := FromKind(EXTRA_DEPS), FromKind(PACKAGE);
    ways := VisitsOrdered(files, rank, Node(folder, EXTRA_DEPS));
    var vs := AllVisits(files, rank, Node(folder, EXTRA_DEPS));
    if both {
      var more := VisitsOrdered(files, rank, Node(folder, PACKAGE));
      OrderedConcat(files, folder, extra, ways, vs, package, more, AllVisits(files, rank, Node(folder, PACKAGE)));
      ways := ways + more;
      assert extra + package == FromKinds(true);
    } else {
      assert extra == FromKinds(false) && vs + [] == vs;
    }
  }

  // ---- the manager ----------------------------------------------------------------------------

  ghost function Folders(vs: seq<Visit>): set<Folder> {
    set v | v in vs :: v.dep.folder
  }

  /** The visits go through from a state with these packages installed: nothing that is broken has to be
      installed. */
  ghost predicate AllGo(vs: seq<Visit>, broken: set<Folder>, installed: set<Folder>, force: bool) {
    forall v | v in vs :: v.dep.folder in broken ==> v.dep.folder in installed && !force
  }

  lemma GoConcat(vs: seq<Visit>, ws: seq<Visit>, broken: set<Folder>, installed: set<Folder>, force: bool)
    ensures AllGo(vs, broken, installed, force) ==>
      (AllGo(vs + ws, broken, installed, force) <==> AllGo(ws, broken, installed + Folders(vs), force))
    ensures !AllGo(vs, broken, installed, force) ==> !AllGo(vs + ws, broken, installed, force)
    ensures Folders(vs + ws) == Folders(vs) + Folders(ws)
  {
    if AllGo(vs, broken, installed, force) && AllGo(ws, broken, installed + Folders(vs), force) {
      forall v | v in vs + ws && v.dep.folder in broken ensures v.dep.folder in installed && !force { }
    }
    assert forall v | v in vs :: v in vs + ws;
    assert forall v | v in ws :: v in vs + ws;
  }

  class DependencyManager {
    const files: Files
    /** The folders whose packages cannot be installed. */
    const broken: set<Folder>
    const force: bool
    var installed: set<Folder>
    /** The calls of retrieveDependency so far. */
    ghost var visited: seq<Visit>

    constructor (files: Files, broken: set<Folder>, force: bool, installed: set<Folder>)
      ensures this.files == files && this.broken == broken && this.force == force && this.installed == installed
      ensures visited == []
    {
      this.files, this.broken, this.force, this.installed := files, broken, force, installed;
      visited := [];
    }

    /** installDep, and installArtefact if it says so; false when that throws. */
    method Install(dependency: Dep) returns (ok: bool)
      modifies this`installed
      ensures ok <==> (dependency.folder in broken ==> dependency.folder in old(installed) && !force)
      ensures installed == old(installed) + if ok then {dependency.folder} else {}
    {
      if dependency.folder !in installed || force {
        if dependency.folder in broken {
          return false;
        }
        installed := installed + {dependency.folder};
      }
      return true;
    }

    /** The visits vs have been made, from a state with these packages installed and these visits. */
    ghost predicate Made(vs: seq<Visit>, before: set<Folder>, visitedBefore: seq<Visit>)
      reads this
    {
      AllGo(vs, broken, before, force) && installed == before + Folders(vs) && visited == visitedBefore + vs
    }

    lemma MadeMore(vs: seq<Visit>, ws: seq<Visit>, before: set<Folder>, visitedBefore: seq<Visit>)
      requires AllGo(vs, broken, before, force) && Made(ws, before + Folders(vs), visitedBefore + vs)
      ensures Made(vs + ws, before, visitedBefore)
    {
      GoConcat(vs, ws, broken, before, force);
      assert visitedBefore + vs + ws == visitedBefore + (vs + ws);
    }

    /** Of the visits vs the first m have been made, and the next one did not go through. */
    ghost predicate Stopped(vs: seq<Visit>, m: nat, before: set<Folder>, visitedBefore: seq<Visit>)
      reads this
    {
      && m < |vs| && AllGo(vs[..m], broken, before, force) && !AllGo(vs[..m + 1], broken, before, force)
      && installed == before + Folders(vs[..m]) && visited == visitedBefore + vs[..m + 1]
    }

    lemma StoppedLater(vs: seq<Visit>, ws: seq<Visit>, m: nat, before: set<Folder>, visitedBefore: seq<Visit>)
      requires AllGo(vs, broken, before, force) && Stopped(ws, m, before + Folders(vs), visitedBefore + vs)
      ensures Stopped(vs + ws, |vs| + m, before, visitedBefore)
    {
      hide AllGo, Folders;
      GoConcat(vs, ws[..m], broken, before, force);
      GoConcat(vs, ws[..m + 1], broken, before, force);
      assert (vs + ws)[..|vs| + m] == vs + ws[..m] && (vs + ws)[..|vs| + m + 1] == vs + ws[..m + 1];
      assert visitedBefore + vs + ws[..m + 1] == visitedBefore + (vs + ws[..m + 1]);
    }

    lemma StoppedBefore(vs: seq<Visit>, ws: seq<Visit>, m: nat, before: set<Folder>, visitedBefore: seq<Visit>)
      requires Stopped(vs, m, before, visitedBefore)
      ensures Stopped(vs + ws, m, before, visitedBefore)
    {
      assert (vs + ws)[..m] == vs[..m] && (vs + ws)[..m + 1] == vs[..m + 1];
    }

    /** retrieveDependency: false when an exception leaves it. */
    method RetrieveDependency(a: Node, i: nat, ghost rank: Node -> nat) returns (ok: bool, ghost done: nat)
      requires Acyclic(files, rank) && i < |Listed(files, a)|
      modifies this
      ensures ok <==> AllGo(VisitsOf(files, rank, a, i), broken, old(installed), force)
      ensures ok ==> Made(VisitsOf(files, rank, a, i), old(installed), old(visited))
      ensures !ok ==> Stopped(VisitsOf(files, rank, a, i), done, old(installed), old(visited))
      decreases rank(a), i
    {
      hide AllVisits, Acyclic, Edge, AllGo, Folders;
      var dependency := Listed(files, a)[i];
      ghost var first, before, seen := [Visit(dependency, a.kind)], installed, visited;
      visited := visited + [Visit(dependency, a.kind)];
      ok := Install(dependency);
      OneGoes(Visit(dependency, a.kind), before);
      done := 0;
      if !ok || !dependency.remaken {
        if !ok { FirstFails(a, i, rank, before, seen); }
        return;
      }
      LeadsDown(files, rank, a, i);
      ghost var extra := AllVisits(files, rank, Node(dependency.folder, EXTRA_DEPS));
      ghost var package := if a.kind == PACKAGE then AllVisits(files, rank, Node(dependency.folder, PACKAGE)) else [];
      GoConcat(first, extra, broken, before, force);
      GoConcat(first + extra, package, broken, before, force);
      ok, done := RetrieveDependencies(Node(dependency.folder, EXTRA_DEPS), rank);
      if ok {
        MadeMore(first, extra, before, seen);
      } else {
        StoppedLater(first, extra, done, before, seen);
        StoppedBefore(first + extra, package, 1 + done, before, seen);
        return false, 1 + done;
      }
      if a.kind != EXTRA_DEPS {
        ok, done := RetrieveDependencies(Node(dependency.folder, a.kind), rank);
        if ok {
          MadeMore(first + extra, package, before, seen);
        } else {
          StoppedLater(first + extra, package, done, before, seen);
          done := |first + extra| + done;
        }
      } else {
        assert first + extra + [] == first + extra;
      }
    }

    /** One visit. */
    lemma OneGoes(v: Visit, before: set<Folder>)
      ensures AllGo([v], broken, before, force) <==> (v.dep.folder in broken ==> v.dep.folder in before && !force)
      ensures Folders([v]) == {v.dep.folder} && AllGo([], broken, before, force) && Folders([]) == {}
    {
      assert v in [v];
    }

    lemma FirstFails(a: Node, i: nat, rank: Node -> nat, before: set<Folder>, seen: seq<Visit>)
      requires Acyclic(files, rank) && i < |Listed(files, a)| && installed == before
      requires visited == seen + [Visit(Listed(files, a)[i], a.kind)]
      requires !AllGo([Visit(Listed(files, a)[i], a.kind)], broken, before, force)
      ensures !AllGo(VisitsOf(files, rank, a, i), broken, before, force)
      ensures Stopped(VisitsOf(files, rank, a, i), 0, before, seen)
    {
      var v, vs := Visit(Listed(files, a)[i], a.kind), VisitsOf(files, rank, a, i);
      OneGoes(v, before);
      assert v in vs && vs[..0] == [] && vs[..1] == [v];
    }

    /** retrieveDependencies: the loop over what the files of one kind list. */
    method RetrieveDependencies(a: Node, ghost rank: Node -> nat) returns (ok: bool, ghost done: nat)
      requires Acyclic(files, rank)
      modifies this
      ensures ok <==> AllGo(AllVisits(files, rank, a), broken, old(installed), force)
      ensures ok ==> Made(AllVisits(files, rank, a), old(installed), old(visited))
      ensures !ok ==> Stopped(AllVisits(files, rank, a), done, old(installed), old(visited))
      decreases rank(a), |Listed(files, a)| + 1
    {
      hide VisitsOf, Acyclic, Edge, AllGo, Folders;
      var dependencies := Listed(files, a);
      ghost var before, seen := installed, visited;
      done := 0;
      NoneMade();
      for i := 0 to |dependencies|
        invariant Made(Visits(files, rank, a, i), before, seen)
      {
        ghost var vs, ws := Visits(files, rank, a, i), VisitsOf(files, rank, a, i);
        GoConcat(vs, ws, broken, before, force);
        ok, done := RetrieveDependency(a, i, rank);
        if !ok {
          StoppedLater(vs, ws, done, before, seen);
          StopsHere(a, i + 1, |dependencies|, rank, |vs| + done, before, seen);
          return false, |vs| + done;
        }
        MadeMore(vs, ws, before, seen);
      }
      return true, done;
    }

    lemma NoneMade()
      ensures Made([], installed, visited)
    {
    }

    /** Once some visit does not go through, the whole loop does not. */
    lemma {:induction false} StopsHere(a: Node, n: nat, m: nat, rank: Node -> nat, k: nat, before: set<Folder>,
        seen: seq<Visit>)
      requires Acyclic(files, rank) && n <= m <= |Listed(files, a)|
      requires Stopped(Visits(files, rank, a, n), k, before, seen)
      ensures Stopped(Visits(files, rank, a, m), k, before, seen)
      ensures !AllGo(Visits(files, rank, a, m), broken, before, force)
      decreases m - n
    {
      hide VisitsOf, Acyclic, Stopped;
      if n < m {
        StoppedBefore(Visits(files, rank, a, n), VisitsOf(files, rank, a, n), k, before, seen);
        StopsHere(a, n + 1, m, rank, k, before, seen);
      } else {
        StoppedFails(Visits(files, rank, a, m), k, before, seen);
      }
    }

    lemma StoppedFails(vs: seq<Visit>, k: nat, before: set<Folder>, seen: seq<Visit>)
      requires Stopped(vs, k, before, seen)
      ensures !AllGo(vs, broken, before, force)
    {
      assert forall v | v in vs[..k + 1] :: v in vs;
    }

    /** retrieve, for the root folder: extra packages first. 0, or -1 when an install threw. It visits
        exactly the dependencies that the files reachable from the two root files list, each with the
        kind of file it was reached through, once for every way to it and in the order of the ways. It
        stops at the first one that cannot be installed, and those before it are installed afterwards. */
    method Retrieve(root: Folder, ghost rank: Node -> nat) returns (status: int, ghost ways: seq<seq<Step>>)
      requires Acyclic(files, rank) && visited == []
      modifies this
      ensures status == 0 || status == -1
      ensures status == 0 <==>
        forall b, d | FromRoot(root, b) && d in Listed(files, b) && d.folder in broken ::
          d.folder in old(installed) && !force
      ensures status == 0 ==> forall v :: v in visited <==> Wanted(root, v)
      ensures InOrder(ways) && forall way :: way in ways <==> IsWay(files, root, way)
      ensures |visited| <= |ways| && (status == 0 ==> |visited| == |ways|)
      ensures forall j | 0 <= j < |visited| ::
        IsWay(files, root, ways[j]) && visited[j] == VisitAt(files, root, ways[j])
      ensures status == 0 ==> installed == old(installed) + Folders(visited)
      ensures status == -1 ==> |visited| > 0 && !AllGo(visited, broken, old(installed), force)
      ensures status == -1 ==> var made := visited[..|visited| - 1];
        AllGo(made, broken, old(installed), force) && installed == old(installed) + Folders(made)
    {
      hide AllVisits, Acyclic, Edge, Reaches, Listed, FromRoot, AllGo, Folders, InOrder, IsWay;
      ghost var extra := AllVisits(files, rank, Node(root, EXTRA_DEPS));
      ghost var package := AllVisits(files, rank, Node(root, PACKAGE));
      ghost var before, done := installed, 0;
      RootVisits(root, rank);
      GoConcat(extra, package, broken, before, force);
      GoesFromRoot(root, rank, before);
      ways := RootOrder(root, rank);
      var ok: bool;
      ok, done := RetrieveDependencies(Node(root, EXTRA_DEPS), rank);
      if ok {
        ok, done := RetrieveDependencies(Node(root, PACKAGE), rank);
        if ok {
          MadeMore(extra, package, before, []);
        } else {
          StoppedLater(extra, package, done, before, []);
          done := |extra| + done;
        }
      } else {
        StoppedBefore(extra, package, done, before, []);
      }
      if ok {
        assert visited == extra + package;
      } else {
        PrefixVisited(extra + package, done, before);
      }
      return if ok then 0 else -1, ways;
    }

    lemma PrefixVisited(vs: seq<Visit>, m: nat, before: set<Folder>)
      requires Stopped(vs, m, before, [])
      ensures 0 < |visited| <= |vs| && visited == vs[..|visited|] && !AllGo(visited, broken, before, force)
      ensures var made := visited[..|visited| - 1];
        AllGo(made, broken, before, force) && installed == before + Folders(made)
    {
      hide AllGo, Folders;
      assert [] + vs[..m + 1] == vs[..m + 1] && vs[..m + 1][..m] == vs[..m];
    }

    /** All ways from the root folder. */
    lemma RootOrder(root: Folder, rank: Node -> nat) returns (ways: seq<seq<Step>>)
      requires Acyclic(files, rank)
      ensures var vs := AllVisits(files, rank, Node(root, EXTRA_DEPS)) + AllVisits(files, rank, Node(root, PACKAGE));
        InOrder(ways) && Along(files, root, ways, vs)
      ensures forall way :: way in ways <==> IsWay(files, root, way)
    {
      hide AllVisits, Acyclic, IsWay, InOrder, Along;
      var top := rank(Node(root, EXTRA_DEPS)) + rank(Node(root, PACKAGE)) + 1;
      ways := BothOrdered(files, rank, root, true, top);
      forall way ensures way in ways <==> IsWay(files, root, way) {
        assert way in ways <==> Begins(files, root, FromKinds(true), way);
        if IsWay(files, root, way) { NotNowhere(files, root, way); }
      }
    }

    lemma NotNowhere(files: Files, root: Folder, way: seq<Step>)
      requires IsWay(files, root, way)
      ensures way != [] && way[0] in FromKinds(true)
    {
    }

    /** A file is reached from one of the two of the root. */
    ghost predicate FromRoot(root: Folder, b: Node) {
      Reaches(files, Node(root, EXTRA_DEPS), b) || Reaches(files, Node(root, PACKAGE), b)
    }

    /** A dependency listed by such a file, with the kind of the file. */
    ghost predicate Wanted(root: Folder, v: Visit) {
      exists b :: FromRoot(root, b) && b.kind == v.kind && v.dep in Listed(files, b)
    }

    lemma RootVisits(root: Folder, rank: Node -> nat)
      requires Acyclic(files, rank)
      ensures var vs := AllVisits(files, rank, Node(root, EXTRA_DEPS)) + AllVisits(files, rank, Node(root, PACKAGE));
        forall v :: v in vs <==> Wanted(root, v)
    {
      hide AllVisits, Acyclic, Edge, Reaches, Listed;
      var vs := AllVisits(files, rank, Node(root, EXTRA_DEPS)) + AllVisits(files, rank, Node(root, PACKAGE));
      forall v: Visit ensures v in vs <==> Wanted(root, v) {
        VisitsReachable(files, rank, Node(root, EXTRA_DEPS), v);
        VisitsReachable(files, rank, Node(root, PACKAGE), v);
      }
    }

    lemma GoesFromRoot(root: Folder, rank: Node -> nat, before: set<Folder>)
      requires Acyclic(files, rank)
      ensures
        var visits := AllVisits(files, rank, Node(root, EXTRA_DEPS)) + AllVisits(files, rank, Node(root, PACKAGE));
        AllGo(visits, broken, before, force) <==>
          forall b, d | FromRoot(root, b) && d in Listed(files, b) && d.folder in broken ::
            d.folder in before && !force
    {
      hide AllVisits, Acyclic, Edge, Reaches, Listed, FromRoot;
      RootVisits(root, rank);
      var vs := AllVisits(files, rank, Node(root, EXTRA_DEPS)) + AllVisits(files, rank, Node(root, PACKAGE));
      if AllGo(vs, broken, before, force) {
        forall b, d | FromRoot(root, b) && d in Listed(files, b) && d.folder in broken
          ensures d.folder in before && !force
        {
          assert Wanted(root, Visit(d, b.kind));
        }
      }
    }
  }

  lemma LeadsDown(files: Files, rank: Node -> nat, a: Node, i: nat)
    requires Acyclic(files, rank) && i < |Listed(files, a)| && Listed(files, a)[i].remaken
    ensures var f := Listed(files, a)[i].folder;
      rank(Node(f, EXTRA_DEPS)) < rank(a) && (a.kind == PACKAGE ==> rank(Node(f, PACKAGE)) < rank(a))
  {
    Leads(files, a, i);
  }
}
