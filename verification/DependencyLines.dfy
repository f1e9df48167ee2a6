/** The lines of a dependency file by what stands where, and what each of them says. Every line of four
    pieces or more is one of these. */
module DependencyLines {
  import opened XmlUtil
  import opened Text
  import opened Dependencies

  /** A word and the blanks around it. */
  datatype Field = Field(before: string, word: string, behind: string) {
    predicate Valid() {
      IsBlank(before) && IsTrimmed(word) && IsBlank(behind)
    }

    function Source(): string {
      before + word + behind
    }

    predicate Free(c: char) {
      c !in Source()
    }
  }

  /** A field and the conditions behind it. */
  datatype Token = Token(field: Field, conditions: seq<string>) {
    predicate Valid() {
      field.Valid() && field.Free('%') && forall c | c in conditions :: '%' !in c
    }

    function Source(): string {
      Join([field.Source()] + conditions, '%')
    }
  }

  function TokenSources(ts: seq<Token>): (r: seq<string>)
    ensures |r| == |ts| && forall i | 0 <= i < |r| :: r[i] == ts[i].Source()
  {
    seq(|ts|, i requires 0 <= i < |ts| => ts[i].Source())
  }

  function FieldSources(fs: seq<Field>): (r: seq<string>)
    ensures |r| == |fs| && forall i | 0 <= i < |r| :: r[i] == fs[i].Source()
  {
    seq(|fs|, i requires 0 <= i < |fs| => fs[i].Source())
  }

  // ---- what the words stand for ------------------------------------------------------------

  /** What to_string writes for each type. */
  const TYPE_NAMES: map<Type, string> :=
    map[REMAKEN := "remaken", BREW := "brew", CHOCO := "choco", CONAN := "conan", SCOOP := "scoop", VCPKG := "vcpkg",
        SYSTEM := "system"]

  /** The names that stand for another type than remaken. */
  const NAMED_TYPES: map<string, Type> :=
    map["conan" := CONAN, "vcpkg" := VCPKG, "brew" := BREW, "scoop" := SCOOP, "system" := SYSTEM, "choco" := SYSTEM,
        "apt-get" := SYSTEM, "yum" := SYSTEM]

  function NamedType(name: string): Type {
    if name in NAMED_TYPES then NAMED_TYPES[name] else REMAKEN
  }

  const TOOLS: set<string> :=
    {"apt-get", "brew", "choco", "scoop", "pacman", "pkg", "pkgutil", "yum", "zypper"}

  /** The repository type of an identifier on its own. */
  function ImpliedType(identifier: string): string {
    if identifier == "bcomBuild" || identifier == "thirdParties" then "artifactory"
    else if identifier in TOOLS then "system"
    else identifier
  }

  ghost predicate IsGithub(url: string) {
    exists u, v :: url == u + "https://github" + v
  }

  // ---- lines ----------------------------------------------------------------------------------

  /** `package` is what '#' separates: the name, the channel, and what is ignored; `repository` is what
      '@' separates: the identifier, the repository type, and what is ignored; `more` is the base
      repository, the mode, the options, and what makes the options ignored. */
  datatype Line = Line(package: seq<Token>, version: Field, name: Token, repository: seq<Field>, more: seq<Field>) {
    predicate Shaped() {
      package != [] && repository != []
    }

    ghost predicate Valid() {
      && Shaped()
      && (forall t | t in package :: t.Valid() && '#' !in t.Source() && '|' !in t.Source())
      && version.Valid() && version.Free('|') && name.Valid() && '|' !in name.Source()
      && (forall f | f in repository :: f.Valid() && f.Free('@') && f.Free('|'))
      && (forall f | f in more :: f.Valid() && f.Free('|'))
    }

    function Pieces(): seq<string>
      requires Shaped()
    {
      [Join(TokenSources(package), '#'), version.Source(), name.Source(), Join(FieldSources(repository), '@')]
      + FieldSources(more)
    }

    function Source(): string
      requires Shaped()
    {
      Join(Pieces(), '|')
    }

    function Identifier(): string
      requires Shaped()
    {
      repository[0].word
    }

    /** The repository type, as it is written or implied. */
    function RepositoryWord(): string
      requires Shaped()
    {
      if |repository| >= 2 then repository[1].word else ImpliedType(repository[0].word)
    }

    /** Conan wins over the identifier; otherwise the identifier decides. */
    function Kind(): Type
      requires Shaped()
    {
      if RepositoryWord() == "conan" then CONAN else NamedType(Identifier())
    }

    /** The identifier is one of its own: a repository type is written behind it, or it stands for another. */
    predicate OwnIdentifier()
      requires Shaped()
    {
      Identifier() != "" && (|repository| >= 2 || Identifier() in TOOLS + {"bcomBuild", "thirdParties"})
    }

    function Base(): string
      requires Shaped()
    {
      if more != [] && more[0].word != "" then more[0].word
      else if RepositoryWord() in {"conan", "system", "vcpkg"} then RepositoryWord()
      else ""
    }

    /** A build rule's artifactory at github is a github repository. */
    ghost function Repository(): string
      requires Shaped()
    {
      if IsGithub(Base()) && RepositoryWord() == "artifactory" && Identifier() in {"bcomBuild", "thirdParties"}
      then "github" else RepositoryWord()
    }

    function ModeWord(mainMode: string): string {
      if |more| >= 2 && more[1].word in {"static", "shared", "na"} then more[1].word else mainMode
    }

    /** Options are kept as they are, but for a carriage return at the end of the line. */
    function Options(): string {
      if |more| != 3 then ""
      else
        var w := more[2].Source();
        if w != "" && w[|w| - 1] == CR then w[..|w| - 1] else w
    }

    /** With a channel the conditions behind it count, and the package name is kept as it is. */
    ghost function Meant(mainMode: string): Fields
      requires Shaped()
    {
      Fields(
        if |package| >= 2 then package[0].Source() else package[0].field.word,
        if |package| >= 2 then package[1].field.word else "stable",
        name.field.word, version.word, Identifier(), Repository(), Kind(), Base(), ModeWord(mainMode), Options(),
        package[if |package| >= 2 then 1 else 0].conditions + name.conditions)
    }
  }

  // ---- tables ------------------------------------------------------------------------------------

  lemma TypeSame(name: string)
    ensures DeduceType(name) == NamedType(name)
  {
  }

  lemma ImpliedSame(identifier: string)
    ensures IdentifierToRepoType(identifier) == ImpliedType(identifier)
  {
    assert identifier in SYSTEM_TOOLS <==> identifier in TOOLS by {
      if identifier in SYSTEM_TOOLS {
        var i :| 0 <= i < 9 && SYSTEM_TOOLS[i] == identifier;
      }
      assert SYSTEM_TOOLS[0] == "apt-get" && SYSTEM_TOOLS[1] == "brew" && SYSTEM_TOOLS[2] == "choco";
      assert SYSTEM_TOOLS[3] == "scoop" && SYSTEM_TOOLS[4] == "pacman" && SYSTEM_TOOLS[5] == "pkg";
      assert SYSTEM_TOOLS[6] == "pkgutil" && SYSTEM_TOOLS[7] == "yum" && SYSTEM_TOOLS[8] == "zypper";
    }
  }

  lemma GithubSame(url: string)
    ensures Contains(url, "https://github") <==> IsGithub(url)
  {
    var w := "https://github";
    if i :| 0 <= i <= |url| && At(url, i, w) {
      AtSlice(url, i, w);
      assert url == url[..i] + w + url[i + |w|..];
    }
    if u, v :| url == u + w + v {
      AtSlice(url, |u|, w);
    }
  }

  // ---- pieces -----------------------------------------------------------------------------------------

  lemma FieldTrimmed(f: Field)
    requires f.Valid()
    ensures Trim(f.Source()) == f.word
  {
    TrimPadded(f.before, f.word, f.behind);
  }

  lemma TokenSplit(t: Token)
    requires t.Valid()
    ensures Split(t.Source(), '%') == [t.field.Source()] + t.conditions
    ensures FirstPart(t.Source()) == t.field.Source() && Conditions(t.Source()) == t.conditions
  {
    hide Split;
    var all := [t.field.Source()] + t.conditions;
    assert all[1..] == t.conditions;
    SplitJoin(all, '%');
  }

  lemma {:induction false} JoinFree(pieces: seq<string>, sep: char, c: char)
    requires pieces != [] && c != sep && forall t | t in pieces :: c !in t
    ensures c !in Join(pieces, sep)
  {
    assert pieces[0] in pieces;
    if |pieces| > 1 {
      assert forall t | t in pieces[1..] :: t in pieces;
      JoinFree(pieces[1..], sep, c);
    }
  }

  /** The pieces of a line. */
  lemma LineSplit(l: Line)
    requires l.Valid()
    ensures Split(l.Source(), '|') == l.Pieces()
    ensures Split(l.Pieces()[0], '#') == TokenSources(l.package)
    ensures Split(l.Pieces()[3], '@') == FieldSources(l.repository)
  {
    hide Split, Join, Field.Valid, Token.Valid, Token.Source, Field.Source;
    var tokens, fields := TokenSources(l.package), FieldSources(l.repository);
    assert forall t | t in tokens :: '#' !in t && '|' !in t;
    forall f | f in fields ensures '@' !in f && '|' !in f {
      var i :| 0 <= i < |fields| && fields[i] == f;
      assert l.repository[i] in l.repository && l.repository[i].Free('@') && l.repository[i].Free('|');
    }
    SplitJoin(tokens, '#');
    SplitJoin(fields, '@');
    JoinFree(tokens, '#', '|');
    JoinFree(fields, '@', '|');
    var pieces, more := l.Pieces(), FieldSources(l.more);
    forall i | 0 <= i < |pieces| ensures '|' !in pieces[i] {
      assert l.version.Free('|');
      if i >= 4 {
        assert pieces[i] == more[i - 4] == l.more[i - 4].Source();
        assert l.more[i - 4] in l.more && l.more[i - 4].Free('|');
      }
    }
    SplitJoin(pieces, '|');
  }

  /** A line of a dependency file says what its words say. */
  lemma LineRead(l: Line, mainMode: string)
    requires l.Valid()
    ensures |Split(l.Source(), '|')| >= 4 && ParseLine(l.Source(), mainMode) == l.Meant(mainMode)
    ensures HasIdentifier(Split(l.Source(), '|')) <==> l.OwnIdentifier()
  {
    hide Split, Join, Trim, Field.Valid, Token.Valid, Token.Source, Field.Source, Contains, IsGithub, DeduceType,
      NamedType, IdentifierToRepoType, ImpliedType, FirstPart, Conditions, StripEndlineChar, Line.Source;
    LineSplit(l);
    var results := l.Pieces();
    PackageMeant(l, results);
    RepositoryMeant(l, results);
    MoreMeant(l, results, mainMode);
    IdentifierMeant(l, results);
  }

  lemma IdentifierMeant(l: Line, results: seq<string>)
    requires l.Valid() && results == l.Pieces() && Split(results[3], '@') == FieldSources(l.repository)
    ensures HasIdentifier(results) <==> l.OwnIdentifier()
  {
    hide Split, Join, Trim, Field.Source, DeduceType, IdentifierToRepoType, ImpliedType;
    var id := l.repository[0];
    assert id in l.repository;
    FieldTrimmed(id);
    ImpliedSame(id.word);
    ImpliesOther(id.word);
  }

  /** The names that stand for another repository type, which is never conan. */
  lemma ImpliesOther(identifier: string)
    ensures ImpliedType(identifier) != identifier <==> identifier in TOOLS + {"bcomBuild", "thirdParties"}
    ensures ImpliedType(identifier) != identifier ==> DeduceType(ImpliedType(identifier)) != CONAN
  {
  }

  lemma PackageMeant(l: Line, results: seq<string>)
    requires l.Valid() && results == l.Pieces() && Split(results[0], '#') == TokenSources(l.package)
    ensures var d := l.Meant(""); var pkg := TokenSources(l.package);
      && d.packageName == (if |pkg| >= 2 then pkg[0] else Trim(FirstPart(pkg[0])))
      && d.packageChannel == (if |pkg| >= 2 then Trim(FirstPart(pkg[1])) else "stable")
      && d.buildConditions == Conditions(if |pkg| >= 2 then pkg[1] else pkg[0]) + Conditions(results[2])
      && d.version == Trim(results[1]) && d.name == Trim(FirstPart(results[2]))
  {
    hide Split, Join, Trim, Token.Source, Field.Source, Contains, IsGithub, NamedType, ImpliedType, FirstPart,
      Conditions;
    var t := l.package[if |l.package| >= 2 then 1 else 0];
    assert t in l.package;
    TokenSplit(t);
    TokenSplit(l.name);
    FieldTrimmed(t.field);
    FieldTrimmed(l.name.field);
    FieldTrimmed(l.version);
  }

  lemma RepositoryMeant(l: Line, results: seq<string>)
    requires l.Valid() && results == l.Pieces() && Split(results[3], '@') == FieldSources(l.repository)
    ensures RepositoryRead(results, l.Identifier(), l.Repository(), l.Kind(), l.Base())
  {
    hide Split, Join, Trim, Token.Source, Field.Source, Contains, IsGithub, NamedType, ImpliedType, DeduceType,
      IdentifierToRepoType, FirstPart, Conditions, StripEndlineChar, BaseRepository, TypeOf, Line.Base, Line.Kind;
    var id := l.repository[0];
    assert id in l.repository;
    FieldTrimmed(id);
    if |l.repository| >= 2 {
      assert l.repository[1] in l.repository;
      FieldTrimmed(l.repository[1]);
    }
    ImpliedSame(id.word);
    KindMeant(l);
    BaseMeant(l, results);
    GithubSame(l.Base());
  }

  lemma KindMeant(l: Line)
    requires l.Shaped()
    ensures TypeOf(l.Identifier(), l.RepositoryWord()) == l.Kind()
  {
    hide DeduceType, NamedType, ImpliedType;
    TypeSame(l.Identifier());
    TypeSame(l.RepositoryWord());
    ConanOnly(l.RepositoryWord());
  }

  /** Conan is the name of one type only. */
  lemma ConanOnly(name: string)
    ensures NamedType(name) == CONAN <==> name == "conan"
  {
  }

  lemma BaseMeant(l: Line, results: seq<string>)
    requires l.Valid() && results == l.Pieces()
    ensures BaseRepository(results, l.RepositoryWord()) == l.Base()
  {
    hide Split, Join, Trim, Token.Source, Field.Source, ImpliedType;
    if l.more != [] {
      assert l.more[0] in l.more;
      FieldTrimmed(l.more[0]);
      StrippedTrims(l.more[0]);
    }
  }

  /** A carriage return at the end is a blank like others. */
  lemma StrippedTrims(f: Field)
    requires f.Valid()
    ensures Trim(StripEndlineChar(f.Source())) == Trim(f.Source())
  {
    hide TrimLeft;
    var w := f.Source();
    if w != "" && w[|w| - 1] == CR {
      assert w == w[..|w| - 1] + [CR];
      assert IsBlank([CR]);
      TrimRightBlanks(w[..|w| - 1], [CR]);
    }
  }

  lemma MoreMeant(l: Line, results: seq<string>, mainMode: string)
    requires l.Valid() && results == l.Pieces()
    ensures ModeRead(results, mainMode, l.ModeWord(mainMode), l.Options())
  {
    hide Split, Join, Trim, Token.Source, Field.Source;
    if |l.more| >= 2 {
      assert l.more[1] in l.more;
      FieldTrimmed(l.more[1]);
      StrippedTrims(l.more[1]);
    }
  }

  // ---- every line ----------------------------------------------------------------------------------

  lemma {:induction false} FieldOf(w: string) returns (f: Field)
    ensures f.Valid() && f.Source() == w
    decreases |w|
  {
    if w != "" && IsWhiteSpace(w[0]) {
      var g := FieldOf(w[1..]);
      f := Field([w[0]] + g.before, g.word, g.behind);
      assert [w[0]] + g.Source() == f.Source();
    } else if w != "" && IsWhiteSpace(w[|w| - 1]) {
      var g := FieldOf(w[..|w| - 1]);
      f := Field(g.before, g.word, g.behind + [w[|w| - 1]]);
      assert g.Source() + [w[|w| - 1]] == f.Source();
    } else {
      f := Field("", w, "");
      assert "" + w + "" == w;
    }
  }

  lemma {:induction false} FieldsOf(ws: seq<string>) returns (fs: seq<Field>)
    ensures FieldSources(fs) == ws && forall f | f in fs :: f.Valid() && f.Source() in ws
    decreases |ws|
  {
    hide Field.Valid, Field.Source;
    if ws == [] {
      fs := [];
    } else {
      var f := FieldOf(ws[0]);
      var rest := FieldsOf(ws[1..]);
      fs := [f] + rest;
      assert FieldSources(fs) == [ws[0]] + FieldSources(rest);
    }
  }

  lemma TokenOf(w: string) returns (t: Token)
    ensures t.Valid() && t.Source() == w
  {
    hide Split, Join, Field.Source, Field.Valid;
    var pieces := Split(w, '%');
    var f := FieldOf(pieces[0]);
    t := Token(f, pieces[1..]);
    assert '%' !in pieces[0] && [f.Source()] + pieces[1..] == pieces;
    JoinSplit(w, '%');
  }

  lemma {:induction false} TokensOf(ws: seq<string>) returns (ts: seq<Token>)
    ensures TokenSources(ts) == ws && forall t | t in ts :: t.Valid() && t.Source() in ws
    decreases |ws|
  {
    hide Token.Valid, Token.Source;
    if ws == [] {
      ts := [];
    } else {
      var t := TokenOf(ws[0]);
      var rest := TokensOf(ws[1..]);
      ts := [t] + rest;
      assert TokenSources(ts) == [ws[0]] + TokenSources(rest);
    }
  }

  /** Every line of four pieces or more is such a line. */
  lemma LineOf(raw: string) returns (l: Line)
    requires |Split(raw, '|')| >= 4
    ensures l.Valid() && l.Source() == raw
  {
    hide Split, Join, Field.Valid, Token.Valid, Token.Source, Field.Source;
    var results := Split(raw, '|');
    var package := TokensOf(Split(results[0], '#'));
    var version := FieldOf(results[1]);
    var name := TokenOf(results[2]);
    var repository := FieldsOf(Split(results[3], '@'));
    var more := FieldsOf(results[4..]);
    JoinSplit(results[0], '#');
    JoinSplit(results[3], '@');
    JoinSplit(raw, '|');
    l := Line(package, version, name, repository, more);
    assert |TokenSources(package)| > 0 && |FieldSources(repository)| > 0;
    assert l.Pieces() == results[..4] + results[4..] == results;
    LineValid(l, results);
  }

  lemma LineValid(l: Line, results: seq<string>)
    requires |results| >= 4 && (forall i | 0 <= i < |results| :: '|' !in results[i]) && l.Shaped()
    requires forall t | t in l.package :: t.Valid() && t.Source() in Split(results[0], '#')
    requires l.version.Valid() && l.version.Source() == results[1] && l.name.Valid() && l.name.Source() == results[2]
    requires forall f | f in l.repository :: f.Valid() && f.Source() in Split(results[3], '@')
    requires forall f | f in l.more :: f.Valid() && f.Source() in results[4..]
    ensures l.Valid()
  {
    hide Split, Field.Valid, Token.Valid, Token.Source, Field.Source;
    forall t | t in l.package ensures '#' !in t.Source() && '|' !in t.Source() {
      var i :| 0 <= i < |Split(results[0], '#')| && Split(results[0], '#')[i] == t.Source();
    }
    forall f | f in l.repository ensures f.Free('@') && f.Free('|') {
      var i :| 0 <= i < |Split(results[3], '@')| && Split(results[3], '@')[i] == f.Source();
    }
    forall f | f in l.more ensures f.Free('|') {
      var i :| 0 <= i < |results[4..]| && results[4..][i] == f.Source();
    }
  }

  // ---- the type of a line ---------------------------------------------------------------------------------

  /** A line that names a type as to_string does is read as that type, unless it is choco, which the
      system's package tools stand for. */
  lemma TypeInverts(l: Line, mainMode: string, t: Type)
    requires l.Valid() && |l.repository| == 1 && l.repository[0].word == TYPE_NAMES[t]
    ensures |Split(l.Source(), '|')| >= 4 && (ParseLine(l.Source(), mainMode).typ == t <==> t != CHOCO)
  {
    hide ParseLine, Line.Source, Line.Valid, Split, HasIdentifier, Line.Base, Line.Repository, Line.Options,
      Line.ModeWord;
    LineRead(l, mainMode);
  }
}
