/** One line of a package dependency file: read, deduced, printed and read again. */
module Dependencies {
  import opened XmlUtil
  import opened Text

  datatype Type = REMAKEN | CONAN | VCPKG | BREW | CHOCO | SCOOP | SYSTEM

  function DeduceType(typeStr: string): Type {
    if typeStr == "conan" then CONAN
    else if typeStr == "system" || typeStr == "choco" || typeStr == "apt-get" || typeStr == "yum" then SYSTEM
    else if typeStr == "vcpkg" then VCPKG
    else if typeStr == "brew" then BREW
    else if typeStr == "scoop" then SCOOP
    else REMAKEN
  }

  const SYSTEM_TOOLS := ["apt-get", "brew", "choco", "scoop", "pacman", "pkg", "pkgutil", "yum", "zypper"]

  function IdentifierToRepoType(identifier: string): string {
    if identifier == "bcomBuild" || identifier == "thirdParties" then "artifactory"
    else if identifier in SYSTEM_TOOLS then "system"
    else identifier
  }

  /** The fields that a line sets. */
  datatype Fields = Fields(
    packageName: string, packageChannel: string, name: string, version: string, identifier: string,
    repositoryType: string, typ: Type, baseRepository: string, mode: string, toolOptions: string,
    buildConditions: seq<string>)

  /** What parseConditions returns, and what it pushes. */
  function FirstPart(token: string): string {
    Split(token, '%')[0]
  }

  function Conditions(token: string): seq<string> {
    Split(token, '%')[1..]
  }

  function StripEndlineChar(s: string): (r: string)
    ensures forall c | c in r :: c in s
    ensures r == s <==> s == [] || s[|s| - 1] != CR
  {
    if s != [] && s[|s| - 1] == CR then s[..|s| - 1] else s
  }

  predicate ImpliesBase(repositoryType: string) {
    repositoryType == "conan" || repositoryType == "system" || repositoryType == "vcpkg"
  }

  function RepositoryType(repositoryInformations: seq<string>): string
    requires repositoryInformations != []
  {
    if |repositoryInformations| >= 2 then Trim(repositoryInformations[1])
    else IdentifierToRepoType(Trim(repositoryInformations[0]))
  }

  function TypeOf(identifier: string, repositoryType: string): Type {
    var t := DeduceType(repositoryType);
    if identifier != repositoryType && t != CONAN then DeduceType(identifier) else t
  }

  function BaseRepository(results: seq<string>, repositoryType: string): string {
    var base := if |results| < 5 then "" else Trim(StripEndlineChar(results[4]));
    if base == "" && ImpliesBase(repositoryType) then repositoryType else base
  }

  predicate IsBuildRule(identifier: string) {
    identifier == "bcomBuild" || identifier == "thirdParties"
  }

  /** A repository taken for an artifactory because of its identifier may be a github url. */
  function Corrected(identifier: string, repositoryType: string, base: string): string {
    if Contains(base, "https://github") && repositoryType == "artifactory" && IsBuildRule(identifier)
    then "github" else repositoryType
  }

  function Mode(results: seq<string>, mainMode: string): string {
    if |results| < 6 then mainMode
    else
      var mode := Trim(StripEndlineChar(results[5]));
      if mode != "static" && mode != "shared" && mode != "na" then mainMode else mode
  }

  /** The line-parsing constructor; DepUtils::parse only passes it lines of four pieces or more. */
  function ParseLine(rawFormat: string, mainMode: string): Fields
    requires |Split(rawFormat, '|')| >= 4
  {
    var results := Split(rawFormat, '|');
    var pkg, repo := Split(results[0], '#'), Split(results[3], '@');
    var identifier, repositoryType := Trim(repo[0]), RepositoryType(repo);
    var base := BaseRepository(results, repositoryType);
    Fields(
      if |pkg| >= 2 then pkg[0] else Trim(FirstPart(pkg[0])),
      if |pkg| >= 2 then Trim(FirstPart(pkg[1])) else "stable",
      Trim(FirstPart(results[2])),
      Trim(results[1]),
      identifier,
      Corrected(identifier, repositoryType, base),
      TypeOf(identifier, repositoryType),
      base,
      Mode(results, mainMode),
      if |results| == 7 then StripEndlineChar(results[6]) else "",
      Conditions(if |pkg| >= 2 then pkg[1] else pkg[0]) + Conditions(results[2]))
  }

  function ToString(d: Fields): string {
    d.packageName + "|" + d.version + "|" + d.name + "|" + d.identifier + "@" + d.repositoryType + "|"
    + d.baseRepository + "|" + d.mode + "|" + d.toolOptions
  }

  /** Dependency::operator==; the base repository is not compared. */
  predicate Equal(a: Fields, b: Fields) {
    && a.packageName == b.packageName && a.packageChannel == b.packageChannel && a.name == b.name
    && a.version == b.version && a.repositoryType == b.repositoryType && a.mode == b.mode
    && a.identifier == b.identifier && a.toolOptions == b.toolOptions && a.typ == b.typ
    && a.buildConditions == b.buildConditions
  }

  /** Equal dependencies are the same but for their base repository. */
  lemma EqualMeans(a: Fields, b: Fields)
    ensures Equal(a, b) <==> a == b.(baseRepository := a.baseRepository)
  {
  }

  /** The fields of a line that come from its package, version and name. */
  predicate PackageRead(results: seq<string>, packageName: string, packageChannel: string, version: string,
      name: string, buildConditions: seq<string>)
    requires |results| >= 4
  {
    var pkg := Split(results[0], '#');
    && packageName == (if |pkg| >= 2 then pkg[0] else Trim(FirstPart(pkg[0])))
    && packageChannel == (if |pkg| >= 2 then Trim(FirstPart(pkg[1])) else "stable")
    && buildConditions == Conditions(if |pkg| >= 2 then pkg[1] else pkg[0]) + Conditions(results[2])
    && version == Trim(results[1]) && name == Trim(FirstPart(results[2]))
  }

  predicate RepositoryRead(results: seq<string>, identifier: string, repositoryType: string, typ: Type,
      baseRepository: string)
    requires |results| >= 4
  {
    var repo := Split(results[3], '@');
    var t := RepositoryType(repo);
    && identifier == Trim(repo[0]) && typ == TypeOf(identifier, t) && baseRepository == BaseRepository(results, t)
    && repositoryType == Corrected(identifier, t, baseRepository)
  }

  /** Whether the line names an identifier of its own. */
  predicate HasIdentifier(results: seq<string>)
    requires |results| >= 4
  {
    var repo := Split(results[3], '@');
    var identifier, t := Trim(repo[0]), RepositoryType(repo);
    identifier != [] && (|repo| >= 2 || (identifier != t && DeduceType(t) != CONAN))
  }

  predicate ModeRead(results: seq<string>, mainMode: string, mode: string, toolOptions: string) {
    mode == Mode(results, mainMode) && toolOptions == (if |results| == 7 then StripEndlineChar(results[6]) else "")
  }

  lemma LineFields(rawFormat: string, mainMode: string, d: Fields)
    requires |Split(rawFormat, '|')| >= 4
    requires var results := Split(rawFormat, '|');
      && PackageRead(results, d.packageName, d.packageChannel, d.version, d.name, d.buildConditions)
      && RepositoryRead(results, d.identifier, d.repositoryType, d.typ, d.baseRepository)
      && ModeRead(results, mainMode, d.mode, d.toolOptions)
    ensures d == ParseLine(rawFormat, mainMode)
  {
    hide Split, Trim, RepositoryType, TypeOf, BaseRepository, Corrected, Mode, Conditions, FirstPart, StripEndlineChar;
  }

  // ---- the class ---------------------------------------------------------------------

  class Dependency {
    var packageName: string
    var packageChannel: string
    var name: string
    var version: string
    var identifier: string
    var repositoryType: string
    var typ: Type
    var baseRepository: string
    var originalBaseRepository: string
    var mode: string
    var toolOptions: string
    var buildConditions: seq<string>
    var hasOptions: bool
    var hasConditions: bool
    var hasIdentifier: bool

    function Value(): Fields
      reads this
    {
      Fields(packageName, packageChannel, name, version, identifier, repositoryType, typ, baseRepository, mode,
        toolOptions, buildConditions)
    }

    constructor (rawFormat: string, mainMode: string)
      requires |Split(rawFormat, '|')| >= 4
      ensures Value() == ParseLine(rawFormat, mainMode) && originalBaseRepository == baseRepository
      ensures (hasConditions <==> buildConditions != []) && (hasOptions <==> toolOptions != [])
      ensures hasIdentifier <==> HasIdentifier(Split(rawFormat, '|'))
    {
      hide Split, ParseLine, HasIdentifier;
      packageChannel, repositoryType := "stable", "github";
      packageName, name, version, identifier := "", "", "", "";
      baseRepository, originalBaseRepository, mode, toolOptions := "", "", "", "";
      buildConditions, typ, hasOptions, hasConditions, hasIdentifier := [], REMAKEN, false, false, false;
      new;
      ReadLine(rawFormat, mainMode);
      originalBaseRepository := baseRepository;
    }

    method ReadLine(rawFormat: string, mainMode: string)
      requires |Split(rawFormat, '|')| >= 4 && packageChannel == "stable" && baseRepository == "" && toolOptions == ""
      requires buildConditions == [] && !hasConditions && !hasOptions && !hasIdentifier
      modifies this
      ensures Value() == ParseLine(rawFormat, mainMode)
      ensures (hasConditions <==> buildConditions != []) && (hasOptions <==> toolOptions != [])
      ensures hasIdentifier <==> HasIdentifier(Split(rawFormat, '|'))
    {
      hide Split, PackageRead, RepositoryRead, ModeRead, ParseLine, HasIdentifier;
      var results := Split(rawFormat, '|');
      ReadPackage(results);
      ReadRepository(results);
      ReadModeAndOptions(results, mainMode);
      LineFields(rawFormat, mainMode, Value());
    }

    method ParseConditions(token: string) returns (firstPart: string)
      modifies this`hasConditions, this`buildConditions
      ensures firstPart == FirstPart(token) && buildConditions == old(buildConditions) + Conditions(token)
      ensures hasConditions <==> old(hasConditions) || Conditions(token) != []
    {
      var conditions := Split(token, '%');
      firstPart := conditions[0];
      if |conditions| >= 2 {
        hasConditions := true;
        for i := 1 to |conditions|
          invariant hasConditions && buildConditions == old(buildConditions) + conditions[1..i]
        {
          buildConditions := buildConditions + [conditions[i]];
        }
      }
    }

    method ReadPackage(results: seq<string>)
      requires |results| >= 4 && packageChannel == "stable" && buildConditions == [] && !hasConditions
      modifies this`packageName, this`packageChannel, this`version, this`name, this`hasConditions, this`buildConditions
      ensures PackageRead(results, packageName, packageChannel, version, name, buildConditions)
      ensures hasConditions <==> buildConditions != []
    {
      hide FirstPart, Conditions, Trim;
      var pkgInformations := Split(results[0], '#');
      if |pkgInformations| >= 2 {
        packageName := pkgInformations[0];
        var channel := ParseConditions(pkgInformations[1]);
        packageChannel := Trim(channel);
      } else {
        var first := ParseConditions(pkgInformations[0]);
        packageName := Trim(first);
      }
      version := Trim(results[1]);
      var first := ParseConditions(results[2]);
      name := Trim(first);
    }

    method ReadRepository(results: seq<string>)
      requires |results| >= 4 && baseRepository == "" && !hasIdentifier
      modifies this`identifier, this`repositoryType, this`hasIdentifier, this`typ, this`baseRepository
      ensures RepositoryRead(results, identifier, repositoryType, typ, baseRepository)
      ensures hasIdentifier <==> HasIdentifier(results)
    {
      hide Trim, Split, RepositoryType, TypeOf, BaseRepository, Corrected;
      ReadIdentifier(Split(results[3], '@'));
      ReadBaseRepository(results);
    }

    method ReadIdentifier(repositoryInformations: seq<string>)
      requires repositoryInformations != [] && !hasIdentifier
      modifies this`identifier, this`repositoryType, this`hasIdentifier, this`typ
      ensures identifier == Trim(repositoryInformations[0]) && repositoryType == RepositoryType(repositoryInformations)
      ensures typ == TypeOf(identifier, repositoryType)
      ensures hasIdentifier <==>
        (identifier != [] &&
         (|repositoryInformations| >= 2 || (identifier != repositoryType && DeduceType(repositoryType) != CONAN)))
    {
      hide Trim, DeduceType, IdentifierToRepoType;
      identifier := Trim(repositoryInformations[0]);
      repositoryType := IdentifierToRepoType(identifier);
      if |repositoryInformations| >= 2 {
        repositoryType := Trim(repositoryInformations[1]);
        hasIdentifier := identifier != [];
      }
      typ := DeduceType(repositoryType);
      if identifier != repositoryType && typ != CONAN {
        hasIdentifier := identifier != [];
        typ := DeduceType(identifier);
      }
    }

    method ReadBaseRepository(results: seq<string>)
      requires |results| >= 4 && baseRepository == ""
      modifies this`repositoryType, this`baseRepository
      ensures baseRepository == BaseRepository(results, old(repositoryType))
      ensures repositoryType == Corrected(identifier, old(repositoryType), baseRepository)
    {
      hide Trim, StripEndlineChar, Contains;
      if |results| < 5 {
        if ImpliesBase(repositoryType) {
          baseRepository := repositoryType;
        }
      } else {
        baseRepository := Trim(StripEndlineChar(results[4]));
        if baseRepository == [] && ImpliesBase(repositoryType) {
          baseRepository := repositoryType;
        }
      }
      if Contains(baseRepository, "https://github") {
        if repositoryType == "artifactory" && (identifier == "bcomBuild" || identifier == "thirdParties") {
          repositoryType := "github";
        }
      }
    }

    method ReadModeAndOptions(results: seq<string>, mainMode: string)
      requires |results| >= 4 && toolOptions == "" && !hasOptions
      modifies this`mode, this`toolOptions, this`hasOptions
      ensures ModeRead(results, mainMode, mode, toolOptions)
      ensures hasOptions <==> toolOptions != []
    {
      if |results| >= 6 {
        mode := Trim(StripEndlineChar(results[5]));
        if (mode != "static" && mode != "shared" && mode != "na") || mode == "default" {
          mode := mainMode;
        }
      } else {
        mode := mainMode;
      }
      if |results| == 7 {
        toolOptions := StripEndlineChar(results[6]);
        if toolOptions != [] {
          hasOptions := true;
        }
      }
    }
  }

  // ---- printing and reading again ------------------------------------------------------------

  /** What every line leaves in the fields. */
  ghost predicate FromLine(d: Fields, mainMode: string) {
    && '|' !in d.packageName && '#' !in d.packageName && IsPiece(d.version) && IsPiece(d.name) && '%' !in d.name
    && IsPiece(d.identifier) && '@' !in d.identifier && IsPiece(d.repositoryType) && '@' !in d.repositoryType
    && IsPiece(d.baseRepository) && (d.baseRepository == "" ==> !ImpliesBase(d.repositoryType))
    && (d.mode == mainMode || d.mode in ["static", "shared", "na"]) && '|' !in d.toolOptions
    && Corrected(d.identifier, d.repositoryType, d.baseRepository) == d.repositoryType
    && d.typ == TypeOf(d.identifier, d.repositoryType)
  }

  ghost predicate IsPiece(t: string) {
    '|' !in t && IsTrimmed(t)
  }

  lemma LinesLeave(raw: string, mainMode: string)
    requires |Split(raw, '|')| >= 4
    ensures FromLine(ParseLine(raw, mainMode), mainMode)
  {
    hide Split, Trim, IsTrimmed, Contains, Corrected, TypeOf, RepositoryType, BaseRepository, Mode, Conditions,
      FirstPart, StripEndlineChar;
    var results := Split(raw, '|');
    PackageLeaves(results);
    RepositoryLeaves(results);
    ModeLeaves(results, mainMode);
  }

  lemma PackageLeaves(results: seq<string>)
    requires |results| >= 4 && forall i | 0 <= i < |results| :: '|' !in results[i]
    ensures var pkg := Split(results[0], '#');
      var name := if |pkg| >= 2 then pkg[0] else Trim(FirstPart(pkg[0]));
      '|' !in name && '#' !in name
    ensures IsPiece(Trim(results[1])) && IsPiece(Trim(FirstPart(results[2]))) && '%' !in Trim(FirstPart(results[2]))
  {
    hide Trim;
    var pkg := Split(results[0], '#');
    assert '#' !in pkg[0] && '|' !in pkg[0];
  }

  lemma RepositoryLeaves(results: seq<string>)
    requires |results| >= 4 && forall i | 0 <= i < |results| :: '|' !in results[i]
    ensures var repo := Split(results[3], '@');
      var identifier, t := Trim(repo[0]), RepositoryType(repo);
      var base := BaseRepository(results, t);
      var corrected := Corrected(identifier, t, base);
      && IsPiece(identifier) && '@' !in identifier && IsPiece(corrected) && '@' !in corrected
      && IsPiece(base) && (base == "" ==> !ImpliesBase(corrected))
      && Corrected(identifier, corrected, base) == corrected && TypeOf(identifier, t) == TypeOf(identifier, corrected)
  {
    hide Trim, Contains, Split, StripEndlineChar;
    var repo := Split(results[3], '@');
    RepositoryTypeLeaves(results[3]);
    TypeKept(Trim(repo[0]), RepositoryType(repo), BaseRepository(results, RepositoryType(repo)));
  }

  lemma RepositoryTypeLeaves(piece: string)
    requires '|' !in piece
    ensures var repo := Split(piece, '@');
      && IsPiece(Trim(repo[0])) && '@' !in Trim(repo[0])
      && IsPiece(RepositoryType(repo)) && '@' !in RepositoryType(repo)
  {
    hide Split, Trim, IdentifierToRepoType;
    var repo := Split(piece, '@');
    assert '@' !in repo[0] && '|' !in repo[0];
    if |repo| >= 2 { assert '@' !in repo[1] && '|' !in repo[1]; }
    TableLeaves(Trim(repo[0]));
  }

  lemma TableLeaves(identifier: string)
    requires IsPiece(identifier) && '@' !in identifier
    ensures IsPiece(IdentifierToRepoType(identifier)) && '@' !in IdentifierToRepoType(identifier)
  {
  }

  lemma ModeLeaves(results: seq<string>, mainMode: string)
    requires |results| >= 4 && forall i | 0 <= i < |results| :: '|' !in results[i]
    ensures Mode(results, mainMode) == mainMode || Mode(results, mainMode) in ["static", "shared", "na"]
    ensures |results| == 7 ==> '|' !in StripEndlineChar(results[6])
  {
  }

  /** Correcting the repository type does not change the type deduced from it. */
  lemma TypeKept(identifier: string, repositoryType: string, base: string)
    ensures TypeOf(identifier, Corrected(identifier, repositoryType, base)) == TypeOf(identifier, repositoryType)
  {
  }

  /** toString as pieces. */
  function Pieces(d: Fields): seq<string> {
    [d.packageName, d.version, d.name, d.identifier + "@" + d.repositoryType, d.baseRepository, d.mode, d.toolOptions]
  }

  lemma PrintedPieces(d: Fields, mainMode: string)
    requires FromLine(d, mainMode) && '|' !in mainMode
    ensures Split(ToString(d), '|') == Pieces(d)
  {
    hide Split, Corrected, TypeOf, IsTrimmed;
    JoinPieces(d);
    var p := Pieces(d);
    assert forall i | 0 <= i < |p| :: '|' !in p[i];
    SplitJoin(p, '|');
  }

  lemma RegroupPieces(x: string, y: string, z: string)
    ensures x + "|" + y + "|" + z == x + "|" + (y + "|" + z)
  {
  }

  lemma JoinPieces(d: Fields)
    ensures ToString(d) == Join(Pieces(d), '|')
  {
    var p := Pieces(d);
    var l1 := d.packageName + "|" + d.version;
    var l2 := l1 + "|" + d.name;
    var l3 := l2 + "|" + p[3];
    var l4 := l3 + "|" + d.baseRepository;
    assert ToString(d) == l4 + "|" + d.mode + "|" + d.toolOptions by {
      assert l2 + "|" + d.identifier + "@" + d.repositoryType == l3;
    }
    JoinTwo(p, 5);
    JoinStep(p, 4);
    JoinStep(p, 3);
    JoinStep(p, 2);
    JoinStep(p, 1);
    JoinStep(p, 0);
    assert p[0..] == p;
    RegroupPieces(l4, p[5], p[6]);
    RegroupPieces(l3, p[4], Join(p[5..], '|'));
    RegroupPieces(l2, p[3], Join(p[4..], '|'));
    RegroupPieces(l1, p[2], Join(p[3..], '|'));
    RegroupPieces(p[0], p[1], Join(p[2..], '|'));
  }

  lemma JoinTwo(p: seq<string>, i: nat)
    requires i + 2 == |p|
    ensures Join(p[i..], '|') == p[i] + "|" + p[i + 1]
  {
    assert p[i..] == [p[i], p[i + 1]];
    assert [p[i], p[i + 1]][1..] == [p[i + 1]];
  }

  lemma JoinStep(p: seq<string>, i: nat)
    requires i + 1 < |p|
    ensures Join(p[i..], '|') == p[i] + "|" + Join(p[i + 1..], '|')
  {
    assert p[i..][1..] == p[i + 1..];
  }

  /** The exact condition for a line to survive being printed. */
  predicate Printable(d: Fields) {
    && d.packageChannel == "stable" && d.buildConditions == []
    && '%' !in d.packageName && IsTrimmed(d.packageName)
    && (d.toolOptions == "" || d.toolOptions[|d.toolOptions| - 1] != CR)
  }

  /** Reading what toString printed gives an equal dependency, with the same base repository, exactly
      when it had no channel but the default one, no condition and no option that ends in CR (and no
      package name that its channel kept from being trimmed or split). */
  lemma ReadPrinted(raw: string, mainMode: string)
    requires |Split(raw, '|')| >= 4 && '|' !in mainMode && IsTrimmed(mainMode)
    ensures var d := ParseLine(raw, mainMode);
      && |Split(ToString(d), '|')| >= 4
      && var r := ParseLine(ToString(d), mainMode);
        && r.baseRepository == d.baseRepository
        && (Equal(r, d) <==> Printable(d))
  {
    hide Split, Trim, IsTrimmed, Contains, Corrected, TypeOf, RepositoryType, BaseRepository, Mode, FirstPart,
      Conditions, StripEndlineChar, ToString, IsPiece;
    var d := ParseLine(raw, mainMode);
    LinesLeave(raw, mainMode);
    PrintedPieces(d, mainMode);
    PackageReread(d);
    PlainReread(d.version);
    PlainReread(d.name);
    RepositoryReread(d);
    BaseReread(d);
    ModeReread(d, mainMode);
  }

  /** Whatever fields a line can give, with a plain package name, the default channel and no condition:
      printed, they are read back one by one, whatever the main mode. */
  lemma FieldsReread(d: Fields, mainMode: string)
    requires FromLine(d, d.mode) && d.mode in ["static", "shared", "na"] && Printable(d)
    ensures |Split(ToString(d), '|')| >= 4 && ParseLine(ToString(d), mainMode) == d
  {
    hide Split, Trim, IsTrimmed, Contains, Corrected, TypeOf, RepositoryType, BaseRepository, Mode, FirstPart,
      Conditions, StripEndlineChar, ToString, IsPiece;
    PrintedPieces(d, d.mode);
    PackageReread(d);
    PlainReread(d.version);
    PlainReread(d.name);
    RepositoryReread(d);
    BaseReread(d);
    ModeGiven(d, mainMode);
    ModeReread(d, d.mode);
  }

  lemma ModeGiven(d: Fields, mainMode: string)
    requires d.mode in ["static", "shared", "na"]
    ensures Mode(Pieces(d), mainMode) == d.mode && IsTrimmed(d.mode)
  {
    hide Trim;
    assert IsTrimmed(d.mode) && StripEndlineChar(d.mode) == d.mode;
  }

  lemma PackageReread(d: Fields)
    requires '#' !in d.packageName && IsPiece(d.name) && '%' !in d.name
    ensures Split(d.packageName, '#') == [d.packageName]
    ensures Trim(FirstPart(d.packageName)) == d.packageName <==> '%' !in d.packageName && IsTrimmed(d.packageName)
    ensures Conditions(d.packageName) == [] <==> '%' !in d.packageName
    ensures Trim(FirstPart(d.name)) == d.name && Conditions(d.name) == []
  {
    hide Split, Trim;
    SplitOne(d.packageName, '#');
    SplitOne(d.name, '%');
    if '%' !in d.packageName {
      SplitOne(d.packageName, '%');
    } else {
      NotOnePiece(d.packageName);
    }
  }

  lemma NotOnePiece(s: string)
    requires '%' in s
    ensures |Split(s, '%')| >= 2 && '%' !in FirstPart(s)
  {
    SplitMore(s, '%');
    assert '%' !in Split(s, '%')[0];
  }

  lemma PlainReread(t: string)
    requires IsPiece(t)
    ensures Trim(t) == t
  {
  }

  lemma RepositoryReread(d: Fields)
    requires IsPiece(d.identifier) && '@' !in d.identifier && IsPiece(d.repositoryType) && '@' !in d.repositoryType
    ensures var repo := Split(d.identifier + "@" + d.repositoryType, '@');
      && repo == [d.identifier, d.repositoryType]
      && Trim(repo[0]) == d.identifier && RepositoryType(repo) == d.repositoryType
  {
    hide Split, Trim;
    SplitOne(d.repositoryType, '@');
    SplitAfter(d.identifier, d.repositoryType, '@');
  }

  lemma BaseReread(d: Fields)
    requires IsPiece(d.baseRepository) && (d.baseRepository == "" ==> !ImpliesBase(d.repositoryType))
    ensures BaseRepository(Pieces(d), d.repositoryType) == d.baseRepository
  {
    hide Trim, ToString;
  }

  lemma ModeReread(d: Fields, mainMode: string)
    requires IsTrimmed(mainMode) && (d.mode == mainMode || d.mode in ["static", "shared", "na"])
    ensures Mode(Pieces(d), mainMode) == d.mode
    ensures StripEndlineChar(d.toolOptions) == d.toolOptions <==>
      d.toolOptions == "" || d.toolOptions[|d.toolOptions| - 1] != CR
  {
    hide Trim;
    assert IsTrimmed(d.mode) && StripEndlineChar(d.mode) == d.mode;
  }

  const WITH_CHANNEL := "p#beta|1|n|conan"

  /** A line with a channel: printing drops the channel, so what is read back is another dependency. */
  lemma ChannelLost(mainMode: string)
    requires '|' !in mainMode && IsTrimmed(mainMode)
    ensures |Split(WITH_CHANNEL, '|')| >= 4
    ensures var d := ParseLine(WITH_CHANNEL, mainMode);
      && d.packageChannel == "beta" && |Split(ToString(d), '|')| >= 4 && !Equal(ParseLine(ToString(d), mainMode), d)
  {
    hide Split, Trim, ToString, Equal, ParseLine, IsTrimmed;
    ChannelPieces();
    ChannelOf(WITH_CHANNEL, mainMode, "p", "beta");
    ReadPrinted(WITH_CHANNEL, mainMode);
  }

  lemma ChannelOf(raw: string, mainMode: string, name: string, channel: string)
    requires |Split(raw, '|')| >= 4 && Split(Split(raw, '|')[0], '#') == [name, channel]
    ensures ParseLine(raw, mainMode).packageChannel == Trim(FirstPart(channel))
  {
    hide Split, Trim, FirstPart, RepositoryType, BaseRepository, Corrected, TypeOf, Mode, Conditions, StripEndlineChar;
  }

  lemma ChannelPieces()
    ensures Split(WITH_CHANNEL, '|') == ["p#beta", "1", "n", "conan"] && Split("p#beta", '#') == ["p", "beta"]
    ensures Trim(FirstPart("beta")) == "beta"
  {
    hide Split, Trim;
    FourPieces("p#beta", "1", "n", "conan", '|');
    assert "p#beta" + ['|'] + ("1" + ['|'] + ("n" + ['|'] + "conan")) == WITH_CHANNEL;
    SplitOne("beta", '#');
    SplitAfter("p", "beta", '#');
    assert "p" + ['#'] + "beta" == "p#beta";
    SplitOne("beta", '%');
    PlainReread("beta");
  }

  lemma FourPieces(a: string, b: string, c: string, d: string, sep: char)
    requires sep !in a && sep !in b && sep !in c && sep !in d
    ensures Split(a + [sep] + (b + [sep] + (c + [sep] + d)), sep) == [a, b, c, d]
  {
    hide Split;
    SplitOne(d, sep);
    SplitAfter(c, d, sep);
    SplitAfter(b, c + [sep] + d, sep);
    SplitAfter(a, b + [sep] + (c + [sep] + d), sep);
  }

  /** A line without channel, conditions and carriage returns, as it is written, survives being printed. */
  lemma PlainLineReread(raw: string, mainMode: string)
    requires |Split(raw, '|')| >= 4 && '|' !in mainMode && IsTrimmed(mainMode)
    requires '#' !in raw && '%' !in raw && CR !in raw
    ensures var d := ParseLine(raw, mainMode);
      |Split(ToString(d), '|')| >= 4 && Equal(ParseLine(ToString(d), mainMode), d)
  {
    hide Split, Trim, ToString, Equal, ParseLine, IsTrimmed;
    ReadPrinted(raw, mainMode);
    PlainLine(raw, mainMode);
  }

  lemma PlainLine(raw: string, mainMode: string)
    requires |Split(raw, '|')| >= 4 && '#' !in raw && '%' !in raw && CR !in raw
    ensures Printable(ParseLine(raw, mainMode))
  {
    hide Split, TrimLeft, TrimRight, RepositoryType, BaseRepository, Corrected, TypeOf, Mode;
    var results := Split(raw, '|');
    assert forall i | 0 <= i < |results| :: '#' !in results[i] && '%' !in results[i] && CR !in results[i];
    SplitOne(results[0], '#');
    SplitOne(results[0], '%');
    SplitOne(results[2], '%');
  }

  /** The conditions of a line have no line feed if the line has none. */
  lemma ConditionsOneLine(raw: string, mainMode: string, c: string)
    requires |Split(raw, '|')| >= 4 && LF !in raw && c in ParseLine(raw, mainMode).buildConditions
    ensures LF !in c
  {
    hide Split, Trim, RepositoryType, BaseRepository, Corrected, TypeOf, Mode, FirstPart, StripEndlineChar;
    var results := Split(raw, '|');
    var pkg := Split(results[0], '#');
    assert LF !in results[0] && LF !in results[2];
    assert forall i | 0 <= i < |pkg| :: LF !in pkg[i];
    PartOf(if |pkg| >= 2 then pkg[1] else pkg[0], c);
    PartOf(results[2], c);
  }

  lemma PartOf(token: string, c: string)
    requires LF !in token
    ensures c in Conditions(token) ==> LF !in c
  {
    hide Split;
    if c in Conditions(token) {
      var i :| 0 <= i < |Conditions(token)| && Conditions(token)[i] == c;
      assert Split(token, '%')[i + 1] == c;
    }
  }
}
