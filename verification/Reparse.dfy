/** Loading a document, saving it and loading it again: what comes back, for every first buffer, and
    when that is the same document. */
module Reparse {
  import opened XmlUtil
  import opened CharacterRef
  import opened Decode
  import opened PrinterSpec
  import opened Escaping
  import opened TreeMeaning
  import opened RoundTripLeaves
  import opened ParserSound
  import opened Tokens
  import Rereading
  import RootNodes
  import P = ParserSpec
  import X = XmlTree

  // ---- what is loaded can be stored ------------------------------------------------------

  lemma LeafStorable(s: string, n: P.Node)
    requires !n.Element? && SoundLeaf(s, n, OPTIONS)
    ensures X.Storable(TreeOf(s, n))
  {
    hide Meaning, X.FreeOf, IsBlank, X.Unix;
    var v := P.Raw(s, n.value);
    BodyMeaning(v);
    match n
    case Text(r, cdata, _) => if cdata { BodyStorable(v, "]]>"); } else { StrNulFree(s, r); }
    case Comment(_, _) => BodyStorable(v, "-->");
    case Declaration(_, _) => BodyStorable(v, "?>");
    case Unknown(_, _) =>
      BodyStorable(v, ">");
      if "--" <= X.Unix(v) { Rereading.UnixPrefix(v, "--"); }
      if "[CDATA[" <= X.Unix(v) { Rereading.UnixPrefix(v, "[CDATA["); }
  }

  lemma StrNulFree(s: string, r: P.Range)
    requires !r.flags.collapse
    ensures NUL !in Str(s, r)
  {
    hide DecodeFrom;
  }

  lemma BodyStorable(v: string, tag: string)
    requires NUL !in v && X.FreeOf(v, tag) && tag != [] && LF !in tag
    ensures NUL !in Meaning(v, NEWLINES) && X.FreeOf(Meaning(v, NEWLINES), tag)
  {
    hide Meaning, X.Unix, X.FreeOf;
    BodyMeaning(v);
    UnixNulFree(v);
    Rereading.BodyKept(v, tag);
  }

  lemma NameMeaning(s: string, r: P.Range)
    requires IsNameRange(s, r)
    ensures Str(s, r) == P.Raw(s, r) && IsName(Str(s, r))
  {
    hide Meaning;
    BodyMeaning(P.Raw(s, r));
  }

  lemma AttributesStorable(s: string, attributes: seq<P.Attribute>)
    requires SoundAttributes(s, attributes, OPTIONS)
    ensures X.DistinctNames(AttrsOf(s, attributes))
    ensures forall a | a in AttrsOf(s, attributes) :: IsName(a.name) && NUL !in a.value
  {
    hide Meaning, IsNameRange, IsName;
    var xs := AttrsOf(s, attributes);
    forall i | 0 <= i < |xs|
      ensures xs[i].name == P.Raw(s, attributes[i].name) && IsName(xs[i].name) && NUL !in xs[i].value
    {
      assert attributes[i] in attributes;
      NameMeaning(s, attributes[i].name);
      StrNulFree(s, attributes[i].value);
    }
  }

  lemma ShapeKept(s: string, n: P.Node)
    ensures TreeOf(s, n).Declaration? == n.Declaration? && TreeOf(s, n).Text? == n.Text?
    ensures TreeOf(s, n).IsPlainText() == IsPlainText(n)
  {
    hide Str;
  }

  lemma NeighboursKept(s: string, ns: seq<P.Node>)
    requires NoAdjacentText(ns)
    ensures X.NoAdjacentText(TreesOf(s, ns))
  {
    hide TreeOf, TreesOf;
    forall i | 0 <= i < |ns| ensures TreesOf(s, ns)[i].IsPlainText() == IsPlainText(ns[i]) {
      TreesOfIndex(s, ns, i);
      ShapeKept(s, ns[i]);
    }
  }

  /** A sound node is a storable tree, and the nesting below it fits in the depth that is left. */
  lemma {:induction false} NodeStorable(s: string, lo: nat, hi: nat, depth: nat, n: P.Node)
    requires Sound(s, lo, hi, depth, n, OPTIONS) && depth < P.MAX_ELEMENT_DEPTH
    ensures X.Storable(TreeOf(s, n)) && depth + X.Nesting(TreeOf(s, n)) < P.MAX_ELEMENT_DEPTH
    decreases n, 0
  {
    hide Str, SoundLeaf, SoundAttributes, SoundChildren, EndTagAt, IsNameRange, IsName, X.DistinctNames, TreesOf,
      AttrsOf, NoAdjacentText,
      X.NoAdjacentText;
    match n
    case Element(name, attributes, closing, children, _) =>
      NameMeaning(s, name);
      AttributesStorable(s, attributes);
      if closing == P.Open {
        var k :| name.end < k < hi && EndTagAt(s, k, P.Raw(s, name)) &&
          SoundAll(s, name.end, k, depth + 1, children, OPTIONS);
        NodesStorable(s, name.end, k, depth + 1, children);
      } else {
        NodesStorable(s, 0, 0, depth, children);
      }
      ChildrenStorable(s, children);
    case _ => LeafStorable(s, n);
  }

  lemma ChildrenStorable(s: string, children: seq<P.Node>)
    requires SoundChildren(children)
    ensures (forall c | c in TreesOf(s, children) :: !c.Declaration?) && X.NoAdjacentText(TreesOf(s, children))
  {
    hide TreesOf, TreeOf, NoAdjacentText, X.NoAdjacentText;
    NeighboursKept(s, children);
    forall i | 0 <= i < |children| ensures !TreesOf(s, children)[i].Declaration? {
      assert children[i] in children;
      TreesOfIndex(s, children, i);
      ShapeKept(s, children[i]);
    }
  }

  lemma {:induction false} NodesStorable(s: string, lo: nat, hi: nat, depth: nat, ns: seq<P.Node>)
    requires SoundAll(s, lo, hi, depth, ns, OPTIONS) && depth < P.MAX_ELEMENT_DEPTH
    ensures forall t | t in TreesOf(s, ns) :: X.Storable(t)
    ensures depth + X.MaxNesting(TreesOf(s, ns)) < P.MAX_ELEMENT_DEPTH
    decreases ns, 1
  {
    hide Sound, TreeOf, X.Storable, X.Nesting;
    if ns != [] {
      var m :| lo <= m <= hi && Sound(s, lo, m, depth, ns[0], OPTIONS) && SoundAll(s, m, hi, depth, ns[1..], OPTIONS);
      assert ns[0] in ns && forall n | n in ns[1..] :: n in ns;
      NodeStorable(s, lo, m, depth, ns[0]);
      NodesStorable(s, m, hi, depth, ns[1..]);
      assert TreesOf(s, ns)[1..] == TreesOf(s, ns[1..]);
    }
  }

  // ---- documents -----------------------------------------------------------------------------

  lemma DocumentShape(s: string, ns: seq<P.Node>)
    requires DeclarationsFirst(ns)
    ensures X.DeclarationsFirst(TreesOf(s, ns))
  {
    hide TreesOf, TreeOf;
    var ts := TreesOf(s, ns);
    forall i | 0 <= i < |ns| ensures ts[i].Declaration? == ns[i].Declaration? {
      TreesOfIndex(s, ns, i);
      ShapeKept(s, ns[i]);
    }
  }

  /** Every document that is loaded can be stored. */
  lemma LoadedIsStorable(s: string)
    requires Terminated(s)
    ensures X.StorableDoc(DocOf(s, P.ParseDocument(s, OPTIONS)))
  {
    hide P.ParseDocument, SoundAll, X.Storable, X.DeclarationsFirst, NoAdjacentText, X.NoAdjacentText,
      DeclarationsFirst, TreesOf;
    var p := P.ParseDocument(s, OPTIONS);
    var lo, hi := DocumentSound(s, OPTIONS);
    NodesStorable(s, lo, hi, 1, p.children);
    NeighboursKept(s, p.children);
    DocumentShape(s, p.children);
  }

  /** The buffer of a saved document. */
  function Saved(d: X.Doc, m: Mode): (s: string)
    ensures Terminated(s)
  {
    PrintDocument(d, m) + [NUL]
  }

  function Load(s: string): X.Doc
    requires Terminated(s)
  {
    DocOf(s, P.ParseDocument(s, OPTIONS))
  }

  predicate Loads(s: string)
    requires Terminated(s)
  {
    P.ParseDocument(s, OPTIONS).err == None
  }

  /** For every buffer, and what it loads as: saved, that loads again exactly if there is something to
      read and no text at its end; then it is known what it loads as, and it is the same document
      exactly when no value has a CR, no text is blank, and no text between the nodes of the document
      stands where printing adds a line feed or at the start where blanks and marks are skipped. */
  lemma ReloadStable(s: string, m: Mode)
    requires Terminated(s) && m.entities
    ensures var d := Load(s); var s1 := Saved(d, m);
      && X.StorableDoc(d) && (Loads(s1) <==> X.ReadsBack(d))
      && (Loads(s1) ==> Load(s1) == X.RereadDoc(d, !m.compact) && (Load(s1) == d <==> X.Survives(d, !m.compact)))
  {
    hide P.ParseDocument, PrintDocument, X.StorableDoc, X.RereadDoc, DocOf, X.Survives, X.ReadsBack;
    var d := Load(s);
    LoadedIsStorable(s);
    RootNodes.DocumentReread(d, m);
    X.RereadDocSame(d, !m.compact);
  }

  /** What the second load gives is kept by every further save and load, in any mode m' that adds
      nothing to the texts between its nodes: always in compact mode, and always without such texts. */
  lemma ReloadSettles(s: string, m: Mode, m': Mode)
    requires Terminated(s) && m.entities && m'.entities && Loads(Saved(Load(s), m))
    ensures var d1 := Load(Saved(Load(s), m)); var s2 := Saved(d1, m');
      && (Loads(s2) <==> d1.children != [])
      && (Loads(s2) ==> (Load(s2) == d1 <==> X.NothingAdded(d1.children, !m'.compact)))
      && (m'.compact || (forall t | t in d1.children :: !t.IsPlainText()) ==> X.NothingAdded(d1.children, !m'.compact))
  {
    hide P.ParseDocument, PrintDocument, X.StorableDoc, X.RereadDoc, DocOf, X.Started, X.SettledAll, X.NothingAdded,
      X.EndsInText;
    var d := Load(s);
    LoadedIsStorable(s);
    RootNodes.DocumentReread(d, m);
    Rereading.DocumentKept(d, !m.compact);
    var d1 := X.RereadDoc(d, !m.compact);
    RootNodes.DocumentReread(d1, m');
    X.RereadDocSame(d1, !m'.compact);
    StartsWithSomething(d1);
    NeverAdded(d1.children, !m'.compact);
  }

  lemma StartsWithSomething(d: X.Doc)
    requires X.SettledAll(d.children) && X.StartsAsIs(d) && !X.EndsInText(d.children)
    ensures X.ReadsBack(d) <==> d.children != []
  {
    X.StartKept(d);
    assert X.Text([], false).IsBlankText() && (d.children != [] ==> d.children[0] in d.children);
  }

  lemma NeverAdded(ts: seq<X.Tree>, pretty: bool)
    ensures !pretty || (forall t | t in ts :: !t.IsPlainText()) ==> X.NothingAdded(ts, pretty)
  {
  }

  // ---- which values survive, in the text itself --------------------------------------------------

  /** An attribute value that is written without stray ampersands and without a reference to CR. */
  ghost predicate SafeValue(v: string) {
    exists ts :: Spells(ts, v) && !RefersToCR(ts)
  }

  /** A text that moreover has some token that does not stand for blanks. */
  ghost predicate SafeText(v: string) {
    exists ts :: Spells(ts, v) && !RefersToCR(ts) && !StandsForBlanks(ts)
  }

  ghost predicate Spells(ts: seq<Token>, v: string) {
    Written(ts) && SourceAll(ts) == v
  }

  ghost predicate RefersToCR(ts: seq<Token>)
    requires Written(ts)
  {
    exists t :: t in BeforeNul(ts) && t.Valid() && t.RefersTo(13)
  }

  ghost predicate StandsForBlanks(ts: seq<Token>)
    requires Written(ts)
  {
    forall t | t in BeforeNul(ts) :: t.Valid() && IsBlank(t.Text())
  }

  const VALUE := Flags(true, true, false)

  lemma SafeMeaning(v: string)
    ensures SafeValue(v) ==> CR !in Meaning(v, VALUE)
    ensures SafeText(v) ==> CR !in Meaning(v, VALUE) && !IsBlank(Meaning(v, VALUE))
  {
    hide Meaning, Written, SourceAll, BeforeNul, Token.Valid, Token.RefersTo, Token.Text, IsBlank;
    if SafeValue(v) {
      var ts :| Spells(ts, v) && !RefersToCR(ts);
      CarriageReturns(ts);
    }
    if SafeText(v) {
      var ts :| Spells(ts, v) && !RefersToCR(ts) && !StandsForBlanks(ts);
      CarriageReturns(ts);
      Blanks(ts);
    }
  }

  /** Every attribute value and every text of the node is safe. */
  ghost predicate Safe(s: string, n: P.Node)
    decreases n, 0
  {
    match n
    case Element(_, attributes, _, children, _) =>
      (forall a | a in attributes :: SafeValue(P.Raw(s, a.value))) && SafeAll(s, children)
    case Text(v, cdata, _) => cdata || SafeText(P.Raw(s, v))
    case _ => true
  }

  ghost predicate SafeAll(s: string, ns: seq<P.Node>)
    decreases ns, 1
  {
    forall n | n in ns :: Safe(s, n)
  }

  lemma LeafSettled(s: string, n: P.Node)
    requires !n.Element? && SoundLeaf(s, n, OPTIONS) && Safe(s, n)
    ensures X.Settled(TreeOf(s, n)) && !TreeOf(s, n).IsBlankText()
  {
    hide Meaning, SafeValue, SafeText, X.Unix, IsBlank, X.FreeOf;
    var v := P.Raw(s, n.value);
    BodyMeaning(v);
    SafeMeaning(v);
  }

  lemma AttributesSettled(s: string, attributes: seq<P.Attribute>)
    requires SoundAttributes(s, attributes, OPTIONS) && forall a | a in attributes :: SafeValue(P.Raw(s, a.value))
    ensures forall a | a in AttrsOf(s, attributes) :: CR !in a.value
  {
    hide Meaning, SafeValue, SafeText, IsNameRange;
    var xs := AttrsOf(s, attributes);
    forall i | 0 <= i < |xs| ensures CR !in xs[i].value {
      assert attributes[i] in attributes;
      SafeMeaning(P.Raw(s, attributes[i].value));
    }
  }

  lemma {:induction false} NodeSettled(s: string, lo: nat, hi: nat, depth: nat, n: P.Node)
    requires Sound(s, lo, hi, depth, n, OPTIONS) && Safe(s, n)
    ensures X.Settled(TreeOf(s, n)) && !TreeOf(s, n).IsBlankText()
    decreases n, 0
  {
    hide Str, SoundLeaf, SoundAttributes, SoundChildren, EndTagAt, IsNameRange, TreesOf, AttrsOf, SafeValue, SafeText,
      X.SettledAll;
    match n
    case Element(name, attributes, closing, children, _) =>
      AttributesSettled(s, attributes);
      if closing == P.Open {
        var k :| name.end < k < hi && EndTagAt(s, k, P.Raw(s, name)) &&
          SoundAll(s, name.end, k, depth + 1, children, OPTIONS);
        NodesSettled(s, name.end, k, depth + 1, children);
      } else {
        NodesSettled(s, 0, 0, depth, children);
      }
    case _ => LeafSettled(s, n);
  }

  lemma {:induction false} NodesSettled(s: string, lo: nat, hi: nat, depth: nat, ns: seq<P.Node>)
    requires SoundAll(s, lo, hi, depth, ns, OPTIONS) && SafeAll(s, ns)
    ensures X.SettledAll(TreesOf(s, ns))
    decreases ns, 1
  {
    hide Sound, Safe, TreeOf, X.Settled, IsBlank;
    if ns != [] {
      var m :| lo <= m <= hi && Sound(s, lo, m, depth, ns[0], OPTIONS) && SoundAll(s, m, hi, depth, ns[1..], OPTIONS);
      assert ns[0] in ns && forall n | n in ns[1..] :: n in ns;
      NodeSettled(s, lo, m, depth, ns[0]);
      NodesSettled(s, m, hi, depth, ns[1..]);
      assert TreesOf(s, ns)[1..] == TreesOf(s, ns[1..]);
    }
  }

  /** A text whose values use known entities and valid references, none to CR, and whose texts do not
      stand for blanks only, is loaded to a settled document: if all its texts are below elements,
      saving and loading keeps it. */
  lemma SafeTextSurvives(s: string, m: Mode)
    requires Terminated(s) && m.entities && SafeAll(s, P.ParseDocument(s, OPTIONS).children)
    ensures X.SettledAll(Load(s).children)
    ensures Load(s).children != [] && (forall t | t in Load(s).children :: !t.IsPlainText()) ==>
      Loads(Saved(Load(s), m)) && Load(Saved(Load(s), m)) == Load(s)
  {
    hide P.ParseDocument, Saved, SoundAll, SafeAll, X.SettledAll, TreesOf, NoAdjacentText, DeclarationsFirst,
      X.NothingAdded;
    var lo, hi := DocumentSound(s, OPTIONS);
    NodesSettled(s, lo, hi, 1, P.ParseDocument(s, OPTIONS).children);
    ReloadStable(s, m);
    var d := Load(s);
    if d.children != [] && forall t | t in d.children :: !t.IsPlainText() {
      assert d.children[0] in d.children && d.children[|d.children| - 1] in d.children;
      NeverAdded(d.children, !m.compact);
    }
  }

  // ---- named entities only --------------------------------------------------------------------------

  /** Every ampersand starts one of the five named entities. */
  predicate NamedEntitiesOnly(v: string) {
    forall i | 0 <= i < |v| && v[i] == '&' :: Ch(v, i + 1) != '#' && FindEntity(v, i, 0).Some?
  }

  /** No token begins with "&#". */
  predicate Entityless(t: Token) {
    !t.Reference? && !t.Kept? && !t.Dropped?
  }

  lemma {:induction false} NoReferences(ts: seq<Token>, v: string, i: nat, t: Token)
    requires Written(ts) && i <= |v| && SourceAll(ts) == v[i..] && NamedEntitiesOnly(v) && t in ts
    ensures Entityless(t)
    decreases |ts|
  {
    hide Token.Valid, NamedEntitiesOnly, Token.Before;
    TokenShape(v, i, ts);
    if t == ts[0] {
      NotBeforeHash(v, i, t);
    } else {
      assert t in ts[1..];
      NoReferences(ts[1..], v, i + |ts[0].Source()|, t);
    }
  }

  lemma NotBeforeHash(v: string, i: nat, t: Token)
    requires Stands(v, i, t) && NamedEntitiesOnly(v)
    ensures Entityless(t)
  {
    hide Value, FindEntity, NoReferenceAt, AllDigits;
    AtIndex(v, i, t.Source(), 0);
    if t.Reference? {
      AtIndex(v, i, t.Source(), 1);
    }
  }

  /** Such a token stands for blanks only if blanks are written. */
  lemma {:induction false} BlankTokens(ts: seq<Token>, c: char)
    requires Written(ts) && (forall t | t in ts :: Entityless(t) && IsBlank(t.Text())) && c in SourceAll(ts)
    ensures IsWhiteSpace(c)
  {
    var t := ts[0];
    assert t in ts && forall u | u in ts[1..] :: u in ts;
    if c in t.Source() {
      NotBlankEntity(t);
      assert t.Literal? ==> c == t.c && t.c in t.Text();
    } else {
      BlankTokens(ts[1..], c);
    }
  }

  lemma NotBlankEntity(t: Token)
    requires t.Valid()
    ensures t.Named? ==> !IsBlank(t.Text())
  {
    if t.Named? {
      assert ENTITIES[t.k].value in t.Text();
    }
  }

  lemma {:induction false} AllBeforeNul(ts: seq<Token>)
    requires Written(ts) && forall t | t in ts :: Entityless(t)
    ensures BeforeNul(ts) == ts
  {
    if ts != [] {
      AllBeforeNul(ts[1..]);
      assert ts[0] in ts;
    }
  }

  /** With the five named entities only, every value is safe, and so is every text that is not blank
      as it is written. */
  lemma NamedEntitiesSafe(v: string)
    requires NUL !in v && NamedEntitiesOnly(v)
    ensures SafeValue(v) && (!IsBlank(v) ==> SafeText(v))
  {
    hide FindEntity, Written, SourceAll, BeforeNul, Token.Valid, Token.Text, IsBlank, ReferencesFit;
    assert AmpersandsMeant(v);
    var ts := Tokenise(v, 0);
    assert v[0..] == v;
    forall t | t in ts ensures Entityless(t) {
      NoReferences(ts, v, 0, t);
    }
    AllBeforeNul(ts);
    assert Spells(ts, v) && !RefersToCR(ts);
    if StandsForBlanks(ts) {
      forall c | c in v ensures IsWhiteSpace(c) {
        BlankTokens(ts, c);
      }
      AllIsBlank(v);
    }
  }

  lemma AllIsBlank(v: string)
    requires forall c | c in v :: IsWhiteSpace(c)
    ensures IsBlank(v)
  {
  }
}
