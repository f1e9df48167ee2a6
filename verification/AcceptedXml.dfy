/** Every text that is written as in WrittenXml.dfy is parsed without an error, to what it means. */
module AcceptedXml {
  import opened XmlUtil
  import opened Decode
  import opened Scanning
  import opened TreeMeaning
  import opened WrittenXml
  import P = ParserSpec
  import X = XmlTree

  // ---- tokens ------------------------------------------------------------------------------

  lemma GapSkipped(s: string, p: nat, w: string)
    requires Terminated(s) && At(s, p, w) && IsGap(w) && p + |w| < |s| && !IsWhiteSpace(s[p + |w|])
    ensures SkipWS(s, p) == p + |w|
  {
    SameGap(w);
    forall k | p <= k < p + |w| ensures IsWhiteSpace(s[k]) {
      AtIndex(s, p, w, k - p);
      assert w[k - p] in w;
    }
    SkipWSUnique(s, p, p + |w|);
  }

  lemma NameFound(s: string, p: nat, name: string)
    requires Terminated(s) && IsXmlName(name) && At(s, p, name) && p + |name| < |s| && !IsNameChar(s[p + |name|])
    ensures IsNameStartChar(s[p]) && !IsWhiteSpace(s[p]) && s[p] != '/' && NameEnd(s, p) == p + |name|
    ensures var r := P.Range(p, p + |name|, PLAIN); P.Raw(s, r) == Str(s, r) == name
  {
    hide Meaning, Str, P.Raw, IsNameChar;
    SameWord(name);
    NameMeaning(name);
    AtIndex(s, p, name, 0);
    forall k | p <= k < p + |name| ensures IsNameChar(s[k]) {
      AtIndex(s, p, name, k - p);
      assert name[k - p] in name;
    }
    NameEndUnique(s, p, p + |name|);
    RawAt(s, p, name, PLAIN);
    NameStarts(s[p]);
  }

  lemma NameStarts(c: char)
    requires StartsName(c)
    ensures IsNameStartChar(c) && !IsWhiteSpace(c) && c != '/'
  {
  }

  lemma NameMeaning(name: string)
    requires IsXmlName(name)
    ensures Meaning(name, PLAIN) == name
  {
    UpToNulUnique(name, name);
  }

  lemma CharFree(v: string, c: char)
    requires c !in v
    ensures X.FreeOf(v, [c])
  {
    forall i | 0 <= i < |v| ensures !At(v, i, [c]) {
      assert v[i] in v && [c][0] == c;
      assert v[i + 0] != [c][0];
    }
  }

  lemma NotBlank(c: char)
    requires c == '=' || c == '"' || c == '\'' || c == '<' || c == '>' || c == '/' || c == NUL || IsNameStartChar(c)
    ensures !IsWhiteSpace(c)
  {
  }

  // ---- attributes ----------------------------------------------------------------------------

  /** Where the pieces of an attribute stand: name, equals sign, value, end. */
  lemma AttributePieces(s: string, p: nat, a: Attribute) returns (n: nat, e: nat, v: nat, q: nat)
    requires At(s, p, a.Source())
    ensures n == p + |a.gap| && e == n + |a.name| + |a.behind| && v == e + |a.between| + 2 && q == v + |a.raw|
    ensures q + 1 == p + |a.Source()| <= |s|
    ensures At(s, p, a.gap) && At(s, n, a.name) && At(s, n + |a.name|, a.behind) && s[e] == '='
    ensures At(s, e + 1, a.between) && s[v - 1] == a.quote && At(s, v, a.raw) && s[q] == a.quote
  {
    hide At;
    n := p + |a.gap|;
    e := n + |a.name| + |a.behind|;
    v := e + |a.between| + 2;
    q := v + |a.raw|;
    AtSplit(s, p, a.gap + a.name + a.behind + "=" + a.between + [a.quote] + a.raw, [a.quote]);
    AtSplit3(s, p, a.gap + a.name + a.behind + "=" + a.between, [a.quote], a.raw);
    AtSplit3(s, p, a.gap + a.name + a.behind, "=", a.between);
    AtSplit3(s, p, a.gap, a.name, a.behind);
    AtIndex(s, e, "=", 0);
    AtIndex(s, v - 1, [a.quote], 0);
    AtIndex(s, q, [a.quote], 0);
  }

  /** XMLAttribute::ParseDeep on a written attribute gives its name and value. */
  lemma AttributeAccepted(s: string, p: nat, a: Attribute, o: P.Options) returns (r: P.Attribute)
    requires Terminated(s) && At(s, p, a.Source()) && a.Valid()
    ensures p + |a.Source()| < |s| && SkipWS(s, p) == p + |a.gap| && IsNameStartChar(s[p + |a.gap|])
    ensures P.ParseAttribute(s, p + |a.gap|, o) == Some((r, p + |a.Source()|))
    ensures P.Raw(s, r.name) == a.name && AttrOf(s, r) == a.Meant(o)
  {
    hide Str, Meaning, FindTag, NameEnd, SkipWS, At, P.Raw, IsXmlName, IsGap;
    var n, e, v, q := AttributePieces(s, p, a);
    AfterName(s, n + |a.name|, a.behind, e);
    NameFound(s, n, a.name);
    GapSkipped(s, p, a.gap);
    GapSkipped(s, n + |a.name|, a.behind);
    GapSkipped(s, e + 1, a.between);
    CharFree(a.raw, a.quote);
    AtSlice(s, q, [a.quote]);
    TagFound(s, v, a.raw, [a.quote]);
    RawAt(s, v, a.raw, P.ValueFlags(o));
    r := P.Attribute(P.Range(n, n + |a.name|, PLAIN), P.Range(v, q, P.ValueFlags(o)), LineAt(s, n));
  }

  /** A name ends at blanks or at the equals sign behind them. */
  lemma AfterName(s: string, p: nat, w: string, e: nat)
    requires At(s, p, w) && IsGap(w) && e == p + |w| < |s| && !IsNameChar(s[e])
    ensures !IsNameChar(s[p])
  {
    SameGap(w);
    if w != [] {
      AtIndex(s, p, w, 0);
      assert w[0] in w;
    }
  }

  /** None of the attributes read so far has one of the names still to come. */
  ghost predicate NewNames(s: string, soFar: seq<P.Attribute>, attributes: seq<Attribute>) {
    forall a, b | a in soFar && b in attributes :: P.Raw(s, a.name) != b.name
  }

  lemma {:induction false} AttributesAccepted(s: string, p: nat, attributes: seq<Attribute>, soFar: seq<P.Attribute>,
      line: nat, o: P.Options)
    returns (all: seq<P.Attribute>)
    requires Terminated(s) && p < |s| && At(s, p, AttributesSource(attributes))
    requires (forall a | a in attributes :: a.Valid()) && DistinctNames(attributes) && NewNames(s, soFar, attributes)
    ensures var e := p + |AttributesSource(attributes)|;
      e < |s| && P.ParseAttributes(s, p, soFar, line, o) == P.ParseAttributes(s, e, all, line, o)
    ensures soFar <= all && AttrsOf(s, all[|soFar|..]) == AttributesMeant(attributes, o)
    ensures forall a | a in attributes :: P.HasName(s, all, a.name)
    decreases |attributes|
  {
    hide At, P.ParseAttribute, P.ParseAttributes, SkipWS, Attribute.Valid, Attribute.Source, Attribute.Meant, AttrOf,
      DistinctNames, NewNames, P.Raw, P.HasName;
    if attributes == [] {
      all := soFar;
    } else {
      var a, rest := attributes[0], attributes[1..];
      assert a in attributes && forall x | x in rest :: x in attributes;
      AtSplit(s, p, a.Source(), AttributesSource(rest));
      var r := AttributeAccepted(s, p, a, o);
      AttributeStep(s, p, a, soFar, attributes, r, line, o);
      NamesStillNew(s, soFar, r, attributes);
      all := AttributesAccepted(s, p + |a.Source()|, rest, soFar + [r], line, o);
      AttrsOfCons(s, soFar, r, all);
      NameThere(s, soFar, r, all);
    }
  }

  lemma NameThere(s: string, soFar: seq<P.Attribute>, r: P.Attribute, all: seq<P.Attribute>)
    requires soFar + [r] <= all
    ensures P.HasName(s, all, P.Raw(s, r.name))
  {
    hide P.Raw;
    assert all[|soFar|] == (soFar + [r])[|soFar|] == r;
  }

  lemma AttributeStep(s: string, p: nat, a: Attribute, soFar: seq<P.Attribute>, attributes: seq<Attribute>,
      r: P.Attribute, line: nat, o: P.Options)
    requires Terminated(s) && p < |s| && SkipWS(s, p) == p + |a.gap| < |s| && IsNameStartChar(s[p + |a.gap|])
    requires P.ParseAttribute(s, p + |a.gap|, o) == Some((r, p + |a.Source()|)) && P.Raw(s, r.name) == a.name
    requires a in attributes && NewNames(s, soFar, attributes)
    ensures P.ParseAttributes(s, p, soFar, line, o)
         == P.ParseAttributes(s, p + |a.Source()|, soFar + [r], line, o)
  {
    hide P.ParseAttribute, SkipWS, P.Raw;
    assert !P.HasName(s, soFar, P.Raw(s, r.name));
  }

  lemma NamesStillNew(s: string, soFar: seq<P.Attribute>, r: P.Attribute, attributes: seq<Attribute>)
    requires attributes != [] && P.Raw(s, r.name) == attributes[0].name
    requires DistinctNames(attributes) && NewNames(s, soFar, attributes)
    ensures NewNames(s, soFar + [r], attributes[1..]) && DistinctNames(attributes[1..])
  {
    hide P.Raw;
    var rest := attributes[1..];
    forall x, b | x in soFar + [r] && b in rest ensures P.Raw(s, x.name) != b.name {
      assert b in attributes;
      if x !in soFar {
        var j :| 0 <= j < |rest| && rest[j] == b;
        assert attributes[0].name != attributes[j + 1].name;
      }
    }
  }

  lemma AttrsOfCons(s: string, soFar: seq<P.Attribute>, r: P.Attribute, all: seq<P.Attribute>)
    requires soFar + [r] <= all
    ensures soFar <= all && AttrsOf(s, all[|soFar|..]) == [AttrOf(s, r)] + AttrsOf(s, all[|soFar + [r]|..])
  {
    hide AttrOf;
    var tail := all[|soFar|..];
    assert tail[0] == (soFar + [r])[|soFar|] == r && tail[1..] == all[|soFar + [r]|..];
  }

  // ---- tags --------------------------------------------------------------------------------------

  /** What reading a tag gives: its head, to which an open element adds its children. */
  ghost predicate TagRead(s: string, p: nat, t: Tag, line: nat, o: P.Options, head: P.Parsed) {
    && head.node.Element? && head.ret == Some(p + |t.Source()|) && head.endTag == None && head.err == None
    && P.Raw(s, head.node.name) == Str(s, head.node.name) == t.name && head.node.children == []
    && AttrsOf(s, head.node.attributes) == AttributesMeant(t.attributes, o)
    && head.node.closing == (if t.sealed then P.Closed else if t.slash then P.Closing else P.Open)
  }

  /** The node of an element whose start tag gave `head`. */
  ghost predicate IsElement(s: string, p: nat, pd: nat, o: P.Options, head: P.Parsed, r: P.Parsed)
    requires Terminated(s) && pd < P.MAX_ELEMENT_DEPTH && head.node.Element? && head.ret.Some? && head.ret.value < |s|
  {
    var c := P.ParseDeep(s, head.ret.value, pd, false, o);
    r == if head.node.closing == P.Open && s[head.ret.value] != NUL
         then P.Parsed(c.ret, head.node.(children := c.children), c.endTag, c.err) else head
  }

  /** Where the pieces of a tag stand: name, attributes. */
  lemma HeadPieces(s: string, p: nat, t: Tag) returns (n: nat, a: nat)
    requires At(s, p, t.Head())
    ensures n == p + 1 + |t.gap| + (if t.slash then 1 else 0) && a == n + |t.name|
    ensures a + |AttributesSource(t.attributes)| == p + |t.Head()|
    ensures p < |s| && s[p] == '<' && At(s, p + 1, t.gap) && At(s, n, t.name)
    ensures t.slash ==> n - 1 < |s| && s[n - 1] == '/'
    ensures At(s, a, AttributesSource(t.attributes))
  {
    hide At, AttributesSource;
    var slash, attributes := if t.slash then "/" else "", AttributesSource(t.attributes);
    n := p + 1 + |t.gap| + |slash|;
    a := n + |t.name|;
    AtSplit3(s, p, "<" + t.gap + slash, t.name, attributes);
    AtSplit3(s, p, "<", t.gap, slash);
    AtIndex(s, p, "<", 0);
    if t.slash { AtIndex(s, n - 1, "/", 0); }
  }

  lemma NotNul(s: string, p: nat, w: string)
    requires Terminated(s) && At(s, p, w) && w != "" && w[|w| - 1] != NUL
    ensures p + |w| < |s|
  {
    AtIndex(s, p, w, |w| - 1);
  }

  /** The name of a tag, read up to its attributes. */
  lemma TagName(s: string, p: nat, t: Tag, n: nat, a: nat)
    requires Terminated(s) && t.Valid() && p < |s| && s[p] == '<' && At(s, p + 1, t.gap)
    requires n == p + 1 + |t.gap| + (if t.slash then 1 else 0) && a == n + |t.name| < |s| && At(s, n, t.name)
    requires t.slash ==> s[n - 1] == '/'
    requires !IsNameChar(s[a])
    ensures P.KindAt(s, p) == P.KElement && n < |s| && IsNameStartChar(s[n]) && NameEnd(s, n) == a
    ensures var w := SkipWS(s, p + 1); n == (if s[w] == '/' then w + 1 else w) && (s[w] == '/' <==> t.slash)
    ensures var r := P.Range(n, a, PLAIN); P.Raw(s, r) == Str(s, r) == t.name
  {
    hide At, Str, P.KindAt, NameEnd, IsXmlName, P.Raw, ValidAttributes, IsGap;
    NameFound(s, n, t.name);
    GapSkipped(s, p + 1, t.gap);
    if |t.gap| > 0 { GapStarts(s, p + 1, t.gap); }
    KindIsElement(s, p);
  }

  lemma GapStarts(s: string, p: nat, w: string)
    requires At(s, p, w) && IsGap(w) && w != ""
    ensures p < |s| && IsWhiteSpace(s[p])
  {
    SameGap(w);
    AtIndex(s, p, w, 0);
    assert w[0] in w;
  }

  /** Where something is behind the name of a tag, be it attributes, blanks or its end, the name ends. */
  lemma NameEndsAt(s: string, t: Tag, a: nat, next: nat)
    requires t.Valid() && At(s, a, AttributesSource(t.attributes)) && next == a + |AttributesSource(t.attributes)|
    requires next < |s| && (t.attributes != [] || !IsNameChar(s[next]))
    ensures a < |s| && !IsNameChar(s[a])
  {
    hide At, IsXmlName;
    if t.attributes != [] {
      var x := t.attributes[0];
      AtSplit(s, a, x.Source(), AttributesSource(t.attributes[1..]));
      var n, e1, v, q := AttributePieces(s, a, x);
      assert x in t.attributes && x.Valid();
      GapStarts(s, a, x.gap);
    }
  }

  /** Neither blanks nor the end of a tag go on with a name. */
  lemma EndsName(s: string, e: nat, last: string, end: string)
    requires At(s, e, last) && IsGap(last) && e + |last| < |s| && !IsNameChar(s[e + |last|])
    ensures e < |s| && !IsNameChar(s[e])
  {
    if last != "" { GapStarts(s, e, last); }
  }

  /** A tag read up to behind its attributes. */
  lemma HeadAccepted(s: string, p: nat, t: Tag, line: nat, o: P.Options) returns (n: nat, a: nat, all: seq<P.Attribute>)
    requires Terminated(s) && At(s, p, t.Head()) && t.Valid()
    requires p + |t.Head()| < |s| && (t.attributes != [] || !IsNameChar(s[p + |t.Head()|]))
    ensures p + 1 < |s| && s[p] == '<' && P.KindAt(s, p) == P.KElement
    ensures n < |s| && a < |s| && IsNameStartChar(s[n]) && NameEnd(s, n) == a
    ensures var w := SkipWS(s, p + 1); n == (if s[w] == '/' then w + 1 else w) && (s[w] == '/' <==> t.slash)
    ensures var r := P.Range(n, a, PLAIN); P.Raw(s, r) == Str(s, r) == t.name
    ensures P.ParseAttributes(s, a, [], line, o) == P.ParseAttributes(s, p + |t.Head()|, all, line, o)
    ensures AttrsOf(s, all) == AttributesMeant(t.attributes, o)
    ensures forall x | x in t.attributes :: P.HasName(s, all, x.name)
  {
    hide At, Str, P.ParseAttributes, SkipWS, NameEnd, P.Raw, AttrsOf, AttributesMeant, IsXmlName, IsGap, DistinctNames,
      P.KindAt, AttributesSource, Tag.Head, P.HasName;
    n, a := HeadPieces(s, p, t);
    NameEndsAt(s, t, a, p + |t.Head()|);
    TagName(s, p, t, n, a);
    all := AttributesAccepted(s, a, t.attributes, [], line, o);
    assert all[0..] == all;
  }

  /** The end of a tag, behind its attributes. */
  lemma TagEnded(s: string, e: nat, t: Tag, all: seq<P.Attribute>, line: nat, o: P.Options)
    requires Terminated(s) && IsGap(t.last) && At(s, e, t.last) && At(s, e + |t.last|, if t.sealed then "/>" else ">")
    ensures e < |s| && P.ParseAttributes(s, e, all, line, o)
         == P.ParsedAttributes(Some(e + |t.last| + if t.sealed then 2 else 1), all, t.sealed, None)
  {
    hide At, SkipWS, IsGap;
    var b := e + |t.last|;
    var end := if t.sealed then "/>" else ">";
    AtIndex(s, b, end, 0);
    GapSkipped(s, e, t.last);
  }

  lemma TagAccepted(s: string, p: nat, t: Tag, pd: nat, line: nat, o: P.Options) returns (head: P.Parsed)
    requires Terminated(s) && pd < P.MAX_ELEMENT_DEPTH && At(s, p, t.Source()) && t.Valid()
    ensures p + |t.Source()| < |s| && s[p] == '<' && P.KindAt(s, p) == P.KElement
    ensures TagRead(s, p, t, line, o, head) && IsElement(s, p, pd, o, head, P.ParseElement(s, p + 1, pd, line, o))
  {
    hide At, Str, P.ParseAttributes, SkipWS, NameEnd, P.Raw, AttrsOf, AttributesMeant, IsXmlName, IsGap, DistinctNames,
      P.KindAt, P.ParseDeep, P.ParseElement, AttributesSource, Tag.Head, P.HasName;
    var e, end := p + |t.Head()|, if t.sealed then "/>" else ">";
    AtSplit3(s, p, t.Head(), t.last, end);
    NotNul(s, e + |t.last|, end);
    AtIndex(s, e + |t.last|, end, 0);
    EndsName(s, e, t.last, end);
    var n, a, all := HeadAccepted(s, p, t, line, o);
    TagEnded(s, e, t, all, line, o);
    var closing := if t.sealed then P.Closed else if t.slash then P.Closing else P.Open;
    head := P.Parsed(Some(p + |t.Source()|), P.Element(P.Range(n, a, PLAIN), all, closing, [], line), None, None);
    ElementFrom(s, p, pd, n, a, t, all, line, o, head);
  }

  lemma ElementFrom(s: string, p: nat, pd: nat, n: nat, a: nat, t: Tag, all: seq<P.Attribute>, line: nat, o: P.Options,
      head: P.Parsed)
    requires Terminated(s) && pd < P.MAX_ELEMENT_DEPTH && p + 1 < |s| && n < |s| && a < |s| && IsNameStartChar(s[n])
    requires NameEnd(s, n) == a && p + |t.Source()| < |s|
    requires var w := SkipWS(s, p + 1); n == (if s[w] == '/' then w + 1 else w) && (s[w] == '/' <==> t.slash)
    requires P.ParseAttributes(s, a, [], line, o)
          == P.ParsedAttributes(Some(p + |t.Source()|), all, t.sealed, None)
    requires var closing := if t.sealed then P.Closed else if t.slash then P.Closing else P.Open;
      head == P.Parsed(Some(p + |t.Source()|), P.Element(P.Range(n, a, PLAIN), all, closing, [], line), None, None)
    ensures IsElement(s, p, pd, o, head, P.ParseElement(s, p + 1, pd, line, o))
  {
    hide P.ParseAttributes, SkipWS, NameEnd, P.ParseDeep, Tag.Source;
  }

  // ---- nodes --------------------------------------------------------------------------------------

  /** What parsing a written node must give. */
  ghost predicate Read(s: string, p: nat, pd: nat, w: Written, o: P.Options, r: P.Parsed)
    requires Terminated(s) && pd < P.MAX_ELEMENT_DEPTH
  {
    && p + |Source(w)| < |s| && s[SkipWS(s, p)] != NUL && P.ParseNode(s, p, pd, o) == r
    && r.ret == Some(p + |Source(w)|) && TreeOf(s, r.node) == w.Meant(o)
    && (r.node.Declaration? <==> w.IsDeclaration())
    && (r.node.Element? ==> r.node.closing != P.Closing && !P.Mismatched(s, r.node, r.endTag))
  }

  /** What must follow a text. */
  predicate TagNext(s: string, e: nat) {
    e + 1 < |s| && s[e] == '<' && s[e + 1] != NUL
  }

  function KindOf(m: Mark): P.Kind {
    match m
    case Comment => P.KComment
    case CData => P.KCData
    case Declaration => P.KDeclaration
    case Unknown => P.KUnknown
  }

  /** Identify sees the kind that was written. */
  lemma MarkIdentified(s: string, w: nat, m: Mark, raw: string)
    requires At(s, w, m.Opening()) && At(s, w + |m.Opening()|, raw) && At(s, w + |m.Opening()| + |raw|, m.Ending())
    requires m.Unknown? ==> !("--" <= raw) && !("[CDATA[" <= raw)
    ensures P.KindAt(s, w) == KindOf(m)
  {
    hide At;
    var h := m.Opening();
    AtIndex(s, w, h, 1);
    if At(s, w, "<?") { AtIndex(s, w, "<?", 1); }
    if m != Declaration {
      if m == CData {
        AtIndex(s, w, h, 2);
      }
      if At(s, w, "<!--") { AtIndex(s, w, "<!--", 2); }
      if m == Unknown {
        assert "<!" + "--" == "<!--" && "<!" + "[CDATA[" == "<![CDATA[";
        if At(s, w, "<!--") { PrefixOfBody(s, w, raw, "--"); }
        if At(s, w, "<![CDATA[") { PrefixOfBody(s, w, raw, "[CDATA["); }
      }
    }
  }

  lemma MarkParsed(s: string, v: nat, m: Mark, raw: string, line: nat, o: P.Options)
    requires Terminated(s) && At(s, v, raw) && At(s, v + |raw|, m.Ending()) && NUL !in raw && X.FreeOf(raw, m.Ending())
    ensures v < |s|
    ensures Str(s, P.Range(v, v + |raw|, NEWLINES)) == Meaning(raw, NEWLINES)
    ensures P.ParseLeaf(s, v, KindOf(m), line, o)
         == P.Parsed(Some(v + |raw| + |m.Ending()|), P.LeafNode(KindOf(m), P.Range(v, v + |raw|, NEWLINES), line), None,
                     None)
  {
    hide At, Str, Meaning, FindTag, X.FreeOf;
    TagFound(s, v, raw, m.Ending());
    RawAt(s, v, raw, NEWLINES);
  }

  lemma MarkAccepted(s: string, p: nat, pd: nat, w: Written, o: P.Options) returns (r: P.Parsed)
    requires Terminated(s) && pd < P.MAX_ELEMENT_DEPTH && w.Marked? && WellWritten(w) && At(s, p, Source(w))
    ensures Read(s, p, pd, w, o, r)
  {
    hide At, Str, Meaning, P.KindAt, X.FreeOf, SkipWS, IsGap, P.ParseLeaf;
    var m := w.mark;
    var b := p + |w.gap|;
    var v := b + |m.Opening()|;
    AtSplit(s, p, w.gap + m.Opening() + w.raw, m.Ending());
    AtSplit3(s, p, w.gap, m.Opening(), w.raw);
    MarkIdentified(s, b, m, w.raw);
    AtIndex(s, b, m.Opening(), 0);
    NotNul(s, v + |w.raw|, m.Ending());
    GapSkipped(s, p, w.gap);
    MarkParsed(s, v, m, w.raw, LineAt(s, b), o);
    r := P.ParseNode(s, p, pd, o);
  }

  lemma TextAccepted(s: string, p: nat, pd: nat, w: Written, o: P.Options) returns (r: P.Parsed)
    requires Terminated(s) && pd < P.MAX_ELEMENT_DEPTH && w.Text? && WellWritten(w) && At(s, p, Source(w))
    requires TagNext(s, p + |Source(w)|)
    ensures Read(s, p, pd, w, o, r)
  {
    hide At, Str, Meaning, FindTag, X.FreeOf, SkipWS;
    TextIdentified(s, p, w.raw);
    CharFree(w.raw, '<');
    AtSlice(s, p + |w.raw|, "<");
    TagFound(s, p, w.raw, "<");
    RawAt(s, p, w.raw, P.TextFlags(o));
    r := P.ParseNode(s, p, pd, o);
  }

  lemma TextIdentified(s: string, p: nat, v: string)
    requires Terminated(s) && NUL !in v && '<' !in v && !IsGap(v) && At(s, p, v) && p + |v| < |s|
    ensures p < |s|
    ensures var w := SkipWS(s, p); s[w] != NUL && s[w] != '<' && P.KindAt(s, w) == P.KText
  {
    SameGap(v);
    var i :| 0 <= i < |v| && !IsWhiteSpace(v[i]);
    AtIndex(s, p, v, i);
    var w := SkipWS(s, p);
    AtIndex(s, p, v, w - p);
    assert v[w - p] in v;
    P.KindHeader(s, w);
  }

  /** A tag at p, behind blanks, as the loop over the children sees it. */
  lemma TagIsNode(s: string, p: nat, gap: string, t: Tag, pd: nat, o: P.Options) returns (head: P.Parsed)
    requires Terminated(s) && pd < P.MAX_ELEMENT_DEPTH && IsGap(gap) && t.Valid() && At(s, p, gap + t.Source())
    ensures var b := p + |gap|;
      && b + |t.Source()| < |s| && SkipWS(s, p) == b && s[b] == '<'
      && TagRead(s, b, t, LineAt(s, b), o, head) && IsElement(s, b, pd, o, head, P.ParseNode(s, p, pd, o))
  {
    hide At, Str, P.KindAt, SkipWS, IsGap, Tag.Valid, Tag.Source, P.ParseElement, AttrsOf, AttributesMeant, P.Raw,
      P.ParseDeep;
    var b := p + |gap|;
    AtSplit(s, p, gap, t.Source());
    AtSlice(s, b, t.Source());
    head := TagAccepted(s, b, t, pd, LineAt(s, b), o);
    GapSkipped(s, p, gap);
    assert IsElement(s, b, pd, o, head, P.ParseElement(s, b + 1, pd, LineAt(s, b), o));
  }

  /** An end tag ends the loop over the children, handing its name to the parent. */
  lemma EndTagAccepted(s: string, p: nat, gap: string, t: Tag, pd: nat, atDoc: bool, soFar: seq<P.Node>, o: P.Options)
    returns (name: P.Range)
    requires Terminated(s) && pd < P.MAX_ELEMENT_DEPTH && IsGap(gap) && t.Valid() && t.IsEnd()
    requires At(s, p, gap + t.Source())
    ensures p + |gap + t.Source()| < |s| && P.Raw(s, name) == t.name
    ensures P.ParseChildren(s, p, pd, atDoc, soFar, o)
         == P.ParsedChildren(Some(p + |gap + t.Source()|), Some(name), soFar, None)
  {
    hide At, Str, SkipWS, IsGap, Tag.Valid, Tag.Source, P.ParseNode, AttrsOf, AttributesMeant, P.Raw, P.ParseDeep;
    var head := TagIsNode(s, p, gap, t, pd, o);
    name := head.node.name;
  }

  lemma SealedAccepted(s: string, p: nat, pd: nat, w: Written, o: P.Options) returns (r: P.Parsed)
    requires Terminated(s) && pd < P.MAX_ELEMENT_DEPTH && w.Sealed? && WellWritten(w) && At(s, p, Source(w))
    ensures Read(s, p, pd, w, o, r)
  {
    hide At, Str, SkipWS, IsGap, Tag.Valid, Tag.Source, P.ParseNode, AttrsOf, AttributesMeant, P.Raw, P.ParseDeep;
    var head := TagIsNode(s, p, w.gap, w.tag, pd, o);
    r := head;
    assert TreeOf(s, r.node) == X.Element(w.tag.name, AttributesMeant(w.tag.attributes, o), []);
  }

  // ---- elements and lists ------------------------------------------------------------------------

  /** Declarations come first, and only in the document itself. */
  ghost predicate DeclarationsFit(atDoc: bool, soFar: seq<P.Node>, ws: seq<Written>) {
    forall i | 0 <= i < |ws| && ws[i].IsDeclaration() ::
      atDoc && (forall n | n in soFar :: n.Declaration?) && forall j | 0 <= j < i :: ws[j].IsDeclaration()
  }

  lemma FitsNext(atDoc: bool, soFar: seq<P.Node>, ws: seq<Written>, n: P.Node)
    requires ws != [] && DeclarationsFit(atDoc, soFar, ws) && (n.Declaration? <==> ws[0].IsDeclaration())
    ensures DeclarationsFit(atDoc, soFar + [n], ws[1..])
    ensures n.Declaration? ==> P.DeclarationAllowed(atDoc, soFar)
  {
    var rest := ws[1..];
    forall i | 0 <= i < |rest| && rest[i].IsDeclaration()
      ensures atDoc && forall x | x in soFar + [n] :: x.Declaration?
      ensures forall j | 0 <= j < i :: rest[j].IsDeclaration()
    {
      assert rest[i] == ws[i + 1] && ws[0].IsDeclaration();
      forall j | 0 <= j < i ensures rest[j].IsDeclaration() { assert rest[j] == ws[j + 1]; }
    }
  }

  /** What the loop over the children must give: it arrives behind them with their nodes. */
  ghost predicate AllRead(s: string, p: nat, ws: seq<Written>, pd: nat, atDoc: bool, soFar: seq<P.Node>, o: P.Options,
      all: seq<P.Node>)
    requires Terminated(s) && pd < P.MAX_ELEMENT_DEPTH
  {
    var e := p + |SourceAll(ws)|;
    && e < |s| && P.ParseChildren(s, p, pd, atDoc, soFar, o) == P.ParseChildren(s, e, pd, atDoc, all, o)
    && soFar <= all && TreesOf(s, all[|soFar|..]) == AllMeant(ws, o)
    && (ws != [] ==> s[p] != NUL)
  }

  /** A tag starts with '<' and something more. */
  lemma TagStarts(s: string, p: nat, t: Tag)
    requires t.Valid() && At(s, p, t.Source())
    ensures TagNext(s, p)
  {
    hide At, IsXmlName;
    AtSplit3(s, p, t.Head(), t.last, if t.sealed then "/>" else ">");
    var n, a := HeadPieces(s, p, t);
    if t.gap != "" { GapStarts(s, p + 1, t.gap); }
    else if !t.slash {
      SameWord(t.name);
      AtIndex(s, n, t.name, 0);
    }
  }

  /** So does every node but a text, behind its blanks. */
  lemma NodeStarts(s: string, p: nat, w: Written)
    requires WellWritten(w) && !w.Text? && w.gap == "" && At(s, p, Source(w))
    ensures TagNext(s, p)
  {
    hide At, Tag.Valid, Tag.Source, SourceAll;
    match w
    case Marked(_, m, raw) =>
      AtSplit(s, p, "" + m.Opening() + raw, m.Ending());
      AtSplit3(s, p, "", m.Opening(), raw);
      AtIndex(s, p, m.Opening(), 0);
      AtIndex(s, p, m.Opening(), 1);
    case Sealed(_, tag) =>
      AtSplit(s, p, "", tag.Source());
      TagStarts(s, p, tag);
    case Element(_, tag, children, last, end) =>
      AtSplit3(s, p, "" + tag.Source() + SourceAll(children), last, end.Source());
      AtSplit3(s, p, "", tag.Source(), SourceAll(children));
      TagStarts(s, p, tag);
  }

  /** What follows the first node of a row. */
  lemma FirstFollowed(s: string, p: nat, ws: seq<Written>, last: string)
    requires ws != [] && Row(ws, last) && At(s, p, SourceAll(ws))
    requires var e := p + |SourceAll(ws)|; last == "" && ws[|ws| - 1].Text? ==> TagNext(s, e)
    ensures At(s, p, Source(ws[0])) && At(s, p + |Source(ws[0])|, SourceAll(ws[1..]))
    ensures p + |SourceAll(ws)| == p + |Source(ws[0])| + |SourceAll(ws[1..])|
    ensures ws[0].Text? ==> TagNext(s, p + |Source(ws[0])|)
  {
    hide At, WellWritten, Source, TagNext;
    AtSplit(s, p, Source(ws[0]), SourceAll(ws[1..]));
    RowTail(ws, last);
    if ws[0].Text? && |ws| > 1 {
      var q := p + |Source(ws[0])|;
      AtSplit(s, q, Source(ws[1]), SourceAll(ws[1..][1..]));
      NodeStarts(s, q, ws[1]);
    }
  }

  lemma NodeAccepted(s: string, p: nat, pd: nat, w: Written, o: P.Options) returns (r: P.Parsed)
    requires Terminated(s) && pd + Depth(w) < P.MAX_ELEMENT_DEPTH && WellWritten(w) && At(s, p, Source(w))
    requires w.Text? ==> TagNext(s, p + |Source(w)|)
    ensures Read(s, p, pd, w, o, r)
    decreases w, 1
  {
    hide Read, WellWritten, TagNext, At, Source;
    match w
    case Marked(_, _, _) => r := MarkAccepted(s, p, pd, w, o);
    case Text(_) => r := TextAccepted(s, p, pd, w, o);
    case Sealed(_, _) => r := SealedAccepted(s, p, pd, w, o);
    case Element(_, _, _, _, _) => r := ElementAccepted(s, p, pd, w, o);
  }

  lemma {:induction false} RowAccepted(s: string, p: nat, ws: seq<Written>, last: string, pd: nat, atDoc: bool,
      soFar: seq<P.Node>, o: P.Options)
    returns (all: seq<P.Node>)
    requires Terminated(s) && pd + MaxDepth(ws) < P.MAX_ELEMENT_DEPTH && p < |s|
    requires Row(ws, last) && At(s, p, SourceAll(ws)) && DeclarationsFit(atDoc, soFar, ws)
    requires ws != [] && ws[|ws| - 1].Text? ==> TagNext(s, p + |SourceAll(ws)|)
    ensures AllRead(s, p, ws, pd, atDoc, soFar, o, all)
    decreases ws, 1
  {
    hide At, Read, Source, WellWritten, TextsEnd, TagNext, P.ParseChildren, TreeOf, Depth, DeclarationsFit,
      Written.Meant, P.DeclarationAllowed, SkipWS;
    if ws == [] {
      all := soFar;
    } else {
      FirstFollowed(s, p, ws, last);
      RowTail(ws, last);
      var r := NodeAccepted(s, p, pd, ws[0], o);
      var q := p + |Source(ws[0])|;
      NodeStep(s, p, pd, ws[0], o, r, atDoc, soFar, ws);
      FitsNext(atDoc, soFar, ws, r.node);
      all := RowAccepted(s, q, ws[1..], last, pd, atDoc, soFar + [r.node], o);
      TreesCons(s, soFar, r.node, all, ws, o);
    }
  }

  /** One round of the loop over the children. */
  lemma NodeStep(s: string, p: nat, pd: nat, w: Written, o: P.Options, r: P.Parsed, atDoc: bool, soFar: seq<P.Node>,
      ws: seq<Written>)
    requires Terminated(s) && pd < P.MAX_ELEMENT_DEPTH && Read(s, p, pd, w, o, r)
    requires ws != [] && ws[0] == w && DeclarationsFit(atDoc, soFar, ws)
    ensures p + |Source(w)| < |s| && TreeOf(s, r.node) == w.Meant(o) && s[p] != NUL
    ensures r.node.Declaration? <==> w.IsDeclaration()
    ensures P.ParseChildren(s, p, pd, atDoc, soFar, o)
         == P.ParseChildren(s, p + |Source(w)|, pd, atDoc, soFar + [r.node], o)
  {
    hide At, Source, Written.Meant, TreeOf, P.ParseNode, P.Mismatched, P.DeclarationAllowed, DeclarationsFit, SkipWS;
    FitsNext(atDoc, soFar, ws, r.node);
    NulStops(s, p);
  }

  lemma NulStops(s: string, p: nat)
    requires Terminated(s) && p < |s| && s[SkipWS(s, p)] != NUL
    ensures s[p] != NUL
  {
  }

  lemma TreesCons(s: string, soFar: seq<P.Node>, n: P.Node, all: seq<P.Node>, ws: seq<Written>, o: P.Options)
    requires ws != [] && soFar + [n] <= all && TreesOf(s, all[|soFar + [n]|..]) == AllMeant(ws[1..], o)
    requires TreeOf(s, n) == ws[0].Meant(o)
    ensures soFar <= all && TreesOf(s, all[|soFar|..]) == AllMeant(ws, o)
  {
    hide TreeOf, Written.Meant;
    var tail := all[|soFar|..];
    assert tail[0] == (soFar + [n])[|soFar|] == n && tail[1..] == all[|soFar + [n]|..];
  }

  /** An element with an end tag: start tag, children, end tag. */
  lemma ElementAccepted(s: string, p: nat, pd: nat, w: Written, o: P.Options) returns (r: P.Parsed)
    requires Terminated(s) && pd + Depth(w) < P.MAX_ELEMENT_DEPTH && w.Element? && WellWritten(w) && At(s, p, Source(w))
    ensures Read(s, p, pd, w, o, r)
    decreases w, 0
  {
    hide At, Str, SkipWS, IsGap, Tag.Valid, Tag.Source, P.ParseNode, P.ParseDeep, AttrsOf, AttributesMeant, P.Raw,
      TreesOf, AllMeant, SourceAll, TextsEnd, TagNext;
    var b := p + |w.gap|;
    var c := b + |w.tag.Source()|;
    var d := c + |SourceAll(w.children)|;
    AtSplit3(s, p, w.gap + w.tag.Source() + SourceAll(w.children), w.last, w.end.Source());
    AtSplit(s, d, w.last, w.end.Source());
    AtSplit(s, p, w.gap + w.tag.Source(), SourceAll(w.children));
    var head := TagIsNode(s, p, w.gap, w.tag, pd, o);
    var nodes, name := BodyAccepted(s, c, w.children, w.last, w.end, pd, o);
    r := P.Parsed(Some(p + |Source(w)|), head.node.(children := nodes), Some(name), None);
    assert P.ParseNode(s, p, pd, o) == r;
    assert TreeOf(s, r.node) == X.Element(w.tag.name, AttributesMeant(w.tag.attributes, o), AllMeant(w.children, o));
  }

  /** From behind a start tag to behind an end tag. */
  lemma BodyAccepted(s: string, c: nat, children: seq<Written>, last: string, end: Tag, pd: nat, o: P.Options)
    returns (nodes: seq<P.Node>, name: P.Range)
    requires Terminated(s) && pd + 1 + MaxDepth(children) < P.MAX_ELEMENT_DEPTH && c < |s|
    requires (forall w | w in children :: WellWritten(w) && !w.IsDeclaration()) && TextsEnd(children, last)
    requires IsGap(last) && end.Valid() && end.IsEnd()
    requires At(s, c, SourceAll(children)) && At(s, c + |SourceAll(children)|, last + end.Source())
    ensures var e := c + |SourceAll(children)| + |last + end.Source()|;
      e < |s| && s[c] != NUL && P.ParseDeep(s, c, pd, false, o) == P.ParsedChildren(Some(e), Some(name), nodes, None)
    ensures TreesOf(s, nodes) == AllMeant(children, o) && P.Raw(s, name) == end.name
    decreases children, 2
  {
    hide At, Str, SkipWS, IsGap, Tag.Valid, Tag.Source, P.ParseChildren, AttrsOf, P.Raw, TreesOf, AllMeant, SourceAll,
      TextsEnd, TagNext, DeclarationsFit, WellWritten;
    var d := c + |SourceAll(children)|;
    BodyShape(children, last);
    EndStarts(s, d, last, end);
    name := EndTagAccepted(s, d, last, end, pd + 1, false, [], o);
    nodes := RowAccepted(s, c, children, last, pd + 1, false, [], o);
    assert nodes[0..] == nodes;
    name := EndTagAccepted(s, d, last, end, pd + 1, false, nodes, o);
  }

  lemma BodyShape(children: seq<Written>, last: string)
    requires (forall w | w in children :: !w.IsDeclaration()) && TextsEnd(children, last)
    ensures DeclarationsFit(false, [], children) && (children == [] ==> SourceAll(children) == "")
    ensures children != [] && children[|children| - 1].Text? ==> last == ""
  {
  }

  lemma EndStarts(s: string, d: nat, last: string, end: Tag)
    requires IsGap(last) && end.Valid() && At(s, d, last + end.Source())
    ensures d < |s| && s[d] != NUL && (last == "" ==> TagNext(s, d))
  {
    hide At;
    AtSplit(s, d, last, end.Source());
    TagStarts(s, d + |last|, end);
    if last != "" { GapStarts(s, d, last); }
  }

  // ---- documents -----------------------------------------------------------------------------------

  /** The text is what is in the buffer up to its first NUL. */
  lemma TextInBuffer(s: string, text: string)
    requires Terminated(s) && UpToNul(s) == text
    ensures At(s, 0, text) && |text| < |s| && s[|text|] == NUL && NUL !in text
  {
    assert text != s by { assert s[|s| - 1] in s; }
    AtSlice(s, 0, text);
  }

  /** What is read first is not skipped or taken for the mark. */
  predicate Starts(bom: bool, content: string) {
    content != "" && (!bom ==> content[0] !in BLANKS && !(BOM <= content))
  }

  /** Where the nodes of a document start. */
  lemma StartAccepted(gap: string, bom: bool, content: string, s: string, o: P.Options) returns (p: nat)
    requires Terminated(s) && IsGap(gap) && Starts(bom, content)
    requires UpToNul(s) == gap + (if bom then BOM else "") + content
    ensures p == |gap| + (if bom then 3 else 0) && p + |content| < |s| && s[p + |content|] == NUL && At(s, p, content)
    ensures NUL !in content && var c := P.ParseChildren(s, p, 1, true, [], o);
      P.ParseDocument(s, o) == P.Document(bom, c.children, c.err)
  {
    hide At, SkipWS, IsGap, P.ParseChildren, UpToNul;
    var mark := if bom then BOM else "";
    var g := |gap|;
    p := g + |mark|;
    TextInBuffer(s, gap + mark + content);
    NulFreeParts(gap + mark, content);
    AtSplit3(s, 0, gap, mark, content);
    AtIndex(s, p, content, 0);
    assert content[0] in content;
    if bom {
      AtIndex(s, g, BOM, 0);
    } else {
      SameBlank(content[0]);
      NoMark(s, g, content);
    }
    GapSkipped(s, 0, gap);
  }

  lemma ContentStarts(w: Document)
    requires w.Valid()
    ensures IsGap(w.gap) && Starts(w.bom, w.Content())
  {
    hide SourceAll, Rest.Source, WellWritten, TextsEnd, Rest.Valid, MaxDepth;
  }

  lemma NulFreeParts(u: string, v: string)
    requires NUL !in u + v
    ensures NUL !in u && NUL !in v
  {
  }

  lemma NoMark(s: string, g: nat, content: string)
    requires At(s, g, content) && g + |content| < |s| && s[g + |content|] == NUL && !(BOM <= content)
    ensures !At(s, g, BOM)
  {
    if |content| < 3 {
      Differs(s, g, BOM, |content|);
    } else {
      assert content[..3] != BOM;
      var k :| 0 <= k < 3 && content[k] != BOM[k];
      AtIndex(s, g, content, k);
      Differs(s, g, BOM, k);
    }
  }

  lemma Differs(s: string, p: nat, w: string, k: nat)
    requires k < |w| && p + k < |s| && s[p + k] != w[k]
    ensures !At(s, p, w)
  {
  }

  /** What ends a document. */
  lemma RestAccepted(s: string, e: nat, rest: Rest, all: seq<P.Node>, o: P.Options)
    requires Terminated(s) && rest.Valid() && At(s, e, rest.Source())
    requires e + |rest.Source()| < |s| && s[e + |rest.Source()|] == NUL
    ensures var c := P.ParseChildren(s, e, 1, true, all, o); c.children == all && c.err == None
    ensures rest.Stray? && rest.gap == "" ==> TagNext(s, e)
  {
    hide At, SkipWS, IsGap, P.ParseChildren, Tag.Valid, Tag.Source, TagNext;
    match rest
    case End(gap) => EndAccepted(s, e, gap, 1, true, all, o);
    case Stray(gap, tag, ignored) =>
      AtSplit(s, e, gap + tag.Source(), ignored);
      AtSplit(s, e, gap, tag.Source());
      if gap == "" { TagStarts(s, e, tag); }
      var name := EndTagAccepted(s, e, gap, tag, 1, true, all, o);
  }

  /** At the end of the text the loop over the children ends. */
  lemma EndAccepted(s: string, e: nat, gap: string, pd: nat, atDoc: bool, all: seq<P.Node>, o: P.Options)
    requires Terminated(s) && pd < P.MAX_ELEMENT_DEPTH && IsGap(gap) && At(s, e, gap)
    requires e + |gap| < |s| && s[e + |gap|] == NUL
    ensures P.ParseChildren(s, e, pd, atDoc, all, o) == P.ParsedChildren(None, None, all, None)
  {
    hide At, SkipWS, IsGap;
    GapSkipped(s, e, gap);
  }

  /** Every text written as a document is parsed without an error, to what it means. */
  lemma DocumentAccepted(w: Document, s: string, o: P.Options)
    requires w.Valid() && Terminated(s) && UpToNul(s) == w.Source()
    ensures P.ParseDocument(s, o).err == None && DocOf(s, P.ParseDocument(s, o)) == w.Meant(o)
  {
    hide At, IsGap, P.ParseChildren, P.ParseDocument, SourceAll, Rest.Source, WellWritten, TextsEnd, Rest.Valid,
      MaxDepth, UpToNul, TreesOf, Starts, AllMeant, DeclarationsFit, TagNext;
    ContentStarts(w);
    var p := StartAccepted(w.gap, w.bom, w.Content(), s, o);
    var e := p + |SourceAll(w.nodes)|;
    AtSplit(s, p, SourceAll(w.nodes), w.rest.Source());
    AllFit(w);
    RestAccepted(s, e, w.rest, [], o);
    TextBeforeRest(w);
    var all := RowAccepted(s, p, w.nodes, w.rest.gap, 1, true, [], o);
    assert all[0..] == all;
    RestAccepted(s, e, w.rest, all, o);
  }

  lemma AllFit(w: Document)
    requires w.Valid()
    ensures DeclarationsFit(true, [], w.nodes) && Row(w.nodes, w.rest.gap) && MaxDepth(w.nodes) <= 498 && w.rest.Valid()
  {
    hide WellWritten, TextsEnd, MaxDepth, Document.Content, Rest.Valid;
  }

  lemma TextBeforeRest(w: Document)
    requires w.Valid()
    ensures w.nodes != [] && w.nodes[|w.nodes| - 1].Text? ==> w.rest.Stray? && w.rest.gap == ""
  {
    hide WellWritten, MaxDepth, Document.Content, Rest.Valid;
  }
}
