/** Every text that is parsed without an error is written as in WrittenXml.dfy, so that what the parser
    accepts is exactly that, for every buffer. */
module ParsedXml {
  import opened XmlUtil
  import opened Decode
  import opened TreeMeaning
  import opened WrittenXml
  import opened AcceptedXml
  import ParserSound
  import P = ParserSpec
  import X = XmlTree

  // ---- tokens --------------------------------------------------------------------------

  lemma GapAt(s: string, p: nat) returns (w: string)
    requires Terminated(s) && p < |s|
    ensures IsGap(w) && At(s, p, w) && p + |w| == SkipWS(s, p) && (w == "" <==> !IsWhiteSpace(s[p]))
  {
    hide SkipWS;
    w := s[p..SkipWS(s, p)];
    SameGap(w);
    AtSlice(s, p, w);
    SkipsNothing(s, p);
  }

  lemma SkipsNothing(s: string, p: nat)
    requires Terminated(s) && p < |s|
    ensures SkipWS(s, p) == p <==> !IsWhiteSpace(s[p])
  {
  }

  lemma OneAt(s: string, p: nat, c: char)
    requires p < |s| && s[p] == c
    ensures At(s, p, [c])
  {
    AtSlice(s, p, [c]);
  }

  lemma NameAt(s: string, p: nat) returns (name: string)
    requires Terminated(s) && p < |s| && IsNameStartChar(s[p])
    ensures IsXmlName(name) && At(s, p, name) && p + |name| == NameEnd(s, p) < |s| && !IsNameChar(s[p + |name|])
  {
    hide NameEnd;
    name := s[p..NameEnd(s, p)];
    assert IsNameChar(s[p]);
    SameWord(name);
    AtSlice(s, p, name);
  }

  /** The content in front of an end tag that was found. */
  lemma ContentAt(s: string, p: nat, tag: string) returns (raw: string)
    requires Terminated(s) && p < |s| && tag != [] && NUL !in tag && FindTag(s, p, tag).Some?
    ensures At(s, p, raw) && At(s, p + |raw|, tag) && FindTag(s, p, tag) == Some(p + |raw|)
    ensures NUL !in raw && X.FreeOf(raw, tag)
  {
    hide FindTag, At;
    var f := FindTag(s, p, tag).value;
    raw := s[p..f];
    AtSlice(s, p, raw);
    ParserSound.ContentClean(s, p, tag, PLAIN);
  }

  lemma CharNotIn(v: string, c: char)
    requires X.FreeOf(v, [c])
    ensures c !in v
  {
    forall i | 0 <= i < |v| ensures v[i] != c {
      if v[i] == c { OneAt(v, i, c); }
    }
  }

  // ---- attributes ---------------------------------------------------------------------------

  lemma AttributeWritten(s: string, p: nat, o: P.Options) returns (a: Attribute)
    requires Terminated(s) && p < |s| && IsNameStartChar(s[SkipWS(s, p)])
    requires P.ParseAttribute(s, SkipWS(s, p), o).Some?
    ensures a.Valid() && At(s, p, a.Source()) && (a.gap == "" <==> !IsWhiteSpace(s[p]))
    ensures p + |a.Source()| == P.ParseAttribute(s, SkipWS(s, p), o).value.1
  {
    hide At, IsGap, IsXmlName, FindTag, SkipWS, NameEnd;
    var gap := GapAt(s, p);
    var n := p + |gap|;
    var name := NameAt(s, n);
    var behind := GapAt(s, n + |name|);
    var e := n + |name| + |behind|;
    assert s[e] == '=';
    OneAt(s, e, '=');
    var between := GapAt(s, e + 1);
    var u := e + 1 + |between|;
    OneAt(s, u, s[u]);
    var raw := ContentAt(s, u + 1, [s[u]]);
    CharNotIn(raw, s[u]);
    a := Attribute(gap, name, behind, between, s[u], raw);
    AttributeJoined(s, p, a);
  }

  lemma AttributeJoined(s: string, p: nat, a: Attribute)
    requires At(s, p, a.gap) && At(s, p + |a.gap|, a.name)
    requires var n := p + |a.gap| + |a.name|; At(s, n, a.behind) && At(s, n + |a.behind|, "=")
    requires var e := p + |a.gap| + |a.name| + |a.behind|;
      && At(s, e + 1, a.between) && At(s, e + 1 + |a.between|, [a.quote])
      && At(s, e + 2 + |a.between|, a.raw) && At(s, e + 2 + |a.between| + |a.raw|, [a.quote])
    ensures At(s, p, a.Source())
  {
    hide At;
    AtSplit3(s, p, a.gap, a.name, a.behind);
    AtSplit3(s, p, a.gap + a.name + a.behind, "=", a.between);
    AtSplit3(s, p, a.gap + a.name + a.behind + "=" + a.between, [a.quote], a.raw);
    AtSplit(s, p, a.gap + a.name + a.behind + "=" + a.between + [a.quote] + a.raw, [a.quote]);
  }

  /** The attributes of a tag that was read, and its end. */
  lemma {:induction false} AttributesWritten(s: string, p: nat, soFar: seq<P.Attribute>, line: nat, o: P.Options)
    returns (attributes: seq<Attribute>, last: string)
    requires Terminated(s) && p < |s| && P.ParseAttributes(s, p, soFar, line, o).ret.Some?
    ensures (forall a | a in attributes :: a.Valid()) && DistinctNames(attributes) && IsGap(last)
    ensures NewNames(s, soFar, attributes)
    ensures attributes != [] ==> (attributes[0].gap == "" <==> !IsWhiteSpace(s[p]))
    ensures attributes != [] && !IsWhiteSpace(s[p]) ==> IsNameStartChar(s[p])
    ensures var r := P.ParseAttributes(s, p, soFar, line, o);
      && At(s, p, AttributesSource(attributes)) && At(s, p + |AttributesSource(attributes)|, last)
      && var b := p + |AttributesSource(attributes)| + |last|; var end := if r.sealed then "/>" else ">";
        At(s, b, end) && r.ret == Some(b + |end|)
    decreases |s| - p
  {
    hide At, SkipWS, P.ParseAttribute, Attribute.Valid, Attribute.Source, IsGap, DistinctNames, NewNames, P.HasName,
      P.Raw;
    var q := SkipWS(s, p);
    SkipsNothing(s, p);
    if IsNameStartChar(s[q]) {
      var a := AttributeWritten(s, p, o);
      var r, next := P.ParseAttribute(s, q, o).value.0, P.ParseAttribute(s, q, o).value.1;
      var rest;
      rest, last := AttributesWritten(s, next, soFar + [r], line, o);
      attributes := [a] + rest;
      AttributeNamed(s, p, a, o);
      NamesDistinct(s, soFar, r, a, rest);
      AtSplit(s, p, a.Source(), AttributesSource(rest));
      assert attributes[1..] == rest;
    } else {
      attributes := [];
      last := GapAt(s, p);
      if s[q] == '>' { OneAt(s, q, '>'); }
      NothingYet(s, p, soFar);
    }
  }

  lemma AttributeNamed(s: string, p: nat, a: Attribute, o: P.Options)
    requires Terminated(s) && p < |s| && IsNameStartChar(s[SkipWS(s, p)])
    requires a.Valid() && At(s, p, a.Source()) && P.ParseAttribute(s, SkipWS(s, p), o).Some?
    ensures P.Raw(s, P.ParseAttribute(s, SkipWS(s, p), o).value.0.name) == a.name
  {
    hide At, P.ParseAttribute, Attribute.Valid, Attribute.Source, P.Raw, SkipWS, Attribute.Meant, AttrOf,
      IsNameStartChar;
    var r := AttributeAccepted(s, p, a, o);
  }

  lemma NothingYet(s: string, p: nat, soFar: seq<P.Attribute>)
    requires p <= |s|
    ensures NewNames(s, soFar, []) && DistinctNames([]) && At(s, p, AttributesSource([]))
  {
  }

  lemma NamesDistinct(s: string, soFar: seq<P.Attribute>, r: P.Attribute, a: Attribute, rest: seq<Attribute>)
    requires P.Raw(s, r.name) == a.name && !P.HasName(s, soFar, a.name)
    requires NewNames(s, soFar + [r], rest) && DistinctNames(rest)
    ensures NewNames(s, soFar, [a] + rest) && DistinctNames([a] + rest)
  {
    hide P.Raw;
    var all := [a] + rest;
    assert forall x | x in soFar :: x in soFar + [r] && P.Raw(s, x.name) != a.name;
    assert r in soFar + [r];
    forall i, j | 0 <= i < j < |all| ensures all[i].name != all[j].name {
      assert all[j] == rest[j - 1] && rest[j - 1] in rest;
      if i > 0 { assert all[i] == rest[i - 1]; }
    }
  }

  // ---- tags ---------------------------------------------------------------------------------------

  /** The tag at p, of which an element was read. */
  lemma TagWritten(s: string, p: nat, pd: nat, line: nat, o: P.Options) returns (t: Tag, head: P.Parsed)
    requires Terminated(s) && p + 1 < |s| && s[p] == '<' && pd < P.MAX_ELEMENT_DEPTH
    requires P.ParseElement(s, p + 1, pd, line, o).ret.Some?
    ensures t.Valid() && At(s, p, t.Source()) && p + |t.Source()| < |s|
    ensures TagRead(s, p, t, line, o, head) && IsElement(s, p, pd, o, head, P.ParseElement(s, p + 1, pd, line, o))
  {
    hide At, SkipWS, P.ParseAttributes, P.ParseElement, NameEnd, TagRead, IsElement, Tag.Valid, Tag.Source;
    NamedTag(s, p, pd, line, o);
    t, head := TagStands(s, p, pd, line, o);
  }

  /** A tag whose name and attributes can be read. */
  ghost predicate ReadableTag(s: string, p: nat, line: nat, o: P.Options)
    requires Terminated(s) && p + 1 < |s|
  {
    var w := SkipWS(s, p + 1);
    var n := if s[w] == '/' then w + 1 else w;
    n < |s| && IsNameStartChar(s[n]) && P.ParseAttributes(s, NameEnd(s, n), [], line, o).ret.Some?
  }

  lemma TagStands(s: string, p: nat, pd: nat, line: nat, o: P.Options) returns (t: Tag, head: P.Parsed)
    requires Terminated(s) && p + 1 < |s| && s[p] == '<' && pd < P.MAX_ELEMENT_DEPTH && ReadableTag(s, p, line, o)
    ensures t.Valid() && At(s, p, t.Source()) && p + |t.Source()| < |s|
    ensures TagRead(s, p, t, line, o, head) && IsElement(s, p, pd, o, head, P.ParseElement(s, p + 1, pd, line, o))
  {
    hide At, SkipWS, IsGap, DistinctNames, NewNames, P.ParseAttributes, P.ParseElement, NameEnd, IsXmlName, TagRead,
      IsElement, AttributesSource;
    var gap := GapAt(s, p + 1);
    var w := p + 1 + |gap|;
    var slash := s[w] == '/';
    var n := if slash then w + 1 else w;
    var name := NameAt(s, n);
    var a := n + |name|;
    var attributes, last := AttributesWritten(s, a, [], line, o);
    NameGap(s[a]);
    t := Tag(gap, slash, name, attributes, last, P.ParseAttributes(s, a, [], line, o).sealed);
    OneAt(s, p, '<');
    if slash { OneAt(s, w, '/'); }
    TagJoined(s, p, t);
    head := TagAccepted(s, p, t, pd, line, o);
  }

  lemma NamedTag(s: string, p: nat, pd: nat, line: nat, o: P.Options)
    requires Terminated(s) && p + 1 < |s| && pd < P.MAX_ELEMENT_DEPTH
    requires P.ParseElement(s, p + 1, pd, line, o).ret.Some?
    ensures ReadableTag(s, p, line, o)
  {
    hide SkipWS, P.ParseAttributes, NameEnd, P.ParseDeep;
  }

  /** What does not go on with a name and is no blank starts no attribute. */
  lemma NameGap(c: char)
    requires !IsNameChar(c)
    ensures !IsNameStartChar(c)
  {
  }

  lemma TagJoined(s: string, p: nat, t: Tag)
    requires At(s, p, "<") && At(s, p + 1, t.gap) && (t.slash ==> At(s, p + 1 + |t.gap|, "/"))
    requires var n := p + 1 + |t.gap| + (if t.slash then 1 else 0); var a := n + |t.name|;
      var e := a + |AttributesSource(t.attributes)|;
      && At(s, n, t.name) && At(s, a, AttributesSource(t.attributes)) && At(s, e, t.last)
      && At(s, e + |t.last|, if t.sealed then "/>" else ">")
    ensures At(s, p, t.Source())
  {
    hide At, AttributesSource;
    var slash, attributes := if t.slash then "/" else "", AttributesSource(t.attributes);
    if !t.slash { EmptyAt(s, p + 1 + |t.gap|, t.name); }
    AtSplit3(s, p, "<", t.gap, slash);
    AtSplit3(s, p, "<" + t.gap + slash, t.name, attributes);
    AtSplit3(s, p, t.Head(), t.last, if t.sealed then "/>" else ">");
  }

  lemma EmptyAt(s: string, p: nat, w: string)
    requires At(s, p, w)
    ensures At(s, p, "")
  {
  }

  // ---- leaves --------------------------------------------------------------------------------------

  /** A node in the form it was written. */
  ghost predicate IsWritten(s: string, p: nat, pd: nat, o: P.Options, w: Written)
    requires Terminated(s) && p < |s| && pd < P.MAX_ELEMENT_DEPTH && s[SkipWS(s, p)] != NUL
  {
    var r := P.ParseNode(s, p, pd, o);
    && WellWritten(w) && At(s, p, Source(w)) && r.ret == Some(p + |Source(w)|)
    && pd + Depth(w) < P.MAX_ELEMENT_DEPTH && (w.IsDeclaration() <==> r.node.Declaration?)
    && (w.Text? <==> s[SkipWS(s, p)] != '<') && (w.Text? ==> s[r.ret.value] == '<')
    && (!w.Text? ==> (w.gap == "" <==> !IsWhiteSpace(s[p])))
  }

  function MarkOf(k: P.Kind): Mark {
    match k
    case KComment => Comment
    case KCData => CData
    case KDeclaration => Declaration
    case _ => Unknown
  }

  lemma MarkWritten(s: string, p: nat, pd: nat, o: P.Options) returns (w: Written)
    requires Terminated(s) && p < |s| && pd < P.MAX_ELEMENT_DEPTH && s[SkipWS(s, p)] == '<'
    requires !P.KindAt(s, SkipWS(s, p)).KElement? && P.ParseNode(s, p, pd, o).ret.Some?
    ensures IsWritten(s, p, pd, o, w)
  {
    hide At, SkipWS, P.KindAt, IsGap, FindTag, X.FreeOf;
    var gap := GapAt(s, p);
    var b := p + |gap|;
    var k := P.KindAt(s, b);
    P.KindHeader(s, b);
    var m := MarkOf(k);
    MarkBrackets(k);
    var v := b + |m.Opening()|;
    var raw := ContentAt(s, v, m.Ending());
    w := Marked(gap, m, raw);
    NotHeader(s, b, raw, m, o);
    AtSplit3(s, p, gap, m.Opening(), raw);
    AtSplit(s, p, gap + m.Opening() + raw, m.Ending());
  }

  lemma MarkBrackets(k: P.Kind)
    requires !k.KElement? && !k.KText?
    ensures MarkOf(k).Opening() == P.Header(k) && MarkOf(k).Ending() == P.EndTag(k)
  {
  }

  lemma NotHeader(s: string, b: nat, raw: string, m: Mark, o: P.Options)
    requires Terminated(s) && b < |s| && s[b] == '<' && P.KindAt(s, b) == KindOf(m)
    requires At(s, b + |m.Opening()|, raw)
    ensures m.Unknown? ==> !("--" <= raw) && !("[CDATA[" <= raw)
  {
    hide At;
    if m.Unknown? {
      Headed(s, b, raw, "--");
      Headed(s, b, raw, "[CDATA[");
      assert "<!" + "--" == P.COMMENT_HEADER && "<!" + "[CDATA[" == P.CDATA_HEADER;
    }
  }

  lemma Headed(s: string, b: nat, raw: string, tail: string)
    requires At(s, b, "<!") && At(s, b + 2, raw)
    ensures tail <= raw ==> At(s, b, "<!" + tail)
  {
    if tail <= raw {
      assert raw == tail + raw[|tail|..];
      AtSplit(s, b + 2, tail, raw[|tail|..]);
      AtSplit(s, b, "<!", tail);
    }
  }

  lemma TextWritten(s: string, p: nat, pd: nat, o: P.Options) returns (w: Written)
    requires Terminated(s) && p < |s| && pd < P.MAX_ELEMENT_DEPTH && s[SkipWS(s, p)] != '<' && s[SkipWS(s, p)] != NUL
    requires P.ParseNode(s, p, pd, o).ret.Some?
    ensures IsWritten(s, p, pd, o, w)
  {
    hide At, SkipWS, FindTag, X.FreeOf;
    P.KindHeader(s, SkipWS(s, p));
    var raw := ContentAt(s, p, "<");
    CharNotIn(raw, '<');
    AtIndex(s, p + |raw|, "<", 0);
    NotAllBlank(s, p, raw);
    w := Text(raw);
  }

  lemma NotAllBlank(s: string, p: nat, raw: string)
    requires Terminated(s) && p < |s| && At(s, p, raw) && p + |raw| < |s|
    requires s[p + |raw|] == '<' && s[SkipWS(s, p)] != '<'
    ensures !IsGap(raw)
  {
    if IsGap(raw) { GapSkipped(s, p, raw); }
  }

  // ---- elements and lists ----------------------------------------------------------------------------

  lemma NodeWritten(s: string, p: nat, pd: nat, o: P.Options) returns (w: Written)
    requires Terminated(s) && p < |s| && pd < P.MAX_ELEMENT_DEPTH && s[SkipWS(s, p)] != NUL
    requires var r := P.ParseNode(s, p, pd, o);
      r.ret.Some? && (r.node.Element? ==> r.node.closing != P.Closing && !P.Mismatched(s, r.node, r.endTag))
    ensures IsWritten(s, p, pd, o, w)
    decreases |s| - p, 1
  {
    hide At, SkipWS, P.KindAt, P.ParseElement, P.ParseLeaf, IsWritten, P.Mismatched;
    var b := SkipWS(s, p);
    P.KindHeader(s, b);
    if s[b] != '<' {
      w := TextWritten(s, p, pd, o);
    } else if P.KindAt(s, b) != P.KElement {
      w := MarkWritten(s, p, pd, o);
    } else {
      w := ElementWritten(s, p, pd, o);
    }
  }

  /** The tag behind blanks at p. */
  lemma TagBehind(s: string, p: nat, pd: nat, o: P.Options) returns (gap: string, t: Tag, head: P.Parsed)
    requires Terminated(s) && p < |s| && pd < P.MAX_ELEMENT_DEPTH && s[SkipWS(s, p)] == '<'
    requires P.KindAt(s, SkipWS(s, p)) == P.KElement && P.ParseNode(s, p, pd, o).ret.Some?
    ensures IsGap(gap) && t.Valid() && At(s, p, gap + t.Source()) && p < p + |gap + t.Source()| < |s|
    ensures gap == "" <==> !IsWhiteSpace(s[p])
    ensures var b := p + |gap|;
      && b == SkipWS(s, p) && TagRead(s, b, t, LineAt(s, b), o, head)
      && IsElement(s, b, pd, o, head, P.ParseNode(s, p, pd, o))
  {
    hide At, SkipWS, P.KindAt, P.ParseElement, Tag.Valid, Tag.Source, TagRead, IsElement, IsGap;
    gap := GapAt(s, p);
    var b := p + |gap|;
    P.KindHeader(s, b);
    t, head := TagWritten(s, b, pd, LineAt(s, b), o);
    TagLength(t);
    AtSplit(s, p, gap, t.Source());
  }

  lemma TagLength(t: Tag)
    ensures |t.Source()| > 0
  {
  }

  lemma ElementWritten(s: string, p: nat, pd: nat, o: P.Options) returns (w: Written)
    requires Terminated(s) && p < |s| && pd < P.MAX_ELEMENT_DEPTH && s[SkipWS(s, p)] == '<'
    requires P.KindAt(s, SkipWS(s, p)) == P.KElement
    requires var r := P.ParseNode(s, p, pd, o);
      r.ret.Some? && r.node.Element? && r.node.closing != P.Closing && !P.Mismatched(s, r.node, r.endTag)
    ensures IsWritten(s, p, pd, o, w)
    decreases |s| - p, 0
  {
    hide At, SkipWS, P.KindAt, P.ParseNode, Tag.Valid, Tag.Source, IsGap, P.ParseDeep, P.Raw, Str, AttrsOf,
      AttributesMeant, SourceAll;
    var gap, t, head := TagBehind(s, p, pd, o);
    if t.sealed {
      w := Sealed(gap, t);
      MatchedSealed(w);
    } else {
      var c := p + |gap + t.Source()|;
      var children, last, end := BodyWritten(s, c, pd, o);
      w := Element(gap, t, children, last, end);
      AtSplit(s, p, gap + t.Source(), SourceAll(children));
      AtSplit3(s, p, gap + t.Source() + SourceAll(children), last, end.Source());
    }
  }

  lemma MatchedSealed(w: Written)
    requires w.Sealed?
    ensures Depth(w) == 0 && Source(w) == w.gap + w.tag.Source()
  {
  }

  /** Children and end tag behind a start tag. */
  lemma BodyWritten(s: string, c: nat, pd: nat, o: P.Options) returns (children: seq<Written>, last: string, end: Tag)
    requires Terminated(s) && c < |s| && pd < P.MAX_ELEMENT_DEPTH && P.ParseDeep(s, c, pd, false, o).ret.Some?
    requires P.ParseDeep(s, c, pd, false, o).endTag.Some?
    ensures (forall w | w in children :: WellWritten(w) && !w.IsDeclaration()) && TextsEnd(children, last)
    ensures IsGap(last) && end.Valid() && end.IsEnd() && pd + 1 + MaxDepth(children) < P.MAX_ELEMENT_DEPTH
    ensures var r := P.ParseDeep(s, c, pd, false, o);
      && At(s, c, SourceAll(children)) && At(s, c + |SourceAll(children)|, last)
      && At(s, c + |SourceAll(children)| + |last|, end.Source())
      && r.ret.value == c + |SourceAll(children)| + |last| + |end.Source()| && P.Raw(s, r.endTag.value) == end.name
    decreases |s| - c, 3
  {
    hide At, P.ParseChildren, Tag.Valid, Tag.Source, P.Raw, SourceAll, TextsEnd, DeclarationsFit, WellWritten;
    var rest;
    children, rest := RowWritten(s, c, pd + 1, false, [], o);
    last, end := rest.gap, rest.tag;
    NoneDeclared(children);
    AtSplit(s, c + |SourceAll(children)|, last, end.Source());
  }

  lemma NoneDeclared(ws: seq<Written>)
    requires DeclarationsFit(false, [], ws)
    ensures forall w | w in ws :: !w.IsDeclaration()
  {
  }

  /** Every declaration stands before everything else. */
  ghost predicate InFront(ns: seq<P.Node>) {
    forall i, j | 0 <= i < j < |ns| && ns[j].Declaration? :: ns[i].Declaration?
  }

  /** What stands behind the children that were read: an end tag, or the end of the buffer. */
  ghost predicate RestAt(s: string, e: nat, r: P.ParsedChildren, rest: Rest)
  {
    && e < |s| && Terminated(s) && IsGap(rest.gap) && At(s, e, rest.gap) && (rest.gap == "" <==> !IsWhiteSpace(s[e]))
    && match rest
       case End(gap) => r.ret == None && e + |gap| < |s| && s[e + |gap|] == NUL
       case Stray(gap, tag, _) =>
         && tag.Valid() && tag.IsEnd() && At(s, e, gap + tag.Source()) && r.ret == Some(e + |gap + tag.Source()|)
         && r.endTag.Some? && P.Raw(s, r.endTag.value) == tag.name && s[e + |gap|] == '<'
  }

  lemma {:induction false} RowWritten(s: string, p: nat, pd: nat, atDoc: bool, soFar: seq<P.Node>, o: P.Options)
    returns (ws: seq<Written>, rest: Rest)
    requires Terminated(s) && p < |s| && pd < P.MAX_ELEMENT_DEPTH && InFront(soFar)
    requires P.ParseChildren(s, p, pd, atDoc, soFar, o).err == None
    ensures Row(ws, rest.gap) && DeclarationsFit(atDoc, soFar, ws) && pd + MaxDepth(ws) < P.MAX_ELEMENT_DEPTH
    ensures At(s, p, SourceAll(ws)) && p + |SourceAll(ws)| < |s|
    ensures RestAt(s, p + |SourceAll(ws)|, P.ParseChildren(s, p, pd, atDoc, soFar, o), rest)
    ensures ws != [] && ws[|ws| - 1].Text? ==> rest.Stray?
    ensures ws != [] ==> (ws[0].Text? <==> s[SkipWS(s, p)] != '<')
    ensures ws != [] && !ws[0].Text? ==> (ws[0].gap == "" <==> !IsWhiteSpace(s[p]))
    decreases |s| - p, 2
  {
    hide At, SkipWS, P.ParseNode, P.ParseChildren, Row, WellWritten, TextsEnd, DeclarationsFit, InFront, IsWritten,
      RestAt, P.Mismatched, P.DeclarationAllowed, Source;
    RoundDone(s, p, pd, atDoc, soFar, o);
    if EndsHere(s, p, pd, o) {
      ws := [];
      rest := RestFound(s, p, pd, atDoc, soFar, o);
      EmptyRow(s, p, pd, atDoc, soFar, rest.gap);
    } else {
      var r := P.ParseNode(s, p, pd, o);
      var w := NodeWritten(s, p, pd, o);
      var q := p + |Source(w)|;
      RoundMore(s, p, pd, atDoc, soFar, o, w);
      var others;
      others, rest := RowWritten(s, q, pd, atDoc, soFar + [r.node], o);
      ws := [w] + others;
      RowExtended(s, p, pd, w, others, rest, o, atDoc, soFar, r.node, P.ParseChildren(s, p, pd, atDoc, soFar, o));
      AtSplit(s, p, Source(w), SourceAll(others));
    }
  }

  /** The loop over the children ends at p, unless in an error: nothing is left, or an end tag comes. */
  predicate EndsHere(s: string, p: nat, pd: nat, o: P.Options)
    requires Terminated(s) && p < |s| && pd < P.MAX_ELEMENT_DEPTH
  {
    s[SkipWS(s, p)] == NUL || var n := P.ParseNode(s, p, pd, o).node; n.Element? && n.closing == P.Closing
  }

  lemma RoundDone(s: string, p: nat, pd: nat, atDoc: bool, soFar: seq<P.Node>, o: P.Options)
    requires Terminated(s) && p < |s| && pd < P.MAX_ELEMENT_DEPTH
    requires P.ParseChildren(s, p, pd, atDoc, soFar, o).err == None
    ensures !EndsHere(s, p, pd, o) ==> var r := P.ParseNode(s, p, pd, o);
      && r.ret.Some? && (r.node.Declaration? ==> P.DeclarationAllowed(atDoc, soFar))
      && (r.node.Element? ==> r.node.closing != P.Closing && !P.Mismatched(s, r.node, r.endTag))
      && P.ParseChildren(s, p, pd, atDoc, soFar, o)
        == P.ParseChildren(s, r.ret.value, pd, atDoc, soFar + [r.node], o)
    ensures EndsHere(s, p, pd, o) && s[SkipWS(s, p)] != NUL ==> var r := P.ParseNode(s, p, pd, o);
      && r.ret.Some?
      && P.ParseChildren(s, p, pd, atDoc, soFar, o) == P.ParsedChildren(r.ret, Some(r.node.name), soFar, None)
    ensures s[SkipWS(s, p)] == NUL ==>
      P.ParseChildren(s, p, pd, atDoc, soFar, o) == P.ParsedChildren(None, None, soFar, None)
  {
    hide SkipWS, P.ParseNode, P.Mismatched, P.DeclarationAllowed;
  }

  lemma RestFound(s: string, p: nat, pd: nat, atDoc: bool, soFar: seq<P.Node>, o: P.Options) returns (rest: Rest)
    requires Terminated(s) && p < |s| && pd < P.MAX_ELEMENT_DEPTH
    requires P.ParseChildren(s, p, pd, atDoc, soFar, o).err == None
    requires EndsHere(s, p, pd, o)
    ensures RestAt(s, p, P.ParseChildren(s, p, pd, atDoc, soFar, o), rest)
  {
    hide At, SkipWS, P.ParseNode, P.ParseChildren, Tag.Valid, Tag.Source, P.Raw, Str, AttrsOf, AttributesMeant;
    RoundDone(s, p, pd, atDoc, soFar, o);
    if s[SkipWS(s, p)] == NUL {
      var gap := GapAt(s, p);
      rest := End(gap);
    } else {
      EndTagKind(s, p, pd, o);
      var gap, t, head := TagBehind(s, p, pd, o);
      rest := Stray(gap, t, "");
      AtSplit(s, p, gap, t.Source());
    }
  }

  lemma EndTagKind(s: string, p: nat, pd: nat, o: P.Options)
    requires Terminated(s) && p < |s| && pd < P.MAX_ELEMENT_DEPTH && s[SkipWS(s, p)] != NUL
    requires P.ParseNode(s, p, pd, o).node.Element?
    ensures s[SkipWS(s, p)] == '<' && P.KindAt(s, SkipWS(s, p)) == P.KElement
  {
    hide SkipWS, P.KindAt, P.ParseElement;
    P.KindHeader(s, SkipWS(s, p));
  }

  lemma RoundMore(s: string, p: nat, pd: nat, atDoc: bool, soFar: seq<P.Node>, o: P.Options, w: Written)
    requires Terminated(s) && p < |s| && pd < P.MAX_ELEMENT_DEPTH && InFront(soFar) && s[SkipWS(s, p)] != NUL
    requires IsWritten(s, p, pd, o, w)
    requires var r := P.ParseNode(s, p, pd, o);
      r.ret.Some? && (r.node.Declaration? ==> P.DeclarationAllowed(atDoc, soFar))
    ensures var r := P.ParseNode(s, p, pd, o);
      && At(s, p, Source(w)) && r.ret == Some(p + |Source(w)|) && p < p + |Source(w)| < |s| && InFront(soFar + [r.node])
      && (w.IsDeclaration() <==> r.node.Declaration?)
      && (w.IsDeclaration() ==> atDoc && forall n | n in soFar :: n.Declaration?)
  {
    hide At, SkipWS, P.ParseNode, WellWritten, Source;
    var r := P.ParseNode(s, p, pd, o);
    if r.node.Declaration? {
      forall n | n in soFar ensures n.Declaration? {
        var i :| 0 <= i < |soFar| && soFar[i] == n;
        if i < |soFar| - 1 { assert soFar[|soFar| - 1].Declaration?; }
      }
    }
  }

  lemma EmptyRow(s: string, p: nat, pd: nat, atDoc: bool, soFar: seq<P.Node>, last: string)
    requires p < |s| && pd < P.MAX_ELEMENT_DEPTH
    ensures Row([], last) && DeclarationsFit(atDoc, soFar, []) && pd + MaxDepth([]) < P.MAX_ELEMENT_DEPTH
    ensures At(s, p, SourceAll([])) && p + |SourceAll([])| == p
  {
  }

  /** A row with one more node in front. */
  lemma RowExtended(s: string, p: nat, pd: nat, w: Written, ws: seq<Written>, rest: Rest, o: P.Options, atDoc: bool,
      soFar: seq<P.Node>, n: P.Node, r: P.ParsedChildren)
    requires Terminated(s) && p < |s| && pd < P.MAX_ELEMENT_DEPTH && s[SkipWS(s, p)] != NUL && IsWritten(s, p, pd, o, w)
    requires var q := p + |Source(w)|;
      && q < |s| && Row(ws, rest.gap) && pd + MaxDepth(ws) < P.MAX_ELEMENT_DEPTH
      && RestAt(s, q + |SourceAll(ws)|, r, rest) && (ws != [] && ws[|ws| - 1].Text? ==> rest.Stray?)
      && (ws != [] ==> (ws[0].Text? <==> s[SkipWS(s, q)] != '<'))
      && (ws != [] && !ws[0].Text? ==> (ws[0].gap == "" <==> !IsWhiteSpace(s[q])))
    requires DeclarationsFit(atDoc, soFar + [n], ws) && (w.IsDeclaration() <==> n.Declaration?)
    requires w.IsDeclaration() ==> atDoc && forall x | x in soFar :: x.Declaration?
    ensures var all := [w] + ws;
      && Row(all, rest.gap) && pd + MaxDepth(all) < P.MAX_ELEMENT_DEPTH && DeclarationsFit(atDoc, soFar, all)
      && SourceAll(all) == Source(w) + SourceAll(ws) && (all[|all| - 1].Text? ==> rest.Stray?)
      && (w.Text? <==> s[SkipWS(s, p)] != '<') && (!w.Text? ==> (w.gap == "" <==> !IsWhiteSpace(s[p])))
  {
    hide At, P.ParseNode, WellWritten, Source, Row, Depth, DeclarationsFit;
    if w.Text? { TextMeetsTag(s, p + |Source(w)|, ws, rest, r); }
    RowCons(w, ws, rest.gap);
    FitsCons(atDoc, soFar, w, n, ws);
    var all := [w] + ws;
    if ws != [] { assert all[|all| - 1] == ws[|ws| - 1]; }
  }

  lemma TextMeetsTag(s: string, q: nat, ws: seq<Written>, rest: Rest, r: P.ParsedChildren)
    requires Terminated(s) && q < |s| && s[q] == '<' && RestAt(s, q + |SourceAll(ws)|, r, rest)
    requires ws != [] ==> (ws[0].Text? <==> s[SkipWS(s, q)] != '<')
    requires ws != [] && !ws[0].Text? ==> (ws[0].gap == "" <==> !IsWhiteSpace(s[q]))
    ensures if ws == [] then rest.gap == "" && rest.Stray? else !ws[0].Text? && ws[0].gap == ""
  {
    hide At, Source;
  }

  lemma FitsCons(atDoc: bool, soFar: seq<P.Node>, w: Written, n: P.Node, ws: seq<Written>)
    requires DeclarationsFit(atDoc, soFar + [n], ws) && (w.IsDeclaration() <==> n.Declaration?)
    requires w.IsDeclaration() ==> atDoc && forall x | x in soFar :: x.Declaration?
    ensures DeclarationsFit(atDoc, soFar, [w] + ws)
  {
    var all := [w] + ws;
    forall i | 0 <= i < |all| && all[i].IsDeclaration()
      ensures atDoc && (forall x | x in soFar :: x.Declaration?) && forall j | 0 <= j < i :: all[j].IsDeclaration()
    {
      if i > 0 {
        assert all[i] == ws[i - 1] && n in soFar + [n];
        assert forall x | x in soFar :: x in soFar + [n];
        forall j | 0 <= j < i ensures all[j].IsDeclaration() {
          if j > 0 { assert all[j] == ws[j - 1]; }
        }
      }
    }
  }

  // ---- documents ---------------------------------------------------------------------------------------

  lemma NoNulInGap(w: string)
    requires IsGap(w)
    ensures NUL !in w
  {
  }

  lemma {:induction false} NoNulInAttributes(attributes: seq<Attribute>)
    requires forall a | a in attributes :: a.Valid()
    ensures NUL !in AttributesSource(attributes)
  {
    if attributes != [] {
      var a := attributes[0];
      assert a in attributes;
      NoNulInGap(a.gap);
      NoNulInGap(a.behind);
      NoNulInGap(a.between);
      NoNulInAttributes(attributes[1..]);
    }
  }

  lemma NoNulInTag(t: Tag)
    requires t.Valid()
    ensures NUL !in t.Source()
  {
    hide IsGap, DistinctNames;
    NoNulInGap(t.gap);
    NoNulInGap(t.last);
    NoNulInAttributes(t.attributes);
  }

  lemma {:induction false} NoNulIn(w: Written)
    requires WellWritten(w)
    ensures NUL !in Source(w)
    decreases w, 0
  {
    hide IsGap, Tag.Valid, Tag.Source, TextsEnd;
    match w
    case Text(_) =>
    case Marked(gap, _, _) => NoNulInGap(gap);
    case Sealed(gap, tag) =>
      NoNulInGap(gap);
      NoNulInTag(tag);
    case Element(gap, tag, children, last, end) =>
      NoNulInGap(gap);
      NoNulInTag(tag);
      NoNulInAll(children);
      NoNulInGap(last);
      NoNulInTag(end);
  }

  lemma {:induction false} NoNulInAll(ws: seq<Written>)
    requires forall w | w in ws :: WellWritten(w)
    ensures NUL !in SourceAll(ws)
    decreases ws, 1
  {
    hide WellWritten, Source;
    if ws != [] {
      assert ws[0] in ws && forall w | w in ws[1..] :: w in ws;
      NoNulIn(ws[0]);
      NoNulInAll(ws[1..]);
    }
  }

  /** The start of a document that was parsed. */
  lemma StartWritten(s: string, o: P.Options) returns (gap: string, bom: bool, p: nat)
    requires Terminated(s) && P.ParseDocument(s, o).err == None
    ensures IsGap(gap) && At(s, 0, gap + if bom then BOM else "") && p == |gap + if bom then BOM else ""| < |s|
    ensures s[p] != NUL && (!bom ==> !IsWhiteSpace(s[p]) && !At(s, p, BOM))
    ensures P.ParseChildren(s, p, 1, true, [], o).err == None
  {
    hide At, SkipWS, P.ParseChildren, IsGap;
    gap := GapAt(s, 0);
    bom := At(s, |gap|, BOM);
    p := |gap| + if bom then 3 else 0;
    if bom { AtBeforeNul(s, |gap|, BOM); }
    AtSplit(s, 0, gap, if bom then BOM else "");
    AtSlice(s, |gap|, "");
  }

  /** What the rest of the buffer is, up to its NUL. */
  lemma RestSource(s: string, e: nat, r: P.ParsedChildren, rest: Rest) returns (full: Rest)
    requires RestAt(s, e, r, rest)
    ensures full.Valid() && full.gap == rest.gap && (full.Stray? <==> rest.Stray?)
    ensures At(s, e, full.Source()) && e + |full.Source()| < |s| && s[e + |full.Source()|] == NUL
    ensures NUL !in full.Source()
  {
    hide At, IsGap, Tag.Valid, Tag.Source;
    NoNulInGap(rest.gap);
    match rest
    case End(gap) => full := End(gap);
    case Stray(gap, tag, _) =>
      NoNulInTag(tag);
      TagLength(tag);
      AtSlice(s, e, gap + tag.Source());
      var q := e + |gap + tag.Source()|;
      var ignored := UpToNul(s[q..]);
      IgnoredEnds(s, q, ignored, e, gap + tag.Source());
      full := Stray(gap, tag, ignored);
  }

  lemma IgnoredEnds(s: string, q: nat, ignored: string, e: nat, w: string)
    requires Terminated(s) && At(s, e, w) && q == e + |w| <= |s| && NUL !in w && w != "" && ignored == UpToNul(s[q..])
    ensures At(s, e, w + ignored) && q + |ignored| < |s| && s[q + |ignored|] == NUL
  {
    AtIndex(s, e, w, |w| - 1);
    assert w[|w| - 1] in w;
    var t := s[q..];
    assert t[|t| - 1] == NUL && t[|t| - 1] in t;
    assert s[q..q + |ignored|] == ignored;
    AtSlice(s, q, ignored);
    AtSplit(s, e, w, ignored);
  }

  /** Every text that is parsed without an error is written as a document. */
  lemma DocumentWritten(s: string, o: P.Options) returns (w: Document)
    requires Terminated(s) && P.ParseDocument(s, o).err == None
    ensures w.Valid() && w.Source() == UpToNul(s)
  {
    hide At, SkipWS, P.ParseChildren, P.ParseDocument, IsGap, Row, WellWritten, DeclarationsFit, InFront, RestAt,
      Rest.Valid, Rest.Source, UpToNul, Document.Valid, SourceAll;
    var gap, bom, p := StartWritten(s, o);
    NoneInFront();
    var nodes, rest := RowWritten(s, p, 1, true, [], o);
    var full := RestSource(s, p + |SourceAll(nodes)|, P.ParseChildren(s, p, 1, true, [], o), rest);
    w := Document(gap, bom, nodes, full);
    AtSplit(s, p, SourceAll(nodes), full.Source());
    NoNulInNodes(nodes, full.gap);
    NoNulInGap(gap);
    AtSplit(s, 0, gap + if bom then BOM else "", w.Content());
    assert w.Source() == gap + (if bom then BOM else "") + w.Content();
    WholeText(s, w.Source());
    ValidDocument(s, w, p);
  }

  lemma NoneInFront()
    ensures InFront([])
  {
  }

  lemma NoNulInNodes(nodes: seq<Written>, last: string)
    requires Row(nodes, last)
    ensures NUL !in SourceAll(nodes)
  {
    NoNulInAll(nodes);
  }

  lemma WholeText(s: string, w: string)
    requires At(s, 0, w) && |w| < |s| && s[|w|] == NUL && NUL !in w
    ensures UpToNul(s) == w
  {
    AtSlice(s, 0, w);
    UpToNulUnique(s, w);
  }

  lemma ValidDocument(s: string, w: Document, p: nat)
    requires IsGap(w.gap) && w.rest.Valid() && Row(w.nodes, w.rest.gap) && MaxDepth(w.nodes) <= 498
    requires DeclarationsFit(true, [], w.nodes) && (w.nodes != [] && w.nodes[|w.nodes| - 1].Text? ==> w.rest.Stray?)
    requires At(s, p, w.Content()) && p + |w.Content()| < |s| && s[p + |w.Content()|] == NUL && s[p] != NUL
    requires !w.bom ==> !IsWhiteSpace(s[p]) && !At(s, p, BOM)
    ensures w.Valid()
  {
    hide At, IsGap, WellWritten, TextsEnd, Rest.Valid, MaxDepth, Document.Content;
    AtIndex(s, p, w.Content(), 0);
    SameBlank(s[p]);
    if BOM <= w.Content() { PrefixAt(s, p, w.Content(), BOM); }
  }

  lemma PrefixAt(s: string, p: nat, w: string, u: string)
    requires At(s, p, w) && u <= w
    ensures At(s, p, u)
  {
    assert w == u + w[|u|..];
    AtSplit(s, p, u, w[|u|..]);
  }

  /** The parser accepts exactly the texts that are written as documents, whatever follows their first
      NUL, and makes of them what they mean. */
  lemma AcceptedTexts(s: string, o: P.Options)
    requires Terminated(s)
    ensures P.ParseDocument(s, o).err == None <==> exists w: Document :: w.Valid() && w.Source() == UpToNul(s)
    ensures forall w: Document | w.Valid() && w.Source() == UpToNul(s) :: DocOf(s, P.ParseDocument(s, o)) == w.Meant(o)
  {
    hide P.ParseDocument, Document.Valid, Document.Source, UpToNul, DocOf, Document.Meant;
    if P.ParseDocument(s, o).err == None {
      var w := DocumentWritten(s, o);
    }
    forall w: Document | w.Valid() && w.Source() == UpToNul(s)
      ensures P.ParseDocument(s, o).err == None && DocOf(s, P.ParseDocument(s, o)) == w.Meant(o)
    {
      DocumentAccepted(w, s, o);
    }
  }
}
