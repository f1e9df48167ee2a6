/** Every text that is parsed with an error has one of the flaws of BrokenXml.dfy, so that the parser's
    answer, be it a document or an error and its line, is known for every text. */
module RefusedXml {
  import opened XmlUtil
  import opened TreeMeaning
  import opened WrittenXml
  import opened AcceptedXml
  import opened ParsedXml
  import opened BrokenXml
  import P = ParserSpec
  import X = XmlTree

  // ---- what is left of the text ------------------------------------------------------------

  /** From p on the text is w. */
  ghost predicate Ends(s: string, p: nat, w: string) {
    At(s, p, w) && p + |w| < |s| && s[p + |w|] == NUL && NUL !in w
  }

  lemma Left(s: string, p: nat) returns (w: string)
    requires Terminated(s) && p < |s|
    ensures Ends(s, p, w) && (s[p] == NUL <==> w == "") && (w != "" ==> w[0] == s[p])
  {
    var t := s[p..];
    w := UpToNul(t);
    TextInBuffer(t, w);
    AtSlice(t, 0, w);
    assert s[p..p + |w|] == t[0..|w|];
    AtSlice(s, p, w);
  }

  lemma EndsMore(s: string, p: nat, u: string, w: string)
    requires At(s, p, u) && NUL !in u && Ends(s, p + |u|, w)
    ensures Ends(s, p, u + w)
  {
    hide At;
    AtSplit(s, p, u, w);
  }

  /** What is left begins with '<' and more. */
  lemma EndsInTag(s: string, p: nat, w: string)
    requires Ends(s, p, w) && TagNext(s, p)
    ensures |w| > 1 && w[0] == '<'
  {
    if w != "" { AtIndex(s, p, w, 0); }
    if |w| > 1 { AtIndex(s, p, w, 1); }
  }

  lemma {:induction false} NoneBefore(s: string, p: nat, k: nat, tag: string)
    requires Terminated(s) && p <= k < |s| && tag != [] && NUL !in tag && FindTag(s, p, tag) == None
    requires forall j | p <= j <= k :: s[j] != NUL
    ensures !At(s, k, tag)
    decreases k - p
  {
    if p < k { NoneBefore(s, p + 1, k, tag); }
  }

  /** A tag that is not found is not in what is left. */
  lemma NotFound(s: string, p: nat, w: string, tag: string)
    requires Terminated(s) && Ends(s, p, w) && tag != [] && NUL !in tag && FindTag(s, p, tag) == None
    ensures X.FreeOf(w, tag)
  {
    hide FindTag, At;
    forall i | 0 <= i < |w| ensures !At(w, i, tag) {
      forall j | p <= j <= p + i ensures s[j] != NUL {
        AtIndex(s, p, w, j - p);
        assert w[j - p] in w;
      }
      NoneBefore(s, p, p + i, tag);
      if At(w, i, tag) { AtInside(s, p, w, i, tag); }
    }
  }

  lemma AtInside(s: string, p: nat, w: string, i: nat, tag: string)
    requires At(s, p, w) && At(w, i, tag)
    ensures At(s, p + i, tag)
  {
  }

  /** The flaw begins at p, at this depth. */
  ghost predicate FlawAt(s: string, p: nat, pd: nat, f: Flaw) {
    f.Valid(pd) && Ends(s, p, f.Source())
  }

  // ---- leaves --------------------------------------------------------------------------------------

  lemma MarkRefused(s: string, p: nat, pd: nat, o: P.Options) returns (f: Flaw)
    requires Terminated(s) && p < |s| && pd < P.MAX_ELEMENT_DEPTH && s[SkipWS(s, p)] == '<'
    requires !P.KindAt(s, SkipWS(s, p)).KElement? && P.ParseNode(s, p, pd, o).ret == None
    ensures f.OpenMark? && FlawAt(s, p, pd, f)
  {
    hide At, SkipWS, P.KindAt, IsGap, FindTag, X.FreeOf;
    var gap := GapAt(s, p);
    var b := p + |gap|;
    var k := P.KindAt(s, b);
    P.KindHeader(s, b);
    var m := MarkOf(k);
    MarkBrackets(k);
    var v := b + |m.Opening()|;
    var raw := Left(s, v);
    NotFound(s, v, raw, m.Ending());
    NotHeader(s, b, raw, m, o);
    f := OpenMark(gap, m, raw);
    NoNulInGap(gap);
    AtSplit(s, p, gap, m.Opening());
    EndsMore(s, p, gap + m.Opening(), raw);
  }

  lemma TextRefused(s: string, p: nat, pd: nat, o: P.Options) returns (f: Flaw)
    requires Terminated(s) && p < |s| && pd < P.MAX_ELEMENT_DEPTH && s[SkipWS(s, p)] != '<' && s[SkipWS(s, p)] != NUL
    requires P.ParseNode(s, p, pd, o).ret == None
    ensures (f.OpenText? || f.CutText?) && FlawAt(s, p, pd, f)
  {
    hide At, SkipWS, FindTag, X.FreeOf, IsGap;
    P.KindHeader(s, SkipWS(s, p));
    if FindTag(s, p, "<") == None {
      var raw := Left(s, p);
      NotFound(s, p, raw, "<");
      CharNotIn(raw, '<');
      if IsGap(raw) { GapSkipped(s, p, raw); }
      f := OpenText(raw);
    } else {
      var raw := ContentAt(s, p, "<");
      CharNotIn(raw, '<');
      AtIndex(s, p + |raw|, "<", 0);
      NotAllBlank(s, p, raw);
      AtSplit(s, p, raw, "<");
      f := CutText(raw);
    }
  }

  // ---- tags ------------------------------------------------------------------------------------------

  lemma NamelessRefused(s: string, p: nat, pd: nat, o: P.Options) returns (f: Flaw)
    requires Terminated(s) && p < |s| && s[SkipWS(s, p)] == '<' && SkipWS(s, p) + 1 < |s|
    requires P.KindAt(s, SkipWS(s, p)) == P.KElement
    requires var w := SkipWS(s, SkipWS(s, p) + 1); var n := if s[w] == '/' then w + 1 else w;
      n < |s| && !IsNameStartChar(s[n])
    ensures f.Nameless? && FlawAt(s, p, pd, f)
  {
    hide At, SkipWS, P.KindAt, IsGap;
    var gap := GapAt(s, p);
    var b := p + |gap|;
    var inner := GapAt(s, b + 1);
    var w := b + 1 + |inner|;
    var slash := s[w] == '/';
    var n := if slash then w + 1 else w;
    var left := Left(s, n);
    NameCharsSame(s[n]);
    SameBlank(s[n]);
    PlainElement(s, b);
    f := Nameless(gap, inner, slash, left);
    NoNulInGap(gap);
    NoNulInGap(inner);
    OneAt(s, b, '<');
    if slash { OneAt(s, w, '/'); } else { EmptyAt(s, w, left); }
    var word := if slash then "/" else "";
    EndsMore(s, w, word, left);
    EndsMore(s, b + 1, inner, word + left);
    EndsMore(s, b, "<", inner + (word + left));
    EndsMore(s, p, gap, "<" + (inner + (word + left)));
    assert f.Source() == gap + ("<" + (inner + (word + left)));
  }

  lemma PlainElement(s: string, b: nat)
    requires b + 1 < |s| && s[b] == '<' && P.KindAt(s, b) == P.KElement
    ensures s[b + 1] != '?' && s[b + 1] != '!'
  {
    if s[b + 1] == '?' { assert At(s, b, "<?"); }
    if s[b + 1] == '!' { assert At(s, b, "<!"); }
  }

  /** The attributes that were read, and where reading them ended in an error: no attribute starts there
      and the tag does not end, or one does that cannot be read or has a name that was there. */
  ghost predicate StuckAt(s: string, e: nat, soFar: seq<P.Attribute>, attributes: seq<Attribute>, o: P.Options)
    requires Terminated(s) && e < |s|
  {
    var q := SkipWS(s, e);
    if IsNameStartChar(s[q]) then
      var r := P.ParseAttribute(s, q, o);
      r.Some? ==> Named(s, soFar, attributes, P.Raw(s, r.value.0.name))
    else s[q] != '>' && !At(s, q, "/>")
  }

  ghost predicate Named(s: string, soFar: seq<P.Attribute>, attributes: seq<Attribute>, name: string) {
    P.HasName(s, soFar, name) || exists a | a in attributes :: a.name == name
  }

  lemma {:induction false} AttributesStuck(s: string, p: nat, soFar: seq<P.Attribute>, line: nat, o: P.Options)
    returns (attributes: seq<Attribute>)
    requires Terminated(s) && p < |s| && P.ParseAttributes(s, p, soFar, line, o).ret == None
    ensures (forall a | a in attributes :: a.Valid()) && DistinctNames(attributes) && NewNames(s, soFar, attributes)
    ensures attributes != [] ==> (attributes[0].gap == "" <==> !IsWhiteSpace(s[p]))
    ensures attributes != [] && !IsWhiteSpace(s[p]) ==> IsNameStartChar(s[p])
    ensures var e := p + |AttributesSource(attributes)|;
      At(s, p, AttributesSource(attributes)) && e < |s| && StuckAt(s, e, soFar, attributes, o)
    decreases |s| - p
  {
    hide At, SkipWS, P.ParseAttribute, Attribute.Valid, Attribute.Source, IsGap, DistinctNames, NewNames, P.HasName,
      P.Raw;
    var q := SkipWS(s, p);
    SkipsNothing(s, p);
    if GoesOn(s, p, soFar, o) {
      var a := AttributeWritten(s, p, o);
      var r, next := P.ParseAttribute(s, q, o).value.0, P.ParseAttribute(s, q, o).value.1;
      var rest := AttributesStuck(s, next, soFar + [r], line, o);
      attributes := [a] + rest;
      AttributeNamed(s, p, a, o);
      NamesDistinct(s, soFar, r, a, rest);
      AtSplit(s, p, a.Source(), AttributesSource(rest));
      assert attributes[1..] == rest;
      StillStuck(s, next + |AttributesSource(rest)|, soFar, r, a, rest, o);
    } else {
      attributes := [];
      NothingYet(s, p, soFar);
      StuckHere(s, p, soFar, line, o);
    }
  }

  /** One more attribute is read. */
  predicate GoesOn(s: string, p: nat, soFar: seq<P.Attribute>, o: P.Options)
    requires Terminated(s) && p < |s|
  {
    var q := SkipWS(s, p);
    IsNameStartChar(s[q]) && var r := P.ParseAttribute(s, q, o);
      r.Some? && !P.HasName(s, soFar, P.Raw(s, r.value.0.name))
  }

  lemma StuckHere(s: string, p: nat, soFar: seq<P.Attribute>, line: nat, o: P.Options)
    requires Terminated(s) && p < |s| && P.ParseAttributes(s, p, soFar, line, o).ret == None && !GoesOn(s, p, soFar, o)
    ensures StuckAt(s, p, soFar, [], o)
  {
    hide SkipWS, P.ParseAttribute, P.HasName, P.Raw, At;
    var q := SkipWS(s, p);
    if At(s, q, "/>") { AtIndex(s, q, "/>", 0); }
  }

  lemma StillStuck(s: string, e: nat, soFar: seq<P.Attribute>, r: P.Attribute, a: Attribute, rest: seq<Attribute>,
      o: P.Options)
    requires Terminated(s) && e < |s| && StuckAt(s, e, soFar + [r], rest, o) && P.Raw(s, r.name) == a.name
    ensures StuckAt(s, e, soFar, [a] + rest, o)
  {
    hide SkipWS, P.ParseAttribute, P.Raw, At;
    var q := SkipWS(s, e);
    if IsNameStartChar(s[q]) && P.ParseAttribute(s, q, o).Some? {
      var name := P.Raw(s, P.ParseAttribute(s, q, o).value.0.name);
      if x :| x in soFar + [r] && P.Raw(s, x.name) == name {
        assert x in soFar || x == r;
        assert a in [a] + rest;
      }
      if b :| b in rest && b.name == name { assert b in [a] + rest; }
    }
  }

  /** The head of a tag whose attributes end in an error. */
  lemma HeadStands(s: string, b: nat, line: nat, o: P.Options) returns (t: Tag, e: nat)
    requires Terminated(s) && b + 1 < |s| && s[b] == '<'
    requires var w := SkipWS(s, b + 1); var n := if s[w] == '/' then w + 1 else w;
      n < |s| && IsNameStartChar(s[n]) && P.ParseAttributes(s, NameEnd(s, n), [], line, o).ret == None
    ensures t.Valid() && t.last == "" && At(s, b, t.Head()) && e == b + |t.Head()| < |s| && NUL !in t.Head()
    ensures StuckAt(s, e, [], t.attributes, o) && (t.attributes == [] ==> !IsNameChar(s[e]))
  {
    hide At, SkipWS, IsGap, DistinctNames, NewNames, P.ParseAttributes, NameEnd, IsXmlName, AttributesSource, StuckAt;
    var gap := GapAt(s, b + 1);
    var w := b + 1 + |gap|;
    var slash := s[w] == '/';
    var n := if slash then w + 1 else w;
    var name := NameAt(s, n);
    var a := n + |name|;
    var attributes := AttributesStuck(s, a, [], line, o);
    NameGap(s[a]);
    t := Tag(gap, slash, name, attributes, "", false);
    EmptyGap();
    OneAt(s, b, '<');
    if slash { OneAt(s, w, '/'); }
    HeadJoined(s, b, t);
    e := a + |AttributesSource(attributes)|;
    NoNulInTag(t);
    NulFreeParts(t.Head(), t.last + ">");
    assert t.Head() + t.last + ">" == t.Head() + (t.last + ">");
    NoAttributes(t);
  }

  lemma EmptyGap()
    ensures IsGap("")
  {
  }

  lemma NoAttributes(t: Tag)
    ensures t.attributes == [] ==> AttributesSource(t.attributes) == ""
  {
  }

  lemma HeadJoined(s: string, p: nat, t: Tag)
    requires At(s, p, "<") && At(s, p + 1, t.gap) && (t.slash ==> At(s, p + 1 + |t.gap|, "/"))
    requires var n := p + 1 + |t.gap| + (if t.slash then 1 else 0); var a := n + |t.name|;
      At(s, n, t.name) && At(s, a, AttributesSource(t.attributes))
    ensures At(s, p, t.Head())
  {
    hide At, AttributesSource;
    var slash, attributes := if t.slash then "/" else "", AttributesSource(t.attributes);
    if !t.slash { EmptyAt(s, p + 1 + |t.gap|, t.name); }
    AtSplit3(s, p, "<", t.gap, slash);
    AtSplit3(s, p, "<" + t.gap + slash, t.name, attributes);
  }

  /** A tag that goes wrong behind its name: behind its attributes, or in one more of them. */
  lemma TagRefused(s: string, p: nat, pd: nat, o: P.Options) returns (f: Flaw)
    requires Terminated(s) && p < |s| && s[SkipWS(s, p)] == '<' && SkipWS(s, p) + 1 < |s|
    requires var b := SkipWS(s, p); var w := SkipWS(s, b + 1); var n := if s[w] == '/' then w + 1 else w;
      n < |s| && IsNameStartChar(s[n]) && P.ParseAttributes(s, NameEnd(s, n), [], LineAt(s, b), o).ret == None
    ensures FlawAt(s, p, pd, f) && !f.LateDeclaration?
  {
    hide At, SkipWS, IsGap, P.ParseAttributes, NameEnd, LineAt, StuckAt, Tag.Valid, Tag.Head, P.ParseAttribute,
      Flaw.Valid, Flaw.Source;
    var gap := GapAt(s, p);
    var b := p + |gap|;
    var t, e := HeadStands(s, b, LineAt(s, b), o);
    NoNulInGap(gap);
    AtSplit(s, p, gap, t.Head());
    var q := SkipWS(s, e);
    if IsNameStartChar(s[q]) && P.ParseAttribute(s, q, o).Some? {
      f := RepeatedRefused(s, p, pd, gap, t, e, o);
    } else {
      var last := GapAt(s, e);
      var tag := t.(last := last);
      LastAdded(t, last);
      if IsNameStartChar(s[q]) {
        f := AttributeRefused(s, p, pd, gap, tag, e, o);
      } else {
        f := OpenTagRefused(s, p, pd, gap, tag, e, o);
      }
    }
  }

  lemma LastAdded(t: Tag, last: string)
    requires t.Valid() && IsGap(last)
    ensures t.(last := last).Valid() && t.(last := last).Head() == t.Head()
  {
  }

  lemma RepeatedRefused(s: string, p: nat, pd: nat, gap: string, t: Tag, e: nat, o: P.Options) returns (f: Flaw)
    requires Terminated(s) && IsGap(gap) && t.Valid() && At(s, p, gap + t.Head()) && NUL !in gap + t.Head()
    requires e == p + |gap + t.Head()| < |s| && StuckAt(s, e, [], t.attributes, o)
    requires IsNameStartChar(s[SkipWS(s, e)]) && P.ParseAttribute(s, SkipWS(s, e), o).Some?
    ensures FlawAt(s, p, pd, f) && f.Repeated?
  {
    hide At, SkipWS, IsGap, Tag.Valid, Tag.Head, P.ParseAttribute, P.Raw, Attribute.Valid, Attribute.Source;
    var a := AttributeWritten(s, e, o);
    AttributeNamed(s, e, a, o);
    var left := Left(s, e + |a.Source()|);
    f := Repeated(gap, t, a, left);
    NoNulInAttribute(a);
    EndsMore(s, e, a.Source(), left);
    EndsMore(s, p, gap + t.Head(), a.Source() + left);
  }

  lemma NoNulInAttribute(a: Attribute)
    requires a.Valid()
    ensures NUL !in a.Source()
  {
    NoNulInAttributes([a]);
    assert AttributesSource([a]) == a.Source() + AttributesSource([]) == a.Source();
  }

  lemma OpenTagRefused(s: string, p: nat, pd: nat, gap: string, tag: Tag, e: nat, o: P.Options) returns (f: Flaw)
    requires Terminated(s) && IsGap(gap) && tag.Valid() && At(s, p, gap + tag.Head()) && NUL !in gap + tag.Head()
    requires e == p + |gap + tag.Head()| < |s| && StuckAt(s, e, [], tag.attributes, o)
    requires IsGap(tag.last) && At(s, e, tag.last) && e + |tag.last| == SkipWS(s, e)
    requires !IsNameStartChar(s[SkipWS(s, e)]) && (tag.attributes == [] ==> !IsNameChar(s[e]))
    ensures FlawAt(s, p, pd, f) && f.OpenTag?
  {
    hide At, SkipWS, IsGap, Tag.Valid, Tag.Head;
    var q := e + |tag.last|;
    var left := Left(s, q);
    NameCharsSame(s[q]);
    SameBlank(s[q]);
    if "/>" <= left { PrefixAt(s, q, left, "/>"); }
    f := OpenTag(gap, tag, left);
    NoNulInGap(tag.last);
    EndsMore(s, e, tag.last, left);
    EndsMore(s, p, gap + tag.Head(), tag.last + left);
  }

  /** An attribute without equals sign, without opening quote or without closing quote. */
  lemma AttributeRefused(s: string, p: nat, pd: nat, gap: string, tag: Tag, e: nat, o: P.Options) returns (f: Flaw)
    requires Terminated(s) && IsGap(gap) && tag.Valid() && At(s, p, gap + tag.Head()) && NUL !in gap + tag.Head()
    requires e == p + |gap + tag.Head()| < |s|
    requires IsGap(tag.last) && At(s, e, tag.last) && e + |tag.last| == SkipWS(s, e)
    requires IsNameStartChar(s[SkipWS(s, e)]) && P.ParseAttribute(s, SkipWS(s, e), o) == None
    requires tag.attributes == [] ==> !IsNameChar(s[e])
    ensures FlawAt(s, p, pd, f) && (f.NoEquals? || f.Unquoted? || f.OpenValue?)
  {
    hide At, SkipWS, IsGap, Tag.Valid, Tag.Head, NameEnd, FindTag, IsXmlName, Flaw.Valid, Flaw.Source;
    var q := e + |tag.last|;
    if tag.attributes == [] { NameGap(s[e]); }
    var name := NameAt(s, q);
    var behind := GapAt(s, q + |name|);
    var m := q + |name| + |behind|;
    NoNulInGap(behind);
    NoNulInGap(tag.last);
    NoNulInName(name);
    AtSplit3(s, e, tag.last, name, behind);
    if s[m] != '=' {
      var left := Left(s, m);
      EndsMore(s, e, tag.last + name + behind, left);
      EndsMore(s, p, gap + tag.Head(), tag.last + name + behind + left);
      f := NoEquals(gap, tag, name, behind, left);
      NoEqualsValid(s, q + |name|, m, pd, f);
    } else {
      var between := GapAt(s, m + 1);
      var u := m + 1 + |between|;
      NoNulInGap(between);
      OneAt(s, m, '=');
      AtSplit3(s, e, tag.last + name + behind, "=", between);
      f := ValueRefused(s, p, pd, gap, tag, e, name, behind, between, u, o);
    }
  }

  lemma NoNulInName(name: string)
    requires IsXmlName(name)
    ensures NUL !in name
  {
  }

  lemma NoEqualsValid(s: string, n: nat, m: nat, pd: nat, f: Flaw)
    requires f.NoEquals? && n <= m < |s| && s[m] != '=' && !IsWhiteSpace(s[m]) && m == n + |f.behind|
    requires !IsNameChar(s[n]) && (f.left != "" ==> f.left[0] == s[m])
    requires IsGap(f.gap) && f.tag.Valid() && MayGoOn(f.tag) && IsXmlName(f.name) && IsGap(f.behind)
    ensures f.Valid(pd) && f.Source() == f.gap + f.tag.Head() + (f.tag.last + f.name + f.behind + f.left)
  {
    hide IsGap, Tag.Valid, Tag.Head, IsXmlName;
    NameCharsSame(s[m]);
    SameBlank(s[m]);
  }

  lemma ValueRefused(s: string, p: nat, pd: nat, gap: string, tag: Tag, e: nat, name: string, behind: string,
      between: string, u: nat, o: P.Options)
    returns (f: Flaw)
    requires Terminated(s) && At(s, p, gap + tag.Head()) && NUL !in gap + tag.Head() && e == p + |gap + tag.Head()|
    requires IsGap(gap) && tag.Valid() && MayGoOn(tag) && IsXmlName(name) && IsGap(behind) && IsGap(between)
    requires var w := tag.last + name + behind + "=" + between; At(s, e, w) && NUL !in w && u == e + |w| < |s|
    requires !IsWhiteSpace(s[u])
    requires s[u] == '"' || s[u] == '\'' ==> u + 1 < |s| && FindTag(s, u + 1, [s[u]]) == None
    ensures FlawAt(s, p, pd, f) && (f.Unquoted? || f.OpenValue?)
  {
    hide At, IsGap, Tag.Valid, Tag.Head, FindTag, IsXmlName;
    var w := tag.last + name + behind + "=" + between;
    if s[u] == '"' || s[u] == '\'' {
      var raw := Left(s, u + 1);
      NotFound(s, u + 1, raw, [s[u]]);
      CharNotIn(raw, s[u]);
      f := OpenValue(gap, tag, name, behind, between, s[u], raw);
      OneAt(s, u, s[u]);
      EndsMore(s, u, [s[u]], raw);
      EndsMore(s, e, w, [s[u]] + raw);
      assert w + ([s[u]] + raw) == w + [s[u]] + raw;
      EndsMore(s, p, gap + tag.Head(), w + [s[u]] + raw);
    } else {
      var left := Left(s, u);
      SameBlank(s[u]);
      f := Unquoted(gap, tag, name, behind, between, left);
      EndsMore(s, e, w, left);
      EndsMore(s, p, gap + tag.Head(), w + left);
    }
  }

  // ---- elements and lists --------------------------------------------------------------------------

  /** A node that cannot be read, or an element that is closed by another end tag or by none. */
  ghost predicate NodeRefused(s: string, p: nat, pd: nat, o: P.Options)
    requires Terminated(s) && p < |s| && pd < P.MAX_ELEMENT_DEPTH && s[SkipWS(s, p)] != NUL
  {
    var r := P.ParseNode(s, p, pd, o);
    r.ret == None || (r.node.Element? && r.node.closing != P.Closing && P.Mismatched(s, r.node, r.endTag))
  }

  lemma NodeFlaw(s: string, p: nat, pd: nat, o: P.Options) returns (f: Flaw)
    requires Terminated(s) && p < |s| && pd < P.MAX_ELEMENT_DEPTH && s[SkipWS(s, p)] != NUL && NodeRefused(s, p, pd, o)
    ensures FlawAt(s, p, pd, f) && !f.LateDeclaration?
    decreases |s| - p, 1
  {
    hide At, SkipWS, P.KindAt, P.ParseElement, P.ParseLeaf, FlawAt, P.Mismatched;
    var b := SkipWS(s, p);
    P.KindHeader(s, b);
    if s[b] != '<' {
      f := TextRefused(s, p, pd, o);
    } else if P.KindAt(s, b) != P.KElement {
      f := MarkRefused(s, p, pd, o);
    } else {
      f := ElementFlaw(s, p, pd, o);
    }
  }

  lemma ElementFlaw(s: string, p: nat, pd: nat, o: P.Options) returns (f: Flaw)
    requires Terminated(s) && p < |s| && pd < P.MAX_ELEMENT_DEPTH && s[SkipWS(s, p)] == '<'
    requires P.KindAt(s, SkipWS(s, p)) == P.KElement && NodeRefused(s, p, pd, o)
    ensures FlawAt(s, p, pd, f) && !f.LateDeclaration?
    decreases |s| - p, 0
  {
    hide At, SkipWS, P.KindAt, P.ParseAttributes, NameEnd, FlawAt, P.Mismatched, P.ParseNode, TagRead, IsElement,
      Tag.Valid, Tag.Source, LineAt, IsGap, ReadableTag, NodeRefused;
    var b := SkipWS(s, p);
    P.KindHeader(s, b);
    var w := SkipWS(s, b + 1);
    var n := if s[w] == '/' then w + 1 else w;
    if !IsNameStartChar(s[n]) {
      f := NamelessRefused(s, p, pd, o);
    } else if P.ParseAttributes(s, NameEnd(s, n), [], LineAt(s, b), o).ret == None {
      f := TagRefused(s, p, pd, o);
    } else {
      var gap := GapAt(s, p);
      TagReadable(s, b, n, o);
      var t, head := TagStands(s, b, pd, LineAt(s, b), o);
      AtSplit(s, p, gap, t.Source());
      ElementRead(s, p, pd, o);
      OpenRefused(s, p, pd, gap, t, head, o);
      TagLength(t);
      f := BodyRefused(s, p, pd, gap, t, head, o);
    }
  }

  lemma TagReadable(s: string, b: nat, n: nat, o: P.Options)
    requires Terminated(s) && b + 1 < |s|
    requires var w := SkipWS(s, b + 1); n == if s[w] == '/' then w + 1 else w
    requires n < |s| && IsNameStartChar(s[n]) && P.ParseAttributes(s, NameEnd(s, n), [], LineAt(s, b), o).ret != None
    ensures ReadableTag(s, b, LineAt(s, b), o)
  {
    hide SkipWS, P.ParseAttributes, NameEnd, LineAt;
  }

  lemma ElementRead(s: string, p: nat, pd: nat, o: P.Options)
    requires Terminated(s) && p < |s| && pd < P.MAX_ELEMENT_DEPTH && s[SkipWS(s, p)] == '<'
    requires P.KindAt(s, SkipWS(s, p)) == P.KElement
    ensures var b := SkipWS(s, p);
      b + 1 < |s| && P.ParseNode(s, p, pd, o) == P.ParseElement(s, b + 1, pd, LineAt(s, b), o)
  {
    hide SkipWS, P.KindAt, P.ParseElement, LineAt;
    P.KindHeader(s, SkipWS(s, p));
  }

  /** Only a start tag can be left unmatched. */
  lemma OpenRefused(s: string, p: nat, pd: nat, gap: string, t: Tag, head: P.Parsed, o: P.Options)
    requires Terminated(s) && p < |s| && pd < P.MAX_ELEMENT_DEPTH && s[SkipWS(s, p)] != NUL && NodeRefused(s, p, pd, o)
    requires var b := p + |gap|; b + |t.Source()| < |s| && TagRead(s, b, t, LineAt(s, b), o, head)
    requires var b := p + |gap|; IsElement(s, b, pd, o, head, P.ParseNode(s, p, pd, o))
    ensures t.IsStart()
  {
    hide SkipWS, P.ParseNode, LineAt, Str, P.Raw, AttrsOf, AttributesMeant, Tag.Source, P.ParseDeep;
  }

  /** What is wrong behind a start tag. */
  lemma BodyRefused(s: string, p: nat, pd: nat, gap: string, t: Tag, head: P.Parsed, o: P.Options) returns (f: Flaw)
    requires Terminated(s) && p < |s| && pd < P.MAX_ELEMENT_DEPTH && s[SkipWS(s, p)] != NUL && NodeRefused(s, p, pd, o)
    requires IsGap(gap) && t.Valid() && t.IsStart() && At(s, p, gap + t.Source()) && |t.Source()| > 0
    requires var b := p + |gap|; b + |t.Source()| < |s| && TagRead(s, b, t, LineAt(s, b), o, head)
    requires var b := p + |gap|; IsElement(s, b, pd, o, head, P.ParseNode(s, p, pd, o))
    ensures FlawAt(s, p, pd, f) && !f.LateDeclaration?
    decreases |s| - p - 1, 4
  {
    hide At, SkipWS, IsGap, Tag.Valid, Tag.Source, P.ParseNode, LineAt, Str, P.Raw, AttrsOf, AttributesMeant,
      P.ParseDeep, P.ParseChildren, FlawAt;
    var c := p + |gap + t.Source()|;
    NoNulInGap(gap);
    NoNulInTag(t);
    if s[c] == NUL {
      f := Unclosed(gap, t, [], "");
      UnclosedAt(s, p, pd, f);
    } else if pd + 1 == P.MAX_ELEMENT_DEPTH {
      f := TooDeepAt(s, p, pd, gap, t);
    } else {
      f := ChildrenRefused(s, p, pd, gap, t, head, c, o);
    }
  }

  lemma UnclosedAt(s: string, p: nat, pd: nat, f: Flaw)
    requires f.Unclosed? && f.nodes == [] && f.last == "" && IsGap(f.gap) && f.tag.Valid() && f.tag.IsStart()
    requires NUL !in f.gap && NUL !in f.tag.Source() && At(s, p, f.gap + f.tag.Source())
    requires var c := p + |f.gap + f.tag.Source()|; c < |s| && s[c] == NUL
    ensures FlawAt(s, p, pd, f)
  {
    hide At, IsGap, Tag.Valid, Tag.Source, Children;
    assert f.Source() == f.gap + f.tag.Source();
    EmptyGap();
  }

  lemma TooDeepAt(s: string, p: nat, pd: nat, gap: string, t: Tag) returns (f: Flaw)
    requires Terminated(s) && pd == 499 && IsGap(gap) && t.Valid() && t.IsStart()
    requires NUL !in gap && NUL !in t.Source() && At(s, p, gap + t.Source())
    requires var c := p + |gap + t.Source()|; c < |s| && s[c] != NUL
    ensures FlawAt(s, p, pd, f) && f.TooDeep?
  {
    hide At, IsGap, Tag.Valid, Tag.Source;
    var left := Left(s, p + |gap + t.Source()|);
    f := TooDeep(gap, t, left);
    EndsMore(s, p, gap + t.Source(), left);
  }

  /** Something is wrong in an element, or it is not closed, or by another end tag. */
  lemma ChildrenRefused(s: string, p: nat, pd: nat, gap: string, t: Tag, head: P.Parsed, c: nat, o: P.Options)
    returns (f: Flaw)
    requires Terminated(s) && p < |s| && pd + 1 < P.MAX_ELEMENT_DEPTH && s[SkipWS(s, p)] != NUL
    requires NodeRefused(s, p, pd, o)
    requires IsGap(gap) && t.Valid() && t.IsStart() && At(s, p, gap + t.Source())
    requires NUL !in gap && NUL !in t.Source() && c == p + |gap + t.Source()| && p < c < |s| && s[c] != NUL
    requires var b := p + |gap|; TagRead(s, b, t, LineAt(s, b), o, head)
    requires var b := p + |gap|; IsElement(s, b, pd, o, head, P.ParseNode(s, p, pd, o))
    ensures FlawAt(s, p, pd, f) && !f.LateDeclaration?
    decreases |s| - p - 1, 3
  {
    hide At, SkipWS, IsGap, Tag.Valid, Tag.Source, P.ParseNode, LineAt, Str, P.Raw, AttrsOf, AttributesMeant,
      P.ParseDeep, P.ParseChildren, FlawAt, RestAt, Row, InFront, DeclarationsFit;
    NoneInFront();
    DeepChildren(s, c, pd, o);
    var d := P.ParseDeep(s, c, pd, false, o);
    if d.err.Some? {
      var ws, inner := RowRefused(s, c, pd + 1, false, [], o);
      f := Inside(gap, t, ws, inner);
      InsideAt(s, p, pd, c, f);
    } else if d.ret == None {
      var ws, rest := RowWritten(s, c, pd + 1, false, [], o);
      f := UnclosedRow(s, p, pd, gap, t, c, ws, rest, d);
    } else {
      var ws, rest := RowWritten(s, c, pd + 1, false, [], o);
      EndTagThere(s, c + |SourceAll(ws)|, d, rest);
      Unlike(s, p, pd, gap, t, head, c, o);
      f := OtherEndAt(s, p, pd, gap, t, c, o);
    }
  }

  lemma EndTagThere(s: string, e: nat, d: P.ParsedChildren, rest: Rest)
    requires RestAt(s, e, d, rest) && d.ret != None
    ensures d.endTag.Some?
  {
    hide At, IsGap, Tag.Valid, Tag.Source;
  }

  lemma DeepChildren(s: string, c: nat, pd: nat, o: P.Options)
    requires Terminated(s) && c < |s| && pd + 1 < P.MAX_ELEMENT_DEPTH
    ensures P.ParseDeep(s, c, pd, false, o) == P.ParseChildren(s, c, pd + 1, false, [], o)
  {
    hide P.ParseChildren;
  }

  lemma InsideAt(s: string, p: nat, pd: nat, c: nat, f: Flaw)
    requires f.Inside? && c == p + |f.gap + f.tag.Source()| && pd + 1 < P.MAX_ELEMENT_DEPTH
    requires IsGap(f.gap) && f.tag.Valid() && f.tag.IsStart() && At(s, p, f.gap + f.tag.Source())
    requires NUL !in f.gap && NUL !in f.tag.Source()
    requires Row(f.nodes, "") && DeclarationsFit(false, [], f.nodes) && pd + 1 + MaxDepth(f.nodes) < P.MAX_ELEMENT_DEPTH
    requires FlawMayFollow(f.nodes, f.flaw) && At(s, c, SourceAll(f.nodes)) && NUL !in SourceAll(f.nodes)
    requires FlawAt(s, c + |SourceAll(f.nodes)|, pd + 1, f.flaw)
    ensures FlawAt(s, p, pd, f)
  {
    hide At, IsGap, Tag.Valid, Tag.Source, Row, DeclarationsFit, SourceAll, MaxDepth, Flaw.Valid, Flaw.Source;
    EndsMore(s, c, SourceAll(f.nodes), f.flaw.Source());
    EndsMore(s, p, f.gap + f.tag.Source(), SourceAll(f.nodes) + f.flaw.Source());
    NoneDeclared(f.nodes);
    InsideValid(pd, f);
  }

  lemma InsideValid(pd: nat, f: Flaw)
    requires f.Inside? && IsGap(f.gap) && f.tag.Valid() && f.tag.IsStart() && f.flaw.Valid(pd + 1)
    requires Row(f.nodes, "") && (forall w | w in f.nodes :: !w.IsDeclaration()) && pd + 1 + MaxDepth(f.nodes) < 500
    requires FlawMayFollow(f.nodes, f.flaw)
    ensures f.Valid(pd)
    ensures f.Source() == f.gap + f.tag.Source() + (SourceAll(f.nodes) + f.flaw.Source())
  {
    hide IsGap, Tag.Valid, Tag.Source, Row, SourceAll, MaxDepth, FlawMayFollow;
    var u, v, w := f.gap + f.tag.Source(), SourceAll(f.nodes), f.flaw.Source();
    assert u + v + w == u + (v + w);
  }

  lemma UnclosedRow(s: string, p: nat, pd: nat, gap: string, t: Tag, c: nat, ws: seq<Written>, rest: Rest,
      d: P.ParsedChildren)
    returns (f: Flaw)
    requires IsGap(gap) && t.Valid() && t.IsStart() && At(s, p, gap + t.Source()) && c == p + |gap + t.Source()|
    requires NUL !in gap && NUL !in t.Source()
    requires Row(ws, rest.gap) && DeclarationsFit(false, [], ws) && pd + 1 + MaxDepth(ws) < P.MAX_ELEMENT_DEPTH
    requires At(s, c, SourceAll(ws)) && RestAt(s, c + |SourceAll(ws)|, d, rest) && d.ret == None
    requires ws != [] && ws[|ws| - 1].Text? ==> rest.Stray?
    ensures FlawAt(s, p, pd, f) && f.Unclosed?
  {
    hide At, IsGap, Tag.Valid, Tag.Source, DeclarationsFit, SourceAll, MaxDepth, WellWritten;
    NoNulInNodes(ws, rest.gap);
    NoNulInGap(rest.gap);
    NoneDeclared(ws);
    f := Unclosed(gap, t, ws, rest.gap);
    EndsMore(s, c, SourceAll(ws), rest.gap);
    EndsMore(s, p, gap + t.Source(), SourceAll(ws) + rest.gap);
    assert f.Source() == gap + t.Source() + (SourceAll(ws) + rest.gap);
  }

  /** The end tag that was read is that of another element. */
  lemma Unlike(s: string, p: nat, pd: nat, gap: string, t: Tag, head: P.Parsed, c: nat, o: P.Options)
    requires Terminated(s) && p < |s| && pd < P.MAX_ELEMENT_DEPTH && s[SkipWS(s, p)] != NUL && NodeRefused(s, p, pd, o)
    requires c == p + |gap + t.Source()| < |s| && s[c] != NUL && t.IsStart()
    requires var b := p + |gap|; TagRead(s, b, t, LineAt(s, b), o, head)
    requires var b := p + |gap|; IsElement(s, b, pd, o, head, P.ParseNode(s, p, pd, o))
    requires P.ParseDeep(s, c, pd, false, o).ret != None
    ensures var e := P.ParseDeep(s, c, pd, false, o).endTag; e.Some? ==> P.Raw(s, e.value) != t.name
  {
    hide SkipWS, P.ParseNode, LineAt, Str, P.Raw, AttrsOf, AttributesMeant, Tag.Source, P.ParseDeep;
  }

  lemma OtherEndAt(s: string, p: nat, pd: nat, gap: string, t: Tag, c: nat, o: P.Options) returns (f: Flaw)
    requires Terminated(s) && c < |s| && pd + 1 < P.MAX_ELEMENT_DEPTH
    requires IsGap(gap) && t.Valid() && t.IsStart() && At(s, p, gap + t.Source()) && c == p + |gap + t.Source()|
    requires NUL !in gap && NUL !in t.Source()
    requires var d := P.ParseDeep(s, c, pd, false, o);
      d.ret.Some? && d.endTag.Some? && P.Raw(s, d.endTag.value) != t.name
    ensures FlawAt(s, p, pd, f) && f.OtherEnd?
  {
    hide At, IsGap, Tag.Valid, Tag.Source, SourceAll, MaxDepth, WellWritten, P.ParseDeep, P.Raw;
    var children, last, end := BodyWritten(s, c, pd, o);
    var ret := P.ParseDeep(s, c, pd, false, o).ret.value;
    var left := Left(s, ret);
    f := OtherEnd(gap, t, children, last, end, left);
    NoNulInNodes(children, last);
    NoNulInGap(last);
    NoNulInTag(end);
    AtSplit(s, c + |SourceAll(children)|, last, end.Source());
    EndsMore(s, c + |SourceAll(children)|, last + end.Source(), left);
    EndsMore(s, c, SourceAll(children), last + end.Source() + left);
    EndsMore(s, p, gap + t.Source(), SourceAll(children) + (last + end.Source() + left));
    OtherEndSource(f);
  }

  lemma OtherEndSource(f: Flaw)
    requires f.OtherEnd?
    ensures f.Source() == f.gap + f.tag.Source() + (SourceAll(f.nodes) + (f.last + f.end.Source() + f.left))
  {
    hide Tag.Source, SourceAll;
    var u, v, w, x := f.gap + f.tag.Source(), SourceAll(f.nodes), f.last + f.end.Source(), f.left;
    assert u + v + w + x == u + (v + (w + x));
  }

  /** A late declaration. */
  lemma LateRefused(s: string, p: nat, pd: nat, o: P.Options) returns (f: Flaw)
    requires Terminated(s) && p < |s| && pd < P.MAX_ELEMENT_DEPTH && s[SkipWS(s, p)] != NUL
    requires P.ParseNode(s, p, pd, o).ret.Some? && P.ParseNode(s, p, pd, o).node.Declaration?
    ensures FlawAt(s, p, pd, f) && f.LateDeclaration?
  {
    hide At, SkipWS, P.KindAt, P.ParseElement, FindTag, IsGap, X.FreeOf;
    P.KindHeader(s, SkipWS(s, p));
    var w := MarkWritten(s, p, pd, o);
    NoNulIn(w);
    var left := Left(s, p + |Source(w)|);
    f := LateDeclaration(w.gap, w.raw, left);
    EndsMore(s, p, Source(w), left);
  }

  lemma {:induction false} RowRefused(s: string, p: nat, pd: nat, atDoc: bool, soFar: seq<P.Node>, o: P.Options)
    returns (ws: seq<Written>, f: Flaw)
    requires Terminated(s) && p < |s| && pd < P.MAX_ELEMENT_DEPTH && InFront(soFar)
    requires P.ParseChildren(s, p, pd, atDoc, soFar, o).err.Some?
    ensures Row(ws, "") && DeclarationsFit(atDoc, soFar, ws) && pd + MaxDepth(ws) < P.MAX_ELEMENT_DEPTH
    ensures FlawMayFollow(ws, f) && At(s, p, SourceAll(ws)) && NUL !in SourceAll(ws)
    ensures FlawAt(s, p + |SourceAll(ws)|, pd, f)
    ensures f.LateDeclaration? && atDoc ==> Declared(soFar, ws)
    ensures ws != [] ==> (ws[0].Text? <==> s[SkipWS(s, p)] != '<')
    ensures ws != [] && !ws[0].Text? ==> (ws[0].gap == "" <==> !IsWhiteSpace(s[p]))
    decreases |s| - p, 2
  {
    hide At, SkipWS, P.ParseNode, P.ParseChildren, Row, WellWritten, DeclarationsFit, InFront, IsWritten, FlawAt,
      P.Mismatched, P.DeclarationAllowed, Source, Declared, FlawMayFollow, NodeRefused;
    RoundRefused(s, p, pd, atDoc, soFar, o);
    if NodeRefused(s, p, pd, o) {
      ws := [];
      f := NodeFlaw(s, p, pd, o);
      NoRow(s, p, pd, atDoc, soFar, f);
    } else if P.ParseNode(s, p, pd, o).node.Declaration? && !P.DeclarationAllowed(atDoc, soFar) {
      ws := [];
      NotRefused(s, p, pd, o);
      f := LateRefused(s, p, pd, o);
      NoRow(s, p, pd, atDoc, soFar, f);
      LateDeclared(atDoc, soFar);
    } else {
      var r := P.ParseNode(s, p, pd, o);
      NotRefused(s, p, pd, o);
      var w := NodeWritten(s, p, pd, o);
      var q := p + |Source(w)|;
      RoundMore(s, p, pd, atDoc, soFar, o, w);
      var others;
      others, f := RowRefused(s, q, pd, atDoc, soFar + [r.node], o);
      ws := [w] + others;
      RowMore(s, p, pd, w, others, o, atDoc, soFar, r.node, f);
      AtSplit(s, p, Source(w), SourceAll(others));
    }
  }

  /** Something that is no declaration stands before. */
  ghost predicate Declared(soFar: seq<P.Node>, ws: seq<Written>) {
    (exists n | n in soFar :: !n.Declaration?) || exists w | w in ws :: !w.IsDeclaration()
  }

  lemma LateDeclared(atDoc: bool, soFar: seq<P.Node>)
    requires !P.DeclarationAllowed(atDoc, soFar)
    ensures atDoc ==> Declared(soFar, [])
  {
    if atDoc {
      assert soFar[0] in soFar && soFar[|soFar| - 1] in soFar;
    }
  }

  /** The first round of a loop that ends in an error. */
  lemma RoundRefused(s: string, p: nat, pd: nat, atDoc: bool, soFar: seq<P.Node>, o: P.Options)
    requires Terminated(s) && p < |s| && pd < P.MAX_ELEMENT_DEPTH
    requires P.ParseChildren(s, p, pd, atDoc, soFar, o).err.Some?
    ensures s[SkipWS(s, p)] != NUL
    ensures var r := P.ParseNode(s, p, pd, o);
      !NodeRefused(s, p, pd, o) && (r.node.Declaration? ==> P.DeclarationAllowed(atDoc, soFar)) ==>
        r.ret.Some? && (r.node.Element? ==> r.node.closing != P.Closing)
        && P.ParseChildren(s, p, pd, atDoc, soFar, o)
          == P.ParseChildren(s, r.ret.value, pd, atDoc, soFar + [r.node], o)
  {
    hide SkipWS, P.ParseNode, P.Mismatched, P.DeclarationAllowed;
  }

  lemma NotRefused(s: string, p: nat, pd: nat, o: P.Options)
    requires Terminated(s) && p < |s| && pd < P.MAX_ELEMENT_DEPTH && s[SkipWS(s, p)] != NUL && !NodeRefused(s, p, pd, o)
    ensures var r := P.ParseNode(s, p, pd, o);
      r.ret.Some? && (r.node.Element? && r.node.closing != P.Closing ==> !P.Mismatched(s, r.node, r.endTag))
  {
    hide SkipWS, P.ParseNode, P.Mismatched;
  }

  lemma NoRow(s: string, p: nat, pd: nat, atDoc: bool, soFar: seq<P.Node>, f: Flaw)
    requires p < |s| && pd < P.MAX_ELEMENT_DEPTH
    ensures Row([], "") && DeclarationsFit(atDoc, soFar, []) && pd + MaxDepth([]) < P.MAX_ELEMENT_DEPTH
    ensures FlawMayFollow([], f) && At(s, p, SourceAll([])) && SourceAll([]) == ""
  {
  }

  /** A text ends where a tag starts. */
  lemma TextStops(s: string, p: nat, pd: nat, o: P.Options, w: Written)
    requires Terminated(s) && p < |s| && pd < P.MAX_ELEMENT_DEPTH && s[SkipWS(s, p)] != NUL && w.Text?
    requires IsWritten(s, p, pd, o, w)
    ensures TagNext(s, p + |Source(w)|)
  {
    hide At, SkipWS, FindTag, WellWritten, Source;
    P.KindHeader(s, SkipWS(s, p));
  }

  /** One more node in front of a row with a flaw behind it. */
  lemma RowMore(s: string, p: nat, pd: nat, w: Written, ws: seq<Written>, o: P.Options, atDoc: bool,
      soFar: seq<P.Node>, n: P.Node, f: Flaw)
    requires Terminated(s) && p < |s| && pd < P.MAX_ELEMENT_DEPTH && s[SkipWS(s, p)] != NUL && IsWritten(s, p, pd, o, w)
    requires var q := p + |Source(w)|;
      && q < |s| && Row(ws, "") && pd + MaxDepth(ws) < P.MAX_ELEMENT_DEPTH && FlawMayFollow(ws, f)
      && FlawAt(s, q + |SourceAll(ws)|, pd, f)
      && (ws != [] ==> (ws[0].Text? <==> s[SkipWS(s, q)] != '<'))
      && (ws != [] && !ws[0].Text? ==> (ws[0].gap == "" <==> !IsWhiteSpace(s[q])))
    requires DeclarationsFit(atDoc, soFar + [n], ws) && (w.IsDeclaration() <==> n.Declaration?)
    requires w.IsDeclaration() ==> atDoc && forall x | x in soFar :: x.Declaration?
    requires NUL !in SourceAll(ws) && (f.LateDeclaration? && atDoc ==> Declared(soFar + [n], ws))
    ensures var all := [w] + ws;
      && Row(all, "") && pd + MaxDepth(all) < P.MAX_ELEMENT_DEPTH && DeclarationsFit(atDoc, soFar, all)
      && SourceAll(all) == Source(w) + SourceAll(ws) && NUL !in SourceAll(all) && FlawMayFollow(all, f)
      && (w.Text? <==> s[SkipWS(s, p)] != '<') && (!w.Text? ==> (w.gap == "" <==> !IsWhiteSpace(s[p])))
    ensures f.LateDeclaration? && atDoc ==> Declared(soFar, [w] + ws)
  {
    hide At, P.ParseNode, WellWritten, Source, Row, Depth, DeclarationsFit, Declared, Flaw.Valid, Flaw.Source, TagNext;
    var q := p + |Source(w)|;
    if w.Text? {
      TextStops(s, p, pd, o, w);
      if ws == [] { EndsInTag(s, q, f.Source()); }
      TagHere(s, q);
    }
    RowCons(w, ws, "");
    FitsCons(atDoc, soFar, w, n, ws);
    NoNulIn(w);
    DeclaredMore(soFar, n, w, ws);
    var all := [w] + ws;
    if ws != [] { assert all[|all| - 1] == ws[|ws| - 1]; }
  }

  lemma TagHere(s: string, q: nat)
    requires Terminated(s) && TagNext(s, q)
    ensures SkipWS(s, q) == q && s[q] == '<' && !IsWhiteSpace(s[q])
  {
  }

  lemma DeclaredMore(soFar: seq<P.Node>, n: P.Node, w: Written, ws: seq<Written>)
    requires w.IsDeclaration() <==> n.Declaration?
    ensures Declared(soFar + [n], ws) ==> Declared(soFar, [w] + ws)
  {
    assert w in [w] + ws && forall x | x in ws :: x in [w] + ws;
  }

  // ---- documents -------------------------------------------------------------------------------------

  /** Blanks, and a byte order mark perhaps. */
  ghost predicate NothingIn(text: string) {
    exists gap: string, bom: bool :: NothingBut(gap, bom, text)
  }

  ghost predicate NothingBut(gap: string, bom: bool, text: string) {
    IsGap(gap) && text == gap + if bom then BOM else ""
  }

  /** Where the nodes of a text start. */
  lemma StartOf(s: string, o: P.Options) returns (gap: string, bom: bool, p: nat)
    requires Terminated(s)
    ensures IsGap(gap) && At(s, 0, gap + if bom then BOM else "") && p == |gap + if bom then BOM else ""| < |s|
    ensures !bom ==> !IsWhiteSpace(s[p]) && !At(s, p, BOM)
    ensures s[p] != NUL ==> P.ParseDocument(s, o).err == P.ParseChildren(s, p, 1, true, [], o).err
  {
    hide At, SkipWS, P.ParseChildren, IsGap;
    gap := GapAt(s, 0);
    bom := At(s, |gap|, BOM);
    p := |gap| + if bom then 3 else 0;
    if bom { AtBeforeNul(s, |gap|, BOM); }
    AtSplit(s, 0, gap, if bom then BOM else "");
    AtSlice(s, |gap|, "");
  }

  /** A text that is parsed with an error has nothing in it, or a flaw. */
  lemma DocumentRefused(s: string, o: P.Options)
    requires Terminated(s) && P.ParseDocument(s, o).err.Some?
    ensures NothingIn(UpToNul(s)) || exists w: Broken :: w.Valid() && w.Source() == UpToNul(s)
  {
    hide At, SkipWS, P.ParseChildren, P.ParseDocument, IsGap, Row, DeclarationsFit, InFront, UpToNul, Broken.Valid,
      SourceAll, FlawAt, FlawMayFollow, Flaw.Valid, Flaw.Source;
    var gap, bom, p := StartOf(s, o);
    var mark := if bom then BOM else "";
    NoNulInGap(gap);
    if s[p] == NUL {
      WholeText(s, gap + mark);
      assert NothingBut(gap, bom, UpToNul(s));
    } else {
      NoneInFront();
      var nodes, f := RowRefused(s, p, 1, true, [], o);
      var w := Broken(gap, bom, nodes, f);
      FlawEnds(s, p + |SourceAll(nodes)|, 1, f);
      EndsMore(s, p, SourceAll(nodes), f.Source());
      EndsMore(s, 0, gap + mark, w.Content());
      assert w.Source() == gap + mark + w.Content();
      WholeText(s, w.Source());
      BrokenValid(s, w, p);
    }
  }

  lemma FlawEnds(s: string, p: nat, pd: nat, f: Flaw)
    requires FlawAt(s, p, pd, f)
    ensures f.Valid(pd) && Ends(s, p, f.Source())
  {
  }

  lemma BrokenValid(s: string, w: Broken, p: nat)
    requires IsGap(w.gap) && Row(w.nodes, "") && 1 + MaxDepth(w.nodes) < 500 && w.flaw.Valid(1)
    requires FlawMayFollow(w.nodes, w.flaw) && DeclarationsFit(true, [], w.nodes)
    requires w.flaw.LateDeclaration? ==> Declared([], w.nodes)
    requires Ends(s, p, w.Content()) && s[p] != NUL && (!w.bom ==> !IsWhiteSpace(s[p]) && !At(s, p, BOM))
    ensures w.Valid()
  {
    hide At, IsGap, Row, MaxDepth, Flaw.Valid, Flaw.Source, FlawMayFollow, Broken.Content;
    AtIndex(s, p, w.Content(), 0);
    SameBlank(s[p]);
    if BOM <= w.Content() { PrefixAt(s, p, w.Content(), BOM); }
  }

  /** The parser refuses exactly the texts with nothing in them and those with a flaw, whatever follows
      their first NUL. BrokenFails and NothingFails give the error of each. */
  lemma RefusedTexts(s: string, o: P.Options)
    requires Terminated(s)
    ensures P.ParseDocument(s, o).err != None <==>
      NothingIn(UpToNul(s)) || exists w: Broken :: w.Valid() && w.Source() == UpToNul(s)
  {
    hide P.ParseDocument, Broken.Valid, Broken.Source, UpToNul;
    if P.ParseDocument(s, o).err != None {
      DocumentRefused(s, o);
    }
    if gap: string, bom: bool :| NothingBut(gap, bom, UpToNul(s)) {
      NothingFails(s, gap, bom, o);
    }
    if w: Broken :| w.Valid() && w.Source() == UpToNul(s) {
      BrokenFails(w, s, o);
    }
  }
}
