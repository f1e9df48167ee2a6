/** Texts that are no XML, and the error that each kind of flaw gives: its code, and the place whose
    line is reported. What stands before the flaw is written as in WrittenXml.dfy, in as many open
    elements as there are. */
module BrokenXml {
  import opened XmlUtil
  import opened Scanning
  import opened TreeMeaning
  import opened WrittenXml
  import opened AcceptedXml
  import P = ParserSpec
  import X = XmlTree

  /** A flaw with the blanks before it; `left` is what is left of the text. */
  datatype Flaw =
    // a comment, CDATA section, declaration or unknown without its ending, and a text without a tag
    | OpenMark(gap: string, mark: Mark, raw: string)
    | OpenText(raw: string)
    // a text in front of a '<' that nothing follows
    | CutText(raw: string)
    // a tag without a name, and one that neither ends nor goes on with an attribute
    | Nameless(gap: string, inner: string, slash: bool, left: string)
    | OpenTag(gap: string, tag: Tag, left: string)
    // an attribute without equals sign, opening quote or closing quote, and one whose name was there
    | NoEquals(gap: string, tag: Tag, name: string, behind: string, left: string)
    | Unquoted(gap: string, tag: Tag, name: string, behind: string, between: string, left: string)
    | OpenValue(gap: string, tag: Tag, name: string, behind: string, between: string, quote: char, raw: string)
    | Repeated(gap: string, tag: Tag, attribute: Attribute, left: string)
    // an element closed by an end tag of another name, or never
    | OtherEnd(gap: string, tag: Tag, nodes: seq<Written>, last: string, end: Tag, left: string)
    | Unclosed(gap: string, tag: Tag, nodes: seq<Written>, last: string)
    // a declaration behind something else or in an element, and an element nested too deeply
    | LateDeclaration(gap: string, raw: string, left: string)
    | TooDeep(gap: string, tag: Tag, left: string)
    // a flaw in an element
    | Inside(gap: string, tag: Tag, nodes: seq<Written>, flaw: Flaw)
  {
    function Code(): P.Code {
      match this
      case OpenMark(_, mark, _) =>
        (match mark
         case Comment => P.PARSING_COMMENT
         case CData => P.PARSING_CDATA
         case Declaration => P.PARSING_DECLARATION
         case Unknown => P.PARSING_UNKNOWN)
      case OpenText(_) => P.PARSING_TEXT
      case CutText(_) => P.PARSING
      case Nameless(_, _, _, _) => P.PARSING
      case OpenTag(_, _, _) => P.PARSING_ELEMENT
      case NoEquals(_, _, _, _, _) => P.PARSING_ATTRIBUTE
      case Unquoted(_, _, _, _, _, _) => P.PARSING_ATTRIBUTE
      case OpenValue(_, _, _, _, _, _, _) => P.PARSING_ATTRIBUTE
      case Repeated(_, _, _, _) => P.PARSING_ATTRIBUTE
      case OtherEnd(_, _, _, _, _, _) => P.MISMATCHED_ELEMENT
      case Unclosed(_, _, nodes, last) => if nodes == [] && last == "" then P.MISMATCHED_ELEMENT else P.PARSING
      case LateDeclaration(_, _, _) => P.PARSING_DECLARATION
      case TooDeep(_, _, _) => P.ELEMENT_DEPTH_EXCEEDED
      case Inside(_, _, _, flaw) => flaw.Code()
    }

    function Source(): string {
      match this
      case OpenMark(gap, mark, raw) => gap + mark.Opening() + raw
      case OpenText(raw) => raw
      case CutText(raw) => raw + "<"
      case Nameless(gap, inner, slash, left) => gap + "<" + (inner + (if slash then "/" else "") + left)
      case OpenTag(gap, tag, left) => gap + tag.Head() + (tag.last + left)
      case NoEquals(gap, tag, name, behind, left) => gap + tag.Head() + (tag.last + name + behind + left)
      case Unquoted(gap, tag, name, behind, between, left) =>
        gap + tag.Head() + (tag.last + name + behind + "=" + between + left)
      case OpenValue(gap, tag, name, behind, between, quote, raw) =>
        gap + tag.Head() + (tag.last + name + behind + "=" + between + [quote] + raw)
      case Repeated(gap, tag, attribute, left) => gap + tag.Head() + (attribute.Source() + left)
      case OtherEnd(gap, tag, nodes, last, end, left) =>
        gap + tag.Source() + SourceAll(nodes) + (last + end.Source()) + left
      case Unclosed(gap, tag, nodes, last) => gap + tag.Source() + SourceAll(nodes) + last
      case LateDeclaration(gap, raw, left) => gap + "<?" + raw + "?>" + left
      case TooDeep(gap, tag, left) => gap + tag.Source() + left
      case Inside(gap, tag, nodes, flaw) => gap + tag.Source() + SourceAll(nodes) + flaw.Source()
    }

    /** The place of the flaw: the line that is reported is the line there. */
    function Place(): nat {
      match this
      case OpenText(raw) => Ink(raw)
      case CutText(raw) => Ink(raw)
      case NoEquals(gap, tag, _, _, _) => |gap| + |tag.Head()| + |tag.last|
      case Unquoted(gap, tag, _, _, _, _) => |gap| + |tag.Head()| + |tag.last|
      case OpenValue(gap, tag, _, _, _, _, _) => |gap| + |tag.Head()| + |tag.last|
      case Repeated(gap, tag, attribute, _) => |gap| + |tag.Head()| + |attribute.gap|
      case TooDeep(gap, tag, _) => |gap| + |tag.Source()|
      case Inside(gap, tag, nodes, flaw) => |gap| + |tag.Source()| + |SourceAll(nodes)| + flaw.Place()
      case _ => |gap|
    }

    /** Texts in which this is the flaw, at this depth. */
    ghost predicate Valid(pd: nat) {
      match this
      case OpenMark(gap, mark, raw) =>
        && IsGap(gap) && X.FreeOf(raw, mark.Ending()) && (mark.Unknown? ==> !("--" <= raw) && !("[CDATA[" <= raw))
      case OpenText(raw) => '<' !in raw && !IsGap(raw)
      case CutText(raw) => '<' !in raw && !IsGap(raw)
      case Nameless(gap, inner, slash, left) =>
        && IsGap(gap) && IsGap(inner) && (left == "" || !StartsName(left[0]))
        && (slash || left == "" || (left[0] !in BLANKS && left[0] != '/'))
        && (slash || inner != "" || left == "" || (left[0] != '?' && left[0] != '!'))
      case OpenTag(gap, tag, left) =>
        && IsGap(gap) && tag.Valid()
        && (left == "" || (!StartsName(left[0]) && left[0] !in BLANKS && left[0] != '>' && !("/>" <= left)))
        && (left == "" || MayGoOn(tag) || !GoesInName(left[0]))
      case NoEquals(gap, tag, name, behind, left) =>
        && IsGap(gap) && tag.Valid() && MayGoOn(tag) && IsXmlName(name) && IsGap(behind)
        && (left == "" || (left[0] !in BLANKS && left[0] != '=' && (behind != "" || !GoesInName(left[0]))))
      case Unquoted(gap, tag, name, behind, between, left) =>
        && IsGap(gap) && tag.Valid() && MayGoOn(tag) && IsXmlName(name) && IsGap(behind) && IsGap(between)
        && (left == "" || (left[0] !in BLANKS && left[0] != '"' && left[0] != '\''))
      case OpenValue(gap, tag, name, behind, between, quote, raw) =>
        && IsGap(gap) && tag.Valid() && MayGoOn(tag) && IsXmlName(name) && IsGap(behind) && IsGap(between)
        && (quote == '"' || quote == '\'') && quote !in raw
      case Repeated(gap, tag, attribute, left) =>
        && IsGap(gap) && tag.Valid() && attribute.Valid() && exists a | a in tag.attributes :: a.name == attribute.name
      case OtherEnd(gap, tag, nodes, last, end, left) =>
        && IsGap(gap) && tag.Valid() && tag.IsStart() && end.Valid() && end.IsEnd() && end.name != tag.name
        && Children(nodes, last, pd) && IsGap(last)
      case Unclosed(gap, tag, nodes, last) =>
        && IsGap(gap) && tag.Valid() && tag.IsStart() && IsGap(last)
        && ((nodes == [] && last == "") || Children(nodes, " ", pd))
      case LateDeclaration(gap, raw, left) => IsGap(gap) && X.FreeOf(raw, "?>")
      case TooDeep(gap, tag, left) => IsGap(gap) && tag.Valid() && tag.IsStart() && left != "" && pd == 499
      case Inside(gap, tag, nodes, flaw) =>
        && IsGap(gap) && tag.Valid() && tag.IsStart() && Children(nodes, "", pd) && flaw.Valid(pd + 1)
        && FlawMayFollow(nodes, flaw)
    }
  }

  /** An attribute, or what looks like one, may follow: the name of the tag has ended. */
  predicate MayGoOn(tag: Tag) {
    tag.last != "" || tag.attributes != []
  }

  /** Where the first character of w is that is no blank. */
  function Ink(w: string): nat {
    if w == "" || w[0] !in BLANKS then 0 else 1 + Ink(w[1..])
  }

  /** Nodes in an element at this depth. */
  ghost predicate Children(nodes: seq<Written>, last: string, pd: nat) {
    Row(nodes, last) && (forall w | w in nodes :: !w.IsDeclaration()) && pd + 1 + MaxDepth(nodes) < 500
  }

  /** A text is followed by '<' and more. */
  ghost predicate FlawMayFollow(nodes: seq<Written>, flaw: Flaw) {
    nodes != [] && nodes[|nodes| - 1].Text? ==> |flaw.Source()| > 1 && flaw.Source()[0] == '<'
  }

  // ---- the parser at a flaw ----------------------------------------------------------------------

  /** The loop over the children ends in this error. */
  ghost predicate Fails(s: string, p: nat, pd: nat, atDoc: bool, soFar: seq<P.Node>, o: P.Options, code: P.Code,
      at: nat)
  {
    && Terminated(s) && p < |s| && pd < P.MAX_ELEMENT_DEPTH && at <= |s|
    && P.ParseChildren(s, p, pd, atDoc, soFar, o).err == Some(P.Error(code, LineAt(s, at)))
  }

  /** A node that cannot be parsed: its error, or the one for none. */
  lemma NodeFails(s: string, p: nat, pd: nat, atDoc: bool, soFar: seq<P.Node>, o: P.Options, r: P.Parsed)
    requires Terminated(s) && p < |s| && pd < P.MAX_ELEMENT_DEPTH && s[SkipWS(s, p)] != NUL
    requires P.ParseNode(s, p, pd, o) == r && r.ret == None
    ensures P.ParseChildren(s, p, pd, atDoc, soFar, o).err
         == if r.err.Some? then r.err else Some(P.Error(P.PARSING, LineAt(s, SkipWS(s, p))))
  {
    hide SkipWS, P.ParseNode, P.DeclarationAllowed, P.Mismatched, LineAt;
  }

  lemma {:induction false} TagMissing(s: string, p: nat, e: nat, tag: string)
    requires Terminated(s) && p <= e < |s| && s[e] == NUL && tag != [] && NUL !in tag
    requires forall k | p <= k < e :: !At(s, k, tag)
    ensures FindTag(s, p, tag) == None
    decreases e - p
  {
    if p < e {
      TagMissing(s, p + 1, e, tag);
    }
  }

  /** The ending of an open token does not stand in its content, nor across its end. */
  lemma NotAcross(s: string, p: nat, v: string, tag: string)
    requires Terminated(s) && At(s, p, v) && p + |v| < |s| && s[p + |v|] == NUL && X.FreeOf(v, tag)
    requires tag != [] && NUL !in tag
    ensures FindTag(s, p, tag) == None
  {
    forall k | p <= k < p + |v| ensures !At(s, k, tag) {
      var i := k - p;
      assert !At(v, i, tag);
      if i + |tag| <= |v| {
        var j :| 0 <= j < |tag| && v[i + j] != tag[j];
        AtIndex(s, p, v, i + j);
        Differs(s, k, tag, j);
      } else {
        assert tag[|v| - i] in tag;
        Differs(s, k, tag, |v| - i);
      }
    }
    TagMissing(s, p, p + |v|, tag);
  }

  lemma OpenMarkFails(s: string, p: nat, pd: nat, atDoc: bool, soFar: seq<P.Node>, o: P.Options, f: Flaw)
    requires Terminated(s) && pd < P.MAX_ELEMENT_DEPTH && f.OpenMark? && f.Valid(pd)
    requires At(s, p, f.Source()) && p + |f.Source()| < |s| && s[p + |f.Source()|] == NUL
    ensures Fails(s, p, pd, atDoc, soFar, o, f.Code(), p + f.Place())
  {
    hide At, SkipWS, IsGap, X.FreeOf, P.KindAt, LineAt, P.ParseChildren, P.ParseLeaf;
    var b := p + |f.gap|;
    var v := b + |f.mark.Opening()|;
    AtSplit3(s, p, f.gap, f.mark.Opening(), f.raw);
    AtIndex(s, b, f.mark.Opening(), 0);
    GapSkipped(s, p, f.gap);
    OpenIdentified(s, b, f.mark, f.raw);
    OpenMarkRead(s, v, f.mark, f.raw, LineAt(s, b), o);
    NodeFails(s, p, pd, atDoc, soFar, o, P.ParseNode(s, p, pd, o));
  }

  lemma OpenMarkRead(s: string, v: nat, m: Mark, raw: string, line: nat, o: P.Options)
    requires Terminated(s) && At(s, v, raw) && v + |raw| < |s| && s[v + |raw|] == NUL && X.FreeOf(raw, m.Ending())
    ensures var r := P.ParseLeaf(s, v, KindOf(m), line, o);
      r.ret == None && r.err == Some(P.Error(OpenMark("", m, raw).Code(), line))
  {
    hide At, X.FreeOf, FindTag;
    NotAcross(s, v, raw, m.Ending());
  }

  /** Identify sees the kind of an open token. */
  lemma OpenIdentified(s: string, w: nat, m: Mark, raw: string)
    requires At(s, w, m.Opening()) && At(s, w + |m.Opening()|, raw)
    requires var e := w + |m.Opening()| + |raw|; e < |s| && s[e] == NUL
    requires m.Unknown? ==> !("--" <= raw) && !("[CDATA[" <= raw)
    ensures P.KindAt(s, w) == KindOf(m)
  {
    hide At;
    var h := m.Opening();
    AtIndex(s, w, h, 1);
    if At(s, w, "<?") { AtIndex(s, w, "<?", 1); }
    if m != Declaration {
      if m == CData {
        AtIndex(s, w, h, 2);
      }
      if At(s, w, "<!--") { AtIndex(s, w, "<!--", 2); }
      if m == Unknown {
        NotStarted(s, w + 2, raw, "--");
        NotStarted(s, w + 2, raw, "[CDATA[");
        assert "<!" + "--" == "<!--" && "<!" + "[CDATA[" == "<![CDATA[";
        AtSplit(s, w, "<!", "--");
        AtSplit(s, w, "<!", "[CDATA[");
      }
    }
  }

  lemma NotStarted(s: string, p: nat, raw: string, w: string)
    requires At(s, p, raw) && p + |raw| < |s| && s[p + |raw|] == NUL && NUL !in w && !(w <= raw)
    ensures !At(s, p, w)
  {
    if |raw| < |w| {
      assert w[|raw|] in w;
      Differs(s, p, w, |raw|);
    } else {
      assert raw[..|w|] != w;
      var k :| 0 <= k < |w| && raw[k] != w[k];
      AtIndex(s, p, raw, k);
      Differs(s, p, w, k);
    }
  }

  lemma OpenTextFails(s: string, p: nat, pd: nat, atDoc: bool, soFar: seq<P.Node>, o: P.Options, f: Flaw)
    requires Terminated(s) && pd < P.MAX_ELEMENT_DEPTH && f.OpenText? && f.Valid(pd) && NUL !in f.Source()
    requires At(s, p, f.Source()) && p + |f.Source()| < |s| && s[p + |f.Source()|] == NUL
    ensures Fails(s, p, pd, atDoc, soFar, o, f.Code(), p + f.Place())
  {
    hide At, SkipWS, IsGap, X.FreeOf, FindTag, P.KindAt, LineAt, P.ParseChildren;
    TextIdentified(s, p, f.raw);
    CharFree(f.raw, '<');
    NotAcross(s, p, f.raw, "<");
    InkFound(s, p, f.raw);
    NodeFails(s, p, pd, atDoc, soFar, o, P.ParseNode(s, p, pd, o));
  }

  lemma CutTextFails(s: string, p: nat, pd: nat, atDoc: bool, soFar: seq<P.Node>, o: P.Options, f: Flaw)
    requires Terminated(s) && pd < P.MAX_ELEMENT_DEPTH && f.CutText? && f.Valid(pd) && NUL !in f.Source()
    requires At(s, p, f.Source()) && p + |f.Source()| < |s| && s[p + |f.Source()|] == NUL
    ensures Fails(s, p, pd, atDoc, soFar, o, f.Code(), p + f.Place())
  {
    hide At, SkipWS, IsGap, X.FreeOf, FindTag, P.KindAt, LineAt, P.ParseChildren;
    NulFreeParts(f.raw, "<");
    AtSplit(s, p, f.raw, "<");
    AtIndex(s, p + |f.raw|, "<", 0);
    TextIdentified(s, p, f.raw);
    CharFree(f.raw, '<');
    TagFound(s, p, f.raw, "<");
    InkFound(s, p, f.raw);
    NodeFails(s, p, pd, atDoc, soFar, o, P.ParseNode(s, p, pd, o));
  }

  lemma {:induction false} InkFound(s: string, p: nat, w: string)
    requires Terminated(s) && At(s, p, w) && p + |w| < |s| && !IsWhiteSpace(s[p + |w|])
    ensures SkipWS(s, p) == p + Ink(w) && Ink(w) <= |w|
    decreases |w|
  {
    if w != "" {
      AtIndex(s, p, w, 0);
      SameBlank(w[0]);
      assert w == [w[0]] + w[1..];
      AtSplit(s, p, [w[0]], w[1..]);
      if w[0] in BLANKS { InkFound(s, p + 1, w[1..]); }
    }
  }

  // ---- flaws of tags -------------------------------------------------------------------------------

  lemma NulAhead(c: char)
    requires c == NUL || c in BLANKS
    ensures !IsNameChar(c)
  {
    SameBlank(c);
  }

  lemma BlankEndsName(c: char)
    requires IsWhiteSpace(c)
    ensures !IsNameChar(c)
  {
  }

  lemma NameCharsSame(c: char)
    ensures IsNameChar(c) <==> GoesInName(c)
    ensures IsNameStartChar(c) <==> StartsName(c)
  {
  }

  /** The head of a tag is in order: what comes of the node is what comes of the rest of the tag. */
  lemma HeadThen(s: string, p: nat, gap: string, tag: Tag, pd: nat, o: P.Options) returns (all: seq<P.Attribute>)
    requires Terminated(s) && pd < P.MAX_ELEMENT_DEPTH && IsGap(gap) && tag.Valid() && At(s, p, gap + tag.Head())
    requires var e := p + |gap + tag.Head()|; e < |s| && (tag.attributes != [] || !IsNameChar(s[e]))
    ensures p + |gap| + 1 < |s| && SkipWS(s, p) == p + |gap| && s[p + |gap|] == '<'
    ensures var a := P.ParseAttributes(s, p + |gap + tag.Head()|, all, LineAt(s, p + |gap|), o);
      a.ret == None ==> var r := P.ParseNode(s, p, pd, o); r.ret == None && r.err == a.err
    ensures forall x | x in tag.attributes :: P.HasName(s, all, x.name)
  {
    hide At, SkipWS, IsGap, Tag.Valid, Tag.Head, P.KindAt, P.ParseAttributes, P.HasName, NameEnd, P.Raw, Str, AttrsOf,
      AttributesMeant, P.ParseDeep, LineAt;
    var b := p + |gap|;
    AtSplit(s, p, gap, tag.Head());
    AtSlice(s, b, tag.Head());
    var n, a;
    n, a, all := HeadAccepted(s, b, tag, LineAt(s, b), o);
    GapSkipped(s, p, gap);
  }

  /** Where the rest of a tag stands. */
  lemma HeadSplit(s: string, p: nat, gap: string, tag: Tag, rest: string)
    requires At(s, p, gap + tag.Head() + rest)
    ensures At(s, p, gap + tag.Head()) && At(s, p + |gap + tag.Head()|, rest)
  {
    AtSplit(s, p, gap + tag.Head(), rest);
  }

  /** The first character behind blanks, or the NUL. */
  lemma Ahead(s: string, p: nat, w: string)
    requires At(s, p, w) && p + |w| < |s| && s[p + |w|] == NUL
    ensures p < |s| && s[p] == if w == "" then NUL else w[0]
  {
    if w != "" { AtIndex(s, p, w, 0); }
  }

  lemma OpenTagFails(s: string, p: nat, pd: nat, atDoc: bool, soFar: seq<P.Node>, o: P.Options, f: Flaw)
    requires Terminated(s) && pd < P.MAX_ELEMENT_DEPTH && f.OpenTag? && f.Valid(pd)
    requires At(s, p, f.Source()) && p + |f.Source()| < |s| && s[p + |f.Source()|] == NUL
    ensures Fails(s, p, pd, atDoc, soFar, o, f.Code(), p + f.Place())
  {
    hide At, SkipWS, IsGap, LineAt, P.ParseChildren, P.ParseAttributes, P.ParseNode, Tag.Valid, Tag.Head, P.HasName,
      IsNameChar, GoesInName;
    var e := p + |f.gap + f.tag.Head()|;
    HeadSplit(s, p, f.gap, f.tag, f.tag.last + f.left);
    AtSplit(s, e, f.tag.last, f.left);
    var q := e + |f.tag.last|;
    Ahead(s, q, f.left);
    NulAhead(NUL);
    NameCharsSame(s[q]);
    LastIsGap(f.tag);
    if f.tag.last != "" {
      GapStarts(s, e, f.tag.last);
      AtIndex(s, e, f.tag.last, 0);
      BlankEndsName(s[e]);
    }
    var all := HeadThen(s, p, f.gap, f.tag, pd, o);
    AtSlice(s, p, f.Source());
    NotEnded(s, e, f.tag.last, f.left, all, LineAt(s, p + |f.gap|), o);
    NodeFails(s, p, pd, atDoc, soFar, o, P.ParseNode(s, p, pd, o));
  }

  lemma LastIsGap(t: Tag)
    requires t.Valid()
    ensures IsGap(t.last)
  {
  }

  lemma NotEnded(s: string, e: nat, last: string, left: string, all: seq<P.Attribute>, line: nat, o: P.Options)
    requires Terminated(s) && IsGap(last) && At(s, e, last) && At(s, e + |last|, left)
    requires e + |last| + |left| < |s| && s[e + |last| + |left|] == NUL
    requires left == "" || (!StartsName(left[0]) && left[0] !in BLANKS && left[0] != '>' && !("/>" <= left))
    ensures e < |s|
    ensures P.ParseAttributes(s, e, all, line, o)
         == P.ParsedAttributes(None, all, false, Some(P.Error(P.PARSING_ELEMENT, line)))
  {
    hide At, SkipWS, IsGap, IsNameChar, IsNameStartChar;
    var q := e + |last|;
    Ahead(s, q, left);
    SameBlank(s[q]);
    NameCharsSame(s[q]);
    NulAhead(NUL);
    GapSkipped(s, e, last);
    NotStarted(s, q, left, "/>");
  }

  // ---- flaws of attributes -------------------------------------------------------------------------

  /** An attribute that cannot be read, behind the blanks of a tag. */
  lemma AttributeFails(s: string, e: nat, last: string, all: seq<P.Attribute>, line: nat, o: P.Options)
    requires Terminated(s) && IsGap(last) && At(s, e, last) && e + |last| < |s| && IsNameStartChar(s[e + |last|])
    requires P.ParseAttribute(s, e + |last|, o) == None
    ensures e < |s| && P.ParseAttributes(s, e, all, line, o)
      == P.ParsedAttributes(None, all, false, Some(P.Error(P.PARSING_ATTRIBUTE, LineAt(s, e + |last|))))
  {
    hide At, SkipWS, IsGap, P.ParseAttribute, LineAt;
    NotBlank(s[e + |last|]);
    GapSkipped(s, e, last);
  }

  /** Common to all flaws of an attribute: its name stands behind the blanks of the tag. */
  lemma AttributeFlaw(s: string, p: nat, pd: nat, atDoc: bool, soFar: seq<P.Node>, o: P.Options, gap: string, tag: Tag,
      name: string, rest: string)
    requires Terminated(s) && pd < P.MAX_ELEMENT_DEPTH && IsGap(gap) && tag.Valid() && MayGoOn(tag) && IsXmlName(name)
    requires At(s, p, gap + tag.Head() + (tag.last + rest)) && name <= rest
    requires var q := p + |gap| + |tag.Head()| + |tag.last|;
      q < |s| && (IsNameStartChar(s[q]) ==> P.ParseAttribute(s, q, o) == None)
    ensures Fails(s, p, pd, atDoc, soFar, o, P.PARSING_ATTRIBUTE, p + |gap| + |tag.Head()| + |tag.last|)
  {
    hide At, SkipWS, IsGap, LineAt, P.ParseChildren, P.ParseAttributes, P.ParseAttribute, P.ParseNode, Tag.Valid,
      Tag.Head, P.HasName, IsNameChar;
    var e := p + |gap + tag.Head()|;
    HeadSplit(s, p, gap, tag, tag.last + rest);
    AtSplit(s, e, tag.last, rest);
    var q := e + |tag.last|;
    SameWord(name);
    assert rest[0] == name[0];
    AtIndex(s, q, rest, 0);
    LastIsGap(tag);
    if tag.last != "" {
      GapStarts(s, e, tag.last);
      BlankEndsName(s[e]);
    }
    var all := HeadThen(s, p, gap, tag, pd, o);
    AttributeFails(s, e, tag.last, all, LineAt(s, p + |gap|), o);
    NodeFails(s, p, pd, atDoc, soFar, o, P.ParseNode(s, p, pd, o));
  }

  lemma NoEqualsFails(s: string, p: nat, pd: nat, atDoc: bool, soFar: seq<P.Node>, o: P.Options, f: Flaw)
    requires Terminated(s) && pd < P.MAX_ELEMENT_DEPTH && f.NoEquals? && f.Valid(pd)
    requires At(s, p, f.Source()) && p + |f.Source()| < |s| && s[p + |f.Source()|] == NUL
    ensures Fails(s, p, pd, atDoc, soFar, o, f.Code(), p + f.Place())
  {
    hide At, SkipWS, IsGap, P.ParseChildren, P.ParseAttribute, P.ParseNode, Tag.Valid, Tag.Head, IsXmlName, LineAt,
      GoesInName;
    var rest := f.name + f.behind + f.left;
    var q := p + |f.gap| + |f.tag.Head()| + |f.tag.last|;
    assert f.tag.last + f.name + f.behind + f.left == f.tag.last + rest;
    AtSplit(s, p, f.gap + f.tag.Head(), f.tag.last + rest);
    AtSplit(s, q - |f.tag.last|, f.tag.last, rest);
    AtSplit3(s, q, f.name, f.behind, f.left);
    Ahead(s, q + |f.name| + |f.behind|, f.left);
    NoEqualsRead(s, q, f.name, f.behind, o);
    assert f.name <= rest;
    AttributeFlaw(s, p, pd, atDoc, soFar, o, f.gap, f.tag, f.name, rest);
  }

  lemma NoEqualsRead(s: string, q: nat, name: string, behind: string, o: P.Options)
    requires Terminated(s) && IsXmlName(name) && At(s, q, name) && IsGap(behind) && At(s, q + |name|, behind)
    requires var n := q + |name| + |behind|;
      n < |s| && s[n] != '=' && s[n] !in BLANKS && (s[n] == NUL || behind != "" || !GoesInName(s[n]))
    ensures q < |s| && IsNameStartChar(s[q]) && P.ParseAttribute(s, q, o) == None
  {
    hide At, SkipWS, IsGap, IsXmlName, NameEnd;
    var n := q + |name| + |behind|;
    NameCharsSame(s[n]);
    NulAhead(NUL);
    SameBlank(s[n]);
    if behind != "" {
      GapStarts(s, q + |name|, behind);
      BlankEndsName(s[q + |name|]);
    }
    NameFound(s, q, name);
    GapSkipped(s, q + |name|, behind);
  }

  lemma UnquotedFails(s: string, p: nat, pd: nat, atDoc: bool, soFar: seq<P.Node>, o: P.Options, f: Flaw)
    requires Terminated(s) && pd < P.MAX_ELEMENT_DEPTH && f.Unquoted? && f.Valid(pd)
    requires At(s, p, f.Source()) && p + |f.Source()| < |s| && s[p + |f.Source()|] == NUL
    ensures Fails(s, p, pd, atDoc, soFar, o, f.Code(), p + f.Place())
  {
    hide At, SkipWS, IsGap, P.ParseChildren, P.ParseAttribute, P.ParseNode, Tag.Valid, Tag.Head, IsXmlName, LineAt;
    var rest := f.name + f.behind + "=" + f.between + f.left;
    var q := p + |f.gap| + |f.tag.Head()| + |f.tag.last|;
    assert f.tag.last + f.name + f.behind + "=" + f.between + f.left == f.tag.last + rest;
    AtSplit(s, p, f.gap + f.tag.Head(), f.tag.last + rest);
    AtSplit(s, q - |f.tag.last|, f.tag.last, rest);
    UnquotedRead(s, q, f.name, f.behind, f.between, f.left, o);
    assert f.name <= rest;
    AttributeFlaw(s, p, pd, atDoc, soFar, o, f.gap, f.tag, f.name, rest);
  }

  lemma UnquotedRead(s: string, q: nat, name: string, behind: string, between: string, left: string, o: P.Options)
    requires Terminated(s) && IsXmlName(name) && IsGap(behind) && IsGap(between)
    requires left == "" || (left[0] !in BLANKS && left[0] != '"' && left[0] != '\'')
    requires At(s, q, name + behind + "=" + between + left)
    requires var e := q + |name + behind + "=" + between + left|; e < |s| && s[e] == NUL
    ensures q < |s| && IsNameStartChar(s[q]) && P.ParseAttribute(s, q, o) == None
  {
    hide At, SkipWS, IsGap, IsXmlName, NameEnd, FindTag;
    AtSplit(s, q, name + behind + "=" + between, left);
    AtSplit3(s, q, name + behind, "=", between);
    AtSplit(s, q, name, behind);
    var e := q + |name| + |behind|;
    var u := e + 1 + |between|;
    AtIndex(s, e, "=", 0);
    Ahead(s, u, left);
    SameBlank(s[u]);
    AfterName(s, q + |name|, behind, e);
    NameFound(s, q, name);
    NotBlank('=');
    GapSkipped(s, q + |name|, behind);
    GapSkipped(s, e + 1, between);
  }

  lemma OpenValueFails(s: string, p: nat, pd: nat, atDoc: bool, soFar: seq<P.Node>, o: P.Options, f: Flaw)
    requires Terminated(s) && pd < P.MAX_ELEMENT_DEPTH && f.OpenValue? && f.Valid(pd)
    requires At(s, p, f.Source()) && p + |f.Source()| < |s| && s[p + |f.Source()|] == NUL
    ensures Fails(s, p, pd, atDoc, soFar, o, f.Code(), p + f.Place())
  {
    hide At, SkipWS, IsGap, P.ParseChildren, P.ParseAttribute, P.ParseNode, Tag.Valid, Tag.Head, IsXmlName, LineAt;
    var rest := f.name + f.behind + "=" + f.between + [f.quote] + f.raw;
    var q := p + |f.gap| + |f.tag.Head()| + |f.tag.last|;
    assert f.tag.last + f.name + f.behind + "=" + f.between + [f.quote] + f.raw == f.tag.last + rest;
    AtSplit(s, p, f.gap + f.tag.Head(), f.tag.last + rest);
    AtSplit(s, q - |f.tag.last|, f.tag.last, rest);
    OpenValueRead(s, q, f.name, f.behind, f.between, f.quote, f.raw, o);
    assert f.name <= rest;
    AttributeFlaw(s, p, pd, atDoc, soFar, o, f.gap, f.tag, f.name, rest);
  }

  lemma OpenValueRead(s: string, q: nat, name: string, behind: string, between: string, quote: char, raw: string,
      o: P.Options)
    requires Terminated(s) && IsXmlName(name) && IsGap(behind) && IsGap(between) && (quote == '"' || quote == '\'')
    requires quote !in raw && At(s, q, name + behind + "=" + between + [quote] + raw)
    requires var e := q + |name + behind + "=" + between + [quote] + raw|; e < |s| && s[e] == NUL
    ensures q < |s| && IsNameStartChar(s[q]) && P.ParseAttribute(s, q, o) == None
  {
    hide At, SkipWS, IsGap, IsXmlName, NameEnd, FindTag, X.FreeOf, P.Raw, Str;
    AtSplit3(s, q, name + behind + "=" + between, [quote], raw);
    AtSplit3(s, q, name + behind, "=", between);
    AtSplit(s, q, name, behind);
    var e := q + |name| + |behind|;
    var u := e + 1 + |between|;
    AtIndex(s, e, "=", 0);
    AtIndex(s, u, [quote], 0);
    AfterName(s, q + |name|, behind, e);
    NameFound(s, q, name);
    NotBlank('=');
    NotBlank(quote);
    GapSkipped(s, q + |name|, behind);
    GapSkipped(s, e + 1, between);
    CharFree(raw, quote);
    NotAcross(s, u + 1, raw, [quote]);
  }

  lemma RepeatedFails(s: string, p: nat, pd: nat, atDoc: bool, soFar: seq<P.Node>, o: P.Options, f: Flaw)
    requires Terminated(s) && pd < P.MAX_ELEMENT_DEPTH && f.Repeated? && f.Valid(pd)
    requires At(s, p, f.Source()) && p + |f.Source()| < |s| && s[p + |f.Source()|] == NUL
    ensures Fails(s, p, pd, atDoc, soFar, o, f.Code(), p + f.Place())
  {
    hide At, SkipWS, IsGap, LineAt, P.ParseChildren, P.ParseAttributes, P.ParseAttribute, P.ParseNode, Tag.Valid,
      Tag.Head, P.HasName, IsNameChar, Attribute.Source, Attribute.Meant, AttrOf, P.Raw;
    var e, a := p + |f.gap + f.tag.Head()|, f.attribute;
    HeadSplit(s, p, f.gap, f.tag, a.Source() + f.left);
    AtSplit(s, e, a.Source(), f.left);
    var q := e + |a.gap|;
    WithinText(s, e, a);
    var all := HeadThen(s, p, f.gap, f.tag, pd, o);
    var r := AttributeAccepted(s, e, a, o);
    AttributeLine(s, q, o);
    RepeatedRead(s, e, q, all, r, p + |f.gap|, o);
    NodeFails(s, p, pd, atDoc, soFar, o, P.ParseNode(s, p, pd, o));
  }

  lemma WithinText(s: string, e: nat, a: Attribute)
    requires At(s, e, a.Source())
    ensures e < |s|
  {
    hide At;
    var n, v, u, q := AttributePieces(s, e, a);
  }

  lemma AttributeLine(s: string, q: nat, o: P.Options)
    requires Terminated(s) && q < |s| && IsNameStartChar(s[q])
    ensures var r := P.ParseAttribute(s, q, o); r.Some? ==> r.value.0.line == LineAt(s, q)
  {
    hide LineAt;
  }

  lemma RepeatedRead(s: string, e: nat, q: nat, all: seq<P.Attribute>, r: P.Attribute, b: nat, o: P.Options)
    requires Terminated(s) && e < |s| && b <= |s| && SkipWS(s, e) == q && IsNameStartChar(s[q])
    requires P.ParseAttribute(s, q, o).Some? && P.ParseAttribute(s, q, o).value.0 == r && r.line == LineAt(s, q)
    requires P.HasName(s, all, P.Raw(s, r.name))
    ensures P.ParseAttributes(s, e, all, LineAt(s, b), o)
      == P.ParsedAttributes(None, all, false, Some(P.Error(P.PARSING_ATTRIBUTE, LineAt(s, q))))
  {
    hide SkipWS, P.ParseAttribute, P.HasName, P.Raw, LineAt;
    NotNulName(s[q]);
  }

  lemma NotNulName(c: char)
    requires IsNameStartChar(c)
    ensures c != NUL
  {
  }

  // ---- flaws of elements -----------------------------------------------------------------------------

  /** The node of an element, given how parsing its children goes. */
  lemma ElementThen(s: string, p: nat, gap: string, tag: Tag, rest: string, pd: nat, o: P.Options)
    returns (head: P.Parsed)
    requires Terminated(s) && pd < P.MAX_ELEMENT_DEPTH && IsGap(gap) && tag.Valid() && tag.IsStart()
    requires At(s, p, gap + tag.Source() + rest)
    ensures var c := p + |gap + tag.Source()|;
      && c < |s| && At(s, c, rest) && SkipWS(s, p) == p + |gap| && s[p + |gap|] == '<'
      && head.node.Element? && head.node.closing == P.Open && P.Raw(s, head.node.name) == tag.name
      && head.endTag == None && head.ret.Some?
      && (s[c] == NUL ==> P.ParseNode(s, p, pd, o) == head)
      && (s[c] != NUL ==> var d := P.ParseDeep(s, c, pd, false, o);
           P.ParseNode(s, p, pd, o) == P.Parsed(d.ret, head.node.(children := d.children), d.endTag, d.err))
  {
    hide At, SkipWS, IsGap, Tag.Valid, Tag.Source, P.ParseNode, P.ParseDeep, P.Raw, Str, AttrsOf, AttributesMeant,
      LineAt;
    AtSplit(s, p, gap + tag.Source(), rest);
    head := TagIsNode(s, p, gap, tag, pd, o);
  }

  lemma OtherEndFails(s: string, p: nat, pd: nat, atDoc: bool, soFar: seq<P.Node>, o: P.Options, f: Flaw)
    requires Terminated(s) && pd < P.MAX_ELEMENT_DEPTH && f.OtherEnd? && f.Valid(pd)
    requires At(s, p, f.Source()) && p + |f.Source()| < |s| && s[p + |f.Source()|] == NUL
    ensures Fails(s, p, pd, atDoc, soFar, o, f.Code(), p + f.Place())
  {
    hide At, SkipWS, IsGap, Tag.Valid, Tag.Source, P.ParseNode, P.ParseDeep, P.Raw, SourceAll, WellWritten, TextsEnd,
      P.ParseChildren, LineAt;
    var body := SourceAll(f.nodes) + (f.last + f.end.Source()) + f.left;
    assert f.Source() == f.gap + f.tag.Source() + body;
    var head := ElementThen(s, p, f.gap, f.tag, body, pd, o);
    var c := p + |f.gap + f.tag.Source()|;
    AtSplit3(s, c, SourceAll(f.nodes), f.last + f.end.Source(), f.left);
    var nodes, name := BodyAccepted(s, c, f.nodes, f.last, f.end, pd, o);
    AtSlice(s, p, f.Source());
    MismatchFails(s, p, pd, atDoc, soFar, o, P.ParseNode(s, p, pd, o));
  }

  lemma MismatchFails(s: string, p: nat, pd: nat, atDoc: bool, soFar: seq<P.Node>, o: P.Options, r: P.Parsed)
    requires Terminated(s) && p < |s| && pd < P.MAX_ELEMENT_DEPTH && s[SkipWS(s, p)] != NUL
    requires P.ParseNode(s, p, pd, o) == r && r.ret.Some? && r.node.Element? && r.node.closing != P.Closing
    requires P.Mismatched(s, r.node, r.endTag)
    ensures P.ParseChildren(s, p, pd, atDoc, soFar, o).err
         == Some(P.Error(P.MISMATCHED_ELEMENT, LineAt(s, SkipWS(s, p))))
  {
    hide SkipWS, P.ParseNode, P.Mismatched, LineAt;
  }

  lemma UnclosedFails(s: string, p: nat, pd: nat, atDoc: bool, soFar: seq<P.Node>, o: P.Options, f: Flaw)
    requires Terminated(s) && pd < P.MAX_ELEMENT_DEPTH && f.Unclosed? && f.Valid(pd) && NUL !in f.Source()
    requires At(s, p, f.Source()) && p + |f.Source()| < |s| && s[p + |f.Source()|] == NUL
    ensures Fails(s, p, pd, atDoc, soFar, o, f.Code(), p + f.Place())
  {
    hide At, SkipWS, IsGap, Tag.Valid, Tag.Source, P.ParseNode, P.ParseDeep, P.Raw, Row, MaxDepth, P.ParseChildren,
      LineAt, Source, WellWritten;
    var body := SourceAll(f.nodes) + f.last;
    assert f.Source() == f.gap + f.tag.Source() + body;
    var head := ElementThen(s, p, f.gap, f.tag, body, pd, o);
    var c := p + |f.gap + f.tag.Source()|;
    AtSlice(s, p, f.Source());
    if f.nodes == [] && f.last == "" {
      MismatchFails(s, p, pd, atDoc, soFar, o, P.ParseNode(s, p, pd, o));
    } else {
      Ahead(s, c, body);
      NodesNotEmpty(f.nodes);
      NulFreeParts(f.gap + f.tag.Source(), body);
      assert body[0] in body;
      UnclosedRead(s, c, pd, f.nodes, f.last, o);
      NodeFails(s, p, pd, atDoc, soFar, o, P.ParseNode(s, p, pd, o));
    }
  }

  lemma UnclosedRead(s: string, c: nat, pd: nat, nodes: seq<Written>, last: string, o: P.Options)
    requires Terminated(s) && c < |s| && Children(nodes, " ", pd) && IsGap(last) && At(s, c, SourceAll(nodes) + last)
    requires var e := c + |SourceAll(nodes) + last|; e < |s| && s[e] == NUL
    ensures var d := P.ParseDeep(s, c, pd, false, o); d.ret == None && d.err == None
  {
    hide At, IsGap, SourceAll, WellWritten, TextsEnd, P.ParseChildren, DeclarationsFit, TreesOf, AllMeant, MaxDepth;
    AtSplit(s, c, SourceAll(nodes), last);
    BodyShape(nodes, " ");
    var all := RowAccepted(s, c, nodes, " ", pd + 1, false, [], o);
    EndAccepted(s, c + |SourceAll(nodes)|, last, pd + 1, false, all, o);
  }

  lemma NodesNotEmpty(nodes: seq<Written>)
    requires Row(nodes, " ")
    ensures nodes != [] ==> SourceAll(nodes) != ""
  {
    if nodes != [] { assert nodes[0] in nodes; }
  }

  lemma TooDeepFails(s: string, p: nat, pd: nat, atDoc: bool, soFar: seq<P.Node>, o: P.Options, f: Flaw)
    requires Terminated(s) && pd < P.MAX_ELEMENT_DEPTH && f.TooDeep? && f.Valid(pd) && NUL !in f.Source()
    requires At(s, p, f.Source()) && p + |f.Source()| < |s| && s[p + |f.Source()|] == NUL
    ensures Fails(s, p, pd, atDoc, soFar, o, f.Code(), p + f.Place())
  {
    hide At, SkipWS, IsGap, Tag.Valid, Tag.Source, P.ParseNode, P.Raw, P.ParseChildren, LineAt;
    var head := ElementThen(s, p, f.gap, f.tag, f.left, pd, o);
    var c := p + |f.gap + f.tag.Source()|;
    Ahead(s, c, f.left);
    assert f.left[0] in f.left && f.left[0] in f.Source();
    AtSlice(s, p, f.Source());
    NodeFails(s, p, pd, atDoc, soFar, o, P.ParseNode(s, p, pd, o));
  }

  lemma LateDeclarationFails(s: string, p: nat, pd: nat, atDoc: bool, soFar: seq<P.Node>, o: P.Options, f: Flaw)
    requires Terminated(s) && pd < P.MAX_ELEMENT_DEPTH && f.LateDeclaration? && f.Valid(pd) && NUL !in f.Source()
    requires !P.DeclarationAllowed(atDoc, soFar)
    requires At(s, p, f.Source()) && p + |f.Source()| < |s| && s[p + |f.Source()|] == NUL
    ensures Fails(s, p, pd, atDoc, soFar, o, f.Code(), p + f.Place())
  {
    hide At, SkipWS, IsGap, P.ParseNode, P.ParseChildren, LineAt, P.DeclarationAllowed, Read, Flaw.Valid, Flaw.Source,
      WellWritten, Source;
    var w := Marked(f.gap, Declaration, f.raw);
    DeclarationValid(f, w, pd);
    AtSplit(s, p, Source(w), f.left);
    var r := MarkAccepted(s, p, pd, w, o);
    DeclarationStands(s, p, w);
    DeclarationFails(s, p, pd, w, atDoc, soFar, o, r);
  }

  lemma DeclarationValid(f: Flaw, w: Written, pd: nat)
    requires f.LateDeclaration? && f.Valid(pd) && NUL !in f.Source() && w == Marked(f.gap, Declaration, f.raw)
    ensures WellWritten(w) && w.IsDeclaration() && f.Source() == Source(w) + f.left && f.Place() == |w.gap|
    ensures f.Code() == P.PARSING_DECLARATION
  {
    hide X.FreeOf;
    assert Source(w) == f.gap + "<?" + f.raw + "?>";
    NulFreeParts(Source(w), f.left);
    NulFreeParts(f.gap + "<?" + f.raw, "?>");
    NulFreeParts(f.gap + "<?", f.raw);
  }

  lemma DeclarationStands(s: string, p: nat, w: Written)
    requires Terminated(s) && WellWritten(w) && w.IsDeclaration() && At(s, p, Source(w))
    ensures p < |s| && SkipWS(s, p) == p + |w.gap|
  {
    hide At, SkipWS, IsGap, X.FreeOf;
    AtSplit(s, p, w.gap + "<?" + w.raw, "?>");
    AtSplit3(s, p, w.gap, "<?", w.raw);
    AtIndex(s, p + |w.gap|, "<?", 0);
    GapSkipped(s, p, w.gap);
  }

  lemma DeclarationFails(s: string, p: nat, pd: nat, w: Written, atDoc: bool, soFar: seq<P.Node>, o: P.Options,
      r: P.Parsed)
    requires Terminated(s) && pd < P.MAX_ELEMENT_DEPTH && Read(s, p, pd, w, o, r) && w.IsDeclaration()
    requires !P.DeclarationAllowed(atDoc, soFar)
    ensures p < |s| && P.ParseChildren(s, p, pd, atDoc, soFar, o).err
      == Some(P.Error(P.PARSING_DECLARATION, LineAt(s, SkipWS(s, p))))
  {
    hide SkipWS, P.ParseNode, P.DeclarationAllowed, P.Mismatched, LineAt, Source, TreeOf;
  }

  // ---- all flaws ------------------------------------------------------------------------------------

  /** A flaw behind any nodes ends parsing with its error. */
  lemma FlawFound(s: string, p: nat, pd: nat, atDoc: bool, soFar: seq<P.Node>, o: P.Options, f: Flaw)
    requires Terminated(s) && pd < P.MAX_ELEMENT_DEPTH && f.Valid(pd) && NUL !in f.Source()
    requires f.LateDeclaration? ==> !P.DeclarationAllowed(atDoc, soFar)
    requires At(s, p, f.Source()) && p + |f.Source()| < |s| && s[p + |f.Source()|] == NUL
    ensures Fails(s, p, pd, atDoc, soFar, o, f.Code(), p + f.Place())
    decreases f
  {
    hide At, Flaw.Valid, Flaw.Source, Flaw.Code, Flaw.Place, Fails, P.DeclarationAllowed;
    match f
    case OpenMark(_, _, _) => OpenMarkFails(s, p, pd, atDoc, soFar, o, f);
    case OpenText(_) => OpenTextFails(s, p, pd, atDoc, soFar, o, f);
    case CutText(_) => CutTextFails(s, p, pd, atDoc, soFar, o, f);
    case Nameless(_, _, _, _) => NamelessFails(s, p, pd, atDoc, soFar, o, f);
    case OpenTag(_, _, _) => OpenTagFails(s, p, pd, atDoc, soFar, o, f);
    case NoEquals(_, _, _, _, _) => NoEqualsFails(s, p, pd, atDoc, soFar, o, f);
    case Unquoted(_, _, _, _, _, _) => UnquotedFails(s, p, pd, atDoc, soFar, o, f);
    case OpenValue(_, _, _, _, _, _, _) => OpenValueFails(s, p, pd, atDoc, soFar, o, f);
    case Repeated(_, _, _, _) => RepeatedFails(s, p, pd, atDoc, soFar, o, f);
    case OtherEnd(_, _, _, _, _, _) => OtherEndFails(s, p, pd, atDoc, soFar, o, f);
    case Unclosed(_, _, _, _) => UnclosedFails(s, p, pd, atDoc, soFar, o, f);
    case LateDeclaration(_, _, _) => LateDeclarationFails(s, p, pd, atDoc, soFar, o, f);
    case TooDeep(_, _, _) => TooDeepFails(s, p, pd, atDoc, soFar, o, f);
    case Inside(_, _, _, _) => InsideFails(s, p, pd, atDoc, soFar, o, f);
  }

  lemma NamelessFails(s: string, p: nat, pd: nat, atDoc: bool, soFar: seq<P.Node>, o: P.Options, f: Flaw)
    requires Terminated(s) && pd < P.MAX_ELEMENT_DEPTH && f.Nameless? && f.Valid(pd)
    requires At(s, p, f.Source()) && p + |f.Source()| < |s| && s[p + |f.Source()|] == NUL
    ensures Fails(s, p, pd, atDoc, soFar, o, f.Code(), p + f.Place())
  {
    hide At, SkipWS, IsGap, LineAt, P.KindAt, P.ParseAttributes, P.ParseDeep, P.ParseChildren, IsNameStartChar,
      StartsName;
    var b := p + |f.gap|;
    var slash := if f.slash then "/" else "";
    AtSplit3(s, p, f.gap, "<", f.inner + slash + f.left);
    AtSplit3(s, b + 1, f.inner, slash, f.left);
    var w := b + 1 + |f.inner|;
    var n := w + |slash|;
    AtIndex(s, b, "<", 0);
    Ahead(s, n, f.left);
    if f.slash { AtIndex(s, w, "/", 0); }
    NameCharsSame(s[n]);
    NulAhead(NUL);
    SameBlank(s[w]);
    GapSkipped(s, p, f.gap);
    GapSkipped(s, b + 1, f.inner);
    if f.inner != "" { GapStarts(s, b + 1, f.inner); }
    KindIsElement(s, b);
    NoName(s, b, w, n, pd, o);
    NodeFails(s, p, pd, atDoc, soFar, o, P.ParseNode(s, p, pd, o));
  }

  lemma NoName(s: string, b: nat, w: nat, n: nat, pd: nat, o: P.Options)
    requires Terminated(s) && b + 1 < |s| && pd < P.MAX_ELEMENT_DEPTH && SkipWS(s, b + 1) == w && n < |s|
    requires n == (if s[w] == '/' then w + 1 else w) && !IsNameStartChar(s[n])
    ensures var r := P.ParseElement(s, b + 1, pd, LineAt(s, b), o); r.ret == None && r.err == None
  {
    hide SkipWS, LineAt, P.ParseAttributes, P.ParseDeep;
  }

  /** Where the nodes and the flaw inside an element stand. */
  lemma InsidePieces(s: string, p: nat, pd: nat, f: Flaw) returns (c: nat, e: nat)
    requires Terminated(s) && f.Inside? && f.Valid(pd) && NUL !in f.Source()
    requires At(s, p, f.Source()) && p + |f.Source()| < |s| && s[p + |f.Source()|] == NUL
    ensures c == p + |f.gap + f.tag.Source()| < |s| && s[c] != NUL && e == c + |SourceAll(f.nodes)|
    ensures f.Code() == f.flaw.Code() && p + f.Place() == e + f.flaw.Place()
    ensures f.Source() == f.gap + f.tag.Source() + (SourceAll(f.nodes) + f.flaw.Source())
    ensures At(s, c, SourceAll(f.nodes)) && At(s, e, f.flaw.Source()) && NUL !in f.flaw.Source()
    ensures e + |f.flaw.Source()| < |s| && s[e + |f.flaw.Source()|] == NUL
    ensures IsGap(f.gap) && f.tag.Valid() && f.tag.IsStart() && f.flaw.Valid(pd + 1) && pd + 1 < 500
    ensures Children(f.nodes, "", pd) && (f.nodes != [] && f.nodes[|f.nodes| - 1].Text? ==> TagNext(s, e))
  {
    hide At, IsGap, Tag.Valid, Tag.Source, SourceAll, Children;
    ChildrenDepth(f.nodes, "", pd);
    var body := SourceAll(f.nodes) + f.flaw.Source();
    assert f.Source() == f.gap + f.tag.Source() + body;
    c := p + |f.gap + f.tag.Source()|;
    e := c + |SourceAll(f.nodes)|;
    AtSplit(s, p, f.gap + f.tag.Source(), body);
    AtSplit(s, c, SourceAll(f.nodes), f.flaw.Source());
    NulFreeParts(f.gap + f.tag.Source(), body);
    NulFreeParts(SourceAll(f.nodes), f.flaw.Source());
    FlawNotEmpty(f.flaw, pd + 1);
    Ahead(s, c, body);
    assert body[0] in body;
    if f.nodes != [] && f.nodes[|f.nodes| - 1].Text? { FlawIsTag(s, e, f.flaw.Source()); }
  }

  lemma ChildrenDepth(nodes: seq<Written>, last: string, pd: nat)
    requires Children(nodes, last, pd)
    ensures pd + 1 < 500
  {
  }

  lemma InsideFails(s: string, p: nat, pd: nat, atDoc: bool, soFar: seq<P.Node>, o: P.Options, f: Flaw)
    requires Terminated(s) && pd < P.MAX_ELEMENT_DEPTH && f.Inside? && f.Valid(pd) && NUL !in f.Source()
    requires At(s, p, f.Source()) && p + |f.Source()| < |s| && s[p + |f.Source()|] == NUL
    ensures Fails(s, p, pd, atDoc, soFar, o, f.Code(), p + f.Place())
    decreases f, 0
  {
    hide At, SkipWS, IsGap, Tag.Valid, Tag.Source, P.ParseNode, P.Raw, WellWritten, TextsEnd, P.ParseChildren, LineAt,
      DeclarationsFit, SourceAll, MaxDepth, TreesOf, AllMeant, TagNext, AllRead, P.ParseDeep, Flaw.Valid, Flaw.Source,
      Flaw.Code, Flaw.Place, P.DeclarationAllowed;
    var c, e := InsidePieces(s, p, pd, f);
    var head := ElementThen(s, p, f.gap, f.tag, SourceAll(f.nodes) + f.flaw.Source(), pd, o);
    BodyShape(f.nodes, "");
    var all := RowAccepted(s, c, f.nodes, "", pd + 1, false, [], o);
    NoneInside(all);
    FlawFound(s, e, pd + 1, false, all, o, f.flaw);
    InsideResult(s, c, pd, f.nodes, all, o, f.flaw);
    NodeFails(s, p, pd, atDoc, soFar, o, P.ParseNode(s, p, pd, o));
  }

  lemma NoneInside(all: seq<P.Node>)
    ensures !P.DeclarationAllowed(false, all)
  {
  }

  lemma InsideResult(s: string, c: nat, pd: nat, nodes: seq<Written>, all: seq<P.Node>, o: P.Options, f: Flaw)
    requires Terminated(s) && c < |s| && pd + 1 < 500 && AllRead(s, c, nodes, pd + 1, false, [], o, all)
    requires Fails(s, c + |SourceAll(nodes)|, pd + 1, false, all, o, f.Code(), c + |SourceAll(nodes)| + f.Place())
    ensures c + |SourceAll(nodes)| + f.Place() <= |s| && P.ParseDeep(s, c, pd, false, o).err
         == Some(P.Error(f.Code(), LineAt(s, c + |SourceAll(nodes)| + f.Place())))
  {
    hide P.ParseChildren, SourceAll, TreesOf, AllMeant, LineAt, Flaw.Code, Flaw.Place;
  }

  lemma FlawIsTag(s: string, e: nat, w: string)
    requires At(s, e, w) && NUL !in w && |w| > 1 && w[0] == '<'
    ensures TagNext(s, e)
  {
    AtIndex(s, e, w, 0);
    AtIndex(s, e, w, 1);
    assert w[1] in w;
  }

  lemma FlawNotEmpty(f: Flaw, pd: nat)
    requires f.Valid(pd)
    ensures f.Source() != ""
  {
    hide WellWritten, TextsEnd, Tag.Valid, X.FreeOf, MaxDepth, SourceAll, Attribute.Source;
  }

  // ---- documents -------------------------------------------------------------------------------------

  /** A text with a flaw at its end, behind what is in order. */
  datatype Broken = Broken(gap: string, bom: bool, nodes: seq<Written>, flaw: Flaw) {
    function Content(): string {
      SourceAll(nodes) + flaw.Source()
    }

    function Source(): string {
      gap + (if bom then "\U{EF}\U{BB}\U{BF}" else "") + Content()
    }

    function Place(): nat {
      |gap| + (if bom then 3 else 0) + |SourceAll(nodes)| + flaw.Place()
    }

    ghost predicate Valid() {
      && IsGap(gap) && Row(nodes, "") && MaxDepth(nodes) <= 498 && flaw.Valid(1) && FlawMayFollow(nodes, flaw)
      && (forall i, j | 0 <= i < j < |nodes| && nodes[j].IsDeclaration() :: nodes[i].IsDeclaration())
      && (flaw.LateDeclaration? ==> exists w | w in nodes :: !w.IsDeclaration())
      && (!bom ==> Content() != "" && Content()[0] !in BLANKS && !("\U{EF}\U{BB}\U{BF}" <= Content()))
    }
  }

  /** Parsing such a text ends in the error of the flaw, with the line the flaw is on. */
  lemma BrokenFails(w: Broken, s: string, o: P.Options)
    requires w.Valid() && Terminated(s) && UpToNul(s) == w.Source()
    ensures w.Place() <= |s|
    ensures P.ParseDocument(s, o).err == Some(P.Error(w.flaw.Code(), 1 + multiset(s[..w.Place()])['\n']))
  {
    hide P.ParseDocument, Broken.Valid, Broken.Source, Broken.Place, UpToNul, Flaw.Code;
    BrokenFound(w, s, o);
    LinesCounted(s, w.Place());
  }

  lemma BrokenFound(w: Broken, s: string, o: P.Options)
    requires w.Valid() && Terminated(s) && UpToNul(s) == w.Source()
    ensures w.Place() <= |s| && P.ParseDocument(s, o).err == Some(P.Error(w.flaw.Code(), LineAt(s, w.Place())))
  {
    hide At, IsGap, P.ParseChildren, P.ParseDocument, SourceAll, WellWritten, TextsEnd, MaxDepth, UpToNul, TreesOf,
      AllMeant, DeclarationsFit, TagNext, Flaw.Valid, Flaw.Source, Flaw.Code, Flaw.Place, P.DeclarationAllowed, LineAt,
      Starts, Broken.Valid;
    BrokenStarts(w);
    var p := StartAccepted(w.gap, w.bom, w.Content(), s, o);
    var e := p + |SourceAll(w.nodes)|;
    AtSplit(s, p, SourceAll(w.nodes), w.flaw.Source());
    NulFreeParts(SourceAll(w.nodes), w.flaw.Source());
    if w.nodes != [] && w.nodes[|w.nodes| - 1].Text? { FlawIsTag(s, e, w.flaw.Source()); }
    BrokenRead(s, p, w, o);
  }

  lemma BrokenRead(s: string, p: nat, w: Broken, o: P.Options)
    requires w.Valid() && Terminated(s) && p < |s| && At(s, p, SourceAll(w.nodes)) && NUL !in w.flaw.Source()
    requires w.nodes != [] && w.nodes[|w.nodes| - 1].Text? ==> TagNext(s, p + |SourceAll(w.nodes)|)
    requires var e := p + |SourceAll(w.nodes)|;
      At(s, e, w.flaw.Source()) && e + |w.flaw.Source()| < |s| && s[e + |w.flaw.Source()|] == NUL
    ensures Fails(s, p, 1, true, [], o, w.flaw.Code(), p + |SourceAll(w.nodes)| + w.flaw.Place())
  {
    hide At, IsGap, P.ParseChildren, SourceAll, WellWritten, TextsEnd, MaxDepth, TreesOf, AllMeant, DeclarationsFit,
      TagNext, Flaw.Valid, Flaw.Source, Flaw.Code, Flaw.Place, P.DeclarationAllowed, LineAt;
    NodesInFront(w.nodes);
    var all := RowAccepted(s, p, w.nodes, "", 1, true, [], o);
    assert all[0..] == all;
    if w.flaw.LateDeclaration? { NotAllowed(s, w.nodes, all, o); }
    FlawFound(s, p + |SourceAll(w.nodes)|, 1, true, all, o, w.flaw);
  }

  lemma BrokenStarts(w: Broken)
    requires w.Valid()
    ensures w.flaw.Source() != "" && (w.nodes != [] ==> FlawMayFollow(w.nodes, w.flaw))
    ensures IsGap(w.gap) && Starts(w.bom, w.Content())
    ensures w.Source() == w.gap + (if w.bom then BOM else "") + w.Content()
  {
    hide IsGap, SourceAll, Row, MaxDepth, Flaw.Valid, Flaw.Source;
    FlawNotEmpty(w.flaw, 1);
  }

  lemma NodesInFront(nodes: seq<Written>)
    requires forall i, j | 0 <= i < j < |nodes| && nodes[j].IsDeclaration() :: nodes[i].IsDeclaration()
    ensures DeclarationsFit(true, [], nodes)
  {
  }

  /** Behind a node that is no declaration no declaration is allowed. */
  lemma NotAllowed(s: string, nodes: seq<Written>, all: seq<P.Node>, o: P.Options)
    requires TreesOf(s, all) == AllMeant(nodes, o) && exists w | w in nodes :: !w.IsDeclaration()
    requires forall i, j | 0 <= i < j < |nodes| && nodes[j].IsDeclaration() :: nodes[i].IsDeclaration()
    ensures !P.DeclarationAllowed(true, all)
  {
    hide TreeOf, Written.Meant;
    var last := |nodes| - 1;
    assert |all| == |nodes| by { assert |TreesOf(s, all)| == |AllMeant(nodes, o)|; }
    TreesOfIndex(s, all, last);
    MeantAt(nodes, last, o);
    KindKept(s, all[last]);
    KindMeant(nodes[last], o);
  }

  lemma {:induction false} MeantAt(ws: seq<Written>, i: nat, o: P.Options)
    requires i < |ws|
    ensures AllMeant(ws, o)[i] == ws[i].Meant(o)
  {
    hide Written.Meant;
    if i > 0 { MeantAt(ws[1..], i - 1, o); }
  }

  lemma KindKept(s: string, n: P.Node)
    ensures TreeOf(s, n).Declaration? <==> n.Declaration?
  {
  }

  lemma KindMeant(w: Written, o: P.Options)
    ensures w.Meant(o).Declaration? <==> w.IsDeclaration()
  {
  }

  /** A text without anything in it. */
  lemma NothingFails(s: string, gap: string, bom: bool, o: P.Options)
    requires Terminated(s) && IsGap(gap) && UpToNul(s) == gap + if bom then BOM else ""
    ensures P.ParseDocument(s, o).err == Some(P.Error(P.EMPTY_DOCUMENT, 0))
  {
    hide At, SkipWS, IsGap, UpToNul;
    var mark := if bom then BOM else "";
    var g := |gap|;
    TextInBuffer(s, gap + mark);
    AtSplit(s, 0, gap, mark);
    if bom {
      AtIndex(s, g, BOM, 0);
    } else {
      Differs(s, g, BOM, 0);
    }
    GapSkipped(s, 0, gap);
  }
}
