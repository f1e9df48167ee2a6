/** The line numbers of a parsed tree, against positions of the pristine text. */
module ParserLines {
  import opened XmlUtil
  import opened ParserSpec

  /** A tag whose name starts at n was opened at w: nothing but blanks and a slash between. */
  ghost predicate OpenedAt(s: string, w: nat, n: nat) {
    && w < n <= |s| && s[w] == '<'
    && forall k | w < k < n :: IsWhiteSpace(s[k]) || s[k] == '/'
  }

  /** A body that starts at v stands behind the header h at w. */
  ghost predicate HeadedAt(s: string, w: nat, h: string, v: nat) {
    w + |h| == v <= |s| && At(s, w, h)
  }

  /** The line of a node is that of its '<', or of the first non-blank character of a text; the line of
      an attribute is that of its name. */
  ghost predicate LinesRight(s: string, n: Node) {
    match n
    case Element(name, attributes, _, children, line) =>
      && (exists w :: OpenedAt(s, w, name.start) && line == LineAt(s, w))
      && (forall a | a in attributes :: a.name.start <= |s| && a.line == LineAt(s, a.name.start))
      && (forall c | c in children :: LinesRight(s, c))
    case Text(v, cdata, line) =>
      if cdata then exists w :: HeadedAt(s, w, CDATA_HEADER, v.start) && line == LineAt(s, w)
      else Terminated(s) && v.start < |s| && s[SkipWS(s, v.start)] != NUL && line == LineAt(s, SkipWS(s, v.start))
    case Comment(v, line) => exists w :: HeadedAt(s, w, COMMENT_HEADER, v.start) && line == LineAt(s, w)
    case Declaration(v, line) => exists w :: HeadedAt(s, w, XML_HEADER, v.start) && line == LineAt(s, w)
    case Unknown(v, line) => exists w :: HeadedAt(s, w, DTD_HEADER, v.start) && line == LineAt(s, w)
  }

  ghost predicate AttributeLines(s: string, attributes: seq<Attribute>) {
    forall a | a in attributes :: a.name.start <= |s| && a.line == LineAt(s, a.name.start)
  }

  lemma {:induction false} AttributesLined(s: string, p: nat, soFar: seq<Attribute>, line: nat, o: Options)
    requires Terminated(s) && p < |s| && AttributeLines(s, soFar)
    ensures AttributeLines(s, ParseAttributes(s, p, soFar, line, o).attributes)
    decreases |s| - p
  {
    hide FindTag, LineAt, HasName;
    var q := SkipWS(s, p);
    if s[q] != NUL && IsNameStartChar(s[q]) {
      var r := ParseAttribute(s, q, o);
      if r.Some? && !HasName(s, soFar, Raw(s, r.value.0.name)) {
        AttributesLined(s, r.value.1, soFar + [r.value.0], line, o);
      }
    }
  }

  lemma LeafLined(s: string, w: nat, p: nat, k: Kind, o: Options)
    requires Terminated(s) && w < |s| && p < |s| && k != KElement && k == KindAt(s, w) && s[w] != NUL
    requires if k == KText then w == SkipWS(s, p) else p == w + |Header(k)|
    requires ParseLeaf(s, p, k, LineAt(s, w), o).ret.Some?
    ensures LinesRight(s, ParseLeaf(s, p, k, LineAt(s, w), o).node)
  {
    hide FindTag, LineAt, At;
    KindHeader(s, w);
    if k != KText { assert HeadedAt(s, w, Header(k), p); }
  }

  lemma {:induction false} NodeLined(s: string, p: nat, depth: nat, o: Options)
    requires Terminated(s) && p < |s| && depth < MAX_ELEMENT_DEPTH && s[SkipWS(s, p)] != NUL
    ensures var r := ParseNode(s, p, depth, o); r.ret.Some? ==> LinesRight(s, r.node)
    decreases |s| - p, 0
  {
    hide LineAt, ParseElement, ParseLeaf, LinesRight;
    var w := SkipWS(s, p);
    var k := KindAt(s, w);
    KindHeader(s, w);
    if ParseNode(s, p, depth, o).ret.Some? {
      if k == KElement {
        AtIndex(s, w, ELEMENT_HEADER, 0);
        ElementLined(s, w, depth, o);
      } else {
        LeafLined(s, w, if k == KText then p else w + |Header(k)|, k, o);
      }
    }
  }

  lemma {:induction false} ElementLined(s: string, w: nat, depth: nat, o: Options)
    requires Terminated(s) && w + 1 < |s| && s[w] == '<' && depth < MAX_ELEMENT_DEPTH
    ensures var r := ParseElement(s, w + 1, depth, LineAt(s, w), o); r.ret.Some? ==> LinesRight(s, r.node)
    decreases |s| - w - 1
  {
    hide LineAt, ParseAttributes, ParseChildren;
    var b := SkipWS(s, w + 1);
    var n := if s[b] == '/' then b + 1 else b;
    if IsNameStartChar(s[n]) {
      assert OpenedAt(s, w, n);
      var e := NameEnd(s, n);
      var a := ParseAttributes(s, e, [], LineAt(s, w), o);
      AttributesLined(s, e, [], LineAt(s, w), o);
      if a.ret.Some? && depth + 1 < MAX_ELEMENT_DEPTH {
        ChildrenLined(s, a.ret.value, depth + 1, false, [], o);
      }
    }
  }

  lemma {:induction false} ChildrenLined(s: string, p: nat, depth: nat, atDocument: bool, soFar: seq<Node>, o: Options)
    requires Terminated(s) && p < |s| && depth < MAX_ELEMENT_DEPTH && forall n | n in soFar :: LinesRight(s, n)
    ensures forall n | n in ParseChildren(s, p, depth, atDocument, soFar, o).children :: LinesRight(s, n)
    decreases |s| - p, 1
  {
    hide LineAt, LinesRight, ParseNode;
    if s[SkipWS(s, p)] != NUL {
      var r := ParseNode(s, p, depth, o);
      NodeLined(s, p, depth, o);
      if r.ret.Some? {
        ChildrenLined(s, r.ret.value, depth, atDocument, soFar + [r.node], o);
      }
    }
  }

  /** After any parse, every node and attribute has the line it stands on. */
  lemma DocumentLined(s: string, o: Options)
    requires Terminated(s)
    ensures forall n | n in ParseDocument(s, o).children :: LinesRight(s, n)
  {
    hide ParseChildren, LinesRight, At;
    var w := SkipWS(s, 0);
    if At(s, w, BOM) { AtBeforeNul(s, w, BOM); }
    var p := if At(s, w, BOM) then w + 3 else w;
    if s[p] != NUL {
      ChildrenLined(s, p, 1, true, [], o);
    }
  }
}
