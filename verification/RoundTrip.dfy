/** Printing a storable document, compact or pretty, and parsing the text gives the document back,
    but for line ends and blank texts. The proof follows the printer: each lemma takes the text of
    one node, or of a list of children, wherever it stands in the buffer. */
module RoundTrip {
  import opened XmlUtil
  import opened Decode
  import opened PrinterSpec
  import opened Escaping
  import opened Scanning
  import opened TreeMeaning
  import opened RoundTripLeaves
  import P = ParserSpec
  import X = XmlTree

  // ---- whitespace -----------------------------------------------------------------

  lemma {:induction false} SpacesBlank(depth: nat)
    ensures IsBlank(Spaces(depth)) && |Spaces(depth)| == 4 * depth
  {
    if depth > 0 {
      SpacesBlank(depth - 1);
    }
  }

  lemma SpaceBlank(l: Layout, depth: nat, m: Mode)
    ensures IsBlank(Space(l, depth, m))
  {
    SpacesBlank(depth);
  }

  lemma CloseBlanksBlank(l: Layout, depth: nat, m: Mode)
    ensures IsBlank(CloseBlanks(l, depth, m))
  {
    SpacesBlank(depth);
  }

  /** SkipWhiteSpace passes over printed blanks. */
  lemma SkipBlanksAt(s: string, p: nat, w: string)
    requires Terminated(s) && At(s, p, w) && IsBlank(w)
    requires p + |w| < |s| && !IsWhiteSpace(s[p + |w|])
    ensures SkipWS(s, p) == p + |w|
  {
    forall k | p <= k < p + |w| ensures IsWhiteSpace(s[k]) {
      AtIndex(s, p, w, k - p);
      assert w[k - p] in w;
    }
    SkipWSUnique(s, p, p + |w|);
  }

  /** Blanks before a node that is not text make no difference to the children loop. */
  lemma BlanksIgnored(s: string, p: nat, w: string, pd: nat, atDoc: bool, soFar: seq<P.Node>)
    requires Terminated(s) && pd < P.MAX_ELEMENT_DEPTH && At(s, p, w) && IsBlank(w) && p + |w| < |s|
    requires var c := s[SkipWS(s, p + |w|)]; c == NUL || c == '<'
    ensures p < |s|
    ensures P.ParseChildren(s, p, pd, atDoc, soFar, OPTIONS) == P.ParseChildren(s, p + |w|, pd, atDoc, soFar, OPTIONS)
  {
    hide At, P.ParseLeaf, P.ParseElement;
    var q := SkipWS(s, p + |w|);
    SkipPrefix(s, p, w, q);
    if s[q] == '<' {
      P.KindHeader(s, q);
      assert P.ParseNode(s, p, pd, OPTIONS) == P.ParseNode(s, p + |w|, pd, OPTIONS);
    }
  }

  lemma SkipPrefix(s: string, p: nat, w: string, q: nat)
    requires Terminated(s) && At(s, p, w) && IsBlank(w) && p + |w| < |s| && q == SkipWS(s, p + |w|)
    ensures SkipWS(s, p) == q
  {
    forall k | p <= k < q ensures IsWhiteSpace(s[k]) {
      if k < p + |w| {
        AtIndex(s, p, w, k - p);
        assert w[k - p] in w;
      }
    }
    SkipWSUnique(s, p, q);
  }

  // ---- the shape of a printed node ----------------------------------------------------

  /** Inside an element the pretty printer is past its first node. */
  predicate Inside(l: Layout, depth: nat, m: Mode) {
    depth > 0 && !m.compact ==> !l.first
  }

  /** The pieces of a printed element: blanks, "<", name, attributes, children, closing, newline. */
  lemma ElementShape(s: string, p: nat, t: X.Tree, depth: nat, l: Layout, m: Mode)
    returns (w: nat, a: nat, b: nat, c: nat, d: nat)
    requires t.Element? && !l.justOpened && At(s, p, PrintNode(t, depth, l, m).0)
    ensures w == p + |Space(l, depth, m)| && a == w + 1 + |t.name| && b == a + |PrintAttributes(t.attributes, m)|
    ensures var body := PrintNodes(t.children, depth + 1, ElementOpened(l, m), m);
      && c == b + |body.0| && d == c + |CloseTag(t.name, body.1, depth, m)|
      && d + |FinalNewline(depth, m)| == p + |PrintNode(t, depth, l, m).0|
      && At(s, p, Space(l, depth, m)) && At(s, w, "<") && At(s, w + 1, t.name)
      && At(s, a, PrintAttributes(t.attributes, m)) && At(s, b, body.0)
      && At(s, c, CloseTag(t.name, body.1, depth, m)) && At(s, d, FinalNewline(depth, m))
  {
    hide PrintAttributes, PrintNodes, Space, CloseTag, FinalNewline, At;
    var body := PrintNodes(t.children, depth + 1, ElementOpened(l, m), m);
    var sp, attrs := Space(l, depth, m), PrintAttributes(t.attributes, m);
    var tag := "<" + t.name + attrs;
    var close, nl := CloseTag(t.name, body.1, depth, m), FinalNewline(depth, m);
    assert Lead(l, depth, m) == sp;
    assert PrintNode(t, depth, l, m).0 == sp + tag + body.0 + close + nl;
    AtSplit3(s, p, sp + tag + body.0, close, nl);
    AtSplit3(s, p, sp, tag, body.0);
    AtSplit3(s, p + |sp|, "<", t.name, attrs);
    w := p + |sp|;
    a := w + 1 + |t.name|;
    b := a + |attrs|;
    c := b + |body.0|;
    d := c + |close|;
  }

  function LeafKind(t: X.Tree): P.Kind
    requires !t.Element? && !t.IsPlainText()
  {
    match t
    case Text(_, _) => P.KCData
    case Comment(_) => P.KComment
    case Declaration(_) => P.KDeclaration
    case Unknown(_) => P.KUnknown
  }

  /** The blanks before a printed node; a text has none. */
  function Blanks(t: X.Tree, depth: nat, l: Layout, m: Mode): string {
    if t.Text? then "" else Space(l, depth, m)
  }

  lemma LeafText(t: X.Tree, depth: nat, l: Layout, m: Mode)
    requires !t.Element? && !t.IsPlainText() && !l.justOpened
    ensures PrintNode(t, depth, l, m).0
         == Blanks(t, depth, l, m) + (P.Header(LeafKind(t)) + t.value + P.EndTag(LeafKind(t)))
  {
    hide Space, PrintNodes, Escape;
    assert Lead(l, depth, m) == Space(l, depth, m);
    if t.Text? {
      assert Seal(l) + TextBody(t, m) == TextBody(t, m) == "" + TextBody(t, m);
    }
  }

  /** The pieces of a printed leaf: blanks, header, content, end tag. */
  lemma LeafShape(s: string, p: nat, t: X.Tree, depth: nat, l: Layout, m: Mode) returns (w: nat, v: nat, e: nat)
    requires !t.Element? && !t.IsPlainText() && !l.justOpened && At(s, p, PrintNode(t, depth, l, m).0)
    ensures var k := LeafKind(t);
      && w == p + |Blanks(t, depth, l, m)| && v == w + |P.Header(k)| && e == v + |t.value|
      && e + |P.EndTag(k)| == p + |PrintNode(t, depth, l, m).0|
      && At(s, p, Blanks(t, depth, l, m)) && At(s, w, P.Header(k)) && At(s, v, t.value) && At(s, e, P.EndTag(k))
  {
    hide At, Space, PrintNode;
    var k, sp := LeafKind(t), Blanks(t, depth, l, m);
    var body := P.Header(k) + t.value + P.EndTag(k);
    LeafText(t, depth, l, m);
    AtSplit(s, p, sp, body);
    AtSplit3(s, p + |sp|, P.Header(k), t.value, P.EndTag(k));
    w := p + |sp|;
    v := w + |P.Header(k)|;
    e := v + |t.value|;
  }

  /** Every node but a text starts, after its blanks, with '<' and something more. */
  lemma NodeStartsTag(s: string, p: nat, t: X.Tree, depth: nat, l: Layout, m: Mode) returns (w: nat)
    requires X.Storable(t) && !t.IsPlainText() && !l.justOpened && At(s, p, PrintNode(t, depth, l, m).0)
    ensures w == p + |Blanks(t, depth, l, m)| && At(s, p, Blanks(t, depth, l, m))
    ensures w + 1 < |s| && s[w] == '<' && s[w + 1] != NUL
  {
    hide PrintNode, Space, At;
    if t.Element? {
      var a, b, c, d;
      w, a, b, c, d := ElementShape(s, p, t, depth, l, m);
      AtIndex(s, w, "<", 0);
      AtIndex(s, w + 1, t.name, 0);
    } else {
      var v, e;
      w, v, e := LeafShape(s, p, t, depth, l, m);
      AtIndex(s, w, P.Header(LeafKind(t)), 0);
      AtIndex(s, w, P.Header(LeafKind(t)), 1);
    }
  }

  /** After a text the layout suppresses blanks, up to the next text or the end tag. */
  lemma {:induction false} LastTextLayout(ts: seq<X.Tree>, depth: nat, l: Layout, m: Mode)
    requires ts != [] && ts[|ts| - 1].IsPlainText()
    ensures PrintNodes(ts, depth, l, m).1.textDepth == depth - 1
    decreases |ts|
  {
    if |ts| > 1 {
      LastTextLayout(ts[1..], depth, PrintNode(ts[0], depth, l, m).1, m);
    }
  }

  /** The first child of a freshly opened element seals its start tag. */
  lemma SealFirst(ts: seq<X.Tree>, depth: nat, l: Layout, m: Mode)
    requires ts != [] && l.justOpened
    ensures var r, q := PrintNodes(ts, depth, l, m), PrintNodes(ts, depth, l.(justOpened := false), m);
      r.0 == ">" + q.0 && r.1 == q.1
  {
    hide PrintNode;
    var t, l' := ts[0], l.(justOpened := false);
    SealNode(t, depth, l, m);
    var a := PrintNode(t, depth, l', m);
    Regroup(">", a.0, PrintNodes(ts[1..], depth, a.1, m).0);
  }

  lemma SealNode(t: X.Tree, depth: nat, l: Layout, m: Mode)
    requires l.justOpened
    ensures var r, q := PrintNode(t, depth, l, m), PrintNode(t, depth, l.(justOpened := false), m);
      r.0 == ">" + q.0 && r.1 == q.1
  {
    hide PrintAttributes, Space, CloseTag, PrintNodes, Escape;
    var l' := l.(justOpened := false);
    SpaceUnsealed(l, depth, m);
    var lead := Lead(l', depth, m);
    assert Lead(l, depth, m) == ">" + lead;
    match t
    case Element(name, _, children) =>
      var body := PrintNodes(children, depth + 1, ElementOpened(l, m), m);
      SealConcat(lead, OpenTag(t, m), body.0, CloseTag(name, body.1, depth, m), FinalNewline(depth, m));
    case Text(_, _) =>
    case _ => SealConcat(lead, LeafBody(t), "", "", "");
  }

  lemma SealConcat(lead: string, a: string, b: string, c: string, d: string)
    ensures ">" + lead + a + b + c + d == ">" + (lead + a + b + c + d)
    ensures ">" + lead + a == ">" + (lead + a)
  {
    Regroup(">", lead, a);
    Regroup(">", lead + a, b);
    Regroup(">", lead + a + b, c);
    Regroup(">", lead + a + b + c, d);
  }

  lemma SpaceUnsealed(l: Layout, depth: nat, m: Mode)
    ensures Space(l, depth, m) == Space(l.(justOpened := false), depth, m)
  {
  }

  // ---- leaves -------------------------------------------------------------------------

  /** Identify sees the kind that was printed. */
  lemma LeafIdentified(s: string, w: nat, t: X.Tree)
    requires !t.Element? && !t.IsPlainText() && X.Storable(t)
    requires var k := LeafKind(t);
      At(s, w, P.Header(k)) && At(s, w + |P.Header(k)|, t.value) && At(s, w + |P.Header(k)| + |t.value|, P.EndTag(k))
    ensures P.KindAt(s, w) == LeafKind(t)
  {
    hide At;
    var k := LeafKind(t);
    var h := P.Header(k);
    AtIndex(s, w, h, 1);
    if At(s, w, "<?") { AtIndex(s, w, "<?", 1); }
    if k != P.KDeclaration {
      if k == P.KCData {
        AtIndex(s, w, h, 2);
      }
      if At(s, w, "<!--") { AtIndex(s, w, "<!--", 2); }
      if k == P.KUnknown {
        assert "<!" + "--" == "<!--" && "<!" + "[CDATA[" == "<![CDATA[";
        if At(s, w, "<!--") { PrefixOfBody(s, w, t.value, "--"); }
        if At(s, w, "<![CDATA[") { PrefixOfBody(s, w, t.value, "[CDATA["); }
      }
    }
  }

  /** What parsing the text of one node must give: the node, whose meaning is t as it is reread, and reading goes on
      at ret. */
  ghost predicate Reads(s: string, p: nat, pd: nat, t: X.Tree, r: P.Parsed)
    requires Terminated(s) && pd < P.MAX_ELEMENT_DEPTH
  {
    && p < |s| && s[SkipWS(s, p)] != NUL && P.ParseNode(s, p, pd, OPTIONS) == r
    && r.ret.Some? && TreeOf(s, r.node) == X.Reread(t)
    && (r.node.Element? ==> r.node.closing != P.Closing && !P.Mismatched(s, r.node, r.endTag))
  }

  lemma LeafReads(s: string, p: nat, t: X.Tree, depth: nat, l: Layout, m: Mode, pd: nat) returns (r: P.Parsed)
    requires Terminated(s) && pd < P.MAX_ELEMENT_DEPTH
    requires !t.Element? && !t.IsPlainText() && X.Storable(t) && !l.justOpened
    requires At(s, p, PrintNode(t, depth, l, m).0)
    ensures Reads(s, p, pd, t, r) && r.ret == Some(p + |PrintNode(t, depth, l, m).0|)
  {
    hide PrintNode, At, Space, P.ParseLeaf, Str, P.KindAt, X.FreeOf, X.Unix;
    var w, v, e := LeafShape(s, p, t, depth, l, m);
    var k := LeafKind(t);
    LeafIdentified(s, w, t);
    AtIndex(s, w, P.Header(k), 0);
    SpaceBlank(l, depth, m);
    AtWithin(s, e, P.EndTag(k));
    SkipBlanksAt(s, p, Blanks(t, depth, l, m));
    LeafParses(s, v, t.value, k, LineAt(s, w));
    r := P.ParseNode(s, p, pd, OPTIONS);
  }

  /** A text must be followed by a '<' that is not the last thing in the buffer. */
  predicate TagFollows(s: string, e: nat) {
    e + 1 < |s| && s[e] == '<' && s[e + 1] != NUL
  }

  lemma TextReads(s: string, p: nat, t: X.Tree, depth: nat, l: Layout, m: Mode, pd: nat) returns (r: P.Parsed)
    requires Terminated(s) && pd < P.MAX_ELEMENT_DEPTH && m.entities
    requires t.IsPlainText() && !IsBlank(t.value) && X.Storable(t) && !l.justOpened
    requires At(s, p, PrintNode(t, depth, l, m).0) && TagFollows(s, p + |PrintNode(t, depth, l, m).0|)
    ensures Reads(s, p, pd, t, r) && r.ret == Some(p + |PrintNode(t, depth, l, m).0|)
  {
    hide At, P.ParseLeaf, Str, Escape, X.Unix;
    var w := Escape(t.value, true);
    assert PrintNode(t, depth, l, m).0 == w;
    TextIdentified(s, p, t.value);
    TextParses(s, p, t.value, LineAt(s, SkipWS(s, p)));
    r := P.ParseNode(s, p, pd, OPTIONS);
  }

  /** A text that is not all blank: the first other character is not a '<', even escaped. */
  lemma TextIdentified(s: string, p: nat, v: string)
    requires Terminated(s) && NUL !in v && !IsBlank(v) && At(s, p, Escape(v, true)) && p + |Escape(v, true)| < |s|
    ensures var w := SkipWS(s, p); s[w] != NUL && s[w] != '<' && P.KindAt(s, w) == P.KText
  {
    hide Escape;
    var e := Escape(v, true);
    var c :| c in v && !IsWhiteSpace(c);
    var j := EscapeNotBlank(v, c);
    AtIndex(s, p, e, j);
    var w := SkipWS(s, p);
    assert w <= p + j;
    AtIndex(s, p, e, w - p);
    assert e[w - p] in e;
    EscapeHides(v, true, e[w - p]);
    KindIsText(s, w);
  }

  lemma {:induction false} EscapeNotBlank(v: string, c: char) returns (j: nat)
    requires c in v && !IsWhiteSpace(c)
    ensures j < |Escape(v, true)| && !IsWhiteSpace(Escape(v, true)[j])
  {
    if v[0] == c {
      j := 0;
    } else {
      assert c in v[1..];
      var i := EscapeNotBlank(v[1..], c);
      j := |EscapeChar(v[0], true)| + i;
    }
  }

  // ---- tags ---------------------------------------------------------------------------

  /** Name and attributes of a start tag, up to the '>' or "/>" at b. */
  lemma StartTagReads(s: string, w: nat, a: nat, b: nat, t: X.Tree, line: nat, m: Mode) returns (all: seq<P.Attribute>)
    requires Terminated(s) && m.entities && t.Element? && X.Storable(t)
    requires At(s, w, "<") && At(s, w + 1, t.name) && At(s, a, PrintAttributes(t.attributes, m))
    requires a == w + 1 + |t.name| && b == a + |PrintAttributes(t.attributes, m)| < |s| && (s[b] == '/' || s[b] == '>')
    ensures s[w] == '<' && P.KindAt(s, w) == P.KElement
    ensures SkipWS(s, w + 1) == w + 1 && s[w + 1] != '/' && IsNameStartChar(s[w + 1]) && NameEnd(s, w + 1) == a
    ensures Str(s, P.Range(w + 1, a, PLAIN)) == P.Raw(s, P.Range(w + 1, a, PLAIN)) == t.name
    ensures P.ParseAttributes(s, a, [], line, OPTIONS) == P.ParseAttributes(s, b, all, line, OPTIONS)
    ensures AttrsOf(s, all) == X.RereadAttrs(t.attributes)
  {
    hide At, Str, P.ParseAttributes, PrintAttribute;
    AtIndex(s, w, "<", 0);
    if t.attributes != [] {
      var x := t.attributes[0];
      AtSplit(s, a, PrintAttribute(x, m), PrintAttributes(t.attributes[1..], m));
      var n, e, v, q := AttributeShape(s, a, x, m);
    }
    NameParses(s, w + 1, t.name);
    NoSkip(s, w + 1);
    KindIsElement(s, w);
    all := AttributesParse(s, a, b, t.attributes, [], line, m);
    assert all[0..] == all;
  }

  lemma TagEnds(s: string, b: nat, all: seq<P.Attribute>, line: nat)
    requires Terminated(s) && b < |s|
    ensures s[b] == '>' ==>
      P.ParseAttributes(s, b, all, line, OPTIONS) == P.ParsedAttributes(Some(b + 1), all, false, None)
    ensures At(s, b, "/>") ==>
      P.ParseAttributes(s, b, all, line, OPTIONS) == P.ParsedAttributes(Some(b + 2), all, true, None)
  {
    if At(s, b, "/>") {
      AtIndex(s, b, "/>", 0);
    }
  }

  /** An end tag ends the loop over the children, handing its name to the parent. */
  lemma EndTagReads(s: string, c: nat, name: string, l: Layout, depth: nat, m: Mode, pd: nat, soFar: seq<P.Node>)
    returns (r: P.Range)
    requires Terminated(s) && pd < P.MAX_ELEMENT_DEPTH && IsName(name) && !l.justOpened
    requires At(s, c, CloseTag(name, l, depth, m))
    ensures c < |s| && P.ParseChildren(s, c, pd, false, soFar, OPTIONS)
         == P.ParsedChildren(Some(c + |CloseTag(name, l, depth, m)|), Some(r), soFar, None)
    ensures P.Raw(s, r) == name
  {
    hide At, Str, CloseBlanks, IsBlank, P.ParseAttributes, P.KindAt, SkipWS, NameEnd, IsName;
    var sp := CloseBlanks(l, depth, m);
    AtSplit(s, c, sp + "</" + name, ">");
    AtSplit3(s, c, sp, "</", name);
    var w := c + |sp|;
    var n := w + 2;
    var e := n + |name|;
    AtIndex(s, w, "</", 0);
    AtIndex(s, w, "</", 1);
    AtIndex(s, e, ">", 0);
    AtWithin(s, e, ">");
    CloseBlanksBlank(l, depth, m);
    SkipBlanksAt(s, c, sp);
    KindIsElement(s, w);
    NoSkip(s, w + 1);
    NameParses(s, n, name);
    TagEnds(s, e, [], LineAt(s, w));
    r := P.Range(n, e, PLAIN);
    var node := P.Element(r, [], P.Closing, [], LineAt(s, w));
    assert P.ParseElement(s, w + 1, pd, LineAt(s, w), OPTIONS) == P.Parsed(Some(e + 1), node, None, None);
    assert P.ParseNode(s, c, pd, OPTIONS) == P.Parsed(Some(e + 1), node, None, None);
    assert e + 1 == c + |CloseTag(name, l, depth, m)|;
  }

  lemma CloseTagStart(s: string, c: nat, name: string, l: Layout, depth: nat, m: Mode)
    requires At(s, c, CloseTag(name, l, depth, m)) && IsName(name)
    ensures l.justOpened ==> At(s, c, "/>")
    ensures !l.justOpened && l.textDepth >= 0 ==> TagFollows(s, c)
  {
    hide At;
    if !l.justOpened && l.textDepth >= 0 {
      assert "" + "</" + name + ">" == "</" + name + ">";
      AtSplit3(s, c, "</", name, ">");
      AtIndex(s, c, "</", 0);
      AtIndex(s, c, "</", 1);
    }
  }

  // ---- elements and children ---------------------------------------------------------------

  /** The newline the pretty printer puts behind a root element. */
  function Tail(t: X.Tree, depth: nat, m: Mode): string {
    if t.Element? then FinalNewline(depth, m) else ""
  }

  lemma EmptyElementReads(s: string, p: nat, t: X.Tree, depth: nat, l: Layout, m: Mode, pd: nat) returns (r: P.Parsed)
    requires Terminated(s) && m.entities && pd < P.MAX_ELEMENT_DEPTH
    requires t.Element? && t.children == [] && X.Storable(t) && !l.justOpened
    requires At(s, p, PrintNode(t, depth, l, m).0)
    ensures Reads(s, p, pd, t, r)
    ensures r.ret.value + |Tail(t, depth, m)| == p + |PrintNode(t, depth, l, m).0|
    ensures At(s, r.ret.value, Tail(t, depth, m))
  {
    hide At, Str, Space, PrintNode, P.ParseAttributes, P.KindAt, SkipWS, NameEnd, IsName, IsBlank, X.Storable;
    var w, a, b, c, d := ElementShape(s, p, t, depth, l, m);
    AtIndex(s, b, "/>", 0);
    AtIndex(s, w, "<", 0);
    SpaceBlank(l, depth, m);
    SkipBlanksAt(s, p, Space(l, depth, m));
    var line := LineAt(s, w);
    var all := StartTagReads(s, w, a, b, t, line, m);
    TagEnds(s, b, all, line);
    var node := P.Element(P.Range(w + 1, a, PLAIN), all, P.Closed, [], line);
    r := P.Parsed(Some(d), node, None, None);
    assert P.ParseElement(s, w + 1, pd, line, OPTIONS) == r;
    assert TreeOf(s, node) == X.Reread(t);
  }

  /** What the children loop must give for a list of printed children: it arrives behind them with
      their nodes added to the ones before. */
  ghost predicate ReadsAll(s: string, p: nat, e: nat, ts: seq<X.Tree>, pd: nat, soFar: seq<P.Node>, all: seq<P.Node>)
    requires Terminated(s) && pd < P.MAX_ELEMENT_DEPTH && p < |s| && e < |s|
  {
    && P.ParseChildren(s, p, pd, false, soFar, OPTIONS) == P.ParseChildren(s, e, pd, false, all, OPTIONS)
    && soFar <= all && TreesOf(s, all[|soFar|..]) == X.RereadAll(ts)
  }

  /** The children of an element. */
  ghost predicate Printable(ts: seq<X.Tree>) {
    (forall t | t in ts :: X.Storable(t) && !t.Declaration?) && X.NoAdjacentText(ts)
  }

  /** What must follow the children: after a text a tag. */
  predicate EndsWell(s: string, e: nat, ts: seq<X.Tree>) {
    e < |s| && (ts != [] && ts[|ts| - 1].IsPlainText() ==> TagFollows(s, e))
  }

  lemma ElementWithChildrenReads(s: string, p: nat, t: X.Tree, depth: nat, l: Layout, m: Mode, pd: nat)
    returns (r: P.Parsed)
    requires Terminated(s) && m.entities && pd + X.Nesting(t) < P.MAX_ELEMENT_DEPTH
    requires t.Element? && t.children != [] && X.Storable(t) && !l.justOpened
    requires At(s, p, PrintNode(t, depth, l, m).0)
    ensures Reads(s, p, pd, t, r)
    ensures r.ret.value + |Tail(t, depth, m)| == p + |PrintNode(t, depth, l, m).0|
    ensures At(s, r.ret.value, Tail(t, depth, m))
    decreases t, 0
  {
    hide At, Str, Space, PrintNode, PrintNodes, P.ParseAttributes, P.ParseDeep, P.KindAt, SkipWS, NameEnd, IsName,
      IsBlank, CloseTag,
      X.Storable, Reads, TreesOf, AttrsOf, P.Raw, X.RereadAll, X.RereadAttrs, FinalNewline, X.Nesting;
    var w, a, b, c, d := ElementShape(s, p, t, depth, l, m);
    var l1 := ElementOpened(l, m);
    var l2 := l1.(justOpened := false);
    var end := PrintNodes(t.children, depth + 1, l1, m).1;
    var inner := PrintNodes(t.children, depth + 1, l2, m).0;
    SealFirst(t.children, depth + 1, l1, m);
    AtSplit(s, b, ">", inner);
    AtIndex(s, b, ">", 0);
    AtIndex(s, w, "<", 0);
    SpaceBlank(l, depth, m);
    SkipBlanksAt(s, p, Space(l, depth, m));
    var line := LineAt(s, w);
    var attrs := StartTagReads(s, w, a, b, t, line, m);
    TagEnds(s, b, attrs, line);
    var nodes, endTag := InnerReads(s, b + 1, c, t, depth, l2, end, m, pd);
    r := Assemble(s, p, w, a, b, d, t, pd, attrs, nodes, endTag);
  }

  /** An element from its parts: start tag, children, end tag. */
  lemma Assemble(s: string, p: nat, w: nat, a: nat, b: nat, d: nat, t: X.Tree, pd: nat,
                 attrs: seq<P.Attribute>, nodes: seq<P.Node>, endTag: P.Range) returns (r: P.Parsed)
    requires Terminated(s) && pd < P.MAX_ELEMENT_DEPTH && t.Element?
    requires p < |s| && SkipWS(s, p) == w && w + 1 < a < |s| && b + 1 < |s| && s[w] == '<'
    requires P.KindAt(s, w) == P.KElement
    requires SkipWS(s, w + 1) == w + 1 && s[w + 1] != '/' && IsNameStartChar(s[w + 1]) && NameEnd(s, w + 1) == a
    requires Str(s, P.Range(w + 1, a, PLAIN)) == P.Raw(s, P.Range(w + 1, a, PLAIN)) == t.name
    requires P.ParseAttributes(s, a, [], LineAt(s, w), OPTIONS) == P.ParsedAttributes(Some(b + 1), attrs, false, None)
    requires AttrsOf(s, attrs) == X.RereadAttrs(t.attributes) && s[b + 1] != NUL
    requires P.ParseDeep(s, b + 1, pd, false, OPTIONS) == P.ParsedChildren(Some(d), Some(endTag), nodes, None)
    requires TreesOf(s, nodes) == X.RereadAll(t.children) && P.Raw(s, endTag) == t.name
    ensures Reads(s, p, pd, t, r) && r.ret == Some(d)
  {
    hide At, Str, P.ParseAttributes, P.ParseDeep, P.KindAt, SkipWS, NameEnd, P.Raw;
    var node := P.Element(P.Range(w + 1, a, PLAIN), attrs, P.Open, nodes, LineAt(s, w));
    r := P.Parsed(Some(d), node, Some(endTag), None);
    assert P.ParseElement(s, w + 1, pd, LineAt(s, w), OPTIONS) == r;
    assert TreeOf(s, node) == X.Reread(t);
  }

  lemma InnerFacts(t: X.Tree)
    requires t.Element? && t.children != [] && X.Storable(t)
    ensures IsName(t.name) && Printable(t.children)
    ensures X.Nesting(t) == 1 + X.MaxNesting(t.children)
  {
    hide X.NoAdjacentText, IsName;
    assert t.children[0] in t.children;
  }

  /** From behind a start tag to behind its end tag. */
  lemma InnerReads(s: string, p: nat, c: nat, t: X.Tree, depth: nat, l: Layout, end: Layout, m: Mode, pd: nat)
    returns (nodes: seq<P.Node>, endTag: P.Range)
    requires Terminated(s) && m.entities && pd + X.Nesting(t) < P.MAX_ELEMENT_DEPTH
    requires t.Element? && t.children != [] && X.Storable(t) && !l.justOpened && Inside(l, depth + 1, m)
    requires At(s, p, PrintNodes(t.children, depth + 1, l, m).0) && c == p + |PrintNodes(t.children, depth + 1, l, m).0|
    requires end == PrintNodes(t.children, depth + 1, l, m).1 && At(s, c, CloseTag(t.name, end, depth, m))
    ensures p < |s| && s[p] != NUL
    ensures P.ParseDeep(s, p, pd, false, OPTIONS)
         == P.ParsedChildren(Some(c + |CloseTag(t.name, end, depth, m)|), Some(endTag), nodes, None)
    ensures TreesOf(s, nodes) == X.RereadAll(t.children) && P.Raw(s, endTag) == t.name
    decreases t.children, 2
  {
    hide At, PrintNodes, P.ParseChildren, SkipWS, CloseTag, IsName, X.Storable, Printable, TreesOf,
      X.Nesting, X.RereadAll, TagFollows, P.Raw;
    var ts := t.children;
    InnerFacts(t);
    if ts[|ts| - 1].IsPlainText() {
      LastTextLayout(ts, depth + 1, l, m);
    }
    CloseTagStart(s, c, t.name, end, depth, m);
    endTag := EndTagReads(s, c, t.name, end, depth, m, pd + 1, []);
    nodes := ChildrenRead(s, p, c, ts, depth + 1, l, m, pd + 1, []);
    assert nodes[0..] == nodes;
    endTag := EndTagReads(s, c, t.name, end, depth, m, pd + 1, nodes);
  }

  lemma NodeReads(s: string, p: nat, t: X.Tree, depth: nat, l: Layout, m: Mode, pd: nat) returns (r: P.Parsed)
    requires Terminated(s) && m.entities && pd + X.Nesting(t) < P.MAX_ELEMENT_DEPTH
    requires X.Storable(t) && !l.justOpened && At(s, p, PrintNode(t, depth, l, m).0)
    requires t.IsPlainText() ==> !IsBlank(t.value) && TagFollows(s, p + |PrintNode(t, depth, l, m).0|)
    ensures Reads(s, p, pd, t, r)
    ensures r.ret.value + |Tail(t, depth, m)| == p + |PrintNode(t, depth, l, m).0|
    ensures At(s, r.ret.value, Tail(t, depth, m))
    decreases t, 1
  {
    hide PrintNode, FinalNewline, X.Storable, Reads;
    if t.IsPlainText() {
      r := TextReads(s, p, t, depth, l, m, pd);
    } else if !t.Element? {
      r := LeafReads(s, p, t, depth, l, m, pd);
    } else if t.children == [] {
      r := EmptyElementReads(s, p, t, depth, l, m, pd);
    } else {
      r := ElementWithChildrenReads(s, p, t, depth, l, m, pd);
    }
  }

  /** Once the pretty printer is past its first node it stays so. */
  lemma {:induction false} FirstStays(ts: seq<X.Tree>, depth: nat, l: Layout, m: Mode)
    requires !m.compact && !l.first
    ensures !PrintNodes(ts, depth, l, m).1.first
    decreases ts, 1
  {
    if ts != [] {
      FirstStaysNode(ts[0], depth, l, m);
      FirstStays(ts[1..], depth, PrintNode(ts[0], depth, l, m).1, m);
    }
  }

  lemma {:induction false} FirstStaysNode(t: X.Tree, depth: nat, l: Layout, m: Mode)
    requires !m.compact && !l.first
    ensures !PrintNode(t, depth, l, m).1.first
    decreases t, 0
  {
    if t.Element? {
      FirstStays(t.children, depth + 1, ElementOpened(l, m), m);
    }
  }

  /** One round of the children loop over a printed node. */
  lemma StepOver(s: string, p: nat, t: X.Tree, pd: nat, atDoc: bool, soFar: seq<P.Node>, r: P.Parsed)
    requires Terminated(s) && pd < P.MAX_ELEMENT_DEPTH && Reads(s, p, pd, t, r)
    requires t.Declaration? ==> P.DeclarationAllowed(atDoc, soFar)
    ensures r.ret.value < |s| && P.ParseChildren(s, p, pd, atDoc, soFar, OPTIONS)
         == P.ParseChildren(s, r.ret.value, pd, atDoc, soFar + [r.node], OPTIONS)
  {
    hide At, Str, SkipWS, P.DeclarationAllowed, P.Mismatched;
    assert r.node.Declaration? ==> t.Declaration?;
  }

  /** Behind a text comes a tag, or what is behind the list. */
  lemma TextFollowed(s: string, p: nat, e: nat, t: X.Tree, rest: seq<X.Tree>, depth: nat, l: Layout, m: Mode)
    requires Terminated(s) && t.IsPlainText() && depth > 0 && Inside(l, depth, m) && !l.justOpened
    requires l.textDepth == depth - 1 && At(s, p, PrintNodes(rest, depth, l, m).0)
    requires e == p + |PrintNodes(rest, depth, l, m).0|
    requires rest == [] ==> TagFollows(s, e)
    requires rest != [] ==> X.Storable(rest[0]) && !rest[0].IsPlainText()
    ensures TagFollows(s, p)
  {
    hide At, PrintNode, X.Storable;
    if rest != [] {
      var a := PrintNode(rest[0], depth, l, m);
      AtSplit(s, p, a.0, PrintNodes(rest[1..], depth, a.1, m).0);
      var w := NodeStartsTag(s, p, rest[0], depth, l, m);
    }
  }

  lemma TreesOfCons(s: string, soFar: seq<P.Node>, n: P.Node, all: seq<P.Node>, ts: seq<X.Tree>)
    requires ts != [] && !ts[0].IsBlankText()
    requires soFar + [n] <= all && TreesOf(s, all[|soFar + [n]|..]) == X.RereadAll(ts[1..])
    requires TreeOf(s, n) == X.Reread(ts[0])
    ensures soFar <= all && TreesOf(s, all[|soFar|..]) == X.RereadAll(ts)
  {
    var tail := all[|soFar|..];
    assert tail[0] == (soFar + [n])[|soFar|] == n && tail[1..] == all[|soFar + [n]|..];
  }

  lemma RestFits(ts: seq<X.Tree>)
    requires ts != [] && Printable(ts)
    ensures Printable(ts[1..]) && X.Storable(ts[0]) && !ts[0].Declaration?
    ensures X.Nesting(ts[0]) <= X.MaxNesting(ts) && X.MaxNesting(ts[1..]) <= X.MaxNesting(ts)
  {
    hide X.Storable, X.Nesting;
    var rest := ts[1..];
    assert ts[0] in ts && forall t | t in rest :: t in ts;
    assert forall i | 0 <= i < |rest| :: rest[i] == ts[i + 1];
  }

  /** The first of some printed children, unless it is a blank text. */
  lemma FirstReads(s: string, p: nat, e: nat, ts: seq<X.Tree>, depth: nat, l: Layout, m: Mode, pd: nat)
    returns (r: P.Parsed)
    requires Terminated(s) && m.entities && pd + X.MaxNesting(ts) < P.MAX_ELEMENT_DEPTH && ts != []
    requires !ts[0].IsBlankText()
    requires depth > 0 && !l.justOpened && Inside(l, depth, m) && Printable(ts)
    requires At(s, p, PrintNodes(ts, depth, l, m).0) && e == p + |PrintNodes(ts, depth, l, m).0|
    requires EndsWell(s, e, ts)
    ensures Reads(s, p, pd, ts[0], r)
    ensures var a := PrintNode(ts[0], depth, l, m);
      r.ret.value + |Tail(ts[0], depth, m)| == p + |a.0| && At(s, r.ret.value, Tail(ts[0], depth, m))
    decreases ts, 0
  {
    hide At, X.Storable, X.NoAdjacentText, Str, FinalNewline, TagFollows, Space, Reads, Escape, EndsWell, Printable,
      PrintNode, PrintNodes;
    FirstFollowed(s, p, e, ts, depth, l, m);
    FirstFacts(ts);
    r := NodeReads(s, p, ts[0], depth, l, m, pd);
  }

  /** Where the first of some printed children stands, and what is behind it. */
  lemma FirstFollowed(s: string, p: nat, e: nat, ts: seq<X.Tree>, depth: nat, l: Layout, m: Mode)
    requires Terminated(s) && ts != [] && depth > 0 && !l.justOpened && Inside(l, depth, m) && Printable(ts)
    requires At(s, p, PrintNodes(ts, depth, l, m).0) && e == p + |PrintNodes(ts, depth, l, m).0|
    requires EndsWell(s, e, ts)
    ensures var a := PrintNode(ts[0], depth, l, m); var e1 := p + |a.0|;
      && At(s, p, a.0) && At(s, e1, PrintNodes(ts[1..], depth, a.1, m).0) && Inside(a.1, depth, m)
      && e == e1 + |PrintNodes(ts[1..], depth, a.1, m).0| && EndsWell(s, e, ts[1..])
      && (ts[0].IsPlainText() ==> TagFollows(s, e1))
  {
    hide At, X.Storable, X.NoAdjacentText, Str, FinalNewline, TagFollows, Space, Escape;
    var t, rest := ts[0], ts[1..];
    var a := PrintNode(t, depth, l, m);
    AtSplit(s, p, a.0, PrintNodes(rest, depth, a.1, m).0);
    FirstFacts(ts);
    if !m.compact {
      FirstStaysNode(t, depth, l, m);
    }
    if t.IsPlainText() {
      TextFollowed(s, p + |a.0|, e, t, rest, depth, a.1, m);
    }
  }

  /** A blank text before a tag is skipped with the blanks of what follows. */
  lemma BlankSkipped(s: string, p: nat, t: X.Tree, depth: nat, l: Layout, m: Mode, pd: nat, atDoc: bool,
      soFar: seq<P.Node>)
    requires Terminated(s) && m.entities && pd < P.MAX_ELEMENT_DEPTH && t.IsBlankText() && !l.justOpened
    requires At(s, p, PrintNode(t, depth, l, m).0) && TagFollows(s, p + |PrintNode(t, depth, l, m).0|)
    ensures p < |s| && s[SkipWS(s, p)] == '<'
    ensures P.ParseChildren(s, p, pd, atDoc, soFar, OPTIONS)
         == P.ParseChildren(s, p + |PrintNode(t, depth, l, m).0|, pd, atDoc, soFar, OPTIONS)
  {
    hide At, P.ParseChildren, Escape, SkipWS;
    var w := Escape(t.value, true);
    assert PrintNode(t, depth, l, m).0 == w;
    BlankEscape(t.value);
    NoSkip(s, p + |w|);
    BlanksIgnored(s, p, w, pd, atDoc, soFar);
    SkipBlanksAt(s, p, w);
  }

  lemma {:induction false} BlankEscape(v: string)
    requires IsBlank(v)
    ensures Escape(v, true) == v
  {
    if v != [] {
      assert IsWhiteSpace(v[0]) && forall c | c in v[1..] :: c in v;
      BlankEscape(v[1..]);
      assert v == [v[0]] + v[1..];
    }
  }

  lemma FirstFacts(ts: seq<X.Tree>)
    requires ts != [] && Printable(ts)
    ensures X.Storable(ts[0]) && X.Nesting(ts[0]) <= X.MaxNesting(ts)
    ensures |ts| > 1 ==> X.Storable(ts[1]) && (ts[0].IsPlainText() ==> !ts[1].IsPlainText())
  {
    hide X.Storable, X.Nesting;
    assert ts[0] in ts && (|ts| > 1 ==> ts[1] in ts);
  }

  /** The children loop over the printed children of an element. */
  lemma ChildrenRead(s: string, p: nat, e: nat, ts: seq<X.Tree>, depth: nat, l: Layout, m: Mode, pd: nat,
      soFar: seq<P.Node>)
    returns (all: seq<P.Node>)
    requires Terminated(s) && m.entities && pd + X.MaxNesting(ts) < P.MAX_ELEMENT_DEPTH
    requires depth > 0 && !l.justOpened && Inside(l, depth, m) && Printable(ts)
    requires At(s, p, PrintNodes(ts, depth, l, m).0) && e == p + |PrintNodes(ts, depth, l, m).0|
    requires EndsWell(s, e, ts)
    ensures p < |s| && ReadsAll(s, p, e, ts, pd, soFar, all)
    ensures ts != [] ==> s[SkipWS(s, p)] != NUL
    decreases ts, 1
  {
    hide At, PrintNode, X.Storable, P.ParseChildren, SkipWS, X.NoAdjacentText, Printable, P.DeclarationAllowed, Str,
      X.Reread, Inside, TagFollows, X.Nesting;
    if ts == [] {
      all := soFar;
    } else {
      var t, rest := ts[0], ts[1..];
      var a := PrintNode(t, depth, l, m);
      var e1 := p + |a.0|;
      FirstFollowed(s, p, e, ts, depth, l, m);
      RestFits(ts);
      if t.IsBlankText() {
        BlankSkipped(s, p, t, depth, l, m, pd, false, soFar);
        all := ChildrenRead(s, e1, e, rest, depth, a.1, m, pd, soFar);
      } else {
        var r := FirstReads(s, p, e, ts, depth, l, m, pd);
        StepOver(s, p, t, pd, false, soFar, r);
        all := ChildrenRead(s, e1, e, rest, depth, a.1, m, pd, soFar + [r.node]);
        TreesOfCons(s, soFar, r.node, all, ts);
      }
    }
  }

  // ---- the ends of a document --------------------------------------------------------------------

  lemma BomAt(s: string, p: nat)
    requires At(s, p, BOM)
    ensures p + 3 <= |s| && !IsWhiteSpace(s[p])
  {
    AtIndex(s, p, BOM, 0);
  }

  lemma NoBomAt(s: string, p: nat)
    requires p < |s| && s[p] == '<'
    ensures !At(s, p, BOM)
  {
    if At(s, p, BOM) { AtIndex(s, p, BOM, 0); }
  }

  lemma EndOfDocument(s: string, e: nat, all: seq<P.Node>)
    requires Terminated(s) && e < |s| && s[e] == NUL
    ensures P.ParseChildren(s, e, 1, true, all, OPTIONS) == P.ParsedChildren(None, None, all, None)
  {
    NoSkip(s, e);
  }
}
