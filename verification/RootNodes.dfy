/** Printing a whole document and parsing the text. The nodes of the document itself differ from the
    children of an element in one thing: what the printer writes between them becomes part of a text
    that stands there. */
module RootNodes {
  import opened XmlUtil
  import opened Decode
  import opened PrinterSpec
  import opened Escaping
  import opened TreeMeaning
  import opened RoundTripLeaves
  import opened RoundTrip
  import P = ParserSpec
  import X = XmlTree

  // ---- the layout between the nodes of the document -----------------------------------------

  /** The printer's state before node i of the document. */
  function RootLayout(ts: seq<X.Tree>, i: nat, m: Mode): Layout
    requires i <= |ts|
  {
    Layout(false, m.compact || !X.Begun(ts, i), -1)
  }

  /** The text depth after a node is the one before, or that of its own children's texts. */
  lemma {:induction false} TextDepthAfter(t: X.Tree, depth: nat, l: Layout, m: Mode)
    ensures var d := PrintNode(t, depth, l, m).1.textDepth;
      d == l.textDepth || d == -1 || (t.Text? && d == depth - 1)
    decreases t, 0
  {
    if t.Element? {
      TextDepthAfterAll(t.children, depth + 1, ElementOpened(l, m), m);
    }
  }

  lemma {:induction false} TextDepthAfterAll(ts: seq<X.Tree>, depth: nat, l: Layout, m: Mode)
    ensures var d := PrintNodes(ts, depth, l, m).1.textDepth; d == l.textDepth || d == -1 || d == depth - 1
    decreases ts, 1
  {
    hide PrintNode;
    if ts != [] {
      TextDepthAfter(ts[0], depth, l, m);
      TextDepthAfterAll(ts[1..], depth, PrintNode(ts[0], depth, l, m).1, m);
    }
  }

  /** The compact printer never leaves its first state. */
  lemma {:induction false} CompactStays(t: X.Tree, depth: nat, l: Layout, m: Mode)
    requires m.compact
    ensures PrintNode(t, depth, l, m).1.first == l.first
    decreases t, 0
  {
    if t.Element? {
      CompactStaysAll(t.children, depth + 1, ElementOpened(l, m), m);
    }
  }

  lemma {:induction false} CompactStaysAll(ts: seq<X.Tree>, depth: nat, l: Layout, m: Mode)
    requires m.compact
    ensures PrintNodes(ts, depth, l, m).1.first == l.first
    decreases ts, 1
  {
    hide PrintNode;
    if ts != [] {
      CompactStays(ts[0], depth, l, m);
      CompactStaysAll(ts[1..], depth, PrintNode(ts[0], depth, l, m).1, m);
    }
  }

  lemma NextBegun(ts: seq<X.Tree>, i: nat)
    requires i < |ts|
    ensures X.Begun(ts, i + 1) <==> X.Begun(ts, i) || !ts[i].Text?
  {
  }

  lemma NextLayout(ts: seq<X.Tree>, i: nat, m: Mode)
    requires i < |ts|
    ensures PrintNode(ts[i], 0, RootLayout(ts, i, m), m).1 == RootLayout(ts, i + 1, m)
  {
    hide X.Begun, PrintAttributes, PrintNodes, Escape, CloseTag, Space;
    var t, l := ts[i], RootLayout(ts, i, m);
    NextBegun(ts, i);
    TextDepthAfter(t, 0, l, m);
    if m.compact {
      CompactStays(t, 0, l, m);
    } else if t.Element? {
      FirstStays(t.children, 1, ElementOpened(l, m), m);
    }
  }

  /** What stands before a node that is no text. */
  lemma SpaceBefore(ts: seq<X.Tree>, i: nat, m: Mode)
    requires i <= |ts|
    ensures Space(RootLayout(ts, i, m), 0, m) == if !m.compact && X.Begun(ts, i) then [LF] else []
  {
    assert Spaces(0) == "" && "\n" + "" == [LF];
  }

  // ---- one node ---------------------------------------------------------------------------------

  /** Nodes i and following have been printed at p, behind what was added to node i - 1, and they end
      the buffer. */
  ghost predicate Stands(s: string, p: nat, ts: seq<X.Tree>, i: nat, m: Mode)
    requires i <= |ts|
  {
    var before, out := X.LineBefore(ts, i, !m.compact), PrintNodes(ts[i..], 0, RootLayout(ts, i, m), m).0;
    && At(s, p, before) && At(s, p + |before|, out) && p + |before| + |out| + 1 == |s|
    && s[|s| - 1] == NUL
  }

  /** Without what was added. */
  ghost predicate StandsAt(s: string, p: nat, ts: seq<X.Tree>, i: nat, m: Mode)
    requires i <= |ts|
  {
    var out := PrintNodes(ts[i..], 0, RootLayout(ts, i, m), m).0;
    At(s, p, out) && p + |out| + 1 == |s| && s[|s| - 1] == NUL
  }

  lemma NodeAndRest(s: string, p: nat, ts: seq<X.Tree>, i: nat, m: Mode)
    requires i < |ts| && StandsAt(s, p, ts, i, m)
    ensures var a := PrintNode(ts[i], 0, RootLayout(ts, i, m), m);
      At(s, p, a.0) && StandsAt(s, p + |a.0|, ts, i + 1, m)
  {
    hide At, PrintNode, RootLayout;
    var a := PrintNode(ts[i], 0, RootLayout(ts, i, m), m);
    NextLayout(ts, i, m);
    assert ts[i..][0] == ts[i] && ts[i..][1..] == ts[i + 1..];
    AtSplit(s, p, a.0, PrintNodes(ts[i + 1..], 0, a.1, m).0);
  }

  /** The nodes of a document, as far as printing them goes. */
  ghost predicate Roots(ts: seq<X.Tree>) {
    && (forall t | t in ts :: X.Storable(t)) && X.NoAdjacentText(ts) && X.DeclarationsFirst(ts)
    && X.MaxNesting(ts) <= 498
  }

  lemma RootFacts(ts: seq<X.Tree>, i: nat)
    requires Roots(ts) && i < |ts|
    ensures X.Storable(ts[i]) && X.Nesting(ts[i]) <= 498
    ensures i + 1 < |ts| && ts[i].IsPlainText() ==> !ts[i + 1].IsPlainText()
  {
    hide X.Storable, X.Nesting;
    assert ts[i] in ts;
  }

  /** Where the next node's tag is, or the end of the buffer. */
  lemma NextTag(s: string, p: nat, ts: seq<X.Tree>, i: nat, m: Mode) returns (w: nat, blanks: string)
    requires Terminated(s) && Roots(ts) && i <= |ts| && StandsAt(s, p, ts, i, m) && (i < |ts| ==> !ts[i].IsPlainText())
    ensures w == p + |blanks| < |s| && At(s, p, blanks) && IsBlank(blanks) && SkipWS(s, p) == w
    ensures if i == |ts| then s[w] == NUL && w == p else TagFollows(s, w)
    ensures blanks == if i < |ts| && !ts[i].Text? && !m.compact && X.Begun(ts, i) then [LF] else []
  {
    hide At, PrintNode, RootLayout, X.Storable, X.Begun, Space, SkipWS, IsBlank, Roots;
    if i == |ts| {
      w, blanks := p, [];
      NoSkip(s, p);
      NothingBlank();
      NothingAt(s, p);
    } else {
      var l := RootLayout(ts, i, m);
      NodeAndRest(s, p, ts, i, m);
      RootFacts(ts, i);
      Sealed(ts, i, m);
      w := NodeStartsTag(s, p, ts[i], 0, l, m);
      blanks := Blanks(ts[i], 0, l, m);
      SpaceBefore(ts, i, m);
      SpaceBlank(l, 0, m);
      NothingBlank();
      SkipBlanksAt(s, p, blanks);
    }
  }

  lemma NothingBlank()
    ensures IsBlank("") && IsBlank([LF])
  {
  }

  lemma NothingAt(s: string, p: nat)
    requires p <= |s|
    ensures At(s, p, [])
  {
  }

  lemma Sealed(ts: seq<X.Tree>, i: nat, m: Mode)
    requires i <= |ts|
    ensures !RootLayout(ts, i, m).justOpened
  {
  }

  // ---- texts -----------------------------------------------------------------------------------------

  lemma {:induction false} EscapeConcat(u: string, v: string, restricted: bool)
    ensures Escape(u + v, restricted) == Escape(u, restricted) + Escape(v, restricted)
  {
    hide EscapeChar;
    if u == [] {
      assert u + v == v;
    } else {
      assert (u + v)[1..] == u[1..] + v;
      EscapeConcat(u[1..], v, restricted);
      Regroup(EscapeChar(u[0], restricted), Escape(u[1..], restricted), Escape(v, restricted));
    }
  }

  /** The text and what is added to it are read as one text. */
  lemma PaddedEscape(v: string, a: string, b: string)
    requires IsBlank(a) && IsBlank(b)
    ensures Escape(a + v + b, true) == a + Escape(v, true) + b
  {
    hide Escape;
    EscapeConcat(a + v, b, true);
    EscapeConcat(a, v, true);
    BlankEscape(a);
    BlankEscape(b);
  }

  lemma PaddedNotBlank(v: string, a: string, b: string)
    requires !IsBlank(v)
    ensures !IsBlank(a + v + b)
  {
    var c :| c in v && !IsWhiteSpace(c);
    assert c in a + v + b;
  }

  /** Where a text and what was added to it stand. */
  lemma RootTextStands(s: string, p: nat, ts: seq<X.Tree>, i: nat, m: Mode) returns (text: X.Tree, p1: nat, b: string)
    requires Terminated(s) && m.entities && Roots(ts) && i + 1 < |ts| && Stands(s, p, ts, i, m)
    requires ts[i].IsPlainText() && !IsBlank(ts[i].value)
    ensures text == X.PaddedAt(ts, i, !m.compact) && text.IsPlainText() && !IsBlank(text.value) && X.Storable(text)
    ensures StandsAt(s, p1, ts, i + 1, m) && At(s, p, Escape(text.value, true)) && At(s, p1, b) && IsBlank(b)
    ensures p1 + |b| == p + |Escape(text.value, true)| && TagFollows(s, p1 + |b|)
  {
    hide At, PrintNode, RootLayout, X.Storable, X.Begun, SkipWS, IsBlank, Roots, Escape, StandsAt, X.Unix, Stands;
    var v, a := ts[i].value, X.LineBefore(ts, i, !m.compact);
    var w := Escape(v, true);
    RootFacts(ts, i);
    TextOutput(ts, i, m);
    StandsSplit(s, p, ts, i, m);
    NodeAndRest(s, p + |a|, ts, i, m);
    p1 := p + |a| + |w|;
    var tag;
    tag, b := NextTag(s, p1, ts, i + 1, m);
    NextBegun(ts, i);
    assert b == X.LineAfter(ts, i, !m.compact);
    NothingBlank();
    PaddedEscape(v, a, b);
    AtSplit3(s, p, a, w, b);
    PaddedNotBlank(v, a, b);
    text := X.Text(a + v + b, false);
    StorableText(v, a, b);
  }

  /** A text at p, with what was added before and after it, in one round of the loop. */
  lemma RootTextReads(s: string, p: nat, ts: seq<X.Tree>, i: nat, m: Mode, soFar: seq<P.Node>)
    returns (node: P.Node, p1: nat)
    requires Terminated(s) && m.entities && Roots(ts) && i + 1 < |ts| && Stands(s, p, ts, i, m)
    requires ts[i].IsPlainText() && !IsBlank(ts[i].value)
    ensures !node.Declaration? && TreeOf(s, node) == X.Reread(X.PaddedAt(ts, i, !m.compact))
    ensures !X.PaddedAt(ts, i, !m.compact).IsBlankText()
    ensures StandsAt(s, p1, ts, i + 1, m) && p < |s| && p1 < |s|
    ensures P.ParseChildren(s, p, 1, true, soFar, OPTIONS) == P.ParseChildren(s, p1, 1, true, soFar + [node], OPTIONS)
  {
    hide At, X.Storable, X.PaddedAt, SkipWS, IsBlank, Roots, Escape, StandsAt, Stands, P.ParseChildren, Reads;
    var text, b;
    text, p1, b := RootTextStands(s, p, ts, i, m);
    var r := PaddedReads(s, p, text);
    StepOver(s, p, text, 1, true, soFar, r);
    node := r.node;
    KindKept(s, p, text, r);
    NoSkip(s, p1 + |b|);
    BlanksIgnored(s, p1, b, 1, true, soFar + [node]);
  }

  lemma KindKept(s: string, p: nat, t: X.Tree, r: P.Parsed)
    requires Terminated(s) && Reads(s, p, 1, t, r) && t.Text?
    ensures !r.node.Declaration? && TreeOf(s, r.node) == X.Reread(t)
  {
  }

  lemma StorableText(v: string, a: string, b: string)
    requires X.Storable(X.Text(v, false)) && IsBlank(a) && IsBlank(b)
    ensures X.Storable(X.Text(a + v + b, false)) && X.Text(a + v + b, false).IsPlainText()
  {
    assert !IsWhiteSpace(NUL);
  }

  lemma PaddedReads(s: string, p: nat, t: X.Tree) returns (r: P.Parsed)
    requires Terminated(s) && t.IsPlainText() && !IsBlank(t.value) && X.Storable(t)
    requires At(s, p, Escape(t.value, true)) && TagFollows(s, p + |Escape(t.value, true)|)
    ensures Reads(s, p, 1, t, r) && r.ret == Some(p + |Escape(t.value, true)|)
  {
    hide At, Reads, X.Storable, IsBlank, Escape;
    var m := Mode(true, true);
    assert PrintNode(t, 0, START, m).0 == Escape(t.value, true) by {
      assert Seal(START) + Escape(t.value, true) == Escape(t.value, true);
    }
    r := TextReads(s, p, t, 0, START, m, 1);
  }

  lemma TextOutput(ts: seq<X.Tree>, i: nat, m: Mode)
    requires i < |ts| && ts[i].IsPlainText() && m.entities
    ensures PrintNode(ts[i], 0, RootLayout(ts, i, m), m).0 == Escape(ts[i].value, true)
  {
    hide X.Begun, Escape;
    var w := Escape(ts[i].value, true);
    assert Seal(RootLayout(ts, i, m)) + w == w;
  }

  lemma StandsSplit(s: string, p: nat, ts: seq<X.Tree>, i: nat, m: Mode)
    requires i <= |ts| && Stands(s, p, ts, i, m)
    ensures At(s, p, X.LineBefore(ts, i, !m.compact)) && StandsAt(s, p + |X.LineBefore(ts, i, !m.compact)|, ts, i, m)
  {
  }

  lemma StandsJoin(s: string, p: nat, ts: seq<X.Tree>, i: nat, m: Mode)
    requires i <= |ts| && At(s, p, X.LineBefore(ts, i, !m.compact))
    requires StandsAt(s, p + |X.LineBefore(ts, i, !m.compact)|, ts, i, m)
    ensures Stands(s, p, ts, i, m)
  {
  }

  /** A text with no tag behind it is an error. */
  lemma LastTextFails(s: string, p: nat, ts: seq<X.Tree>, i: nat, m: Mode, soFar: seq<P.Node>)
    requires Terminated(s) && m.entities && Roots(ts) && i + 1 == |ts| && Stands(s, p, ts, i, m)
    requires ts[i].IsPlainText() && !IsBlank(ts[i].value)
    ensures p < |s| && P.ParseChildren(s, p, 1, true, soFar, OPTIONS).err.Some?
  {
    hide At, PrintNode, RootLayout, X.Storable, X.Begun, IsBlank, Roots, Escape, X.Unix;
    var v, a := ts[i].value, X.LineBefore(ts, i, !m.compact);
    RootFacts(ts, i);
    TextOutput(ts, i, m);
    StandsSplit(s, p, ts, i, m);
    NodeAndRest(s, p + |a|, ts, i, m);
    assert ts[i + 1..] == [];
    NothingBlank();
    assert v + [] == v && a + v + [] == a + v && a + Escape(v, true) + [] == a + Escape(v, true);
    PaddedEscape(v, a, []);
    PaddedNotBlank(v, a, []);
    StorableText(v, a, []);
    AtSplit(s, p, a, Escape(v, true));
    Unterminated(s, p, a + v);
  }

  lemma Unterminated(s: string, p: nat, v: string)
    requires Terminated(s) && X.Storable(X.Text(v, false)) && !IsBlank(v)
    requires At(s, p, Escape(v, true)) && p + |Escape(v, true)| + 1 == |s|
    ensures p < |s| && s[SkipWS(s, p)] != NUL && P.ParseNode(s, p, 1, OPTIONS).err.Some?
  {
    hide At, Escape, IsBlank, SkipWS;
    TextIdentified(s, p, v);
    EscapedFree(v, true, '<');
    NeverFound(s, p, Escape(v, true));
  }

  lemma NeverFound(s: string, p: nat, w: string)
    requires Terminated(s) && At(s, p, w) && p + |w| + 1 == |s| && X.FreeOf(w, ['<'])
    ensures FindTag(s, p, "<") == None
  {
    forall k | p <= k < p + |w| ensures s[k] != '<' {
      assert !At(w, k - p, ['<']);
      AtIndex(s, p, w, k - p);
      HeadSame(w, k - p);
    }
    NoTagFound(s, p);
  }

  lemma HeadSame(w: string, i: nat)
    requires i < |w| && !At(w, i, ['<'])
    ensures w[i] != '<'
  {
    if w[i] == '<' { AtSlice(w, i, ['<']); }
  }

  lemma {:induction false} NoTagFound(s: string, p: nat)
    requires Terminated(s) && p < |s| && forall k | p <= k < |s| - 1 :: s[k] != '<'
    ensures FindTag(s, p, "<") == None
    decreases |s| - p
  {
    if s[p] != NUL {
      if At(s, p, "<") { AtIndex(s, p, "<", 0); }
      NoTagFound(s, p + 1);
    }
  }

  // ---- the loop over the nodes of the document -----------------------------------------------------------

  lemma RestSplit(ts: seq<X.Tree>, i: nat, pretty: bool)
    requires i < |ts|
    ensures var q := X.Padded(ts, pretty);
      && q[i..] == [X.PaddedAt(ts, i, pretty)] + q[i + 1..] && q[i..][1..] == q[i + 1..]
      && ts[i..] == [ts[i]] + ts[i + 1..]
  {
  }

  /** A declaration may come only after declarations. */
  predicate DeclarationsFit(soFar: seq<P.Node>, ts: seq<X.Tree>, i: nat)
    requires i <= |ts|
  {
    i < |ts| && ts[i].Declaration? ==> forall n | n in soFar :: n.Declaration?
  }

  lemma FitsNext(soFar: seq<P.Node>, ts: seq<X.Tree>, i: nat, n: P.Node)
    requires Roots(ts) && i < |ts| && DeclarationsFit(soFar, ts, i) && n.Declaration? == ts[i].Declaration?
    ensures DeclarationsFit(soFar + [n], ts, i + 1) && (ts[i].Declaration? ==> P.DeclarationAllowed(true, soFar))
    ensures !ts[i].Declaration? ==> DeclarationsFit(soFar, ts, i + 1)
  {
    hide X.Storable;
  }

  lemma PlainPadded(ts: seq<X.Tree>, i: nat, pretty: bool)
    requires i < |ts|
    ensures !ts[i].IsPlainText() || IsBlank(ts[i].value) ==> X.PaddedAt(ts, i, pretty) == ts[i]
  {
  }

  /** A node that is no plain text, in one round. */
  lemma RootNodeReads(s: string, p: nat, ts: seq<X.Tree>, i: nat, m: Mode, soFar: seq<P.Node>)
    returns (node: P.Node, p1: nat)
    requires Terminated(s) && m.entities && Roots(ts) && i < |ts| && Stands(s, p, ts, i, m) && !ts[i].IsPlainText()
    requires DeclarationsFit(soFar, ts, i)
    ensures node.Declaration? == ts[i].Declaration? && TreeOf(s, node) == X.Reread(ts[i])
    ensures Stands(s, p1, ts, i + 1, m) && p < |s| && p1 < |s|
    ensures P.ParseChildren(s, p, 1, true, soFar, OPTIONS) == P.ParseChildren(s, p1, 1, true, soFar + [node], OPTIONS)
  {
    hide At, PrintNode, RootLayout, X.Storable, X.Begun, SkipWS, IsBlank, Roots, StandsAt, Stands, P.ParseChildren,
      Reads, X.Reread, TreeOf, P.DeclarationAllowed;
    var a := X.LineBefore(ts, i, !m.compact);
    var p0 := p + |a|;
    StandsSplit(s, p, ts, i, m);
    NothingBlank();
    var w, blanks := NextTag(s, p0, ts, i, m);
    BlanksIgnored(s, p, a, 1, true, soFar);
    NodeAndRest(s, p0, ts, i, m);
    RootFacts(ts, i);
    Sealed(ts, i, m);
    var r := NodeReads(s, p0, ts[i], 0, RootLayout(ts, i, m), m, 1);
    NodeKept(s, p0, ts[i], r);
    node, p1 := r.node, r.ret.value;
    FitsNext(soFar, ts, i, node);
    StepOver(s, p0, ts[i], 1, true, soFar, r);
    TailIsLine(ts, i, m);
    StandsJoin(s, p1, ts, i + 1, m);
  }

  lemma NodeKept(s: string, p: nat, t: X.Tree, r: P.Parsed)
    requires Terminated(s) && Reads(s, p, 1, t, r)
    ensures r.ret.Some? && TreeOf(s, r.node) == X.Reread(t) && r.node.Declaration? == t.Declaration?
  {
  }

  lemma TailIsLine(ts: seq<X.Tree>, i: nat, m: Mode)
    requires i < |ts|
    ensures Tail(ts[i], 0, m) == X.LineBefore(ts, i + 1, !m.compact)
  {
    assert "\n" == [LF];
  }

  /** A blank text goes with the blanks around it. */
  lemma RootBlankIgnored(s: string, p: nat, ts: seq<X.Tree>, i: nat, m: Mode, soFar: seq<P.Node>) returns (p1: nat)
    requires Terminated(s) && m.entities && Roots(ts) && i < |ts| && Stands(s, p, ts, i, m) && ts[i].IsBlankText()
    ensures Stands(s, p1, ts, i + 1, m) && p < |s| && p1 < |s|
    ensures P.ParseChildren(s, p, 1, true, soFar, OPTIONS) == P.ParseChildren(s, p1, 1, true, soFar, OPTIONS)
  {
    hide At, PrintNode, RootLayout, X.Storable, X.Begun, SkipWS, IsBlank, Roots, StandsAt, Stands, P.ParseChildren,
      Escape;
    var a, w := X.LineBefore(ts, i, !m.compact), Escape(ts[i].value, true);
    StandsSplit(s, p, ts, i, m);
    TextOutput(ts, i, m);
    NodeAndRest(s, p + |a|, ts, i, m);
    RootFacts(ts, i);
    p1 := p + |a| + |w|;
    var tag, blanks := NextTag(s, p1, ts, i + 1, m);
    BlankEscape(ts[i].value);
    NothingBlank();
    BlanksTogether(a, w);
    AtSplit(s, p, a, w);
    BlanksIgnored(s, p, a + w, 1, true, soFar);
    TailIsLine(ts, i, m);
    NothingAt(s, p1);
    StandsJoin(s, p1, ts, i + 1, m);
  }

  lemma BlanksTogether(a: string, b: string)
    requires IsBlank(a) && IsBlank(b)
    ensures IsBlank(a + b)
  {
  }

  /** All nodes from i on: they are read as what storing leaves of them, padded; but a text at the end
      is an error. */
  lemma {:induction false} RootsRead(s: string, p: nat, ts: seq<X.Tree>, i: nat, m: Mode, soFar: seq<P.Node>)
    returns (all: seq<P.Node>)
    requires Terminated(s) && m.entities && Roots(ts) && i <= |ts| && Stands(s, p, ts, i, m)
    requires DeclarationsFit(soFar, ts, i) && !(i == |ts| && X.EndsInText(ts))
    ensures p < |s|
    ensures var c := P.ParseChildren(s, p, 1, true, soFar, OPTIONS);
      if X.EndsInText(ts) then c.err.Some?
      else c == P.ParsedChildren(None, None, all, None) && soFar <= all &&
           TreesOf(s, all[|soFar|..]) == X.RereadAll(X.Padded(ts, !m.compact)[i..])
    decreases |ts| - i
  {
    hide Stands, StandsAt, Roots, DeclarationsFit, IsBlank, X.Reread, TreeOf, X.PaddedAt, P.ParseChildren, X.Padded,
      At, X.Begun;
    if i == |ts| {
      all := soFar;
      NothingLeft(s, p, ts, m, soFar);
    } else {
      RestSplit(ts, i, !m.compact);
      PlainPadded(ts, i, !m.compact);
      if !ts[i].IsPlainText() {
        var node, p1 := RootNodeReads(s, p, ts, i, m, soFar);
        FitsNext(soFar, ts, i, node);
        all := RootsRead(s, p1, ts, i + 1, m, soFar + [node]);
        AddTree(s, ts, i, !m.compact, soFar, node, all);
      } else if IsBlank(ts[i].value) {
        var p1 := RootBlankIgnored(s, p, ts, i, m, soFar);
        FitsNext(soFar, ts, i, P.Text(P.Range(0, 0, PLAIN), false, 0));
        all := RootsRead(s, p1, ts, i + 1, m, soFar);
        AddNothing(ts, i, !m.compact);
      } else if i + 1 == |ts| {
        LastTextFails(s, p, ts, i, m, soFar);
        all := soFar;
      } else {
        var node, p1 := RootTextReads(s, p, ts, i, m, soFar);
        FitsNext(soFar, ts, i, node);
        NoLineBehindText(s, p1, ts, i, m);
        all := RootsRead(s, p1, ts, i + 1, m, soFar + [node]);
        AddTree(s, ts, i, !m.compact, soFar, node, all);
      }
    }
  }

  lemma NoLineBehindText(s: string, p1: nat, ts: seq<X.Tree>, i: nat, m: Mode)
    requires i < |ts| && ts[i].Text? && p1 < |s| && StandsAt(s, p1, ts, i + 1, m)
    ensures Stands(s, p1, ts, i + 1, m)
  {
    hide StandsAt, Stands;
    NothingAt(s, p1);
    StandsJoin(s, p1, ts, i + 1, m);
  }

  lemma NothingLeft(s: string, p: nat, ts: seq<X.Tree>, m: Mode, soFar: seq<P.Node>)
    requires Terminated(s) && Roots(ts) && Stands(s, p, ts, |ts|, m)
    ensures p < |s| && P.ParseChildren(s, p, 1, true, soFar, OPTIONS) == P.ParsedChildren(None, None, soFar, None)
    ensures TreesOf(s, soFar[|soFar|..]) == X.RereadAll(X.Padded(ts, !m.compact)[|ts|..])
  {
    hide At, Roots, StandsAt, Stands, P.ParseChildren, IsBlank, SkipWS, X.Padded, X.LineBefore;
    var a := X.LineBefore(ts, |ts|, !m.compact);
    LineIsBlank(ts, |ts|, !m.compact);
    StandsSplit(s, p, ts, |ts|, m);
    var w, b := NextTag(s, p + |a|, ts, |ts|, m);
    BlanksIgnored(s, p, a, 1, true, soFar);
    EndOfDocument(s, w, soFar);
  }

  lemma LineIsBlank(ts: seq<X.Tree>, i: nat, pretty: bool)
    requires i <= |ts|
    ensures IsBlank(X.LineBefore(ts, i, pretty))
  {
  }

  lemma AddTree(s: string, ts: seq<X.Tree>, i: nat, pretty: bool, soFar: seq<P.Node>, n: P.Node, all: seq<P.Node>)
    requires i < |ts| && TreeOf(s, n) == X.Reread(X.PaddedAt(ts, i, pretty)) && !X.PaddedAt(ts, i, pretty).IsBlankText()
    ensures soFar + [n] <= all && TreesOf(s, all[|soFar + [n]|..]) == X.RereadAll(X.Padded(ts, pretty)[i + 1..])
      ==> soFar <= all && TreesOf(s, all[|soFar|..]) == X.RereadAll(X.Padded(ts, pretty)[i..])
  {
    hide X.PaddedAt, X.Reread, TreeOf, IsBlank;
    RestSplit(ts, i, pretty);
    var q := X.Padded(ts, pretty)[i..];
    if soFar + [n] <= all && TreesOf(s, all[|soFar + [n]|..]) == X.RereadAll(q[1..]) {
      TreesOfCons(s, soFar, n, all, q);
    }
  }

  lemma AddNothing(ts: seq<X.Tree>, i: nat, pretty: bool)
    requires i < |ts| && ts[i].IsBlankText()
    ensures X.RereadAll(X.Padded(ts, pretty)[i..]) == X.RereadAll(X.Padded(ts, pretty)[i + 1..])
  {
    RestSplit(ts, i, pretty);
    PlainPadded(ts, i, pretty);
    var q := X.Padded(ts, pretty)[i..];
    assert X.RereadAll(q) == [] + X.RereadAll(q[1..]);
  }

  // ---- the start of the document ------------------------------------------------------------------------

  /** Escaping leaves a mark that has no character of the entity table where it is. */
  lemma {:induction false} MarkUnescaped(s: string, p: nat, w: string, mark: string)
    requires At(s, p, Escape(w, true)) && forall c | c in mark :: !Flagged(c, true) && c != '&' && c != '<' && c != NUL
    requires p + |Escape(w, true)| < |s| && s[p + |Escape(w, true)|] in ['<', NUL]
    ensures At(s, p, mark) <==> mark <= w
    ensures mark <= w ==> Escape(w, true) == mark + Escape(w[|mark|..], true)
    decreases |mark|
  {
    hide Escape;
    if mark == [] {
      NothingAt(s, p);
      assert w[0..] == w;
    } else {
      assert mark[0] in mark && forall c | c in mark[1..] :: c in mark;
      EmptyEscape(true);
      if w == [] {
        assert s[p + 0] != mark[0];
      } else if w[0] == mark[0] {
        MarkHead(s, p, w, mark);
        MarkUnescaped(s, p + 1, w[1..], mark[1..]);
        assert mark <= w <==> mark[1..] <= w[1..];
        if mark <= w { assert w[1..][|mark[1..]|..] == w[|mark|..] && mark == [mark[0]] + mark[1..]; }
      } else {
        OtherHead(s, p, w, mark);
      }
    }
  }

  /** The same first character. */
  lemma MarkHead(s: string, p: nat, w: string, mark: string)
    requires w != [] && mark != [] && w[0] == mark[0] && !Flagged(w[0], true) && At(s, p, Escape(w, true))
    ensures Escape(w, true) == [w[0]] + Escape(w[1..], true) && At(s, p + 1, Escape(w[1..], true))
    ensures At(s, p, mark) <==> At(s, p + 1, mark[1..])
  {
    AtSplit(s, p, [w[0]], Escape(w[1..], true));
    assert mark == [mark[0]] + mark[1..];
    AtSplit(s, p, [mark[0]], mark[1..]);
  }

  /** Another first character, escaped or not. */
  lemma OtherHead(s: string, p: nat, w: string, mark: string)
    requires At(s, p, Escape(w, true)) && w != [] && mark != [] && w[0] != mark[0] && mark[0] != '&'
    ensures !At(s, p, mark)
  {
    var e := EscapeChar(w[0], true);
    AtSplit(s, p, e, Escape(w[1..], true));
    AtIndex(s, p, e, 0);
    assert s[p + 0] != mark[0];
  }

  /** Where Parse() starts: past blanks and the mark, in front of the nodes of the started document. */
  lemma DocumentStart(s: string, d: X.Doc, m: Mode) returns (p: nat)
    requires m.entities && Roots(d.children) && s == PrintDocument(d, m) + [NUL]
    ensures var f := X.Started(d);
      && Terminated(s) && Roots(f.children) && StandsAt(s, p, f.children, 0, m) && p < |s|
      && P.ParseDocument(s, OPTIONS) == P.DocumentFrom(s, p, f.bom, OPTIONS)
  {
    hide At, Roots, StandsAt, P.DocumentFrom, PrintNodes, Escape;
    var ts := d.children;
    var out := PrintNodes(ts, 0, START, m).0;
    AtSlice(s, 0, if d.bom then BOM + out else out);
    if d.bom {
      AtSplit(s, 0, BOM, out);
      BomAt(s, 0);
      NoSkip(s, 0);
      p := 3;
      StandsFirst(s, 3, ts, m);
    } else {
      assert PrintDocument(d, m) == [] + out == out;
      StandsFirst(s, 0, ts, m);
      if ts == [] || !ts[0].IsPlainText() {
        p := 0;
        TagFirst(s, ts, m);
      } else {
        p := TextFirst(s, d, m);
      }
    }
  }

  lemma StandsFirst(s: string, p: nat, ts: seq<X.Tree>, m: Mode)
    requires At(s, p, PrintNodes(ts, 0, START, m).0) && p + |PrintNodes(ts, 0, START, m).0| + 1 == |s|
    requires s[|s| - 1] == NUL
    ensures StandsAt(s, p, ts, 0, m) && Terminated(s)
  {
    hide PrintNodes;
    assert ts[0..] == ts && RootLayout(ts, 0, m) == START;
  }

  lemma TagFirst(s: string, ts: seq<X.Tree>, m: Mode)
    requires Terminated(s) && Roots(ts) && StandsAt(s, 0, ts, 0, m) && (ts != [] ==> !ts[0].IsPlainText())
    ensures SkipWS(s, 0) == 0 && !At(s, 0, BOM)
  {
    hide Roots, StandsAt;
    var w, blanks := NextTag(s, 0, ts, 0, m);
    NoMark(s, 0);
  }

  lemma NoMark(s: string, p: nat)
    requires p < |s| && (s[p] == '<' || s[p] == NUL)
    ensures !At(s, p, BOM)
  {
    assert BOM[0] != '<' && BOM[0] != NUL && s[p + 0] != BOM[0];
  }

  /** A document that starts with a text. */
  lemma TextFirst(s: string, d: X.Doc, m: Mode) returns (p: nat)
    requires Terminated(s) && m.entities && Roots(d.children) && StandsAt(s, 0, d.children, 0, m)
    requires !d.bom && d.children != [] && d.children[0].IsPlainText()
    ensures var f := X.Started(d);
      && Roots(f.children) && StandsAt(s, p, f.children, 0, m) && p < |s|
      && P.ParseDocument(s, OPTIONS) == P.DocumentFrom(s, p, f.bom, OPTIONS)
  {
    hide At, Roots, StandsAt, P.DocumentFrom, Escape, X.LeftTrimmed, IsBlank, SkipWS, PrintNode, RootLayout;
    var ts := d.children;
    var v := ts[0].value;
    var r := X.LeftTrimmed(v);
    var k := |v| - |r|;
    TextOutput(ts, 0, m);
    NodeAndRest(s, 0, ts, 0, m);
    RootFacts(ts, 0);
    assert v == v[..k] + v[k..];
    EscapeConcat(v[..k], r, true);
    BlankEscape(v[..k]);
    var w := Escape(r, true);
    var p1 := k + |w|;
    var tag, blanks := NextTag(s, p1, ts, 1, m);
    AtSplit(s, 0, v[..k], w);
    NoBlankBefore(ts, m);
    HeadNotBlank(s, k, r);
    SkipBlanksAt(s, 0, v[..k]);
    MarkUnescaped(s, k, r, BOM);
    p := k;
    var first := r;
    if BOM <= r {
      p, first := k + 3, r[3..];
      AtSplit(s, k, BOM, Escape(first, true));
    }
    assert P.ParseDocument(s, OPTIONS) == P.DocumentFrom(s, p, BOM <= r, OPTIONS);
    NewFirst(s, p, ts, first, m);
  }

  /** No node of a document that has only begun with a text is put on a new line. */
  lemma NoBlankBefore(ts: seq<X.Tree>, m: Mode)
    requires ts != [] && ts[0].IsPlainText()
    ensures !X.Begun(ts, 1)
  {
  }

  lemma HeadNotBlank(s: string, p: nat, r: string)
    requires At(s, p, Escape(r, true)) && p + |Escape(r, true)| < |s| && (r == [] || !IsWhiteSpace(r[0]))
    requires !IsWhiteSpace(s[p + |Escape(r, true)|])
    ensures !IsWhiteSpace(s[p])
  {
    if r != [] {
      AtIndex(s, p, Escape(r, true), 0);
      assert Escape(r, true)[0] == EscapeChar(r[0], true)[0];
    }
  }

  /** The rest of the first text in its place. */
  lemma NewFirst(s: string, p: nat, ts: seq<X.Tree>, v: string, m: Mode)
    requires m.entities && Roots(ts) && ts != [] && ts[0].IsPlainText() && NUL !in v
    requires At(s, p, Escape(v, true)) && StandsAt(s, p + |Escape(v, true)|, ts, 1, m)
    ensures var ts' := [X.Text(v, false)] + ts[1..]; Roots(ts') && StandsAt(s, p, ts', 0, m)
  {
    hide At, Escape, PrintNode;
    var ts' := [X.Text(v, false)] + ts[1..];
    OtherText(ts, v);
    assert ts'[1..] == ts[1..] && ts'[0..] == ts' && RootLayout(ts', 1, m) == RootLayout(ts, 1, m);
    TextOutput(ts', 0, m);
    NextLayout(ts', 0, m);
    AtSplit(s, p, Escape(v, true), PrintNodes(ts[1..], 0, RootLayout(ts, 1, m), m).0);
  }

  lemma OtherText(ts: seq<X.Tree>, v: string)
    requires Roots(ts) && ts != [] && ts[0].IsPlainText() && NUL !in v
    ensures Roots([X.Text(v, false)] + ts[1..])
  {
    hide X.Storable;
    var ts' := [X.Text(v, false)] + ts[1..];
    assert ts'[1..] == ts[1..] && X.Nesting(ts'[0]) == 0;
    assert X.Storable(ts'[0]) by { PlainStorable(v); }
    assert forall i | 0 < i < |ts| :: ts'[i] == ts[i] && ts[i] in ts;
    forall t | t in ts' ensures X.Storable(t) {
      if t != ts'[0] { assert t in ts; }
    }
  }

  lemma PlainStorable(v: string)
    requires NUL !in v
    ensures X.Storable(X.Text(v, false))
  {
  }

  // ---- documents -----------------------------------------------------------------------------------------

  /** Printing any storable document, compact or pretty, and parsing the text fails exactly for the
      documents that leave nothing to read or end in a text. All others come back without an error:
      the same nodes, attributes and characters but for line ends, blank texts and what printing adds
      to the texts between the nodes of the document. */
  lemma DocumentReread(d: X.Doc, m: Mode)
    requires X.StorableDoc(d) && m.entities
    ensures var s := PrintDocument(d, m) + [NUL]; var r := P.ParseDocument(s, OPTIONS);
      (r.err == None <==> X.ReadsBack(d)) && (r.err == None ==> DocOf(s, r) == X.RereadDoc(d, !m.compact))
  {
    hide At, PrintNodes, P.ParseChildren, X.Storable, X.DeclarationsFirst, X.NoAdjacentText, SkipWS, Str, X.RereadAll,
      StandsAt, Stands, X.Started, P.ParseDocument, X.Padded, IsBlank;
    var s := PrintDocument(d, m) + [NUL];
    var p := DocumentStart(s, d, m);
    var f := X.Started(d);
    var ts := f.children;
    NothingPrinted(s, p, ts, m);
    if s[p] != NUL {
      NothingAt(s, p);
      NoneBefore(s, p, ts, m);
      var all := RootsRead(s, p, ts, 0, m, []);
      assert X.Padded(ts, !m.compact)[0..] == X.Padded(ts, !m.compact) && all[0..] == all;
    }
  }

  lemma NoneBefore(s: string, p: nat, ts: seq<X.Tree>, m: Mode)
    requires p < |s| && StandsAt(s, p, ts, 0, m)
    ensures Stands(s, p, ts, 0, m) && DeclarationsFit([], ts, 0)
  {
    hide StandsAt, Stands;
    NothingAt(s, p);
    StandsJoin(s, p, ts, 0, m);
  }

  /** The parser finds nothing exactly if nothing was printed. */
  lemma NothingPrinted(s: string, p: nat, ts: seq<X.Tree>, m: Mode)
    requires Terminated(s) && m.entities && Roots(ts) && StandsAt(s, p, ts, 0, m) && p < |s|
    ensures s[p] == NUL <==> ts == [] || ts == [X.Text([], false)]
  {
    hide At, Roots, Escape, PrintNode, X.Begun, IsBlank, SkipWS, StandsAt, RootLayout;
    if ts == [] || !ts[0].IsPlainText() {
      var w, blanks := NextTag(s, p, ts, 0, m);
      FirstTag(s, p, ts, blanks, m);
    } else {
      var w := Escape(ts[0].value, true);
      TextOutput(ts, 0, m);
      NodeAndRest(s, p, ts, 0, m);
      RootFacts(ts, 0);
      EscapeLength(ts[0].value);
      if w == [] {
        var tag, blanks := NextTag(s, p, ts, 1, m);
        NoBlankBefore(ts, m);
        assert |ts| == 1 <==> ts == [ts[0]];
      } else {
        AtIndex(s, p, w, 0);
        EscapedFree(ts[0].value, true, '<');
        assert w[0] in w;
      }
    }
  }

  lemma FirstTag(s: string, p: nat, ts: seq<X.Tree>, blanks: string, m: Mode)
    requires blanks == if 0 < |ts| && !ts[0].Text? && !m.compact && X.Begun(ts, 0) then [LF] else []
    ensures blanks == []
  {
  }

  lemma EscapeLength(v: string)
    ensures Escape(v, true) == [] <==> v == []
  {
  }

  /** So a document survives exactly when it is read back at all, no value has a CR, no text is blank,
      and no text stands where something is added to it or taken from it. */
  lemma DocumentRoundTrip(d: X.Doc, m: Mode)
    requires X.StorableDoc(d) && m.entities
    ensures var s := PrintDocument(d, m) + [NUL]; var r := P.ParseDocument(s, OPTIONS);
      r.err == None && DocOf(s, r) == d <==> X.ReadsBack(d) && X.Survives(d, !m.compact)
  {
    hide PrintDocument, P.ParseDocument, DocOf, X.StorableDoc, X.RereadDoc, X.Survives, X.ReadsBack;
    DocumentReread(d, m);
    X.RereadDocSame(d, !m.compact);
  }

  /** The printer writes a document without nodes as no text at all, or as its mark alone, and the parser
      refuses that. */
  lemma EmptyDocumentLost(bom: bool, m: Mode)
    ensures P.ParseDocument(PrintDocument(X.Doc(bom, []), m) + [NUL], OPTIONS)
         == P.Document(bom, [], Some(P.Error(P.EMPTY_DOCUMENT, 0)))
  {
    var s := PrintDocument(X.Doc(bom, []), m) + [NUL];
    if bom {
      assert s == BOM + [NUL];
      AtSlice(s, 0, BOM);
      BomAt(s, 0);
    } else {
      assert s == [NUL];
    }
    NoSkip(s, 0);
  }
}
