/** How a printed document is laid out: the tags and texts it is made of, in their order, and the line
    feeds and blanks between them. Nothing here speaks of the printer's state. */
module PrintedLayout {
  import opened XmlUtil
  import opened XmlTree
  import opened PrinterSpec
  import RoundTrip

  // ---- the pieces of a document ---------------------------------------------------------

  const ESCAPES: map<char, string> :=
    map['&' := "&amp;", '<' := "&lt;", '>' := "&gt;", '"' := "&quot;", '\'' := "&apos;"]

  /** Quotes are left alone in a text. */
  function Escaped(v: string, inText: bool): string {
    if v == "" then "" else
      (if v[0] in ESCAPES && !(inText && (v[0] == '"' || v[0] == '\'')) then ESCAPES[v[0]] else [v[0]])
      + Escaped(v[1..], inText)
  }

  function Value(v: string, inText: bool, entities: bool): string {
    if entities then Escaped(v, inText) else v
  }

  /** A start tag, an end tag, a tag or leaf that stands for a whole node, or a text, with the number of
      elements around it. */
  datatype Piece =
    | Start(level: nat, text: string)
    | End(level: nat, text: string)
    | Whole(level: nat, text: string, element: bool)
    | Words(level: nat, text: string)
  {
    /** An element of the document ends here. */
    predicate EndsRoot() {
      level == 0 && (End? || (Whole? && element))
    }
  }

  function TagText(name: string, attributes: seq<Attr>, entities: bool): string {
    "<" + name + AttributeTexts(attributes, entities)
  }

  function AttributeTexts(attributes: seq<Attr>, entities: bool): string {
    if attributes == [] then ""
    else
      " " + attributes[0].name + "=\"" + Value(attributes[0].value, false, entities) + "\""
      + AttributeTexts(attributes[1..], entities)
  }

  function Pieces(t: Tree, level: nat, entities: bool): (ps: seq<Piece>)
    ensures ps != []
  {
    match t
    case Element(name, attributes, children) =>
      if children == [] then [Whole(level, TagText(name, attributes, entities) + "/>", true)]
      else
        [Start(level, TagText(name, attributes, entities) + ">")] + AllPieces(children, level + 1, entities)
        + [End(level, "</" + name + ">")]
    case Text(v, cdata) =>
      [Words(level, if cdata then "<![CDATA[" + v + "]]>" else Value(v, true, entities))]
    case Comment(v) => [Whole(level, "<!--" + v + "-->", false)]
    case Declaration(v) => [Whole(level, "<?" + v + "?>", false)]
    case Unknown(v) => [Whole(level, "<!" + v + ">", false)]
  }

  function AllPieces(ts: seq<Tree>, level: nat, entities: bool): seq<Piece> {
    if ts == [] then [] else Pieces(ts[0], level, entities) + AllPieces(ts[1..], level, entities)
  }

  // ---- the layout ------------------------------------------------------------------------

  function Blanks(level: nat): (w: string)
    ensures |w| == 4 * level && forall c | c in w :: c == ' '
  {
    seq(4 * level, _ => ' ')
  }

  /** Text j is the last one, and the element it stands in has not been closed. */
  predicate OpenTextAt(before: seq<Piece>, j: int) {
    && 0 <= j < |before| && before[j].Words? && before[j].level > 0
    && forall k | j < k < |before| ::
      !before[k].Words? && !(before[k].End? && before[k].level == before[j].level - 1)
  }

  predicate InOpenText(before: seq<Piece>) {
    exists j | 0 <= j < |before| :: OpenTextAt(before, j)
  }

  predicate OnlyWords(ps: seq<Piece>) {
    forall x | x in ps :: x.Words?
  }

  /** What pretty printing puts before a piece: a new line with four blanks a level, unless it is a text,
      or the first that is none, or stands behind a text in the same open element. */
  function Lead(before: seq<Piece>, x: Piece): string {
    if x.Words? || OnlyWords(before) || InOpenText(before) then "" else "\n" + Blanks(x.level)
  }

  /** The pretty form of pieces behind others: with a line feed behind each element of the document. */
  function Pretty(before: seq<Piece>, ps: seq<Piece>): string
    decreases |ps|
  {
    if ps == [] then ""
    else
      Lead(before, ps[0]) + ps[0].text + (if ps[0].EndsRoot() then "\n" else "")
      + Pretty(before + [ps[0]], ps[1..])
  }

  function Compact(ps: seq<Piece>): string {
    if ps == [] then "" else ps[0].text + Compact(ps[1..])
  }

  // ---- the pieces as they are printed -------------------------------------------------------

  lemma {:induction false} EscapedSame(v: string, inText: bool)
    ensures Escape(v, inText) == Escaped(v, inText)
  {
    if v != "" {
      EscapedSame(v[1..], inText);
      assert v[0] in ESCAPES ==> ESCAPES[v[0]] == ['&'] + EntityOf(v[0]) + [';'];
    }
  }

  lemma ValueSame(v: string, inText: bool, m: Mode)
    ensures PrintString(v, inText, m) == Value(v, inText, m.entities)
  {
    EscapedSame(v, inText);
  }

  lemma {:induction false} AttributesSame(attributes: seq<Attr>, m: Mode)
    ensures PrintAttributes(attributes, m) == AttributeTexts(attributes, m.entities)
  {
    hide PrintString, Value;
    if attributes != [] {
      ValueSame(attributes[0].value, false, m);
      AttributesSame(attributes[1..], m);
    }
  }

  // ---- the printer's state, from the pieces before ---------------------------------------------

  /** The level of the element that the last text stands in, while that is open; -1 otherwise. */
  function OpenText(before: seq<Piece>): int {
    if before == [] then -1
    else
      var x, d := before[|before| - 1], OpenText(before[..|before| - 1]);
      if x.Words? then x.level - 1 else if x.End? && x.level == d then -1 else d
  }

  lemma {:induction false} OpenTextMeans(before: seq<Piece>)
    ensures OpenText(before) >= -1 && (OpenText(before) >= 0 ==> InOpenText(before))
    ensures forall j | OpenTextAt(before, j) :: OpenText(before) == before[j].level - 1
    decreases |before|
  {
    if before != [] {
      var n := |before| - 1;
      var front, x := before[..n], before[n];
      OpenTextMeans(front);
      forall j | OpenTextAt(before, j) ensures OpenText(before) == before[j].level - 1 {
        if j < n { assert OpenTextAt(front, j); }
      }
      if OpenText(before) >= 0 {
        if x.Words? {
          assert OpenTextAt(before, n);
        } else {
          var j :| 0 <= j < n && OpenTextAt(front, j);
          assert OpenTextAt(before, j);
        }
      }
    }
  }

  /** The printer's state fits the pieces that were printed. */
  ghost predicate Fits(l: Layout, depth: nat, before: seq<Piece>) {
    && !l.justOpened && (l.first <==> OnlyWords(before)) && (l.first ==> depth == 0)
    && l.textDepth == OpenText(before) && l.textDepth < depth
  }

  lemma {:induction false} SpacesSame(n: nat)
    ensures Spaces(n) == Blanks(n)
  {
    if n > 0 {
      SpacesSame(n - 1);
      assert Blanks(n) == "    " + Blanks(n - 1);
    }
  }

  /** What comes before a piece that is no text. */
  lemma LeadSame(l: Layout, depth: nat, before: seq<Piece>, x: Piece, m: Mode)
    requires Fits(l, depth, before) && !x.Words? && x.level == depth && !m.compact
    ensures Space(l, depth, m) == Lead(before, x) && PrinterSpec.Lead(l, depth, m) == Lead(before, x)
    ensures !l.first ==> CloseBlanks(l, depth, m) == Lead(before, x)
  {
    hide InOpenText;
    SpacesSame(depth);
    OpenTextMeans(before);
    if InOpenText(before) { OpenSomewhere(before); }
  }

  lemma OpenSomewhere(before: seq<Piece>)
    requires InOpenText(before)
    ensures OpenText(before) >= 0
  {
    OpenTextMeans(before);
  }

  /** One more piece. */
  lemma OneMore(before: seq<Piece>, x: Piece)
    ensures OnlyWords(before + [x]) <==> OnlyWords(before) && x.Words?
    ensures OpenText(before + [x])
         == if x.Words? then x.level - 1 else if x.End? && x.level == OpenText(before) then -1 else OpenText(before)
    ensures Pretty(before, [x]) == Lead(before, x) + x.text + if x.EndsRoot() then "\n" else ""
  {
    var all := before + [x];
    assert all[..|all| - 1] == before;
    assert forall y | y in before :: y in all;
    assert x in all;
    assert [x][1..] == [];
  }

  lemma {:induction false} PrettyConcat(before: seq<Piece>, a: seq<Piece>, b: seq<Piece>)
    ensures Pretty(before, a + b) == Pretty(before, a) + Pretty(before + a, b)
    decreases |a|
  {
    hide Lead;
    if a == [] {
      assert a + b == b && before + a == before;
    } else {
      PrettyConcat(before + [a[0]], a[1..], b);
      assert (a + b)[0] == a[0] && (a + b)[1..] == a[1..] + b;
      assert before + [a[0]] + a[1..] == before + a;
    }
  }

  // ---- pretty printing -----------------------------------------------------------------------------

  /** A node is printed as its pieces, and the state still fits. */
  ghost predicate Laid(r: (string, Layout), depth: nat, before: seq<Piece>, ps: seq<Piece>) {
    r.0 == Pretty(before, ps) && Fits(r.1, depth, before + ps)
  }

  lemma {:induction false} NodeLaid(t: Tree, depth: nat, l: Layout, m: Mode, before: seq<Piece>)
    requires Fits(l, depth, before) && !m.compact
    ensures Laid(PrintNode(t, depth, l, m), depth, before, Pieces(t, depth, m.entities))
    decreases t, 0
  {
    hide InOpenText, OnlyWords, OpenText, PrintString, Value, PrintAttributes, AttributeTexts, Lead, Pretty;
    match t
    case Element(_, _, children) =>
      if children == [] { EmptyLaid(t, depth, l, m, before); } else { ElementLaid(t, depth, l, m, before); }
    case Text(v, cdata) =>
      var x := Pieces(t, depth, m.entities)[0];
      ValueSame(v, true, m);
      OneMore(before, x);
      TextLead(before, x);
      assert "" + x.text + "" == x.text;
    case _ =>
      var x := Pieces(t, depth, m.entities)[0];
      LeadSame(l, depth, before, x, m);
      OneMore(before, x);
      assert Lead(before, x) + x.text + "" == Lead(before, x) + x.text;
  }

  lemma TextLead(before: seq<Piece>, x: Piece)
    requires x.Words?
    ensures Lead(before, x) == ""
  {
  }

  lemma EmptyLaid(t: Tree, depth: nat, l: Layout, m: Mode, before: seq<Piece>)
    requires Fits(l, depth, before) && !m.compact && t.Element? && t.children == []
    ensures Laid(PrintNode(t, depth, l, m), depth, before, Pieces(t, depth, m.entities))
  {
    hide InOpenText, OnlyWords, OpenText, PrintString, Value, PrintAttributes, AttributeTexts, Lead, Pretty,
      PrinterSpec.Lead;
    var x := Pieces(t, depth, m.entities)[0];
    var lead, tag := Lead(before, x), OpenTag(t, m);
    LeadSame(l, depth, before, x, m);
    AttributesSame(t.attributes, m);
    OneMore(before, x);
    assert lead + tag + [] + "/>" == lead + (tag + "/>");
  }

  lemma {:induction false} ElementLaid(t: Tree, depth: nat, l: Layout, m: Mode, before: seq<Piece>)
    requires Fits(l, depth, before) && !m.compact && t.Element? && t.children != []
    ensures Laid(PrintNode(t, depth, l, m), depth, before, Pieces(t, depth, m.entities))
    decreases t.children, 2
  {
    hide InOpenText, OnlyWords, OpenText, PrintString, Value, PrintAttributes, AttributeTexts, Lead, Pretty, Fits,
      PrinterSpec.Lead, PrintNodes, PrintNode, CloseBlanks;
    var e := m.entities;
    var start, end := Start(depth, TagText(t.name, t.attributes, e) + ">"), End(depth, "</" + t.name + ">");
    var inner := AllPieces(t.children, depth + 1, e);
    var l2 := ElementOpened(l, m).(justOpened := false);
    StartFits(l, depth, m, before, start);
    AllLaid(t.children, depth + 1, l2, m, before + [start]);
    var body := PrintNodes(t.children, depth + 1, l2, m);
    var before2 := before + [start] + inner;
    StartsNot(before, start, inner);
    EndFits(body.1, depth, before2, end);
    ElementPrinted(t, depth, l, m, before, start, before2, end);
    OneMore(before, start);
    OneMore(before2, end);
    PrettyConcat(before, [start], inner + [end]);
    PrettyConcat(before + [start], inner, [end]);
    assert [start] + (inner + [end]) == [start] + inner + [end];
    assert before + ([start] + inner + [end]) == before2 + [end];
    ElementText(Lead(before, start), OpenTag(t, m), body.0, Lead(before2, end), end.text, FinalNewline(depth, m));
  }

  lemma StartFits(l: Layout, depth: nat, m: Mode, before: seq<Piece>, start: Piece)
    requires Fits(l, depth, before) && !m.compact && start.Start?
    ensures Fits(ElementOpened(l, m).(justOpened := false), depth + 1, before + [start])
  {
    hide OnlyWords, OpenText, Pretty;
    OneMore(before, start);
  }

  lemma EndFits(l: Layout, depth: nat, before: seq<Piece>, end: Piece)
    requires Fits(l, depth + 1, before) && end.End? && end.level == depth && !OnlyWords(before)
    ensures Fits(ElementClosed(l, depth), depth, before + [end])
  {
    hide OnlyWords, OpenText, Pretty;
    OneMore(before, end);
  }

  /** The text of an element with children, and the state behind it. */
  lemma ElementPrinted(t: Tree, depth: nat, l: Layout, m: Mode, before: seq<Piece>, start: Piece, before2: seq<Piece>,
      end: Piece)
    requires Fits(l, depth, before) && !m.compact && t.Element? && t.children != []
    requires start == Start(depth, TagText(t.name, t.attributes, m.entities) + ">")
    requires end == End(depth, "</" + t.name + ">") && !OnlyWords(before2)
    requires Fits(PrintNodes(t.children, depth + 1, ElementOpened(l, m).(justOpened := false), m).1, depth + 1, before2)
    ensures var body := PrintNodes(t.children, depth + 1, ElementOpened(l, m).(justOpened := false), m);
      && PrintNode(t, depth, l, m).0 == Lead(before, start) + OpenTag(t, m) + (">" + body.0)
        + (Lead(before2, end) + end.text) + FinalNewline(depth, m)
      && PrintNode(t, depth, l, m).1 == ElementClosed(body.1, depth)
      && start.text == OpenTag(t, m) + ">"
  {
    hide OnlyWords, OpenText, PrintAttributes, AttributeTexts, Lead, PrinterSpec.Lead, PrintNodes, CloseBlanks;
    LeadSame(l, depth, before, start, m);
    AttributesSame(t.attributes, m);
    var l1 := ElementOpened(l, m);
    RoundTrip.SealFirst(t.children, depth + 1, l1, m);
    var body := PrintNodes(t.children, depth + 1, l1.(justOpened := false), m);
    CloseSame(body.1, depth, before2, end, m);
    assert "</" + t.name + ">" == end.text;
    assert Lead(before2, end) + "</" + t.name + ">" == Lead(before2, end) + end.text;
  }

  lemma StartsNot(before: seq<Piece>, start: Piece, inner: seq<Piece>)
    requires start.Start?
    ensures !OnlyWords(before + [start] + inner)
  {
    assert start in before + [start] + inner;
  }

  /** The blanks before an end tag. */
  lemma CloseSame(l: Layout, depth: nat, before: seq<Piece>, end: Piece, m: Mode)
    requires Fits(l, depth + 1, before) && end.End? && end.level == depth && !m.compact && !OnlyWords(before)
    ensures CloseBlanks(l, depth, m) == Lead(before, end)
  {
    hide InOpenText, OnlyWords;
    SpacesSame(depth);
    OpenTextMeans(before);
    if InOpenText(before) { OpenSomewhere(before); }
  }

  lemma ElementText(lead: string, tag: string, body: string, blanks: string, end: string, nl: string)
    ensures lead + tag + (">" + body) + (blanks + end) + nl
         == (lead + (tag + ">") + "") + (body + (blanks + end + nl))
  {
    Regroup(lead, tag, ">");
    Regroup(lead + tag, ">", body);
    Regroup(lead + tag + ">" + body, blanks + end, nl);
    Regroup(lead + tag + ">", body, blanks + end + nl);
  }

  lemma {:induction false} AllLaid(ts: seq<Tree>, depth: nat, l: Layout, m: Mode, before: seq<Piece>)
    requires Fits(l, depth, before) && !m.compact
    ensures Laid(PrintNodes(ts, depth, l, m), depth, before, AllPieces(ts, depth, m.entities))
    decreases ts, 1
  {
    hide PrintNode, Pieces, Pretty, Fits;
    if ts == [] {
      assert before + [] == before;
      NothingLaid(before);
    } else {
      var a := PrintNode(ts[0], depth, l, m);
      var first, rest := Pieces(ts[0], depth, m.entities), AllPieces(ts[1..], depth, m.entities);
      NodeLaid(ts[0], depth, l, m, before);
      AllLaid(ts[1..], depth, a.1, m, before + first);
      PrettyConcat(before, first, rest);
      assert before + first + rest == before + (first + rest);
    }
  }

  lemma NothingLaid(before: seq<Piece>)
    ensures Pretty(before, []) == ""
  {
  }

  // ---- compact printing --------------------------------------------------------------------------------

  lemma {:induction false} CompactConcat(a: seq<Piece>, b: seq<Piece>)
    ensures Compact(a + b) == Compact(a) + Compact(b)
  {
    if a == [] {
      assert a + b == b;
    } else {
      CompactConcat(a[1..], b);
      assert (a + b)[1..] == a[1..] + b;
    }
  }

  lemma CompactOne(x: Piece)
    ensures Compact([x]) == x.text
  {
    assert [x][1..] == [];
  }

  lemma {:induction false} NodeCompact(t: Tree, depth: nat, l: Layout, m: Mode)
    requires m.compact && !l.justOpened
    ensures PrintNode(t, depth, l, m).0 == Compact(Pieces(t, depth, m.entities))
    decreases t, 0
  {
    hide PrintString, Value, PrintAttributes, AttributeTexts, Compact;
    CompactOne(Pieces(t, depth, m.entities)[0]);
    match t
    case Element(_, _, children) =>
      AttributesSame(t.attributes, m);
      if children != [] { ElementCompact(t, depth, l, m); }
    case Text(v, _) => ValueSame(v, true, m);
    case _ =>
  }

  lemma {:induction false} ElementCompact(t: Tree, depth: nat, l: Layout, m: Mode)
    requires m.compact && !l.justOpened && t.Element? && t.children != []
    ensures PrintNode(t, depth, l, m).0 == Compact(Pieces(t, depth, m.entities))
    decreases t.children, 2
  {
    hide PrintString, Value, PrintAttributes, AttributeTexts, Compact, PrintNodes;
    var start := Start(depth, TagText(t.name, t.attributes, m.entities) + ">");
    var inner, end := AllPieces(t.children, depth + 1, m.entities), End(depth, "</" + t.name + ">");
    var l1 := ElementOpened(l, m);
    AttributesSame(t.attributes, m);
    RoundTrip.SealFirst(t.children, depth + 1, l1, m);
    AllCompact(t.children, depth + 1, l1.(justOpened := false), m);
    CompactConcat([start] + inner, [end]);
    CompactConcat([start], inner);
    CompactOne(start);
    CompactOne(end);
  }

  lemma {:induction false} AllCompact(ts: seq<Tree>, depth: nat, l: Layout, m: Mode)
    requires m.compact && !l.justOpened
    ensures PrintNodes(ts, depth, l, m).0 == Compact(AllPieces(ts, depth, m.entities))
    decreases ts, 1
  {
    hide PrintNode, Pieces;
    if ts != [] {
      NodeCompact(ts[0], depth, l, m);
      AllCompact(ts[1..], depth, PrintNode(ts[0], depth, l, m).1, m);
      CompactConcat(Pieces(ts[0], depth, m.entities), AllPieces(ts[1..], depth, m.entities));
    }
  }

  // ---- documents -----------------------------------------------------------------------------------------

  /** What a document is printed as. */
  lemma DocumentLaidOut(d: Doc, m: Mode)
    ensures var ps := AllPieces(d.children, 0, m.entities);
      PrintDocument(d, m)
        == (if d.bom then "\U{EF}\U{BB}\U{BF}" else "") + if m.compact then Compact(ps) else Pretty([], ps)
  {
    hide PrintNodes, AllPieces;
    if m.compact {
      AllCompact(d.children, 0, START, m);
    } else {
      AllLaid(d.children, 0, START, m, []);
    }
  }

  /** The lines of pieces without a text among them. */
  function Lines(ps: seq<Piece>): string {
    if ps == [] then ""
    else "\n" + Blanks(ps[0].level) + ps[0].text + (if ps[0].EndsRoot() then "\n" else "") + Lines(ps[1..])
  }

  /** Without texts, each start tag, end tag, empty tag and leaf is on a line of its own, four blanks a
      level. */
  lemma LinesWithoutText(d: Doc, entities: bool)
    requires forall x | x in AllPieces(d.children, 0, entities) :: !x.Words?
    ensures var ps := AllPieces(d.children, 0, entities); ps != [] ==>
      PrintDocument(d, Mode(false, entities))
        == (if d.bom then BOM else "") + ps[0].text + (if ps[0].EndsRoot() then "\n" else "") + Lines(ps[1..])
  {
    hide Lines, Pretty, PrintDocument, AllPieces;
    var ps := AllPieces(d.children, 0, entities);
    DocumentLaidOut(d, Mode(false, entities));
    if ps != [] {
      FirstLine(ps);
      WordsApart(ps);
      LinesAre([ps[0]], ps[1..]);
    }
  }

  lemma WordsApart(ps: seq<Piece>)
    requires ps != [] && forall x | x in ps :: !x.Words?
    ensures (forall x | x in [ps[0]] :: !x.Words?) && forall x | x in ps[1..] :: !x.Words?
  {
    assert ps[0] in ps && forall x | x in ps[1..] :: x in ps;
  }

  lemma FirstLine(ps: seq<Piece>)
    requires ps != []
    ensures Pretty([], ps) == ps[0].text + (if ps[0].EndsRoot() then "\n" else "") + Pretty([ps[0]], ps[1..])
  {
    hide Lead, Piece.EndsRoot;
    assert [] + [ps[0]] == [ps[0]];
    NoLead(ps[0]);
    assert "" + ps[0].text == ps[0].text;
  }

  lemma NoLead(x: Piece)
    ensures Lead([], x) == ""
  {
    hide InOpenText;
  }

  lemma {:induction false} LinesAre(before: seq<Piece>, ps: seq<Piece>)
    requires before != [] && (forall x | x in before :: !x.Words?) && forall x | x in ps :: !x.Words?
    ensures Pretty(before, ps) == Lines(ps)
    decreases |ps|
  {
    if ps != [] {
      assert before[0] in before && ps[0] in ps && forall x | x in ps[1..] :: x in ps;
      assert !InOpenText(before) && !OnlyWords(before);
      LinesAre(before + [ps[0]], ps[1..]);
    }
  }

  // ---- blanks behind a text ----------------------------------------------------------------------

  lemma LeadMeans(before: seq<Piece>, x: Piece)
    requires !x.Words? && !OnlyWords(before)
    ensures Lead(before, x) == if OpenText(before) >= 0 then "" else "\n" + Blanks(x.level)
  {
    OpenTextMeans(before);
    if InOpenText(before) { OpenSomewhere(before); }
  }

  /** The pieces of "<a>t<b>u</b>". */
  function Mixed(): seq<Piece>
    ensures !OnlyWords(Mixed())
  {
    var ps := [Start(0, "<a>"), Words(1, "t"), Start(1, "<b>"), Words(2, "u"), End(1, "</b>")];
    assert ps[0] in ps;
    ps
  }

  /** In an element with a text nothing is added, until an element in it that has a text itself has been
      closed: then lines start anew. So it is in "<a>t<b>u</b>", before "<b>" and behind "</b>". */
  lemma LayoutResumes()
    ensures Lead([Start(0, "<a>"), Words(1, "t")], Start(1, "<b>")) == ""
    ensures Lead(Mixed(), Whole(1, "<c/>", true)) == "\n    "
  {
    hide Lead, InOpenText, OpenText;
    TextIsOpen();
    LeadMeans([Start(0, "<a>"), Words(1, "t")], Start(1, "<b>"));
    var front, ps := [Start(0, "<a>"), Words(1, "t"), Start(1, "<b>")], Mixed();
    assert ps == front + [Words(2, "u"), End(1, "</b>")];
    OpenTextEnds(front, 2, "u", "</b>");
    LeadMeans(ps, Whole(1, "<c/>", true));
  }

  lemma TextIsOpen()
    ensures OpenText([Start(0, "<a>"), Words(1, "t")]) == 0 && !OnlyWords([Start(0, "<a>"), Words(1, "t")])
  {
    var ps := [Start(0, "<a>"), Words(1, "t")];
    assert ps[..1] == [Start(0, "<a>")] && ps[0] in ps;
  }

  lemma OpenTextEnds(before: seq<Piece>, level: nat, text: string, end: string)
    requires level > 0
    ensures OpenText(before + [Words(level, text), End(level - 1, end)]) == -1
  {
    var ps := before + [Words(level, text), End(level - 1, end)];
    assert ps[..|ps| - 1] == before + [Words(level, text)];
  }

  /** Nothing is put before any of the pieces. */
  predicate NothingAdded(before: seq<Piece>, ps: seq<Piece>)
    decreases |ps|
  {
    ps == [] || (Lead(before, ps[0]) == "" && NothingAdded(before + [ps[0]], ps[1..]))
  }

  predicate HasText(t: Tree) {
    t.Text? || (t.Element? && exists c | c in t.children :: HasText(c))
  }

  /** Each element with a text in it is followed by a text, and so it is inside of it. */
  predicate Quiet(ts: seq<Tree>) {
    forall i | 0 <= i < |ts| && ts[i].Element? && HasText(ts[i]) ::
      Quiet(ts[i].children) && i + 1 < |ts| && ts[i + 1].Text?
  }

  lemma {:induction false} NothingConcat(before: seq<Piece>, a: seq<Piece>, b: seq<Piece>)
    ensures NothingAdded(before, a + b) <==> NothingAdded(before, a) && NothingAdded(before + a, b)
    decreases |a|
  {
    hide Lead;
    if a == [] {
      assert a + b == b && before + a == before;
    } else {
      NothingConcat(before + [a[0]], a[1..], b);
      assert (a + b)[1..] == a[1..] + b && before + [a[0]] + a[1..] == before + a;
    }
  }

  lemma NothingOne(before: seq<Piece>, x: Piece)
    ensures NothingAdded(before, [x]) <==> Lead(before, x) == ""
  {
    assert NothingAdded(before + [x], []);
  }

  lemma QuietTail(ts: seq<Tree>)
    requires ts != []
    ensures Quiet(ts)
      <==> (Quiet(ts[1..])
            && (ts[0].Element? && HasText(ts[0]) ==> Quiet(ts[0].children) && |ts| > 1 && ts[1].Text?))
  {
    hide HasText;
    var rest := ts[1..];
    if Quiet(ts) {
      forall i | 0 <= i < |rest| && rest[i].Element? && HasText(rest[i])
        ensures Quiet(rest[i].children) && i + 1 < |rest| && rest[i + 1].Text?
      {
        assert rest[i] == ts[i + 1];
      }
    }
    if Quiet(rest) {
      forall i | 0 < i < |ts| && ts[i].Element? && HasText(ts[i])
        ensures Quiet(ts[i].children) && i + 1 < |ts| && ts[i + 1].Text?
      {
        assert ts[i] == rest[i - 1];
      }
    }
  }

  /** Without texts everything is quiet. */
  lemma NoTextQuiet(ts: seq<Tree>)
    requires forall c | c in ts :: !HasText(c)
    ensures Quiet(ts)
  {
  }

  predicate AnyText(ts: seq<Tree>) {
    exists c | c in ts :: HasText(c)
  }

  lemma AnyTail(ts: seq<Tree>)
    requires ts != []
    ensures AnyText(ts) <==> HasText(ts[0]) || AnyText(ts[1..])
  {
    hide HasText;
    assert ts[0] in ts && forall c | c in ts[1..] :: c in ts;
    forall c | c in ts && c != ts[0] ensures c in ts[1..] { }
  }

  /** Quiet nodes, the first of which is a text if nothing is open before them. */
  predicate QuietFrom(d: int, ts: seq<Tree>) {
    Quiet(ts) && (d < 0 ==> ts != [] && ts[0].Text?)
  }

  /** Nothing is put before any of the nodes, nor before the end tag behind them, if and only if they are
      quiet. Here d is the level of the element whose text is open. */
  lemma {:induction false} RowQuiet(before: seq<Piece>, ts: seq<Tree>, level: nat, entities: bool, d: int)
    requires OpenText(before) == d && level > 0 && -1 <= d < level && !OnlyWords(before)
    ensures var after := before + AllPieces(ts, level, entities);
      && (NothingAdded(before, AllPieces(ts, level, entities)) && OpenText(after) >= 0 <==> QuietFrom(d, ts))
      && (QuietFrom(d, ts) ==> OpenText(after) == if AnyText(ts) then level - 1 else d)
      && -1 <= OpenText(after) < level && !OnlyWords(after)
    decreases ts
  {
    hide HasText, Quiet, Lead, OpenText, Pieces, NothingAdded, OnlyWords, AnyText;
    if ts == [] {
      RowEmpty(before);
    } else {
      var a, b := Pieces(ts[0], level, entities), AllPieces(ts[1..], level, entities);
      NothingConcat(before, a, b);
      assert before + a + b == before + (a + b);
      QuietTail(ts);
      AnyTail(ts);
      var d' := NodeQuiet(before, ts[0], level, entities, d);
      RowQuiet(before + a, ts[1..], level, entities, d');
      if |ts| > 1 && ts[1].Text? {
        AnyTail(ts[1..]);
        assert HasText(ts[1]) by { TextHasText(ts[1]); }
      }
      if ts[0].Text? { TextHasText(ts[0]); }
    }
  }

  lemma TextHasText(t: Tree)
    requires t.Text?
    ensures HasText(t)
  {
  }

  lemma RowEmpty(before: seq<Piece>)
    ensures before + [] == before && NothingAdded(before, []) && Quiet([]) && !AnyText([])
  {
  }

  /** One node: what is open behind it, unless something was put before one of its pieces. */
  lemma {:induction false} NodeQuiet(before: seq<Piece>, t: Tree, level: nat, entities: bool, d: int) returns (d': int)
    requires OpenText(before) == d && level > 0 && -1 <= d < level && !OnlyWords(before)
    ensures var a := Pieces(t, level, entities);
      && OpenText(before + a) == d' && -1 <= d' < level && !OnlyWords(before + a)
      && (NothingAdded(before, a) <==> t.Text? || (d >= 0 && (t.Element? && HasText(t) ==> Quiet(t.children))))
      && (t.Text? ==> d' == level - 1)
      && (!t.Text? && NothingAdded(before, a) ==> d' == if HasText(t) then -1 else d)
    ensures HasText(t) ==> t.Text? || t.Element?
    decreases t, 1
  {
    hide Lead, NothingAdded, Quiet, OpenText, OnlyWords;
    if t.Element? && t.children != [] {
      d' := ElementQuiet(before, t, level, entities, d);
    } else {
      var x := Pieces(t, level, entities)[0];
      OneMore(before, x);
      NothingOne(before, x);
      if t.Text? { WordsLead(before, x); } else { LeadMeans(before, x); }
      d' := OpenText(before + [x]);
    }
  }

  lemma WordsLead(before: seq<Piece>, x: Piece)
    requires x.Words?
    ensures Lead(before, x) == ""
  {
  }

  lemma {:induction false} ElementQuiet(before: seq<Piece>, t: Tree, level: nat, entities: bool, d: int)
    returns (d': int)
    requires t.Element? && t.children != [] && OpenText(before) == d && level > 0 && -1 <= d < level
    requires !OnlyWords(before)
    ensures var a := Pieces(t, level, entities);
      && OpenText(before + a) == d' && -1 <= d' < level && !OnlyWords(before + a)
      && (NothingAdded(before, a) <==> d >= 0 && (HasText(t) ==> Quiet(t.children)))
      && (NothingAdded(before, a) ==> d' == if HasText(t) then -1 else d)
    decreases t, 0
  {
    hide Lead, NothingAdded, Quiet, OpenText, OnlyWords, AnyText, HasText;
    var start, end := Start(level, TagText(t.name, t.attributes, entities) + ">"), End(level, "</" + t.name + ">");
    var inner := AllPieces(t.children, level + 1, entities);
    var before1 := before + [start];
    var before2 := before1 + inner;
    OneMore(before, start);
    RowQuiet(before1, t.children, level + 1, entities, d);
    OneMore(before2, end);
    LeadMeans(before, start);
    LeadMeans(before2, end);
    NothingOne(before, start);
    NothingOne(before2, end);
    NothingConcat(before, [start], inner);
    NothingConcat(before, [start] + inner, [end]);
    assert before + ([start] + inner) == before2 && before + ([start] + inner + [end]) == before2 + [end];
    ElementHasText(t);
    d' := OpenText(before2 + [end]);
  }

  lemma ElementHasText(t: Tree)
    requires t.Element?
    ensures HasText(t) <==> AnyText(t.children)
    ensures !HasText(t) ==> Quiet(t.children)
  {
  }

  /** Behind a text of an element nothing is put before what is left of the element, its end tag included,
      if and only if each element with a text in it is directly followed by a text, at every level. */
  lemma TextQuiet(before: seq<Piece>, text: string, ts: seq<Tree>, level: nat, end: string, entities: bool)
    requires !OnlyWords(before)
    ensures NothingAdded(before + [Words(level + 1, text)], AllPieces(ts, level + 1, entities) + [End(level, end)])
      <==> Quiet(ts)
  {
    hide Lead, NothingAdded, Quiet, OpenText, OnlyWords, AllPieces, AnyText, HasText;
    var x := Words(level + 1, text);
    OneMore(before, x);
    var open, rest := before + [x], AllPieces(ts, level + 1, entities);
    RowQuiet(open, ts, level + 1, entities, level);
    NothingConcat(open, rest, [End(level, end)]);
    NothingOne(open + rest, End(level, end));
    LeadMeans(open + rest, End(level, end));
  }
}
