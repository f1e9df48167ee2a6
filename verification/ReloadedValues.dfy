/** One attribute and one text, for every way of writing their value: exactly which of them are the
    same after loading, saving and loading again. */
module ReloadedValues {
  import opened XmlUtil
  import opened CharacterRef
  import opened Decode
  import opened PrinterSpec
  import opened TreeMeaning
  import opened RoundTripLeaves
  import opened Scanning
  import opened Tokens
  import opened Reparse
  import RootNodes
  import RoundTrip
  import P = ParserSpec
  import X = XmlTree

  function AttributeText(v: string): string {
    "<a b=\"" + v + "\"/>"
  }

  function ElementText(v: string): string {
    "<a>" + v + "</a>"
  }

  function AttributeDoc(value: string): X.Doc {
    X.Doc(false, [X.Element("a", [X.Attr("b", value)], [])])
  }

  function TextDoc(value: string): X.Doc {
    X.Doc(false, [X.Element("a", [], [X.Text(value, false)])])
  }

  // ---- reading the two texts --------------------------------------------------------------

  /** A name of one letter. */
  lemma LetterParses(s: string, p: nat, c: char)
    requires Terminated(s) && p + 1 < |s| && s[p] == c && IsNameStartChar(c) && !IsNameChar(s[p + 1])
    ensures SkipWS(s, p) == p && NameEnd(s, p) == p + 1
    ensures Str(s, P.Range(p, p + 1, PLAIN)) == P.Raw(s, P.Range(p, p + 1, PLAIN)) == [c]
  {
    hide Meaning;
    assert s[p..p + 1] == [c] && IsName([c]);
    AtSlice(s, p, [c]);
    NameParses(s, p, [c]);
    NoSkip(s, p);
  }

  /** A value between quotes. */
  lemma QuotedFound(s: string, p: nat, v: string)
    requires Terminated(s) && NUL !in v && '"' !in v && At(s, p, v + "\"/>")
    ensures p + |v| + 3 < |s| && FindTag(s, p, ['"']) == Some(p + |v|) && At(s, p + |v| + 1, "/>") && At(s, p, v)
  {
    hide FindTag;
    AtSplit3(s, p, v, "\"", "/>");
    assert v + "\"" + "/>" == v + "\"/>";
    forall i | 0 <= i < |v| ensures !At(v, i, ['"']) {
      assert v[i] in v;
      if At(v, i, ['"']) { AtIndex(v, i, ['"'], 0); }
    }
    assert "\"" == ['"'];
    TagFound(s, p, v, ['"']);
    AtBeforeNul(s, p + |v| + 1, "/>");
  }

  /** ` b="v"/>` at p, as XMLElement::ParseAttributes reads it. */
  lemma AttributeRead(s: string, p: nat, v: string, line: nat) returns (a: P.Attribute)
    requires Terminated(s) && NUL !in v && '"' !in v && At(s, p, " b=\"") && At(s, p + 4, v + "\"/>")
    ensures p < |s|
    ensures P.ParseAttributes(s, p, [], line, OPTIONS) == P.ParsedAttributes(Some(p + 7 + |v|), [a], true, None)
    ensures AttrsOf(s, [a]) == [X.Attr("b", Meaning(v, VALUE))]
  {
    hide Str, Meaning, At, FindTag, NameEnd, SkipWS, P.ParseAttributes;
    QuotedFound(s, p + 4, v);
    RawAt(s, p + 4, v, VALUE);
    AtIndex(s, p, " b=\"", 0);
    AtIndex(s, p, " b=\"", 1);
    AtIndex(s, p, " b=\"", 2);
    AtIndex(s, p, " b=\"", 3);
    LetterParses(s, p + 1, 'b');
    SkipOne(s, p);
    NoSkip(s, p + 2);
    NoSkip(s, p + 3);
    a := P.Attribute(P.Range(p + 1, p + 2, PLAIN), P.Range(p + 4, p + 4 + |v|, VALUE), LineAt(s, p + 1));
    assert P.ParseAttribute(s, p + 1, OPTIONS) == Some((a, p + 5 + |v|));
    AttributesRead(s, p, p + 5 + |v|, a, line);
  }

  lemma AttributeLoads(v: string)
    requires NUL !in v && '"' !in v
    ensures var s := AttributeText(v) + [NUL];
      Loads(s) && Load(s) == AttributeDoc(Meaning(v, VALUE))
  {
    hide Str, Meaning, At, NameEnd, SkipWS, P.ParseAttributes, P.ParseDocument, AttrsOf;
    var s := AttributeText(v) + [NUL];
    assert At(s, 2, " b=\"") by { AtSlice(s, 2, " b=\""); }
    assert At(s, 6, v + "\"/>") by { AtSlice(s, 6, v + "\"/>"); }
    LetterParses(s, 1, 'a');
    var a := AttributeRead(s, 2, v, 1);
    assert LineAt(s, 0) == 1;
    var node := P.Element(P.Range(1, 2, PLAIN), [a], P.Closed, [], 1);
    assert P.ParseElement(s, 1, 1, 1, OPTIONS) == P.Parsed(Some(9 + |v|), node, None, None);
    OneElementLoads(s, 9 + |v|, node, None);
    assert TreesOf(s, [node]) == [X.Element("a", AttrsOf(s, [a]), TreesOf(s, []))];
  }

  /** One attribute and the end of an empty element. */
  lemma AttributesRead(s: string, p: nat, e: nat, a: P.Attribute, line: nat)
    requires Terminated(s) && p < |s| && SkipWS(s, p) < |s| && IsNameStartChar(s[SkipWS(s, p)])
    requires e < |s| && P.ParseAttribute(s, SkipWS(s, p), OPTIONS) == Some((a, e)) && At(s, e, "/>")
    ensures P.ParseAttributes(s, p, [], line, OPTIONS) == P.ParsedAttributes(Some(e + 2), [a], true, None)
  {
    hide At, SkipWS, P.ParseAttribute;
    RoundTrip.TagEnds(s, e, [a], line);
    assert [] + [a] == [a];
  }

  /** A document of one element that starts the buffer and ends it. */
  lemma OneElementLoads(s: string, e: nat, node: P.Node, endTag: Option<P.Range>)
    requires Terminated(s) && 1 < |s| && s[0] == '<' && s[1] != '?' && s[1] != '!' && s[1] != NUL && e < |s|
    requires s[e] == NUL
    requires node.Element? && node.closing != P.Closing && !P.Mismatched(s, node, endTag)
    requires P.ParseElement(s, 1, 1, LineAt(s, 0), OPTIONS) == P.Parsed(Some(e), node, endTag, None)
    ensures P.ParseDocument(s, OPTIONS) == P.Document(false, [node], None)
  {
    hide At, P.ParseElement, P.Mismatched, SkipWS, P.KindAt;
    NoSkip(s, 0);
    RoundTrip.NoBomAt(s, 0);
    KindIsElement(s, 0);
    assert P.ParseNode(s, 0, 1, OPTIONS) == P.Parsed(Some(e), node, endTag, None);
    assert [] + [node] == [node];
    RoundTrip.EndOfDocument(s, e, [node]);
    assert P.ParseChildren(s, 0, 1, true, [], OPTIONS) == P.ParseChildren(s, e, 1, true, [node], OPTIONS);
    assert P.ParseDeep(s, 0, 0, true, OPTIONS) == P.ParsedChildren(None, None, [node], None);
    assert P.DocumentFrom(s, 0, false, OPTIONS) == P.Document(false, [node], None);
  }

  lemma TextLoads(v: string)
    requires NUL !in v && '<' !in v && !IsBlank(v)
    ensures var s := ElementText(v) + [NUL];
      Loads(s) && Load(s) == TextDoc(Meaning(v, VALUE))
  {
    hide Str, Meaning, At, NameEnd, SkipWS, P.ParseAttributes, P.ParseDocument, P.ParseDeep, IsBlank, P.Raw;
    var s := ElementText(v) + [NUL];
    assert At(s, 3, v) by { AtSlice(s, 3, v); }
    assert At(s, 3 + |v|, "</a>") by { AtSlice(s, 3 + |v|, "</a>"); }
    LetterParses(s, 1, 'a');
    NoSkip(s, 2);
    RoundTrip.TagEnds(s, 2, [], 1);
    var text, endTag := ContentRead(s, 3, v);
    var node := P.Element(P.Range(1, 2, PLAIN), [], P.Open, [text], 1);
    assert LineAt(s, 0) == 1;
    assert P.ParseElement(s, 1, 1, 1, OPTIONS) == P.Parsed(Some(7 + |v|), node, Some(endTag), None);
    OneElementLoads(s, 7 + |v|, node, Some(endTag));
    assert TreesOf(s, [text]) == [TreeOf(s, text)];
    assert TreesOf(s, [node]) == [X.Element("a", AttrsOf(s, []), TreesOf(s, [text]))];
  }

  /** "v</a>" at p, as XMLNode::ParseDeep reads it inside an element. */
  lemma ContentRead(s: string, p: nat, v: string) returns (text: P.Node, endTag: P.Range)
    requires Terminated(s) && NUL !in v && '<' !in v && !IsBlank(v) && At(s, p, v) && At(s, p + |v|, "</a>")
    ensures p < |s| && s[p] != NUL && TreeOf(s, text) == X.Text(Meaning(v, VALUE), false) && P.Raw(s, endTag) == "a"
    ensures P.ParseDeep(s, p, 1, false, OPTIONS) == P.ParsedChildren(Some(p + |v| + 4), Some(endTag), [text], None)
  {
    hide Str, Meaning, At, SkipWS, P.ParseChildren, P.Raw, TreeOf;
    AtIndex(s, p + |v|, "</a>", 0);
    AtIndex(s, p + |v|, "</a>", 1);
    AtIndex(s, p, v, 0);
    assert v[0] in v;
    text := RawTextReads(s, p, v, 2, false, []);
    assert [] + [text] == [text];
    var l := Layout(false, false, 0);
    assert CloseTag("a", l, 0, Mode(true, true)) == "</a>";
    endTag := RoundTrip.EndTagReads(s, p + |v|, "a", l, 0, Mode(true, true), 2, [text]);
  }

  /** The text as the children loop reads it. */
  lemma RawTextReads(s: string, p: nat, v: string, pd: nat, atDoc: bool, soFar: seq<P.Node>) returns (text: P.Node)
    requires Terminated(s) && pd < P.MAX_ELEMENT_DEPTH && At(s, p, v) && NUL !in v && '<' !in v && !IsBlank(v)
    requires var e := p + |v|; e + 1 < |s| && s[e] == '<' && s[e + 1] != NUL
    ensures p < |s| && TreeOf(s, text) == X.Text(Meaning(v, VALUE), false)
    ensures P.ParseChildren(s, p, pd, atDoc, soFar, OPTIONS)
         == P.ParseChildren(s, p + |v|, pd, atDoc, soFar + [text], OPTIONS)
  {
    hide Str, Meaning, At, FindTag, SkipWS;
    forall i | 0 <= i < |v| ensures !At(v, i, "<") {
      assert v[i] in v;
      if At(v, i, "<") { AtIndex(v, i, "<", 0); }
    }
    assert At(s, p + |v|, "<") by { AtSlice(s, p + |v|, "<"); }
    TagFound(s, p, v, "<");
    RawAt(s, p, v, VALUE);
    var w := FirstNotBlank(s, p, v);
    KindIsText(s, w);
    text := P.Text(P.Range(p, p + |v|, VALUE), false, LineAt(s, w));
    assert P.ParseNode(s, p, pd, OPTIONS) == P.Parsed(Some(p + |v|), text, None, None);
  }

  lemma FirstNotBlank(s: string, p: nat, v: string) returns (w: nat)
    requires Terminated(s) && At(s, p, v) && NUL !in v && '<' !in v && !IsBlank(v)
    ensures p < |s| && w == SkipWS(s, p) && s[w] != NUL && s[w] != '<'
  {
    hide At;
    var c :| c in v && !IsWhiteSpace(c);
    var j :| 0 <= j < |v| && v[j] == c;
    AtIndex(s, p, v, j);
    w := SkipWS(s, p);
    AtIndex(s, p, v, w - p);
    assert v[w - p] in v;
  }

  // ---- which values survive ------------------------------------------------------------------

  /** An attribute, however its value is written, comes back with its line ends normalised: it
      survives exactly when its value has no CR. */
  lemma AttributeReloaded(v: string, m: Mode)
    requires NUL !in v && '"' !in v && m.entities
    ensures var d := Load(AttributeText(v) + [NUL]); var value := Meaning(v, VALUE);
      d == AttributeDoc(value) && Load(Saved(d, m)) == AttributeDoc(X.Unix(value))
      && (Load(Saved(d, m)) == d <==> CR !in value)
  {
    hide P.ParseDocument, Saved, Meaning, DocOf, X.Unix, X.RereadDoc, X.ReadsBack, X.Survives;
    AttributeLoads(v);
    ReloadStable(AttributeText(v) + [NUL], m);
    var value := Meaning(v, VALUE);
    assert X.RereadAttrs([X.Attr("b", value)]) == [X.Attr("b", X.Unix(value))];
    assert X.RereadAll([]) == [];
    OneElementReread(AttributeDoc(value).children[0], !m.compact);
    X.UnixSame(value);
  }

  /** A text comes back with its line ends normalised, or not at all when it stands for blanks. */
  lemma TextReloaded(v: string, m: Mode)
    requires NUL !in v && '<' !in v && !IsBlank(v) && m.entities
    ensures var d := Load(ElementText(v) + [NUL]); var value := Meaning(v, VALUE);
      d == TextDoc(value)
      && Load(Saved(d, m))
        == (if IsBlank(value) then X.Doc(false, [X.Element("a", [], [])]) else TextDoc(X.Unix(value)))
      && (Load(Saved(d, m)) == d <==> CR !in value && !IsBlank(value))
  {
    hide P.ParseDocument, Saved, Meaning, DocOf, X.Unix, IsBlank, X.RereadDoc, X.ReadsBack, X.Survives;
    TextLoads(v);
    ReloadStable(ElementText(v) + [NUL], m);
    var value := Meaning(v, VALUE);
    var ts := [X.Text(value, false)];
    assert X.RereadAll(ts) == if IsBlank(value) then [] else [X.Text(X.Unix(value), false)];
    OneElementReread(TextDoc(value).children[0], !m.compact);
    X.UnixSame(value);
  }

  lemma OneElementReread(t: X.Tree, pretty: bool)
    requires t.Element?
    ensures var d := X.Doc(false, [t]); X.ReadsBack(d) && X.RereadDoc(d, pretty) == X.Doc(false, [X.Reread(t)])
  {
    hide X.Reread;
    assert X.Padded([t], pretty) == [t];
    assert X.RereadAll([t]) == [X.Reread(t)] + X.RereadAll([]);
  }

  // ---- two that do not ---------------------------------------------------------------------------

  /** The attribute value "&#13;" is loaded as a CR, saved as a raw CR and loaded again as an LF. */
  lemma CarriageReturnLost(m: Mode)
    requires m.entities
    ensures var d := Load(AttributeText("&#13;") + [NUL]);
      d == AttributeDoc([CR]) && Load(Saved(d, m)) == AttributeDoc([LF])
  {
    hide Load, Saved, Meaning;
    AttributeReloaded("&#13;", m);
    TwoDigits('1', '3');
    ReferenceMeaning("13");
    assert "&#" + "13" + ";" == "&#13;";
    assert X.Unix([CR]) == [LF];
  }

  /** The text "&#32;" is loaded as a space and saved as one, which the parser skips. */
  lemma BlankReferenceLost(m: Mode)
    requires m.entities
    ensures var d := Load(ElementText("&#32;") + [NUL]);
      d == TextDoc(" ") && Load(Saved(d, m)) == X.Doc(false, [X.Element("a", [], [])])
  {
    hide Load, Saved, Meaning;
    assert '&' in "&#32;" by { assert "&#32;"[0] == '&'; }
    TextReloaded("&#32;", m);
    TwoDigits('3', '2');
    ReferenceMeaning("32");
    assert "&#" + "32" + ";" == "&#32;";
  }

  lemma TwoDigits(x: char, y: char)
    requires '0' <= x <= '9' && '0' <= y <= '9'
    ensures AllDigits([x, y], 10) && Value([x, y], 10) == 10 * (x as int - '0' as int) + (y as int - '0' as int)
  {
    assert [x, y][..1] == [x] && [x][..0] == [];
    assert Value([x], 10) == x as int - '0' as int;
  }

  /** A value that is one decimal reference to a character below 128, other than NUL. */
  lemma ReferenceMeaning(digits: string)
    requires digits != [] && AllDigits(digits, 10) && 0 < Value(digits, 10) < 128
    ensures Meaning("&#" + digits + ";", VALUE) == [Value(digits, 10) as char]
  {
    hide Meaning, Value;
    var t := Reference(10, "", digits);
    assert [t][1..] == [] && SourceAll([]) == "";
    assert SourceAll([t]) == t.Source() + [] == "&#" + digits + ";";
    assert TextAll([t]) == t.Text() + [] == [Value(digits, 10) as char];
    TokensMeaning([t], false);
    UpToNulUnique(t.Text(), t.Text());
  }

  // ---- text outside the root elements ---------------------------------------------------------------

  /** A text with a node before and a node behind it, which XML 1.0 section 2.1 does not allow but the
      parser does. */
  function RootTextDoc(before: X.Tree, value: string, behind: X.Tree): X.Doc {
    X.Doc(false, [before, X.Text(value, false), behind])
  }

  /** What comes back, in either mode and for all kinds of neighbours that are no plain text. */
  lemma RootTextReread(before: X.Tree, value: string, behind: X.Tree, pretty: bool)
    requires !before.IsPlainText() && !behind.IsPlainText() && !IsBlank(value)
    ensures var a := if pretty && before.Element? then [LF] else [];
      var b := if pretty && !before.Text? && !behind.Text? then [LF] else [];
      X.RereadDoc(RootTextDoc(before, value, behind), pretty)
        == RootTextDoc(X.Reread(before), X.Unix(a + value + b), X.Reread(behind))
  {
    hide X.Reread, X.Unix, IsBlank;
    var ts := [before, X.Text(value, false), behind];
    var q := X.Padded(ts, pretty);
    assert X.Begun(ts, 1) <==> !ts[0].Text?;
    var a := if pretty && before.Element? then [LF] else [];
    var b := if pretty && !before.Text? && !behind.Text? then [LF] else [];
    assert a == X.LineBefore(ts, 1, pretty) && b == X.LineAfter(ts, 1, pretty);
    var text := q[1];
    X.TextReread(text);
    assert text == X.Text(a + value + b, false);
    assert q == [before, text, behind] && q[1..] == [text, behind] && q[1..][1..] == [behind];
    RootNodes.PaddedNotBlank(value, a, b);
    assert X.RereadAll([behind]) == [X.Reread(behind)] + X.RereadAll([]) == [X.Reread(behind)];
    assert X.RereadAll([text, behind]) == [X.Reread(text), X.Reread(behind)];
    assert X.RereadAll(q) == [X.Reread(before), X.Reread(text), X.Reread(behind)];
  }

  const A := X.Element("a", [], [])
  const C := X.Comment("c")

  /** Pretty printing puts a text between two elements between two more line feeds each time, and one
      between a comment and an element before one. */
  lemma RootTextGrows(value: string)
    requires NUL !in value && CR !in value && !IsBlank(value)
    ensures var m := Mode(false, true);
      && Load(Saved(RootTextDoc(A, value, A), m)) == RootTextDoc(A, [LF] + value + [LF], A)
      && Load(Saved(RootTextDoc(C, value, A), m)) == RootTextDoc(C, value + [LF], A)
  {
    hide Load, IsBlank, X.Unix, PrintDocument, X.ReadsBack, X.RereadDoc;
    RootTextStored(A, value, A);
    RootTextStored(C, value, A);
    X.UnixSame([LF] + value + [LF]);
    assert [] + value + [LF] == value + [LF];
    X.UnixSame(value + [LF]);
    X.UnixSame("c");
    assert X.Reread(A) == A && X.Reread(C) == C;
  }

  lemma RootTextStored(before: X.Tree, value: string, behind: X.Tree)
    requires NUL !in value && !IsBlank(value) && before in [A, C] && behind == A
    ensures var d := RootTextDoc(before, value, behind); Load(Saved(d, Mode(false, true))) == X.RereadDoc(d, true)
    ensures var a := if before.Element? then [LF] else [];
      X.RereadDoc(RootTextDoc(before, value, behind), true)
        == RootTextDoc(X.Reread(before), X.Unix(a + value + [LF]), X.Reread(behind))
  {
    hide Load, IsBlank, X.Unix, PrintDocument, P.ParseDocument, X.RereadDoc, X.Reread, DocOf;
    var d := RootTextDoc(before, value, behind);
    RootTextReread(before, value, behind, true);
    ThreeStorable(before, value, behind);
    RootNodes.DocumentReread(d, Mode(false, true));
    LoadIsDocOf(Saved(d, Mode(false, true)));
  }

  lemma LoadIsDocOf(s: string)
    requires Terminated(s)
    ensures Load(s) == DocOf(s, P.ParseDocument(s, OPTIONS))
  {
  }

  lemma ThreeStorable(before: X.Tree, value: string, behind: X.Tree)
    requires NUL !in value && before in [A, C] && behind == A
    ensures var d := RootTextDoc(before, value, behind); X.StorableDoc(d) && X.ReadsBack(d)
  {
    var ts := RootTextDoc(before, value, behind).children;
    assert X.Storable(A) && X.Storable(C);
    assert ts[1..] == [X.Text(value, false), behind] && ts[1..][1..] == [behind] && [behind][1..] == [];
    assert X.MaxNesting([behind]) == 0 && X.MaxNesting(ts[1..]) == 0 && X.MaxNesting(ts) == 0;
  }
}
