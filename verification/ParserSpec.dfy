/** What XMLDocument::Parse builds, as functions over the pristine buffer: a tree whose names and
    values are still ranges of that buffer. Parser.dfy proves the in-situ parser against it. */
module ParserSpec {
  import opened XmlUtil
  import opened Decode

  const MAX_ELEMENT_DEPTH: nat := 500

  /** The range a StrPair is set to. */
  datatype Range = Range(start: nat, end: nat, flags: Flags)

  function Raw(s: string, r: Range): string {
    if r.start <= r.end <= |s| then s[r.start..r.end] else []
  }

  datatype Attribute = Attribute(name: Range, value: Range, line: nat)

  datatype Closing = Open | Closed | Closing

  /** A parsed node; `line` is its _parseLineNum. */
  datatype Node =
    | Element(name: Range, attributes: seq<Attribute>, closing: Closing, children: seq<Node>, line: nat)
    | Text(value: Range, cdata: bool, line: nat)
    | Comment(value: Range, line: nat)
    | Declaration(value: Range, line: nat)
    | Unknown(value: Range, line: nat)

  datatype Code =
    | PARSING_ELEMENT | PARSING_ATTRIBUTE | PARSING_TEXT | PARSING_CDATA | PARSING_COMMENT
    | PARSING_DECLARATION | PARSING_UNKNOWN | EMPTY_DOCUMENT | MISMATCHED_ELEMENT | PARSING
    | ELEMENT_DEPTH_EXCEEDED

  datatype Error = Error(code: Code, line: nat)

  datatype Options = Options(processEntities: bool, collapseWhitespace: bool)

  function ValueFlags(o: Options): Flags {
    Flags(o.processEntities, true, false)
  }

  function TextFlags(o: Options): Flags {
    Flags(o.processEntities, true, o.collapseWhitespace)
  }

  // ---- Identify ------------------------------------------------------------

  datatype Kind = KDeclaration | KComment | KCData | KUnknown | KElement | KText

  const XML_HEADER := "<?"
  const COMMENT_HEADER := "<!--"
  const CDATA_HEADER := "<![CDATA["
  const DTD_HEADER := "<!"
  const ELEMENT_HEADER := "<"

  function KindAt(s: string, p: nat): Kind {
    if At(s, p, XML_HEADER) then KDeclaration
    else if At(s, p, COMMENT_HEADER) then KComment
    else if At(s, p, CDATA_HEADER) then KCData
    else if At(s, p, DTD_HEADER) then KUnknown
    else if At(s, p, ELEMENT_HEADER) then KElement
    else KText
  }

  function Header(k: Kind): string {
    match k
    case KDeclaration => XML_HEADER
    case KComment => COMMENT_HEADER
    case KCData => CDATA_HEADER
    case KUnknown => DTD_HEADER
    case KElement => ELEMENT_HEADER
    case KText => ""
  }

  function EndTag(k: Kind): string {
    match k
    case KDeclaration => "?>"
    case KComment => "-->"
    case KCData => "]]>"
    case KUnknown => ">"
    case KElement => ""
    case KText => "<"
  }

  function LeafError(k: Kind): Code {
    match k
    case KDeclaration => PARSING_DECLARATION
    case KComment => PARSING_COMMENT
    case KCData => PARSING_CDATA
    case KUnknown => PARSING_UNKNOWN
    case KElement => PARSING_ELEMENT
    case KText => PARSING_TEXT
  }

  lemma KindHeader(s: string, p: nat)
    requires Terminated(s) && p < |s| && s[p] != NUL
    ensures At(s, p, Header(KindAt(s, p))) && p + |Header(KindAt(s, p))| < |s|
    ensures KindAt(s, p) == KText <==> s[p] != '<'
  {
    if s[p] == '<' {
      assert s[p..p + 1] == ELEMENT_HEADER;
    }
    var h := Header(KindAt(s, p));
    if h != [] {
      AtBeforeNul(s, p, h);
      AtIndex(s, p, h, 0);
    }
  }

  // ---- leaves ----------------------------------------------------------------

  /** The result of one ParseDeep call: where reading goes on (none for a null return), the node,
      the end tag read on behalf of the parent and the error set, if any. */
  datatype Parsed = Parsed(ret: Option<nat>, node: Node, endTag: Option<Range>, err: Option<Error>)

  function LeafNode(k: Kind, r: Range, line: nat): Node {
    match k
    case KDeclaration => Declaration(r, line)
    case KComment => Comment(r, line)
    case KCData => Text(r, true, line)
    case KUnknown => Unknown(r, line)
    case _ => Text(r, false, line)
  }

  function LeafFlags(k: Kind, o: Options): Flags {
    if k == KText then TextFlags(o) else NEWLINES
  }

  /** ParseDeep of text, CDATA, comment, declaration and unknown: the content starts at p. Text
      that is followed by '<' and the end of the buffer gives a null return and no error. */
  function ParseLeaf(s: string, p: nat, k: Kind, line: nat, o: Options): (r: Parsed)
    requires Terminated(s) && p < |s| && !k.KElement?
    ensures r.ret.Some? ==> p <= r.ret.value < |s| && r.err.None?
    ensures r.endTag.None? && !r.node.Element?
  {
    match FindTag(s, p, EndTag(k))
    case None => Parsed(None, LeafNode(k, Range(0, 0, PLAIN), line), None, Some(Error(LeafError(k), line)))
    case Some(q) =>
      var node := LeafNode(k, Range(p, q, LeafFlags(k, o)), line);
      if k == KText then Parsed(if s[q + 1] != NUL then Some(q) else None, node, None, None)
      else Parsed(Some(q + |EndTag(k)|), node, None, None)
  }

  // ---- attributes -------------------------------------------------------------

  /** XMLAttribute::ParseDeep at a name start character: null (with the name, if there was one) or
      the position after the closing quote. */
  function ParseAttribute(s: string, p: nat, o: Options): (r: Option<(Attribute, nat)>)
    requires Terminated(s) && p < |s| && IsNameStartChar(s[p])
    ensures r.Some? ==> p < r.value.1 < |s|
  {
    var n := NameEnd(s, p);
    if s[n] == NUL then None
    else
      var e := SkipWS(s, n);
      if s[e] != '=' then None
      else
        var u := SkipWS(s, e + 1);
        if s[u] != '"' && s[u] != '\'' then None
        else
          match FindTag(s, u + 1, [s[u]])
          case None => None
          case Some(q) =>
            Some((Attribute(Range(p, n, PLAIN), Range(u + 1, q, ValueFlags(o)), LineAt(s, p)), q + 1))
  }

  predicate HasName(s: string, attributes: seq<Attribute>, name: string) {
    exists a | a in attributes :: Raw(s, a.name) == name
  }

  datatype ParsedAttributes =
    ParsedAttributes(ret: Option<nat>, attributes: seq<Attribute>, sealed: bool, err: Option<Error>)

  /** XMLElement::ParseAttributes from p on, with the attributes read so far. */
  function ParseAttributes(s: string, p: nat, soFar: seq<Attribute>, line: nat, o: Options): (r: ParsedAttributes)
    requires Terminated(s) && p < |s|
    ensures r.ret.Some? ==> p < r.ret.value < |s|
    ensures r.ret.Some? <==> r.err.None?
    decreases |s| - p
  {
    var q := SkipWS(s, p);
    if s[q] == NUL then ParsedAttributes(None, soFar, false, Some(Error(PARSING_ELEMENT, line)))
    else if IsNameStartChar(s[q]) then
      match ParseAttribute(s, q, o)
      case None => ParsedAttributes(None, soFar, false, Some(Error(PARSING_ATTRIBUTE, LineAt(s, q))))
      case Some((a, next)) =>
        if HasName(s, soFar, Raw(s, a.name)) then
          ParsedAttributes(None, soFar, false, Some(Error(PARSING_ATTRIBUTE, a.line)))
        else ParseAttributes(s, next, soFar + [a], line, o)
    else if s[q] == '>' then ParsedAttributes(Some(q + 1), soFar, false, None)
    else if At(s, q, "/>") then
      AtBeforeNul(s, q, "/>");
      ParsedAttributes(Some(q + 2), soFar, true, None)
    else ParsedAttributes(None, soFar, false, Some(Error(PARSING_ELEMENT, line)))
  }

  // ---- elements and their children -----------------------------------------------

  datatype ParsedChildren = ParsedChildren(ret: Option<nat>, endTag: Option<Range>, children: seq<Node>,
      err: Option<Error>)

  /** XMLElement::ParseDeep, p being just after the '<' that Identify took. */
  function ParseElement(s: string, p: nat, depth: nat, line: nat, o: Options): (r: Parsed)
    requires Terminated(s) && p < |s| && depth < MAX_ELEMENT_DEPTH
    ensures r.ret.Some? ==> p < r.ret.value < |s| && r.err.None?
    ensures r.node.Element?
    decreases |s| - p
  {
    var w := SkipWS(s, p);
    var slash := s[w] == '/';
    var n := if slash then w + 1 else w;
    if !IsNameStartChar(s[n]) then
      Parsed(None, Element(Range(0, 0, PLAIN), [], if slash then Closing else Open, [], line), None, None)
    else
      var e := NameEnd(s, n);
      var name := Range(n, e, PLAIN);
      var a := ParseAttributes(s, e, [], line, o);
      var closing := if a.sealed then Closed else if slash then Closing else Open;
      if a.ret.None? || s[a.ret.value] == NUL || closing != Open then
        Parsed(a.ret, Element(name, a.attributes, closing, [], line), None, a.err)
      else
        var c := ParseDeep(s, a.ret.value, depth, false, o);
        Parsed(c.ret, Element(name, a.attributes, closing, c.children, line), c.endTag, c.err)
  }

  /** XMLNode::ParseDeep: one level deeper, unless that is too deep. */
  function ParseDeep(s: string, p: nat, depth: nat, atDocument: bool, o: Options): (r: ParsedChildren)
    requires Terminated(s) && p < |s| && depth < MAX_ELEMENT_DEPTH
    ensures r.ret.Some? ==> p < r.ret.value < |s| && r.err.None?
    decreases |s| - p, 2
  {
    if depth + 1 == MAX_ELEMENT_DEPTH then
      ParsedChildren(None, None, [], Some(Error(ELEMENT_DEPTH_EXCEEDED, LineAt(s, p))))
    else ParseChildren(s, p, depth + 1, atDocument, [], o)
  }

  predicate DeclarationAllowed(atDocument: bool, soFar: seq<Node>) {
    atDocument && (soFar == [] || (soFar[0].Declaration? && soFar[|soFar| - 1].Declaration?))
  }

  predicate Mismatched(s: string, node: Node, endTag: Option<Range>)
    requires node.Element?
  {
    match endTag
    case None => node.closing == Open
    case Some(t) => node.closing != Open || Raw(s, t) != Raw(s, node.name)
  }

  /** The loop of XMLNode::ParseDeep, with the children inserted so far. */
  function ParseChildren(s: string, p: nat, depth: nat, atDocument: bool, soFar: seq<Node>,
      o: Options): (r: ParsedChildren)
    requires Terminated(s) && p < |s| && depth < MAX_ELEMENT_DEPTH
    ensures r.ret.Some? ==> p < r.ret.value < |s| && r.err.None?
    ensures soFar <= r.children
    decreases |s| - p, 1
  {
    var w := SkipWS(s, p);
    if s[w] == NUL then ParsedChildren(None, None, soFar, None)
    else
      var line := LineAt(s, w);
      var r := ParseNode(s, p, depth, o);
      if r.ret.None? then
        ParsedChildren(None, None, soFar, Some(if r.err.Some? then r.err.value else Error(PARSING, line)))
      else if r.node.Declaration? && !DeclarationAllowed(atDocument, soFar) then
        ParsedChildren(None, None, soFar, Some(Error(PARSING_DECLARATION, line)))
      else if r.node.Element? && r.node.closing == Closing then
        ParsedChildren(r.ret, Some(r.node.name), soFar, None)
      else if r.node.Element? && Mismatched(s, r.node, r.endTag) then
        ParsedChildren(None, None, soFar, Some(Error(MISMATCHED_ELEMENT, line)))
      else ParseChildren(s, r.ret.value, depth, atDocument, soFar + [r.node], o)
  }

  /** Identify at p, then ParseDeep of the node it found. Text keeps the blanks before it. */
  function ParseNode(s: string, p: nat, depth: nat, o: Options): (r: Parsed)
    requires Terminated(s) && p < |s| && depth < MAX_ELEMENT_DEPTH
    requires s[SkipWS(s, p)] != NUL
    ensures r.ret.Some? ==> p < r.ret.value < |s| && r.err.None?
    decreases |s| - p, 0
  {
    var w := SkipWS(s, p);
    var k := KindAt(s, w);
    KindHeader(s, w);
    if k == KElement then ParseElement(s, w + 1, depth, LineAt(s, w), o)
    else if k == KText then
      TextAdvances(s, p, LineAt(s, w), o);
      ParseLeaf(s, p, k, LineAt(s, w), o)
    else ParseLeaf(s, w + |Header(k)|, k, LineAt(s, w), o)
  }

  /** A text node has at least the non-blank character that made it one. */
  lemma TextAdvances(s: string, p: nat, line: nat, o: Options)
    requires Terminated(s) && p < |s| && s[SkipWS(s, p)] != '<'
    ensures var r := ParseLeaf(s, p, KText, line, o).ret; r.Some? ==> SkipWS(s, p) < r.value
  {
    var w, f := SkipWS(s, p), FindTag(s, p, "<");
    if f.Some? {
      AtIndex(s, f.value, "<", 0);
      assert !IsWhiteSpace(s[f.value]);
    }
  }

  // ---- the document ------------------------------------------------------------

  datatype Document = Document(bom: bool, children: seq<Node>, err: Option<Error>)

  /** XMLDocument::Parse() on the buffer. */
  function ParseDocument(s: string, o: Options): Document
    requires Terminated(s)
  {
    var w := SkipWS(s, 0);
    var bom := At(s, w, BOM);
    if bom then
      AtBeforeNul(s, w, BOM);
      DocumentFrom(s, w + 3, true, o)
    else DocumentFrom(s, w, false, o)
  }

  function DocumentFrom(s: string, p: nat, bom: bool, o: Options): Document
    requires Terminated(s) && p < |s|
  {
    if s[p] == NUL then Document(bom, [], Some(Error(EMPTY_DOCUMENT, 0)))
    else
      var r := ParseDeep(s, p, 0, true, o);
      Document(bom, r.children, r.err)
  }
}
