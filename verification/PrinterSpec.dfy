/** The text XMLPrinter produces for a document, compact or pretty, as functions of the tree. The
    printer class in Printer.dfy is proved against them. */
module PrinterSpec {
  import opened XmlUtil
  import opened XmlTree

  // ---- escaping ----------------------------------------------------------------

  /** The character's entry in the restricted or in the full entity table. */
  predicate Flagged(c: char, restricted: bool) {
    c == '&' || c == '<' || c == '>' || (!restricted && (c == '"' || c == '\''))
  }

  function EntityOf(c: char): string
    requires Flagged(c, false)
  {
    match c
    case '"' => "quot"
    case '&' => "amp"
    case '\'' => "apos"
    case '<' => "lt"
    case _ => "gt"
  }

  function EscapeChar(c: char, restricted: bool): string {
    if Flagged(c, restricted) then ['&'] + EntityOf(c) + [';'] else [c]
  }

  function Escape(v: string, restricted: bool): string {
    if v == [] then [] else EscapeChar(v[0], restricted) + Escape(v[1..], restricted)
  }

  // ---- layout ------------------------------------------------------------------

  datatype Mode = Mode(compact: bool, entities: bool)

  /** The printer state that decides on whitespace: _elementJustOpened, _firstElement, _textDepth. */
  datatype Layout = Layout(justOpened: bool, first: bool, textDepth: int)

  const START := Layout(false, true, -1)

  function Spaces(depth: nat): string {
    if depth == 0 then [] else "    " + Spaces(depth - 1)
  }

  function Seal(l: Layout): string {
    if l.justOpened then ">" else ""
  }

  /** PrepareForNewNode, after the seal. */
  function Space(l: Layout, depth: nat, m: Mode): string {
    if m.compact then ""
    else if l.first then Spaces(depth)
    else if l.textDepth < 0 then "\n" + Spaces(depth)
    else ""
  }

  function Lead(l: Layout, depth: nat, m: Mode): string {
    Seal(l) + Space(l, depth, m)
  }

  function Prepared(l: Layout, m: Mode): Layout {
    Layout(false, l.first && m.compact, l.textDepth)
  }

  function PrintString(v: string, restricted: bool, m: Mode): string {
    if m.entities then Escape(v, restricted) else v
  }

  function PrintAttribute(a: Attr, m: Mode): string {
    " " + a.name + "=\"" + PrintString(a.value, false, m) + "\""
  }

  function PrintAttributes(attributes: seq<Attr>, m: Mode): string {
    if attributes == [] then [] else PrintAttribute(attributes[0], m) + PrintAttributes(attributes[1..], m)
  }

  function TextBody(t: Tree, m: Mode): string
    requires t.Text?
  {
    if t.cdata then "<![CDATA[" + t.value + "]]>" else PrintString(t.value, true, m)
  }

  function LeafBody(t: Tree): string
    requires t.Comment? || t.Declaration? || t.Unknown?
  {
    match t
    case Comment(v) => "<!--" + v + "-->"
    case Declaration(v) => "<?" + v + "?>"
    case Unknown(v) => "<!" + v + ">"
  }

  function OpenTag(t: Tree, m: Mode): string
    requires t.Element?
  {
    "<" + t.name + PrintAttributes(t.attributes, m)
  }

  /** The blanks before an end tag; l is the layout after the children. */
  function CloseBlanks(l: Layout, depth: nat, m: Mode): string {
    if l.textDepth < 0 && !m.compact then "\n" + Spaces(depth) else ""
  }

  /** CloseElement, but for the newline after a root. */
  function CloseTag(name: string, l: Layout, depth: nat, m: Mode): string {
    if l.justOpened then "/>" else CloseBlanks(l, depth, m) + "</" + name + ">"
  }

  function FinalNewline(depth: nat, m: Mode): string {
    if depth == 0 && !m.compact then "\n" else ""
  }

  function ElementClosed(l: Layout, depth: nat): Layout {
    Layout(false, l.first, if l.textDepth == depth then -1 else l.textDepth)
  }

  /** The layout when the children of an element are visited. */
  function ElementOpened(l: Layout, m: Mode): Layout {
    Prepared(l, m).(justOpened := true)
  }

  /** What visiting a node writes, and the layout it leaves. `depth` is _depth at the visit. */
  function PrintNode(t: Tree, depth: nat, l: Layout, m: Mode): (r: (string, Layout))
    ensures !r.1.justOpened
    decreases t, 0
  {
    match t
    case Element(name, attributes, children) =>
      var body := PrintNodes(children, depth + 1, ElementOpened(l, m), m);
      (Lead(l, depth, m) + OpenTag(t, m) + body.0 + CloseTag(name, body.1, depth, m) + FinalNewline(depth, m),
       ElementClosed(body.1, depth))
    case Text(_, _) => (Seal(l) + TextBody(t, m), l.(justOpened := false, textDepth := depth - 1))
    case _ => (Lead(l, depth, m) + LeafBody(t), Prepared(l, m))
  }

  function PrintNodes(ts: seq<Tree>, depth: nat, l: Layout, m: Mode): (r: (string, Layout))
    ensures r.1.justOpened == (l.justOpened && ts == [])
    decreases ts, 1
  {
    if ts == [] then ([], l)
    else
      var a := PrintNode(ts[0], depth, l, m);
      var b := PrintNodes(ts[1..], depth, a.1, m);
      (a.0 + b.0, b.1)
  }

  function PrintDocument(d: Doc, m: Mode): string {
    (if d.bom then BOM else []) + PrintNodes(d.children, 0, START, m).0
  }
}
