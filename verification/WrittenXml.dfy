/** XML texts in every form that the parser takes: blanks wherever they may stand, values in either
    quote, tags sealed or closed by an end tag. What a text is written with and what it means are said
    here without the parser. */
module WrittenXml {
  import opened XmlUtil
  import opened Decode
  import P = ParserSpec
  import X = XmlTree

  // ---- characters -------------------------------------------------------------------

  /** The blanks of C: space, tab, line feed, vertical tab, form feed and carriage return. */
  const BLANKS := " \t\n\U{000B}\U{000C}\r"

  predicate IsGap(w: string) {
    forall c | c in w :: c in BLANKS
  }

  predicate StartsName(c: char) {
    'a' <= c <= 'z' || 'A' <= c <= 'Z' || c in ":_" || c as int >= 0x80
  }

  predicate GoesInName(c: char) {
    StartsName(c) || '0' <= c <= '9' || c in ".-"
  }

  predicate IsXmlName(w: string) {
    w != "" && StartsName(w[0]) && forall c | c in w :: GoesInName(c)
  }

  lemma SameBlank(c: char)
    ensures IsWhiteSpace(c) <==> c in BLANKS
  {
    if IsWhiteSpace(c) {
      assert c == BLANKS[if c == ' ' then 0 else c as int - 8];
    }
  }

  lemma SameGap(w: string)
    ensures IsGap(w) <==> IsBlank(w)
  {
    forall c | c in w ensures IsWhiteSpace(c) <==> c in BLANKS { SameBlank(c); }
  }

  lemma SameWord(w: string)
    ensures IsXmlName(w) <==> IsName(w)
  {
  }

  // ---- tags -------------------------------------------------------------------------------

  /** An attribute with its blanks before the name, before and behind the equals sign, and its quote. */
  datatype Attribute =
    Attribute(gap: string, name: string, behind: string, between: string, quote: char, raw: string)
  {
    predicate Valid() {
      && IsGap(gap) && IsXmlName(name) && IsGap(behind) && IsGap(between)
      && (quote == '"' || quote == '\'') && quote !in raw && NUL !in raw
    }

    function Source(): string {
      gap + name + behind + "=" + between + [quote] + raw + [quote]
    }

    function Meant(o: P.Options): X.Attr {
      X.Attr(name, Meaning(raw, Flags(o.processEntities, true, false)))
    }
  }

  function AttributesSource(attributes: seq<Attribute>): string {
    if attributes == [] then "" else attributes[0].Source() + AttributesSource(attributes[1..])
  }

  function AttributesMeant(attributes: seq<Attribute>, o: P.Options): (r: seq<X.Attr>)
    ensures |r| == |attributes|
  {
    if attributes == [] then [] else [attributes[0].Meant(o)] + AttributesMeant(attributes[1..], o)
  }

  predicate DistinctNames(attributes: seq<Attribute>) {
    forall i, j | 0 <= i < j < |attributes| :: attributes[i].name != attributes[j].name
  }

  /** Only the first attribute needs a blank before it, to end the name of the tag. */
  predicate ValidAttributes(attributes: seq<Attribute>) {
    && (forall a | a in attributes :: a.Valid())
    && (attributes != [] ==> attributes[0].gap != "")
    && DistinctNames(attributes)
  }

  /** Any tag: the parser takes blanks before the slash or the name, and attributes even in end tags. */
  datatype Tag = Tag(gap: string, slash: bool, name: string, attributes: seq<Attribute>, last: string, sealed: bool)
  {
    predicate Valid() {
      IsGap(gap) && IsXmlName(name) && ValidAttributes(attributes) && IsGap(last)
    }

    /** The tag up to its attributes. */
    function Head(): string {
      "<" + gap + (if slash then "/" else "") + name + AttributesSource(attributes)
    }

    function Source(): string {
      Head() + last + if sealed then "/>" else ">"
    }

    predicate IsStart() {
      !slash && !sealed
    }

    predicate IsEnd() {
      slash && !sealed
    }
  }

  // ---- nodes ----------------------------------------------------------------------------------

  datatype Mark = Comment | CData | Declaration | Unknown {
    function Opening(): string {
      match this
      case Comment => "<!--"
      case CData => "<![CDATA["
      case Declaration => "<?"
      case Unknown => "<!"
    }

    function Ending(): string {
      match this
      case Comment => "-->"
      case CData => "]]>"
      case Declaration => "?>"
      case Unknown => ">"
    }
  }

  /** A node with the blanks before it; those before a text are part of the text. */
  datatype Written =
    | Marked(gap: string, mark: Mark, raw: string)
    | Text(raw: string)
    | Sealed(gap: string, tag: Tag)
    | Element(gap: string, tag: Tag, children: seq<Written>, last: string, end: Tag)
  {
    predicate IsDeclaration() {
      Marked? && mark.Declaration?
    }

    /** What the node and everything below it means. */
    function Meant(o: P.Options): X.Tree {
      match this
      case Marked(_, mark, raw) =>
        var v := Meaning(raw, Flags(false, true, false));
        (match mark
         case Comment => X.Comment(v)
         case CData => X.Text(v, true)
         case Declaration => X.Declaration(v)
         case Unknown => X.Unknown(v))
      case Text(raw) => X.Text(Meaning(raw, Flags(o.processEntities, true, o.collapseWhitespace)), false)
      case Sealed(_, tag) => X.Element(tag.name, AttributesMeant(tag.attributes, o), [])
      case Element(_, tag, children, _, _) =>
        X.Element(tag.name, AttributesMeant(tag.attributes, o), AllMeant(children, o))
    }
  }

  function AllMeant(ws: seq<Written>, o: P.Options): (r: seq<X.Tree>)
    ensures |r| == |ws|
  {
    if ws == [] then [] else [ws[0].Meant(o)] + AllMeant(ws[1..], o)
  }

  function Source(w: Written): string {
    match w
    case Marked(gap, mark, raw) => gap + mark.Opening() + raw + mark.Ending()
    case Text(raw) => raw
    case Sealed(gap, tag) => gap + tag.Source()
    case Element(gap, tag, children, last, end) => gap + tag.Source() + SourceAll(children) + last + end.Source()
  }

  function SourceAll(ws: seq<Written>): string {
    if ws == [] then "" else Source(ws[0]) + SourceAll(ws[1..])
  }

  ghost predicate WellWritten(w: Written) {
    match w
    case Marked(gap, mark, raw) =>
      && IsGap(gap) && NUL !in raw && X.FreeOf(raw, mark.Ending())
      && (mark.Unknown? ==> !("--" <= raw) && !("[CDATA[" <= raw))
    case Text(raw) => NUL !in raw && '<' !in raw && !IsGap(raw)
    case Sealed(gap, tag) => IsGap(gap) && tag.Valid() && tag.sealed
    case Element(gap, tag, children, last, end) =>
      && IsGap(gap) && tag.Valid() && tag.IsStart() && end.Valid() && end.IsEnd() && end.name == tag.name
      && (forall c | c in children :: WellWritten(c) && !c.IsDeclaration())
      && TextsEnd(children, last) && IsGap(last)
  }

  /** A text ends where the next tag starts. */
  predicate TextsEnd(ws: seq<Written>, last: string) {
    && (forall i | 0 <= i < |ws| - 1 && ws[i].Text? :: !ws[i + 1].Text? && ws[i + 1].gap == "")
    && (ws != [] && ws[|ws| - 1].Text? ==> last == "")
  }

  /** How many elements with an end tag are nested in each other. */
  function Depth(w: Written): nat {
    if w.Element? then 1 + MaxDepth(w.children) else 0
  }

  function MaxDepth(ws: seq<Written>): (n: nat)
    ensures forall w | w in ws :: Depth(w) <= n
  {
    if ws == [] then 0
    else
      var a, b := Depth(ws[0]), MaxDepth(ws[1..]);
      if a < b then b else a
  }

  // ---- documents -----------------------------------------------------------------------------------

  /** The parser stops at the end of the text, or at an end tag that closes nothing, whatever follows. */
  datatype Rest = End(gap: string) | Stray(gap: string, tag: Tag, ignored: string) {
    predicate Valid() {
      IsGap(gap) && (Stray? ==> tag.Valid() && tag.IsEnd() && NUL !in ignored)
    }

    function Source(): string {
      match this
      case End(gap) => gap
      case Stray(gap, tag, ignored) => gap + tag.Source() + ignored
    }
  }

  datatype Document = Document(gap: string, bom: bool, nodes: seq<Written>, rest: Rest) {
    function Content(): string {
      SourceAll(nodes) + rest.Source()
    }

    function Source(): string {
      gap + (if bom then "\U{EF}\U{BB}\U{BF}" else "") + Content()
    }

    /** There is something to read, and what is read first is not skipped or taken for the mark. */
    ghost predicate Valid() {
      && IsGap(gap) && rest.Valid() && (forall w | w in nodes :: WellWritten(w)) && MaxDepth(nodes) <= 498
      && TextsEnd(nodes, rest.gap) && (nodes != [] && nodes[|nodes| - 1].Text? ==> rest.Stray?)
      && (forall i, j | 0 <= i < j < |nodes| && nodes[j].IsDeclaration() :: nodes[i].IsDeclaration())
      && Content() != "" && (!bom ==> Content()[0] !in BLANKS && !("\U{EF}\U{BB}\U{BF}" <= Content()))
    }

    function Meant(o: P.Options): X.Doc {
      X.Doc(bom, AllMeant(nodes, o))
    }
  }

  // ---- lists of nodes ---------------------------------------------------------------------------------

  /** Valid nodes in a row, with `last` behind them. */
  ghost predicate Row(ws: seq<Written>, last: string) {
    (forall w | w in ws :: WellWritten(w)) && TextsEnd(ws, last)
  }

  lemma RowTail(ws: seq<Written>, last: string)
    requires ws != [] && Row(ws, last)
    ensures WellWritten(ws[0]) && Row(ws[1..], last)
    ensures ws[0].Text? ==> if |ws| == 1 then last == "" else !ws[1].Text? && ws[1].gap == "" && WellWritten(ws[1])
  {
    hide WellWritten, TextsEnd;
    assert ws[0] in ws && forall w | w in ws[1..] :: w in ws;
    if |ws| > 1 { assert ws[1] in ws; }
    TextsEndTail(ws, last);
  }

  lemma TextsEndTail(ws: seq<Written>, last: string)
    requires ws != [] && TextsEnd(ws, last)
    ensures TextsEnd(ws[1..], last)
    ensures ws[0].Text? ==> if |ws| == 1 then last == "" else !ws[1].Text? && ws[1].gap == ""
  {
    var rest := ws[1..];
    forall i | 0 <= i < |rest| - 1 && rest[i].Text? ensures !rest[i + 1].Text? && rest[i + 1].gap == "" {
      assert rest[i] == ws[i + 1] && rest[i + 1] == ws[i + 2];
    }
    if rest != [] { assert rest[|rest| - 1] == ws[|ws| - 1]; }
  }

  lemma RowCons(w: Written, ws: seq<Written>, last: string)
    requires WellWritten(w) && Row(ws, last)
    requires w.Text? ==> if ws == [] then last == "" else !ws[0].Text? && ws[0].gap == ""
    ensures Row([w] + ws, last) && ([w] + ws)[1..] == ws
    ensures SourceAll([w] + ws) == Source(w) + SourceAll(ws)
    ensures forall o :: AllMeant([w] + ws, o) == [w.Meant(o)] + AllMeant(ws, o)
    ensures MaxDepth([w] + ws) == if Depth(w) < MaxDepth(ws) then MaxDepth(ws) else Depth(w)
  {
    hide WellWritten, Depth, Source;
    var all := [w] + ws;
    assert all[1..] == ws;
    forall i | 0 <= i < |all| - 1 && all[i].Text? ensures !all[i + 1].Text? && all[i + 1].gap == "" {
      if i > 0 { assert all[i] == ws[i - 1] && all[i + 1] == ws[i]; }
    }
    if ws != [] { assert all[|all| - 1] == ws[|ws| - 1]; }
  }
}
