/** An XML document as its reader sees it: names and values decoded. */
module XmlTree {
  import opened XmlUtil

  datatype Attr = Attr(name: string, value: string)

  datatype Tree =
    | Element(name: string, attributes: seq<Attr>, children: seq<Tree>)
    | Text(value: string, cdata: bool)
    | Comment(value: string)
    | Declaration(value: string)
    | Unknown(value: string)
  {
    predicate IsPlainText() {
      Text? && !cdata
    }

    /** A text of blanks, or of nothing. */
    predicate IsBlankText() {
      IsPlainText() && IsBlank(value)
    }
  }

  datatype Doc = Doc(bom: bool, children: seq<Tree>)

  // ---- the documents that can be stored ------------------------------------------

  ghost predicate FreeOf(v: string, tag: string) {
    forall i | 0 <= i < |v| :: !At(v, i, tag)
  }

  predicate DistinctNames(attributes: seq<Attr>) {
    forall i, j | 0 <= i < j < |attributes| :: attributes[i].name != attributes[j].name
  }

  /** What a node may contain so that its printed form is read as such a node again. */
  ghost predicate Storable(t: Tree) {
    match t
    case Element(name, attributes, children) =>
      IsName(name) && DistinctNames(attributes) &&
      (forall a | a in attributes :: IsName(a.name) && NUL !in a.value) &&
      (forall c | c in children :: !c.Declaration? && Storable(c)) &&
      NoAdjacentText(children)
    case Text(v, cdata) => NUL !in v && (cdata ==> FreeOf(v, "]]>"))
    case Comment(v) => NUL !in v && FreeOf(v, "-->")
    case Declaration(v) => NUL !in v && FreeOf(v, "?>")
    case Unknown(v) => NUL !in v && FreeOf(v, ">") && !("--" <= v) && !("[CDATA[" <= v)
  }

  predicate NoAdjacentText(ts: seq<Tree>) {
    forall i | 0 <= i < |ts| - 1 :: ts[i].IsPlainText() ==> !ts[i + 1].IsPlainText()
  }

  /** Every declaration stands before everything else. */
  predicate DeclarationsFirst(ts: seq<Tree>) {
    forall i, j | 0 <= i < j < |ts| :: ts[j].Declaration? ==> ts[i].Declaration?
  }

  /** How many elements with children are nested in each other. */
  function Nesting(t: Tree): nat {
    if t.Element? && t.children != [] then 1 + MaxNesting(t.children) else 0
  }

  function MaxNesting(ts: seq<Tree>): (n: nat)
    ensures forall t | t in ts :: Nesting(t) <= n
  {
    if ts == [] then 0
    else
      var a, b := Nesting(ts[0]), MaxNesting(ts[1..]);
      if a < b then b else a
  }

  ghost predicate StorableDoc(d: Doc) {
    && DeclarationsFirst(d.children) && NoAdjacentText(d.children) && MaxNesting(d.children) <= 498
    && forall t | t in d.children :: Storable(t)
  }

  // ---- what storing does to a document ---------------------------------------------

  /** Line ends as LF: CR LF and LF CR are one, and so is a lone CR. */
  function Unix(w: string): (r: string)
    ensures CR !in r && |r| <= |w|
  {
    if w == [] then []
    else if w[0] == CR then [LF] + Unix(if |w| > 1 && w[1] == LF then w[2..] else w[1..])
    else if w[0] == LF then [LF] + Unix(if |w| > 1 && w[1] == CR then w[2..] else w[1..])
    else [w[0]] + Unix(w[1..])
  }

  lemma {:induction false} UnixSame(w: string)
    ensures Unix(w) == w <==> CR !in w
  {
    if w != [] && CR !in w {
      assert |w| > 1 ==> w[1] in w;
      UnixSame(w[1..]);
      assert w == [w[0]] + w[1..];
    }
  }

  /** A document written and read again: line ends are normalised, and a text of blanks is gone. */
  function Reread(t: Tree): Tree {
    match t
    case Element(name, attributes, children) => Element(name, RereadAttrs(attributes), RereadAll(children))
    case Text(v, cdata) => Text(Unix(v), cdata)
    case Comment(v) => Comment(Unix(v))
    case Declaration(v) => Declaration(Unix(v))
    case Unknown(v) => Unknown(Unix(v))
  }

  function RereadAll(ts: seq<Tree>): seq<Tree> {
    if ts == [] then []
    else (if ts[0].IsBlankText() then [] else [Reread(ts[0])]) + RereadAll(ts[1..])
  }

  function RereadAttrs(attributes: seq<Attr>): (r: seq<Attr>)
    ensures |r| == |attributes|
    ensures forall i | 0 <= i < |r| :: r[i] == Attr(attributes[i].name, Unix(attributes[i].value))
  {
    if attributes == [] then []
    else [Attr(attributes[0].name, Unix(attributes[0].value))] + RereadAttrs(attributes[1..])
  }

  // ---- the nodes of the document itself -----------------------------------------------

  /** v without the blanks it starts with. */
  function LeftTrimmed(v: string): (r: string)
    ensures r == [] || !IsWhiteSpace(r[0])
    ensures |r| <= |v| && v[|v| - |r|..] == r && IsBlank(v[..|v| - |r|])
  {
    if v != [] && IsWhiteSpace(v[0]) then
      var r := LeftTrimmed(v[1..]);
      assert v[..|v| - |r|] == [v[0]] + v[1..][..|v| - 1 - |r|];
      r
    else v
  }

  /** How the start of a document is taken: the parser skips blanks and then looks for a byte order
      mark, and a text that comes first may begin with either. */
  function Started(d: Doc): Doc {
    if d.bom || d.children == [] || !d.children[0].IsPlainText() then d
    else
      var v, rest := LeftTrimmed(d.children[0].value), d.children[1..];
      if BOM <= v then Doc(true, [Text(v[3..], false)] + rest) else Doc(false, [Text(v, false)] + rest)
  }

  /** Pretty printing ends each element of the document with a line feed. */
  function LineBefore(ts: seq<Tree>, i: nat, pretty: bool): string
    requires i <= |ts|
  {
    if pretty && i > 0 && ts[i - 1].Element? then [LF] else []
  }

  /** A node that is no text was printed before. */
  predicate Begun(ts: seq<Tree>, i: nat)
    requires i <= |ts|
  {
    exists j | 0 <= j < i :: !ts[j].Text?
  }

  /** And it starts each node that is no text on a new line, but for the first. */
  function LineAfter(ts: seq<Tree>, i: nat, pretty: bool): string
    requires i < |ts|
  {
    if pretty && i + 1 < |ts| && !ts[i + 1].Text? && Begun(ts, i) then [LF] else []
  }

  /** The nodes of the document with what printing adds to the texts among them. */
  function Padded(ts: seq<Tree>, pretty: bool): (r: seq<Tree>)
    ensures |r| == |ts| && forall i | 0 <= i < |ts| :: r[i] == PaddedAt(ts, i, pretty)
  {
    seq(|ts|, i requires 0 <= i < |ts| => PaddedAt(ts, i, pretty))
  }

  function PaddedAt(ts: seq<Tree>, i: nat, pretty: bool): Tree
    requires i < |ts|
  {
    if ts[i].IsPlainText() && !IsBlank(ts[i].value) then
      Text(LineBefore(ts, i, pretty) + ts[i].value + LineAfter(ts, i, pretty), false)
    else ts[i]
  }

  /** What a document is when it is written, pretty or compact, and read again. */
  function RereadDoc(d: Doc, pretty: bool): Doc {
    Doc(Started(d).bom, RereadAll(Padded(Started(d).children, pretty)))
  }

  predicate EndsInText(ts: seq<Tree>) {
    ts != [] && ts[|ts| - 1].IsPlainText() && !IsBlank(ts[|ts| - 1].value)
  }

  /** The documents that are printed as something that reads without an error: there is something to
      read, and it does not end with a text, which would have no tag behind it. */
  predicate ReadsBack(d: Doc) {
    var ts := Started(d).children;
    ts != [] && ts != [Text([], false)] && !EndsInText(ts)
  }

  /** No value has a CR, and no text is blank. */
  predicate Settled(t: Tree) {
    match t
    case Element(_, attributes, children) => (forall a | a in attributes :: CR !in a.value) && SettledAll(children)
    case Text(v, _) => CR !in v
    case _ => CR !in t.value
  }

  predicate SettledAll(ts: seq<Tree>) {
    forall t | t in ts :: Settled(t) && !t.IsBlankText()
  }

  /** The documents that storing keeps are exactly the settled ones. */
  lemma {:induction false} RereadSame(t: Tree)
    ensures Reread(t) == t <==> Settled(t)
    decreases t, 0
  {
    hide Unix;
    match t
    case Element(_, attributes, children) =>
      forall i | 0 <= i < |attributes|
        ensures Unix(attributes[i].value) == attributes[i].value <==> CR !in attributes[i].value
      {
        UnixSame(attributes[i].value);
      }
      assert RereadAttrs(attributes) == attributes <==> forall a | a in attributes :: CR !in a.value;
      RereadAllSame(children);
    case _ => UnixSame(t.value);
  }

  lemma {:induction false} RereadAllSame(ts: seq<Tree>)
    ensures RereadAll(ts) == ts <==> SettledAll(ts)
    ensures |RereadAll(ts)| <= |ts|
    decreases ts, 1
  {
    hide Reread, Settled;
    if ts != [] {
      RereadSame(ts[0]);
      RereadAllSame(ts[1..]);
      assert SettledAll(ts) <==> Settled(ts[0]) && !ts[0].IsBlankText() && SettledAll(ts[1..]);
      if !ts[0].IsBlankText() {
        assert RereadAll(ts)[0] == Reread(ts[0]) && RereadAll(ts)[1..] == RereadAll(ts[1..]);
      }
    }
  }

  /** Each text of the document stands where printing adds nothing to it. */
  predicate NothingAdded(ts: seq<Tree>, pretty: bool) {
    forall i | 0 <= i < |ts| && ts[i].IsPlainText() :: LineBefore(ts, i, pretty) == LineAfter(ts, i, pretty) == []
  }

  /** It does not start with a text that starts with a blank or a byte order mark. */
  predicate StartsAsIs(d: Doc) {
    d.bom || d.children == [] || !d.children[0].IsPlainText() ||
    var v := d.children[0].value; v != [] && !IsWhiteSpace(v[0]) && !(BOM <= v)
  }

  /** The documents that storing keeps. */
  predicate Survives(d: Doc, pretty: bool) {
    SettledAll(d.children) && StartsAsIs(d) && NothingAdded(d.children, pretty)
  }

  lemma UnixPadded(a: string, v: string, b: string)
    requires LF in a ==> a == [LF]
    requires LF in b ==> b == [LF]
    requires CR !in a && CR !in b
    ensures Unix(a + v + b) == v <==> CR !in v && a == b == []
  {
    hide Unix;
    var w := a + v + b;
    UnixSame(w);
    if CR !in v {
      assert CR !in w;
    }
    assert a == b == [] ==> w == v;
  }

  /** Reading changes nothing exactly when printing adds nothing and nothing has to be normalised. */
  lemma PaddedSame(ts: seq<Tree>, pretty: bool)
    ensures RereadAll(Padded(ts, pretty)) == ts <==> SettledAll(ts) && NothingAdded(ts, pretty)
  {
    hide Reread, RereadAll, Settled, IsBlank, PaddedAt, LineBefore, LineAfter, NothingAdded;
    var q := Padded(ts, pretty);
    RereadAllSame(ts);
    if RereadAll(q) == ts {
      NoneDropped(q);
      forall i | 0 <= i < |ts| ensures q[i] == ts[i] && (ts[i].IsPlainText() ==> !IsBlank(ts[i].value)) {
        assert ts[i] == Reread(q[i]);
        KeptWhereRead(ts, i, pretty);
      }
      assert q == ts;
      NothingAddedSame(ts, pretty);
    } else if SettledAll(ts) && NothingAdded(ts, pretty) {
      assert forall i | 0 <= i < |ts| :: ts[i] in ts;
      NothingAddedSame(ts, pretty);
    }
  }

  /** A list that does not get shorter is read node by node. */
  lemma {:induction false} NoneDropped(q: seq<Tree>)
    requires |RereadAll(q)| == |q|
    ensures forall i | 0 <= i < |q| :: RereadAll(q)[i] == Reread(q[i]) && !q[i].IsBlankText()
  {
    hide Reread, IsBlank;
    if q != [] {
      RereadAllSame(q[1..]);
      NoneDropped(q[1..]);
      assert forall i | 1 <= i < |q| :: q[i] == q[1..][i - 1];
    }
  }

  lemma KeptWhereRead(ts: seq<Tree>, i: nat, pretty: bool)
    requires i < |ts| && ts[i] == Reread(PaddedAt(ts, i, pretty)) && !PaddedAt(ts, i, pretty).IsBlankText()
    ensures PaddedAt(ts, i, pretty) == ts[i] && !ts[i].IsBlankText()
  {
    hide Unix, IsBlank, Begun;
    if ts[i].IsPlainText() && !IsBlank(ts[i].value) {
      UnixPadded(LineBefore(ts, i, pretty), ts[i].value, LineAfter(ts, i, pretty));
    }
  }

  lemma NothingAddedSame(ts: seq<Tree>, pretty: bool)
    requires forall i | 0 <= i < |ts| && ts[i].IsPlainText() :: !IsBlank(ts[i].value)
    ensures NothingAdded(ts, pretty) <==> Padded(ts, pretty) == ts
  {
    hide IsBlank, LineBefore, LineAfter;
    var q := Padded(ts, pretty);
    forall i | 0 <= i < |ts| && ts[i].IsPlainText()
      ensures q[i] == ts[i] <==> LineBefore(ts, i, pretty) == LineAfter(ts, i, pretty) == []
    {
      assert q[i].value == LineBefore(ts, i, pretty) + ts[i].value + LineAfter(ts, i, pretty);
      assert |q[i].value| == |LineBefore(ts, i, pretty)| + |ts[i].value| + |LineAfter(ts, i, pretty)|;
    }
  }

  /** A document is read back as it is exactly when it has no CR, no blank text, and no text where
      printing adds a line feed or where the document starts with what is skipped. */
  lemma RereadDocSame(d: Doc, pretty: bool)
    ensures RereadDoc(d, pretty) == d <==> Survives(d, pretty)
  {
    hide RereadAll, SettledAll, NothingAdded, Padded, LeftTrimmed;
    var f := Started(d);
    if StartsAsIs(d) {
      StartKept(d);
      PaddedSame(d.children, pretty);
    } else {
      NoneStarts(d, pretty);
    }
  }

  lemma StartKept(d: Doc)
    requires StartsAsIs(d)
    ensures Started(d) == d
  {
  }

  lemma NoneStarts(d: Doc, pretty: bool)
    requires !StartsAsIs(d)
    ensures RereadDoc(d, pretty) != d
  {
    hide Reread, RereadAll, IsBlank, Unix, LeftTrimmed, PaddedAt, Padded, Started;
    FirstTrimmed(d);
    var f := Started(d);
    var q := Padded(f.children, pretty);
    RereadAllSame(q);
    if !f.bom && |RereadAll(q)| == |q| {
      NoneDropped(q);
      FirstPadded(f.children, pretty);
      TextReread(q[0]);
    }
  }

  /** A text that does not start as it is gets shorter, or is empty. */
  lemma FirstTrimmed(d: Doc)
    requires !StartsAsIs(d)
    ensures var f := Started(d);
      f.bom || (|f.children| == |d.children| && f.children[0].IsPlainText() &&
                (f.children[0].value == [] || |f.children[0].value| < |d.children[0].value|))
  {
    var v := d.children[0].value;
    if v != [] && IsWhiteSpace(v[0]) {
      assert |LeftTrimmed(v)| < |v|;
    }
  }

  /** Nothing is added to the first node. */
  lemma FirstPadded(ts: seq<Tree>, pretty: bool)
    requires ts != []
    ensures PaddedAt(ts, 0, pretty) == ts[0]
  {
    hide IsBlank;
    if ts[0].IsPlainText() {
      assert [] + ts[0].value + [] == ts[0].value;
    }
  }

  lemma TextReread(t: Tree)
    requires t.Text?
    ensures Reread(t) == Text(Unix(t.value), t.cdata)
    ensures t.value == [] && !t.cdata ==> t.IsBlankText()
  {
  }
}
