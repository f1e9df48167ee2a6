/** The parser's run over the buffer and the document tree together, in the order of its steps: the
    buffer is read and names are terminated in it, nodes are made, their children are linked below
    them, and what turns out to be no child is deleted again. A node is made when its own text has been
    read, so that its content, which is what its pairs stand for in the buffer, need not change
    afterwards. */
module DomParsing {
  import opened XmlUtil
  import opened Decode
  import opened Forest
  import opened Dom
  import opened DeepCloning
  import opened TreeMeaning
  import ParserSound
  import Reparse
  import opened Parser
  import opened ParserFacts
  import P = ParserSpec
  import X = XmlTree

  // ---- the tree that is to be built -----------------------------------------------------------

  function ContentOf(s: string, n: P.Node): Content {
    match n
    case Element(name, attributes, _, _, _) => ElementContent(Str(s, name), AttrsOf(s, attributes))
    case Text(v, cdata, _) => TextContent(Str(s, v), cdata)
    case Comment(v, _) => CommentContent(Str(s, v))
    case Declaration(v, _) => DeclarationContent(Str(s, v))
    case Unknown(v, _) => UnknownContent(Str(s, v))
  }

  function NodeTree(s: string, n: P.Node): Tree {
    Tree(ContentOf(s, n), if n.Element? then NodeTrees(s, n.children) else [])
  }

  function NodeTrees(s: string, ns: seq<P.Node>): (r: seq<Tree>)
    ensures |r| == |ns|
  {
    if ns == [] then [] else [NodeTree(s, ns[0])] + NodeTrees(s, ns[1..])
  }

  lemma {:induction false} NodeTreesSnoc(s: string, ns: seq<P.Node>, n: P.Node)
    ensures NodeTrees(s, ns + [n]) == NodeTrees(s, ns) + [NodeTree(s, n)]
  {
    hide NodeTree;
    if ns == [] {
      assert ns + [n] == [n];
    } else {
      assert (ns + [n])[1..] == ns[1..] + [n];
      NodeTreesSnoc(s, ns[1..], n);
    }
  }

  /** The attribute names of a scanned start tag are distinct, even if the tag is in error. */
  lemma StartTagWellNamed(s: string, p: nat, line: nat, o: P.Options)
    requires Terminated(s) && p < |s|
    ensures X.DistinctNames(AttrsOf(s, P.ParseAttributes(s, p, [], line, o).attributes))
  {
    hide Meaning, P.ParseAttributes, ParserSound.IsNameRange, ParserSound.CleanRange, P.Raw;
    var attributes := P.ParseAttributes(s, p, [], line, o).attributes;
    ParserSound.AttributesSound(s, p, [], line, o);
    forall i | 0 <= i < |attributes| ensures Str(s, attributes[i].name) == P.Raw(s, attributes[i].name) {
      assert attributes[i] in attributes;
      Reparse.NameMeaning(s, attributes[i].name);
    }
  }

  lemma ElementWellNamed(s: string, p: nat, depth: nat, line: nat, o: P.Options, n: P.Node)
    requires Terminated(s) && p < |s| && depth < P.MAX_ELEMENT_DEPTH && n.Element?
    requires n.attributes == P.ParseElement(s, p, depth, line, o).node.attributes
    ensures WellNamed(ContentOf(s, n))
  {
    hide Meaning, P.ParseAttributes, P.ParseDeep, NameEnd;
    var w := SkipWS(s, p);
    var n := if s[w] == '/' then w + 1 else w;
    if IsNameStartChar(s[n]) { StartTagWellNamed(s, NameEnd(s, n), line, o); }
  }

  /** The content of a node can be read from the buffer while its ranges are intact. */
  lemma ContentKept(b: string, s: string, n: P.Node)
    requires Kept(b, s, Ranges(n))
    ensures ContentOf(b, n) == ContentOf(s, n)
  {
    hide Meaning, Kept, P.Raw;
    if n.Element? {
      var names, values := [n.name], AttributeRanges(n.attributes);
      KeptConcat(b, s, names + values, RangesAll(n.children));
      KeptConcat(b, s, names, values);
      KeptStr(b, s, n.name);
      AttributesIntact(b, s, n.attributes);
    } else {
      KeptStr(b, s, n.value);
    }
  }

  lemma {:induction false} AttributesIntact(b: string, s: string, attributes: seq<P.Attribute>)
    requires Kept(b, s, AttributeRanges(attributes))
    ensures AttrsOf(b, attributes) == AttrsOf(s, attributes)
  {
    hide Meaning, Kept, P.Raw;
    if attributes != [] {
      var a := attributes[0];
      KeptConcat(b, s, [a.name, a.value], AttributeRanges(attributes[1..]));
      assert [a.name, a.value] == [a.name] + [a.value];
      KeptConcat(b, s, [a.name], [a.value]);
      KeptStr(b, s, a.name);
      KeptStr(b, s, a.value);
      AttributesIntact(b, s, attributes[1..]);
    }
  }

  lemma KeptStr(b: string, s: string, r: P.Range)
    requires Kept(b, s, [r])
    ensures Str(b, r) == Str(s, r)
  {
    hide Meaning;
    assert [r][0] == r;
    assert P.Raw(b, r) == P.Raw(s, r);
  }

  // ---- a subtree under construction --------------------------------------------------------------

  /** Over k0, the node and what is below it have been added; the children it has so far are those. */
  ghost predicate Building(k0: Kids, kids: Kids, rank: map<XMLNode, nat>, parent: XMLNode, s: string,
      children: seq<P.Node>) {
    Copying(k0, kids, rank, parent) && CopiedUpTo(kids, rank, parent, NodeTrees(s, children), |children|)
  }

  lemma StillBuilding(k0: Kids, kids: Kids, rank: map<XMLNode, nat>, rank': map<XMLNode, nat>, parent: XMLNode,
      s: string, children: seq<P.Node>)
    requires Building(k0, kids, rank, parent, s, children) && Ranked(kids, rank')
    ensures Building(k0, kids, rank', parent, s, children)
  {
    hide Copying, CopiedUpTo;
    OtherRanks(k0, kids, rank, rank', parent, NodeTrees(s, children), |children|);
  }

  /** None of this depends on the ranks. */
  lemma OtherRanks(k0: Kids, kids: Kids, rank: map<XMLNode, nat>, rank': map<XMLNode, nat>, c: XMLNode,
      trees: seq<Tree>, i: nat)
    requires Copying(k0, kids, rank, c) && CopiedUpTo(kids, rank, c, trees, i) && Ranked(kids, rank')
    ensures Copying(k0, kids, rank', c) && CopiedUpTo(kids, rank', c, trees, i)
  {
    hide Sub;
    SubKnown(kids, rank, c);
    SubFrame(kids, rank, kids, rank', c);
    forall j | 0 <= j < i ensures TreeAt(kids, rank', kids[c][j]) == trees[j] {
      SubKnown(kids, rank, kids[c][j]);
      TreeFrame(kids, rank, kids, rank', kids[c][j]);
    }
  }

  lemma SubKnown(kids: Kids, rank: map<XMLNode, nat>, n: XMLNode)
    requires Ranked(kids, rank) && n in kids
    ensures forall m | m in Sub(kids, rank, n) :: m in kids
  {
    hide Sub;
    forall m | m in Sub(kids, rank, n) ensures m in kids { SubRank(kids, rank, n, m); }
  }

  /** All the children of a node are there. */
  lemma Finished(k0: Kids, kids: Kids, rank: map<XMLNode, nat>, c: XMLNode, s: string, n: P.Node)
    requires Building(k0, kids, rank, c, s, if n.Element? then n.children else []) && c.content == ContentOf(s, n)
    ensures Cloned(k0, kids, rank, c, NodeTree(s, n))
  {
    hide Sub, ContentOf;
    SourceTrees(kids, rank, c);
    assert TreeAt(kids, rank, c).children == NodeTree(s, n).children;
  }

  // ---- the steps ------------------------------------------------------------------------------------

  /** Identify's new node. */
  method NewNode(doc: XMLDocument, content: Content, ghost s: string) returns (node: XMLNode)
    requires doc.Valid() && WellNamed(content) && !content.DocumentContent?
    modifies doc
    ensures doc.Valid() && fresh(node) && node.content == content && doc.kids == old(doc.kids)[node := []]
    ensures Building(old(doc.kids), doc.kids, doc.rank, node, s, [])
  {
    hide XMLDocument.Valid, Copying, CopiedUpTo, IsForest, Represents;
    ghost var k0, r0 := doc.kids, doc.rank;
    KnownForest(doc);
    node := doc.CreateUnlinkedNode(content);
    KnownForest(doc);
    NewIsRoot(k0, r0, node);
    FreshCopy(k0, doc.kids, doc.rank, node, NodeTrees(s, []));
  }

  /** _document->DeleteNode( node ): nothing of it is left. */
  method Discard(doc: XMLDocument, node: XMLNode, ghost k1: Kids)
    requires doc.Valid() && Copying(k1, doc.kids, doc.rank, node) && doc.root in k1
    modifies doc, doc.kids.Keys
    ensures doc.Valid() && doc.kids == k1 && doc.rank == old(doc.rank)
  {
    hide XMLDocument.Valid, Sub, IsForest;
    KnownForest(doc);
    DetachRoot(doc.kids, node);
    doc.DeleteNode(node);
  }

  /** The node of an end tag: SetTracked and DeleteNode, "created and then immediately deleted". */
  method DiscardEndTag(doc: XMLDocument, node: XMLNode, ghost k1: Kids)
    requires doc.Valid() && Copying(k1, doc.kids, doc.rank, node) && doc.root in k1
    modifies doc, doc.kids.Keys
    ensures doc.Valid() && doc.kids == k1 && doc.rank == old(doc.rank)
  {
    hide XMLDocument.Valid, Sub, IsForest, Represents;
    KnownForest(doc);
    RootIsOrphan(Heap(doc.kids), doc.kids, node);
    doc.DeleteUnused(node);
  }

  lemma RootIsOrphan(h: map<XMLNode, Links>, kids: Kids, n: XMLNode)
    requires Represents(h, kids) && n in kids && IsRoot(kids, n)
    ensures h[n].Orphan()
  {
    hide Fits;
    assert Placed(h, kids, n);
  }

  /** Reading has reached p without an error. */
  ghost predicate Ready(input: DocumentParser, s: string, p: nat)
    reads input, input.buffer
  {
    input.Reading(s, p) && input.error.None? && input.parsingDepth < P.MAX_ELEMENT_DEPTH
  }

  /** What Identify found behind p: a node of kind k whose text is read from `from` on. */
  ghost predicate Identified(s: string, p: nat, k: P.Kind, from: nat, line: nat) {
    && Terminated(s) && p < |s| && s[SkipWS(s, p)] != NUL && k == P.KindAt(s, SkipWS(s, p))
    && line == LineAt(s, SkipWS(s, p)) && p <= from < |s|
    && from == if k == P.KText then p else SkipWS(s, p) + |P.Header(k)|
  }

  /** ParseDeep of the node that Identify found, and the node. */
  method ParseNode(input: DocumentParser, doc: XMLDocument, k: P.Kind, from: nat, line: nat, ghost p: nat,
      ghost s: string)
    returns (r: P.Parsed, node: XMLNode)
    requires Ready(input, s, from) && Identified(s, p, k, from, line) && doc.Valid()
    modifies input`parseCurLineNum, input`parsingDepth, input`error, input.buffer, doc, doc.kids.Keys
    ensures doc.Valid() && fresh(doc.kids.Keys - old(doc.kids).Keys) && input.parsingDepth == old(input.parsingDepth)
    ensures r == P.ParseNode(s, p, input.parsingDepth, input.options) && input.error == r.err
    ensures r.ret.Some? ==> input.Reading(s, r.ret.value)
    ensures NodeRead(old(input.buffer[..]), input.buffer[..], s, r, p)
    ensures Cloned(old(doc.kids), doc.kids, doc.rank, node, NodeTree(s, r.node))
    decreases |s| - p, 0
  {
    hide XMLDocument.Valid, Building, Cloned, SkipWS, LineAt, P.KindAt, At, P.ParseElement, P.ParseLeaf, Str, ReadTo,
      NodeRead, Kept;
    ghost var b0 := input.buffer[..];
    P.KindHeader(s, SkipWS(s, p));
    if k == P.KElement {
      r, node := ParseElement(input, doc, from, line, s);
    } else {
      r := input.ParseLeaf(from, k, line, s);
      ghost var k0 := doc.kids;
      ContentKept(input.buffer[..], s, r.node);
      node := NewNode(doc, ContentOf(input.buffer[..], r.node), s);
      Finished(k0, doc.kids, doc.rank, node, s, r.node);
    }
    NodeReadFrom(b0, input.buffer[..], s, r, from, p);
  }

  /** XMLElement::ParseDeep. */
  method ParseElement(input: DocumentParser, doc: XMLDocument, p: nat, line: nat, ghost s: string)
    returns (r: P.Parsed, node: XMLNode)
    requires Ready(input, s, p) && doc.Valid()
    modifies input`parseCurLineNum, input`parsingDepth, input`error, input.buffer, doc, doc.kids.Keys
    ensures doc.Valid() && fresh(doc.kids.Keys - old(doc.kids).Keys) && input.parsingDepth == old(input.parsingDepth)
    ensures r == P.ParseElement(s, p, input.parsingDepth, line, input.options) && input.error == r.err
    ensures r.ret.Some? ==> input.Reading(s, r.ret.value)
    ensures NodeRead(old(input.buffer[..]), input.buffer[..], s, r, p)
    ensures Cloned(old(doc.kids), doc.kids, doc.rank, node, NodeTree(s, r.node))
    decreases |s| - p
  {
    hide XMLDocument.Valid, Building, Cloned, P.ParseElement, P.ParseDeep, Str, WellNamed, LineAt, ReadTo, Kept,
      InOrder, ChildrenRead, SameBefore;
    ghost var k0, b0 := doc.kids, input.buffer[..];
    TerminatedBuffer(b0, s, p);
    var head, body := input.StartTag(p, line, s);
    ghost var b1 := input.buffer[..];
    ContentKept(b1, s, head.node);
    ElementWellNamed(s, p, input.parsingDepth, line, input.options, head.node);
    node := NewNode(doc, ContentOf(input.buffer[..], head.node), s);
    r := head;
    if body {
      var c := ParseDeep(input, doc, node, head.ret.value, false, s, k0);
      r := WithChildren(head, c);
      ElementRead(b0, b1, input.buffer[..], s, p, head, c);
    }
    Finished(k0, doc.kids, doc.rank, node, s, r.node);
  }

  /** XMLNode::ParseDeep: one level deeper, unless that is too deep. */
  method ParseDeep(input: DocumentParser, doc: XMLDocument, parent: XMLNode, p: nat, atDocument: bool, ghost s: string,
      ghost k0: Kids)
    returns (r: P.ParsedChildren)
    requires Ready(input, s, p) && doc.Valid() && Building(k0, doc.kids, doc.rank, parent, s, [])
    modifies input`parseCurLineNum, input`parsingDepth, input`error, input.buffer, doc, doc.kids.Keys
    ensures doc.Valid() && fresh(doc.kids.Keys - old(doc.kids).Keys) && input.parsingDepth == old(input.parsingDepth)
    ensures r == P.ParseDeep(s, p, input.parsingDepth, atDocument, input.options) && input.error == r.err
    ensures r.ret.Some? ==> input.Reading(s, r.ret.value)
    ensures ChildrenRead(old(input.buffer[..]), input.buffer[..], s, r, p)
    ensures Building(k0, doc.kids, doc.rank, parent, s, r.children)
    decreases |s| - p, 4
  {
    hide XMLDocument.Valid, Building, P.ParseChildren, LineAt, ReadTo, ChildrenRead;
    TerminatedBuffer(input.buffer[..], s, p);
    input.PushDepth();
    if input.error.Some? {
      input.PopDepth();
      NothingWritten(input.buffer[..], p);
      r := P.ParsedChildren(None, None, [], input.error);
      FailedChildren(input.buffer[..], input.buffer[..], s, r, p);
      return;
    }
    r := ParseChildren(input, doc, parent, p, atDocument, s, k0);
    input.PopDepth();
  }

  /** Its loop. */
  method ParseChildren(input: DocumentParser, doc: XMLDocument, parent: XMLNode, p: nat, atDocument: bool,
      ghost s: string, ghost k0: Kids)
    returns (r: P.ParsedChildren)
    requires Ready(input, s, p) && doc.Valid() && Building(k0, doc.kids, doc.rank, parent, s, [])
    modifies input`parseCurLineNum, input`parsingDepth, input`error, input.buffer, doc, doc.kids.Keys
    ensures doc.Valid() && fresh(doc.kids.Keys - old(doc.kids).Keys) && input.parsingDepth == old(input.parsingDepth)
    ensures r == P.ParseChildren(s, p, input.parsingDepth, atDocument, [], input.options) && input.error == r.err
    ensures r.ret.Some? ==> input.Reading(s, r.ret.value)
    ensures ChildrenRead(old(input.buffer[..]), input.buffer[..], s, r, p)
    ensures Building(k0, doc.kids, doc.rank, parent, s, r.children)
    decreases |s| - p, 3
  {
    hide XMLDocument.Valid, Building, P.ParseChildren, ReadTo, LineAt, Kept, SameBefore, NodesPlaced;
    ghost var before, b0 := doc.kids, input.buffer[..];
    var q, kids := p, [];
    TerminatedBuffer(b0, s, p);
    NoNodes(b0, s, p);
    while true
      invariant Terminated(s) && p <= q < |s| && Ready(input, s, q) && input.parsingDepth == old(input.parsingDepth)
      invariant SameBefore(b0, input.buffer[..], p) && NodesPlaced(s, kids, p, q)
      invariant Kept(input.buffer[..], s, RangesAll(kids))
      invariant doc.Valid() && fresh(doc.kids.Keys - before.Keys) && Building(k0, doc.kids, doc.rank, parent, s, kids)
      invariant P.ParseChildren(s, q, input.parsingDepth, atDocument, kids, input.options)
             == P.ParseChildren(s, p, input.parsingDepth, atDocument, [], input.options)
      decreases |s| - q
    {
      ghost var b := input.buffer[..];
      var round := NextChild(input, doc, parent, q, kids, atDocument, p, s, k0);
      SameBeforeTrans(b0, b, input.buffer[..], p, q);
      match round
      case Done(children) => return children;
      case More(next, node) => q, kids := next, kids + [node];
    }
  }

  /** One round: Identify, ParseDeep of the node, and the node is linked or deleted. */
  method NextChild(input: DocumentParser, doc: XMLDocument, parent: XMLNode, q: nat, kids: seq<P.Node>,
      atDocument: bool, ghost lo: nat, ghost s: string, ghost k0: Kids)
    returns (round: Round)
    requires Ready(input, s, q) && doc.Valid() && Building(k0, doc.kids, doc.rank, parent, s, kids)
    requires NodesPlaced(s, kids, lo, q) && Kept(input.buffer[..], s, RangesAll(kids))
    modifies input`parseCurLineNum, input`parsingDepth, input`error, input.buffer, doc, doc.kids.Keys
    ensures doc.Valid() && fresh(doc.kids.Keys - old(doc.kids).Keys) && input.parsingDepth == old(input.parsingDepth)
    ensures IsRound(s, q, input.parsingDepth, atDocument, kids, input.options, round, input.error)
    ensures RoundRead(old(input.buffer[..]), input.buffer[..], s, kids, lo, q, round)
    ensures round.Next().Some? ==> input.Reading(s, round.Next().value)
    ensures Building(k0, doc.kids, doc.rank, parent, s, round.After(kids))
    decreases |s| - q, 2
  {
    hide XMLDocument.Valid, Building, Cloned, Copying, SkipWS, LineAt, P.ParseNode, P.ParseChildren, ReadTo, Kept,
      SameBefore, NodesPlaced, ChildrenRead, NodeRead, Identified, IsForest, Represents, IsRound, RoundRead;
    ghost var b0, k1, r1 := input.buffer[..], doc.kids, doc.rank;
    TerminatedBuffer(b0, s, q);
    KnownForest(doc);
    var kind, line, from := input.Identify(q, s);
    if kind.None? {
      NoMoreChildren(b0, s, kids, lo, q);
      AtTheEnd(s, q, input.parsingDepth, atDocument, kids, input.options);
      return Done(P.ParsedChildren(None, None, kids, None));
    }
    IdentifiedAt(input.buffer[..], s, q, kind.value, from, line);
    var r, node;
    r, node, round := ReadChild(input, doc, kind.value, from, line, q, kids, atDocument, lo, s);
    Settle(doc, parent, node, r, round, kids, k0, k1, r1, s);
  }

  lemma ClonedAdds(k1: Kids, kids: Kids, rank: map<XMLNode, nat>, node: XMLNode, tree: Tree)
    requires Cloned(k1, kids, rank, node, tree)
    ensures k1.Keys <= kids.Keys
  {
  }

  /** The end of a round: InsertEndChild or DeleteNode, k1 being the forest before the node was made. */
  method Settle(doc: XMLDocument, parent: XMLNode, node: XMLNode, r: P.Parsed, round: Round, kids: seq<P.Node>,
      ghost k0: Kids, ghost k1: Kids, ghost r1: map<XMLNode, nat>, ghost s: string)
    requires doc.Valid() && doc.root in k1 && Building(k0, k1, r1, parent, s, kids) && Ranked(k1, r1)
    requires Cloned(k1, doc.kids, doc.rank, node, NodeTree(s, r.node)) && (round.More? ==> round.node == r.node)
    modifies doc, doc.kids.Keys
    ensures doc.Valid() && doc.kids.Keys <= old(doc.kids.Keys)
    ensures Building(k0, doc.kids, doc.rank, parent, s, round.After(kids))
  {
    hide XMLDocument.Valid, Building, Cloned, Copying, TreeAt, NodeTree;
    ClonedAdds(k1, doc.kids, doc.rank, node, NodeTree(s, r.node));
    match round
    case Done(_) =>
      Refuse(doc, node, r, k1, NodeTree(s, r.node));
      KnownForest(doc);
      StillBuilding(k0, k1, r1, doc.rank, parent, s, kids);
    case More(_, _) =>
      Link(doc, parent, node, k0, k1, r1, s, kids, r.node);
  }

  /** ParseDeep of a node, and what is to be done with it. */
  method ReadChild(input: DocumentParser, doc: XMLDocument, k: P.Kind, from: nat, line: nat, ghost q: nat,
      kids: seq<P.Node>, atDocument: bool, ghost lo: nat, ghost s: string)
    returns (r: P.Parsed, node: XMLNode, round: Round)
    requires Ready(input, s, from) && Identified(s, q, k, from, line) && doc.Valid()
    requires NodesPlaced(s, kids, lo, q) && Kept(input.buffer[..], s, RangesAll(kids))
    modifies input`parseCurLineNum, input`parsingDepth, input`error, input.buffer, doc, doc.kids.Keys
    ensures doc.Valid() && fresh(doc.kids.Keys - old(doc.kids).Keys) && input.parsingDepth == old(input.parsingDepth)
    ensures IsRound(s, q, input.parsingDepth, atDocument, kids, input.options, round, input.error)
    ensures RoundRead(old(input.buffer[..]), input.buffer[..], s, kids, lo, q, round)
    ensures round.Next().Some? ==> input.Reading(s, round.Next().value)
    ensures Cloned(old(doc.kids), doc.kids, doc.rank, node, NodeTree(s, r.node))
    ensures round.More? ==> round.node == r.node
    decreases |s| - q, 1
  {
    hide XMLDocument.Valid, Cloned, SkipWS, LineAt, P.ParseNode, P.KindAt, ReadTo, Kept, NodesPlaced, NodeRead, IsRound,
      RoundRead;
    ghost var b0 := input.buffer[..];
    r, node := ParseNode(input, doc, k, from, line, q, s);
    round := input.Judge(r, line, kids, atDocument, q, lo, b0, s);
  }

  lemma IdentifiedAt(b: string, s: string, q: nat, k: P.Kind, from: nat, line: nat)
    requires Terminated(s) && q < |s| && ReadTo(b, s, from)
    requires var w := SkipWS(s, q);
      && s[w] != NUL && k == P.KindAt(s, w) && line == LineAt(s, w)
      && from == if k == P.KText then q else w + |P.Header(k)|
    ensures Identified(s, q, k, from, line)
  {
    hide P.KindAt, LineAt;
  }

  lemma AtTheEnd(s: string, q: nat, depth: nat, atDocument: bool, kids: seq<P.Node>, o: P.Options)
    requires Terminated(s) && q < |s| && depth < P.MAX_ELEMENT_DEPTH && s[SkipWS(s, q)] == NUL
    ensures IsRound(s, q, depth, atDocument, kids, o, Done(P.ParsedChildren(None, None, kids, None)), None)
  {
    hide SkipWS;
  }

  /** The node goes again. */
  method Refuse(doc: XMLDocument, node: XMLNode, parsed: P.Parsed, ghost k1: Kids, ghost tree: Tree)
    requires doc.Valid() && Cloned(k1, doc.kids, doc.rank, node, tree) && doc.root in k1
    modifies doc, doc.kids.Keys
    ensures doc.Valid() && doc.kids == k1 && doc.rank == old(doc.rank)
  {
    hide XMLDocument.Valid, Copying, TreeAt;
    if parsed.ret.Some? && parsed.node.Element? && parsed.node.closing == P.Closing {
      DiscardEndTag(doc, node, k1);
    } else {
      Discard(doc, node, k1);
    }
  }

  /** InsertEndChild( node ), k1 being the forest before the node was made. */
  method Link(doc: XMLDocument, parent: XMLNode, node: XMLNode, ghost k0: Kids, ghost k1: Kids,
      ghost r1: map<XMLNode, nat>,
      ghost s: string, ghost soFar: seq<P.Node>, ghost n: P.Node)
    requires doc.Valid() && doc.root in k1 && Building(k0, k1, r1, parent, s, soFar)
    requires Cloned(k1, doc.kids, doc.rank, node, NodeTree(s, n))
    modifies doc, doc.kids.Keys
    ensures doc.Valid() && doc.kids.Keys == old(doc.kids.Keys)
    ensures Building(k0, doc.kids, doc.rank, parent, s, soFar + [n])
  {
    hide XMLDocument.Valid, Copying, Cloned, TreeAt, NodeTree;
    NodeTreesSnoc(s, soFar, n);
    LinkCopy(doc, parent, node, k0, k1, r1, NodeTrees(s, soFar + [n]), |soFar|);
  }

  // ---- the document ----------------------------------------------------------------------------------

  /** Everything there is is below the document. */
  ghost predicate AllBelowRoot(doc: XMLDocument)
    reads doc
  {
    Copying(map[], doc.kids, doc.rank, doc.root)
  }

  /** Then nothing is left in _unlinked, and nothing is untracked. */
  lemma NothingUnlinked(doc: XMLDocument)
    requires doc.Valid() && AllBelowRoot(doc)
    ensures doc.unlinked == [] && doc.untracked == Counters(0, 0, 0)
  {
    hide Represents, Sub, IsForest, Count;
    KnownForest(doc);
    if doc.unlinked != [] {
      var n := doc.unlinked[0];
      var none: Kids := map[];
      assert n in doc.unlinked && n in doc.kids.Keys - none.Keys;
      var p, i := SubParent(doc.kids, doc.rank, doc.root, n);
      doc.ChildPointers(p, i);
      assert false;
    }
    assert Elements(doc.unlinked) - {} == {};
    CountedNone(doc.untracked);
  }

  /** The document and what is below it. */
  ghost predicate IsTree(doc: XMLDocument, children: seq<Tree>)
    reads doc
  {
    && Ranked(doc.kids, doc.rank) && doc.root in doc.kids
    && TreeAt(doc.kids, doc.rank, doc.root) == Tree(DocumentContent, children)
  }

  /** _charBuffer. */
  function Buffer(xml: string): (s: string)
    ensures Terminated(s)
  {
    xml + [NUL]
  }

  /** What Parse( xml, nBytes ) leaves: after an error the tree is deleted. */
  function Loaded(xml: string, o: P.Options): P.Document {
    var d := P.ParseDocument(Buffer(xml), o);
    if d.err.Some? then d.(children := []) else d
  }

  /** XMLDocument::Parse( xml, nBytes ), whatever the document held before. The tree below the document
      is the specified one, or nothing after an error, and no other node is left: in particular none
      of those that a failed parse has made. Without an error the buffer still has the content of all
      ranges. */
  method Parse(doc: XMLDocument, xml: string, o: P.Options) returns (input: DocumentParser, r: P.Document)
    requires doc.Valid()
    modifies doc, doc.kids.Keys
    ensures doc.Valid() && fresh(input) && fresh(input.buffer)
    ensures r == Loaded(xml, o) && input.error == r.err && input.writeBOM == r.bom && input.parsingDepth == 0
    ensures IsTree(doc, NodeTrees(Buffer(xml), r.children))
    ensures AllBelowRoot(doc) && doc.unlinked == [] && doc.untracked == Counters(0, 0, 0)
    ensures r.err.Some? ==> doc.kids == map[doc.root := []] && doc.currentAllocs == Counters(0, 0, 0)
    ensures r.err.None? ==> Kept(input.buffer[..], Buffer(xml), RangesAll(r.children))
  {
    hide XMLDocument.Valid, P.ParseDocument, Building, IsTree, AllBelowRoot, NodeTrees, Kept;
    ghost var s := Buffer(xml);
    ClearAll(doc, s);
    input := new DocumentParser(xml, o);
    if xml == [] || xml[0] == NUL {
      EmptyText(xml, o);
      input.SetError(P.EMPTY_DOCUMENT, 0);
      r := P.Document(false, [], input.error);
    } else {
      r := ParseText(input, doc, s);
    }
    WholeTree(doc, s, r.children);
    if r.err.Some? {
      DeleteEverything(doc);
      EmptyDocument(doc, s);
      r := r.(children := []);
      WholeTree(doc, s, []);
    }
    NothingUnlinked(doc);
  }

  /** The check for an empty text comes first, and agrees with the parser. */
  lemma EmptyText(xml: string, o: P.Options)
    requires xml == [] || xml[0] == NUL
    ensures P.ParseDocument(Buffer(xml), o) == P.Document(false, [], Some(P.Error(P.EMPTY_DOCUMENT, 0)))
  {
    var s := Buffer(xml);
    assert s[0] == NUL && SkipWS(s, 0) == 0;
    assert BOM[0] != NUL && !At(s, 0, BOM);
  }

  method ClearAll(doc: XMLDocument, ghost s: string)
    requires doc.Valid()
    modifies doc, doc.kids.Keys
    ensures doc.Valid() && doc.root in old(doc.kids) && doc.kids == map[doc.root := []]
    ensures Building(map[], doc.kids, doc.rank, doc.root, s, [])
  {
    hide XMLDocument.Valid, Building;
    KnownForest(doc);
    doc.Clear();
    EmptyDocument(doc, s);
  }

  /** XMLDocument::Parse(). */
  method ParseText(input: DocumentParser, doc: XMLDocument, ghost s: string) returns (r: P.Document)
    requires input.buffer[..] == s && Terminated(s) && input.error.None? && input.parsingDepth == 0
    requires doc.Valid() && Building(map[], doc.kids, doc.rank, doc.root, s, [])
    modifies input, input.buffer, doc, doc.kids.Keys
    ensures doc.Valid() && fresh(doc.kids.Keys - old(doc.kids).Keys)
    ensures r == P.ParseDocument(s, input.options) && input.error == r.err && input.writeBOM == r.bom
    ensures input.parsingDepth == 0
    ensures Building(map[], doc.kids, doc.rank, doc.root, s, r.children)
    ensures r.err.None? ==> Kept(input.buffer[..], s, RangesAll(r.children))
  {
    hide XMLDocument.Valid, Building, P.ParseDocument, P.ParseDeep, ReadTo, LineAt, Kept;
    var p, empty := input.SkipToNodes(s);
    if empty {
      return P.Document(input.writeBOM, [], input.error);
    }
    var c := ParseDeep(input, doc, doc.root, p, true, s, map[]);
    return P.Document(input.writeBOM, c.children, c.err);
  }

  lemma EmptyDocument(doc: XMLDocument, s: string)
    requires doc.Valid() && doc.kids == map[doc.root := []]
    ensures Building(map[], doc.kids, doc.rank, doc.root, s, [])
  {
    hide Represents;
    KnownForest(doc);
    FreshCopy(map[], doc.kids, doc.rank, doc.root, NodeTrees(s, []));
  }

  /** DeleteChildren after a failed parse. */
  method DeleteEverything(doc: XMLDocument)
    requires doc.Valid() && AllBelowRoot(doc)
    modifies doc, doc.kids.Keys
    ensures doc.Valid() && doc.kids == map[doc.root := []] && doc.currentAllocs == Counters(0, 0, 0)
  {
    hide Represents, IsForest, Count, Sub;
    NothingUnlinked(doc);
    KnownForest(doc);
    doc.DeleteChildren(doc.root, {});
    doc.NothingLeft();
  }

  lemma WholeTree(doc: XMLDocument, s: string, children: seq<P.Node>)
    requires doc.Valid() && Building(map[], doc.kids, doc.rank, doc.root, s, children)
    ensures AllBelowRoot(doc) && doc.root in doc.kids && IsTree(doc, NodeTrees(s, children))
  {
    hide Represents, Sub, IsForest;
    KnownForest(doc);
    SourceTrees(doc.kids, doc.rank, doc.root);
    assert doc.Belongs(doc.root);
    assert TreeAt(doc.kids, doc.rank, doc.root).children == NodeTrees(s, children);
  }

  // ---- what the tree holds ----------------------------------------------------------------------------

  /** The nodes in memory are those of an XML tree. */
  ghost predicate Holds(t: Tree, x: X.Tree)
    decreases x, 0
  {
    match x
    case Element(name, attributes, children) =>
      t.content == ElementContent(name, attributes) && HoldAll(t.children, children)
    case Text(v, cdata) => t == Tree(TextContent(v, cdata), [])
    case Comment(v) => t == Tree(CommentContent(v), [])
    case Declaration(v) => t == Tree(DeclarationContent(v), [])
    case Unknown(v) => t == Tree(UnknownContent(v), [])
  }

  ghost predicate HoldAll(ts: seq<Tree>, xs: seq<X.Tree>)
    decreases xs, 1
  {
    if ts == [] || xs == [] then ts == [] && xs == [] else Holds(ts[0], xs[0]) && HoldAll(ts[1..], xs[1..])
  }

  lemma {:induction false} NodeHolds(s: string, n: P.Node)
    ensures Holds(NodeTree(s, n), TreeOf(s, n))
    decreases n, 0
  {
    hide Str;
    if n.Element? {
      NodesHold(s, n.children);
    }
  }

  lemma {:induction false} NodesHold(s: string, ns: seq<P.Node>)
    ensures HoldAll(NodeTrees(s, ns), TreesOf(s, ns))
    decreases ns, 1
  {
    hide NodeTree, TreeOf, Holds;
    if ns != [] {
      NodeHolds(s, ns[0]);
      NodesHold(s, ns[1..]);
      assert NodeTrees(s, ns)[1..] == NodeTrees(s, ns[1..]) && TreesOf(s, ns)[1..] == TreesOf(s, ns[1..]);
    }
  }
}
