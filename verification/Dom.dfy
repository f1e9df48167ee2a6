/** The document tree: nodes linked by five pointers, kept in step with an ordered forest. */
module Dom {
  import opened Forest
  import opened Sequences
  import opened XmlTree

  datatype Pool = ElementPool | TextPool | CommentPool

  /** What a node holds besides its links. */
  datatype Content =
    | ElementContent(name: string, attributes: seq<Attr>)
    | TextContent(value: string, cdata: bool)
    | CommentContent(value: string)
    | DeclarationContent(value: string)
    | UnknownContent(value: string)
    | DocumentContent

  /** The pool of a node; a document is in none, and is not counted. */
  function PoolOf(content: Content): Pool {
    match content
    case ElementContent(_, _) => ElementPool
    case TextContent(_, _) => TextPool
    case _ => CommentPool
  }

  /** The attribute list of an element has one entry a name. */
  predicate WellNamed(content: Content) {
    content.ElementContent? ==> DistinctNames(content.attributes)
  }

  type Kids = map<XMLNode, seq<XMLNode>>

  class XMLNode {
    /** The document the node was made for, as a number. */
    const document: int
    const memPool: Pool
    const content: Content
    var parent: XMLNode?
    var firstChild: XMLNode?
    var lastChild: XMLNode?
    var prev: XMLNode?
    var next: XMLNode?

    constructor (document: int, content: Content)
      ensures this.document == document && this.content == content && memPool == PoolOf(content)
      ensures Pointers() == Links(null, null, null, null, null)
    {
      this.document, this.memPool, this.content := document, PoolOf(content), content;
      parent, firstChild, lastChild, prev, next := null, null, null, null, null;
    }

    ghost function Pointers(): Links
      reads this
    {
      Links(parent, firstChild, lastChild, prev, next)
    }

    /** XMLNode::Unlink: the list of this node's children closes over the gap. */
    method Unlink(child: XMLNode, ghost kids: Kids)
      requires Represents(Heap(kids), kids) && Unique(kids) && child in kids && child.parent == this
      modifies kids.Keys
      ensures Represents(Heap(kids), Detach(kids, child)) && IsRoot(Detach(kids, child), child)
      ensures child.Pointers().Orphan() && forall n | n in kids && n != child :: n.parent == old(n.parent)
    {
      hide Represents;
      ghost var h := Heap(kids);
      UnlinkPlaces(h, kids, this, child);
      UnlinkPointers(child, kids.Keys);
      assert Unlinked(h, Heap(kids), this, child);
      UnlinkRepresents(h, Heap(kids), kids, this, child);
    }

    /** The assignments of Unlink. */
    method UnlinkPointers(child: XMLNode, ghost nodes: set<XMLNode>)
      requires this in nodes && child in nodes && child.prev != child && child.next != child
      requires (child.prev != null ==> child.prev in nodes) && (child.next != null ==> child.next in nodes)
      modifies nodes
      ensures forall m | m in nodes ::
        m.Pointers() == AfterUnlink(m, old(m.Pointers()), this, child, old(child.Pointers()))
    {
      if child == firstChild { firstChild := firstChild.next; }
      if child == lastChild { lastChild := lastChild.prev; }
      assert forall m | m in nodes ::
        m.Pointers() == EndsLeft(m, old(m.Pointers()), this, child, old(child.Pointers()));
      child.LeaveSiblings(nodes);
    }

    method LeaveSiblings(ghost nodes: set<XMLNode>)
      requires this in nodes && prev != this && next != this
      requires (prev != null ==> prev in nodes) && (next != null ==> next in nodes)
      modifies nodes
      ensures forall m | m in nodes :: m.Pointers() == SiblingsLeft(m, old(m.Pointers()), this, old(this.Pointers()))
    {
      if prev != null { prev.next := next; }
      if next != null { next.prev := prev; }
      next, prev, parent := null, null, null;
    }

    /** InsertEndChild behind its preamble. */
    method LinkLast(addThis: XMLNode, ghost kids: Kids)
      requires Linkable(kids, this, addThis)
      modifies kids.Keys
      ensures Represents(Heap(kids), Attach(kids, this, |kids[this]|, addThis)) && addThis.parent == this
      ensures forall n | n in kids && n != addThis :: n.parent == old(n.parent)
    {
      hide Represents, Unique, IsRoot;
      ghost var h, n := Heap(kids), |kids[this]|;
      InsertPlaces(h, kids, this, n);
      PutLast(addThis, kids.Keys);
      assert Inserted(h, Heap(kids), this, addThis, h[this].lastChild, null);
      InsertRepresents(h, Heap(kids), kids, this, n, addThis);
    }

    /** The assignments of InsertEndChild. */
    method PutLast(addThis: XMLNode, ghost nodes: set<XMLNode>)
      requires this in nodes && addThis in nodes && addThis != this && (lastChild != null ==> lastChild in nodes)
      requires firstChild == null <==> lastChild == null
      modifies nodes
      ensures forall m | m in nodes ::
        m.Pointers() == AfterInsert(m, old(m.Pointers()), this, addThis, old(lastChild), null)
    {
      if lastChild != null {
        lastChild.next := addThis;
        addThis.prev := lastChild;
        lastChild := addThis;
        addThis.next := null;
      } else {
        firstChild, lastChild := addThis, addThis;
        addThis.prev, addThis.next := null, null;
      }
      addThis.parent := this;
    }

    /** InsertFirstChild behind its preamble. */
    method LinkFirst(addThis: XMLNode, ghost kids: Kids)
      requires Linkable(kids, this, addThis)
      modifies kids.Keys
      ensures Represents(Heap(kids), Attach(kids, this, 0, addThis)) && addThis.parent == this
      ensures forall n | n in kids && n != addThis :: n.parent == old(n.parent)
    {
      hide Represents, Unique, IsRoot;
      ghost var h := Heap(kids);
      InsertPlaces(h, kids, this, 0);
      PutFirst(addThis, kids.Keys);
      assert Inserted(h, Heap(kids), this, addThis, null, h[this].firstChild);
      InsertRepresents(h, Heap(kids), kids, this, 0, addThis);
    }

    /** The assignments of InsertFirstChild. */
    method PutFirst(addThis: XMLNode, ghost nodes: set<XMLNode>)
      requires this in nodes && addThis in nodes && addThis != this && (firstChild != null ==> firstChild in nodes)
      requires firstChild == null <==> lastChild == null
      modifies nodes
      ensures forall m | m in nodes ::
        m.Pointers() == AfterInsert(m, old(m.Pointers()), this, addThis, null, old(firstChild))
    {
      if firstChild != null {
        firstChild.prev := addThis;
        addThis.next := firstChild;
        firstChild := addThis;
        addThis.prev := null;
      } else {
        firstChild, lastChild := addThis, addThis;
        addThis.prev, addThis.next := null, null;
      }
      addThis.parent := this;
    }

    /** InsertAfterChild behind its preamble. */
    method LinkAfter(afterThis: XMLNode, addThis: XMLNode, ghost i: nat, ghost kids: Kids)
      requires Linkable(kids, this, addThis) && i + 1 < |kids[this]| && kids[this][i] == afterThis
      modifies kids.Keys
      ensures Represents(Heap(kids), Attach(kids, this, i + 1, addThis)) && addThis.parent == this
      ensures forall n | n in kids && n != addThis :: n.parent == old(n.parent)
    {
      hide Represents, Unique;
      ghost var h := Heap(kids);
      InsertPlaces(h, kids, this, i + 1);
      NotListed(kids, this, addThis);
      PutAfter(afterThis, addThis, kids.Keys);
      assert Inserted(h, Heap(kids), this, addThis, afterThis, kids[this][i + 1]);
      InsertRepresents(h, Heap(kids), kids, this, i + 1, addThis);
    }

    /** The assignments of InsertAfterChild. */
    method PutAfter(afterThis: XMLNode, addThis: XMLNode, ghost nodes: set<XMLNode>)
      requires this in nodes && addThis in nodes && afterThis in nodes && addThis != this && afterThis != addThis
      requires afterThis.next != null && afterThis.next in nodes && afterThis.next != addThis
      modifies nodes
      ensures forall m | m in nodes ::
        m.Pointers() == AfterInsert(m, old(m.Pointers()), this, addThis, afterThis, old(afterThis.next))
    {
      addThis.prev := afterThis;
      addThis.next := afterThis.next;
      afterThis.next.prev := addThis;
      afterThis.next := addThis;
      addThis.parent := this;
    }
  }

  lemma NotListed(kids: Kids, p: XMLNode, c: XMLNode)
    requires p in kids && IsRoot(kids, c)
    ensures forall i | 0 <= i < |kids[p]| :: kids[p][i] != c
  {
  }

  // ---- pointers and forest -----------------------------------------------------------------

  datatype Links = Links(parent: XMLNode?, firstChild: XMLNode?, lastChild: XMLNode?, prev: XMLNode?, next: XMLNode?) {
    ghost predicate Orphan() {
      parent == null && prev == null && next == null
    }
  }

  ghost function Heap(kids: Kids): map<XMLNode, Links>
    reads kids.Keys
  {
    map n | n in kids :: n.Pointers()
  }

  /** The pointers of a list of children. */
  ghost predicate Fits(h: map<XMLNode, Links>, p: XMLNode, ks: seq<XMLNode>)
    requires p in h
  {
    && h[p].firstChild == (if ks == [] then null else ks[0])
    && h[p].lastChild == (if ks == [] then null else ks[|ks| - 1])
    && forall i | 0 <= i < |ks| :: Linked(h, p, ks, i)
  }

  ghost predicate Linked(h: map<XMLNode, Links>, p: XMLNode, ks: seq<XMLNode>, i: nat)
    requires i < |ks|
  {
    && ks[i] in h && h[ks[i]].parent == p
    && h[ks[i]].prev == (if i == 0 then null else ks[i - 1])
    && h[ks[i]].next == (if i + 1 == |ks| then null else ks[i + 1])
  }

  ghost predicate Placed(h: map<XMLNode, Links>, kids: Kids, n: XMLNode)
    requires n in h
  {
    h[n].Orphan() || (h[n].parent != null && h[n].parent in kids && n in kids[h[n].parent])
  }

  /** The pointers of the nodes are those of the forest. */
  ghost predicate Represents(h: map<XMLNode, Links>, kids: Kids) {
    && h.Keys == kids.Keys
    && (forall p | p in kids :: Fits(h, p, kids[p]))
    && (forall n | n in kids :: Placed(h, kids, n))
  }

  /** Where a child stands in its parent's list. */
  lemma ChildAt(h: map<XMLNode, Links>, kids: Kids, child: XMLNode) returns (p: XMLNode, i: nat)
    requires Represents(h, kids) && child in kids && !h[child].Orphan()
    ensures p == h[child].parent && p in kids && i < |kids[p]| && kids[p][i] == child && Linked(h, p, kids[p], i)
  {
    assert Placed(h, kids, child);
    p := h[child].parent;
    i :| 0 <= i < |kids[p]| && kids[p][i] == child;
    assert Fits(h, p, kids[p]);
  }

  /** Where the pointers written by Unlink are. */
  lemma UnlinkPlaces(h: map<XMLNode, Links>, kids: Kids, p: XMLNode, child: XMLNode)
    requires Represents(h, kids) && child in kids && h[child].parent == p
    requires Unique(kids)
    ensures p in kids && p in h && h[child].prev != child && h[child].next != child
    ensures (h[child].prev != null ==> h[child].prev in kids) && (h[child].next != null ==> h[child].next in kids)
  {
    var q, i := ChildAt(h, kids, child);
    assert Fits(h, p, kids[p]);
    if i > 0 { assert Linked(h, p, kids[p], i - 1); }
    if i + 1 < |kids[p]| { assert Linked(h, p, kids[p], i + 1); }
  }

  /** The pointers l of m once child, whose pointers are c, is no end of p's list. */
  ghost function EndsLeft(m: XMLNode, l: Links, p: XMLNode, child: XMLNode, c: Links): Links {
    l.(firstChild := if m == p && l.firstChild == child then c.next else l.firstChild,
       lastChild := if m == p && l.lastChild == child then c.prev else l.lastChild)
  }

  /** The same once its siblings are linked to each other. */
  ghost function SiblingsLeft(m: XMLNode, l: Links, child: XMLNode, c: Links): Links {
    if m == child then l.(parent := null, prev := null, next := null)
    else l.(prev := if m == c.next then c.prev else l.prev, next := if m == c.prev then c.next else l.next)
  }

  ghost function AfterUnlink(m: XMLNode, l: Links, p: XMLNode, child: XMLNode, c: Links): Links {
    SiblingsLeft(m, EndsLeft(m, l, p, child, c), child, EndsLeft(child, c, p, child, c))
  }

  ghost predicate Unlinked(h: map<XMLNode, Links>, h': map<XMLNode, Links>, p: XMLNode, child: XMLNode)
    requires p in h && child in h && h'.Keys == h.Keys
  {
    forall m | m in h :: h'[m] == AfterUnlink(m, h[m], p, child, h[child])
  }

  lemma FitsFrame(h: map<XMLNode, Links>, h': map<XMLNode, Links>, q: XMLNode, ks: seq<XMLNode>)
    requires q in h && q in h' && Fits(h, q, ks)
    requires h'[q].firstChild == h[q].firstChild && h'[q].lastChild == h[q].lastChild
    requires forall m | m in h && h[m].parent == q ::
      m in h' && h'[m].parent == q && h'[m].prev == h[m].prev && h'[m].next == h[m].next
    ensures Fits(h', q, ks)
  {
    forall i | 0 <= i < |ks| ensures Linked(h', q, ks, i) {
      assert Linked(h, q, ks, i);
    }
  }

  lemma UnlinkRepresents(h: map<XMLNode, Links>, h': map<XMLNode, Links>, kids: Kids, p: XMLNode, child: XMLNode)
    requires Represents(h, kids) && Unique(kids) && child in kids && h[child].parent == p && p in kids
    requires h'.Keys == h.Keys && Unlinked(h, h', p, child)
    ensures Represents(h', Detach(kids, child)) && IsRoot(Detach(kids, child), child)
  {
    var q, i := ChildAt(h, kids, child);
    DetachAt(kids, p, i);
    var kids' := Detach(kids, child);
    CutFits(h, h', kids, p, i);
    forall q | q in kids' && q != p ensures Fits(h', q, kids'[q]) {
      OtherParent(h, h', kids, p, child, i, q);
    }
    forall n | n in kids' ensures Placed(h', kids', n) {
      assert Placed(h, kids, n);
      if n != child { StillPlaced(h, h', kids, p, child, i, n); }
    }
  }

  lemma StillPlaced(h: map<XMLNode, Links>, h': map<XMLNode, Links>, kids: Kids, p: XMLNode, child: XMLNode, i: nat,
      n: XMLNode)
    requires Represents(h, kids) && p in kids && i < |kids[p]| && kids[p][i] == child && Linked(h, p, kids[p], i)
    requires h'.Keys == h.Keys && child in h && Unlinked(h, h', p, child) && n in kids && n != child
    ensures Placed(h', kids[p := kids[p][..i] + kids[p][i + 1..]], n)
  {
    var ks := kids[p];
    assert Fits(h, p, ks);
    if i > 0 { assert Linked(h, p, ks, i - 1); }
    if i + 1 < |ks| { assert Linked(h, p, ks, i + 1); }
    if !h[n].Orphan() {
      var q, j := ChildAt(h, kids, n);
      if q == p {
        var cut := ks[..i] + ks[i + 1..];
        assert cut[if j < i then j else j - 1] == n;
      }
    }
  }

  lemma OtherParent(h: map<XMLNode, Links>, h': map<XMLNode, Links>, kids: Kids, p: XMLNode, child: XMLNode, i: nat,
      q: XMLNode)
    requires Represents(h, kids) && p in kids && i < |kids[p]| && kids[p][i] == child && Linked(h, p, kids[p], i)
    requires h'.Keys == h.Keys && child in h && Unlinked(h, h', p, child) && q in kids && q != p
    ensures Fits(h', q, kids[q])
  {
    var ks := kids[p];
    assert Fits(h, p, ks);
    if i > 0 { assert Linked(h, p, ks, i - 1); }
    if i + 1 < |ks| { assert Linked(h, p, ks, i + 1); }
    FitsFrame(h, h', q, kids[q]);
  }

  lemma CutFits(h: map<XMLNode, Links>, h': map<XMLNode, Links>, kids: Kids, p: XMLNode, i: nat)
    requires p in h && h'.Keys == h.Keys && p in kids && Unique(kids) && Fits(h, p, kids[p]) && i < |kids[p]|
    requires kids[p][i] in h && Unlinked(h, h', p, kids[p][i])
    ensures Fits(h', p, kids[p][..i] + kids[p][i + 1..])
  {
    var ks := kids[p];
    var cut := ks[..i] + ks[i + 1..];
    assert Linked(h, p, ks, i);
    forall j | 0 <= j < |cut| ensures Linked(h', p, cut, j) {
      var k := if j < i then j else j + 1;
      assert cut[j] == ks[k] && Linked(h, p, ks, k);
      assert ks[k] != ks[i];
    }
  }

  // ---- inserting --------------------------------------------------------------------------------

  /** p may get the child c: both are nodes, and c is nowhere yet. */
  ghost predicate Linkable(kids: Kids, p: XMLNode, c: XMLNode)
    reads kids.Keys
  {
    && Represents(Heap(kids), kids) && Unique(kids)
    && p in kids && c in kids && c != p && c.Pointers().Orphan() && IsRoot(kids, c)
  }

  /** The pointers l of m once c stands between `before` and `after` below p. */
  ghost function AfterInsert(m: XMLNode, l: Links, p: XMLNode, c: XMLNode, before: XMLNode?, after: XMLNode?): Links {
    Links(
      if m == c then p else l.parent,
      if m == p && before == null then c else l.firstChild,
      if m == p && after == null then c else l.lastChild,
      if m == c then before else if m == after then c else l.prev,
      if m == c then after else if m == before then c else l.next)
  }

  ghost predicate Inserted(h: map<XMLNode, Links>, h': map<XMLNode, Links>, p: XMLNode, c: XMLNode, before: XMLNode?,
      after: XMLNode?)
    requires h'.Keys == h.Keys
  {
    forall m | m in h :: h'[m] == AfterInsert(m, h[m], p, c, before, after)
  }

  /** The node before place i, and the one at it. */
  ghost function Before(ks: seq<XMLNode>, i: nat): XMLNode?
    requires i <= |ks|
  {
    if i == 0 then null else ks[i - 1]
  }

  ghost function After(ks: seq<XMLNode>, i: nat): XMLNode?
    requires i <= |ks|
  {
    if i == |ks| then null else ks[i]
  }

  /** Where the pointers written by an insertion at place i are. */
  lemma InsertPlaces(h: map<XMLNode, Links>, kids: Kids, p: XMLNode, i: nat)
    requires Represents(h, kids) && p in kids && i <= |kids[p]|
    ensures p in h && (i == 0 ==> After(kids[p], i) == h[p].firstChild)
    ensures i == |kids[p]| ==> Before(kids[p], i) == h[p].lastChild
    ensures i > 0 ==>
      kids[p][i - 1] in kids && h[kids[p][i - 1]].next == After(kids[p], i) && h[kids[p][i - 1]].parent == p
    ensures i < |kids[p]| ==>
      kids[p][i] in kids && h[kids[p][i]].prev == Before(kids[p], i) && h[kids[p][i]].parent == p
    ensures h[p].firstChild == null <==> kids[p] == []
    ensures h[p].lastChild == null <==> kids[p] == []
  {
    assert Fits(h, p, kids[p]);
    if i > 0 { assert Linked(h, p, kids[p], i - 1); }
    if i < |kids[p]| { assert Linked(h, p, kids[p], i); }
  }

  lemma InsertRepresents(h: map<XMLNode, Links>, h': map<XMLNode, Links>, kids: Kids, p: XMLNode, i: nat, c: XMLNode)
    requires Represents(h, kids) && Unique(kids) && p in kids && i <= |kids[p]| && c in kids && c != p
    requires IsRoot(kids, c) && h[c].Orphan()
    requires h'.Keys == h.Keys && Inserted(h, h', p, c, Before(kids[p], i), After(kids[p], i))
    ensures Represents(h', Attach(kids, p, i, c))
  {
    hide Represents, Unique, IsRoot, Linked, Fits, Placed;
    var kids' := Attach(kids, p, i, c);
    SameNodes(h, kids);
    InsertFits(h, h', kids, p, i, c);
    forall q | q in kids' && q != p ensures Fits(h', q, kids'[q]) {
      OtherList(h, h', kids, p, i, c, q);
    }
    forall n | n in kids' ensures Placed(h', kids', n) {
      StaysPlaced(h, h', kids, p, i, c, n);
    }
    IsRepresented(h', kids');
  }

  lemma OtherList(h: map<XMLNode, Links>, h': map<XMLNode, Links>, kids: Kids, p: XMLNode, i: nat, c: XMLNode,
      q: XMLNode)
    requires Represents(h, kids) && p in kids && i <= |kids[p]| && c in kids && h[c].Orphan() && q in kids && q != p
    requires h'.Keys == h.Keys && Inserted(h, h', p, c, Before(kids[p], i), After(kids[p], i))
    ensures Fits(h', q, kids[q])
  {
    hide Represents, Linked;
    SameNodes(h, kids);
    FitsAt(h, kids, q);
    InsertPlaces(h, kids, p, i);
    FitsFrame(h, h', q, kids[q]);
  }

  lemma InsertFits(h: map<XMLNode, Links>, h': map<XMLNode, Links>, kids: Kids, p: XMLNode, i: nat, c: XMLNode)
    requires Represents(h, kids) && Unique(kids) && p in kids && i <= |kids[p]| && c in kids && c != p
    requires IsRoot(kids, c)
    requires h'.Keys == h.Keys && Inserted(h, h', p, c, Before(kids[p], i), After(kids[p], i))
    ensures Fits(h', p, kids[p][..i] + [c] + kids[p][i..])
  {
    hide Represents, Unique, Linked, IsRoot;
    var ks := kids[p];
    var ks' := ks[..i] + [c] + ks[i..];
    ListFits(h, kids, p, c);
    forall j | 0 <= j < |ks'| ensures Linked(h', p, ks', j) {
      if j == i {
        NewLinked(h', p, ks', i, c);
      } else {
        OldLinked(h, h', p, ks, i, c, if j < i then j else j - 1);
      }
    }
  }

  lemma FitsAt(h: map<XMLNode, Links>, kids: Kids, p: XMLNode)
    requires Represents(h, kids) && p in kids
    ensures p in h && Fits(h, p, kids[p])
  {
  }

  lemma IsRepresented(h: map<XMLNode, Links>, kids: Kids)
    requires h.Keys == kids.Keys && (forall p | p in kids :: Fits(h, p, kids[p]))
    requires forall n | n in kids :: Placed(h, kids, n)
    ensures Represents(h, kids)
  {
  }

  lemma SameNodes(h: map<XMLNode, Links>, kids: Kids)
    requires Represents(h, kids)
    ensures h.Keys == kids.Keys && forall n | n in kids :: Placed(h, kids, n)
  {
  }

  lemma ListFits(h: map<XMLNode, Links>, kids: Kids, p: XMLNode, c: XMLNode)
    requires Represents(h, kids) && Unique(kids) && p in kids && IsRoot(kids, c)
    ensures h.Keys == kids.Keys && Fits(h, p, kids[p]) && c !in kids[p]
    ensures forall a, b | 0 <= a < b < |kids[p]| :: kids[p][a] != kids[p][b]
  {
  }

  lemma NewLinked(h': map<XMLNode, Links>, p: XMLNode, ks': seq<XMLNode>, i: nat, c: XMLNode)
    requires i < |ks'| && ks'[i] == c && c in h' && h'[c].parent == p
    requires h'[c].prev == (if i == 0 then null else ks'[i - 1])
    requires h'[c].next == (if i + 1 == |ks'| then null else ks'[i + 1])
    ensures Linked(h', p, ks', i)
  {
  }

  lemma OldLinked(h: map<XMLNode, Links>, h': map<XMLNode, Links>, p: XMLNode, ks: seq<XMLNode>, i: nat, c: XMLNode,
      k: nat)
    requires i <= |ks| && k < |ks| && c !in ks && Linked(h, p, ks, k)
    requires forall a, b | 0 <= a < b < |ks| :: ks[a] != ks[b]
    requires h'.Keys == h.Keys && Inserted(h, h', p, c, Before(ks, i), After(ks, i))
    ensures Linked(h', p, ks[..i] + [c] + ks[i..], if k < i then k else k + 1)
  {
    assert ks[k] in ks;
  }

  lemma StaysPlaced(h: map<XMLNode, Links>, h': map<XMLNode, Links>, kids: Kids, p: XMLNode, i: nat, c: XMLNode,
      n: XMLNode)
    requires Represents(h, kids) && Unique(kids) && p in kids && i <= |kids[p]| && c in kids && n in kids
    requires h[c].Orphan()
    requires h'.Keys == h.Keys && Inserted(h, h', p, c, Before(kids[p], i), After(kids[p], i))
    ensures Placed(h', Attach(kids, p, i, c), n)
  {
    hide Unique, Represents, Linked;
    var ks' := kids[p][..i] + [c] + kids[p][i..];
    InsertPlaces(h, kids, p, i);
    SameNodes(h, kids);
    if n == c {
      assert ks'[i] == c;
    } else if !h[n].Orphan() {
      var q, j := ChildAt(h, kids, n);
      if q == p { assert ks'[if j < i then j else j + 1] == n; }
    }
  }
  // ---- the document --------------------------------------------------------------------------------

  /** How InsertAfterChild may end. The last is its null dereference. */
  datatype Outcome = Added(node: XMLNode) | Refused | NullDereference

  ghost function Elements(s: seq<XMLNode>): set<XMLNode> {
    set n | n in s
  }

  ghost function OfPool(s: set<XMLNode>, k: Pool): set<XMLNode> {
    set n | n in s && n.memPool == k
  }

  /** One counter of each of the three node pools. */
  datatype Counters = Counters(element: int, text: int, comment: int) {
    function Of(k: Pool): int {
      match k
      case ElementPool => element
      case TextPool => text
      case CommentPool => comment
    }

    function Add(k: Pool, d: int): (r: Counters)
      ensures forall j: Pool :: r.Of(j) == Of(j) + if j == k then d else 0
    {
      match k
      case ElementPool => this.(element := element + d)
      case TextPool => this.(text := text + d)
      case CommentPool => this.(comment := comment + d)
    }
  }

  /** The counters count the nodes of s, pool by pool. */
  ghost predicate Count(c: Counters, s: set<XMLNode>) {
    forall k: Pool :: c.Of(k) == |OfPool(s, k)|
  }

  lemma CountNone()
    ensures Count(Counters(0, 0, 0), {})
  {
    forall k: Pool ensures Counters(0, 0, 0).Of(k) == |OfPool({}, k)| {
      assert OfPool({}, k) == {};
    }
  }

  lemma CountMore(c: Counters, s: set<XMLNode>, n: XMLNode)
    requires Count(c, s) && n !in s
    ensures Count(c.Add(n.memPool, 1), s + {n})
  {
    forall k: Pool ensures c.Add(n.memPool, 1).Of(k) == |OfPool(s + {n}, k)| {
      assert OfPool(s + {n}, k) == if n.memPool == k then OfPool(s, k) + {n} else OfPool(s, k);
    }
  }

  lemma CountFewer(c: Counters, s: set<XMLNode>, n: XMLNode)
    requires Count(c, s) && n in s
    ensures Count(c.Add(n.memPool, -1), s - {n})
  {
    forall k: Pool ensures c.Add(n.memPool, -1).Of(k) == |OfPool(s - {n}, k)| {
      assert OfPool(s, k) == if n.memPool == k then OfPool(s - {n}, k) + {n} else OfPool(s - {n}, k);
    }
  }

  /** addThis moved to the end, or to the front, of the children of p. */
  ghost function InsertedLast(kids: Kids, p: XMLNode, addThis: XMLNode): Kids {
    var k := Detach(kids, addThis);
    if p in k then Attach(k, p, |k[p]|, addThis) else k
  }

  ghost function InsertedFirst(kids: Kids, p: XMLNode, addThis: XMLNode): Kids {
    var k := Detach(kids, addThis);
    if p in k then Attach(k, p, 0, addThis) else k
  }

  ghost function Behind(k: Kids, p: XMLNode, afterThis: XMLNode, addThis: XMLNode): Kids {
    if p in k && afterThis in k[p] then Attach(k, p, IndexOf(k[p], afterThis) + 1, addThis) else k
  }

  lemma IsBehind(k: Kids, p: XMLNode, afterThis: XMLNode, addThis: XMLNode)
    requires p in k && afterThis in k[p]
    ensures Behind(k, p, afterThis, addThis) == Attach(k, p, IndexOf(k[p], afterThis) + 1, addThis)
  {
  }

  /** addThis moved behind afterThis among the children of p. */
  ghost function InsertedAfter(kids: Kids, p: XMLNode, afterThis: XMLNode, addThis: XMLNode): Kids {
    if afterThis == addThis then kids else Behind(Detach(kids, addThis), p, afterThis, addThis)
  }

  /** x is child i of p now; the other children of p, and those of every other node, are the same in the
      same order, except that x is no longer where it was. */
  ghost predicate PlacedAt(k: Kids, k': Kids, p: XMLNode, x: XMLNode, i: int) {
    && p in k && k'.Keys == k.Keys && 0 <= i < |k'[p]| && k'[p][i] == x
    && Loses(k[p], k'[p][..i] + k'[p][i + 1..], x)
    && forall q | q in k && q != p :: Loses(k[q], k'[q], x)
  }

  ghost predicate PlacedBehind(k: Kids, k': Kids, p: XMLNode, afterThis: XMLNode, x: XMLNode) {
    exists i: int :: PlacedAt(k, k', p, x, i) && i > 0 && k'[p][i - 1] == afterThis
  }

  lemma AttachedPlaces(k: Kids, p: XMLNode, i: nat, x: XMLNode)
    requires p in k && i <= |Detach(k, x)[p]|
    ensures PlacedAt(k, Attach(Detach(k, x), p, i, x), p, x, i)
  {
    var d := Detach(k, x);
    var k' := Attach(d, p, i, x);
    assert k'[p][..i] + k'[p][i + 1..] == d[p];
    forall q | q in k ensures Loses(k[q], d[q], x) { WithoutLoses(k[q], x); }
  }

  lemma LastPlaced(k: Kids, p: XMLNode, x: XMLNode)
    requires p in k
    ensures var k' := InsertedLast(k, p, x); p in k' && PlacedAt(k, k', p, x, |k'[p]| - 1)
  {
    hide Detach, PlacedAt;
    KeysDetached(k, x);
    AttachedPlaces(k, p, |Detach(k, x)[p]|, x);
  }

  lemma FirstPlaced(k: Kids, p: XMLNode, x: XMLNode)
    requires p in k
    ensures PlacedAt(k, InsertedFirst(k, p, x), p, x, 0)
  {
    hide Detach, Attach, PlacedAt;
    KeysDetached(k, x);
    AttachedPlaces(k, p, 0, x);
  }

  lemma BehindPlaced(k: Kids, p: XMLNode, afterThis: XMLNode, x: XMLNode)
    requires p in k && afterThis in k[p] && afterThis != x
    ensures PlacedBehind(k, InsertedAfter(k, p, afterThis, x), p, afterThis, x)
  {
    hide PlacedAt;
    KeysDetached(k, x);
    WithoutOther(k[p], afterThis, x);
    var d := Detach(k, x);
    var i := IndexOf(d[p], afterThis) + 1;
    AttachedPlaces(k, p, i, x);
    assert PlacedAt(k, InsertedAfter(k, p, afterThis, x), p, x, i);
  }

  lemma {:induction false} WithoutOther(s: seq<XMLNode>, a: XMLNode, x: XMLNode)
    requires a in s && a != x
    ensures a in Without(s, x)
  {
    if s[0] != x && s[0] != a { WithoutOther(s[1..], a, x); }
  }

  class XMLDocument {
    const id: int
    const root: XMLNode
    var unlinked: seq<XMLNode>
    var currentAllocs: Counters
    var untracked: Counters
    ghost var kids: Kids
    ghost var rank: map<XMLNode, nat>

    constructor (id: int)
      ensures Valid() && fresh(root) && kids == map[root := []] && this.id == id
    {
      var r := new XMLNode(id, DocumentContent);
      this.id, root, unlinked := id, r, [];
      currentAllocs, untracked := Counters(0, 0, 0), Counters(0, 0, 0);
      kids, rank := map[r := []], map[r := 0];
      new;
      CountNone();
      assert kids.Keys - {root} == {} && Elements(unlinked) - {} == {};
    }

    /** A node made for this document, which is itself the only document node among them. */
    ghost predicate Belongs(n: XMLNode) {
      n.document == id && WellNamed(n.content) && (n.content.DocumentContent? <==> n == root)
    }

    /** The pointers of the live nodes are a forest, with the document as one of its roots. */
    ghost predicate Tree()
      reads this`kids, this`rank, kids.Keys
    {
      && IsForest(kids, rank) && Represents(Heap(kids), kids) && root in kids && root.parent == null
      && (forall n | n in kids :: Belongs(n))
    }

    /** A live node is linked below a parent, or is in _unlinked once; or it is being deleted. */
    ghost predicate Listed(dying: set<XMLNode>)
      reads this`unlinked, this`kids, kids.Keys
    {
      && NoRepeats(unlinked) && (forall n | n in unlinked :: n in kids && n != root)
      && (forall n | n in kids && n != root :: n.parent == null <==> n in unlinked || n in dying)
    }

    /** The counters of the pools; the nodes in `tracked` are in _unlinked but tracked already. */
    ghost predicate Counted(tracked: set<XMLNode>)
      reads this
    {
      Count(untracked, Elements(unlinked) - tracked) && Count(currentAllocs, kids.Keys - {root})
    }

    lemma KnownForest()
      requires Tree()
      ensures IsForest(kids, rank) && Ranked(kids, rank) && root in kids
    {
    }

    ghost predicate Valid()
      reads this, kids.Keys
    {
      Tree() && Listed({}) && Counted({})
    }

    /** CreateUnlinkedNode: a node from its pool, in _unlinked. */
    method CreateUnlinkedNode(content: Content) returns (node: XMLNode)
      requires Valid() && WellNamed(content) && !content.DocumentContent?
      modifies this
      ensures Valid() && fresh(node) && node.content == content && kids == old(kids)[node := []]
      ensures unlinked == old(unlinked) + [node]
    {
      hide Valid;
      node := new XMLNode(id, content);
      Enlist(node);
    }

    /** The bookkeeping for a node that has just been made. */
    method Enlist(node: XMLNode)
      requires Valid() && node !in kids && node.document == id && WellNamed(node.content)
      requires !node.content.DocumentContent?
      requires node.Pointers() == Links(null, null, null, null, null)
      modifies this
      ensures Valid() && kids == old(kids)[node := []] && unlinked == old(unlinked) + [node]
    {
      hide Represents, IsForest, Count, Elements, NoRepeats;
      NewRepresents(Heap(kids), kids, rank, node);
      NewCounts(node);
      NewInList(unlinked, node);
      ghost var h := Heap(kids);
      currentAllocs, untracked := currentAllocs.Add(node.memPool, 1), untracked.Add(node.memPool, 1);
      unlinked := unlinked + [node];
      kids, rank := kids[node := []], rank[node := 0];
      assert Heap(kids) == h[node := node.Pointers()];
    }

    /** The counters with one more node in _unlinked. */
    lemma NewCounts(node: XMLNode)
      requires Counted({}) && node !in kids && node !in unlinked && node != root
      ensures Count(currentAllocs.Add(node.memPool, 1), kids[node := []].Keys - {root})
      ensures Count(untracked.Add(node.memPool, 1), Elements(unlinked + [node]) - {})
    {
      hide Count;
      assert Elements(unlinked) - {} == Elements(unlinked);
      CountMore(currentAllocs, kids.Keys - {root}, node);
      CountMore(untracked, Elements(unlinked), node);
      assert kids[node := []].Keys - {root} == kids.Keys - {root} + {node};
      assert Elements(unlinked + [node]) - {} == Elements(unlinked) + {node};
    }

    /** MarkInUse: the node is looked for in _unlinked and swapped out. */
    method MarkInUse(node: XMLNode)
      requires NoRepeats(unlinked)
      modifies this`unlinked
      ensures NoRepeats(unlinked) && Elements(unlinked) == old(Elements(unlinked)) - {node}
      ensures forall n | n in unlinked :: n in old(unlinked) && n != node
      ensures forall n | n in old(unlinked) && n != node :: n in unlinked
      ensures if node in old(unlinked) then |unlinked| + 1 == |old(unlinked)| else unlinked == old(unlinked)
    {
      for i := 0 to |unlinked|
        invariant unlinked == old(unlinked) && node !in unlinked[..i]
      {
        if node == unlinked[i] {
          SwapRemoved(unlinked, i);
          var last := |unlinked| - 1;
          unlinked := unlinked[i := unlinked[last]][..last];
          assert forall n :: n in unlinked <==> n in Elements(unlinked);
          assert forall n :: n in old(unlinked) <==> n in Elements(old(unlinked));
          return;
        }
      }
      assert unlinked[..|unlinked|] == unlinked;
    }

    method SetTracked(pool: Pool)
      modifies this`untracked
      ensures untracked == old(untracked).Add(pool, -1)
    {
      untracked := untracked.Add(pool, -1);
    }

    // ---- inserting ---------------------------------------------------------------------------

    /** InsertChildPreamble: the node leaves its parent, or _unlinked. */
    method InsertChildPreamble(insertThis: XMLNode)
      requires Valid() && insertThis in kids && insertThis != root
      modifies this`unlinked, this`untracked, this`kids, kids.Keys
      ensures Tree() && Listed({insertThis}) && Counted({}) && insertThis !in unlinked
      ensures Elements(unlinked) == old(Elements(unlinked)) - {insertThis}
      ensures kids == Detach(old(kids), insertThis) && IsRoot(kids, insertThis) && insertThis.Pointers().Orphan()
    {
      if insertThis.parent != null {
        TakeFromParent(insertThis);
      } else {
        TakeFromUnlinked(insertThis);
      }
    }

    method TakeFromParent(child: XMLNode)
      requires Valid() && child in kids && child != root && child.parent != null
      modifies this`kids, kids.Keys
      ensures Tree() && Listed({child}) && Counted({}) && child !in unlinked
      ensures Elements(unlinked) == old(Elements(unlinked)) - {child}
      ensures kids == Detach(old(kids), child) && IsRoot(kids, child) && child.Pointers().Orphan()
    {
      hide Represents, IsForest, Count, Detach, IsRoot;
      assert child !in unlinked && Elements(unlinked) == Elements(unlinked) - {child};
      DetachChild(child);
    }

    /** p.Unlink( child ), with the forest. */
    method DetachChild(child: XMLNode)
      requires Tree() && child in kids && child != root && child.parent != null
      modifies this`kids, kids.Keys
      ensures Tree() && kids == Detach(old(kids), child) && kids.Keys == old(kids).Keys && IsRoot(kids, child)
      ensures child.Pointers().Orphan()
      ensures forall n | n in kids && n != child :: n.parent == old(n.parent)
    {
      hide Represents, IsForest, Detach, IsRoot;
      KeysDetached(kids, child);
      ForestDetached(kids, rank, child);
      ParentKnown(Heap(kids), kids, child);
      ghost var nodes := kids;
      child.parent.Unlink(child, kids);
      kids := Detach(kids, child);
      assert Heap(kids) == Heap(nodes);
    }

    method TakeFromUnlinked(node: XMLNode)
      requires Valid() && node in kids && node != root && node.parent == null
      modifies this`unlinked, this`untracked
      ensures Tree() && Listed({node}) && Counted({}) && node !in unlinked
      ensures Elements(unlinked) == old(Elements(unlinked)) - {node}
      ensures kids == Detach(kids, node) && IsRoot(kids, node) && node.Pointers().Orphan()
    {
      hide Represents, IsForest, Count, Detach, IsRoot;
      OrphanIsRoot(Heap(kids), kids, node);
      assert Elements(unlinked) - {} == Elements(unlinked) && node in Elements(unlinked);
      CountFewer(untracked, Elements(unlinked), node);
      MarkInUse(node);
      SetTracked(node.memPool);
      assert Elements(unlinked) - {} == Elements(unlinked);
    }

    /** What a caller of the Insert functions owes: a document or an ancestor is not inserted. */
    ghost predicate MayInsert(p: XMLNode, addThis: XMLNode)
      reads this, kids.Keys
      requires Valid()
    {
      && p in kids && (addThis.document == id ==> addThis in kids && addThis != root && p !in Sub(kids, rank, addThis))
    }

    ghost predicate SameAs(k: Kids, u: seq<XMLNode>, c: Counters, t: Counters)
      reads this
    {
      kids == k && unlinked == u && currentAllocs == c && untracked == t
    }

    /** Any node may be inserted below the document. */
    lemma MayGoBelowRoot(node: XMLNode)
      requires Valid() && node in kids && node != root
      ensures MayInsert(root, node)
    {
      hide IsForest, Represents, Sub;
      ForestDetached(kids, rank, root);
      OrphanIsRoot(Heap(kids), kids, root);
      if root in Sub(kids, rank, node) {
        var p, i := SubParent(kids, rank, node, root);
        assert false;
      }
    }

    method InsertEndChild(p: XMLNode, addThis: XMLNode) returns (r: XMLNode?)
      requires Valid() && MayInsert(p, addThis)
      modifies this, kids.Keys
      ensures Valid()
      ensures r == if addThis.document == id then addThis else null
      ensures r == null ==> SameAs(old(kids), old(unlinked), old(currentAllocs), old(untracked))
      ensures r != null ==> kids == InsertedLast(old(kids), p, addThis)
      ensures r != null ==> p in kids && PlacedAt(old(kids), kids, p, addThis, |kids[p]| - 1)
    {
      if addThis.document != id {
        return null;
      }
      hide Valid, Ready, Sub, Detach, Attach, Elements, PlacedAt;
      LastPlaced(kids, p, addThis);
      Prepare(p, addThis);
      PlaceLast(p, addThis);
      return addThis;
    }

    /** A node put at the end of the document's children. */
    method InsertNewChild(node: XMLNode)
      requires Valid() && node in kids && node != root
      modifies this, kids.Keys
      ensures Valid() && kids == InsertedLast(old(kids), root, node)
    {
      hide IsForest, Represents, Count, InsertedLast;
      MayGoBelowRoot(node);
      var _ := InsertEndChild(root, node);
    }

    method InsertFirstChild(p: XMLNode, addThis: XMLNode) returns (r: XMLNode?)
      requires Valid() && MayInsert(p, addThis)
      modifies this, kids.Keys
      ensures Valid()
      ensures r == if addThis.document == id then addThis else null
      ensures r == null ==> SameAs(old(kids), old(unlinked), old(currentAllocs), old(untracked))
      ensures r != null ==> kids == InsertedFirst(old(kids), p, addThis)
      ensures r != null ==> PlacedAt(old(kids), kids, p, addThis, 0)
    {
      if addThis.document != id {
        return null;
      }
      hide Valid, Ready, Sub, Detach, Attach, Elements, PlacedAt;
      FirstPlaced(kids, p, addThis);
      Prepare(p, addThis);
      PlaceFirst(p, addThis);
      return addThis;
    }

    /** After the preamble: addThis is nowhere, and may go below p. */
    ghost predicate Ready(p: XMLNode, addThis: XMLNode)
      reads this, kids.Keys
    {
      && Tree() && Listed({addThis}) && Counted({}) && addThis !in unlinked
      && p in kids && addThis in kids && addThis != root && addThis != p && p !in Sub(kids, rank, addThis)
      && IsRoot(kids, addThis) && addThis.Pointers().Orphan()
    }

    lemma IsReady(p: XMLNode, addThis: XMLNode)
      requires Tree() && Listed({addThis}) && Counted({}) && addThis !in unlinked
      requires p in kids && addThis in kids && addThis != root && addThis != p && p !in Sub(kids, rank, addThis)
      requires IsRoot(kids, addThis) && addThis.Pointers().Orphan()
      ensures Ready(p, addThis)
    {
    }

    lemma ReadyToLink(p: XMLNode, addThis: XMLNode)
      requires Ready(p, addThis)
      ensures Linkable(kids, p, addThis) && p in kids && addThis in kids
    {
      hide Represents;
    }

    method Prepare(p: XMLNode, addThis: XMLNode)
      requires Valid() && MayInsert(p, addThis) && addThis.document == id
      modifies this`unlinked, this`untracked, this`kids, kids.Keys
      ensures Ready(p, addThis) && kids == Detach(old(kids), addThis) && kids.Keys == old(kids).Keys
      ensures Elements(unlinked) == old(Elements(unlinked)) - {addThis}
    {
      hide Represents, IsForest, Count, Detach, IsRoot, Sub, Ready, Elements, NoRepeats;
      Insertable(kids, rank, p, addThis);
      InsertChildPreamble(addThis);
      IsReady(p, addThis);
    }

    method PlaceLast(p: XMLNode, addThis: XMLNode)
      requires Ready(p, addThis)
      modifies this`kids, this`rank, kids.Keys
      ensures Valid() && p in old(kids) && kids == Attach(old(kids), p, |old(kids)[p]|, addThis)
    {
      hide Represents, Count, Attach, Linkable, IsForest;
      ReadyToLink(p, addThis);
      p.LinkLast(addThis, kids);
      Adopt(p, |kids[p]|, addThis);
    }

    method PlaceFirst(p: XMLNode, addThis: XMLNode)
      requires Ready(p, addThis)
      modifies this`kids, this`rank, kids.Keys
      ensures Valid() && p in old(kids) && kids == Attach(old(kids), p, 0, addThis)
    {
      hide Represents, Count, Attach, Linkable, IsForest;
      ReadyToLink(p, addThis);
      p.LinkFirst(addThis, kids);
      Adopt(p, 0, addThis);
    }

    method PlaceAfter(p: XMLNode, afterThis: XMLNode, addThis: XMLNode)
      requires Ready(p, addThis) && afterThis in kids && afterThis.parent == p && afterThis.next != null
      modifies this`kids, this`rank, kids.Keys
      ensures Valid() && kids == Behind(old(kids), p, afterThis, addThis)
    {
      hide Represents, Count, Attach, Linkable, IsForest, Behind, IndexOf;
      ReadyToLink(p, addThis);
      NextOf(p, afterThis);
      ghost var i := IndexOf(kids[p], afterThis);
      IsBehind(kids, p, afterThis, addThis);
      p.LinkAfter(afterThis, addThis, i, kids);
      Adopt(p, i + 1, addThis);
    }

    /** A child and what follows it, in the list and by the pointers. */
    lemma NextOf(p: XMLNode, n: XMLNode)
      requires Tree() && n in kids && n.parent == p
      ensures p in kids && n in kids[p] && NoRepeats(kids[p])
      ensures var ks, i := kids[p], IndexOf(kids[p], n);
        n.next == (if i + 1 == |ks| then null else ks[i + 1]) &&
        (i + 1 < |ks| ==> ks[i + 1].next == (if i + 2 == |ks| then null else ks[i + 2]))
    {
      hide IsForest, Represents;
      var q, j := ChildAt(Heap(kids), kids, n);
      ListFacts(kids, rank, p);
      var ks, i := kids[p], IndexOf(kids[p], n);
      FitsAt(Heap(kids), kids, p);
      assert Linked(Heap(kids), p, ks, i);
      if i + 1 < |ks| { assert Linked(Heap(kids), p, ks, i + 1); }
    }

    /** Before the call, by the pointers: is afterThis the last child once addThis has left? */
    lemma LastAfterwards(p: XMLNode, afterThis: XMLNode, addThis: XMLNode)
      requires Tree() && afterThis in kids && afterThis.parent == p && addThis in kids && afterThis != addThis
      ensures p in Detach(kids, addThis) && afterThis in Detach(kids, addThis)[p]
      ensures var ks := Detach(kids, addThis)[p];
        IndexOf(ks, afterThis) + 1 == |ks| <==>
          afterThis.next == null || (afterThis.next == addThis && addThis.next == null)
    {
      hide IsForest, Represents, Without, IndexOf, NoRepeats;
      NextOf(p, afterThis);
      LastWithout(kids[p], afterThis, addThis);
    }

    /** InsertAfterChild behind a child that is not the last: it is not asked again, once addThis has
        left its place, whether there is a next child. */
    method InsertBetween(p: XMLNode, afterThis: XMLNode, addThis: XMLNode) returns (r: Outcome)
      requires Valid() && MayInsert(p, addThis) && addThis.document == id
      requires afterThis in kids && afterThis.parent == p && afterThis != addThis && afterThis.next != null
      modifies this, kids.Keys
      ensures r == if old(afterThis.next == addThis && addThis.next == null) then NullDereference else Added(addThis)
      ensures r.Added? ==> Valid() && kids == InsertedAfter(old(kids), p, afterThis, addThis)
    {
      hide Valid, Ready, Sub, Detach, Behind;
      ValidTree();
      LastAfterwards(p, afterThis, addThis);
      Prepare(p, addThis);
      ReadyNext(p, addThis, afterThis);
      if afterThis.next == null {
        return NullDereference;
      }
      PlaceAfter(p, afterThis, addThis);
      return Added(addThis);
    }

    /** Whether InsertAfterChild is going to ask a missing next child for its _prev. */
    ghost predicate OnlyLastBehind(p: XMLNode, afterThis: XMLNode, addThis: XMLNode)
      reads afterThis, addThis
    {
      && addThis.document == id && afterThis.parent == p
      && afterThis != addThis && afterThis.next == addThis && addThis.next == null
    }

    /** InsertAfterChild, as the code has it. */
    method InsertAfterChild(p: XMLNode, afterThis: XMLNode, addThis: XMLNode) returns (r: Outcome)
      requires Valid() && MayInsert(p, addThis) && (afterThis.parent == p ==> afterThis in kids)
      modifies this, kids.Keys
      ensures r.Refused? <==> addThis.document != id || old(afterThis.parent) != p
      ensures r.NullDereference? <==> old(OnlyLastBehind(p, afterThis, addThis))
      ensures !r.NullDereference? ==> Valid()
      ensures r.Refused? ==> SameAs(old(kids), old(unlinked), old(currentAllocs), old(untracked))
      ensures r.Added? ==> r.node == addThis && kids == InsertedAfter(old(kids), p, afterThis, addThis)
      ensures r.Added? ==>
        if afterThis == addThis then kids == old(kids) else PlacedBehind(old(kids), kids, p, afterThis, addThis)
    {
      if addThis.document != id || afterThis.parent != p {
        return Refused;
      }
      if afterThis == addThis {
        return Added(addThis);
      }
      hide Valid, PlacedBehind;
      ChildOf(p, afterThis);
      BehindPlaced(kids, p, afterThis, addThis);
      if afterThis.next == null {
        InsertedAtEnd(p, afterThis, addThis);
        var node := InsertEndChild(p, addThis);
        return Added(addThis);
      }
      r := InsertBetween(p, afterThis, addThis);
    }

    lemma ChildOf(p: XMLNode, n: XMLNode)
      requires Valid() && n in kids && n.parent == p
      ensures p in kids && n in kids[p]
    {
      hide IsForest, Represents;
      NextOf(p, n);
    }

    lemma InsertedAtEnd(p: XMLNode, afterThis: XMLNode, addThis: XMLNode)
      requires Valid() && afterThis in kids && afterThis.parent == p && addThis in kids && afterThis != addThis
      requires afterThis.next == null
      ensures InsertedAfter(kids, p, afterThis, addThis) == InsertedLast(kids, p, addThis)
    {
      hide IsForest, Represents, Detach;
      LastAfterwards(p, afterThis, addThis);
    }

    lemma FirstOf(p: XMLNode)
      requires Tree() && p in kids
      ensures p.firstChild == (if kids[p] == [] then null else kids[p][0])
      ensures kids[p] != [] ==> kids[p][0] in kids && kids[p][0].parent == p
    {
      hide IsForest, Represents;
      FitsAt(Heap(kids), kids, p);
      if kids[p] != [] { assert Linked(Heap(kids), p, kids[p], 0); }
    }

    lemma ChildPointers(p: XMLNode, i: nat)
      requires Tree() && p in kids && i < |kids[p]|
      ensures var ks := kids[p];
        ks[i].parent == p && ks[i].next == if i + 1 == |ks| then null else ks[i + 1]
    {
      hide IsForest, Represents;
      FitsAt(Heap(kids), kids, p);
      assert Linked(Heap(kids), p, kids[p], i);
    }

    lemma ValidTree()
      requires Valid()
      ensures Tree()
    {
    }

    lemma ReadyNext(p: XMLNode, addThis: XMLNode, n: XMLNode)
      requires Ready(p, addThis) && p in kids && n in kids[p]
      ensures n in kids && n.parent == p && (n.next == null <==> IndexOf(kids[p], n) + 1 == |kids[p]|)
    {
      hide IsForest, Represents;
      FitsAt(Heap(kids), kids, p);
      var i := IndexOf(kids[p], n);
      assert Linked(Heap(kids), p, kids[p], i);
    }

    /** The forest catches up with the pointers: addThis is linked as child i of p. */
    ghost method Adopt(p: XMLNode, i: nat, addThis: XMLNode)
      requires IsForest(kids, rank) && p in kids && addThis in kids && i <= |kids[p]| && IsRoot(kids, addThis)
      requires p !in Sub(kids, rank, addThis) && Represents(Heap(kids), Attach(kids, p, i, addThis))
      requires root in kids && root.parent == null && (forall n | n in kids :: Belongs(n))
      requires NoRepeats(unlinked) && (forall n | n in unlinked :: n in kids && n != root) && Counted({})
      requires forall n | n in kids && n != root :: n.parent == null <==> n in unlinked
      modifies this`kids, this`rank
      ensures Valid() && kids == Attach(old(kids), p, i, addThis)
    {
      hide Represents, IsForest, Count, Attach, Raised, NoRepeats, Elements, IsRoot, Sub;
      AttachForest(kids, rank, p, i, addThis);
      ForestDetached(kids, rank, p);
      KeysAttached(kids, p, i, addThis);
      ghost var nodes := kids;
      kids, rank := Attach(kids, p, i, addThis), Raised(kids, rank, p, addThis);
      assert Heap(kids) == Heap(nodes);
    }

    // ---- deleting ----------------------------------------------------------------------------

    /** The destructor's last act: the node goes back to its pool. */
    method FreeNode(node: XMLNode)
      requires Tree() && node in kids && node != root && node.parent == null && kids[node] == []
      requires Count(currentAllocs, kids.Keys - {root})
      modifies this`currentAllocs, this`kids
      ensures Tree() && kids == Minus(old(kids), {node}) && kids.Keys == old(kids).Keys - {node}
      ensures Count(currentAllocs, kids.Keys - {root})
    {
      hide Represents, IsForest, Count;
      OrphanIsRoot(Heap(kids), kids, node);
      FreedRepresents(Heap(kids), kids, rank, node);
      CountFewer(currentAllocs, kids.Keys - {root}, node);
      ghost var h := Heap(kids);
      currentAllocs := currentAllocs.Add(node.memPool, -1);
      assert Minus(kids, {node}).Keys - {root} == kids.Keys - {root} - {node};
      kids := Minus(kids, {node});
      assert Heap(kids) == h - {node};
    }

    /** XMLNode::DeleteNode: out of _unlinked if it is there, its children deleted, itself freed. */
    method DestroyNode(node: XMLNode, ghost dying: set<XMLNode>)
      requires Tree() && Listed(dying) && Counted({node}) && node in kids && node != root && node.parent == null
      requires node in dying
      modifies this`unlinked, this`currentAllocs, this`kids, kids.Keys
      ensures Tree() && Listed(dying - {node}) && Counted({})
      ensures kids == Minus(old(kids), Sub(old(kids), rank, node)) && kids.Keys <= old(kids).Keys && node !in kids
      ensures if node in old(unlinked) then |unlinked| + 1 == |old(unlinked)| else unlinked == old(unlinked)
      ensures forall n | n in kids :: n.parent == old(n.parent)
      decreases rank[node], 2
    {
      hide Represents, IsForest, Count, Sub, Emptied, Minus, Tree;
      KnownForest();
      MarkInUse(node);
      assert Elements(unlinked) - {} == Elements(unlinked);
      DeleteChildren(node, dying);
      FreeNode(node);
      EmptiedThenFreed(old(kids), rank, node);
    }

    /** XMLNode::DeleteChildren. */
    method DeleteChildren(p: XMLNode, ghost dying: set<XMLNode>)
      requires Tree() && Listed(dying) && Counted({}) && p in kids
      modifies this`unlinked, this`currentAllocs, this`kids, kids.Keys
      ensures Tree() && Listed(dying) && Counted({}) && unlinked == old(unlinked)
      ensures kids == Emptied(old(kids), rank, p) && kids.Keys <= old(kids).Keys && p in kids && kids[p] == []
      ensures forall n | n in kids :: n.parent == old(n.parent)
      decreases rank[p], 1
    {
      hide Represents, IsForest, Count, Sub, Emptied, Minus;
      while p.firstChild != null
        invariant Tree() && Listed(dying) && Counted({}) && unlinked == old(unlinked)
        invariant p in kids && kids.Keys <= old(kids).Keys
        invariant forall n | n in kids :: n.parent == old(n.parent)
        invariant Emptied(kids, rank, p) == Emptied(old(kids), rank, p)
        decreases |kids[p]|
      {
        FirstOf(p);
        EmptiedStep(kids, rank, p);
        DeleteChild(p, p.firstChild, dying);
      }
      FirstOf(p);
      EmptiedAlready(kids, rank, p);
    }

    /** XMLNode::DeleteChild. */
    method DeleteChild(p: XMLNode, node: XMLNode, ghost dying: set<XMLNode>)
      requires Tree() && Listed(dying) && Counted({}) && p in kids && node in kids && node.parent == p
      modifies this`unlinked, this`currentAllocs, this`kids, kids.Keys
      ensures Tree() && Listed(dying) && Counted({}) && unlinked == old(unlinked)
      ensures kids == Minus(Detach(old(kids), node), Sub(old(kids), rank, node)) && kids.Keys <= old(kids).Keys
      ensures forall n | n in kids :: n.parent == old(n.parent)
      decreases rank[p], 0
    {
      hide Represents, IsForest, Count, Sub, Minus, Detach, Elements;
      ChildRank(p, node);
      assert Elements(unlinked) - {} == Elements(unlinked);
      OutOf(unlinked, node);
      DetachChild(node);
      assert dying + {node} - {node} == dying;
      DestroyNode(node, dying + {node});
    }

    /** XMLDocument::DeleteNode: a node of the tree, or one that was never used. */
    method DeleteNode(node: XMLNode)
      requires Valid() && node in kids && node != root
      modifies this`unlinked, this`untracked, this`currentAllocs, this`kids, kids.Keys
      ensures Valid() && kids == Minus(Detach(old(kids), node), Sub(old(kids), rank, node))
      ensures kids.Keys <= old(kids).Keys
      ensures node in old(unlinked) ==>
        |unlinked| < |old(unlinked)| && kids == Minus(old(kids), Sub(old(kids), rank, node))
    {
      hide Represents, IsForest, Count, Sub, Minus, Detach, Elements;
      if node.parent != null {
        ParentKnown(Heap(kids), kids, node);
        DeleteChild(node.parent, node, {});
      } else {
        OrphanIsRoot(Heap(kids), kids, node);
        DeleteUnused(node);
      }
    }

    /** A node that was never linked: SetTracked, and XMLNode::DeleteNode. */
    method DeleteUnused(node: XMLNode)
      requires Valid() && node in kids && node != root && node.parent == null
      modifies this`unlinked, this`untracked, this`currentAllocs, this`kids, kids.Keys
      ensures Valid() && kids == Minus(old(kids), Sub(old(kids), rank, node)) && kids.Keys <= old(kids).Keys
      ensures |unlinked| < |old(unlinked)|
    {
      hide Represents, IsForest, Count, Sub, Minus, Elements;
      InElements(unlinked, node);
      assert Elements(unlinked) - {} == Elements(unlinked);
      CountFewer(untracked, Elements(unlinked), node);
      SetTracked(node.memPool);
      assert {node} - {node} == {};
      DestroyNode(node, {node});
    }

    /** XMLDocument::Clear: nothing is left but the document, and every counter is back at zero. */
    method Clear()
      requires Valid()
      modifies this`unlinked, this`untracked, this`currentAllocs, this`kids, kids.Keys
      ensures Valid() && kids == map[root := []] && unlinked == []
      ensures currentAllocs == untracked == Counters(0, 0, 0)
    {
      hide Represents, IsForest, Count, Sub, Minus, Detach, Elements, Emptied;
      DeleteChildren(root, {});
      while |unlinked| != 0
        invariant Valid() && kids.Keys <= old(kids).Keys && kids[root] == []
        decreases |unlinked|
      {
        RootStays(unlinked[0]);
        DeleteNode(unlinked[0]);
      }
      NothingLeft();
    }

    lemma RootStays(node: XMLNode)
      requires Valid() && node in kids && node != root && kids[root] == []
      ensures var k := Minus(kids, Sub(kids, rank, node)); root in k ==> k[root] == []
    {
    }

    lemma NothingLeft()
      requires Valid() && unlinked == [] && kids[root] == []
      ensures kids == map[root := []] && currentAllocs == untracked == Counters(0, 0, 0)
    {
      hide Represents, IsForest;
      forall n | n in kids && n != root ensures exists p | p in kids :: n in kids[p] {
        var p, i := ChildAt(Heap(kids), kids, n);
        assert n in kids[p];
      }
      ForestDetached(kids, rank, root);
      OnlyRoot(kids, rank, root);
      assert kids.Keys - {root} == {} && Elements(unlinked) - {} == {};
      CountedNone(currentAllocs);
      CountedNone(untracked);
    }

    lemma ChildRank(p: XMLNode, node: XMLNode)
      requires Tree() && node in kids && node.parent == p
      ensures p in kids && node != root && node in rank && p in rank && rank[node] < rank[p]
      ensures IsForest(Detach(kids, node), rank) && node in Detach(kids, node)
      ensures Sub(Detach(kids, node), rank, node) == Sub(kids, rank, node)
    {
      hide Represents, Detach, Sub;
      NextOf(p, node);
      DetachForest(kids, rank, node);
      KeysDetached(kids, node);
      DetachSub(kids, rank, node);
    }
  }

  lemma InElements(s: seq<XMLNode>, n: XMLNode)
    requires n in s
    ensures n in Elements(s)
  {
  }

  lemma CountedNone(c: Counters)
    requires Count(c, {})
    ensures c == Counters(0, 0, 0)
  {
    forall k: Pool ensures c.Of(k) == 0 { assert OfPool({}, k) == {}; }
    assert c.Of(ElementPool) == 0 && c.Of(TextPool) == 0 && c.Of(CommentPool) == 0;
  }

  lemma OutOf(s: seq<XMLNode>, n: XMLNode)
    requires n !in s
    ensures Elements(s) - {n} == Elements(s)
  {
  }

  lemma FreedRepresents(h: map<XMLNode, Links>, kids: Kids, rank: map<XMLNode, nat>, n: XMLNode)
    requires Represents(h, kids) && IsForest(kids, rank) && n in kids && IsRoot(kids, n) && kids[n] == []
    ensures Represents(h - {n}, Minus(kids, {n})) && IsForest(Minus(kids, {n}), rank)
  {
    hide Linked, Represents, Fits, IsForest, Sub;
    var h', kids' := h - {n}, Minus(kids, {n});
    FreedForest(kids, rank, n);
    SameNodes(h, kids);
    forall p | p in kids' ensures Fits(h', p, kids'[p]) {
      FitsAt(h, kids, p);
      assert n !in kids[p];
      FitsWithout(h, p, kids[p], n);
    }
    forall m | m in kids' ensures Placed(h', kids', m) { assert Placed(h, kids, m); }
    IsRepresented(h', kids');
  }

  lemma FreedForest(kids: Kids, rank: map<XMLNode, nat>, n: XMLNode)
    requires IsForest(kids, rank) && n in kids && IsRoot(kids, n) && kids[n] == []
    ensures IsForest(Minus(kids, {n}), rank)
  {
    LeafSub(kids, rank, n);
    MinusForest(kids, rank, n);
  }

  lemma FitsWithout(h: map<XMLNode, Links>, p: XMLNode, ks: seq<XMLNode>, n: XMLNode)
    requires p in h && Fits(h, p, ks) && n !in ks && n != p
    ensures Fits(h - {n}, p, ks)
  {
    forall i | 0 <= i < |ks| ensures Linked(h - {n}, p, ks, i) {
      assert Linked(h, p, ks, i) && ks[i] in ks;
    }
  }

  lemma ListFacts(kids: Kids, rank: map<XMLNode, nat>, p: XMLNode)
    requires IsForest(kids, rank) && p in kids
    ensures NoRepeats(kids[p])
  {
  }

  lemma KeysAttached(kids: Kids, p: XMLNode, i: nat, c: XMLNode)
    requires p in kids && i <= |kids[p]|
    ensures Attach(kids, p, i, c).Keys == kids.Keys
  {
  }

  lemma KeysDetached(kids: Kids, c: XMLNode)
    ensures Detach(kids, c).Keys == kids.Keys
  {
  }

  lemma ForestDetached(kids: Kids, rank: map<XMLNode, nat>, c: XMLNode)
    requires IsForest(kids, rank)
    ensures Unique(kids) && Ranked(kids, rank) && IsForest(Detach(kids, c), rank)
  {
    DetachForest(kids, rank, c);
  }

  lemma ParentKnown(h: map<XMLNode, Links>, kids: Kids, n: XMLNode)
    requires Represents(h, kids) && n in kids && h[n].parent != null
    ensures h[n].parent in kids
  {
    var p, i := ChildAt(h, kids, n);
  }

  lemma OrphanIsRoot(h: map<XMLNode, Links>, kids: Kids, n: XMLNode)
    requires Represents(h, kids) && n in kids && h[n].parent == null
    ensures h[n].Orphan() && IsRoot(kids, n) && Detach(kids, n) == kids
  {
    hide Linked;
    assert Placed(h, kids, n);
    forall p | p in kids ensures n !in kids[p] {
      FitsAt(h, kids, p);
      forall i | 0 <= i < |kids[p]| ensures kids[p][i] != n { ParentOf(h, p, kids[p], i); }
    }
    DetachRoot(kids, n);
  }

  lemma ParentOf(h: map<XMLNode, Links>, p: XMLNode, ks: seq<XMLNode>, i: nat)
    requires i < |ks| && Linked(h, p, ks, i)
    ensures ks[i] in h && h[ks[i]].parent == p
  {
  }

  /** Taken out of its list, a node still has nothing above p below it. */
  lemma Insertable(kids: Kids, rank: map<XMLNode, nat>, p: XMLNode, c: XMLNode)
    requires IsForest(kids, rank) && p in kids && c in kids && p !in Sub(kids, rank, c)
    ensures IsForest(Detach(kids, c), rank) && p in Detach(kids, c) && c in Detach(kids, c) && p != c
    ensures p !in Sub(Detach(kids, c), rank, c) && Unique(Detach(kids, c)) && Detach(kids, c).Keys == kids.Keys
  {
    KeysDetached(kids, c);
    DetachForest(kids, rank, c);
    DetachSub(kids, rank, c);
    SubSelf(kids, rank, c);
  }

  lemma SwapRemoved(s: seq<XMLNode>, i: nat)
    requires i < |s| && NoRepeats(s)
    ensures var r := s[i := s[|s| - 1]][..|s| - 1]; NoRepeats(r) && Elements(r) == Elements(s) - {s[i]}
  {
    var last := |s| - 1;
    var r := s[i := s[last]][..last];
    forall n | n in Elements(s) - {s[i]} ensures n in r {
      var j :| 0 <= j < |s| && s[j] == n;
      assert r[if j == last then i else j] == n;
    }
  }

  lemma NewRepresents(h: map<XMLNode, Links>, kids: Kids, rank: map<XMLNode, nat>, n: XMLNode)
    requires Represents(h, kids) && IsForest(kids, rank) && n !in kids
    ensures Represents(h[n := Links(null, null, null, null, null)], kids[n := []])
    ensures IsForest(kids[n := []], rank[n := 0])
  {
    hide IsForest, Linked, Represents;
    NewForest(kids, rank, n);
    SameNodes(h, kids);
    var h' := h[n := Links(null, null, null, null, null)];
    var kids' := kids[n := []];
    forall p | p in kids ensures Fits(h', p, kids'[p]) {
      FitsAt(h, kids, p);
      FitsFrame(h, h', p, kids[p]);
    }
    IsRepresented(h', kids');
  }

  lemma NewInList(s: seq<XMLNode>, n: XMLNode)
    requires NoRepeats(s) && n !in s
    ensures NoRepeats(s + [n])
  {
  }

  lemma NewForest(kids: Kids, rank: map<XMLNode, nat>, n: XMLNode)
    requires IsForest(kids, rank) && n !in kids
    ensures IsForest(kids[n := []], rank[n := 0])
  {
  }

  lemma AppendTwo(k: Kids, r: XMLNode, a: XMLNode, b: XMLNode)
    requires k == map[r := [], a := [], b := []] && r != a && r != b && a != b
    ensures InsertedLast(k, r, a).Keys == {r, a, b}
    ensures var k2 := InsertedLast(InsertedLast(k, r, a), r, b); k2.Keys == {r, a, b} && k2[r] == [a, b]
  {
  }

  /** A document with two children. */
  method TwoChildren() returns (doc: XMLDocument, a: XMLNode, b: XMLNode)
    ensures fresh(doc) && fresh(doc.root) && fresh(a) && fresh(b) && doc.Valid() && a != b
    ensures doc.kids.Keys == {doc.root, a, b} && doc.kids[doc.root] == [a, b] && b != doc.root && b.document == doc.id
  {
    hide XMLDocument.Valid, InsertedLast;
    doc := new XMLDocument(0);
    a := doc.CreateUnlinkedNode(ElementContent("e", []));
    b := doc.CreateUnlinkedNode(ElementContent("e", []));
    AppendTwo(doc.kids, doc.root, a, b);
    doc.InsertNewChild(a);
    doc.InsertNewChild(b);
    doc.ValidTree();
  }

  /** The second of two children, moved behind the first, where it is already. */
  method MoveLastBehindItsNeighbour() returns (r: Outcome)
    ensures r.NullDereference?
  {
    hide IsForest, Represents, Count, Sub, Elements;
    var doc, a, b := TwoChildren();
    doc.MayGoBelowRoot(b);
    doc.ChildPointers(doc.root, 0);
    doc.ChildPointers(doc.root, 1);
    r := doc.InsertAfterChild(doc.root, a, b);
  }
}
