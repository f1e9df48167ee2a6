/** Copying a node with everything below it, into its own or another document. */
module DeepCloning {
  import opened Forest
  import opened Attributes
  import opened Dom

  datatype Tree = Tree(content: Content, children: seq<Tree>)

  /** The tree below a node. */
  ghost function TreeAt(kids: Kids, rank: map<XMLNode, nat>, n: XMLNode): Tree
    requires Ranked(kids, rank) && n in kids
    decreases rank[n]
  {
    Tree(n.content, seq(|kids[n]|, i requires 0 <= i < |kids[n]| => TreeAt(kids, rank, kids[n][i])))
  }

  /** The tree is fixed by the lists below the node. */
  lemma {:induction false} TreeFrame(kids: Kids, rank: map<XMLNode, nat>, kids': Kids, rank': map<XMLNode, nat>,
      n: XMLNode)
    requires Ranked(kids, rank) && Ranked(kids', rank') && n in kids
    requires forall m | m in Sub(kids, rank, n) :: m in kids && m in kids' && kids'[m] == kids[m]
    ensures n in kids' && TreeAt(kids', rank', n) == TreeAt(kids, rank, n)
    decreases rank[n]
  {
    SubSelf(kids, rank, n);
    forall i | 0 <= i < |kids[n]| ensures TreeAt(kids', rank', kids'[n][i]) == TreeAt(kids, rank, kids[n][i]) {
      forall m | m in Sub(kids, rank, kids[n][i]) ensures m in Sub(kids, rank, n) { BelowChild(kids, rank, n, i, m); }
      TreeFrame(kids, rank, kids', rank', kids[n][i]);
    }
  }

  /** The lists of k stand in kids. */
  ghost predicate Within(k: Kids, kids: Kids) {
    forall n | n in k :: n in kids && kids[n] == k[n]
  }

  /** The child lists of k can be walked by the pointers. */
  ghost predicate Readable(k: Kids)
    reads k.Keys
  {
    forall p | p in k :: Fits(Heap(k), p, k[p])
  }

  /** Part of a represented forest can be walked. */
  lemma ReadablePart(k: Kids, kr: map<XMLNode, nat>, kids: Kids)
    requires Ranked(k, kr) && Within(k, kids) && Represents(Heap(kids), kids)
    ensures Readable(k)
  {
    hide Represents;
    forall p | p in k ensures Fits(Heap(k), p, k[p]) {
      FitsAt(Heap(kids), kids, p);
      forall i | 0 <= i < |k[p]| ensures Linked(Heap(k), p, k[p], i) {
        assert k[p][i] in k && Linked(Heap(kids), p, kids[p], i);
      }
    }
  }

  /** Attribute names are distinct, and no document node is below another node. */
  ghost predicate Copyable(k: Kids) {
    forall n | n in k :: WellNamed(n.content) && forall i | 0 <= i < |k[n]| :: !k[n][i].content.DocumentContent?
  }

  /** A forest to copy from: of another document, or of the target before the copying began. */
  ghost predicate Source(k: Kids, kr: map<XMLNode, nat>, target: XMLDocument)
    reads k.Keys, target
  {
    && Ranked(k, kr) && Readable(k) && Copyable(k)
    && (k.Keys !! target.kids.Keys || Within(k, target.kids))
  }

  /** ShallowClone: a node of the same kind with the same value, its attributes set one by one. There
      is none of a document. */
  method ShallowClone(target: XMLDocument, node: XMLNode) returns (clone: XMLNode?)
    requires target.Valid() && WellNamed(node.content)
    modifies target
    ensures target.Valid() && (clone == null <==> node.content.DocumentContent?)
    ensures clone == null ==>
      target.SameAs(old(target.kids), old(target.unlinked), old(target.currentAllocs), old(target.untracked))
    ensures clone != null ==> fresh(clone) && clone.content == node.content && IsRoot(target.kids, clone)
    ensures clone != null ==> clone !in old(target.kids) && target.kids == old(target.kids)[clone := []]
    ensures clone != null ==> target.unlinked == old(target.unlinked) + [clone]
  {
    if node.content.DocumentContent? {
      return null;
    }
    hide IsForest, Represents, Count;
    KnownForest(target);
    ghost var k0, r0 := target.kids, target.rank;
    var content := node.content;
    if node.content.ElementContent? {
      var list := new AttributeList();
      list.CopyFrom(node.content.attributes);
      CopyIsSame(node.content.attributes);
      content := ElementContent(node.content.name, list.attributes);
    }
    clone := target.CreateUnlinkedNode(content);
    NewIsRoot(k0, r0, clone);
  }

  lemma NewIsRoot(k0: Kids, r0: map<XMLNode, nat>, n: XMLNode)
    requires Ranked(k0, r0) && n !in k0
    ensures IsRoot(k0[n := []], n)
  {
    forall p | p in k0 ensures n !in k0[p] {
      forall i | 0 <= i < |k0[p]| ensures k0[p][i] != n { }
    }
  }

  lemma KnownForest(target: XMLDocument)
    requires target.Valid()
    ensures IsForest(target.kids, target.rank) && Ranked(target.kids, target.rank) && target.root in target.kids
    ensures Represents(Heap(target.kids), target.kids)
    ensures forall n | n in target.kids :: target.Belongs(n)
  {
  }

  // ---- the state of a copy -------------------------------------------------------------------

  /** Over k0, a copy of a tree has been added: a root, and below it all the new nodes. */
  ghost predicate Cloned(k0: Kids, kids: Kids, rank: map<XMLNode, nat>, clone: XMLNode, tree: Tree) {
    Copying(k0, kids, rank, clone) && TreeAt(kids, rank, clone) == tree
  }

  ghost predicate Copying(k0: Kids, kids: Kids, rank: map<XMLNode, nat>, clone: XMLNode) {
    && Ranked(kids, rank) && Within(k0, kids) && clone in kids && clone !in k0 && IsRoot(kids, clone)
    && kids.Keys - k0.Keys == Sub(kids, rank, clone)
  }

  /** The children copied so far. */
  ghost predicate CopiedUpTo(kids: Kids, rank: map<XMLNode, nat>, clone: XMLNode, trees: seq<Tree>, i: nat) {
    && Ranked(kids, rank) && clone in kids && |kids[clone]| == i <= |trees|
    && forall j | 0 <= j < i :: TreeAt(kids, rank, kids[clone][j]) == trees[j]
  }

  lemma FreshCopy(k0: Kids, kids: Kids, rank: map<XMLNode, nat>, clone: XMLNode, trees: seq<Tree>)
    requires clone !in k0 && kids == k0[clone := []] && Ranked(kids, rank) && IsRoot(kids, clone)
    ensures Copying(k0, kids, rank, clone) && CopiedUpTo(kids, rank, clone, trees, 0)
  {
    LeafSub(kids, rank, clone);
  }

  /** One more child: kids1 before its copy, kids2 with it, kids3 with it linked. */
  lemma CopyStep(k0: Kids, kids1: Kids, rank1: map<XMLNode, nat>, kids2: Kids, rank2: map<XMLNode, nat>,
      kids3: Kids, rank3: map<XMLNode, nat>, clone: XMLNode, c: XMLNode, trees: seq<Tree>, i: nat)
    requires Copying(k0, kids1, rank1, clone) && CopiedUpTo(kids1, rank1, clone, trees, i) && i < |trees|
    requires Cloned(kids1, kids2, rank2, c, trees[i])
    requires clone in kids2 && kids3 == kids2[clone := kids2[clone] + [c]] && Ranked(kids3, rank3)
    ensures Copying(k0, kids3, rank3, clone) && CopiedUpTo(kids3, rank3, clone, trees, i + 1)
  {
    hide Sub;
    OldChildren(kids1, rank1, kids2, kids3, rank3, clone, c, i);
    NewChild(kids1, kids2, rank2, kids3, rank3, clone, c);
    StillRoot(kids1, kids2, rank2, kids3, clone, c);
    NewNodes(kids1, rank1, kids2, rank2, kids3, rank3, clone, c, i);
    forall j | 0 <= j < i + 1 ensures TreeAt(kids3, rank3, kids3[clone][j]) == trees[j] { }
  }

  /** Nothing has changed below d. */
  ghost predicate SameBelow(kids: Kids, rank: map<XMLNode, nat>, kids': Kids, rank': map<XMLNode, nat>, d: XMLNode)
    requires Ranked(kids, rank) && Ranked(kids', rank') && d in kids
  {
    d in kids' && TreeAt(kids', rank', d) == TreeAt(kids, rank, d) && Sub(kids', rank', d) == Sub(kids, rank, d)
  }

  lemma OldChildren(kids1: Kids, rank1: map<XMLNode, nat>, kids2: Kids, kids3: Kids, rank3: map<XMLNode, nat>,
      clone: XMLNode, c: XMLNode, i: nat)
    requires Ranked(kids1, rank1) && Within(kids1, kids2) && clone in kids1 && |kids1[clone]| == i
    requires kids3 == kids2[clone := kids1[clone] + [c]] && Ranked(kids3, rank3)
    ensures forall j | 0 <= j < i ::
      kids3[clone][j] == kids1[clone][j] && SameBelow(kids1, rank1, kids3, rank3, kids1[clone][j])
  {
    hide Sub;
    forall j | 0 <= j < i ensures SameBelow(kids1, rank1, kids3, rank3, kids1[clone][j]) {
      var d := kids1[clone][j];
      forall m | m in Sub(kids1, rank1, d) ensures m in kids1 && m in kids3 && kids3[m] == kids1[m] {
        SubRank(kids1, rank1, d, m);
      }
      TreeFrame(kids1, rank1, kids3, rank3, d);
      SubFrame(kids1, rank1, kids3, rank3, d);
    }
  }

  lemma NewChild(kids1: Kids, kids2: Kids, rank2: map<XMLNode, nat>, kids3: Kids, rank3: map<XMLNode, nat>,
      clone: XMLNode, c: XMLNode)
    requires Copying(kids1, kids2, rank2, c) && clone in kids1 && clone in kids2
    requires kids3 == kids2[clone := kids2[clone] + [c]] && Ranked(kids3, rank3)
    ensures c in kids3 && TreeAt(kids3, rank3, c) == TreeAt(kids2, rank2, c)
    ensures Sub(kids3, rank3, c) == Sub(kids2, rank2, c)
  {
    hide Sub;
    forall m | m in Sub(kids2, rank2, c) ensures m in kids2 && m in kids3 && kids3[m] == kids2[m] {
      SubRank(kids2, rank2, c, m);
    }
    TreeFrame(kids2, rank2, kids3, rank3, c);
    SubFrame(kids2, rank2, kids3, rank3, c);
  }

  lemma StillRoot(kids1: Kids, kids2: Kids, rank2: map<XMLNode, nat>, kids3: Kids, clone: XMLNode, c: XMLNode)
    requires Copying(kids1, kids2, rank2, c) && clone in kids1 && clone in kids2 && IsRoot(kids1, clone)
    requires kids3 == kids2[clone := kids2[clone] + [c]]
    ensures IsRoot(kids3, clone)
  {
    hide Sub;
    forall p | p in kids2 ensures clone !in kids2[p] {
      if p !in kids1 {
        assert p in Sub(kids2, rank2, c);
        forall i | 0 <= i < |kids2[p]| ensures kids2[p][i] != clone {
          SubClosed(kids2, rank2, c, p, i);
          assert kids2[p][i] !in kids1;
        }
      }
    }
  }

  lemma NewNodes(kids1: Kids, rank1: map<XMLNode, nat>, kids2: Kids, rank2: map<XMLNode, nat>,
      kids3: Kids, rank3: map<XMLNode, nat>, clone: XMLNode, c: XMLNode, i: nat)
    requires Ranked(kids1, rank1) && Copying(kids1, kids2, rank2, c) && clone in kids1 && clone in kids2
    requires |kids1[clone]| == i
    requires kids3 == kids2[clone := kids2[clone] + [c]] && Ranked(kids3, rank3) && c in kids3
    requires Sub(kids3, rank3, c) == Sub(kids2, rank2, c)
    requires forall j | 0 <= j < i ::
      kids1[clone][j] in kids3 && Sub(kids3, rank3, kids1[clone][j]) == Sub(kids1, rank1, kids1[clone][j])
    ensures Sub(kids3, rank3, clone) == Sub(kids1, rank1, clone) + (kids2.Keys - kids1.Keys)
  {
    hide Sub;
    var ks := kids3[clone];
    assert ks == kids1[clone] + [c];
    forall m | m in Sub(kids3, rank3, clone) && m != clone
      ensures m in Sub(kids1, rank1, clone) + Sub(kids2, rank2, c)
    {
      var j := BelowWhich(kids3, rank3, clone, m);
      if j < i {
        assert ks[j] == kids1[clone][j];
        BelowChild(kids1, rank1, clone, j, m);
      }
    }
    SubSelf(kids1, rank1, clone);
    SubSelf(kids3, rank3, clone);
    forall m | m in Sub(kids1, rank1, clone) && m != clone ensures m in Sub(kids3, rank3, clone) {
      var j := BelowWhich(kids1, rank1, clone, m);
      assert ks[j] == kids1[clone][j];
      BelowChild(kids3, rank3, clone, j, m);
    }
    forall m | m in Sub(kids2, rank2, c) ensures m in Sub(kids3, rank3, clone) {
      assert ks[i] == c;
      BelowChild(kids3, rank3, clone, i, m);
    }
  }

  lemma BelowWhich(kids: Kids, rank: map<XMLNode, nat>, n: XMLNode, m: XMLNode) returns (j: nat)
    requires Ranked(kids, rank) && n in kids && m in Sub(kids, rank, n) && m != n
    ensures j < |kids[n]| && m in Sub(kids, rank, kids[n][j])
  {
    j :| 0 <= j < |kids[n]| && m in Sub(kids, rank, kids[n][j]);
  }

  // ---- the copying -----------------------------------------------------------------------------

  /** The source survives what is added to the target. */
  lemma SourceStays(sk: Kids, sr: map<XMLNode, nat>, target: XMLDocument, k0: Kids)
    requires target.Valid() && Ranked(sk, sr) && Copyable(sk)
    requires Within(k0, target.kids)
    requires Within(sk, k0) || (sk.Keys !! target.kids.Keys && Readable(sk))
    ensures Source(sk, sr, target)
  {
    hide Represents, Readable;
    if Within(sk, k0) { ReadablePart(sk, sr, target.kids); }
  }

  /** The nodes of a document can be copied. */
  lemma OwnCopyable(d: XMLDocument)
    requires d.Valid()
    ensures Copyable(d.kids) && Readable(d.kids) && Ranked(d.kids, d.rank)
  {
    hide Represents, Readable, IsForest;
    KnownForest(d);
    ReadablePart(d.kids, d.rank, d.kids);
    OrphanIsRoot(Heap(d.kids), d.kids, d.root);
    forall n, i | n in d.kids && 0 <= i < |d.kids[n]| ensures !d.kids[n][i].content.DocumentContent? {
      assert d.kids[n][i] in d.kids[n] && d.Belongs(d.kids[n][i]);
    }
  }

  /** The children of a source node, by the pointers. */
  lemma SourceChild(sk: Kids, sr: map<XMLNode, nat>, node: XMLNode, i: nat)
    requires Ranked(sk, sr) && Readable(sk) && node in sk && i <= |sk[node]|
    ensures i == 0 ==> node.firstChild == (if sk[node] == [] then null else sk[node][0])
    ensures i < |sk[node]| ==> sk[node][i] in sk && sr[sk[node][i]] < sr[node]
    ensures i < |sk[node]| ==> sk[node][i].next == (if i + 1 == |sk[node]| then null else sk[node][i + 1])
  {
    assert Fits(Heap(sk), node, sk[node]);
    if i < |sk[node]| { assert Linked(Heap(sk), node, sk[node], i); }
  }

  /** XMLNode::DeepClone: the tree below the new node equals the one below the source, all its nodes
      are new, and no other node has moved. A document has no clone. */
  method DeepClone(target: XMLDocument, node: XMLNode, ghost sk: Kids, ghost sr: map<XMLNode, nat>)
    returns (clone: XMLNode?)
    requires target.Valid() && Source(sk, sr, target) && node in sk
    modifies target, target.kids.Keys
    ensures target.Valid() && Source(sk, sr, target) && fresh(target.kids.Keys - old(target.kids).Keys)
    ensures clone == null <==> node.content.DocumentContent?
    ensures clone == null ==>
      target.SameAs(old(target.kids), old(target.unlinked), old(target.currentAllocs), old(target.untracked))
    ensures clone != null ==> Cloned(old(target.kids), target.kids, target.rank, clone, TreeAt(sk, sr, node))
    decreases sr[node], 2
  {
    hide XMLDocument.Valid, Represents, Readable, Sub, Copying, CopiedUpTo, TreeAt, Within;
    ghost var k0 := target.kids;
    clone := ShallowClone(target, node);
    if clone == null {
      return;
    }
    KnownForest(target);
    FreshCopy(k0, target.kids, target.rank, clone, TreeAt(sk, sr, node).children);
    CopyingAdds(k0, target.kids, target.rank, clone);
    SourceStays(sk, sr, target, k0);
    CopyChildren(target, node.firstChild, clone, sk, sr, node, k0);
    Complete(k0, target.kids, target.rank, clone, sk, sr, node);
  }

  /** The loop over the children of a node, `clone` being what their copies go below. */
  method CopyChildren(target: XMLDocument, first: XMLNode?, clone: XMLNode, ghost sk: Kids, ghost sr: map<XMLNode, nat>,
      ghost node: XMLNode, ghost k0: Kids)
    requires target.Valid() && Source(sk, sr, target) && (Within(sk, k0) || sk.Keys !! target.kids.Keys)
    requires node in sk && first == node.firstChild
    requires Copying(k0, target.kids, target.rank, clone)
    requires CopiedUpTo(target.kids, target.rank, clone, TreeAt(sk, sr, node).children, 0)
    modifies target, target.kids.Keys
    ensures target.Valid() && Source(sk, sr, target) && fresh(target.kids.Keys - old(target.kids).Keys)
    ensures Within(sk, k0) || sk.Keys !! target.kids.Keys
    ensures Copying(k0, target.kids, target.rank, clone)
    ensures CopiedUpTo(target.kids, target.rank, clone, TreeAt(sk, sr, node).children, |sk[node]|)
    decreases sr[node], 1
  {
    hide XMLDocument.Valid, Represents, Readable, Sub, Copying, CopiedUpTo, TreeAt, Within;
    SourceTrees(sk, sr, node);
    SourceChild(sk, sr, node, 0);
    var child := first;
    ghost var i, before := 0, target.kids;
    while child != null
      invariant target.Valid() && Source(sk, sr, target) && fresh(target.kids.Keys - before.Keys)
      invariant Within(sk, k0) || sk.Keys !! target.kids.Keys
      invariant Copying(k0, target.kids, target.rank, clone)
      invariant CopiedUpTo(target.kids, target.rank, clone, TreeAt(sk, sr, node).children, i)
      invariant i <= |sk[node]| && child == if i == |sk[node]| then null else sk[node][i]
      decreases |sk[node]| - i
    {
      SourceChild(sk, sr, node, i);
      child := CopyChild(target, child, clone, sk, sr, node, i, k0);
      i := i + 1;
    }
  }

  /** One round of that loop. */
  method CopyChild(target: XMLDocument, child: XMLNode, clone: XMLNode, ghost sk: Kids, ghost sr: map<XMLNode, nat>,
      ghost node: XMLNode, ghost i: nat, ghost k0: Kids) returns (next: XMLNode?)
    requires target.Valid() && Source(sk, sr, target) && (Within(sk, k0) || sk.Keys !! target.kids.Keys)
    requires node in sk && i < |sk[node]| && child == sk[node][i] && child in sk && sr[child] < sr[node]
    requires Copying(k0, target.kids, target.rank, clone)
    requires CopiedUpTo(target.kids, target.rank, clone, TreeAt(sk, sr, node).children, i)
    modifies target, target.kids.Keys
    ensures target.Valid() && Source(sk, sr, target) && fresh(target.kids.Keys - old(target.kids).Keys)
    ensures Within(sk, k0) || sk.Keys !! target.kids.Keys
    ensures Copying(k0, target.kids, target.rank, clone)
    ensures CopiedUpTo(target.kids, target.rank, clone, TreeAt(sk, sr, node).children, i + 1)
    ensures next == if i + 1 == |sk[node]| then null else sk[node][i + 1]
    decreases sr[node], 0
  {
    hide XMLDocument.Valid, Represents, Readable, Sub, Copying, CopiedUpTo, TreeAt, Within;
    ghost var k1, r1 := target.kids, target.rank;
    KnownForest(target);
    SourceTrees(sk, sr, node);
    CopyingAdds(k0, k1, r1, clone);
    var c := DeepClone(target, child, sk, sr);
    LinkCopy(target, clone, c, k0, k1, r1, TreeAt(sk, sr, node).children, i);
    CopyingAdds(k0, target.kids, target.rank, clone);
    SourceStays(sk, sr, target, k0);
    SourceChild(sk, sr, node, i);
    next := child.next;
  }

  /** The copy of a child, c, goes to the end of the children of the copy of its parent; k1 is the
      forest before c was made. */
  method LinkCopy(target: XMLDocument, clone: XMLNode, c: XMLNode, ghost k0: Kids, ghost k1: Kids,
      ghost r1: map<XMLNode, nat>,
      ghost trees: seq<Tree>, ghost i: nat)
    requires target.Valid() && target.root in k1 && i < |trees|
    requires Copying(k0, k1, r1, clone) && CopiedUpTo(k1, r1, clone, trees, i)
    requires Cloned(k1, target.kids, target.rank, c, trees[i])
    modifies target, target.kids.Keys
    ensures target.Valid() && target.kids.Keys == old(target.kids.Keys)
    ensures Copying(k0, target.kids, target.rank, clone) && CopiedUpTo(target.kids, target.rank, clone, trees, i + 1)
  {
    hide XMLDocument.Valid, Represents, Sub, Copying, CopiedUpTo, TreeAt, Within;
    ghost var k2, r2 := target.kids, target.rank;
    CopyingAdds(k0, k1, r1, clone);
    CopyingAdds(k1, k2, r2, c);
    MayLink(target, k1, clone, c);
    var _ := target.InsertEndChild(clone, c);
    KnownForest(target);
    LinkedLast(k2, clone, c);
    CopyStep(k0, k1, r1, k2, r2, target.kids, target.rank, clone, c, trees, i);
  }

  lemma SourceTrees(sk: Kids, sr: map<XMLNode, nat>, node: XMLNode)
    requires Ranked(sk, sr) && node in sk
    ensures var trees := TreeAt(sk, sr, node).children;
      |trees| == |sk[node]| && forall i | 0 <= i < |trees| :: trees[i] == TreeAt(sk, sr, sk[node][i])
  {
  }

  lemma CopyingAdds(k0: Kids, kids: Kids, rank: map<XMLNode, nat>, clone: XMLNode)
    requires Copying(k0, kids, rank, clone)
    ensures Within(k0, kids) && k0.Keys <= kids.Keys && clone in kids && clone !in k0 && IsRoot(kids, clone)
  {
  }

  /** The copy of a child may go below the copy of its parent. */
  lemma MayLink(target: XMLDocument, k1: Kids, clone: XMLNode, c: XMLNode)
    requires target.Valid() && Copying(k1, target.kids, target.rank, c) && clone in k1 && target.root in k1
    ensures target.MayInsert(clone, c) && c.document == target.id
  {
    hide IsForest, Represents, Sub, Count;
    KnownForest(target);
  }

  lemma LinkedLast(k: Kids, clone: XMLNode, c: XMLNode)
    requires clone in k && IsRoot(k, c)
    ensures InsertedLast(k, clone, c) == k[clone := k[clone] + [c]]
  {
    DetachRoot(k, c);
    assert k[clone][..|k[clone]|] + [c] + k[clone][|k[clone]|..] == k[clone] + [c];
  }

  lemma Complete(k0: Kids, kids: Kids, rank: map<XMLNode, nat>, clone: XMLNode, sk: Kids, sr: map<XMLNode, nat>,
      node: XMLNode)
    requires Ranked(sk, sr) && node in sk && Copying(k0, kids, rank, clone) && clone.content == node.content
    requires CopiedUpTo(kids, rank, clone, TreeAt(sk, sr, node).children, |sk[node]|)
    ensures Cloned(k0, kids, rank, clone, TreeAt(sk, sr, node))
  {
    hide Sub;
    SourceTrees(sk, sr, node);
    SourceTrees(kids, rank, clone);
    assert TreeAt(kids, rank, clone).children == TreeAt(sk, sr, node).children;
  }

  /** Two documents and their nodes do not overlap. */
  ghost predicate Apart(a: XMLDocument, b: XMLDocument)
    reads a, b
  {
    a != b && a.kids.Keys !! b.kids.Keys
  }

  /** DeepClone of a node of a document into another document, or into its own. */
  method CloneInto(source: XMLDocument, node: XMLNode, target: XMLDocument) returns (clone: XMLNode?)
    requires source.Valid() && target.Valid() && node in source.kids && (source != target ==> Apart(source, target))
    modifies target, target.kids.Keys
    ensures target.Valid() && source.Valid()
    ensures source != target ==> Apart(source, target) && source.kids == old(source.kids)
    ensures clone == null <==> node == source.root
    ensures clone == null ==>
      target.SameAs(old(target.kids), old(target.unlinked), old(target.currentAllocs), old(target.untracked))
    ensures clone != null ==>
      Cloned(old(target.kids), target.kids, target.rank, clone, old(TreeAt(source.kids, source.rank, node)))
  {
    hide XMLDocument.Valid, Represents, Readable, Sub, Cloned, TreeAt, Copyable;
    KnownForest(source);
    OwnCopyable(source);
    assert source == target ==> Within(source.kids, target.kids);
    clone := DeepClone(target, node, source.kids, source.rank);
  }

  /** XMLDocument::DeepCopy: the target's tree becomes the source's, of new nodes. Copying a document
      onto itself changes nothing. */
  method DeepCopy(source: XMLDocument, target: XMLDocument)
    requires source.Valid() && target.Valid() && (source != target ==> Apart(source, target))
    modifies target, target.kids.Keys
    ensures target.Valid() && source.Valid() && source.kids == old(source.kids)
    ensures source == target ==>
      target.SameAs(old(target.kids), old(target.unlinked), old(target.currentAllocs), old(target.untracked))
    ensures source == target ==> forall n | n in target.kids :: n.Pointers() == old(n.Pointers())
    ensures source != target ==> Apart(source, target)
    ensures Ranked(source.kids, source.rank) && source.root in source.kids && Ranked(target.kids, target.rank)
    ensures target.root in target.kids
    ensures TreeAt(target.kids, target.rank, target.root) == TreeAt(source.kids, source.rank, source.root)
  {
    if source == target {
      KnownForest(source);
      return;
    }
    CopyOver(source, target);
  }

  /** DeepCopy between two documents. */
  method CopyOver(source: XMLDocument, target: XMLDocument)
    requires source.Valid() && target.Valid() && Apart(source, target)
    modifies target, target.kids.Keys
    ensures target.Valid() && source.Valid() && source.kids == old(source.kids) && Apart(source, target)
    ensures Ranked(source.kids, source.rank) && source.root in source.kids
    ensures Ranked(target.kids, target.rank) && target.root in target.kids
    ensures TreeAt(target.kids, target.rank, target.root) == TreeAt(source.kids, source.rank, source.root)
  {
    hide XMLDocument.Valid, Represents, Readable, Sub, Copying, CopiedUpTo, TreeAt, Within;
    ghost var sk, sr, node := source.kids, source.rank, source.root;
    KnownForest(source);
    ClearFor(source, target);
    CopyChildren(target, source.root.firstChild, target.root, sk, sr, node, map[]);
    KnownForest(target);
    KnownForest(source);
    AllCopied(target, sk, sr, node);
  }

  method ClearFor(source: XMLDocument, target: XMLDocument)
    requires source.Valid() && target.Valid() && Apart(source, target) && Ranked(source.kids, source.rank)
    requires source.root in source.kids
    modifies target, target.kids.Keys
    ensures target.Valid() && source.Valid() && target.root in old(target.kids) && target.kids.Keys == {target.root}
    ensures Source(source.kids, source.rank, target) && Copying(map[], target.kids, target.rank, target.root)
    ensures CopiedUpTo(target.kids, target.rank, target.root, TreeAt(source.kids, source.rank, source.root).children, 0)
  {
    hide XMLDocument.Valid, Represents, Readable, Sub, Copying, CopiedUpTo, TreeAt, Within, Copyable;
    OwnCopyable(source);
    KnownForest(target);
    target.Clear();
    assert target.kids.Keys == {target.root};
    EmptyTarget(target, source.kids, source.rank, TreeAt(source.kids, source.rank, source.root).children);
  }

  lemma EmptyTarget(target: XMLDocument, sk: Kids, sr: map<XMLNode, nat>, trees: seq<Tree>)
    requires target.Valid() && target.kids == map[target.root := []]
    requires Ranked(sk, sr) && Readable(sk) && Copyable(sk) && sk.Keys !! target.kids.Keys
    ensures Source(sk, sr, target) && Copying(map[], target.kids, target.rank, target.root)
    ensures CopiedUpTo(target.kids, target.rank, target.root, trees, 0)
  {
    hide Represents;
    KnownForest(target);
    FreshCopy(map[], target.kids, target.rank, target.root, trees);
  }

  lemma AllCopied(target: XMLDocument, sk: Kids, sr: map<XMLNode, nat>, node: XMLNode)
    requires Ranked(sk, sr) && node in sk && Ranked(target.kids, target.rank) && target.root in target.kids
    requires CopiedUpTo(target.kids, target.rank, target.root, TreeAt(sk, sr, node).children, |sk[node]|)
    requires target.root.content == node.content
    ensures TreeAt(target.kids, target.rank, target.root) == TreeAt(sk, sr, node)
  {
    assert TreeAt(target.kids, target.rank, target.root).children == TreeAt(sk, sr, node).children by {
      SourceTrees(sk, sr, node);
      SourceTrees(target.kids, target.rank, target.root);
    }
  }
}
