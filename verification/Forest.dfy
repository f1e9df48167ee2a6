/** Ordered forests as a map from each node to the sequence of its children: what the pointers of the
    document tree stand for. */
module Forest {
  import opened Sequences

  /** Every child is a node of the forest, of smaller rank than its parent: there is no cycle. */
  ghost predicate Ranked<T>(kids: map<T, seq<T>>, rank: map<T, nat>) {
    && kids.Keys <= rank.Keys
    && forall p, i | p in kids && 0 <= i < |kids[p]| :: kids[p][i] in kids && rank[kids[p][i]] < rank[p]
  }

  /** A node is listed at most once. */
  ghost predicate Unique<T>(kids: map<T, seq<T>>) {
    forall p, q, i, j | p in kids && q in kids && 0 <= i < |kids[p]| && 0 <= j < |kids[q]| ::
      kids[p][i] == kids[q][j] ==> p == q && i == j
  }

  ghost predicate IsForest<T>(kids: map<T, seq<T>>, rank: map<T, nat>) {
    Ranked(kids, rank) && Unique(kids)
  }

  /** c is a child of no node. */
  ghost predicate IsRoot<T>(kids: map<T, seq<T>>, c: T) {
    forall p | p in kids :: c !in kids[p]
  }

  // ---- operations ---------------------------------------------------------------------

  /** c taken out of the list it is in. */
  function Detach<T(==)>(kids: map<T, seq<T>>, c: T): map<T, seq<T>> {
    map p | p in kids :: Without(kids[p], c)
  }

  /** c put at place i among the children of p. */
  function Attach<T(==)>(kids: map<T, seq<T>>, p: T, i: nat, c: T): map<T, seq<T>>
    requires p in kids && i <= |kids[p]|
  {
    kids[p := kids[p][..i] + [c] + kids[p][i..]]
  }

  /** The nodes of s gone. */
  function Minus<T(==)>(kids: map<T, seq<T>>, s: set<T>): map<T, seq<T>> {
    map p | p in kids && p !in s :: kids[p]
  }

  lemma DetachAt<T>(kids: map<T, seq<T>>, p: T, i: nat)
    requires Unique(kids) && p in kids && i < |kids[p]|
    ensures var c := kids[p][i];
      Detach(kids, c) == kids[p := kids[p][..i] + kids[p][i + 1..]] && IsRoot(Detach(kids, c), c)
  {
    var ks, c := kids[p], kids[p][i];
    assert forall j | 0 <= j < i :: ks[j] != c;
    WithoutAt(ks, i);
    forall q | q in kids && q != p ensures c !in kids[q] {
      assert forall j | 0 <= j < |kids[q]| :: kids[q][j] != c;
    }
    forall j | 0 <= j < |ks| && j != i ensures ks[j] != c { }
  }

  lemma DetachRoot<T>(kids: map<T, seq<T>>, c: T)
    requires IsRoot(kids, c)
    ensures Detach(kids, c) == kids
  {
  }

  lemma DetachForest<T>(kids: map<T, seq<T>>, rank: map<T, nat>, c: T)
    requires IsForest(kids, rank)
    ensures IsForest(Detach(kids, c), rank) && IsRoot(Detach(kids, c), c)
  {
    if p, i :| p in kids && 0 <= i < |kids[p]| && kids[p][i] == c {
      DetachAt(kids, p, i);
      CutForest(kids, rank, p, i);
    } else {
      assert forall p | p in kids :: c !in kids[p];
      DetachRoot(kids, c);
    }
  }

  lemma CutForest<T>(kids: map<T, seq<T>>, rank: map<T, nat>, p: T, i: nat)
    requires IsForest(kids, rank) && p in kids && i < |kids[p]|
    ensures IsForest(kids[p := kids[p][..i] + kids[p][i + 1..]], rank)
  {
    var ks := kids[p];
    var cut := ks[..i] + ks[i + 1..];
    var kids' := kids[p := cut];
    forall q, j | q in kids' && 0 <= j < |kids'[q]|
      ensures kids'[q][j] == kids[q][if q == p && j >= i then j + 1 else j]
    {
    }
  }

  // ---- subtrees -------------------------------------------------------------------------

  /** n and everything below it. */
  ghost function Sub<T>(kids: map<T, seq<T>>, rank: map<T, nat>, n: T): set<T>
    requires Ranked(kids, rank) && n in kids
    decreases rank[n]
  {
    {n} + set i, m | 0 <= i < |kids[n]| && m in Sub(kids, rank, kids[n][i]) :: m
  }

  lemma {:induction false} SubRank<T>(kids: map<T, seq<T>>, rank: map<T, nat>, n: T, m: T)
    requires Ranked(kids, rank) && n in kids && m in Sub(kids, rank, n)
    ensures m in kids && (m != n ==> rank[m] < rank[n])
    decreases rank[n]
  {
    if m != n {
      var i :| 0 <= i < |kids[n]| && m in Sub(kids, rank, kids[n][i]);
      SubRank(kids, rank, kids[n][i], m);
    }
  }

  lemma {:induction false} SubClosed<T>(kids: map<T, seq<T>>, rank: map<T, nat>, n: T, p: T, i: nat)
    requires Ranked(kids, rank) && n in kids && p in kids && p in Sub(kids, rank, n) && i < |kids[p]|
    ensures kids[p][i] in Sub(kids, rank, n)
    decreases rank[n]
  {
    if p == n {
      assert kids[p][i] in Sub(kids, rank, kids[n][i]);
    } else {
      var j :| 0 <= j < |kids[n]| && p in Sub(kids, rank, kids[n][j]);
      SubClosed(kids, rank, kids[n][j], p, i);
    }
  }

  /** Whatever is below n but n itself has its parent below n. */
  lemma {:induction false} SubParent<T>(kids: map<T, seq<T>>, rank: map<T, nat>, n: T, m: T) returns (p: T, i: nat)
    requires Ranked(kids, rank) && n in kids && m in Sub(kids, rank, n) && m != n
    ensures p in kids && p in Sub(kids, rank, n) && i < |kids[p]| && kids[p][i] == m
    decreases rank[n]
  {
    var j :| 0 <= j < |kids[n]| && m in Sub(kids, rank, kids[n][j]);
    if m == kids[n][j] {
      p, i := n, j;
    } else {
      p, i := SubParent(kids, rank, kids[n][j], m);
    }
  }

  /** Two subtrees that share a node lie one inside the other. */
  lemma {:induction false} Nested<T>(kids: map<T, seq<T>>, rank: map<T, nat>, a: T, b: T, m: T)
    requires IsForest(kids, rank) && a in kids && b in kids
    requires m in Sub(kids, rank, a) && m in Sub(kids, rank, b)
    ensures a in Sub(kids, rank, b) || b in Sub(kids, rank, a)
    decreases if m in rank && a in rank && rank[m] <= rank[a] then rank[a] - rank[m] else 0
  {
    SubRank(kids, rank, a, m);
    if m != a && m != b {
      var p, i := SubParent(kids, rank, a, m);
      var q, j := SubParent(kids, rank, b, m);
      assert p == q;
      SubRank(kids, rank, a, p);
      Nested(kids, rank, a, b, p);
    }
  }

  lemma SiblingsApart<T>(kids: map<T, seq<T>>, rank: map<T, nat>, n: T, i: nat, j: nat)
    requires IsForest(kids, rank) && n in kids && i < |kids[n]| && j < |kids[n]| && i != j
    ensures Sub(kids, rank, kids[n][i]) !! Sub(kids, rank, kids[n][j])
  {
    hide Sub;
    var a, b := kids[n][i], kids[n][j];
    forall m | m in Sub(kids, rank, a) ensures m !in Sub(kids, rank, b) {
      if m in Sub(kids, rank, b) {
        Nested(kids, rank, a, b, m);
        if a in Sub(kids, rank, b) { NotBelowSibling(kids, rank, n, i, j); }
        else { NotBelowSibling(kids, rank, n, j, i); }
      }
    }
  }

  lemma NotBelowSibling<T>(kids: map<T, seq<T>>, rank: map<T, nat>, n: T, i: nat, j: nat)
    requires IsForest(kids, rank) && n in kids && i < |kids[n]| && j < |kids[n]| && i != j
    ensures kids[n][i] !in Sub(kids, rank, kids[n][j])
  {
    hide Sub;
    if kids[n][i] in Sub(kids, rank, kids[n][j]) {
      var p, k := SubParent(kids, rank, kids[n][j], kids[n][i]);
      assert p == n;
      SubRank(kids, rank, kids[n][j], n);
      assert false;
    }
  }

  /** A subtree is fixed by the lists inside it. */
  lemma {:induction false} SubFrame<T>(kids: map<T, seq<T>>, rank: map<T, nat>, kids': map<T, seq<T>>,
      rank': map<T, nat>, n: T)
    requires Ranked(kids, rank) && Ranked(kids', rank') && n in kids
    requires forall m | m in Sub(kids, rank, n) :: m in kids && m in kids' && kids'[m] == kids[m]
    ensures n in kids' && Sub(kids', rank', n) == Sub(kids, rank, n)
    decreases rank[n]
  {
    assert n in Sub(kids, rank, n);
    forall i | 0 <= i < |kids[n]| ensures Sub(kids', rank', kids'[n][i]) == Sub(kids, rank, kids[n][i]) {
      forall m | m in Sub(kids, rank, kids[n][i]) ensures m in Sub(kids, rank, n) { }
      SubFrame(kids, rank, kids', rank', kids[n][i]);
    }
  }

  // ---- inserting ---------------------------------------------------------------------------

  /** Ranks for the forest with c below p: whatever has p below it rises above c. */
  ghost function Raised<T>(kids: map<T, seq<T>>, rank: map<T, nat>, p: T, c: T): map<T, nat>
    requires Ranked(kids, rank) && p in kids && c in kids
  {
    map m | m in kids :: if p in Sub(kids, rank, m) then rank[m] + rank[c] + 1 else rank[m]
  }

  /** Putting a root below a node that it is not above keeps the forest a forest. */
  lemma AttachForest<T>(kids: map<T, seq<T>>, rank: map<T, nat>, p: T, i: nat, c: T)
    requires IsForest(kids, rank) && p in kids && c in kids && i <= |kids[p]|
    requires IsRoot(kids, c) && p !in Sub(kids, rank, c)
    ensures IsForest(Attach(kids, p, i, c), Raised(kids, rank, p, c))
  {
    hide Sub;
    var kids', rank' := Attach(kids, p, i, c), Raised(kids, rank, p, c);
    assert p in Sub(kids, rank, p) by { SubSelf(kids, rank, p); }
    forall q, j | q in kids' && 0 <= j < |kids'[q]|
      ensures kids'[q][j] in kids' && rank'[kids'[q][j]] < rank'[q]
    {
      if q == p && j == i {
      } else {
        var k := if q == p && j > i then j - 1 else j;
        assert kids'[q][j] == kids[q][k];
        if p in Sub(kids, rank, kids[q][k]) { BelowChild(kids, rank, q, k, p); }
      }
    }
    forall q, r, j, k |
      q in kids' && r in kids' && 0 <= j < |kids'[q]| && 0 <= k < |kids'[r]| && kids'[q][j] == kids'[r][k]
      ensures q == r && j == k
    {
      AttachedAt(kids, p, i, c, q, j);
      AttachedAt(kids, p, i, c, r, k);
    }
  }

  lemma SubSelf<T>(kids: map<T, seq<T>>, rank: map<T, nat>, n: T)
    requires Ranked(kids, rank) && n in kids
    ensures n in Sub(kids, rank, n)
  {
  }

  lemma BelowChild<T>(kids: map<T, seq<T>>, rank: map<T, nat>, q: T, k: nat, m: T)
    requires Ranked(kids, rank) && q in kids && k < |kids[q]| && m in Sub(kids, rank, kids[q][k])
    ensures m in Sub(kids, rank, q)
  {
  }

  lemma AttachedAt<T>(kids: map<T, seq<T>>, p: T, i: nat, c: T, q: T, j: nat)
    requires p in kids && i <= |kids[p]| && q in kids && j < |Attach(kids, p, i, c)[q]| && IsRoot(kids, c)
    ensures var m := Attach(kids, p, i, c)[q][j];
      if q == p && j == i then m == c else
        var k := if q == p && j > i then j - 1 else j;
        k < |kids[q]| && m == kids[q][k] && m != c
  {
  }

  // ---- deleting -----------------------------------------------------------------------------

  lemma MinusForest<T>(kids: map<T, seq<T>>, rank: map<T, nat>, c: T)
    requires IsForest(kids, rank) && c in kids && IsRoot(kids, c)
    ensures IsForest(Minus(kids, Sub(kids, rank, c)), rank)
  {
    hide Sub;
    var s := Sub(kids, rank, c);
    var kids' := Minus(kids, s);
    forall p, i | p in kids' && 0 <= i < |kids'[p]| ensures kids'[p][i] in kids' {
      if kids[p][i] in s {
        assert kids[p][i] in kids[p];
        var q, j := SubParent(kids, rank, c, kids[p][i]);
      }
    }
  }

  /** What deleting the children of n leaves. */
  ghost function Emptied<T>(kids: map<T, seq<T>>, rank: map<T, nat>, n: T): map<T, seq<T>>
    requires IsForest(kids, rank) && n in kids
  {
    Minus(kids, Sub(kids, rank, n) - {n})[n := []]
  }

  /** Deleting the first child, and then the children that are left. */
  lemma EmptiedStep<T>(kids: map<T, seq<T>>, rank: map<T, nat>, n: T)
    requires IsForest(kids, rank) && n in kids && kids[n] != []
    ensures var c := kids[n][0];
      var next := Minus(Detach(kids, c), Sub(kids, rank, c));
      && IsForest(next, rank) && n in next && next[n] == kids[n][1..]
      && Emptied(next, rank, n) == Emptied(kids, rank, n)
  {
    var c := kids[n][0];
    var cut := Detach(kids, c);
    DetachAt(kids, n, 0);
    DetachForest(kids, rank, c);
    assert cut == kids[n := kids[n][1..]];
    DetachSub(kids, rank, c);
    MinusForest(cut, rank, c);
    var next := Minus(cut, Sub(kids, rank, c));
    if n in Sub(kids, rank, c) { SubRank(kids, rank, c, n); }
    FirstChildGone(kids, rank, n, next);
  }

  lemma DetachSub<T>(kids: map<T, seq<T>>, rank: map<T, nat>, c: T)
    requires IsForest(kids, rank) && c in kids && IsForest(Detach(kids, c), rank)
    ensures Sub(Detach(kids, c), rank, c) == Sub(kids, rank, c)
  {
    hide Sub;
    var cut := Detach(kids, c);
    forall m | m in Sub(kids, rank, c) ensures m in kids && m in cut && cut[m] == kids[m] {
      SubRank(kids, rank, c, m);
      assert forall i | 0 <= i < |kids[m]| :: rank[kids[m][i]] < rank[m];
      assert c !in kids[m];
    }
    SubFrame(kids, rank, cut, rank, c);
  }

  lemma FirstChildGone<T>(kids: map<T, seq<T>>, rank: map<T, nat>, n: T, next: map<T, seq<T>>)
    requires IsForest(kids, rank) && n in kids && kids[n] != [] && n !in Sub(kids, rank, kids[n][0])
    requires next == Minus(kids[n := kids[n][1..]], Sub(kids, rank, kids[n][0])) && IsForest(next, rank)
    ensures Emptied(next, rank, n) == Emptied(kids, rank, n)
  {
    hide Sub, Unique;
    var c := kids[n][0];
    forall i | 1 <= i < |kids[n]| ensures Sub(next, rank, kids[n][i]) == Sub(kids, rank, kids[n][i]) {
      SiblingStays(kids, rank, n, i, next);
    }
    SubSplit(kids, rank, n, next);
  }

  /** What is below n is below its first child or below what is left of n. */
  lemma SubSplit<T>(kids: map<T, seq<T>>, rank: map<T, nat>, n: T, next: map<T, seq<T>>)
    requires Ranked(kids, rank) && Ranked(next, rank) && n in kids && n in next && kids[n] != []
    requires next[n] == kids[n][1..]
    requires forall i | 1 <= i < |kids[n]| ::
      kids[n][i] in next && Sub(next, rank, kids[n][i]) == Sub(kids, rank, kids[n][i])
    ensures Sub(kids, rank, n) == Sub(next, rank, n) + Sub(kids, rank, kids[n][0])
  {
    forall m | m in Sub(kids, rank, n) ensures m in Sub(next, rank, n) + Sub(kids, rank, kids[n][0]) {
      if m != n {
        var i :| 0 <= i < |kids[n]| && m in Sub(kids, rank, kids[n][i]);
        if i > 0 { assert next[n][i - 1] == kids[n][i]; }
      }
    }
    forall m | m in Sub(next, rank, n) && m != n ensures m in Sub(kids, rank, n) {
      var i :| 0 <= i < |next[n]| && m in Sub(next, rank, next[n][i]);
      assert next[n][i] == kids[n][i + 1];
    }
  }

  lemma SiblingStays<T>(kids: map<T, seq<T>>, rank: map<T, nat>, n: T, i: nat, next: map<T, seq<T>>)
    requires IsForest(kids, rank) && n in kids && 1 <= i < |kids[n]| && n !in Sub(kids, rank, kids[n][0])
    requires next == Minus(kids[n := kids[n][1..]], Sub(kids, rank, kids[n][0])) && IsForest(next, rank)
    ensures kids[n][i] in next && Sub(next, rank, kids[n][i]) == Sub(kids, rank, kids[n][i])
  {
    hide Sub;
    var d := kids[n][i];
    SiblingsApart(kids, rank, n, 0, i);
    forall m | m in Sub(kids, rank, d) ensures m in kids && m in next && next[m] == kids[m] {
      SubRank(kids, rank, d, m);
    }
    SubFrame(kids, rank, next, rank, d);
  }

  /** A node without children is all there is below it. */
  lemma LeafSub<T>(kids: map<T, seq<T>>, rank: map<T, nat>, n: T)
    requires Ranked(kids, rank) && n in kids && kids[n] == []
    ensures Sub(kids, rank, n) == {n}
  {
  }

  /** When every node but r is some node's child, and r has none, there is nothing but r. */
  lemma OnlyRoot<T>(kids: map<T, seq<T>>, rank: map<T, nat>, r: T)
    requires Ranked(kids, rank) && r in kids && kids[r] == []
    requires forall n | n in kids && n != r :: exists p | p in kids :: n in kids[p]
    ensures kids == map[r := []]
  {
    var s := kids.Keys - {r};
    if s != {} {
      var m := Highest(s, rank);
      assert false;
    }
    assert kids.Keys == {r};
  }

  lemma {:induction false} Highest<T>(s: set<T>, rank: map<T, nat>) returns (m: T)
    requires s != {} && s <= rank.Keys
    ensures m in s && forall n | n in s :: rank[n] <= rank[m]
    decreases |s|
  {
    m :| m in s;
    if s != {m} {
      var k := Highest(s - {m}, rank);
      if rank[k] > rank[m] { m := k; }
    }
  }

  lemma EmptiedAlready<T>(kids: map<T, seq<T>>, rank: map<T, nat>, n: T)
    requires IsForest(kids, rank) && n in kids && kids[n] == []
    ensures Emptied(kids, rank, n) == kids
  {
    LeafSub(kids, rank, n);
  }

  /** Deleting the children of n and then n deletes everything below n. */
  lemma EmptiedThenFreed<T>(kids: map<T, seq<T>>, rank: map<T, nat>, n: T)
    requires IsForest(kids, rank) && n in kids
    ensures Minus(Emptied(kids, rank, n), {n}) == Minus(kids, Sub(kids, rank, n))
  {
    SubSelf(kids, rank, n);
  }
}
