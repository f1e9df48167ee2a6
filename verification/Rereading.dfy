/** Storing a document a second time changes nothing more: what a document becomes when it is written
    and read again can be stored too, and has nothing left for storing to change. */
module Rereading {
  import opened XmlUtil
  import opened XmlTree

  // ---- line ends make no end tag ---------------------------------------------------

  lemma {:induction false} UnixPrefix(v: string, tag: string)
    requires LF !in tag && tag <= Unix(v)
    ensures tag <= v
    decreases |v|
  {
    if tag != [] {
      assert tag[0] in tag && tag[0] == Unix(v)[0];
      assert tag[1..] <= Unix(v)[1..] == Unix(v[1..]);
      forall c | c in tag[1..] ensures c in tag { }
      UnixPrefix(v[1..], tag[1..]);
    }
  }

  /** How many characters the first character of the normalised text comes from. */
  function FirstUsed(v: string): nat
    requires v != []
  {
    if |v| > 1 && ((v[0] == CR && v[1] == LF) || (v[0] == LF && v[1] == CR)) then 2 else 1
  }

  lemma UnixTail(v: string)
    requires v != []
    ensures FirstUsed(v) <= |v| && Unix(v) != [] && Unix(v)[1..] == Unix(v[FirstUsed(v)..])
  {
  }

  lemma {:induction false} UnixFree(v: string, tag: string, i: nat)
    requires LF !in tag && tag != [] && FreeOf(v, tag)
    ensures !At(Unix(v), i, tag)
    decreases |v|
  {
    hide Unix;
    var u := Unix(v);
    if At(u, i, tag) && i == 0 {
      AtSlice(u, 0, tag);
      assert u[0..|tag|] == u[..|tag|];
      UnixPrefix(v, tag);
      PrefixAt(v, tag);
    } else if v != [] && i > 0 {
      var k := FirstUsed(v);
      UnixTail(v);
      forall j | 0 <= j < |v[k..]| ensures !At(v[k..], j, tag) {
        assert !At(v, k + j, tag);
        AtShift(v, k, j, tag);
      }
      UnixFree(v[k..], tag, i - 1);
      AtShift(u, 1, i - 1, tag);
    } else if v == [] {
      assert |u| == 0;
    }
  }

  lemma PrefixAt(v: string, tag: string)
    requires tag <= v && tag != []
    ensures v != [] && At(v, 0, tag)
  {
  }

  lemma AtShift(v: string, k: nat, j: nat, tag: string)
    requires k <= |v|
    ensures At(v[k..], j, tag) <==> At(v, k + j, tag)
  {
    AtSlice(v[k..], j, tag);
    AtSlice(v, k + j, tag);
    if k + j + |tag| <= |v| {
      assert v[k..][j..j + |tag|] == v[k + j..k + j + |tag|];
    }
  }

  lemma {:induction false} UnixKeeps(v: string, c: char)
    requires c in v && c != CR && c != LF
    ensures c in Unix(v)
    decreases |v|
  {
    if v[0] != c {
      var k := FirstUsed(v);
      assert v == v[..k] + v[k..] && c !in v[..k];
      UnixKeeps(v[k..], c);
      UnixTail(v);
      assert c in Unix(v)[1..];
    }
  }

  lemma {:induction false} UnixAdds(v: string, c: char)
    requires c in Unix(v)
    ensures c in v || c == LF
    decreases |v|
  {
    var k := FirstUsed(v);
    UnixTail(v);
    if c in Unix(v)[1..] {
      UnixAdds(v[k..], c);
    } else {
      assert Unix(v) == [Unix(v)[0]] + Unix(v)[1..];
    }
  }

  // ---- one value ---------------------------------------------------------------------

  /** Normalising a value keeps it free of NUL and of an end tag, and not blank. */
  lemma ValueKept(v: string)
    requires NUL !in v
    ensures NUL !in Unix(v) && (IsBlank(Unix(v)) ==> IsBlank(v))
  {
    hide Unix;
    if NUL in Unix(v) { UnixAdds(v, NUL); }
    if IsBlank(Unix(v)) {
      forall c | c in v ensures IsWhiteSpace(c) {
        if c != CR && c != LF { UnixKeeps(v, c); }
      }
    }
  }

  lemma BodyKept(v: string, tag: string)
    requires LF !in tag && tag != [] && FreeOf(v, tag)
    ensures FreeOf(Unix(v), tag)
  {
    hide Unix;
    forall i | 0 <= i < |Unix(v)| ensures !At(Unix(v), i, tag) {
      UnixFree(v, tag, i);
    }
  }

  lemma LeafKept(t: Tree)
    requires !t.Element? && Storable(t)
    ensures Storable(Reread(t)) && Settled(Reread(t))
    ensures Reread(t).IsBlankText() ==> t.IsBlankText()
  {
    hide Unix, FreeOf, IsBlank;
    ValueKept(t.value);
    match t
    case Text(v, cdata) => if cdata { BodyKept(v, "]]>"); }
    case Comment(v) => BodyKept(v, "-->");
    case Declaration(v) => BodyKept(v, "?>");
    case Unknown(v) =>
      BodyKept(v, ">");
      if "--" <= Unix(v) { UnixPrefix(v, "--"); }
      if "[CDATA[" <= Unix(v) { UnixPrefix(v, "[CDATA["); }
  }

  // ---- trees -------------------------------------------------------------------------

  lemma AttributesKept(attributes: seq<Attr>)
    requires DistinctNames(attributes) && forall a | a in attributes :: IsName(a.name) && NUL !in a.value
    ensures DistinctNames(RereadAttrs(attributes))
    ensures forall a | a in RereadAttrs(attributes) :: IsName(a.name) && NUL !in a.value && CR !in a.value
  {
    hide Unix, IsName;
    var r := RereadAttrs(attributes);
    forall i | 0 <= i < |r| ensures IsName(r[i].name) && NUL !in r[i].value && CR !in r[i].value {
      assert attributes[i] in attributes;
      ValueKept(attributes[i].value);
    }
  }

  lemma KindKept(t: Tree)
    ensures Reread(t).IsPlainText() == t.IsPlainText() && Reread(t).Declaration? == t.Declaration?
    ensures Reread(t).Text? == t.Text?
  {
  }

  ghost predicate ComesFrom(r: Tree, ts: seq<Tree>) {
    exists t :: t in ts && r == Reread(t)
  }

  lemma {:induction false} MembersKept(ts: seq<Tree>)
    ensures forall r | r in RereadAll(ts) :: ComesFrom(r, ts)
  {
    hide Reread, IsBlank;
    if ts != [] {
      MembersKept(ts[1..]);
      assert ts[0] in ts;
      forall r | r in RereadAll(ts) ensures ComesFrom(r, ts) {
        if r in RereadAll(ts[1..]) {
          var t :| t in ts[1..] && r == Reread(t);
          assert t in ts;
        }
      }
    }
  }

  /** Dropping blank texts brings no two texts together. */
  lemma {:induction false} NeighboursKept(ts: seq<Tree>)
    requires NoAdjacentText(ts)
    ensures NoAdjacentText(RereadAll(ts))
  {
    hide Reread, IsBlank;
    if ts != [] {
      var rest := ts[1..];
      assert forall i | 0 <= i < |rest| :: rest[i] == ts[i + 1];
      NeighboursKept(rest);
      if rest != [] { KindKept(rest[0]); }
      KindKept(ts[0]);
      var q, r := RereadAll(rest), RereadAll(ts);
      assert ts[0].IsPlainText() && rest != [] ==> !rest[0].IsPlainText() && q[0] == Reread(rest[0]);
      if !ts[0].IsBlankText() {
        forall i | 0 <= i < |r| - 1 ensures r[i].IsPlainText() ==> !r[i + 1].IsPlainText() {
          if i > 0 { assert r[i] == q[i - 1] && r[i + 1] == q[i]; }
        }
      }
    }
  }

  /** And no declaration behind another node. */
  lemma {:induction false} DeclarationsKept(ts: seq<Tree>)
    requires DeclarationsFirst(ts)
    ensures DeclarationsFirst(RereadAll(ts))
  {
    hide Reread, IsBlank;
    if ts != [] {
      var rest := ts[1..];
      assert forall i | 0 <= i < |rest| :: rest[i] == ts[i + 1];
      DeclarationsKept(rest);
      KindKept(ts[0]);
      if !ts[0].IsBlankText() {
        if !ts[0].Declaration? { OnlyFirstDeclares(ts); }
        var q, r := RereadAll(rest), RereadAll(ts);
        forall i, j | 0 <= i < j < |r| ensures r[j].Declaration? ==> r[i].Declaration? {
          assert r[j] == q[j - 1] && (i > 0 ==> r[i] == q[i - 1]);
        }
      }
    }
  }

  lemma OnlyFirstDeclares(ts: seq<Tree>)
    requires ts != [] && DeclarationsFirst(ts) && !ts[0].Declaration?
    ensures forall r | r in RereadAll(ts[1..]) :: !r.Declaration?
  {
    hide Reread, RereadAll;
    MembersKept(ts[1..]);
    forall r | r in RereadAll(ts[1..]) ensures !r.Declaration? {
      var t :| t in ts[1..] && r == Reread(t);
      KindKept(t);
      var k :| 0 <= k < |ts[1..]| && ts[1..][k] == t;
      assert t == ts[k + 1];
    }
  }

  /** What a storable node is read back as is storable and settled, not more deeply nested, and not
      blank unless the node was. */
  lemma {:induction false} TreeKept(t: Tree)
    requires Storable(t)
    ensures Storable(Reread(t)) && Settled(Reread(t)) && Nesting(Reread(t)) <= Nesting(t)
    ensures Reread(t).IsBlankText() ==> t.IsBlankText()
    decreases t, 0
  {
    hide Unix, IsBlank, FreeOf, IsName, DistinctNames, NoAdjacentText;
    match t
    case Element(name, attributes, children) =>
      AttributesKept(attributes);
      ChildrenKept(children);
      NeighboursKept(children);
      MembersKept(children);
      forall r | r in RereadAll(children) ensures !r.Declaration? && Storable(r) {
        var u :| u in children && r == Reread(u);
        KindKept(u);
      }
      RereadNone(children);
    case _ => LeafKept(t);
  }

  lemma RereadNone(ts: seq<Tree>)
    ensures ts == [] ==> RereadAll(ts) == []
  {
  }

  lemma {:induction false} ChildrenKept(ts: seq<Tree>)
    requires forall t | t in ts :: Storable(t)
    ensures forall t | t in RereadAll(ts) :: Storable(t) && Settled(t) && !t.IsBlankText()
    ensures MaxNesting(RereadAll(ts)) <= MaxNesting(ts)
    decreases ts, 1
  {
    hide Storable, Settled, Reread, Nesting, IsBlank;
    if ts != [] {
      assert ts[0] in ts && forall t | t in ts[1..] :: t in ts;
      TreeKept(ts[0]);
      ChildrenKept(ts[1..]);
      if !ts[0].IsBlankText() {
        assert RereadAll(ts)[0] == Reread(ts[0]) && RereadAll(ts)[1..] == RereadAll(ts[1..]);
        NestingOfCons(RereadAll(ts));
      } else {
        assert RereadAll(ts) == RereadAll(ts[1..]);
      }
      NestingOfCons(ts);
    }
  }

  lemma NestingOfCons(ts: seq<Tree>)
    requires ts != []
    ensures MaxNesting(ts[1..]) <= MaxNesting(ts) && Nesting(ts[0]) <= MaxNesting(ts)
    ensures MaxNesting(ts) == Nesting(ts[0]) || MaxNesting(ts) == MaxNesting(ts[1..])
  {
    hide Nesting;
  }

  // ---- documents ---------------------------------------------------------------------

  /** A first text that loses its start is still a text that can be stored. */
  lemma StartedStorable(d: Doc)
    requires StorableDoc(d)
    ensures StorableDoc(Started(d))
  {
    hide LeftTrimmed, Storable;
    var ts, f := d.children, Started(d);
    if f != d {
      var u := f.children;
      assert u[1..] == ts[1..] && forall i | 0 < i < |ts| :: u[i] == ts[i] && ts[i] in ts;
      assert Nesting(u[0]) == 0;
      FirstStorable(d);
      forall t | t in u ensures Storable(t) {
        if t != u[0] { assert t in ts; }
      }
    }
  }

  lemma FirstStorable(d: Doc)
    requires StorableDoc(d) && Started(d) != d
    ensures Storable(Started(d).children[0]) && Started(d).children[0].IsPlainText()
  {
    var v := d.children[0].value;
    assert Storable(d.children[0]);
    assert forall c | c in LeftTrimmed(v) :: c in v;
  }

  lemma PaddedStorable(ts: seq<Tree>, pretty: bool)
    requires StorableDoc(Doc(false, ts))
    ensures StorableDoc(Doc(false, Padded(ts, pretty)))
  {
    hide Storable, PaddedAt;
    var q := Padded(ts, pretty);
    forall i | 0 <= i < |ts|
      ensures Storable(q[i]) && Nesting(q[i]) == Nesting(ts[i])
      ensures q[i].IsPlainText() == ts[i].IsPlainText() && q[i].Declaration? == ts[i].Declaration?
    {
      assert ts[i] in ts;
      NodePadded(ts, i, pretty);
    }
    SameNesting(ts, q);
  }

  lemma NodePadded(ts: seq<Tree>, i: nat, pretty: bool)
    requires i < |ts| && Storable(ts[i])
    ensures var t := PaddedAt(ts, i, pretty);
      && Storable(t) && Nesting(t) == Nesting(ts[i]) && t.IsPlainText() == ts[i].IsPlainText()
      && t.Declaration? == ts[i].Declaration? && (t.IsPlainText() ==> IsBlank(t.value) == IsBlank(ts[i].value))
  {
    hide Begun;
    if ts[i].IsPlainText() && !IsBlank(ts[i].value) {
      var c :| c in ts[i].value && !IsWhiteSpace(c);
      assert c in PaddedAt(ts, i, pretty).value;
    }
  }

  lemma {:induction false} SameNesting(ts: seq<Tree>, q: seq<Tree>)
    requires |ts| == |q| && forall i | 0 <= i < |ts| :: Nesting(q[i]) == Nesting(ts[i])
    ensures MaxNesting(q) == MaxNesting(ts)
  {
    hide Nesting;
    if ts != [] {
      assert forall i | 0 <= i < |ts| - 1 :: q[1..][i] == q[i + 1] && ts[1..][i] == ts[i + 1];
      SameNesting(ts[1..], q[1..]);
    }
  }

  /** What is read back does not end in a text if what was written does not. */
  lemma {:induction false} LastKept(q: seq<Tree>)
    requires NoAdjacentText(q) && !EndsInText(q)
    ensures RereadAll(q) == [] || !RereadAll(q)[|RereadAll(q)| - 1].IsPlainText()
  {
    hide Reread, IsBlank;
    if q != [] {
      var rest := q[1..];
      assert forall i | 0 <= i < |rest| :: rest[i] == q[i + 1];
      LastKept(rest);
      KindKept(q[0]);
      assert RereadAll(rest) == [] && rest != [] ==> rest[0].IsBlankText();
    }
  }

  /** What a document is read back as starts as it is. */
  lemma StartKept(d: Doc, pretty: bool)
    requires StorableDoc(d)
    ensures StartsAsIs(RereadDoc(d, pretty))
  {
    hide Storable, Reread, RereadAll, IsBlank, PaddedAt, Padded, LeftTrimmed;
    var f := Started(d);
    var q, d1 := Padded(f.children, pretty), RereadDoc(d, pretty);
    if !d1.bom && d1.children != [] && d1.children[0].IsPlainText() {
      StartedStorable(d);
      PaddedStorable(f.children, pretty);
      FirstRead(q);
      FirstPadded(f.children, pretty);
      TextReread(q[0]);
      FirstText(d);
      KeptStart(f.children[0].value);
    }
  }

  lemma FirstRead(q: seq<Tree>)
    requires NoAdjacentText(q) && RereadAll(q) != [] && RereadAll(q)[0].IsPlainText()
    ensures q != [] && q[0].IsPlainText() && !IsBlank(q[0].value) && RereadAll(q)[0] == Reread(q[0])
  {
    hide Reread, IsBlank;
    KindKept(q[0]);
    if q[0].IsBlankText() {
      assert RereadAll(q) == RereadAll(q[1..]) && (|q| > 1 ==> q[1..][0] == q[1]);
      KindKept(q[1]);
    }
  }

  lemma FirstText(d: Doc)
    requires !Started(d).bom && d.children != [] && Started(d).children[0].IsPlainText()
    ensures var v := Started(d).children[0].value; (v == [] || !IsWhiteSpace(v[0])) && !(BOM <= v)
  {
  }

  lemma KeptStart(v: string)
    requires v != [] && !IsWhiteSpace(v[0]) && !(BOM <= v)
    ensures var u := Unix(v); u != [] && !IsWhiteSpace(u[0]) && !(BOM <= u)
  {
    assert LF !in BOM;
    if BOM <= Unix(v) { UnixPrefix(v, BOM); }
  }

  /** What a storable document is read back as is storable, settled and starts and ends as it should:
      from then on only what is added to its texts can change. */
  lemma DocumentKept(d: Doc, pretty: bool)
    requires StorableDoc(d)
    ensures var d1 := RereadDoc(d, pretty);
      && StorableDoc(d1) && SettledAll(d1.children) && StartsAsIs(d1)
      && (ReadsBack(d) ==> !EndsInText(d1.children))
  {
    hide Storable, Settled, Reread, DeclarationsFirst, IsBlank, PaddedAt, Padded, Started, NoAdjacentText, EndsInText;
    var f := Started(d);
    var ts := f.children;
    var q := Padded(ts, pretty);
    StartedStorable(d);
    PaddedStorable(ts, pretty);
    ChildrenKept(q);
    DeclarationsKept(q);
    NeighboursKept(q);
    StartKept(d, pretty);
    if ReadsBack(d) {
      SameEnd(ts, pretty);
      LastKept(q);
      NotPlainEnd(RereadAll(q));
    }
  }

  lemma SameEnd(ts: seq<Tree>, pretty: bool)
    requires StorableDoc(Doc(false, ts))
    ensures EndsInText(Padded(ts, pretty)) == EndsInText(ts)
  {
    hide Storable, PaddedAt, IsBlank;
    if ts != [] {
      assert ts[|ts| - 1] in ts;
      NodePadded(ts, |ts| - 1, pretty);
    }
  }

  lemma NotPlainEnd(ts: seq<Tree>)
    requires ts == [] || !ts[|ts| - 1].IsPlainText()
    ensures !EndsInText(ts)
  {
  }
}
