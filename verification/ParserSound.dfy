/** The trees the parser builds, for every buffer: every open element was closed by an end tag of its
    name, in nesting order; attribute names are distinct; declarations come first; and every value
    is free of what would have ended it. */
module ParserSound {
  import opened XmlUtil
  import opened Decode
  import opened ParserSpec
  import X = XmlTree

  /** The end tag of an element of this name stands at k: '<', blanks, '/', the name. */
  ghost predicate EndTagAt(s: string, k: nat, name: string) {
    Terminated(s) && k + 1 < |s| && s[k] == '<' && s[SkipWS(s, k + 1)] == '/' &&
    var n := SkipWS(s, k + 1) + 1; At(s, n, name) && n + |name| < |s| && !IsNameChar(s[n + |name|])
  }

  ghost predicate CleanRange(s: string, r: Range, f: Flags) {
    r.start <= r.end < |s| && r.flags == f && NUL !in Raw(s, r)
  }

  ghost predicate IsNameRange(s: string, r: Range) {
    CleanRange(s, r, PLAIN) && IsName(Raw(s, r))
  }

  predicate DistinctNames(s: string, attributes: seq<Attribute>) {
    forall i, j | 0 <= i < j < |attributes| :: Raw(s, attributes[i].name) != Raw(s, attributes[j].name)
  }

  ghost predicate SoundAttributes(s: string, attributes: seq<Attribute>, o: Options) {
    DistinctNames(s, attributes) &&
    forall a | a in attributes :: IsNameRange(s, a.name) && CleanRange(s, a.value, ValueFlags(o))
  }

  predicate IsPlainText(n: Node) {
    n.Text? && !n.cdata
  }

  /** The content of a leaf has no end tag in it, and is of the kind its header says. */
  ghost predicate SoundLeaf(s: string, n: Node, o: Options)
    requires !n.Element?
  {
    var v := Raw(s, n.value);
    match n
    case Text(r, cdata, _) =>
      if cdata then CleanRange(s, r, NEWLINES) && X.FreeOf(v, "]]>") else CleanRange(s, r, TextFlags(o)) && !IsBlank(v)
    case Comment(r, _) => CleanRange(s, r, NEWLINES) && X.FreeOf(v, "-->")
    case Declaration(r, _) => CleanRange(s, r, NEWLINES) && X.FreeOf(v, "?>")
    case Unknown(r, _) => CleanRange(s, r, NEWLINES) && X.FreeOf(v, ">") && !("--" <= v) && !("[CDATA[" <= v)
  }

  /** A node read between lo and hi at some parsing depth. An element still open after its start tag
      has an end tag of its name before hi, behind all its children; nested non-empty elements stay
      below the depth limit. */
  ghost predicate Sound(s: string, lo: nat, hi: nat, depth: nat, n: Node, o: Options)
    decreases n, 0
  {
    lo <= hi &&
    match n
    case Element(name, attributes, closing, children, _) =>
      lo <= name.start && IsNameRange(s, name) && SoundAttributes(s, attributes, o) && SoundChildren(children) &&
      (closing == Closed ==> children == []) && closing != Closing &&
      (closing == Open ==> depth + 1 < MAX_ELEMENT_DEPTH) &&
      (closing == Open ==> exists k | name.end < k < hi ::
        EndTagAt(s, k, Raw(s, name)) && SoundAll(s, name.end, k, depth + 1, children, o))
    case _ => SoundLeaf(s, n, o)
  }

  predicate SoundChildren(children: seq<Node>) {
    (forall c | c in children :: !c.Declaration?) && NoAdjacentText(children)
  }

  predicate NoAdjacentText(ns: seq<Node>) {
    forall i | 0 <= i < |ns| - 1 :: IsPlainText(ns[i]) ==> !IsPlainText(ns[i + 1])
  }

  ghost predicate SoundAll(s: string, lo: nat, hi: nat, depth: nat, ns: seq<Node>, o: Options)
    decreases ns, 1
  {
    if ns == [] then lo <= hi
    else exists m | lo <= m <= hi :: Sound(s, lo, m, depth, ns[0], o) && SoundAll(s, m, hi, depth, ns[1..], o)
  }

  // ---- tokens ----------------------------------------------------------------------------

  lemma ContentClean(s: string, p: nat, tag: string, f: Flags)
    requires Terminated(s) && p < |s| && tag != [] && NUL !in tag && FindTag(s, p, tag).Some?
    ensures var r := Range(p, FindTag(s, p, tag).value, f); CleanRange(s, r, f) && X.FreeOf(Raw(s, r), tag)
  {
    hide FindTag;
    FindTagFirst(s, p, tag);
    var q := FindTag(s, p, tag).value;
    var v := s[p..q];
    forall i | 0 <= i < |v| ensures !At(v, i, tag) {
      if At(v, i, tag) { Shifted(s, p, q, i, tag); }
    }
  }

  lemma Shifted(s: string, p: nat, q: nat, i: nat, w: string)
    requires p <= q <= |s| && At(s[p..q], i, w)
    ensures At(s, p + i, w)
  {
    forall k | 0 <= k < |w| ensures s[p + i + k] == w[k] {
      AtIndex(s[p..q], i, w, k);
    }
  }

  lemma NameRange(s: string, p: nat)
    requires Terminated(s) && p < |s| && IsNameStartChar(s[p])
    ensures IsNameRange(s, Range(p, NameEnd(s, p), PLAIN))
  {
    var e := NameEnd(s, p);
    assert forall c | c in s[p..e] :: IsNameChar(c);
  }

  lemma LeafSound(s: string, w: nat, line: nat, o: Options)
    requires Terminated(s) && w < |s| && s[w] == '<' && !KindAt(s, w).KElement?
    ensures w + |Header(KindAt(s, w))| < |s|
    ensures var r := ParseLeaf(s, w + |Header(KindAt(s, w))|, KindAt(s, w), line, o);
      r.ret.Some? ==> SoundLeaf(s, r.node, o) && !IsPlainText(r.node)
  {
    hide FindTag, At, CleanRange, X.FreeOf;
    KindHeader(s, w);
    var k := KindAt(s, w);
    var p := w + |Header(k)|;
    var f := FindTag(s, p, EndTag(k));
    if f.Some? {
      ContentClean(s, p, EndTag(k), NEWLINES);
      var v := Raw(s, Range(p, f.value, NEWLINES));
      if k == KUnknown {
        assert "<!" + "--" == COMMENT_HEADER && "<!" + "[CDATA[" == CDATA_HEADER;
        if "--" <= v { HeaderFromBody(s, w, p, f.value, "--"); }
        if "[CDATA[" <= v { HeaderFromBody(s, w, p, f.value, "[CDATA["); }
      }
    }
  }

  lemma HeaderFromBody(s: string, w: nat, p: nat, q: nat, tail: string)
    requires p == w + 2 <= q <= |s| && At(s, w, "<!") && tail <= s[p..q]
    ensures At(s, w, "<!" + tail)
  {
    forall k | 0 <= k < |tail| ensures s[p + k] == tail[k] { assert s[p..q][k] == tail[k]; }
    AtSplit(s, w, "<!", tail);
  }

  lemma TextSound(s: string, p: nat, line: nat, o: Options)
    requires Terminated(s) && p < |s| && s[SkipWS(s, p)] != NUL && s[SkipWS(s, p)] != '<'
    ensures var r := ParseLeaf(s, p, KText, line, o);
      r.ret.Some? ==> SoundLeaf(s, r.node, o) && r.ret.value < |s| && s[r.ret.value] == '<'
  {
    hide FindTag;
    var f := FindTag(s, p, "<");
    if f.Some? {
      ContentClean(s, p, "<", TextFlags(o));
      TextAdvances(s, p, line, o);
      AtIndex(s, f.value, "<", 0);
      var w := SkipWS(s, p);
      if s[f.value + 1] != NUL {
        assert s[p..f.value][w - p] == s[w];
        assert s[w] in s[p..f.value];
      }
    }
  }

  // ---- attributes --------------------------------------------------------------------------

  lemma AttributeSound(s: string, p: nat, o: Options)
    requires Terminated(s) && p < |s| && IsNameStartChar(s[p])
    ensures var r := ParseAttribute(s, p, o);
      r.Some? ==> IsNameRange(s, r.value.0.name) && CleanRange(s, r.value.0.value, ValueFlags(o))
  {
    hide FindTag, IsNameRange;
    NameRange(s, p);
    var r := ParseAttribute(s, p, o);
    if r.Some? {
      var q := r.value.0.value.start;
      ContentClean(s, q, [s[q - 1]], ValueFlags(o));
    }
  }

  lemma {:induction false} AttributesSound(s: string, p: nat, soFar: seq<Attribute>, line: nat, o: Options)
    requires Terminated(s) && p < |s| && SoundAttributes(s, soFar, o)
    ensures SoundAttributes(s, ParseAttributes(s, p, soFar, line, o).attributes, o)
    decreases |s| - p
  {
    hide ParseAttribute, SoundAttributes;
    var q := SkipWS(s, p);
    if s[q] != NUL && IsNameStartChar(s[q]) {
      var r := ParseAttribute(s, q, o);
      if r.Some? && !HasName(s, soFar, Raw(s, r.value.0.name)) {
        AttributeSound(s, q, o);
        OneMoreSound(s, soFar, r.value.0, o);
        AttributesSound(s, r.value.1, soFar + [r.value.0], line, o);
      }
    }
  }

  lemma OneMoreSound(s: string, soFar: seq<Attribute>, a: Attribute, o: Options)
    requires SoundAttributes(s, soFar, o) && !HasName(s, soFar, Raw(s, a.name))
    requires IsNameRange(s, a.name) && CleanRange(s, a.value, ValueFlags(o))
    ensures SoundAttributes(s, soFar + [a], o)
  {
    hide IsNameRange, CleanRange, Raw;
    assert forall i | 0 <= i < |soFar| :: soFar[i] in soFar;
  }

  // ---- nodes ---------------------------------------------------------------------------------

  /** The node passes the checks of the children loop. */
  predicate Accepted(s: string, r: Parsed) {
    r.ret.Some? && (r.node.Element? ==> r.node.closing != Closing && !Mismatched(s, r.node, r.endTag))
  }

  lemma {:induction false} NodeSound(s: string, p: nat, depth: nat, o: Options)
    requires Terminated(s) && p < |s| && depth < MAX_ELEMENT_DEPTH && s[SkipWS(s, p)] != NUL
    ensures var r := ParseNode(s, p, depth, o); Accepted(s, r) ==> Sound(s, p, r.ret.value, depth, r.node, o)
    ensures var r := ParseNode(s, p, depth, o);
      Accepted(s, r) && IsPlainText(r.node) ==> s[r.ret.value] == '<' && s[p] != '<'
    decreases |s| - p, 0
  {
    hide ParseElement, ParseLeaf, SoundLeaf, Mismatched;
    var w := SkipWS(s, p);
    var r := ParseNode(s, p, depth, o);
    KindHeader(s, w);
    if Accepted(s, r) {
      if KindAt(s, w) == KElement {
        ElementSound(s, w + 1, depth, LineAt(s, w), o);
        SoundFrom(s, w + 1, p, r.ret.value, depth, r.node, o);
      } else if KindAt(s, w) == KText {
        TextSound(s, p, LineAt(s, w), o);
      } else {
        LeafSound(s, w, LineAt(s, w), o);
      }
    }
  }

  lemma SoundFrom(s: string, lo: nat, lo': nat, hi: nat, depth: nat, n: Node, o: Options)
    requires lo' <= lo && Sound(s, lo, hi, depth, n, o)
    ensures Sound(s, lo', hi, depth, n, o)
  {
    hide SoundLeaf, SoundAttributes, EndTagAt, SoundChildren, IsNameRange;
  }

  lemma {:induction false} ElementSound(s: string, p: nat, depth: nat, line: nat, o: Options)
    requires Terminated(s) && p < |s| && depth < MAX_ELEMENT_DEPTH
    ensures var r := ParseElement(s, p, depth, line, o); Accepted(s, r) ==> Sound(s, p, r.ret.value, depth, r.node, o)
    decreases |s| - p
  {
    hide ParseAttributes, ParseDeep, SoundAttributes, EndTagAt, SoundChildren, IsNameRange, SkipWS, NameEnd, Raw,
      CleanRange;
    var r := ParseElement(s, p, depth, line, o);
    var w := SkipWS(s, p);
    var n := if s[w] == '/' then w + 1 else w;
    if Accepted(s, r) {
      assert IsNameStartChar(s[n]);
      NameRange(s, n);
      var e := NameEnd(s, n);
      var a := ParseAttributes(s, e, [], line, o);
      NoAttributesSound(s, o);
      AttributesSound(s, e, [], line, o);
      if r.node.closing == Open {
        assert s[a.ret.value] != NUL;
        var k := BodySound(s, e, a.ret.value, depth, o);
        assert EndTagAt(s, k, Raw(s, r.node.name)) && SoundAll(s, e, k, depth + 1, r.node.children, o);
      } else {
        NoChildrenSound();
      }
    }
  }

  lemma NoAttributesSound(s: string, o: Options)
    ensures SoundAttributes(s, [], o)
  {
  }

  lemma NoChildrenSound()
    ensures SoundChildren([])
  {
  }

  /** The children of an element whose start tag ends at c, and its end tag at k. */
  lemma BodySound(s: string, e: nat, c: nat, depth: nat, o: Options) returns (k: nat)
    requires Terminated(s) && e < c < |s| && depth < MAX_ELEMENT_DEPTH && ParseDeep(s, c, depth, false, o).ret.Some?
    ensures var r := ParseDeep(s, c, depth, false, o);
      && depth + 1 < MAX_ELEMENT_DEPTH && r.endTag.Some? && e < k < r.ret.value
      && EndTagAt(s, k, Raw(s, r.endTag.value))
      && SoundAll(s, e, k, depth + 1, r.children, o) && SoundChildren(r.children)
    decreases |s| - c, 2
  {
    hide ParseChildren, EndTagAt, Sound;
    k := ChildrenSound(s, c, depth + 1, false, [], o);
    var r := ParseDeep(s, c, depth, false, o);
    assert r.children[0..] == r.children;
    SoundAllFrom(s, c, e, k, depth + 1, r.children, o);
  }

  lemma SoundAllFrom(s: string, lo: nat, lo': nat, hi: nat, depth: nat, ns: seq<Node>, o: Options)
    requires lo' <= lo && SoundAll(s, lo, hi, depth, ns, o)
    ensures SoundAll(s, lo', hi, depth, ns, o)
  {
    hide Sound;
    if ns != [] {
      var m :| lo <= m <= hi && Sound(s, lo, m, depth, ns[0], o) && SoundAll(s, m, hi, depth, ns[1..], o);
      SoundFrom(s, lo, lo', m, depth, ns[0], o);
    }
  }

  /** The end tag that stopped the loop is there, at the '<'. */
  lemma EndTagStands(s: string, p: nat, depth: nat, o: Options)
    requires Terminated(s) && p < |s| && depth < MAX_ELEMENT_DEPTH && s[SkipWS(s, p)] != NUL
    requires var r := ParseNode(s, p, depth, o); r.ret.Some? && r.node.Element? && r.node.closing == Closing
    ensures var r := ParseNode(s, p, depth, o);
      SkipWS(s, p) < r.ret.value && EndTagAt(s, SkipWS(s, p), Raw(s, r.node.name))
  {
    hide ParseAttributes, ParseDeep, ParseLeaf, At;
    var w := SkipWS(s, p);
    KindHeader(s, w);
    var n := SkipWS(s, w + 1) + 1;
    var r := ParseNode(s, p, depth, o);
    assert r == ParseElement(s, w + 1, depth, LineAt(s, w), o);
    AtSlice(s, n, Raw(s, r.node.name));
  }

  /** What may be said of the children so far without their neighbours: no two texts in a row and,
      outside the document, no declaration. */
  predicate SoFarFits(s: string, p: nat, atDocument: bool, soFar: seq<Node>)
    requires p < |s|
  {
    && NoAdjacentText(soFar) && (soFar != [] && IsPlainText(soFar[|soFar| - 1]) ==> s[p] == '<')
    && (if atDocument then DeclarationsFirst(soFar) else forall c | c in soFar :: !c.Declaration?)
  }

  predicate DeclarationsFirst(ns: seq<Node>) {
    forall i, j | 0 <= i < j < |ns| :: ns[j].Declaration? ==> ns[i].Declaration?
  }

  /** The children loop: the nodes it adds are sound, up to the end tag at k that stops it or to the
      end of the buffer. */
  lemma {:induction false} ChildrenSound(s: string, p: nat, depth: nat, atDocument: bool, soFar: seq<Node>, o: Options)
    returns (k: nat)
    requires Terminated(s) && p < |s| && depth < MAX_ELEMENT_DEPTH && SoFarFits(s, p, atDocument, soFar)
    ensures var r := ParseChildren(s, p, depth, atDocument, soFar, o);
      && p <= k && SoundAll(s, p, k, depth, r.children[|soFar|..], o) && NoAdjacentText(r.children)
      && (if atDocument then DeclarationsFirst(r.children) else forall c | c in r.children :: !c.Declaration?)
      && (r.ret.Some? ==> k < r.ret.value && r.endTag.Some? && EndTagAt(s, k, Raw(s, r.endTag.value)))
    decreases |s| - p, 1
  {
    hide ParseNode, Sound, EndTagAt, Raw, SoFarFits, NoAdjacentText, DeclarationsFirst, Mismatched, DeclarationAllowed;
    var w := SkipWS(s, p);
    k := w;
    Fits(s, p, atDocument, soFar);
    assert soFar[|soFar|..] == [];
    if s[w] != NUL {
      var r := ParseNode(s, p, depth, o);
      if r.ret.Some? {
        if r.node.Element? && r.node.closing == Closing {
          EndTagStands(s, p, depth, o);
        } else if Accepted(s, r) && (r.node.Declaration? ==> DeclarationAllowed(atDocument, soFar)) {
          NodeSound(s, p, depth, o);
          NowFits(s, p, r.ret.value, atDocument, soFar, r.node);
          k := ChildrenSound(s, r.ret.value, depth, atDocument, soFar + [r.node], o);
          var all := ParseChildren(s, p, depth, atDocument, soFar, o).children;
          assert all == ParseChildren(s, r.ret.value, depth, atDocument, soFar + [r.node], o).children;
          SoundCons(s, p, r.ret.value, k, depth, soFar, r.node, all, o);
        }
      }
    }
  }

  lemma Fits(s: string, p: nat, atDocument: bool, soFar: seq<Node>)
    requires p < |s| && SoFarFits(s, p, atDocument, soFar)
    ensures NoAdjacentText(soFar)
    ensures if atDocument then DeclarationsFirst(soFar) else forall c | c in soFar :: !c.Declaration?
  {
  }

  lemma NowFits(s: string, p: nat, q: nat, atDocument: bool, soFar: seq<Node>, n: Node)
    requires p < |s| && q < |s| && SoFarFits(s, p, atDocument, soFar)
    requires IsPlainText(n) ==> s[q] == '<' && s[p] != '<'
    requires n.Declaration? ==> DeclarationAllowed(atDocument, soFar)
    ensures SoFarFits(s, q, atDocument, soFar + [n])
  {
    var all := soFar + [n];
    if atDocument && n.Declaration? {
      forall i | 0 <= i < |soFar| ensures soFar[i].Declaration? {
        assert i < |soFar| - 1 ==> soFar[|soFar| - 1].Declaration? ==> soFar[i].Declaration?;
      }
    }
  }

  lemma SoundCons(s: string, p: nat, m: nat, k: nat, depth: nat, soFar: seq<Node>, n: Node, all: seq<Node>, o: Options)
    requires p <= m <= k && soFar + [n] <= all && Sound(s, p, m, depth, n, o)
    requires SoundAll(s, m, k, depth, all[|soFar + [n]|..], o)
    ensures soFar <= all && SoundAll(s, p, k, depth, all[|soFar|..], o)
  {
    hide Sound;
    var tail := all[|soFar|..];
    assert tail[0] == (soFar + [n])[|soFar|] == n && tail[1..] == all[|soFar + [n]|..];
  }

  /** The document: whatever the buffer, every node the parser keeps is sound, no two texts are
      neighbours and the declarations come first. */
  lemma DocumentSound(s: string, o: Options) returns (lo: nat, hi: nat)
    requires Terminated(s)
    ensures var d := ParseDocument(s, o);
      SoundAll(s, lo, hi, 1, d.children, o) && NoAdjacentText(d.children) && DeclarationsFirst(d.children)
  {
    hide ParseChildren, At, Sound;
    var w := SkipWS(s, 0);
    if At(s, w, BOM) { AtBeforeNul(s, w, BOM); }
    lo := if At(s, w, BOM) then w + 3 else w;
    hi := lo;
    if s[lo] != NUL {
      hi := ChildrenSound(s, lo, 1, true, [], o);
      var d := ParseDocument(s, o);
      assert d.children[0..] == d.children;
    }
  }
}
