/** What holds of every tree the parser builds, for every buffer: its ranges stand in document order,
    are free of NUL, and do not overlap. */
module ParserFacts {
  import opened XmlUtil
  import opened Decode
  import opened ParserSpec

  // ---- ranges in order --------------------------------------------------------------

  function AttributeRanges(attributes: seq<Attribute>): seq<Range> {
    if attributes == [] then [] else [attributes[0].name, attributes[0].value] + AttributeRanges(attributes[1..])
  }

  /** The StrPairs of a node in document order. */
  function Ranges(n: Node): (rs: seq<Range>)
    ensures rs != []
  {
    match n
    case Element(name, attributes, _, children, _) => [name] + AttributeRanges(attributes) + RangesAll(children)
    case _ => [n.value]
  }

  function RangesAll(ns: seq<Node>): seq<Range> {
    if ns == [] then [] else Ranges(ns[0]) + RangesAll(ns[1..])
  }

  /** Free of NUL, and inside the buffer with its terminator slot. */
  ghost predicate IsRange(s: string, r: Range) {
    r.start <= r.end < |s| && forall k | r.start <= k < r.end :: s[k] != NUL
  }

  /** The ranges, each with its terminator slot, lie between lo and hi, one behind the other. */
  ghost predicate InOrder(s: string, rs: seq<Range>, lo: nat, hi: nat) {
    && (forall i | 0 <= i < |rs| :: lo <= rs[i].start && rs[i].end <= hi && IsRange(s, rs[i]))
    && (forall i, j | 0 <= i < j < |rs| :: rs[i].end < rs[j].start)
  }

  /** Reading has reached hi behind the ranges; only a text ends right there, before a '<'. */
  ghost predicate Behind(s: string, rs: seq<Range>, lo: nat, hi: nat) {
    && hi < |s| && InOrder(s, rs, lo, hi)
    && (rs != [] && rs[|rs| - 1].end == hi ==> s[hi] == '<')
  }

  lemma Concat(s: string, a: seq<Range>, b: seq<Range>, lo: nat, mid: nat, hi: nat)
    requires InOrder(s, a, lo, mid) && InOrder(s, b, mid, hi) && lo <= mid <= hi
    requires a != [] && b != [] ==> a[|a| - 1].end < b[0].start
    ensures InOrder(s, a + b, lo, hi)
  {
    hide IsRange;
    var all := a + b;
    forall i, j | 0 <= i < j < |all| ensures all[i].end < all[j].start {
      if i < |a| <= j {
        LastIsHighest(s, a, lo, mid, i);
        FirstIsLowest(s, b, mid, hi, j - |a|);
      }
    }
  }

  lemma LastIsHighest(s: string, a: seq<Range>, lo: nat, hi: nat, i: nat)
    requires InOrder(s, a, lo, hi) && i < |a|
    ensures a[i].end <= a[|a| - 1].end
  {
    assert IsRange(s, a[|a| - 1]);
  }

  lemma FirstIsLowest(s: string, b: seq<Range>, lo: nat, hi: nat, j: nat)
    requires InOrder(s, b, lo, hi) && j < |b|
    ensures b[0].start <= b[j].start
  {
    assert IsRange(s, b[0]);
  }

  lemma Widen(s: string, rs: seq<Range>, lo: nat, hi: nat, lo': nat, hi': nat)
    requires InOrder(s, rs, lo, hi) && lo' <= lo && hi <= hi'
    ensures InOrder(s, rs, lo', hi')
  {
    hide IsRange;
  }

  lemma {:induction false} RangesSnoc(ns: seq<Node>, n: Node)
    ensures RangesAll(ns + [n]) == RangesAll(ns) + Ranges(n)
  {
    hide Ranges;
    if ns == [] {
      assert ns + [n] == [n];
      assert RangesAll([n]) == Ranges(n) + RangesAll([]);
    } else {
      RangesSnoc(ns[1..], n);
      assert (ns + [n])[1..] == ns[1..] + [n];
      assert Ranges(ns[0]) + RangesAll(ns[1..]) + Ranges(n) == Ranges(ns[0]) + (RangesAll(ns[1..]) + Ranges(n));
    }
  }

  lemma {:induction false} AttributeRangesSnoc(attributes: seq<Attribute>, a: Attribute)
    ensures AttributeRanges(attributes + [a]) == AttributeRanges(attributes) + [a.name, a.value]
  {
    if attributes == [] {
      assert attributes + [a] == [a];
    } else {
      AttributeRangesSnoc(attributes[1..], a);
      assert (attributes + [a])[1..] == attributes[1..] + [a];
    }
  }

  // ---- each parsing function keeps the order ------------------------------------------

  lemma TagRange(s: string, p: nat, tag: string, f: Flags)
    requires Terminated(s) && p < |s| && tag != [] && NUL !in tag && FindTag(s, p, tag).Some?
    ensures IsRange(s, Range(p, FindTag(s, p, tag).value, f))
  {
    FindTagFirst(s, p, tag);
  }

  lemma LeafInOrder(s: string, p: nat, k: Kind, line: nat, o: Options)
    requires Terminated(s) && p < |s| && !k.KElement?
    ensures var r := ParseLeaf(s, p, k, line, o);
      r.ret.Some? ==> Behind(s, Ranges(r.node), p, r.ret.value) && Ranges(r.node)[0].start == p
  {
    hide FindTag;
    var f := FindTag(s, p, EndTag(k));
    if f.Some? {
      TagRange(s, p, EndTag(k), LeafFlags(k, o));
      AtIndex(s, f.value, EndTag(k), 0);
    }
  }

  lemma AttributeInOrder(s: string, p: nat, o: Options)
    requires Terminated(s) && p < |s| && IsNameStartChar(s[p])
    ensures var r := ParseAttribute(s, p, o);
      r.Some? ==> InOrder(s, [r.value.0.name, r.value.0.value], p, r.value.1 - 1)
  {
    hide FindTag;
    var r := ParseAttribute(s, p, o);
    if r.Some? {
      TagRange(s, r.value.0.value.start, [s[r.value.0.value.start - 1]], ValueFlags(o));
    }
  }

  /** Attributes read up to p: in order from lo on, all before p, each starting with a name. */
  ghost predicate AttributesPlaced(s: string, attributes: seq<Attribute>, lo: nat, p: nat) {
    && p <= |s| && InOrder(s, AttributeRanges(attributes), lo, p)
    && (attributes != [] ==> LastEnd(AttributeRanges(attributes)) < p)
    && (forall a | a in attributes :: a.name.start < |s| && IsNameStartChar(s[a.name.start]))
  }

  function LastEnd(rs: seq<Range>): nat {
    if rs == [] then 0 else rs[|rs| - 1].end
  }

  lemma {:induction false} AttributesInOrder(s: string, p: nat, soFar: seq<Attribute>, line: nat, o: Options, lo: nat)
    requires Terminated(s) && lo <= p < |s| && AttributesPlaced(s, soFar, lo, p)
    ensures var r := ParseAttributes(s, p, soFar, line, o);
      r.ret.Some? ==> AttributesPlaced(s, r.attributes, lo, r.ret.value)
    decreases |s| - p
  {
    hide ParseAttribute, IsRange, AttributesPlaced;
    var q := SkipWS(s, p);
    if s[q] != NUL && IsNameStartChar(s[q]) {
      var r := ParseAttribute(s, q, o);
      if r.Some? && !HasName(s, soFar, Raw(s, r.value.0.name)) {
        AttributePlaced(s, soFar, lo, p, q, o);
        AttributesInOrder(s, r.value.1, soFar + [r.value.0], line, o, lo);
      }
    } else {
      StillPlaced(s, soFar, lo, p, q + 1);
      if q + 2 <= |s| { StillPlaced(s, soFar, lo, p, q + 2); }
    }
  }

  lemma StillPlaced(s: string, attributes: seq<Attribute>, lo: nat, p: nat, p': nat)
    requires AttributesPlaced(s, attributes, lo, p) && p <= p' <= |s|
    ensures AttributesPlaced(s, attributes, lo, p')
  {
    Widen(s, AttributeRanges(attributes), lo, p, lo, p');
  }

  lemma AttributePlaced(s: string, soFar: seq<Attribute>, lo: nat, p: nat, q: nat, o: Options)
    requires Terminated(s) && lo <= p <= q < |s| && AttributesPlaced(s, soFar, lo, p)
    requires IsNameStartChar(s[q]) && ParseAttribute(s, q, o).Some?
    ensures var r := ParseAttribute(s, q, o).value; AttributesPlaced(s, soFar + [r.0], lo, r.1)
  {
    hide IsRange;
    var r := ParseAttribute(s, q, o).value;
    var rs, more := AttributeRanges(soFar), [r.0.name, r.0.value];
    AttributeInOrder(s, q, o);
    AttributeRangesSnoc(soFar, r.0);
    Widen(s, rs, lo, p, lo, q);
    if soFar != [] { AttributeRangesNonEmpty(soFar); }
    Concat(s, rs, more, lo, q, r.1 - 1);
    Widen(s, rs + more, lo, r.1 - 1, lo, r.1);
  }

  lemma AttributeRangesNonEmpty(attributes: seq<Attribute>)
    ensures AttributeRanges(attributes) != [] <==> attributes != []
    ensures attributes != [] ==> AttributeRanges(attributes)[0] == attributes[0].name
  {
  }

  // ---- nodes ---------------------------------------------------------------------------

  /** Everything parsed between p and q: ranges in order, and a node that does not start with blanks
      or text starts behind the '<' at p. */
  ghost predicate NodePlaced(s: string, n: Node, p: nat, q: nat) {
    && p <= q && Behind(s, Ranges(n), p, q)
    && (p < |s| && s[p] == '<' ==> p < Ranges(n)[0].start)
    && (n.Element? ==> LastEnd(Ranges(n)) < q)
  }

  ghost predicate NodesPlaced(s: string, ns: seq<Node>, lo: nat, p: nat) {
    lo <= p && Behind(s, RangesAll(ns), lo, p)
  }

  lemma {:induction false} NodeInOrder(s: string, p: nat, depth: nat, o: Options)
    requires Terminated(s) && p < |s| && depth < MAX_ELEMENT_DEPTH && s[SkipWS(s, p)] != NUL
    ensures var r := ParseNode(s, p, depth, o); r.ret.Some? ==> NodePlaced(s, r.node, p, r.ret.value)
    decreases |s| - p, 0
  {
    hide IsRange, ParseElement, ParseLeaf, Ranges;
    var w := SkipWS(s, p);
    var k := KindAt(s, w);
    KindHeader(s, w);
    var r := ParseNode(s, p, depth, o);
    if r.ret.Some? {
      if k == KElement {
        ElementInOrder(s, w + 1, depth, LineAt(s, w), o);
        Widen(s, Ranges(r.node), w + 1, r.ret.value, p, r.ret.value);
      } else {
        var c := if k == KText then p else w + |Header(k)|;
        LeafInOrder(s, c, k, LineAt(s, w), o);
        Widen(s, Ranges(r.node), c, r.ret.value, p, r.ret.value);
      }
    }
  }

  lemma {:induction false} ElementInOrder(s: string, p: nat, depth: nat, line: nat, o: Options)
    requires Terminated(s) && p < |s| && depth < MAX_ELEMENT_DEPTH
    ensures var r := ParseElement(s, p, depth, line, o);
      r.ret.Some? ==> InOrder(s, Ranges(r.node), p, r.ret.value) && LastEnd(Ranges(r.node)) < r.ret.value
    decreases |s| - p
  {
    hide IsRange, InOrder, ParseAttributes, AttributesPlaced;
    var w := SkipWS(s, p);
    var n := if s[w] == '/' then w + 1 else w;
    if IsNameStartChar(s[n]) {
      var e := NameEnd(s, n);
      var a := ParseAttributes(s, e, [], line, o);
      StartTagInOrder(s, n, e, line, o);
      if a.ret.Some? {
        var head := [Range(n, e, PLAIN)] + AttributeRanges(a.attributes);
        Widen(s, head, n, a.ret.value, p, a.ret.value);
        assert head + RangesAll([]) == head;
        var r := ParseElement(s, p, depth, line, o);
        if s[a.ret.value] != NUL && r.node.closing == Open && r.ret.Some? {
          ElementBody(s, p, a.ret.value, head, depth, o);
        }
      }
    }
  }

  /** The name and the attributes of a tag. */
  lemma StartTagInOrder(s: string, n: nat, e: nat, line: nat, o: Options)
    requires Terminated(s) && n < |s| && IsNameStartChar(s[n]) && e == NameEnd(s, n)
    ensures var a := ParseAttributes(s, e, [], line, o);
      a.ret.Some? ==> var head := [Range(n, e, PLAIN)] + AttributeRanges(a.attributes);
        InOrder(s, head, n, a.ret.value) && LastEnd(head) < a.ret.value
  {
    hide ParseAttributes;
    var a := ParseAttributes(s, e, [], line, o);
    AttributesInOrder(s, e, [], line, o, e);
    if a.ret.Some? {
      var name := [Range(n, e, PLAIN)];
      AttributeRangesNonEmpty(a.attributes);
      if a.attributes != [] { assert a.attributes[0] in a.attributes; }
      Concat(s, name, AttributeRanges(a.attributes), n, e, a.ret.value);
    }
  }

  lemma BeforeLast(s: string, rs: seq<Range>, last: Range, lo: nat, hi: nat)
    requires InOrder(s, rs + [last], lo, hi)
    ensures InOrder(s, rs, lo, hi) && (rs != [] ==> LastEnd(rs) < last.start <= last.end <= hi)
  {
    var all := rs + [last];
    assert forall i | 0 <= i < |rs| :: all[i] == rs[i];
    assert all[|rs|] == last && IsRange(s, all[|rs|]);
  }

  /** The children of an element, behind its start tag. */
  lemma ElementBody(s: string, p: nat, c: nat, head: seq<Range>, depth: nat, o: Options)
    requires Terminated(s) && p < c < |s| && depth < MAX_ELEMENT_DEPTH && InOrder(s, head, p, c) && LastEnd(head) < c
    requires ParseDeep(s, c, depth, false, o).ret.Some?
    ensures var r := ParseDeep(s, c, depth, false, o);
      InOrder(s, head + RangesAll(r.children), p, r.ret.value) && LastEnd(head + RangesAll(r.children)) < r.ret.value
    decreases |s| - c, 2
  {
    hide IsRange, ParseChildren;
    var r := ParseDeep(s, c, depth, false, o);
    ChildrenInOrder(s, c, depth + 1, false, [], o, c);
    BeforeLast(s, RangesAll(r.children), r.endTag.value, c, r.ret.value);
    Concat(s, head, RangesAll(r.children), p, c, r.ret.value);
  }

  /** The loop over the children: its nodes stay in order whatever stops it, and an end tag stands
      behind all of them. */
  lemma {:induction false} ChildrenInOrder(s: string, p: nat, depth: nat, atDocument: bool, soFar: seq<Node>,
      o: Options, lo: nat)
    requires Terminated(s) && p < |s| && depth < MAX_ELEMENT_DEPTH && NodesPlaced(s, soFar, lo, p)
    ensures var r := ParseChildren(s, p, depth, atDocument, soFar, o);
      && InOrder(s, RangesAll(r.children), lo, |s| - 1)
      && (r.ret.Some? ==> r.endTag.Some? && r.endTag.value.end < r.ret.value)
      && (r.ret.Some? ==> InOrder(s, RangesAll(r.children) + [r.endTag.value], lo, r.ret.value))
    decreases |s| - p, 1
  {
    hide IsRange, InOrder, ParseNode;
    Widen(s, RangesAll(soFar), lo, p, lo, |s| - 1);
    if s[SkipWS(s, p)] != NUL {
      var r := ParseNode(s, p, depth, o);
      NodeInOrder(s, p, depth, o);
      if r.ret.Some? {
        AddNode(s, soFar, r.node, lo, p, r.ret.value);
        if r.node.Element? && r.node.closing == Closing {
          EndTagPlaced(s, soFar, r.node, lo, p, r.ret.value, depth, o);
        } else {
          ChildrenInOrder(s, r.ret.value, depth, atDocument, soFar + [r.node], o, lo);
        }
      }
    }
  }

  lemma AddNode(s: string, soFar: seq<Node>, n: Node, lo: nat, p: nat, q: nat)
    requires NodesPlaced(s, soFar, lo, p) && NodePlaced(s, n, p, q)
    ensures NodesPlaced(s, soFar + [n], lo, q)
  {
    hide IsRange;
    RangesSnoc(soFar, n);
    Concat(s, RangesAll(soFar), Ranges(n), lo, p, q);
  }

  /** The node of an end tag: its name comes behind the children. */
  lemma EndTagPlaced(s: string, soFar: seq<Node>, n: Node, lo: nat, p: nat, q: nat, depth: nat, o: Options)
    requires Terminated(s) && p < |s| && depth < MAX_ELEMENT_DEPTH && s[SkipWS(s, p)] != NUL
    requires NodesPlaced(s, soFar, lo, p) && NodePlaced(s, n, p, q) && n.Element?
    ensures InOrder(s, RangesAll(soFar) + [n.name], lo, q) && n.name.end < q
  {
    hide IsRange;
    var rs := Ranges(n);
    assert rs[0] == n.name;
    LastIsHighest(s, rs, p, q, 0);
    assert InOrder(s, [n.name], p, q);
    Concat(s, RangesAll(soFar), [n.name], lo, p, q);
  }

  // ---- the whole document -----------------------------------------------------------------

  /** After any parse, with or without an error, the StrPairs of the document are NUL-free ranges
      that do not overlap, terminator slots included. */
  lemma DocumentRangesDisjoint(s: string, o: Options)
    requires Terminated(s)
    ensures var rs := RangesAll(ParseDocument(s, o).children);
      && (forall i | 0 <= i < |rs| :: IsRange(s, rs[i]))
      && (forall i, j | 0 <= i < j < |rs| :: rs[i].end < rs[j].start)
  {
    hide ParseChildren, IsRange, At;
    var w := SkipWS(s, 0);
    var p := if At(s, w, BOM) then w + 3 else w;
    if At(s, w, BOM) { AtBeforeNul(s, w, BOM); }
    if s[p] != NUL {
      ChildrenInOrder(s, p, 1, true, [], o, p);
    }
  }
}
