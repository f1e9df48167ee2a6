/** Reading the names and values of a parsed document, lazily and in any order: each StrPair decodes
    in place inside its own range, so all of them yield what an eager decoding of the pristine text
    would. */
module LazyReading {
  import opened XmlUtil
  import Decode
  import opened StrPairs
  import opened ParserSpec
  import opened ParserFacts
  import opened Dom
  import opened DeepCloning
  import opened DomParsing
  import opened Parser
  import opened TreeMeaning
  import opened Printer
  import PrinterSpec
  import opened RootNodes
  import opened RoundTripLeaves
  import X = XmlTree

  /** A range with buffer content c, read or not, stands for its range of s and stays inside it. */
  ghost predicate StandsIn(c: string, start: nat, end: nat, flags: Decode.Flags, needsFlush: bool, s: string,
      r: Range) {
    && r.start <= start <= end == r.end < |c|
    && if needsFlush then NUL !in c[start..end] && Decode.Meaning(c[start..end], flags) == Str(s, r)
       else c[end] == NUL && CString(c, start) == Str(s, r)
  }

  ghost predicate Stands(x: StrPair, b: array<char>, s: string, r: Range)
    reads x, b
  {
    x.buffer == b && StandsIn(b[..], x.start, x.end, x.flags, x.needsFlush, s, r)
  }

  /** That is what the StrPair itself says it stands for. */
  lemma StandsForStr(x: StrPair, b: array<char>, s: string, r: Range)
    ensures Stands(x, b, s, r) <==>
      x.buffer == b && x.Valid() && r.start <= x.start && x.end == r.end && x.Str() == Str(s, r)
  {
    hide Str, CString, Decode.Meaning;
    if x.buffer == b && x.start <= x.end < b.Length {
      assert b[..][x.start..x.end] == b[x.start..x.end];
    }
  }

  ghost predicate AllStand(xs: seq<StrPair>, b: array<char>, s: string, rs: seq<Range>)
    reads xs, b
  {
    && |xs| == |rs|
    && (forall i, j | 0 <= i < j < |xs| :: xs[i] != xs[j])
    && (forall i | 0 <= i < |xs| :: Stands(xs[i], b, s, rs[i]))
  }

  /** A C string is fixed by the characters up to a NUL behind its start. */
  lemma CStringFrame(b: string, b': string, at: nat, end: nat)
    requires at <= end < |b| == |b'| && b[at..end + 1] == b'[at..end + 1] && b[end] == NUL
    ensures CString(b, at) == CString(b', at)
  {
    var c := CString(b, at);
    var t, t' := b[at..], b'[at..];
    assert t[end - at] == NUL && b[at..end + 1] == t[..end - at + 1];
    assert forall k | 0 <= k < |c| :: c[k] in c && t[k] == c[k];
    forall k | 0 <= k <= |c| ensures t'[k] == t[k] {
      assert b[at..end + 1][k] == b'[at..end + 1][k];
    }
    assert c <= t';
    UpToNulUnique(t', c);
  }

  /** Writes between lo and hi do not reach a range on either side. */
  lemma StandsFrame(c: string, c': string, start: nat, end: nat, flags: Decode.Flags, needsFlush: bool, s: string,
      r: Range, lo: nat, hi: nat)
    requires StandsIn(c, start, end, flags, needsFlush, s, r) && (r.end < lo || hi < r.start) && |c'| == |c|
    requires forall k | 0 <= k < |c| && !(lo <= k <= hi) :: c'[k] == c[k]
    ensures StandsIn(c', start, end, flags, needsFlush, s, r)
  {
    hide Str, CString, Decode.Meaning;
    assert c'[start..end + 1] == c[start..end + 1];
    assert c'[start..end] == c[start..end];
    if !needsFlush { CStringFrame(c, c', start, end); }
  }

  /** Reading one StrPair leaves all of them standing for their ranges. */
  method ReadOne(xs: seq<StrPair>, k: nat, b: array<char>, ghost s: string, ghost rs: seq<Range>) returns (p: nat)
    requires k < |xs| && AllStand(xs, b, s, rs) && InOrder(s, rs, 0, |s|) && b.Length == |s|
    modifies xs[k], b
    ensures AllStand(xs, b, s, rs) && !xs[k].needsFlush && p == xs[k].start
    ensures !old(xs[k].needsFlush) ==> xs[k].start == old(xs[k].start)
  {
    hide StandsIn, InOrder;
    ghost var c := b[..];
    p := ReadStanding(xs[k], b, s, rs[k]);
    forall i | 0 <= i < |xs| && i != k ensures Stands(xs[i], b, s, rs[i]) {
      Apart(s, rs, i, k);
      StandsFrame(c, b[..], xs[i].start, xs[i].end, xs[i].flags, xs[i].needsFlush, s, rs[i], rs[k].start, rs[k].end);
    }
  }

  lemma Apart(s: string, rs: seq<Range>, i: nat, k: nat)
    requires InOrder(s, rs, 0, |s|) && i < |rs| && k < |rs| && i != k
    ensures rs[i].end < rs[k].start || rs[k].end < rs[i].start
  {
  }

  method ReadStanding(x: StrPair, b: array<char>, ghost s: string, ghost r: Range) returns (p: nat)
    requires Stands(x, b, s, r)
    modifies x, b
    ensures Stands(x, b, s, r) && !x.needsFlush && p == x.start
    ensures !old(x.needsFlush) ==> x.start == old(x.start)
    ensures forall k | 0 <= k < b.Length && !(r.start <= k <= r.end) :: b[k] == old(b[k])
  {
    hide Str, CString, Stands;
    StandsForStr(x, b, s, r);
    p := x.GetStr();
    StandsForStr(x, b, s, r);
  }

  /** Any reads in any order, with repetitions: in the end every pointer that was returned points at
      the string its range stands for in the pristine text. */
  method ReadAll(xs: seq<StrPair>, order: seq<nat>, b: array<char>, ghost s: string, ghost rs: seq<Range>)
    returns (at: seq<nat>)
    requires AllStand(xs, b, s, rs) && InOrder(s, rs, 0, |s|) && b.Length == |s|
    requires |xs| == |rs| && forall k | 0 <= k < |order| :: order[k] < |xs|
    modifies xs, b
    ensures AllStand(xs, b, s, rs) && |at| == |order|
    ensures forall k | 0 <= k < |at| :: at[k] <= b.Length && CString(b[..], at[k]) == Str(s, rs[order[k]])
  {
    hide Str, InOrder, AllStand, CString;
    at := [];
    for n := 0 to |order|
      invariant AllStand(xs, b, s, rs) && |at| == n
      invariant forall k | 0 <= k < n :: PointsAt(at[k], xs[order[k]])
    {
      var p := ReadOne(xs, order[n], b, s, rs);
      at := at + [p];
    }
    forall k | 0 <= k < |at| ensures at[k] <= b.Length && CString(b[..], at[k]) == Str(s, rs[order[k]]) {
      assert PointsAt(at[k], xs[order[k]]);
      PointedAt(xs, order[k], b, s, rs);
    }
  }

  ghost predicate PointsAt(p: nat, x: StrPair)
    reads x
  {
    !x.needsFlush && p == x.start
  }

  lemma PointedAt(xs: seq<StrPair>, k: nat, b: array<char>, s: string, rs: seq<Range>)
    requires k < |xs| && AllStand(xs, b, s, rs) && !xs[k].needsFlush
    ensures |rs| == |xs| && xs[k].start <= b.Length && CString(b[..], xs[k].start) == Str(s, rs[k])
  {
    assert Stands(xs[k], b, s, rs[k]);
  }

  /** The StrPairs of a document just parsed. */
  method MakePairs(b: array<char>, rs: seq<Range>, ghost s: string) returns (xs: seq<StrPair>)
    requires b.Length == |s| && Kept(b[..], s, rs) && forall i | 0 <= i < |rs| :: IsRange(s, rs[i])
    ensures AllStand(xs, b, s, rs) && forall x | x in xs :: fresh(x)
  {
    hide Str, AllStand, IsRange, Kept, Stands;
    xs := [];
    NoneStand(b, s);
    for n := 0 to |rs|
      invariant AllStand(xs, b, s, rs[..n]) && forall x | x in xs :: fresh(x)
    {
      var x := MakePair(b, rs, n, s);
      OneMoreStands(xs, b, s, rs[..n], x, rs[n]);
      assert rs[..n + 1] == rs[..n] + [rs[n]];
      xs := xs + [x];
    }
    assert rs[..|rs|] == rs;
  }

  method MakePair(b: array<char>, rs: seq<Range>, n: nat, ghost s: string) returns (x: StrPair)
    requires n < |rs| && b.Length == |s| && Kept(b[..], s, rs) && IsRange(s, rs[n])
    ensures fresh(x) && Stands(x, b, s, rs[n])
  {
    hide Str, IsRange, Kept, Stands;
    var r := rs[n];
    RawKept(b[..], s, rs, n);
    assert b[..][r.start..r.end] == b[r.start..r.end];
    x := new StrPair(b, r.start, r.end, r.flags);
    StrIs(s, r);
    StandsForStr(x, b, s, r);
  }

  lemma NoneStand(b: array<char>, s: string)
    ensures AllStand([], b, s, [])
  {
  }

  lemma OneMoreStands(xs: seq<StrPair>, b: array<char>, s: string, rs: seq<Range>, x: StrPair, r: Range)
    requires AllStand(xs, b, s, rs) && Stands(x, b, s, r) && x !in xs
    ensures AllStand(xs + [x], b, s, rs + [r])
  {
    hide Stands;
  }

  lemma StrIs(s: string, r: Range)
    ensures Str(s, r) == Decode.Meaning(Raw(s, r), r.flags)
  {
  }

  lemma RawKept(b: string, s: string, rs: seq<Range>, n: nat)
    requires n < |rs| && Kept(b, s, rs) && IsRange(s, rs[n])
    ensures rs[n].start <= rs[n].end < |b| && b[rs[n].start..rs[n].end] == Raw(s, rs[n]) && NUL !in Raw(s, rs[n])
  {
  }

  /** XMLDocument::Parse( xml, nBytes ): the tree in memory, and its StrPairs ready to be read. */
  method Load(doc: XMLDocument, xml: string, o: Options) returns (input: DocumentParser, r: Document, xs: seq<StrPair>)
    requires doc.Valid()
    modifies doc, doc.kids.Keys
    ensures doc.Valid() && AllBelowRoot(doc) && IsTree(doc, NodeTrees(Buffer(xml), r.children))
    ensures r == Loaded(xml, o) && input.error == r.err && fresh(input)
    ensures r.err.None? ==> AllStand(xs, input.buffer, Buffer(xml), RangesAll(r.children))
    ensures r.err.None? ==>
      InOrder(Buffer(xml), RangesAll(r.children), 0, |xml| + 1) && input.buffer.Length == |xml| + 1
  {
    hide XMLDocument.Valid, ParseDocument, Kept, IsRange, Str, IsTree, AllBelowRoot, NodeTrees, AllStand;
    ghost var s := Buffer(xml);
    input, r := Parse(doc, xml, o);
    xs := [];
    if r.err.None? {
      DocumentRangesDisjoint(s, o);
      InOrderOf(s, RangesAll(r.children));
      KeptLength(input.buffer[..], s, RangesAll(r.children));
      xs := MakePairs(input.buffer, RangesAll(r.children), s);
    }
  }

  lemma KeptLength(b: string, s: string, rs: seq<Range>)
    requires Kept(b, s, rs)
    ensures |b| == |s|
  {
  }

  lemma InOrderOf(s: string, rs: seq<Range>)
    requires forall i | 0 <= i < |rs| :: IsRange(s, rs[i])
    requires forall i, j | 0 <= i < j < |rs| :: rs[i].end < rs[j].start
    ensures InOrder(s, rs, 0, |s|)
  {
  }

  /** Print a document, parse the text into memory, and read any of its names and values: the nodes in
      memory are those of the document that was printed, as storing leaves them, and no others, and the
      StrPairs stand for their strings. */
  method SaveAndLoad(doc: XMLDocument, d: X.Doc, compact: bool)
    returns (xml: string, input: DocumentParser, r: Document, ghost children: seq<Tree>, xs: seq<StrPair>)
    requires doc.Valid() && X.StorableDoc(d)
    modifies doc, doc.kids.Keys
    ensures doc.Valid() && AllBelowRoot(doc) && IsTree(doc, children) && (r.err.None? <==> X.ReadsBack(d))
    ensures var d1 := X.RereadDoc(d, !compact);
      && (if r.err.None? then DocOf(Buffer(xml), r) == d1 && HoldAll(children, d1.children) else children == [])
      && (X.Survives(d, !compact) <==> d1 == d)
    ensures r.err.None? ==> AllStand(xs, input.buffer, Buffer(xml), RangesAll(r.children))
    ensures r.err.None? ==>
      InOrder(Buffer(xml), RangesAll(r.children), 0, |xml| + 1) && input.buffer.Length == |xml| + 1
  {
    hide AllStand, InOrder, X.StorableDoc, X.RereadDoc, X.Survives, X.ReadsBack, DocOf, PrinterSpec.PrintDocument,
      XMLDocument.Valid, IsTree, AllBelowRoot, HoldAll, NodeTrees, TreesOf, ParseDocument;
    var p := new XMLPrinter(compact);
    p.PrintDocument(d, true);
    xml := p.buffer[..|p.buffer| - 1];
    assert xml == PrinterSpec.PrintDocument(d, p.M());
    DocumentReread(d, p.M());
    X.RereadDocSame(d, !compact);
    input, r, xs := Load(doc, xml, OPTIONS);
    children := NodeTrees(Buffer(xml), r.children);
    NodesHold(Buffer(xml), r.children);
    ChildrenOf(Buffer(xml), r);
  }

  lemma ChildrenOf(s: string, r: Document)
    ensures DocOf(s, r).children == TreesOf(s, r.children) && (r.children == [] ==> NodeTrees(s, r.children) == [])
  {
  }
}
