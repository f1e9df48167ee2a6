/** XMLDocument::Parse on its buffer: the loops that read it, count lines and depth, and write the
    terminators of the names they have to compare. Each method computes the function of
    ParserSpec.dfy for the pristine buffer s. */
module Parser {
  import opened XmlUtil
  import opened Decode
  import opened ParserSpec
  import opened ParserFacts

  /** The buffer b while s is parsed and reading has reached p: what is unread is pristine. */
  ghost predicate ReadTo(b: string, s: string, p: nat) {
    && |b| == |s| && Terminated(s) && p < |s|
    && (forall k | p <= k < |s| :: b[k] == s[k])
  }

  /** The content of the ranges is untouched. */
  ghost predicate Kept(b: string, s: string, rs: seq<Range>) {
    |b| == |s| && forall i, k | 0 <= i < |rs| && rs[i].start <= k < rs[i].end && k < |s| :: b[k] == s[k]
  }

  /** Everything before p is as it was. */
  ghost predicate SameBefore(b: string, b': string, p: nat) {
    |b| == |b'| && p <= |b| && b[..p] == b'[..p]
  }

  lemma KeptFrame(b: string, b': string, s: string, rs: seq<Range>, lo: nat, hi: nat)
    requires Kept(b, s, rs) && SameBefore(b, b', hi) && InOrder(s, rs, lo, hi)
    ensures Kept(b', s, rs)
  {
    hide IsRange;
    forall i, k | 0 <= i < |rs| && rs[i].start <= k < rs[i].end && k < |s| ensures b'[k] == s[k] {
      assert b[k] == b[..hi][k] == b'[..hi][k] == b'[k];
    }
  }

  /** Writing where none of the ranges has content. */
  lemma KeptWrite(b: string, s: string, rs: seq<Range>, k: nat)
    requires Kept(b, s, rs) && k < |b|
    requires forall i | 0 <= i < |rs| :: k < rs[i].start || rs[i].end <= k
    ensures Kept(b[k := NUL], s, rs)
  {
  }

  lemma KeptConcat(b: string, s: string, a: seq<Range>, c: seq<Range>)
    ensures Kept(b, s, a) && Kept(b, s, c) <==> Kept(b, s, a + c)
  {
    if Kept(b, s, a + c) {
      assert forall i | 0 <= i < |a| :: (a + c)[i] == a[i];
      assert forall i | 0 <= i < |c| :: (a + c)[|a| + i] == c[i];
    }
  }

  /** The C string w stands at `at`. */
  ghost predicate Holds(b: string, at: nat, w: string) {
    at + |w| < |b| && b[at + |w|] == NUL && NUL !in w && forall k | 0 <= k < |w| :: b[at + k] == w[k]
  }

  lemma HeldAt(b: string, at: nat, w: string, k: nat)
    requires Holds(b, at, w) && k <= |w|
    ensures at + k < |b| && b[at + k] == (if k < |w| then w[k] else NUL) && (b[at + k] == NUL <==> k == |w|)
  {
    if k < |w| { assert w[k] in w; }
  }

  lemma NameHeld(b: string, s: string, r: Range)
    requires IsRange(s, r) && Kept(b, s, [r]) && b[r.end] == NUL
    ensures Holds(b, r.start, Raw(s, r))
  {
    var w := Raw(s, r);
    assert [r][0] == r;
    forall k | 0 <= k < |w| ensures b[r.start + k] == w[k] && w[k] != NUL {
      assert w[k] == s[r.start + k];
    }
  }

  /** Writing behind a C string. */
  lemma StillHeld(b: string, at: nat, w: string, k: nat)
    requires Holds(b, at, w) && at + |w| < k < |b|
    ensures Holds(b[k := NUL], at, w)
  {
  }

  lemma LineNext(s: string, p: nat)
    requires p < |s|
    ensures LineAt(s, p + 1) == LineAt(s, p) + if s[p] == LF then 1 else 0
  {
  }

  lemma {:induction false} SameLine(s: string, p: nat, w: string)
    requires At(s, p, w) && LF !in w
    ensures LineAt(s, p + |w|) == LineAt(s, p)
    decreases |w|
  {
    if w != [] {
      var v := w[..|w| - 1];
      assert w == v + [w[|w| - 1]];
      AtSplit(s, p, v, [w[|w| - 1]]);
      SameLine(s, p, v);
      AtIndex(s, p, w, |w| - 1);
    }
  }

  /** What one round of the loop over the children comes to. */
  datatype Round = Done(children: ParsedChildren) | More(next: nat, node: Node) {
    /** Where reading goes on, here or in the parent. */
    function Next(): Option<nat> {
      match this
      case Done(c) => c.ret
      case More(next, _) => Some(next)
    }

    function After(kids: seq<Node>): seq<Node> {
      match this
      case Done(_) => kids
      case More(_, node) => kids + [node]
    }
  }

  /** The round that was specified, with the error it left. */
  ghost predicate IsRound(s: string, q: nat, depth: nat, atDocument: bool, kids: seq<Node>, o: Options, round: Round,
      error: Option<Error>)
    requires Terminated(s) && q < |s| && depth < MAX_ELEMENT_DEPTH
  {
    var spec := ParserSpec.ParseChildren(s, q, depth, atDocument, kids, o);
    match round
    case Done(c) => c == spec && c.children == kids && error == c.err
    case More(next, node) =>
      && q < next < |s| && error.None?
      && spec == ParserSpec.ParseChildren(s, next, depth, atDocument, kids + [node], o)
  }

  /** What it left of the buffer. */
  ghost predicate RoundRead(b: string, b': string, s: string, kids: seq<Node>, lo: nat, q: nat, round: Round) {
    match round
    case Done(c) => ChildrenRead(b, b', s, c, q)
    case More(next, node) =>
      && SameBefore(b, b', q) && NodesPlaced(s, round.After(kids), lo, next)
      && Kept(b', s, RangesAll(round.After(kids)))
  }

  /** What XMLDocument has for parsing: _charBuffer, the line counter, the depth and the error. Its
      tree is in Dom.dfy; DomParser.dfy has the methods that work on both. */
  class DocumentParser {
    const buffer: array<char>
    const options: Options
    var parseCurLineNum: nat
    var parsingDepth: nat
    var error: Option<Error>
    var writeBOM: bool

    /** Parse( xml, nBytes ) past its checks: the text copied, a NUL behind it. */
    constructor (xml: string, o: Options)
      ensures fresh(buffer) && buffer[..] == xml + [NUL] && options == o && error.None?
      ensures parsingDepth == 0 && !writeBOM
    {
      var b := new char[|xml| + 1](i => if 0 <= i < |xml| then xml[i] else NUL);
      buffer, options := b, o;
      parseCurLineNum, parsingDepth, error, writeBOM := 0, 0, None, false;
      new;
      assert buffer[..] == xml + [NUL];
    }

    /** Reading has reached p, and the line counter is right. */
    ghost predicate Reading(s: string, p: nat)
      reads this, buffer
    {
      ReadTo(buffer[..], s, p) && parseCurLineNum == LineAt(s, p)
    }

    // ---- scans ---------------------------------------------------------------------

    method SkipWhiteSpace(p: nat, ghost s: string) returns (q: nat)
      requires Reading(s, p)
      modifies this`parseCurLineNum
      ensures q == SkipWS(s, p) && Reading(s, q)
    {
      q := p;
      while IsWhiteSpace(buffer[q])
        invariant p <= q < |s| && SkipWS(s, q) == SkipWS(s, p) && parseCurLineNum == LineAt(s, q)
        decreases |s| - q
      {
        LineNext(s, q);
        if buffer[q] == LF {
          parseCurLineNum := parseCurLineNum + 1;
        }
        q := q + 1;
      }
    }

    /** strncmp( p, w, strlen( w ) ) == 0 on the unread buffer. */
    method Matches(p: nat, w: string, ghost s: string) returns (same: bool)
      requires ReadTo(buffer[..], s, p) && NUL !in w
      ensures same == At(s, p, w)
    {
      var k := 0;
      while k < |w|
        invariant k <= |w| && p + k < |s| && forall i | 0 <= i < k :: s[p + i] == w[i]
      {
        assert w[k] in w;
        if buffer[p + k] != w[k] {
          return false;
        }
        k := k + 1;
      }
      return true;
    }

    /** StrPair::ParseText: the end of the content, with the lines of the content counted. */
    method ParseText(p: nat, endTag: string, ghost s: string) returns (r: Option<nat>)
      requires Reading(s, p) && endTag != [] && NUL !in endTag && LF !in endTag
      modifies this`parseCurLineNum
      ensures r == FindTag(s, p, endTag)
      ensures r.Some? ==> Reading(s, r.value + |endTag|)
    {
      var q := p;
      while buffer[q] != NUL
        invariant p <= q < |s| && FindTag(s, q, endTag) == FindTag(s, p, endTag) && parseCurLineNum == LineAt(s, q)
        decreases |s| - q
      {
        var found := Matches(q, endTag, s);
        if found {
          AtBeforeNul(s, q, endTag);
          SameLine(s, q, endTag);
          return Some(q);
        }
        LineNext(s, q);
        if buffer[q] == LF {
          parseCurLineNum := parseCurLineNum + 1;
        }
        q := q + 1;
      }
      return None;
    }

    /** StrPair::ParseName: the end of the name at p, or a null return where none starts. */
    method ParseName(p: nat, ghost s: string) returns (r: Option<nat>)
      requires Reading(s, p)
      ensures r == if IsNameStartChar(s[p]) then Some(NameEnd(s, p)) else None
      ensures r.Some? ==> p < r.value && Reading(s, r.value)
    {
      if buffer[p] == NUL || !IsNameStartChar(buffer[p]) {
        return None;
      }
      var e := p;
      while IsNameChar(buffer[e])
        invariant p <= e < |s| && NameEnd(s, e) == NameEnd(s, p) && LineAt(s, e) == LineAt(s, p)
        decreases |s| - e
      {
        LineNext(s, e);
        e := e + 1;
      }
      return Some(e);
    }

    // ---- names read while parsing --------------------------------------------------

    /** GetStr on a name, whose flags are 0: only the terminator is written. */
    method FlushName(r: Range)
      requires r.end < buffer.Length
      modifies buffer
      ensures buffer[..] == old(buffer[..])[r.end := NUL]
    {
      buffer[r.end] := NUL;
    }

    /** StringEqual on two C strings of the buffer. */
    method StringEqual(a: nat, b: nat, ghost u: string, ghost v: string) returns (same: bool)
      requires Holds(buffer[..], a, u) && Holds(buffer[..], b, v)
      ensures same == (u == v)
    {
      hide Holds;
      var k := 0;
      HeldAt(buffer[..], a, u, 0);
      HeldAt(buffer[..], b, v, 0);
      while buffer[a + k] == buffer[b + k] && buffer[a + k] != NUL
        invariant k <= |u| && k <= |v| && u[..k] == v[..k]
        invariant a + k < buffer.Length && b + k < buffer.Length
        decreases |u| - k
      {
        HeldAt(buffer[..], a, u, k);
        HeldAt(buffer[..], b, v, k);
        assert u[..k + 1] == u[..k] + [u[k]] && v[..k + 1] == v[..k] + [v[k]];
        k := k + 1;
        HeldAt(buffer[..], a, u, k);
        HeldAt(buffer[..], b, v, k);
      }
      HeldAt(buffer[..], a, u, k);
      HeldAt(buffer[..], b, v, k);
      same := buffer[a + k] == buffer[b + k];
      assert same ==> u[..k] == u && v[..k] == v;
      assert u == v ==> |u| == |v|;
    }

    // ---- attributes ------------------------------------------------------------------

    method SetError(code: Code, line: nat)
      modifies this`error
      ensures error == Some(Error(code, line))
    {
      error := Some(Error(code, line));
    }

    /** XMLAttribute::ParseDeep. */
    method ParseAttribute(p: nat, ghost s: string) returns (r: Option<(Attribute, nat)>)
      requires Reading(s, p) && IsNameStartChar(s[p])
      modifies this`parseCurLineNum
      ensures r == ParserSpec.ParseAttribute(s, p, options)
      ensures r.Some? ==> Reading(s, r.value.1)
    {
      hide FindTag, SkipWS, NameEnd, LineAt;
      var line := parseCurLineNum;
      var name := ParseName(p, s);
      if name.None? || buffer[name.value] == NUL {
        return None;
      }
      var n := name.value;
      var e := SkipWhiteSpace(n, s);
      if buffer[e] != '=' {
        return None;
      }
      LineNext(s, e);
      var u := SkipWhiteSpace(e + 1, s);
      if buffer[u] != '"' && buffer[u] != '\'' {
        return None;
      }
      LineNext(s, u);
      var q := ParseText(u + 1, [buffer[u]], s);
      match q {
        case None => return None;
        case Some(q) =>
          return Some((Attribute(Range(p, n, PLAIN), Range(u + 1, q, ValueFlags(options)), line), q + 1));
      }
    }

    /** FindAttribute: the loop over the attributes so far. */
    method FindAttribute(attributes: seq<Attribute>, name: Range, ghost s: string) returns (found: bool)
      requires NamesHeld(buffer[..], s, attributes) && Holds(buffer[..], name.start, Raw(s, name))
      ensures found == HasName(s, attributes, Raw(s, name))
    {
      hide Holds;
      for i := 0 to |attributes|
        invariant forall j | 0 <= j < i :: Raw(s, attributes[j].name) != Raw(s, name)
      {
        var a := attributes[i];
        assert a in attributes;
        var same := StringEqual(a.name.start, name.start, Raw(s, a.name), Raw(s, name));
        if same {
          return true;
        }
      }
      return false;
    }

    /** Attribute( attrib->Name() ): the new name is terminated, then looked for. */
    method ReadName(attributes: seq<Attribute>, a: Attribute, ghost lo: nat, ghost from: nat, ghost q: nat,
        ghost next: nat, ghost s: string)
      returns (known: bool)
      requires lo <= from <= q < next < |s| && ReadTo(buffer[..], s, q) && parseCurLineNum == LineAt(s, next)
      requires IsNameStartChar(s[q])
      requires AttributesRead(buffer[..], s, attributes, lo, from)
      requires ParserSpec.ParseAttribute(s, q, options) == Some((a, next))
      modifies buffer
      ensures known == HasName(s, attributes, Raw(s, a.name)) && Reading(s, next)
      ensures SameBefore(old(buffer[..]), buffer[..], lo) && AttributesRead(buffer[..], s, attributes + [a], lo, next)
    {
      hide ReadTo, AttributesRead, SameBefore, Holds, NamesHeld, ParserSpec.ParseAttribute, LineAt, HasName;
      NameTerminated(buffer[..], s, attributes, a, lo, from, q, next, options);
      FlushName(a.name);
      known := FindAttribute(attributes, a.name, s);
    }

    /** The branch of ParseAttributes for a name start character: one attribute, or the error. */
    method NextAttribute(attributes: seq<Attribute>, q: nat, line: nat, ghost lo: nat, ghost from: nat, ghost s: string)
      returns (r: Option<(Attribute, nat)>)
      requires Terminated(s) && lo <= from < |s| == buffer.Length && q == SkipWS(s, from) && Reading(s, q)
      requires error.None?
      requires IsNameStartChar(s[q]) && AttributesRead(buffer[..], s, attributes, lo, from)
      modifies this`parseCurLineNum, this`error, buffer
      ensures var spec := ParserSpec.ParseAttributes(s, from, attributes, line, options);
        match r
        case None => spec == ParsedAttributes(None, attributes, false, error)
        case Some((a, next)) =>
          && q < next < |s| && error.None? && Reading(s, next)
          && spec == ParserSpec.ParseAttributes(s, next, attributes + [a], line, options)
          && AttributesRead(buffer[..], s, attributes + [a], lo, next)
      ensures SameBefore(old(buffer[..]), buffer[..], lo) && Kept(buffer[..], s, AttributeRanges(attributes))
    {
      hide ReadTo, AttributesRead, SameBefore, ParserSpec.ParseAttribute, LineAt, HasName, SkipWS, Kept;
      AttributesKept(buffer[..], s, attributes, lo, from);
      AttributeLine(s, q, options);
      NothingWritten(buffer[..], lo);
      var attrLine := parseCurLineNum;
      r := ParseAttribute(q, s);
      if r.None? {
        SetError(PARSING_ATTRIBUTE, attrLine);
        return None;
      }
      var known := ReadName(attributes, r.value.0, lo, from, q, r.value.1, s);
      FewerKept(buffer[..], s, attributes, r.value.0, lo, r.value.1);
      if known {
        SetError(PARSING_ATTRIBUTE, attrLine);
        return None;
      }
    }

    /** The other branches of ParseAttributes: the start tag ends at q, or is not one. */
    method EndStartTag(attributes: seq<Attribute>, q: nat, line: nat, ghost from: nat, ghost s: string)
      returns (r: ParsedAttributes)
      requires Terminated(s) && from < |s| && q == SkipWS(s, from) && Reading(s, q) && error.None?
      requires !IsNameStartChar(s[q])
      modifies this`parseCurLineNum, this`error
      ensures r == ParserSpec.ParseAttributes(s, from, attributes, line, options) && error == r.err
      ensures r.attributes == attributes
      ensures r.ret.Some? ==> q < r.ret.value && Reading(s, r.ret.value)
    {
      hide SkipWS, LineAt;
      if buffer[q] == NUL {
        SetError(PARSING_ELEMENT, line);
        return ParsedAttributes(None, attributes, false, error);
      } else if buffer[q] == '>' {
        LineNext(s, q);
        return ParsedAttributes(Some(q + 1), attributes, false, None);
      }
      var sealed := Matches(q, "/>", s);
      if sealed {
        AtBeforeNul(s, q, "/>");
        SameLine(s, q, "/>");
        return ParsedAttributes(Some(q + 2), attributes, true, None);
      }
      SetError(PARSING_ELEMENT, line);
      return ParsedAttributes(None, attributes, false, error);
    }

    /** XMLElement::ParseAttributes. `sealed` stands for _closingType set to CLOSED. */
    method ParseAttributes(p: nat, line: nat, ghost s: string) returns (r: ParsedAttributes)
      requires Reading(s, p) && error.None?
      modifies this`parseCurLineNum, this`error, buffer
      ensures r == ParserSpec.ParseAttributes(s, p, [], line, options) && error == r.err
      ensures r.ret.Some? ==> Reading(s, r.ret.value)
      ensures SameBefore(old(buffer[..]), buffer[..], p) && Kept(buffer[..], s, AttributeRanges(r.attributes))
    {
      hide ParserSpec.ParseAttributes, SkipWS, LineAt, AttributesPlaced, NamesHeld;
      var q, attributes := p, [];
      NoneRead(buffer[..], s, p);
      while true
        invariant p <= q < |s| && Reading(s, q) && error.None?
        invariant SameBefore(old(buffer[..]), buffer[..], p) && AttributesRead(buffer[..], s, attributes, p, q)
        invariant ParserSpec.ParseAttributes(s, q, attributes, line, options)
               == ParserSpec.ParseAttributes(s, p, [], line, options)
        decreases |s| - q
      {
        hide Kept;
        ghost var from := q;
        q := SkipWhiteSpace(q, s);
        if !IsNameStartChar(buffer[q]) {
          r := EndStartTag(attributes, q, line, from, s);
          return r;
        }
        var a := NextAttribute(attributes, q, line, p, from, s);
        if a.None? {
          return ParsedAttributes(None, attributes, false, error);
        }
        q, attributes := a.value.1, attributes + [a.value.0];
      }
    }

    // ---- nodes -----------------------------------------------------------------------

    /** XMLDocument::Identify: which node comes next, the line of its first character and where its
        ParseDeep starts. Text is backed up to p, with the line counter. */
    method Identify(p: nat, ghost s: string) returns (node: Option<Kind>, line: nat, q: nat)
      requires Reading(s, p)
      modifies this`parseCurLineNum
      ensures var w := SkipWS(s, p);
        && (node.None? <==> s[w] == NUL)
        && (node.Some? ==> node.value == KindAt(s, w) && line == LineAt(s, w) && Reading(s, q))
        && (node.Some? ==> q == if node.value == KText then p else w + |Header(node.value)|)
    {
      hide SkipWS, LineAt;
      var startLine := parseCurLineNum;
      q := SkipWhiteSpace(p, s);
      line := parseCurLineNum;
      if buffer[q] == NUL {
        return None, line, q;
      }
      KindHeader(s, q);
      var kind := IdentifyAt(q, s);
      if kind == KText {
        parseCurLineNum := startLine;
        return Some(kind), line, p;
      }
      SameLine(s, q, Header(kind));
      return Some(kind), line, q + |Header(kind)|;
    }

    /** The comparisons with the headers, in their order. */
    method IdentifyAt(q: nat, ghost s: string) returns (kind: Kind)
      requires ReadTo(buffer[..], s, q)
      ensures kind == KindAt(s, q)
    {
      hide ReadTo, At;
      var found := Matches(q, XML_HEADER, s);
      if found { return KDeclaration; }
      found := Matches(q, COMMENT_HEADER, s);
      if found { return KComment; }
      found := Matches(q, CDATA_HEADER, s);
      if found { return KCData; }
      found := Matches(q, DTD_HEADER, s);
      if found { return KUnknown; }
      found := Matches(q, ELEMENT_HEADER, s);
      return if found then KElement else KText;
    }

    /** ParseDeep of the node kinds without children. */
    method ParseLeaf(p: nat, k: Kind, line: nat, ghost s: string) returns (r: Parsed)
      requires Reading(s, p) && error.None? && k != KElement
      modifies this`parseCurLineNum, this`error
      ensures r == ParserSpec.ParseLeaf(s, p, k, line, options) && error == r.err
      ensures r.ret.Some? ==> Reading(s, r.ret.value)
      ensures NodeRead(buffer[..], buffer[..], s, r, p) && Kept(buffer[..], s, Ranges(r.node))
    {
      hide FindTag, LineAt;
      var q := ParseText(p, EndTag(k), s);
      if q.None? {
        SetError(LeafError(k), line);
        return Parsed(None, LeafNode(k, Range(0, 0, PLAIN), line), None, error);
      }
      var node := LeafNode(k, Range(p, q.value, LeafFlags(k, options)), line);
      if k != KText {
        return Parsed(Some(q.value + |EndTag(k)|), node, None, None);
      }
      TextEnd(s, q.value);
      return Parsed(if buffer[q.value + 1] != NUL then Some(q.value) else None, node, None, None);
    }

    /** XMLElement::ParseDeep up to the children: the name and the attributes, and whether children are
        read next. */
    method StartTag(p: nat, line: nat, ghost s: string) returns (head: Parsed, body: bool)
      requires Reading(s, p) && error.None? && parsingDepth < MAX_ELEMENT_DEPTH
      modifies this`parseCurLineNum, this`error, buffer
      ensures head.node.Element? && head.node.children == [] && head.endTag.None? && error == head.err
      ensures head.ret.Some? ==> error.None? && p < head.ret.value && Reading(s, head.ret.value)
      ensures body ==> head.ret.Some? && InOrder(s, Ranges(head.node), p, head.ret.value)
      ensures ParserSpec.ParseElement(s, p, parsingDepth, line, options)
           == if body then WithChildren(head, ParserSpec.ParseDeep(s, head.ret.value, parsingDepth, false, options))
              else head
      ensures SameBefore(old(buffer[..]), buffer[..], p) && Kept(buffer[..], s, Ranges(head.node))
    {
      hide SkipWS, NameEnd, LineAt, ParserSpec.ParseAttributes, ParserSpec.ParseDeep, ReadTo, Kept, SameBefore, InOrder;
      ghost var b0 := buffer[..];
      TerminatedBuffer(b0, s, p);
      NothingWritten(b0, p);
      var n := SkipWhiteSpace(p, s);
      UnreadAt(buffer[..], s, n);
      var closing := Open;
      if buffer[n] == '/' {
        LineNext(s, n);
        StillReading(buffer[..], s, n, n + 1);
        n, closing := n + 1, Closing;
        UnreadAt(buffer[..], s, n);
      }
      var valueEnd := ParseName(n, s);
      if valueEnd.None? {
        head := Parsed(None, Element(Range(0, 0, PLAIN), [], closing, [], line), None, None);
        NoName(b0, s, head.node);
        return head, false;
      }
      var e := valueEnd.value;
      var a := ParseAttributes(e, line, s);
      if a.sealed { closing := Closed; }
      head := Parsed(a.ret, Element(Range(n, e, PLAIN), a.attributes, closing, [], line), None, a.err);
      StartTagKept(b0, buffer[..], s, p, n, e, line, options);
      if a.ret.None? {
        return head, false;
      }
      UnreadAt(buffer[..], s, a.ret.value);
      HeadInOrder(s, p, n, e, line, options);
      body := buffer[a.ret.value] != NUL && closing == Open;
    }

    method PushDepth()
      requires error.None?
      modifies this`parsingDepth, this`error
      ensures parsingDepth == old(parsingDepth) + 1
      ensures error ==
        if parsingDepth == MAX_ELEMENT_DEPTH then Some(Error(ELEMENT_DEPTH_EXCEEDED, parseCurLineNum)) else None
    {
      parsingDepth := parsingDepth + 1;
      if parsingDepth == MAX_ELEMENT_DEPTH {
        SetError(ELEMENT_DEPTH_EXCEEDED, parseCurLineNum);
      }
    }

    method PopDepth()
      requires parsingDepth > 0
      modifies this`parsingDepth
      ensures parsingDepth == old(parsingDepth) - 1
    {
      parsingDepth := parsingDepth - 1;
    }

    /** What a round of the loop of XMLNode::ParseDeep does with a node just parsed: the children are
        complete or in error, or there is one more. b0 is the buffer before. */
    method Judge(r: Parsed, line: nat, kids: seq<Node>, atDocument: bool, ghost q: nat, ghost lo: nat, ghost b0: string,
        ghost s: string)
      returns (round: Round)
      requires Terminated(s) && q < |s| && parsingDepth < MAX_ELEMENT_DEPTH && s[SkipWS(s, q)] != NUL
      requires r == ParserSpec.ParseNode(s, q, parsingDepth, options) && error == r.err
      requires line == LineAt(s, SkipWS(s, q))
      requires (r.ret.Some? ==> Reading(s, r.ret.value)) && NodeRead(b0, buffer[..], s, r, q)
      requires NodesPlaced(s, kids, lo, q) && Kept(b0, s, RangesAll(kids))
      modifies this`error, buffer
      ensures IsRound(s, q, parsingDepth, atDocument, kids, options, round, error)
      ensures RoundRead(b0, buffer[..], s, kids, lo, q, round) && (round.More? ==> r.node == round.node)
      ensures round.Next().Some? ==> Reading(s, round.Next().value)
    {
      hide LineAt, ParserSpec.ParseNode, ReadTo, SkipWS, NodesPlaced, Kept, SameBefore, ChildrenRead, Mismatched;
      NodeBefore(b0, buffer[..], s, r, q);
      var node := r.node;
      if r.ret.None? {
        if error.None? { SetError(PARSING, line); }
        FailedChildren(b0, buffer[..], s, ParsedChildren(None, None, kids, error), q);
        return Done(ParsedChildren(None, None, kids, error));
      }
      var next := r.ret.value;
      if node.Declaration? && !DeclarationAllowed(atDocument, kids) {
        SetError(PARSING_DECLARATION, line);
        FailedChildren(b0, buffer[..], s, ParsedChildren(None, None, kids, error), q);
        return Done(ParsedChildren(None, None, kids, error));
      }
      if node.Element? && node.closing == Closing {
        EndTagKept(b0, buffer[..], s, kids, r, lo, q);
        return Done(ParsedChildren(r.ret, Some(node.name), kids, None));
      }
      ghost var b1 := buffer[..];
      var mismatch := Mismatch(node, r.endTag, r, q, s);
      SameBeforeTrans(b0, b1, buffer[..], q, q);
      if mismatch {
        SetError(MISMATCHED_ELEMENT, line);
        FailedChildren(b0, buffer[..], s, ParsedChildren(None, None, kids, error), q);
        return Done(ParsedChildren(None, None, kids, error));
      }
      ChildKept(b0, buffer[..], s, kids, node, lo, q, next, parsingDepth, options);
      return More(next, node);
    }

    /** An end tag returned to this level: both names are read, and terminated by that. */
    method Mismatch(node: Node, endTag: Option<Range>, ghost r: Parsed, ghost q: nat, ghost s: string)
      returns (mismatch: bool)
      requires Terminated(s) && q < |s| && parsingDepth < MAX_ELEMENT_DEPTH && s[SkipWS(s, q)] != NUL
      requires r == ParserSpec.ParseNode(s, q, parsingDepth, options) && r.ret.Some? && node == r.node
      requires endTag == r.endTag
      requires ReadTo(buffer[..], s, r.ret.value) && Kept(buffer[..], s, Ranges(node))
      requires endTag.Some? ==> Kept(buffer[..], s, [endTag.value])
      modifies buffer
      ensures mismatch == (node.Element? && Mismatched(s, node, endTag))
      ensures ReadTo(buffer[..], s, r.ret.value) && SameBefore(old(buffer[..]), buffer[..], q)
      ensures Kept(buffer[..], s, Ranges(node))
    {
      if !node.Element? || endTag.None? {
        return node.Element? && node.closing == Open;
      }
      EndTagBehind(s, q, parsingDepth, options);
      if node.closing != Open {
        return true;
      }
      var same := SameNames(node, endTag.value, q, r.ret.value, s);
      return !same;
    }

    /** XMLUtil::StringEqual( endTag.GetStr(), ele->Name() ). */
    method SameNames(node: Node, endTag: Range, ghost q: nat, ghost next: nat, ghost s: string) returns (same: bool)
      requires node.Element? && q <= next && endTag.end < next && InOrder(s, Ranges(node) + [endTag], q, next)
      requires ReadTo(buffer[..], s, next) && Kept(buffer[..], s, Ranges(node)) && Kept(buffer[..], s, [endTag])
      modifies buffer
      ensures same == (Raw(s, endTag) == Raw(s, node.name))
      ensures ReadTo(buffer[..], s, next) && SameBefore(old(buffer[..]), buffer[..], q)
      ensures Kept(buffer[..], s, Ranges(node))
    {
      hide ReadTo, Kept, SameBefore, InOrder, Holds, IsRange, Raw;
      NamesTerminated(buffer[..], s, node, endTag, q, next);
      FlushName(endTag);
      FlushName(node.name);
      same := StringEqual(endTag.start, node.name.start, Raw(s, endTag), Raw(s, node.name));
    }

    /** XMLDocument::Parse() up to the nodes: where they start, and whether there can be any. */
    method SkipToNodes(ghost s: string) returns (p: nat, empty: bool)
      requires buffer[..] == s && Terminated(s) && error.None? && parsingDepth == 0
      modifies this`parseCurLineNum, this`writeBOM, this`error
      ensures p < |s| && Reading(s, p) && (empty <==> error.Some?)
      ensures ParserSpec.ParseDocument(s, options)
           == if empty then Document(writeBOM, [], error)
              else var c := ParserSpec.ParseDeep(s, p, 0, true, options); Document(writeBOM, c.children, c.err)
    {
      hide ParserSpec.ParseDeep, At, SkipWS;
      parseCurLineNum := 1;
      p := SkipWhiteSpace(0, s);
      writeBOM := Matches(p, BOM, s);
      if writeBOM {
        AtBeforeNul(s, p, BOM);
        SameLine(s, p, BOM);
        p := p + 3;
      }
      empty := buffer[p] == NUL;
      if empty {
        SetError(EMPTY_DOCUMENT, 0);
      }
    }
  }

  /** An element with the children read below its start tag. */
  function WithChildren(head: Parsed, c: ParsedChildren): Parsed
    requires head.node.Element?
  {
    Parsed(c.ret, head.node.(children := c.children), c.endTag, c.err)
  }

  // ---- what stays in the buffer ----------------------------------------------------------

  /** A node was parsed from p on, and nothing was written before p. If that went well, its content is
      in the buffer, and so is its end tag's. */
  ghost predicate NodeRead(b: string, b': string, s: string, r: Parsed, p: nat) {
    && SameBefore(b, b', p)
    && (r.ret.Some? ==> Kept(b', s, Ranges(r.node)) && (r.endTag.Some? ==> Kept(b', s, [r.endTag.value])))
  }

  /** The same for children. */
  ghost predicate ChildrenRead(b: string, b': string, s: string, r: ParsedChildren, p: nat) {
    && SameBefore(b, b', p)
    && (r.err.None? ==> Kept(b', s, RangesAll(r.children)) && (r.endTag.Some? ==> Kept(b', s, [r.endTag.value])))
  }

  lemma NothingWritten(b: string, p: nat)
    requires p <= |b|
    ensures SameBefore(b, b, p)
  {
  }

  lemma FailedChildren(b: string, b': string, s: string, r: ParsedChildren, p: nat)
    requires r.err.Some? && SameBefore(b, b', p)
    ensures ChildrenRead(b, b', s, r, p)
  {
  }

  lemma NodeBefore(b: string, b': string, s: string, r: Parsed, p: nat)
    requires NodeRead(b, b', s, r, p)
    ensures SameBefore(b, b', p)
  {
  }

  lemma SameBeforeTrans(a: string, b: string, c: string, p: nat, q: nat)
    requires SameBefore(a, b, p) && p <= q
    ensures SameBefore(b, c, q) ==> SameBefore(a, c, p)
  {
    if SameBefore(b, c, q) {
      assert b[..p] == b[..q][..p] && c[..p] == c[..q][..p];
    }
  }

  lemma TerminatedBuffer(b: string, s: string, p: nat)
    requires ReadTo(b, s, p)
    ensures Terminated(s) && p < |s| == |b|
  {
  }

  lemma UnreadAt(b: string, s: string, p: nat)
    requires ReadTo(b, s, p)
    ensures p < |s| == |b| && Terminated(s) && b[p] == s[p]
  {
  }

  lemma StillReading(b: string, s: string, p: nat, q: nat)
    requires ReadTo(b, s, p) && p <= q < |s|
    ensures ReadTo(b, s, q)
  {
  }

  lemma TextEnd(s: string, q: nat)
    requires Terminated(s) && q < |s| && At(s, q, "<")
    ensures LineAt(s, q + 1) == LineAt(s, q)
  {
    SameLine(s, q, "<");
  }

  lemma NodeReadFrom(b: string, b': string, s: string, r: Parsed, q: nat, p: nat)
    requires NodeRead(b, b', s, r, q) && p <= q
    ensures NodeRead(b, b', s, r, p)
  {
    hide Kept;
    assert b[..p] == b[..q][..p] && b'[..p] == b'[..q][..p];
  }

  lemma NoNodes(b: string, s: string, p: nat)
    requires |b| == |s| && p < |s|
    ensures SameBefore(b, b, p) && NodesPlaced(s, [], p, p) && Kept(b, s, RangesAll([]))
  {
  }

  lemma NoMoreChildren(b: string, s: string, kids: seq<Node>, lo: nat, q: nat)
    requires Kept(b, s, RangesAll(kids)) && q < |s|
    ensures RoundRead(b, b, s, kids, lo, q, Done(ParsedChildren(None, None, kids, None)))
  {
  }

  lemma NoName(b: string, s: string, n: Node)
    requires |b| == |s| && n.Element? && n.name == Range(0, 0, PLAIN) && n.attributes == [] && n.children == []
    ensures Kept(b, s, Ranges(n))
  {
    assert Ranges(n) == [Range(0, 0, PLAIN)];
  }

  /** The name and the attributes of an element, read from p on. */
  lemma StartTagKept(b0: string, b1: string, s: string, p: nat, n: nat, e: nat, line: nat, o: Options)
    requires ReadTo(b0, s, p) && p <= n < |s| && IsNameStartChar(s[n]) && e == NameEnd(s, n) && SameBefore(b0, b1, e)
    requires Kept(b1, s, AttributeRanges(ParseAttributes(s, e, [], line, o).attributes))
    ensures SameBefore(b0, b1, p)
    ensures forall closing ::
      Kept(b1, s, Ranges(Element(Range(n, e, PLAIN), ParseAttributes(s, e, [], line, o).attributes, closing, [], line)))
  {
    hide ParseAttributes, NameEnd;
    var attributes := ParseAttributes(s, e, [], line, o).attributes;
    NameEndBehind(s, n);
    SameBeforeTrans(b0, b0, b1, p, e);
    assert Kept(b0, s, [Range(n, e, PLAIN)]);
    KeptFrame(b0, b1, s, [Range(n, e, PLAIN)], n, e);
    KeptConcat(b1, s, [Range(n, e, PLAIN)], AttributeRanges(attributes));
    HeadRanges(n, e, attributes, line);
  }

  lemma HeadRanges(n: nat, e: nat, attributes: seq<Attribute>, line: nat)
    ensures forall closing ::
      Ranges(Element(Range(n, e, PLAIN), attributes, closing, [], line))
        == [Range(n, e, PLAIN)] + AttributeRanges(attributes)
  {
    var head := [Range(n, e, PLAIN)] + AttributeRanges(attributes);
    assert head + RangesAll([]) == head;
  }

  lemma HeadInOrder(s: string, p: nat, n: nat, e: nat, line: nat, o: Options)
    requires Terminated(s) && p <= n < |s| && IsNameStartChar(s[n]) && e == NameEnd(s, n)
    requires ParseAttributes(s, e, [], line, o).ret.Some?
    ensures var a := ParseAttributes(s, e, [], line, o); p < a.ret.value && forall closing ::
      InOrder(s, Ranges(Element(Range(n, e, PLAIN), a.attributes, closing, [], line)), p, a.ret.value)
  {
    hide ParseAttributes, NameEnd, InOrder;
    var a := ParseAttributes(s, e, [], line, o);
    StartTagInOrder(s, n, e, line, o);
    HeadRanges(n, e, a.attributes, line);
    Widen(s, [Range(n, e, PLAIN)] + AttributeRanges(a.attributes), n, a.ret.value, p, a.ret.value);
  }

  lemma NameEndBehind(s: string, n: nat)
    requires Terminated(s) && n < |s|
    ensures InOrder(s, [Range(n, NameEnd(s, n), PLAIN)], n, NameEnd(s, n))
  {
    hide NameEnd;
    forall k | n <= k < NameEnd(s, n) ensures s[k] != NUL {
      assert IsNameChar(s[k]);
    }
  }

  /** A whole element: parsing its children has left its start tag alone. */
  lemma ElementRead(b0: string, b1: string, b: string, s: string, p: nat, head: Parsed, c: ParsedChildren)
    requires head.node.Element? && head.node.children == [] && head.ret.Some? && p <= head.ret.value
    requires SameBefore(b0, b1, p) && Kept(b1, s, Ranges(head.node)) && InOrder(s, Ranges(head.node), p, head.ret.value)
    requires ChildrenRead(b1, b, s, c, head.ret.value) && (c.ret.Some? ==> c.err.None?)
    ensures NodeRead(b0, b, s, WithChildren(head, c), p)
  {
    hide Kept, SameBefore, InOrder;
    SameBeforeTrans(b0, b1, b, p, head.ret.value);
    if c.ret.Some? {
      KeptFrame(b1, b, s, Ranges(head.node), p, head.ret.value);
      KeptConcat(b, s, Ranges(head.node), RangesAll(c.children));
      assert Ranges(WithChildren(head, c).node) == Ranges(head.node) + RangesAll(c.children);
    }
  }

  /** The node of an end tag, handed up, behind the children that were read before. */
  lemma EndTagKept(b0: string, b: string, s: string, kids: seq<Node>, r: Parsed, lo: nat, q: nat)
    requires NodesPlaced(s, kids, lo, q) && Kept(b0, s, RangesAll(kids)) && NodeRead(b0, b, s, r, q)
    requires r.node.Element? && r.ret.Some?
    ensures ChildrenRead(b0, b, s, ParsedChildren(r.ret, Some(r.node.name), kids, None), q)
  {
    KeptFrame(b0, b, s, RangesAll(kids), lo, q);
    var rs := Ranges(r.node);
    assert rs[0] == r.node.name;
    KeptFirst(b, s, rs);
  }

  lemma KeptFirst(b: string, s: string, rs: seq<Range>)
    requires Kept(b, s, rs) && rs != []
    ensures Kept(b, s, [rs[0]])
  {
    assert rs == [rs[0]] + rs[1..];
    KeptConcat(b, s, [rs[0]], rs[1..]);
  }

  lemma ChildKept(b0: string, b: string, s: string, kids: seq<Node>, node: Node, lo: nat, q: nat, next: nat,
      depth: nat, o: Options)
    requires Terminated(s) && q < |s| && depth < MAX_ELEMENT_DEPTH && s[SkipWS(s, q)] != NUL
    requires var r := ParseNode(s, q, depth, o); r.ret == Some(next) && r.node == node
    requires NodesPlaced(s, kids, lo, q) && Kept(b0, s, RangesAll(kids)) && SameBefore(b0, b, q)
    requires Kept(b, s, Ranges(node))
    ensures NodesPlaced(s, kids + [node], lo, next) && Kept(b, s, RangesAll(kids + [node]))
  {
    hide ParseNode, InOrder;
    NodeInOrder(s, q, depth, o);
    AddNode(s, kids, node, lo, q, next);
    KeptFrame(b0, b, s, RangesAll(kids), lo, q);
    RangesSnoc(kids, node);
    KeptConcat(b, s, RangesAll(kids), Ranges(node));
  }

  /** Writing the terminator of one of some ranges in order. */
  lemma TerminatorKept(b: string, s: string, rs: seq<Range>, i: nat, lo: nat, hi: nat)
    requires i < |rs| && InOrder(s, rs, lo, hi) && Kept(b, s, rs) && |b| == |s| && lo <= hi
    ensures rs[i].end < |b| && Kept(b[rs[i].end := NUL], s, rs) && SameBefore(b, b[rs[i].end := NUL], lo)
    ensures rs[i].end < hi && ReadTo(b, s, hi) ==> ReadTo(b[rs[i].end := NUL], s, hi)
  {
    assert IsRange(s, rs[i]);
    forall j | 0 <= j < |rs| ensures rs[i].end < rs[j].start || rs[j].end <= rs[i].end {
      assert IsRange(s, rs[j]);
    }
    KeptWrite(b, s, rs, rs[i].end);
  }

  lemma NamesTerminated(b: string, s: string, node: Node, endTag: Range, q: nat, next: nat)
    requires node.Element? && q <= next && endTag.end < next && InOrder(s, Ranges(node) + [endTag], q, next)
    requires ReadTo(b, s, next) && Kept(b, s, Ranges(node)) && Kept(b, s, [endTag])
    ensures endTag.end < |b| && node.name.end < |b|
    ensures var b' := b[endTag.end := NUL][node.name.end := NUL];
      && ReadTo(b', s, next) && SameBefore(b, b', q) && Kept(b', s, Ranges(node))
      && Holds(b', endTag.start, Raw(s, endTag)) && Holds(b', node.name.start, Raw(s, node.name))
  {
    hide ReadTo, Kept, SameBefore, InOrder, Holds, IsRange;
    var rs, all := Ranges(node), Ranges(node) + [endTag];
    TerminatedBuffer(b, s, next);
    assert rs[0] == node.name && all[0] == node.name && all[|rs|] == endTag;
    EndsBefore(s, all, q, next);
    KeptConcat(b, s, rs, [endTag]);
    TerminatorKept(b, s, all, |rs|, q, next);
    var b1 := b[endTag.end := NUL];
    TerminatorKept(b1, s, all, 0, q, next);
    var b2 := b1[node.name.end := NUL];
    SameBeforeTrans(b, b1, b2, q, q);
    KeptConcat(b2, s, rs, [endTag]);
    KeptFirst(b2, s, rs);
    NameHeld(b2, s, node.name);
    NameHeld(b2, s, endTag);
  }

  lemma EndsBefore(s: string, all: seq<Range>, lo: nat, hi: nat)
    requires InOrder(s, all, lo, hi) && all != [] && all[|all| - 1].end < hi
    ensures forall i | 0 <= i < |all| :: IsRange(s, all[i]) && all[i].end < hi
  {
    forall i | 0 <= i < |all| ensures IsRange(s, all[i]) && all[i].end < hi {
      LastIsHighest(s, all, lo, hi, i);
    }
  }

  /** The end tag read on behalf of a node comes behind all the node's ranges. */
  lemma EndTagBehind(s: string, p: nat, depth: nat, o: Options)
    requires Terminated(s) && p < |s| && depth < MAX_ELEMENT_DEPTH && s[SkipWS(s, p)] != NUL
    ensures var r := ParseNode(s, p, depth, o);
      r.ret.Some? && r.endTag.Some? ==>
        (r.node.Element? && r.endTag.value.end < r.ret.value &&
         InOrder(s, Ranges(r.node) + [r.endTag.value], p, r.ret.value))
  {
    hide ParseElement, ParseLeaf, InOrder;
    var w := SkipWS(s, p);
    KindHeader(s, w);
    var r := ParseNode(s, p, depth, o);
    if r.ret.Some? && r.endTag.Some? {
      ElementEndTag(s, w + 1, depth, LineAt(s, w), o);
      Widen(s, Ranges(r.node) + [r.endTag.value], w + 1, r.ret.value, p, r.ret.value);
    }
  }

  lemma ElementEndTag(s: string, p: nat, depth: nat, line: nat, o: Options)
    requires Terminated(s) && p < |s| && depth < MAX_ELEMENT_DEPTH
    ensures var r := ParseElement(s, p, depth, line, o);
      r.ret.Some? && r.endTag.Some? ==>
        r.endTag.value.end < r.ret.value && InOrder(s, Ranges(r.node) + [r.endTag.value], p, r.ret.value)
  {
    hide ParseAttributes, ParseChildren, InOrder, SkipWS, NameEnd;
    var w := SkipWS(s, p);
    var n := if s[w] == '/' then w + 1 else w;
    var r := ParseElement(s, p, depth, line, o);
    if r.ret.Some? && r.endTag.Some? {
      var e := NameEnd(s, n);
      var c := ParseAttributes(s, e, [], line, o).ret.value;
      StartTagInOrder(s, n, e, line, o);
      assert ParseDeep(s, c, depth, false, o) == ParsedChildren(r.ret, r.endTag, r.node.children, r.err);
      NoNodesPlaced(s, c);
      ChildrenInOrder(s, c, depth + 1, false, [], o, c);
      var head := [Range(n, e, PLAIN)] + AttributeRanges(r.node.attributes);
      var tail := RangesAll(r.node.children) + [r.endTag.value];
      Widen(s, head, n, c, p, c);
      FirstBehind(s, tail, c, r.ret.value);
      Concat(s, head, tail, p, c, r.ret.value);
      assert Ranges(r.node) + [r.endTag.value] == head + tail;
    }
  }

  lemma NoNodesPlaced(s: string, c: nat)
    requires c < |s|
    ensures NodesPlaced(s, [], c, c)
  {
  }

  lemma FirstBehind(s: string, rs: seq<Range>, lo: nat, hi: nat)
    requires InOrder(s, rs, lo, hi) && rs != []
    ensures lo <= rs[0].start
  {
  }

  lemma NoneRead(b: string, s: string, p: nat)
    requires |b| == |s| && p < |s|
    ensures AttributesRead(b, s, [], p, p)
  {
  }

  lemma AttributeLine(s: string, q: nat, o: Options)
    requires Terminated(s) && q < |s| && IsNameStartChar(s[q])
    ensures var r := ParseAttribute(s, q, o); r.Some? ==> r.value.0.line == LineAt(s, q)
  {
  }

  // ---- the names of attributes ---------------------------------------------------------

  /** The names of the attributes have been read: each stands in the buffer as a C string. */
  ghost predicate NamesHeld(b: string, s: string, attributes: seq<Attribute>) {
    forall a | a in attributes :: Holds(b, a.name.start, Raw(s, a.name))
  }

  /** What ParseAttributes keeps true of the attributes read up to p, from lo on. */
  ghost predicate AttributesRead(b: string, s: string, attributes: seq<Attribute>, lo: nat, p: nat) {
    AttributesPlaced(s, attributes, lo, p) && NamesHeld(b, s, attributes) && Kept(b, s, AttributeRanges(attributes))
  }

  lemma AttributesKept(b: string, s: string, attributes: seq<Attribute>, lo: nat, p: nat)
    requires AttributesRead(b, s, attributes, lo, p)
    ensures Kept(b, s, AttributeRanges(attributes))
  {
  }

  lemma FewerKept(b: string, s: string, attributes: seq<Attribute>, a: Attribute, lo: nat, p: nat)
    requires AttributesRead(b, s, attributes + [a], lo, p)
    ensures Kept(b, s, AttributeRanges(attributes))
  {
    hide Kept;
    AttributeRangesSnoc(attributes, a);
    KeptConcat(b, s, AttributeRanges(attributes), [a.name, a.value]);
  }

  /** Writing the terminator of a new attribute's name disturbs nothing. */
  lemma NameTerminated(b: string, s: string, attributes: seq<Attribute>, a: Attribute, lo: nat, from: nat, q: nat,
      next: nat, o: Options)
    requires lo <= from <= q < next < |s| && ReadTo(b, s, q) && IsNameStartChar(s[q])
    requires AttributesRead(b, s, attributes, lo, from) && ParseAttribute(s, q, o) == Some((a, next))
    ensures a.name.end < |b|
    ensures var b' := b[a.name.end := NUL];
      && ReadTo(b', s, next) && SameBefore(b, b', lo) && AttributesRead(b', s, attributes + [a], lo, next)
      && NamesHeld(b', s, attributes) && Holds(b', a.name.start, Raw(s, a.name))
  {
    hide ReadTo, Kept, NamesHeld, Holds, SameBefore, AttributesPlaced, InOrder, IsRange, Raw;
    NewAttribute(s, b, q, a, next, o);
    AttributePlaced(s, attributes, lo, from, q, o);
    NewNameApart(s, attributes, a, lo, from, q, next);
    TerminatorWritten(b, s, a.name, lo, next, q, o);
    NamesStillHeld(b, s, attributes, q, a.name.end);
    NewNameKept(b, s, attributes, a);
    NamesHeldSnoc(b[a.name.end := NUL], s, attributes, a);
  }

  lemma NewAttribute(s: string, b: string, q: nat, a: Attribute, next: nat, o: Options)
    requires ReadTo(b, s, q) && q < next < |s| && IsNameStartChar(s[q]) && ParseAttribute(s, q, o) == Some((a, next))
    ensures Terminated(s) && |b| == |s| && a.name == Range(q, NameEnd(s, q), PLAIN) && a.name.end < next
    ensures InOrder(s, [a.name, a.value], q, next - 1) && Kept(b, s, [a.name, a.value])
  {
    hide IsRange;
    AttributeInOrder(s, q, o);
  }

  lemma TerminatorWritten(b: string, s: string, r: Range, lo: nat, next: nat, q: nat, o: Options)
    requires lo <= q < next < |s| && ReadTo(b, s, q) && IsNameStartChar(s[q]) && r == Range(q, NameEnd(s, q), PLAIN)
    requires r.end < next
    ensures ReadTo(b[r.end := NUL], s, next) && SameBefore(b, b[r.end := NUL], lo)
  {
  }

  lemma NamesStillHeld(b: string, s: string, attributes: seq<Attribute>, q: nat, k: nat)
    requires NamesHeld(b, s, attributes) && q <= k < |b|
    requires forall x | x in attributes :: x.name.start + |Raw(s, x.name)| < q
    ensures NamesHeld(b[k := NUL], s, attributes)
  {
    hide Holds;
    forall x | x in attributes ensures Holds(b[k := NUL], x.name.start, Raw(s, x.name)) {
      StillHeld(b, x.name.start, Raw(s, x.name), k);
    }
  }

  lemma NewNameKept(b: string, s: string, attributes: seq<Attribute>, a: Attribute)
    requires |b| == |s| && Kept(b, s, AttributeRanges(attributes)) && Kept(b, s, [a.name, a.value])
    requires IsRange(s, a.name)
    requires var rs := AttributeRanges(attributes) + [a.name, a.value];
      forall i | 0 <= i < |rs| :: a.name.end < rs[i].start || rs[i].end <= a.name.end
    ensures a.name.end < |b|
    ensures var b' := b[a.name.end := NUL];
      Kept(b', s, AttributeRanges(attributes + [a])) && Holds(b', a.name.start, Raw(s, a.name))
  {
    hide Kept, Holds;
    var rs, pair := AttributeRanges(attributes), [a.name, a.value];
    var b' := b[a.name.end := NUL];
    KeptConcat(b, s, rs, pair);
    KeptWrite(b, s, rs + pair, a.name.end);
    AttributeRangesSnoc(attributes, a);
    KeptConcat(b', s, rs, pair);
    assert pair == [a.name] + [a.value];
    KeptConcat(b', s, [a.name], [a.value]);
    NameHeld(b', s, a.name);
  }

  lemma NamesHeldSnoc(b: string, s: string, attributes: seq<Attribute>, a: Attribute)
    requires NamesHeld(b, s, attributes) && Holds(b, a.name.start, Raw(s, a.name))
    ensures NamesHeld(b, s, attributes + [a])
  {
    hide Holds;
  }

  /** A new attribute comes after the ones before it, its value after its name. */
  lemma NewNameApart(s: string, attributes: seq<Attribute>, a: Attribute, lo: nat, from: nat, q: nat, next: nat)
    requires lo <= from <= q < next < |s| && AttributesPlaced(s, attributes, lo, from)
    requires InOrder(s, [a.name, a.value], q, next - 1)
    ensures IsRange(s, a.name) && IsRange(s, a.value) && q <= a.name.start <= a.name.end < a.value.start
    ensures a.value.end < next
    ensures var rs := AttributeRanges(attributes) + [a.name, a.value];
      forall i | 0 <= i < |rs| :: a.name.end < rs[i].start || rs[i].end <= a.name.end
    ensures forall x | x in attributes :: x.name.start + |Raw(s, x.name)| < q
  {
    hide NameEnd;
    var pair := [a.name, a.value];
    assert pair[0] == a.name && pair[1] == a.value;
    assert IsRange(s, pair[0]) && IsRange(s, pair[1]);
    var rs := AttributeRanges(attributes);
    forall i | 0 <= i < |rs| ensures rs[i].end < q { LastIsHighest(s, rs, lo, from, i); }
    forall x | x in attributes ensures x.name.start + |Raw(s, x.name)| < q {
      NameAmongRanges(attributes, x);
      assert exists i | 0 <= i < |rs| :: rs[i] == x.name && IsRange(s, rs[i]);
    }
  }

  lemma {:induction false} NameAmongRanges(attributes: seq<Attribute>, x: Attribute)
    requires x in attributes
    ensures x.name in AttributeRanges(attributes)
  {
    if x != attributes[0] {
      NameAmongRanges(attributes[1..], x);
    }
  }
}
