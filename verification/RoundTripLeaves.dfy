/** The parser on what the printer writes for one token: a leaf node, an attribute, an end tag. */
module RoundTripLeaves {
  import opened XmlUtil
  import opened Decode
  import opened PrinterSpec
  import opened Escaping
  import opened Scanning
  import opened TreeMeaning
  import P = ParserSpec
  import X = XmlTree

  const OPTIONS := P.Options(true, false)

  /** Comment, declaration, unknown and CDATA bodies, which are printed as they are. */
  lemma LeafParses(s: string, p: nat, v: string, k: P.Kind, line: nat)
    requires Terminated(s) && !k.KElement? && !k.KText? && NUL !in v
    requires At(s, p, v) && At(s, p + |v|, P.EndTag(k)) && X.FreeOf(v, P.EndTag(k))
    ensures p < |s|
    ensures P.ParseLeaf(s, p, k, line, OPTIONS)
         == P.Parsed(Some(p + |v| + |P.EndTag(k)|), P.LeafNode(k, P.Range(p, p + |v|, NEWLINES), line), None, None)
    ensures Str(s, P.Range(p, p + |v|, NEWLINES)) == X.Unix(v)
  {
    hide Str, Meaning, FindTag, X.Unix, X.FreeOf, At, P.EndTag;
    EndsOnce(k);
    AtBeforeNul(s, p + |v|, P.EndTag(k));
    TagFound(s, p, v, P.EndTag(k));
    RawAt(s, p, v, NEWLINES);
    BodyMeaning(v);
  }

  /** The last character of an end tag is nowhere else in it. */
  lemma EndsOnce(k: P.Kind)
    requires !k.KElement?
    ensures var tag := P.EndTag(k);
      tag != [] && NUL !in tag && forall j | 0 <= j < |tag| - 1 :: tag[j] != tag[|tag| - 1]
  {
  }

  /** Escaped text is free of NUL and of what would end it. */
  lemma EscapedFree(v: string, restricted: bool, c: char)
    requires NUL !in v && !Harmless(c, restricted)
    ensures NUL !in Escape(v, restricted) && X.FreeOf(Escape(v, restricted), [c])
  {
    hide Escape;
    var w := Escape(v, restricted);
    if NUL in w { EscapeHides(v, restricted, NUL); }
    forall i | 0 <= i < |w| ensures !At(w, i, [c]) {
      EscapeHides(v, restricted, w[i]);
      HeadDiffers(w, i, c);
    }
  }

  lemma HeadDiffers(w: string, i: nat, c: char)
    requires i < |w| && w[i] != c
    ensures !At(w, i, [c])
  {
    assert w[i + 0] != [c][0];
  }

  /** A text node: what follows it starts with '<' and is not the end of the buffer. */
  lemma TextParses(s: string, p: nat, v: string, line: nat)
    requires Terminated(s) && NUL !in v && At(s, p, Escape(v, true))
    requires var e := p + |Escape(v, true)|; e + 1 < |s| && s[e] == '<' && s[e + 1] != NUL
    ensures var e := p + |Escape(v, true)|; var r := P.Range(p, e, Flags(true, true, false));
      && P.ParseLeaf(s, p, P.KText, line, OPTIONS) == P.Parsed(Some(e), P.Text(r, false, line), None, None)
      && Str(s, r) == X.Unix(v)
  {
    hide Str, Meaning, FindTag, Escape, X.FreeOf, X.Unix;
    var w := Escape(v, true);
    EscapedFree(v, true, '<');
    AtSlice(s, p + |w|, ['<']);
    TagFound(s, p, w, ['<']);
    RawAt(s, p, w, Flags(true, true, false));
    EscapeReread(v, true, false);
  }

  // ---- names ------------------------------------------------------------------

  lemma NameParses(s: string, p: nat, name: string)
    requires Terminated(s) && IsName(name) && At(s, p, name)
    requires p + |name| < |s| && !IsNameChar(s[p + |name|])
    ensures IsNameStartChar(s[p]) && NameEnd(s, p) == p + |name|
    ensures P.Raw(s, P.Range(p, p + |name|, PLAIN)) == name && Str(s, P.Range(p, p + |name|, PLAIN)) == name
    ensures !IsWhiteSpace(s[p])
  {
    hide Meaning, Str, P.Raw, NameEnd, X.Unix, At;
    AtIndex(s, p, name, 0);
    forall k | p <= k < p + |name| ensures IsNameChar(s[k]) {
      AtIndex(s, p, name, k - p);
      assert name[k - p] in name;
    }
    NameEndUnique(s, p, p + |name|);
    RawAt(s, p, name, PLAIN);
    BodyMeaning(name);
  }

  /** A position whose character is not blank is where SkipWhiteSpace stops. */
  lemma NoSkip(s: string, p: nat)
    requires Terminated(s) && p < |s| && !IsWhiteSpace(s[p])
    ensures SkipWS(s, p) == p
  {
  }

  lemma SkipOne(s: string, p: nat)
    requires Terminated(s) && p + 1 < |s| && IsWhiteSpace(s[p]) && !IsWhiteSpace(s[p + 1])
    ensures SkipWS(s, p) == p + 1
  {
    SkipWSUnique(s, p, p + 1);
  }

  // ---- attributes ---------------------------------------------------------------

  /** The six pieces of a printed attribute and where they stand. */
  lemma AttributeShape(s: string, p: nat, a: X.Attr, m: Mode) returns (n: nat, e: nat, v: nat, q: nat)
    requires m.entities && At(s, p, PrintAttribute(a, m))
    ensures n == p + 1 && e == n + |a.name| && v == e + 2 && q == v + |Escape(a.value, false)|
    ensures q + 1 == p + |PrintAttribute(a, m)| <= |s|
    ensures s[p] == ' ' && At(s, n, a.name) && s[e] == '=' && s[e + 1] == '"' && At(s, v, Escape(a.value, false))
    ensures s[q] == '"'
  {
    var w := Escape(a.value, false);
    n, e, v, q := p + 1, p + 1 + |a.name|, p + 3 + |a.name|, p + 3 + |a.name| + |w|;
    AtSplit(s, p, " " + a.name + "=\"" + w, "\"");
    AtSplit(s, p, " " + a.name + "=\"", w);
    AtSplit3(s, p, " ", a.name, "=\"");
    AtIndex(s, p, " ", 0);
    AtIndex(s, e, "=\"", 0);
    AtIndex(s, e, "=\"", 1);
    AtIndex(s, q, "\"", 0);
  }

  /** XMLAttribute::ParseDeep on a printed attribute gives back name and value. */
  lemma AttributeParses(s: string, p: nat, a: X.Attr, m: Mode) returns (r: P.Attribute)
    requires Terminated(s) && m.entities && At(s, p, PrintAttribute(a, m)) && IsName(a.name) && NUL !in a.value
    ensures p + |PrintAttribute(a, m)| < |s| && SkipWS(s, p) == p + 1 && IsNameStartChar(s[p + 1])
    ensures P.ParseAttribute(s, p + 1, OPTIONS) == Some((r, p + |PrintAttribute(a, m)|))
    ensures Str(s, r.name) == P.Raw(s, r.name) == a.name && Str(s, r.value) == X.Unix(a.value)
  {
    hide Str, Meaning, FindTag, Escape, PrintAttribute, NameEnd, SkipWS, At, X.Unix, IsName, P.Raw;
    var n, e, v, q := AttributeShape(s, p, a, m);
    NameParses(s, n, a.name);
    SkipOne(s, p);
    NoSkip(s, e);
    NoSkip(s, e + 1);
    AttributeValueFound(s, v, a.value);
    r := P.Attribute(P.Range(n, e, PLAIN), P.Range(v, q, Flags(true, true, false)), LineAt(s, n));
  }

  lemma AttributeValueFound(s: string, v: nat, value: string)
    requires Terminated(s) && NUL !in value && At(s, v, Escape(value, false))
    requires var q := v + |Escape(value, false)|; q < |s| && s[q] == '"'
    ensures var q := v + |Escape(value, false)|;
      q + 1 < |s| && FindTag(s, v, ['"']) == Some(q) && Str(s, P.Range(v, q, Flags(true, true, false))) == X.Unix(value)
  {
    hide Str, Meaning, FindTag, Escape, X.FreeOf, X.Unix;
    var w := Escape(value, false);
    EscapedFree(value, false, '"');
    AtSlice(s, v + |w|, ['"']);
    TagFound(s, v, w, ['"']);
    RawAt(s, v, w, Flags(true, true, false));
    EscapeReread(value, false, false);
  }

  /** None of the attributes read so far has one of the names still to come. */
  ghost predicate NewNames(s: string, soFar: seq<P.Attribute>, attributes: seq<X.Attr>) {
    forall a, b | a in soFar && b in attributes :: P.Raw(s, a.name) != b.name
  }

  lemma AttributeStep(s: string, p: nat, a: X.Attr, soFar: seq<P.Attribute>, line: nat, m: Mode)
    returns (r: P.Attribute)
    requires Terminated(s) && m.entities && At(s, p, PrintAttribute(a, m)) && IsName(a.name) && NUL !in a.value
    requires forall x | x in soFar :: P.Raw(s, x.name) != a.name
    ensures p + |PrintAttribute(a, m)| < |s|
    ensures P.ParseAttributes(s, p, soFar, line, OPTIONS)
         == P.ParseAttributes(s, p + |PrintAttribute(a, m)|, soFar + [r], line, OPTIONS)
    ensures Str(s, r.name) == P.Raw(s, r.name) == a.name && Str(s, r.value) == X.Unix(a.value)
  {
    hide Str, Meaning, At, PrintAttribute, P.ParseAttribute, SkipWS;
    r := AttributeParses(s, p, a, m);
    assert !P.HasName(s, soFar, P.Raw(s, r.name));
  }

  /** ParseAttributes runs through the printed attributes and arrives behind them, with `all` the
      attributes before and these. */
  lemma {:induction false} AttributesParse(s: string, p: nat, e: nat, attributes: seq<X.Attr>, soFar: seq<P.Attribute>,
      line: nat, m: Mode)
    returns (all: seq<P.Attribute>)
    requires Terminated(s) && m.entities && At(s, p, PrintAttributes(attributes, m))
    requires e == p + |PrintAttributes(attributes, m)| < |s|
    requires X.DistinctNames(attributes) && forall a | a in attributes :: IsName(a.name) && NUL !in a.value
    requires NewNames(s, soFar, attributes)
    ensures P.ParseAttributes(s, p, soFar, line, OPTIONS) == P.ParseAttributes(s, e, all, line, OPTIONS)
    ensures soFar <= all && AttrsOf(s, all[|soFar|..]) == X.RereadAttrs(attributes)
    decreases |attributes|
  {
    hide Str, Meaning, At, PrintAttribute, P.ParseAttributes, IsName, X.DistinctNames, X.Unix;
    if attributes == [] {
      all := soFar;
    } else {
      var a, rest := attributes[0], attributes[1..];
      assert a in attributes && forall x | x in rest :: x in attributes;
      AtSplit(s, p, PrintAttribute(a, m), PrintAttributes(rest, m));
      var r := AttributeStep(s, p, a, soFar, line, m);
      NamesStillNew(s, soFar, r, a, rest, attributes);
      all := AttributesParse(s, p + |PrintAttribute(a, m)|, e, rest, soFar + [r], line, m);
      AttrsOfCons(s, soFar, r, all, X.Attr(a.name, X.Unix(a.value)), X.RereadAttrs(rest));
    }
  }

  lemma NamesStillNew(s: string, soFar: seq<P.Attribute>, r: P.Attribute, a: X.Attr, rest: seq<X.Attr>,
      attributes: seq<X.Attr>)
    requires attributes != [] && a == attributes[0] && rest == attributes[1..]
    requires P.Raw(s, r.name) == a.name && X.DistinctNames(attributes) && NewNames(s, soFar, attributes)
    ensures NewNames(s, soFar + [r], rest) && X.DistinctNames(rest)
  {
    forall x, b | x in soFar + [r] && b in rest ensures P.Raw(s, x.name) != b.name {
      assert b in attributes;
      if x !in soFar {
        var j :| 0 <= j < |rest| && rest[j] == b;
        assert attributes[0].name != attributes[j + 1].name;
      }
    }
  }

  lemma AttrsOfCons(s: string, soFar: seq<P.Attribute>, r: P.Attribute, all: seq<P.Attribute>, a: X.Attr,
      rest: seq<X.Attr>)
    requires soFar + [r] <= all && AttrsOf(s, all[|soFar + [r]|..]) == rest
    requires a == X.Attr(Str(s, r.name), Str(s, r.value))
    ensures soFar <= all && AttrsOf(s, all[|soFar|..]) == [a] + rest
  {
    var tail := all[|soFar|..];
    assert tail[0] == (soFar + [r])[|soFar|] == r && tail[1..] == all[|soFar + [r]|..];
  }
}
