/** What the parser's scans find: the content of a token, and the kind of a node by its first
    characters. */
module Scanning {
  import opened XmlUtil
  import opened Decode
  import opened TreeMeaning
  import P = ParserSpec
  import X = XmlTree

  /** A token's content is found by its end tag when the tag does not occur in the content and its
      last character occurs only at its end. */
  lemma TagFound(s: string, p: nat, v: string, tag: string)
    requires Terminated(s) && tag != [] && NUL !in v && NUL !in tag
    requires At(s, p, v) && At(s, p + |v|, tag)
    requires X.FreeOf(v, tag) && forall j | 0 <= j < |tag| - 1 :: tag[j] != tag[|tag| - 1]
    ensures p < |s| && FindTag(s, p, tag) == Some(p + |v|)
  {
    AtBeforeNul(s, p + |v|, tag);
    forall k | p <= k < p + |v| ensures s[k] != NUL && !At(s, k, tag) {
      AtIndex(s, p, v, k - p);
      assert v[k - p] in v;
      NoEarlyTag(s, p, v, tag, k - p);
    }
    FindTagUnique(s, p, p + |v|, tag);
  }

  lemma NoEarlyTag(s: string, p: nat, v: string, tag: string, i: nat)
    requires tag != [] && i < |v| && At(s, p, v) && At(s, p + |v|, tag)
    requires !At(v, i, tag) && forall j | 0 <= j < |tag| - 1 :: tag[j] != tag[|tag| - 1]
    ensures !At(s, p + i, tag)
  {
    var t := |tag|;
    if i + t <= |v| {
      var j :| 0 <= j < t && v[i + j] != tag[j];
      AtIndex(s, p, v, i + j);
    } else if At(s, p + i, tag) {
      AtIndex(s, p + i, tag, t - 1);
      AtIndex(s, p + |v|, tag, i + t - 1 - |v|);
    }
  }

  lemma RawAt(s: string, p: nat, v: string, f: Flags)
    requires At(s, p, v)
    ensures P.Raw(s, P.Range(p, p + |v|, f)) == v
    ensures Str(s, P.Range(p, p + |v|, f)) == Meaning(v, f)
  {
    AtSlice(s, p, v);
  }

  lemma AtWithin(s: string, p: nat, w: string)
    requires Terminated(s) && At(s, p, w) && w != [] && NUL !in w
    ensures p + |w| < |s|
  {
    AtBeforeNul(s, p, w);
  }

  lemma KindIsElement(s: string, w: nat)
    requires w + 1 < |s| && s[w] == '<' && s[w + 1] != '?' && s[w + 1] != '!'
    ensures P.KindAt(s, w) == P.KElement
  {
    hide At;
    if At(s, w, "<?") { AtIndex(s, w, "<?", 1); }
    if At(s, w, "<!--") { AtIndex(s, w, "<!--", 1); }
    if At(s, w, "<![CDATA[") { AtIndex(s, w, "<![CDATA[", 1); }
    if At(s, w, "<!") { AtIndex(s, w, "<!", 1); }
    assert At(s, w, "<") by { AtSlice(s, w, "<"); }
  }

  lemma KindIsText(s: string, w: nat)
    requires w < |s| && s[w] != '<'
    ensures P.KindAt(s, w) == P.KText
  {
    hide At;
    if At(s, w, "<?") { AtIndex(s, w, "<?", 0); }
    if At(s, w, "<!--") { AtIndex(s, w, "<!--", 0); }
    if At(s, w, "<![CDATA[") { AtIndex(s, w, "<![CDATA[", 0); }
    if At(s, w, "<!") { AtIndex(s, w, "<!", 0); }
    if At(s, w, "<") { AtIndex(s, w, "<", 0); }
  }

  /** The '>' behind a body cannot complete it to a longer header: the header is in the body. */
  lemma PrefixOfBody(s: string, w: nat, v: string, tail: string)
    requires At(s, w + 2, v) && At(s, w + 2 + |v|, ">") && '>' !in tail && tail != []
    requires At(s, w, "<!" + tail)
    ensures tail <= v
  {
    AtSplit(s, w, "<!", tail);
    StaysInBody(s, w + 2, v, tail);
    forall i | 0 <= i < |tail| ensures tail[i] == v[i] {
      AtIndex(s, w + 2, tail, i);
      AtIndex(s, w + 2, v, i);
    }
    assert tail == v[..|tail|];
  }

  lemma StaysInBody(s: string, p: nat, v: string, tail: string)
    requires At(s, p, v) && At(s, p + |v|, ">") && At(s, p, tail) && '>' !in tail && tail != []
    ensures |tail| <= |v|
  {
    hide At;
    var k := if |v| < |tail| then |v| else 0;
    NotAmong(tail, '>', k);
    AtIndex(s, p + |v|, ">", 0);
    AtIndex(s, p, tail, k);
  }

  lemma NotAmong(w: string, c: char, k: nat)
    requires k < |w| && c !in w
    ensures w[k] != c
  {
  }
}
