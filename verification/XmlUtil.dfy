/** The character classes and the forward scans that the XML parser is made of, over a
    NUL-terminated buffer. A buffer is a `string` whose last character is NUL; a position is an
    index into it. A `char` stands for one byte. */
module XmlUtil {

  datatype Option<+T> = None | Some(value: T)

  const NUL := '\0'
  const LF := '\n'
  const CR := '\r'

  /** The byte order mark of UTF-8. */
  const BOM := "\U{EF}\U{BB}\U{BF}"

  /** isspace() restricted to the 7-bit range: space, tab, LF, VT, FF and CR. */
  predicate IsWhiteSpace(c: char) {
    c == ' ' || '\t' <= c <= '\r'
  }

  predicate IsBlank(w: string) {
    forall c | c in w :: IsWhiteSpace(c)
  }

  predicate IsNameStartChar(c: char) {
    c as int >= 128 || 'a' <= c <= 'z' || 'A' <= c <= 'Z' || c == ':' || c == '_'
  }

  predicate IsNameChar(c: char) {
    IsNameStartChar(c) || '0' <= c <= '9' || c == '.' || c == '-'
  }

  predicate IsName(w: string) {
    w != [] && IsNameStartChar(w[0]) && forall c | c in w :: IsNameChar(c)
  }

  /** A buffer always ends in NUL, so a scan that stops at NUL never leaves it. */
  ghost predicate Terminated(s: string) {
    s != [] && s[|s| - 1] == NUL
  }

  /** What strncmp(s + p, w, strlen(w)) == 0 decides. */
  predicate At(s: string, p: nat, w: string) {
    p + |w| <= |s| && forall i | 0 <= i < |w| :: s[p + i] == w[i]
  }

  lemma AtSlice(s: string, p: nat, w: string)
    ensures At(s, p, w) <==> p + |w| <= |s| && s[p..p + |w|] == w
  {
    if p + |w| <= |s| && s[p..p + |w|] == w {
      forall i | 0 <= i < |w| ensures s[p + i] == w[i] {
        assert s[p..p + |w|][i] == s[p + i];
      }
    }
  }

  lemma AtSplit(s: string, p: nat, u: string, v: string)
    ensures At(s, p, u + v) <==> At(s, p, u) && At(s, p + |u|, v)
  {
    var w := u + v;
    if At(s, p, w) {
      forall i | 0 <= i < |u| ensures s[p + i] == u[i] { assert w[i] == u[i]; }
      forall i | 0 <= i < |v| ensures s[p + |u| + i] == v[i] { assert w[|u| + i] == v[i]; }
    }
    if At(s, p, u) && At(s, p + |u|, v) {
      forall i | 0 <= i < |w| ensures s[p + i] == w[i] {
        if i >= |u| { assert w[i] == v[i - |u|]; }
      }
    }
  }

  /** Three pieces in a row. */
  lemma AtSplit3(s: string, p: nat, u: string, v: string, w: string)
    ensures At(s, p, u + v + w) <==> At(s, p, u) && At(s, p + |u|, v) && At(s, p + |u| + |v|, w)
  {
    AtSplit(s, p, u + v, w);
    AtSplit(s, p, u, v);
  }

  lemma AtIndex(s: string, p: nat, w: string, i: nat)
    requires At(s, p, w) && i < |w|
    ensures p + i < |s| && s[p + i] == w[i]
  {
  }

  // ---- scans -------------------------------------------------------------

  /** Where SkipWhiteSpace stops. */
  function SkipWS(s: string, p: nat): (q: nat)
    requires Terminated(s) && p < |s|
    ensures p <= q < |s| && !IsWhiteSpace(s[q])
    ensures forall k | p <= k < q :: IsWhiteSpace(s[k])
    decreases |s| - p
  {
    if IsWhiteSpace(s[p]) then SkipWS(s, p + 1) else p
  }

  /** A scan is fixed by where it must stop. */
  lemma {:induction false} SkipWSUnique(s: string, p: nat, q: nat)
    requires Terminated(s) && p <= q < |s|
    requires forall k | p <= k < q :: IsWhiteSpace(s[k])
    requires !IsWhiteSpace(s[q])
    ensures SkipWS(s, p) == q
    decreases q - p
  {
    if p < q {
      SkipWSUnique(s, p + 1, q);
    }
  }

  /** The first position at or after p where the end tag stands, if it comes before a NUL. */
  function FindTag(s: string, p: nat, tag: string): (r: Option<nat>)
    requires Terminated(s) && p < |s| && tag != [] && NUL !in tag
    ensures r.Some? ==> p <= r.value && r.value + |tag| < |s| && At(s, r.value, tag)
    decreases |s| - p
  {
    if s[p] == NUL then None
    else if At(s, p, tag) then
      AtBeforeNul(s, p, tag);
      Some(p)
    else FindTag(s, p + 1, tag)
  }

  /** A NUL-free word found in a terminated buffer ends before the terminator. */
  lemma AtBeforeNul(s: string, p: nat, w: string)
    requires Terminated(s) && w != [] && NUL !in w && At(s, p, w)
    ensures p + |w| < |s| && s[p] != NUL
  {
    AtIndex(s, p, w, |w| - 1);
    AtIndex(s, p, w, 0);
  }

  /** Neither the tag nor a NUL stands at any position from p up to q. */
  ghost predicate NoTag(s: string, p: nat, q: nat, tag: string)
    requires q <= |s|
  {
    forall k | p <= k < q :: s[k] != NUL && !At(s, k, tag)
  }

  lemma {:induction false} FindTagFirst(s: string, p: nat, tag: string)
    requires Terminated(s) && p < |s| && tag != [] && NUL !in tag
    requires FindTag(s, p, tag).Some?
    ensures NoTag(s, p, FindTag(s, p, tag).value, tag)
    decreases |s| - p
  {
    if !At(s, p, tag) {
      FindTagFirst(s, p + 1, tag);
    }
  }

  lemma {:induction false} FindTagUnique(s: string, p: nat, q: nat, tag: string)
    requires Terminated(s) && p <= q < |s| && tag != [] && NUL !in tag
    requires At(s, q, tag) && NoTag(s, p, q, tag)
    ensures FindTag(s, p, tag) == Some(q)
    decreases q - p
  {
    if p < q {
      FindTagUnique(s, p + 1, q, tag);
    } else {
      AtBeforeNul(s, q, tag);
    }
  }

  /** Where the name characters starting at p end. */
  function NameEnd(s: string, p: nat): (q: nat)
    requires Terminated(s) && p < |s|
    ensures p <= q < |s| && !IsNameChar(s[q])
    ensures forall k | p <= k < q :: IsNameChar(s[k])
    decreases |s| - p
  {
    if IsNameChar(s[p]) then NameEnd(s, p + 1) else p
  }

  lemma {:induction false} NameEndUnique(s: string, p: nat, q: nat)
    requires Terminated(s) && p <= q < |s|
    requires forall k | p <= k < q :: IsNameChar(s[k])
    requires !IsNameChar(s[q])
    ensures NameEnd(s, p) == q
    decreases q - p
  {
    if p < q {
      NameEndUnique(s, p + 1, q);
    }
  }

  // ---- lines -------------------------------------------------------------

  /** How many of the first p characters are line feeds. */
  function CountLF(s: string, p: nat): nat
    requires p <= |s|
  {
    if p == 0 then 0 else CountLF(s, p - 1) + if s[p - 1] == LF then 1 else 0
  }

  /** The line that position p is on. */
  function LineAt(s: string, p: nat): nat
    requires p <= |s|
  {
    1 + CountLF(s, p)
  }

  /** Lines are counted from 1, one more for each line feed before. */
  lemma {:induction false} LinesCounted(s: string, p: nat)
    requires p <= |s|
    ensures LineAt(s, p) == 1 + multiset(s[..p])['\n']
  {
    if p > 0 {
      LinesCounted(s, p - 1);
      assert s[..p] == s[..p - 1] + [s[p - 1]];
    }
  }

  // ---- C strings ---------------------------------------------------------

  /** The C string that starts a string: what comes before its first NUL. */
  function UpToNul(s: string): (r: string)
    ensures NUL !in r && r <= s
    ensures r == s || (|r| < |s| && s[|r|] == NUL)
  {
    if s == [] || s[0] == NUL then [] else [s[0]] + UpToNul(s[1..])
  }

  lemma {:induction false} UpToNulUnique(s: string, r: string)
    requires r <= s && NUL !in r
    requires r == s || s[|r|] == NUL
    ensures UpToNul(s) == r
  {
    if r != [] {
      UpToNulUnique(s[1..], r[1..]);
    }
  }

  lemma Regroup(a: string, b: string, c: string)
    ensures a + b + c == a + (b + c)
  {
  }
}
