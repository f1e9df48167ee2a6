/** StrPair: a range of a character buffer, decoded in place the first time it is read. */
module StrPairs {
  import opened XmlUtil
  import opened CharacterRef
  import opened Decode

  /** b is s with t written over it from offset o on. */
  ghost predicate Written(b: array<char>, s: string, o: nat, t: string)
    reads b
  {
    && o + |t| <= b.Length == |s|
    && (forall k | o <= k < o + |t| :: b[k] == t[k - o])
    && (forall k | 0 <= k < b.Length && !(o <= k < o + |t|) :: b[k] == s[k])
  }

  /** memcpy(b + at, t, |t|), after `out` has been written up to there over the original s. */
  method Store(b: array<char>, at: nat, t: string, ghost s: string, ghost o: nat, ghost out: string)
    requires Written(b, s, o, out) && at == o + |out| && at + |t| <= b.Length
    modifies b
    ensures Written(b, s, o, out + t)
  {
    for k := 0 to |t|
      invariant Written(b, s, o, out + t[..k])
    {
      b[at + k] := t[k];
    }
    assert t[..|t|] == t;
  }

  /** The content of b from offset `at` on, read as a C string. */
  ghost function CString(b: string, at: nat): string
    requires at <= |b|
  {
    UpToNul(b[at..])
  }

  lemma CStringAt(b: string, at: nat, r: string)
    requires At(b, at, r) && NUL !in r && at + |r| < |b| && b[at + |r|] == NUL
    ensures CString(b, at) == r
  {
    assert b[at..][..|r|] == b[at..at + |r|];
    UpToNulUnique(b[at..], r);
  }

  class StrPair {
    const buffer: array<char>
    var start: nat
    var end: nat
    var flags: Flags
    var needsFlush: bool

    /** Set() on a range of the buffer; ParseText and ParseName only set ranges without NUL. */
    constructor (b: array<char>, s: nat, e: nat, f: Flags)
      requires s <= e < b.Length && NUL !in b[s..e]
      ensures Valid() && needsFlush && buffer == b && start == s && end == e && flags == f
    {
      buffer, start, end, flags, needsFlush := b, s, e, f, true;
    }

    ghost predicate Valid()
      reads this, buffer
    {
      start <= end < buffer.Length && if needsFlush then NUL !in buffer[start..end] else buffer[end] == NUL
    }

    /** What the pair stands for: its range still to be decoded, or the C string left by that. */
    ghost function Str(): string
      reads this, buffer
      requires Valid()
    {
      if needsFlush then Meaning(buffer[start..end], flags) else CString(buffer[..], start)
    }

    /** StrPair::GetStr. The pair still stands for the same string, now as the C string returned,
        and no character outside the range and its terminator slot has changed. */
    method GetStr() returns (p: nat)
      requires Valid()
      modifies this, buffer
      ensures Valid() && !needsFlush && end == old(end) && start == p >= old(start)
      ensures Str() == CString(buffer[..], p) == old(Str())
      ensures !old(needsFlush) ==> start == old(start) && buffer[..] == old(buffer[..])
      ensures forall k | 0 <= k < buffer.Length && !(old(start) <= k <= old(end)) :: buffer[k] == old(buffer[k])
    {
      if needsFlush {
        ghost var v := buffer[start..end];
        buffer[end] := NUL;
        needsFlush := false;
        assert buffer[start..end] == v;
        if flags == PLAIN {
          CStringAt(buffer[..], start, v);
          UpToNulUnique(v, v);
        } else {
          Decode(v);
        }
      }
      return start;
    }

    /** What GetStr does to a range with flags, once its terminator is written. */
    method Decode(ghost v: string)
      requires start <= end < buffer.Length && v == buffer[start..end] && NUL !in v && buffer[end] == NUL
      requires flags != PLAIN
      modifies this`start, buffer
      ensures old(start) <= start <= end
      ensures buffer[end] == NUL
      ensures CString(buffer[..], start) == Meaning(v, flags)
      ensures forall k | 0 <= k < buffer.Length && !(old(start) <= k <= end) :: buffer[k] == old(buffer[k])
    {
      DecodeRange(v);
      if flags.collapse {
        CollapseWhitespace();
      }
    }

    method DecodeRange(ghost v: string)
      requires start <= end < buffer.Length && v == buffer[start..end] && NUL !in v && buffer[end] == NUL
      modifies buffer
      ensures |DecodeFrom(v, 0, [], flags)| <= |v|
      ensures buffer[end] == NUL
      ensures CString(buffer[..], start) == UpToNul(DecodeFrom(v, 0, [], flags))
      ensures forall k | 0 <= k < buffer.Length && !(start <= k <= end) :: buffer[k] == old(buffer[k])
    {
      ghost var s := buffer[..];
      var q, out := DecodeLoop(v);
      Store(buffer, start + q, [NUL], s, start, out);
      WrittenCString(buffer, s, start, out);
    }

    /** The two-pointer decode loop: `q` never passes `p`, so what is still to be read is intact. */
    method DecodeLoop(ghost v: string) returns (q: nat, ghost out: string)
      requires start <= end < buffer.Length && v == buffer[start..end] && NUL !in v && buffer[end] == NUL
      modifies buffer
      ensures out == DecodeFrom(v, 0, [], flags) && q == |out| <= |v|
      ensures Written(buffer, old(buffer[..]), start, out)
    {
      ghost var s := buffer[..];
      var p := 0;
      q, out := 0, "";
      while p < end - start
        invariant q == |out| <= p <= |v| == end - start
        invariant Written(buffer, s, start, out)
        invariant DecodeFrom(v, p, out, flags) == DecodeFrom(v, 0, [], flags)
        decreases |v| - p
      {
        p, q, out := DecodeStep(p, q, v, s, out);
      }
    }

    /** One round of that loop. */
    method DecodeStep(p: nat, q: nat, ghost v: string, ghost s: string, ghost before: string)
      returns (next: nat, q': nat, ghost out: string)
      requires q == |before| <= p < |v| && NUL !in v && start + |v| < |s| && v == s[start..start + |v|]
      requires s[start + |v|] == NUL && Written(buffer, s, start, before)
      modifies buffer
      ensures p < next <= |v| && q' == |out| <= next && Written(buffer, s, start, out)
      ensures DecodeFrom(v, next, out, flags) == DecodeFrom(v, p, before, flags)
    {
      WrittenUnread(buffer, s, start, before, p, v);
      var step := ReadStep(p, v);
      match step
      case Piece(n, text) =>
        Store(buffer, start + q, text, s, start, before);
        next, q', out := n, q + |text|, before + text;
      case Stale(n) =>
        WrittenKeep(buffer, s, start, before, v);
        next, q', out := n, q + 1, before + [v[q]];
    }

    /** One round of the decode loop up to its writes: which branch is taken, where reading goes on
        and what is to be written. */
    method ReadStep(p: nat, ghost v: string) returns (step: Step)
      requires p < |v| && Unread(buffer, start, p, v)
      ensures step == Next(v, p, flags)
    {
      UnreadAt(buffer, start, p, v, p);
      UnreadAt(buffer, start, p, v, p + 1);
      var c, d := buffer[start + p], buffer[start + p + 1];
      if flags.newlines && c == CR {
        step := Piece(if d == LF then p + 2 else p + 1, [LF]);
      } else if flags.newlines && c == LF {
        step := Piece(if d == CR then p + 2 else p + 1, [LF]);
      } else if flags.entities && c == '&' {
        if d == '#' {
          var ref := ReadCharacterRef(buffer, start, p, v);
          match ref
          case NoRef => step := Piece(p + 1, [c]);
          case Ref(next, bytes) => step := Piece(next, bytes);
        } else {
          var e := ReadEntity(p, v);
          match e
          case Some(e) => step := Piece(p + |e.pattern| + 2, [e.value]);
          case None => step := Stale(p + 1);
        }
      } else {
        step := Piece(p + 1, [c]);
      }
    }

    /** The loop over the entity table. */
    method ReadEntity(p: nat, ghost v: string) returns (found: Option<Entity>)
      requires p < |v| && Unread(buffer, start, p, v)
      ensures found == FindEntity(v, p, 0)
    {
      for i := 0 to |ENTITIES|
        invariant FindEntity(v, p, i) == FindEntity(v, p, 0)
      {
        var same := Matches(p + 1, ENTITIES[i].pattern, v);
        if same {
          assert At(v, p + 1, ENTITIES[i].pattern);
          UnreadAt(buffer, start, p, v, p + 1 + |ENTITIES[i].pattern|);
          if buffer[start + p + 1 + |ENTITIES[i].pattern|] == ';' {
            return Some(ENTITIES[i]);
          }
        }
      }
      return None;
    }

    /** strncmp(p, w, strlen(w)) == 0: stops at the first difference, so never past the NUL. */
    method Matches(p: nat, w: string, ghost v: string) returns (same: bool)
      requires p <= |v| && Unread(buffer, start, p, v) && NUL !in w
      ensures same == At(v, p, w)
    {
      var k := 0;
      while k < |w|
        invariant k <= |w| && p + k <= |v| && v[p..p + k] == w[..k]
      {
        UnreadAt(buffer, start, p, v, p + k);
        assert w[k] in w;
        if buffer[start + p + k] != w[k] {
          if At(v, p, w) { AtIndex(v, p, w, k); }
          return false;
        }
        assert v[p..p + k + 1] == v[p..p + k] + [w[k]];
        assert w[..k + 1] == w[..k] + [w[k]];
        k := k + 1;
      }
      assert w[..k] == w;
      return true;
    }

    /** StrPair::CollapseWhitespace: the start moves to the first word and the words are copied
        down, the write pointer never ahead of the read pointer. */
    method CollapseWhitespace()
      requires start <= end < buffer.Length && buffer[end] == NUL && start + |CString(buffer[..], start)| <= end
      modifies this`start, buffer
      ensures old(start) <= start <= end
      ensures buffer[end] == NUL
      ensures CString(buffer[..], start) == Collapse(old(CString(buffer[..], start)))
      ensures forall k | 0 <= k < buffer.Length && !(old(start) <= k <= end) :: buffer[k] == old(buffer[k])
    {
      hide CollapseFrom, UpToNul, SkipBlanks;
      var o := start;
      ghost var c := CString(buffer[..], o);
      EndsInNul(buffer, o, end, c);
      var n := SkipWhiteSpace(o, 0, c);
      start := o + n;
      UnreadAt(buffer, o, 0, c, n);
      if buffer[start] != NUL {
        CopyDown(o, n, c);
      } else {
        CStringAt(buffer[..], start, "");
      }
    }

    method CopyDown(o: nat, n: nat, ghost c: string)
      requires n < |c| && o + |c| < buffer.Length && Unread(buffer, o, n, c)
      modifies buffer
      ensures buffer[o + |c|] == NUL && CString(buffer[..], o + n) == CollapseFrom(c, n)
      ensures forall k | 0 <= k < buffer.Length && !(o + n <= k <= o + |c|) :: buffer[k] == old(buffer[k])
    {
      ghost var s := buffer[..];
      var q, out := CopyWords(o, n, c);
      Store(buffer, o + q, [NUL], s, o + n, out);
      CollapseNulFree(c, n);
      WrittenCString(buffer, s, o + n, out);
      UpToNulUnique(out, out);
    }

    /** The copying loop of CollapseWhitespace. Pointers are offsets from o, where the C string c
        starts; c has its first word at offset n. */
    method CopyWords(o: nat, n: nat, ghost c: string) returns (q: nat, ghost out: string)
      requires n < |c| && o + |c| < buffer.Length && Unread(buffer, o, n, c)
      modifies buffer
      ensures out == CollapseFrom(c, n) && q == n + |out| <= |c|
      ensures Written(buffer, old(buffer[..]), o + n, out)
    {
      ghost var s := buffer[..];
      out := "";
      var p := n;
      q := n;
      while buffer[o + p] != NUL
        invariant n <= q <= p <= |c| && q == n + |out|
        invariant Written(buffer, s, o + n, out) && Unread(buffer, o, p, c)
        invariant Collapsed(out, c, p) == Collapsed("", c, n)
        decreases |c| - p
      {
        UnreadAt(buffer, o, p, c, p);
        p, q, out := CopyRound(o, p, q, s, n, c, out);
      }
      UnreadAt(buffer, o, p, c, p);
      CollapsedIs("", c, n);
    }

    /** One round of that loop: one space for a stretch of blanks, unless they end the string and
        the loop is left, and then one character. */
    method CopyRound(o: nat, from: nat, at: nat, ghost s: string, ghost n: nat, ghost c: string, ghost before: string)
      returns (p: nat, q: nat, ghost out: string)
      requires ReadsFrom(s, o, n, c) && at == n + |before| <= from < |c| && Written(buffer, s, o + n, before)
      requires Unread(buffer, o, from, c)
      modifies buffer
      ensures from < p <= |c| && q == n + |out| <= p && Written(buffer, s, o + n, out) && Unread(buffer, o, p, c)
      ensures Collapsed(out, c, p) == Collapsed(before, c, from)
    {
      p, q, out := from, at, before;
      UnreadAt(buffer, o, from, c, from);
      if IsWhiteSpace(buffer[o + from]) {
        p := SkipWhiteSpace(o, from, c);
        UnreadAt(buffer, o, from, c, p);
        if buffer[o + p] == NUL {
          return;
        }
        q, out := CopyOne(' ', o, p - 1, at, s, n, c, before);
        UnreadAt(buffer, o, p, c, p);
      }
      q, out := CopyOne(buffer[o + p], o, p, q, s, n, c, out);
      p := p + 1;
    }

    /** *q = ch; ++q; with reading to go on after offset p. */
    method CopyOne(ch: char, o: nat, p: nat, at: nat, ghost s: string, ghost n: nat, ghost c: string,
        ghost before: string)
      returns (q: nat, ghost out: string)
      requires ReadsFrom(s, o, n, c) && at == n + |before| <= p < |c| && Written(buffer, s, o + n, before)
      modifies buffer
      ensures out == before + [ch] && q == at + 1 == n + |out| && Written(buffer, s, o + n, out)
      ensures Unread(buffer, o, p + 1, c)
    {
      Store(buffer, o + at, [ch], s, o + n, before);
      q, out := at + 1, before + [ch];
      StillUnread(buffer, s, o, n, p + 1, c, out);
    }

    /** XMLUtil::SkipWhiteSpace inside the C string c that starts at o. */
    method SkipWhiteSpace(o: nat, i: nat, ghost c: string) returns (p: nat)
      requires Unread(buffer, o, i, c)
      ensures p == SkipBlanks(c, i)
    {
      p := i;
      UnreadAt(buffer, o, i, c, p);
      while IsWhiteSpace(buffer[o + p])
        invariant i <= p <= |c| && SkipBlanks(c, p) == SkipBlanks(c, i)
        invariant buffer[o + p] == Ch(c, p)
        decreases |c| - p
      {
        p := p + 1;
        UnreadAt(buffer, o, i, c, p);
      }
    }
  }

  /** The buffer content s holds the C string c at o, from offset n on. */
  ghost predicate ReadsFrom(s: string, o: nat, n: nat, c: string) {
    && o + |c| < |s| && n <= |c| && s[o + |c|] == NUL && NUL !in c
    && forall k | n <= k < |c| :: s[o + k] == c[k]
  }

  /** What the copying loop will have written in the end, having written `out` and read up to i. */
  ghost function Collapsed(out: string, c: string, i: nat): string
    requires i <= |c|
    decreases |c| - i
  {
    if i == |c| then out
    else if IsWhiteSpace(c[i]) then
      var n := SkipBlanks(c, i);
      if n == |c| then out else Collapsed(out + [' '] + [c[n]], c, n + 1)
    else Collapsed(out + [c[i]], c, i + 1)
  }

  lemma {:induction false} CollapsedIs(out: string, c: string, i: nat)
    requires i <= |c|
    ensures Collapsed(out, c, i) == out + CollapseFrom(c, i)
    decreases |c| - i
  {
    if i < |c| {
      if IsWhiteSpace(c[i]) {
        var n := SkipBlanks(c, i);
        if n < |c| {
          CollapsedIs(out + [' '] + [c[n]], c, n + 1);
        }
      } else {
        CollapsedIs(out + [c[i]], c, i + 1);
      }
    }
  }

  lemma StillUnread(b: array<char>, s: string, o: nat, n: nat, p: nat, c: string, out: string)
    requires ReadsFrom(s, o, n, c) && n + |out| <= p <= |c| && Written(b, s, o + n, out)
    ensures Unread(b, o, p, c)
  {
  }

  /** The write pointer moving over a character it does not write. */
  lemma WrittenKeep(b: array<char>, s: string, o: nat, out: string, v: string)
    requires o + |v| <= |s| && v == s[o..o + |v|] && |out| < |v| && Written(b, s, o, out)
    ensures Written(b, s, o, out + [v[|out|]])
  {
    assert b[o + |out|] == s[o + |out|] == v[|out|];
  }

  lemma WrittenUnread(b: array<char>, s: string, o: nat, out: string, p: nat, v: string)
    requires o + |v| < |s| && v == s[o..o + |v|] && NUL !in v && s[o + |v|] == NUL
    requires |out| <= p <= |v| && Written(b, s, o, out)
    ensures Unread(b, o, p, v)
  {
    forall k | 0 <= k < |v| ensures s[o + k] == v[k] {
    }
    StillUnread(b, s, o, 0, p, v, out);
  }

  lemma WrittenCString(b: array<char>, s: string, o: nat, out: string)
    requires Written(b, s, o, out + [NUL])
    ensures CString(b[..], o) == UpToNul(out)
  {
    var r := UpToNul(out);
    var c := b[..][o..];
    assert forall k | 0 <= k <= |out| :: c[k] == b[o + k] && (out + [NUL])[k] == b[o + k];
    assert c[..|r|] == r;
    UpToNulUnique(c, r);
  }

  lemma EndsInNul(b: array<char>, o: nat, end: nat, c: string)
    requires o <= end < b.Length && c == CString(b[..], o) && o + |c| <= end
    ensures b[o + |c|] == NUL && NUL !in c
    ensures forall k | 0 <= k < |c| :: b[o + k] == c[k]
  {
    assert |c| < |b[..][o..]|;
    assert b[..][o..][|c|] == b[o + |c|];
    forall k | 0 <= k < |c| ensures b[o + k] == c[k] {
      assert b[..][o..][k] == b[o + k];
    }
  }

  lemma {:induction false} CollapseNulFree(c: string, p: nat)
    requires p <= |c| && NUL !in c
    ensures NUL !in CollapseFrom(c, p)
    decreases |c| - p
  {
    if p < |c| {
      if IsWhiteSpace(c[p]) {
        var n := SkipBlanks(c, p);
        if n < |c| {
          assert c[n] in c;
          CollapseNulFree(c, n + 1);
        }
      } else {
        assert c[p] in c;
        CollapseNulFree(c, p + 1);
      }
    }
  }
}
