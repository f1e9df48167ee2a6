/** Escaping on output and decoding on input are inverse, and escaped text cannot end the token it
    is printed in. */
module Escaping {
  import opened XmlUtil
  import opened CharacterRef
  import opened Decode
  import opened XmlTree
  import opened PrinterSpec
  import T = Tokens

  /** Not a character that would end a token the printer puts escaped text in. */
  predicate Harmless(x: char, restricted: bool) {
    x != '<' && x != '>' && (!restricted ==> x != '"' && x != '\'')
  }

  lemma EscapedCharHides(c: char, restricted: bool, x: char)
    requires x in EscapeChar(c, restricted)
    ensures Harmless(x, restricted) && (x == NUL || x == CR ==> c == x)
  {
  }

  /** Escaping leaves no raw '<' or '>' in either entity set and no quotes in the full one, and
      brings in no NUL or CR. */
  lemma {:induction false} EscapeHides(v: string, restricted: bool, x: char)
    requires x in Escape(v, restricted)
    ensures Harmless(x, restricted) && (x == NUL || x == CR ==> x in v)
  {
    var e, rest := EscapeChar(v[0], restricted), v[1..];
    if x in e {
      EscapedCharHides(v[0], restricted, x);
    } else {
      EscapeHides(rest, restricted, x);
      assert x in rest ==> x in v;
    }
  }

  /** One escaped character is one step of the decode loop. */
  lemma EscapedCharStep(v: string, i: nat, c: char, restricted: bool, f: Flags)
    requires f.entities && f.newlines && c != CR && c != LF && At(v, i, EscapeChar(c, restricted))
    ensures i < |v| && Next(v, i, f) == Piece(i + |EscapeChar(c, restricted)|, [c])
  {
    if Flagged(c, restricted) {
      hide Next;
      var k := if c == '"' then 0 else if c == '&' then 1 else if c == '\'' then 2 else if c == '<' then 3 else 4;
      assert T.Named(k).Source() == EscapeChar(c, restricted);
      T.NamedStep(v, i, k, f);
    } else {
      AtIndex(v, i, [c], 0);
    }
  }

  /** One step over the escaped form of w: one character, or the line end it starts with. */
  lemma EscapedStep(v: string, i: nat, w: string, restricted: bool, f: Flags) returns (n: nat, used: nat, c: char)
    requires f.entities && f.newlines && w != [] && i <= |v| && v[i..] == Escape(w, restricted)
    ensures i < n <= |v| && 0 < used <= |w| && Next(v, i, f) == Piece(n, [c])
    ensures v[n..] == Escape(w[used..], restricted) && Unix(w) == [c] + Unix(w[used..])
  {
    hide Next;
    if w[0] == CR || w[0] == LF {
      c := LF;
      n, used := EscapedLineEnd(v, i, w, restricted, f);
    } else {
      EscapedHead(v, i, w, restricted);
      n, used, c := i + |EscapeChar(w[0], restricted)|, 1, w[0];
      EscapedCharStep(v, i, w[0], restricted, f);
    }
  }

  lemma EscapedLineEnd(v: string, i: nat, w: string, restricted: bool, f: Flags) returns (n: nat, used: nat)
    requires f.newlines && w != [] && (w[0] == CR || w[0] == LF) && i <= |v| && v[i..] == Escape(w, restricted)
    ensures i < n <= |v| && 0 < used <= |w| && Next(v, i, f) == Piece(n, [LF])
    ensures v[n..] == Escape(w[used..], restricted) && Unix(w) == [LF] + Unix(w[used..])
  {
    hide Next, Escape;
    EscapedHead(v, i, w, restricted);
    n, used := i + 1, 1;
    if |w| > 1 && w[1] == (if w[0] == CR then LF else CR) {
      EscapedHead(v, n, w[1..], restricted);
      n, used := n + 1, 2;
      assert w[1..][1..] == w[2..];
    }
    LineEndStep(v, i, f);
  }

  lemma LineEndStep(v: string, i: nat, f: Flags)
    requires f.newlines && i < |v| && (v[i] == CR || v[i] == LF)
    ensures Next(v, i, f) == Piece(if Ch(v, i + 1) == (if v[i] == CR then LF else CR) then i + 2 else i + 1, [LF])
  {
  }

  lemma EscapeCons(w: string, restricted: bool)
    requires w != []
    ensures Escape(w, restricted) == EscapeChar(w[0], restricted) + Escape(w[1..], restricted)
    ensures EscapeChar(w[0], restricted) != []
  {
  }

  lemma EscapedHead(v: string, i: nat, w: string, restricted: bool)
    requires w != [] && i <= |v| && v[i..] == Escape(w, restricted)
    ensures var e := EscapeChar(w[0], restricted);
      && At(v, i, e) && v[i + |e|..] == Escape(w[1..], restricted)
      && (if |w| > 1 && (w[1] == CR || w[1] == LF) then Ch(v, i + |e|) == w[1]
          else Ch(v, i + |e|) != CR && Ch(v, i + |e|) != LF)
  {
    EscapeCons(w, restricted);
    if |w| > 1 { EscapeCons(w[1..], restricted); }
    hide Escape;
    var e, rest, t := EscapeChar(w[0], restricted), Escape(w[1..], restricted), v[i..];
    assert t == e + rest;
    assert v[i..i + |e|] == t[..|e|] == e;
    assert v[i + |e|..] == t[|e|..] == rest;
    if |w| > 1 {
      assert w[1..][0] == w[1] && rest[0] == EscapeChar(w[1], restricted)[0] == v[i + |e|];
    }
  }

  /** Decoding from where the escaped form of w stands adds w with its line ends normalised. */
  lemma {:induction false} EscapeDecodes(v: string, i: nat, w: string, out: string, restricted: bool, f: Flags)
    requires f.entities && f.newlines && |out| <= i <= |v| && v[i..] == Escape(w, restricted)
    ensures DecodeFrom(v, i, out, f) == out + Unix(w)
    decreases |w|
  {
    hide Next, Escape;
    if w == [] {
      assert Escape(w, restricted) == [] by { EmptyEscape(restricted); }
    } else {
      var n, used, c := EscapedStep(v, i, w, restricted, f);
      EscapeDecodes(v, n, w[used..], out + [c], restricted, f);
    }
  }

  lemma EmptyEscape(restricted: bool)
    ensures Escape([], restricted) == []
  {
  }

  /** GetStr with entity processing undoes PrintString, in both entity sets, but for the line ends. */
  lemma EscapeReread(w: string, restricted: bool, collapse: bool)
    requires NUL !in w
    ensures Meaning(Escape(w, restricted), Flags(true, true, collapse))
         == if collapse then Collapse(Unix(w)) else Unix(w)
  {
    hide Escape, DecodeFrom;
    var v, f := Escape(w, restricted), Flags(true, true, collapse);
    assert v[0..] == v && [] + Unix(w) == Unix(w);
    EscapeDecodes(v, 0, w, [], restricted, f);
    UnixNulFree(w);
    UpToNulUnique(Unix(w), Unix(w));
  }

  lemma {:induction false} UnixNulFree(w: string)
    requires NUL !in w
    ensures NUL !in Unix(w)
    decreases |w|
  {
    if w != [] {
      UnixNulFree(w[1..]);
      if |w| > 1 { UnixNulFree(w[2..]); }
    }
  }

  /** So it undoes it exactly for texts without CR. */
  lemma EscapeRoundTrip(w: string, restricted: bool)
    requires NUL !in w
    ensures Meaning(Escape(w, restricted), Flags(true, true, false)) == w <==> CR !in w
  {
    hide Escape, Meaning, Unix;
    EscapeReread(w, restricted, false);
    UnixSame(w);
  }

  // ---- line ends --------------------------------------------------------------------

  lemma {:induction false} BodyDecodes(v: string, i: nat, out: string, f: Flags)
    requires !f.entities && f.newlines && |out| <= i <= |v|
    ensures DecodeFrom(v, i, out, f) == out + Unix(v[i..])
    decreases |v| - i
  {
    hide Next, Unix;
    if i < |v| {
      var n, c := BodyStep(v, i, f);
      BodyDecodes(v, n, out + [c], f);
    } else {
      UnixSame(v[i..]);
    }
  }

  /** One step over content that is printed as it is. */
  lemma BodyStep(v: string, i: nat, f: Flags) returns (n: nat, c: char)
    requires !f.entities && f.newlines && i < |v|
    ensures i < n <= |v| && Next(v, i, f) == Piece(n, [c]) && Unix(v[i..]) == [c] + Unix(v[n..])
  {
    hide Next;
    var w := v[i..];
    assert w[0] == v[i] && w[1..] == v[i + 1..];
    if i + 1 < |v| { assert w[1] == v[i + 1] && w[2..] == v[i + 2..]; }
    if v[i] == CR || v[i] == LF { LineEndStep(v, i, f); } else { PlainStep(v, i, f); }
    n, c := Next(v, i, f).next, Next(v, i, f).text[0];
  }

  lemma PlainStep(v: string, i: nat, f: Flags)
    requires !f.entities && i < |v| && v[i] != CR && v[i] != LF
    ensures Next(v, i, f) == Piece(i + 1, [v[i]])
  {
  }

  /** Where entities are not replaced, only line ends are normalised, and blanks collapsed if that is asked
      for. */
  lemma BodyMeaning(v: string)
    requires NUL !in v
    ensures Meaning(v, NEWLINES) == Unix(v) && Meaning(v, PLAIN) == v
    ensures Meaning(v, Flags(false, true, true)) == Collapse(Unix(v))
  {
    hide DecodeFrom, Unix, Collapse;
    BodyDecodes(v, 0, [], NEWLINES);
    BodyDecodes(v, 0, [], Flags(false, true, true));
    assert v[0..] == v && [] + Unix(v) == Unix(v);
    UnixNulFree(v);
    UpToNulUnique(Unix(v), Unix(v));
    UpToNulUnique(v, v);
  }

  /** A text with other line ends than LF. */
  function WithLineEnds(w: string, e: string): string {
    if w == [] then [] else (if w[0] == LF then e else [w[0]]) + WithLineEnds(w[1..], e)
  }

  /** CR LF, a lone CR and LF CR are each read as one LF, and nothing else changes. */
  lemma {:induction false} LineEndsNormalised(w: string, e: string)
    requires CR !in w && (e == [CR, LF] || e == [CR] || e == [LF, CR])
    ensures Unix(WithLineEnds(w, e)) == w
  {
    if w != [] {
      var rest := WithLineEnds(w[1..], e);
      var v := WithLineEnds(w, e);
      assert w[0] in w && (|w| > 1 ==> w[1..][0] == w[1]);
      LineEndsNormalised(w[1..], e);
      assert v[1..] == if w[0] == LF then e[1..] + rest else rest;
      if w[0] == LF && |e| == 2 { assert v[2..] == rest; }
      assert w == [w[0]] + w[1..];
    }
  }
}
