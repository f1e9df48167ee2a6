/** What a StrPair's raw content means: newline normalisation, entities and whitespace collapsing,
    as values. The in-place loops in StrPair.dfy are proved against these functions. */
module Decode {
  import opened XmlUtil
  import opened CharacterRef

  /** The three Mode bits a StrPair carries. */
  datatype Flags = Flags(entities: bool, newlines: bool, collapse: bool)

  const PLAIN := Flags(false, false, false)
  const NEWLINES := Flags(false, true, false)

  // ---- one step of the decode loop ---------------------------------------

  /** `Piece`: reading goes on at `next` and `text` is written. `Stale`: reading goes on at `next`
      and the write pointer moves over one character without writing it. */
  datatype Step = Piece(next: nat, text: string) | Stale(next: nat)

  datatype Entity = Entity(pattern: string, value: char)

  const ENTITIES: seq<Entity> :=
    [Entity("quot", '"'), Entity("amp", '&'), Entity("apos", '\''), Entity("lt", '<'), Entity("gt", '>')]

  /** strncmp on the pattern, then the semicolon. */
  predicate EntityAt(v: string, i: nat, e: Entity) {
    At(v, i + 1, e.pattern) && Ch(v, i + 1 + |e.pattern|) == ';'
  }

  function FindEntity(v: string, i: nat, k: nat): (r: Option<Entity>)
    requires k <= |ENTITIES|
    ensures r.Some? ==> EntityAt(v, i, r.value) && r.value in ENTITIES
    ensures r.None? ==> forall j | k <= j < |ENTITIES| :: !EntityAt(v, i, ENTITIES[j])
    decreases |ENTITIES| - k
  {
    if k == |ENTITIES| then None
    else if EntityAt(v, i, ENTITIES[k]) then Some(ENTITIES[k])
    else FindEntity(v, i, k + 1)
  }

  function Next(v: string, i: nat, f: Flags): (r: Step)
    requires i < |v|
    ensures i < r.next <= |v|
    ensures r.Piece? ==> |r.text| <= r.next - i
    ensures r.Stale? ==> v[i] == '&'
  {
    if f.newlines && v[i] == CR then Piece(if Ch(v, i + 1) == LF then i + 2 else i + 1, [LF])
    else if f.newlines && v[i] == LF then Piece(if Ch(v, i + 1) == CR then i + 2 else i + 1, [LF])
    else if f.entities && v[i] == '&' then
      if Ch(v, i + 1) == '#' then
        match GetCharacterRef(v, i)
        case NoRef => Piece(i + 1, [v[i]])
        case Ref(next, bytes) => Piece(next, bytes)
      else
        match FindEntity(v, i, 0)
        case Some(e) => Piece(i + |e.pattern| + 2, [e.value])
        case None => Stale(i + 1)
    else Piece(i + 1, [v[i]])
  }

  /** The decode loop of GetStr, `out` being what it has written. An entity name it does not know
      moves the write pointer without writing, so what stays there is the raw character at the
      offset the writing has reached. */
  function DecodeFrom(v: string, i: nat, out: string, f: Flags): (r: string)
    requires |out| <= i <= |v|
    ensures |r| <= |v| && out <= r
    decreases |v| - i
  {
    if i == |v| then out
    else match Next(v, i, f)
      case Piece(next, text) => DecodeFrom(v, next, out + text, f)
      case Stale(next) => DecodeFrom(v, next, out + [v[|out|]], f)
  }

  // ---- the meaning of a value ---------------------------------------------

  /** Token by token, with an unknown entity standing for its own ampersand. */
  function TokenText(v: string, i: nat, out: string, f: Flags): (r: string)
    requires i <= |v|
    ensures out <= r
    decreases |v| - i
  {
    if i == |v| then out
    else match Next(v, i, f)
      case Piece(next, text) => TokenText(v, next, out + text, f)
      case Stale(next) => TokenText(v, next, out + ['&'], f)
  }

  /** Each unknown entity is met while the raw character at the write offset (here `q`) is itself
      an ampersand, as it is when nothing before it got shorter. */
  predicate UnknownEntitiesKept(v: string, i: nat, q: nat, f: Flags)
    requires q <= i <= |v|
    decreases |v| - i
  {
    i == |v| ||
    match Next(v, i, f)
    case Piece(next, text) => UnknownEntitiesKept(v, next, q + |text|, f)
    case Stale(next) => v[q] == '&' && UnknownEntitiesKept(v, next, q + 1, f)
  }

  /** The loop computes the token-by-token meaning exactly when every unknown entity is met with an
      ampersand at the write offset. */
  lemma {:induction false} DecodeIsTokenText(v: string, i: nat, out: string, f: Flags)
    requires |out| <= i <= |v|
    ensures DecodeFrom(v, i, out, f) == TokenText(v, i, out, f) <==> UnknownEntitiesKept(v, i, |out|, f)
    decreases |v| - i
  {
    hide Next;
    if i < |v| {
      match Next(v, i, f)
      case Piece(next, text) => DecodeIsTokenText(v, next, out + text, f);
      case Stale(next) =>
        if v[|out|] == '&' {
          DecodeIsTokenText(v, next, out + ['&'], f);
        } else {
          DifferAt(DecodeFrom(v, next, out + [v[|out|]], f), TokenText(v, next, out + ['&'], f), out, v[|out|]);
        }
    }
  }

  lemma DifferAt(r: string, t: string, out: string, c: char)
    requires out + [c] <= r && out + ['&'] <= t && c != '&'
    ensures r != t
  {
    assert r[|out|] == (out + [c])[|out|] == c && t[|out|] == (out + ['&'])[|out|] == '&';
  }

  /** With every unescaped ampersand starting a known entity or a "&#", there is nothing to keep. */
  predicate AllEntitiesKnown(v: string) {
    forall i | 0 <= i < |v| && v[i] == '&' :: Ch(v, i + 1) == '#' || FindEntity(v, i, 0).Some?
  }

  lemma {:induction false} KnownEntitiesDecode(v: string, i: nat, q: nat, f: Flags)
    requires q <= i <= |v| && AllEntitiesKnown(v)
    ensures UnknownEntitiesKept(v, i, q, f)
    decreases |v| - i
  {
    if i < |v| {
      match Next(v, i, f)
      case Piece(next, text) => KnownEntitiesDecode(v, next, q + |text|, f);
      case Stale(next) => assert false;
    }
  }

  /** An unknown entity after a known one: "&lt;&x;" decodes to "<lx;", not to "<&x;". */
  lemma UnknownEntityLost()
    ensures DecodeFrom("&lt;&x;", 0, [], Flags(true, true, false)) == "<lx;"
    ensures TokenText("&lt;&x;", 0, [], Flags(true, true, false)) == "<&x;"
  {
    hide Next;
    var v, f := "&lt;&x;", Flags(true, true, false);
    KnownEntityStep(f);
    UnknownEntityStep(f);
    assert Next(v, 5, f) == Piece(6, "x") && Next(v, 6, f) == Piece(7, ";") by { PlainSteps(f); }
    assert TokenText(v, 6, "<&x", f) == "<&x;" && TokenText(v, 5, "<&", f) == "<&x;";
    assert TokenText(v, 4, "<", f) == "<&x;";
    assert DecodeFrom(v, 6, "<lx", f) == "<lx;" && DecodeFrom(v, 5, "<l", f) == "<lx;";
    assert DecodeFrom(v, 4, "<", f) == "<lx;";
  }

  lemma KnownEntityStep(f: Flags)
    requires f.entities
    ensures Next("&lt;&x;", 0, f) == Piece(4, "<")
  {
    var v := "&lt;&x;";
    assert EntityAt(v, 0, ENTITIES[3]);
    assert FindEntity(v, 0, 3) == Some(ENTITIES[3]);
    assert ENTITIES[0].pattern[0] == 'q' && ENTITIES[1].pattern[0] == 'a' && ENTITIES[2].pattern[0] == 'a';
    assert FindEntity(v, 0, 1) == FindEntity(v, 0, 2) == FindEntity(v, 0, 3);
  }

  lemma UnknownEntityStep(f: Flags)
    requires f.entities
    ensures Next("&lt;&x;", 4, f) == Stale(5)
  {
    var v := "&lt;&x;";
    assert ENTITIES[0].pattern[0] == 'q' && ENTITIES[1].pattern[0] == 'a' && ENTITIES[2].pattern[0] == 'a';
    assert ENTITIES[3].pattern[0] == 'l' && ENTITIES[4].pattern[0] == 'g';
    assert FindEntity(v, 4, 3) == None;
    assert FindEntity(v, 4, 1) == FindEntity(v, 4, 2) == FindEntity(v, 4, 3);
  }

  lemma PlainSteps(f: Flags)
    ensures Next("&lt;&x;", 5, f) == Piece(6, "x") && Next("&lt;&x;", 6, f) == Piece(7, ";")
  {
  }

  // ---- whitespace collapsing ----------------------------------------------

  function SkipBlanks(c: string, p: nat): (q: nat)
    requires p <= |c|
    ensures p <= q <= |c| && (q < |c| ==> !IsWhiteSpace(c[q]))
    ensures forall k | p <= k < q :: IsWhiteSpace(c[k])
    decreases |c| - p
  {
    if p < |c| && IsWhiteSpace(c[p]) then SkipBlanks(c, p + 1) else p
  }

  /** What the copying loop of CollapseWhitespace writes from read offset p on. */
  function CollapseFrom(c: string, p: nat): (r: string)
    requires p <= |c|
    ensures |r| <= |c| - p
    decreases |c| - p
  {
    if p == |c| then []
    else if IsWhiteSpace(c[p]) then
      var n := SkipBlanks(c, p);
      if n == |c| then [] else [' ', c[n]] + CollapseFrom(c, n + 1)
    else [c[p]] + CollapseFrom(c, p + 1)
  }

  function Collapse(c: string): string {
    CollapseFrom(c, SkipBlanks(c, 0))
  }

  predicate IsWord(w: string) {
    w != [] && forall c | c in w :: !IsWhiteSpace(c)
  }

  function WordEnd(c: string, p: nat): (q: nat)
    requires p <= |c|
    ensures p <= q <= |c| && (q < |c| ==> IsWhiteSpace(c[q]))
    ensures forall k | p <= k < q :: !IsWhiteSpace(c[k])
    decreases |c| - p
  {
    if p < |c| && !IsWhiteSpace(c[p]) then WordEnd(c, p + 1) else p
  }

  /** The maximal blank-free stretches of c from p on. */
  function Words(c: string, p: nat): (ws: seq<string>)
    requires p <= |c|
    ensures forall w | w in ws :: IsWord(w)
    decreases |c| - p
  {
    var n := SkipBlanks(c, p);
    if n == |c| then []
    else
      var e := WordEnd(c, n);
      [c[n..e]] + Words(c, e)
  }

  function Join(ws: seq<string>): string {
    if ws == [] then [] else if |ws| == 1 then ws[0] else ws[0] + [' '] + Join(ws[1..])
  }

  lemma {:induction false} CopyWord(c: string, p: nat)
    requires p <= |c|
    ensures CollapseFrom(c, p) == c[p..WordEnd(c, p)] + CollapseFrom(c, WordEnd(c, p))
    decreases |c| - p
  {
    hide SkipBlanks;
    if p < |c| && !IsWhiteSpace(c[p]) {
      CopyWord(c, p + 1);
      Prepend(c, p, WordEnd(c, p), CollapseFrom(c, WordEnd(c, p)));
    }
  }

  lemma Prepend(c: string, p: nat, e: nat, rest: string)
    requires p < e <= |c|
    ensures [c[p]] + (c[p + 1..e] + rest) == c[p..e] + rest
  {
    assert c[p..e] == [c[p]] + c[p + 1..e];
  }

  /** A text of words as the loop writes it after a word: each behind one space. */
  function Spaced(ws: seq<string>): string {
    if ws == [] then [] else [' '] + ws[0] + Spaced(ws[1..])
  }

  lemma {:induction false} SpacedJoin(ws: seq<string>)
    requires ws != []
    ensures Join(ws) == ws[0] + Spaced(ws[1..])
  {
    if |ws| > 1 {
      SpacedJoin(ws[1..]);
    } else {
      assert Spaced(ws[1..]) == [];
    }
  }

  lemma CollapseNextWord(c: string, p: nat) returns (n: nat, e: nat)
    requires p < |c| && IsWhiteSpace(c[p]) && SkipBlanks(c, p) < |c|
    ensures n == SkipBlanks(c, p) < e == WordEnd(c, n) && p < e <= |c|
    ensures CollapseFrom(c, p) == [' '] + c[n..e] + CollapseFrom(c, e)
  {
    n := SkipBlanks(c, p);
    e := WordEnd(c, n);
    CopyWord(c, n);
    assert CollapseFrom(c, p) == [' '] + CollapseFrom(c, n);
  }

  /** At the end of a word the loop writes the remaining words, each after one space. */
  lemma {:induction false} CollapseAfterWord(c: string, p: nat)
    requires p <= |c| && (p < |c| ==> IsWhiteSpace(c[p]))
    ensures CollapseFrom(c, p) == Spaced(Words(c, p))
    decreases |c| - p
  {
    if p < |c| && SkipBlanks(c, p) < |c| {
      var n, e := CollapseNextWord(c, p);
      CollapseAfterWord(c, e);
      assert Words(c, p)[1..] == Words(c, e);
    }
  }

  /** Collapsing leaves the words joined by single spaces, with none at either end. */
  lemma CollapseJoinsWords(c: string)
    ensures Collapse(c) == Join(Words(c, 0))
  {
    var n := SkipBlanks(c, 0);
    if n < |c| {
      CopyWord(c, n);
      CollapseAfterWord(c, WordEnd(c, n));
      SpacedJoin(Words(c, 0));
      assert Words(c, 0)[1..] == Words(c, WordEnd(c, n));
    }
  }

  /** The words of words joined by single spaces are those words, wherever the text stands. */
  lemma {:induction false} WordsOfJoin(c: string, p: nat, ws: seq<string>)
    requires p <= |c| && c[p..] == Join(ws)
    requires forall w | w in ws :: IsWord(w)
    ensures Words(c, p) == ws
    decreases |ws|
  {
    if ws != [] {
      var w, rest := ws[0], ws[1..];
      var e := FirstWord(c, p, ws);
      assert ws == [w] + rest;
      if rest != [] {
        forall x | x in rest ensures IsWord(x) { assert x in ws; }
        WordsOfJoin(c, e + 1, rest);
        WordsAfterBlank(c, e);
      }
      WordsFrom(c, p, e);
    }
  }

  lemma WordsAfterBlank(c: string, e: nat)
    requires e < |c| && IsWhiteSpace(c[e])
    ensures Words(c, e) == Words(c, e + 1)
  {
  }

  lemma WordsFrom(c: string, p: nat, e: nat)
    requires p < |c| && SkipBlanks(c, p) == p < e == WordEnd(c, p) <= |c|
    ensures Words(c, p) == [c[p..e]] + Words(c, e)
    ensures e == |c| ==> Words(c, e) == []
  {
  }

  lemma FirstWord(c: string, p: nat, ws: seq<string>) returns (e: nat)
    requires p <= |c| && ws != [] && c[p..] == Join(ws)
    requires forall w | w in ws :: IsWord(w)
    ensures SkipBlanks(c, p) == p < e == WordEnd(c, p) <= |c| && c[p..e] == ws[0]
    ensures |ws| == 1 ==> e == |c|
    ensures |ws| > 1 ==> e < |c| && c[e] == ' ' && c[e + 1..] == Join(ws[1..])
  {
    var w, j := ws[0], c[p..];
    e := p + |w|;
    assert w in ws && w[0] in w;
    assert w <= j && c[p] == j[0] == w[0];
    assert c[p..e] == j[..|w|] == w;
    if |ws| > 1 {
      assert c[e] == j[|w|] == ' ';
      assert c[e + 1..] == j[|w| + 1..] == Join(ws[1..]);
    }
    WordEndUnique(c, p, e, w);
  }

  lemma {:induction false} WordEndUnique(c: string, p: nat, e: nat, w: string)
    requires p <= e <= |c| && c[p..e] == w && (forall x | x in w :: !IsWhiteSpace(x))
    requires e < |c| ==> IsWhiteSpace(c[e])
    ensures WordEnd(c, p) == e
    decreases e - p
  {
    if p < e {
      assert w[0] in w && c[p] == w[0];
      assert c[p + 1..e] == w[1..];
      WordEndUnique(c, p + 1, e, w[1..]);
    }
  }

  lemma CollapseIdempotent(c: string)
    ensures Collapse(Collapse(c)) == Collapse(c)
  {
    var d := Collapse(c);
    CollapseJoinsWords(c);
    CollapseJoinsWords(d);
    assert d[0..] == d;
    WordsOfJoin(d, 0, Words(c, 0));
  }

  // ---- the string a StrPair yields ----------------------------------------

  /** What GetStr returns, as a C string, for raw content v. */
  function Meaning(v: string, f: Flags): string {
    var raw := if f == PLAIN then v else DecodeFrom(v, 0, [], f);
    if f.collapse then Collapse(UpToNul(raw)) else UpToNul(raw)
  }
}
