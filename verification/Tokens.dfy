/** Attribute values and texts as they are written: characters, the five named entities, numeric
    character references and line ends. What GetStr yields for such a value is said here token by
    token, without the loop that computes it. */
module Tokens {
  import opened XmlUtil
  import opened CharacterRef
  import opened Decode

  /** `Named(k)` is the k-th entity of the table. `Reference` is "&#digits;" or "&#xdigits;" where nothing is
      skipped; otherwise the digits are those behind the last '#' or 'x'. `Kept` and `Dropped` are ampersands
      before '#': one that starts no reference, and that of a "&#" at the very end. */
  datatype Token =
    | Literal(c: char)
    | Named(k: nat)
    | Reference(radix: nat, skipped: string, digits: string)
    | LineEnd(written: string)
    | Kept
    | Dropped
  {
    predicate Valid() {
      match this
      case Literal(c) => c != CR && c != LF && c != '&' && c != NUL
      case Named(k) => k < |ENTITIES|
      case Reference(radix, skipped, digits) =>
        && (radix == 10 || radix == 16) && AllDigits(digits, radix) && (radix == 16 || Value(digits, radix) < UINT)
        && ';' !in skipped && NUL !in skipped
        && (skipped != "" ==> skipped[|skipped| - 1] == (if radix == 16 then 'x' else '#'))
        && (radix == 10 ==> !("x" <= skipped))
      case LineEnd(e) => e == [LF] || e == [CR] || e == [CR, LF] || e == [LF, CR]
      case _ => true
    }

    function Source(): (s: string)
      requires Valid()
      ensures s != ""
    {
      match this
      case Literal(c) => [c]
      case Named(k) => "&" + ENTITIES[k].pattern + ";"
      case Reference(radix, skipped, digits) => (if radix == 16 then "&#x" else "&#") + skipped + digits + ";"
      case LineEnd(e) => e
      case _ => "&"
    }

    /** XML 1.0 sections 2.11, 4.1 and 4.6: what the token stands for. */
    function Text(): string
      requires Valid()
    {
      match this
      case Literal(c) => [c]
      case Named(k) => [ENTITIES[k].value]
      case Reference(radix, _, digits) => ConvertUTF32ToUTF8(Value(digits, radix) % UINT)
      case LineEnd(_) => [LF]
      case Kept => "&"
      case Dropped => ""
    }

    /** The number of a reference, modulo 2^32. */
    predicate RefersTo(n: nat)
      requires Valid()
    {
      Reference? && Value(digits, radix) % UINT == n
    }

    /** What may stand behind the token: nothing that a line end would go on with, and behind '&' what
        makes it the one or the other. */
    ghost predicate Before(rest: string)
      requires Valid()
    {
      match this
      case LineEnd(e) => |e| == 1 ==> Ch(rest, 0) != if e[0] == CR then LF else CR
      case Kept => |rest| > 1 && rest[0] == '#' && NoReferenceAt("&" + rest, 0)
      case Dropped => rest == "#"
      case _ => true
    }
  }

  /** Valid tokens, each before what it may stand before. */
  ghost predicate Written(ts: seq<Token>)
    ensures Written(ts) ==> forall t | t in ts :: t.Valid()
  {
    ts == [] || (ts[0].Valid() && Written(ts[1..]) && ts[0].Before(SourceAll(ts[1..])))
  }

  function SourceAll(ts: seq<Token>): string
    requires forall t | t in ts :: t.Valid()
  {
    if ts == [] then [] else ts[0].Source() + SourceAll(ts[1..])
  }

  function TextAll(ts: seq<Token>): string
    requires forall t | t in ts :: t.Valid()
  {
    if ts == [] then [] else ts[0].Text() + TextAll(ts[1..])
  }

  // ---- one token ---------------------------------------------------------------------

  lemma NamedStep(v: string, i: nat, k: nat, f: Flags)
    requires f.entities && k < |ENTITIES| && At(v, i, Named(k).Source())
    ensures i < |v| && Next(v, i, f) == Piece(i + |Named(k).Source()|, Named(k).Text())
  {
    hide At;
    var w := ENTITIES[k].pattern;
    AtSplit3(v, i, ['&'], w, [';']);
    AtIndex(v, i, ['&'], 0);
    AtIndex(v, i + 1 + |w|, [';'], 0);
    AtIndex(v, i + 1, w, 0);
    assert EntityAt(v, i, ENTITIES[k]);
    OneEntity(v, i, k);
  }

  /** No two patterns of the table begin with the same two letters. */
  lemma OneEntity(v: string, i: nat, k: nat)
    requires k < |ENTITIES| && EntityAt(v, i, ENTITIES[k])
    ensures FindEntity(v, i, 0) == Some(ENTITIES[k])
  {
    var w, r := ENTITIES[k].pattern, FindEntity(v, i, 0);
    AtIndex(v, i + 1, w, 0);
    AtIndex(v, i + 1, w, 1);
    if r.Some? {
      AtIndex(v, i + 1, r.value.pattern, 0);
      AtIndex(v, i + 1, r.value.pattern, 1);
    }
  }

  /** The token stands at i, before what it may stand before. */
  ghost predicate Stands(v: string, i: nat, t: Token) {
    t.Valid() && At(v, i, t.Source()) && t.Before(v[i + |t.Source()|..])
  }

  /** The two places of a reference. */
  lemma ReferencePlaces(v: string, i: nat, t: Token) returns (first: nat, semi: nat)
    requires t.Reference? && t.Valid() && At(v, i, t.Source())
    ensures IsCharRef(v, i, t.radix, first, semi) && semi + 1 == i + |t.Source()| && v[first..semi] == t.digits
  {
    hide At, Value, AllDigits;
    var w := if t.radix == 16 then "&#x" else "&#";
    first, semi := i + |w| + |t.skipped|, i + |w| + |t.skipped| + |t.digits|;
    assert t.Source() == w + t.skipped + (t.digits + ";");
    AtSplit3(v, i, w, t.skipped, t.digits + ";");
    AtSplit(v, first, t.digits, ";");
    AtIndex(v, i, w, |w| - 1);
    LastAt(v, i + |w|, t.skipped);
    AtSlice(v, first, t.digits);
    AtIndex(v, semi, ";", 0);
    if t.radix == 10 { NotHex(v, i, t); }
    NoneSkipped(v, i + |w|, first, semi, t);
  }

  lemma NoneSkipped(v: string, p: nat, first: nat, semi: nat, t: Token)
    requires t.Reference? && t.Valid() && At(v, p, t.skipped) && first == p + |t.skipped|
    requires At(v, first, t.digits) && semi == first + |t.digits|
    ensures forall k | p <= k < semi :: v[k] != ';'
  {
    hide At, Value, AllDigits;
    NoSemicolon(v, p, t.skipped);
    DigitsNoSemicolon(t.digits, t.radix);
    NoSemicolon(v, first, t.digits);
  }

  lemma NoSemicolon(v: string, p: nat, w: string)
    requires At(v, p, w) && ';' !in w
    ensures forall k | p <= k < p + |w| :: v[k] != ';'
  {
    forall k | p <= k < p + |w| ensures v[k] != ';' { assert w[k - p] in w; }
  }

  lemma DigitsNoSemicolon(ds: string, radix: nat)
    requires (radix == 10 || radix == 16) && AllDigits(ds, radix)
    ensures ';' !in ds && !("x" <= ds)
  {
    if ds != "" { assert ds[0] in ds; }
  }

  lemma LastAt(v: string, p: nat, w: string)
    requires At(v, p, w)
    ensures w != "" ==> v[p + |w| - 1] == w[|w| - 1]
  {
  }

  lemma NotHex(v: string, i: nat, t: Token)
    requires t.Reference? && t.Valid() && t.radix == 10 && At(v, i, t.Source())
    ensures Ch(v, i + 2) != 'x'
  {
    hide Value;
    DigitsNoSemicolon(t.digits, 10);
    var w := t.skipped + t.digits + ";";
    assert t.Source() == "&#" + w;
    AtIndex(v, i, t.Source(), 2);
    assert w[0] == if t.skipped != "" then t.skipped[0] else if t.digits != "" then t.digits[0] else ';';
  }

  lemma ReferenceStep(v: string, i: nat, t: Token, f: Flags)
    requires f.entities && t.Reference? && t.Valid() && At(v, i, t.Source())
    ensures i < |v| && Next(v, i, f) == Piece(i + |t.Source()|, t.Text())
  {
    hide At, ConvertUTF32ToUTF8, GetCharacterRef, Value, IsCharRef;
    var first, semi := ReferencePlaces(v, i, t);
    CharRefMeaning(v, i, t.radix, first, semi);
  }

  /** An ampersand before '#' that starts no reference. */
  lemma StrayStep(v: string, i: nat, t: Token, f: Flags)
    requires f.entities && (t.Kept? || t.Dropped?) && Stands(v, i, t)
    ensures i < |v| && Next(v, i, f) == Piece(i + 1, t.Text())
  {
    hide ConvertUTF32ToUTF8, NoReferenceAt;
    assert v[i] == t.Source()[0] == '&';
    var rest := v[i + 1..];
    assert v[i + 1] == rest[0];
    if t.Kept? {
      assert v[i..] == "&" + rest;
      ReferenceShift(v, i);
      NoCharRef(v, i);
    }
  }

  /** A line end that does not go on with the next character. */
  lemma LineEndRead(v: string, i: nat, t: Token, f: Flags)
    requires f.newlines && t.LineEnd? && Stands(v, i, t)
    ensures i < |v| && Next(v, i, f) == Piece(i + |t.written|, [LF])
  {
    AtIndex(v, i, t.written, 0);
    var rest := v[i + |t.written|..];
    assert Ch(rest, 0) == Ch(v, i + |t.written|);
    if |t.written| == 2 { AtIndex(v, i, t.written, 1); }
  }

  /** The first token of a value and the rest of it. */
  lemma TokenShape(v: string, i: nat, ts: seq<Token>)
    requires ts != [] && Written(ts) && i <= |v| && v[i..] == SourceAll(ts)
    ensures Stands(v, i, ts[0]) && Written(ts[1..]) && v[i + |ts[0].Source()|..] == SourceAll(ts[1..])
  {
    hide At, Token.Source, Token.Valid, Token.Before;
    var w, n := ts[0].Source(), i + |ts[0].Source()|;
    assert v[i..] == w + SourceAll(ts[1..]);
    assert v[i..][..|w|] == w == v[i..n] && v[n..] == v[i..][|w|..] == SourceAll(ts[1..]);
    AtSlice(v, i, w);
  }

  /** The first token of a value is read by one round of the decode loop. */
  lemma TokenStep(v: string, i: nat, ts: seq<Token>, f: Flags)
    requires f.entities && f.newlines && ts != [] && Written(ts) && i <= |v| && v[i..] == SourceAll(ts)
    ensures ts[0].Valid() && i < |v| && i + |ts[0].Source()| <= |v| && Written(ts[1..])
    ensures Next(v, i, f) == Piece(i + |ts[0].Source()|, ts[0].Text())
    ensures v[i + |ts[0].Source()|..] == SourceAll(ts[1..])
  {
    hide Next, FindEntity, GetCharacterRef, At, SourceAll, Value, ConvertUTF32ToUTF8, Written, Token.Before;
    TokenShape(v, i, ts);
    var t := ts[0];
    match t
    case Literal(_) => LiteralStep(v, i, t.c, f);
    case Named(k) => NamedStep(v, i, k, f);
    case Reference(_, _, _) => ReferenceStep(v, i, t, f);
    case LineEnd(_) => LineEndRead(v, i, t, f);
    case _ => StrayStep(v, i, t, f);
  }

  lemma LiteralStep(v: string, i: nat, c: char, f: Flags)
    requires At(v, i, [c]) && Literal(c).Valid()
    ensures i < |v| && Next(v, i, f) == Piece(i + 1, [c])
  {
    AtIndex(v, i, [c], 0);
  }

  // ---- whole values ---------------------------------------------------------------------

  lemma {:induction false} TokensDecode(v: string, i: nat, ts: seq<Token>, out: string, f: Flags)
    requires f.entities && f.newlines && Written(ts) && |out| <= i <= |v| && v[i..] == SourceAll(ts)
    ensures DecodeFrom(v, i, out, f) == out + TextAll(ts)
    decreases |ts|
  {
    hide Next, Token.Source, Token.Text, Token.Valid, Written;
    if ts != [] {
      TokenStep(v, i, ts, f);
      TokensDecode(v, i + |ts[0].Source()|, ts[1..], out + ts[0].Text(), f);
    }
  }

  /** What GetStr yields for a value written as tokens: their texts in a row, up to the first NUL
      that a reference makes, and collapsed where that is asked for. */
  lemma TokensMeaning(ts: seq<Token>, collapse: bool)
    requires Written(ts)
    ensures var t := UpToNul(TextAll(ts));
      Meaning(SourceAll(ts), Flags(true, true, collapse)) == if collapse then Collapse(t) else t
  {
    hide DecodeFrom, UpToNul, Collapse;
    var v := SourceAll(ts);
    assert v[0..] == v && [] + TextAll(ts) == TextAll(ts);
    TokensDecode(v, 0, ts, [], Flags(true, true, collapse));
  }

  /** A reference to a Unicode scalar value stands for the UTF-8 form of that value and no other. */
  lemma ReferenceText(t: Token)
    requires t.Valid() && t.Reference?
    ensures var n := Value(t.digits, t.radix) % UINT; DecodeUtf8(t.Text()) == if IsScalarValue(n) then Some(n) else None
  {
    Utf8RoundTrip(Value(t.digits, t.radix) % UINT);
  }

  // ---- reading a value as tokens -----------------------------------------------------------

  /** Every ampersand starts a known entity or stands before '#', and no decimal reference is to a number of
      more than 32 bits. */
  ghost predicate AmpersandsMeant(v: string) {
    forall i | 0 <= i < |v| && v[i] == '&' ::
      FindEntity(v, i, 0).Some? || (Ch(v, i + 1) == '#' && ReferencesFit(v, i))
  }

  ghost predicate ReferencesFit(v: string, i: nat) {
    forall first: nat, semi: nat :: IsCharRef(v, i, 10, first, semi) ==> Value(v[first..semi], 10) < UINT
  }

  lemma NamedAt(v: string, i: nat, k: nat)
    requires k < |ENTITIES| && i < |v| && v[i] == '&' && EntityAt(v, i, ENTITIES[k])
    ensures At(v, i, Named(k).Source())
  {
    hide At;
    var w := ENTITIES[k].pattern;
    assert At(v, i, ['&']) by { AtSlice(v, i, ['&']); }
    assert At(v, i + 1 + |w|, [';']) by { AtSlice(v, i + 1 + |w|, [';']); }
    AtSplit3(v, i, ['&'], w, [';']);
  }

  lemma LineEndAt(v: string, i: nat) returns (t: Token)
    requires i < |v| && (v[i] == CR || v[i] == LF)
    ensures Stands(v, i, t)
  {
    var other := if v[i] == CR then LF else CR;
    t := LineEnd(if Ch(v, i + 1) == other then [v[i], other] else [v[i]]);
    assert Ch(v[i + 1..], 0) == Ch(v, i + 1);
  }

  lemma ReferenceAt(v: string, i: nat, radix: nat, first: nat, semi: nat) returns (t: Token)
    requires IsCharRef(v, i, radix, first, semi) && (radix == 10 ==> Value(v[first..semi], 10) < UINT) && NUL !in v
    ensures Stands(v, i, t)
  {
    hide Value, AllDigits, Token.Valid, At;
    var f := FirstDigit(i, radix);
    t := Reference(radix, v[f..first], v[first..semi]);
    ReferenceValid(v, i, t, f, first, semi);
    ReferenceSource(v, i, t, f, first, semi);
  }

  lemma ReferenceValid(v: string, i: nat, t: Token, f: nat, first: nat, semi: nat)
    requires t.Reference? && IsCharRef(v, i, t.radix, first, semi) && f == FirstDigit(i, t.radix) && NUL !in v
    requires t.skipped == v[f..first] && t.digits == v[first..semi] && (t.radix == 10 ==> Value(t.digits, 10) < UINT)
    ensures t.Valid()
  {
    hide Value, AllDigits, At;
    SkippedValid(v, f, first, semi);
    assert f < first ==> v[f..first][0] == v[f];
  }

  lemma ReferenceSource(v: string, i: nat, t: Token, f: nat, first: nat, semi: nat)
    requires t.Reference? && IsCharRef(v, i, t.radix, first, semi) && f == FirstDigit(i, t.radix)
    requires t.Valid() && t.skipped == v[f..first] && t.digits == v[first..semi]
    ensures At(v, i, t.Source())
  {
    hide Value, AllDigits, Token.Valid, At;
    var w := if t.radix == 16 then "&#x" else "&#";
    assert t.Source() == w + t.skipped + (t.digits + ";");
    AtSlice(v, f, t.skipped);
    AtSlice(v, first, t.digits);
    assert v[semi..semi + 1] == ";";
    AtSlice(v, semi, ";");
    AtSplit(v, first, t.digits, ";");
    AtSplit3(v, i, w, t.skipped, t.digits + ";");
  }

  lemma SkippedValid(v: string, f: nat, first: nat, semi: nat)
    requires f <= first <= semi < |v| && NUL !in v && forall k | f <= k < semi :: v[k] != ';'
    ensures ';' !in v[f..first] && NUL !in v[f..first]
    ensures f < first ==> v[f..first][first - f - 1] == v[first - 1]
  {
    assert forall c | c in v[f..first] :: c in v;
  }

  lemma StrayAt(v: string, i: nat) returns (t: Token)
    requires i + 1 < |v| && v[i] == '&' && v[i + 1] == '#' && ReferencesFit(v, i) && NUL !in v
    ensures Stands(v, i, t)
  {
    hide IsCharRef, Value;
    if i + 2 == |v| {
      t := Dropped;
      assert v[i + 1..] == "#";
    } else if radix: nat, first: nat, semi: nat :| IsCharRef(v, i, radix, first, semi) {
      t := ReferenceAt(v, i, radix, first, semi);
    } else {
      t := Kept;
      assert v[i..] == "&" + v[i + 1..];
      assert NoReferenceAt(v, i);
      ReferenceShift(v, i);
    }
  }

  lemma FirstToken(v: string, i: nat) returns (t: Token)
    requires i < |v| && NUL !in v && AmpersandsMeant(v)
    ensures Stands(v, i, t)
  {
    hide FindEntity, At, EntityAt, Value, AllDigits, ReferencesFit, NoReferenceAt;
    assert v[i] in v;
    if v[i] == '&' {
      if FindEntity(v, i, 0).Some? {
        var k :| 0 <= k < |ENTITIES| && ENTITIES[k] == FindEntity(v, i, 0).value;
        t := Named(k);
        NamedAt(v, i, k);
      } else {
        t := StrayAt(v, i);
      }
    } else if v[i] == CR || v[i] == LF {
      t := LineEndAt(v, i);
    } else {
      t := Literal(v[i]);
      AtSlice(v, i, [v[i]]);
    }
  }

  /** Every such value is written as tokens, so TokensMeaning says what it yields. */
  lemma {:induction false} Tokenise(v: string, i: nat) returns (ts: seq<Token>)
    requires i <= |v| && NUL !in v && AmpersandsMeant(v)
    ensures Written(ts) && SourceAll(ts) == v[i..]
    decreases |v| - i
  {
    hide AmpersandsMeant, Token.Valid, Token.Source, Token.Before;
    if i == |v| {
      ts := [];
    } else {
      var t := FirstToken(v, i);
      var n := i + |t.Source()|;
      var rest := Tokenise(v, n);
      ts := [t] + rest;
      AtSlice(v, i, t.Source());
      assert ts[1..] == rest && v[i..] == v[i..n] + v[n..];
    }
  }

  /** So what GetStr yields is determined for every value without a stray ampersand. */
  lemma ValueMeaning(v: string, collapse: bool) returns (ts: seq<Token>)
    requires NUL !in v && AmpersandsMeant(v)
    ensures Written(ts) && SourceAll(ts) == v
    ensures var t := UpToNul(TextAll(ts));
      Meaning(v, Flags(true, true, collapse)) == if collapse then Collapse(t) else t
  {
    hide AmpersandsMeant, Meaning, SourceAll, TextAll, Written, Collapse;
    ts := Tokenise(v, 0);
    assert v[0..] == v;
    TokensMeaning(ts, collapse);
  }

  // ---- references that make NUL, CR or blanks ---------------------------------------------

  /** The tokens before the first reference to 0. */
  function BeforeNul(ts: seq<Token>): (r: seq<Token>)
    requires forall t | t in ts :: t.Valid()
    ensures forall t | t in r :: t in ts
  {
    if ts == [] || ts[0].RefersTo(0) then [] else [ts[0]] + BeforeNul(ts[1..])
  }

  lemma TokenCharacters(t: Token)
    requires t.Valid()
    ensures if t.RefersTo(0) then t.Text() == [NUL] else NUL !in t.Text()
    ensures CR in t.Text() <==> t.RefersTo(13)
  {
    hide Value;
  }

  /** A reference to 0 ends the C string. */
  lemma {:induction false} TextBeforeNul(ts: seq<Token>)
    requires forall t | t in ts :: t.Valid()
    ensures UpToNul(TextAll(ts)) == TextAll(BeforeNul(ts))
  {
    hide Token.Text, Token.Valid, Token.RefersTo;
    if ts != [] {
      TokenCharacters(ts[0]);
      var w, rest := ts[0].Text(), TextAll(ts[1..]);
      if !ts[0].RefersTo(0) {
        TextBeforeNul(ts[1..]);
        UpToNulUnique(w + rest, w + UpToNul(rest));
        assert BeforeNul(ts)[0] == ts[0] && BeforeNul(ts)[1..] == BeforeNul(ts[1..]);
      }
    }
  }

  lemma {:induction false} TextAllHas(ts: seq<Token>, c: char)
    requires forall t | t in ts :: t.Valid()
    ensures c in TextAll(ts) <==> exists t :: t in ts && c in t.Text()
  {
    hide Token.Text, Token.Valid;
    if ts != [] {
      TextAllHas(ts[1..], c);
      assert ts == [ts[0]] + ts[1..];
      assert ts[0] in ts;
    }
  }

  /** A value without a stray ampersand decodes to a string with a CR exactly when it refers to
      character 13, before any reference to 0. */
  lemma CarriageReturns(ts: seq<Token>)
    requires Written(ts)
    ensures CR in Meaning(SourceAll(ts), Flags(true, true, false)) <==>
      exists t :: t in BeforeNul(ts) && t.Valid() && t.RefersTo(13)
  {
    hide Meaning, TextAll, SourceAll, Token.Text, Token.Valid, Token.RefersTo, BeforeNul;
    TokensMeaning(ts, false);
    TextBeforeNul(ts);
    var kept := BeforeNul(ts);
    TextAllHas(kept, CR);
    forall t | t in kept ensures t.Valid() && (CR in t.Text() <==> t.RefersTo(13)) {
      TokenCharacters(t);
    }
  }

  /** It decodes to blanks exactly when each of those tokens stands for blanks. */
  lemma Blanks(ts: seq<Token>)
    requires Written(ts)
    ensures IsBlank(Meaning(SourceAll(ts), Flags(true, true, false)))
       <==> forall t | t in BeforeNul(ts) :: t.Valid() && IsBlank(t.Text())
  {
    hide Meaning, TextAll, SourceAll, Token.Text, Token.Valid, Token.RefersTo, BeforeNul, IsWhiteSpace;
    TokensMeaning(ts, false);
    TextBeforeNul(ts);
    var kept := BeforeNul(ts);
    assert forall t | t in kept :: t.Valid();
    forall c ensures c in TextAll(kept) <==> exists t :: t in kept && c in t.Text() {
      TextAllHas(kept, c);
    }
  }
}
