/** Numbers as they are spelled with digits, by their place in the alphabet of digits, and what a
    character reference that spells a number stands for. */
module Spelling {
  import opened XmlUtil
  import opened CharacterRef
  import opened Decode
  import opened Tokens

  const SMALL := "0123456789abcdef"
  const LARGE := "0123456789ABCDEF"

  /** w spells n: its last digit is n's last one, small or large, and what is before it spells the rest.
      Nothing spells 0, so any number of zeros may come first. */
  ghost predicate Spells(w: string, n: nat, radix: nat)
    requires radix == 10 || radix == 16
    decreases |w|
  {
    if w == "" then n == 0
    else
      var last := w[|w| - 1];
      (last == SMALL[n % radix] || last == LARGE[n % radix]) && Spells(w[..|w| - 1], n / radix, radix)
  }

  /** The shortest spelling of n in one of the two alphabets. */
  function Spelled(n: nat, radix: nat, digits: string): (w: string)
    requires (radix == 10 || radix == 16) && |digits| == 16
    ensures w != ""
  {
    if n < radix then [digits[n]] else Spelled(n / radix, radix, digits) + [digits[n % radix]]
  }

  function Zeros(k: nat): (w: string)
    ensures |w| == k && forall c | c in w :: c == '0'
  {
    seq(k, _ => '0')
  }

  /** The digit of a character is its place in the alphabet. */
  lemma DigitIsPlace(c: char, radix: nat, d: nat)
    requires (radix == 10 || radix == 16) && d < radix
    ensures Digit(c, radix) == Some(d) <==> c == SMALL[d] || c == LARGE[d]
  {
    assert SMALL[d] == if d < 10 then (48 + d) as char else (87 + d) as char;
    assert LARGE[d] == if d < 10 then (48 + d) as char else (55 + d) as char;
  }

  lemma DigitSmall(c: char, radix: nat)
    requires radix == 10 || radix == 16
    ensures Digit(c, radix).Some? ==> Digit(c, radix).value < radix
  {
  }

  /** The positional value of digits is the number they spell, and nothing but digits spells one. */
  lemma {:induction false} ValueSpelled(w: string, n: nat, radix: nat)
    requires radix == 10 || radix == 16
    ensures Spells(w, n, radix) <==> AllDigits(w, radix) && Value(w, radix) == n
    decreases |w|
  {
    hide Digit;
    if w != "" {
      var front, last := w[..|w| - 1], w[|w| - 1];
      assert w == front + [last];
      ValueSpelled(front, n / radix, radix);
      DigitIsPlace(last, radix, n % radix);
      DigitSmall(last, radix);
      assert AllDigits(w, radix) <==> AllDigits(front, radix) && Digit(last, radix).Some?;
      if AllDigits(w, radix) {
        LastDigit(radix, Value(front, radix), Digit(last, radix).value, n);
      }
    }
  }

  lemma LastDigit(radix: nat, rest: nat, d: nat, n: nat)
    requires (radix == 10 || radix == 16) && d < radix
    ensures radix * rest + d == n <==> rest == n / radix && d == n % radix
  {
  }

  /** Both alphabets spell n, with any number of zeros in front. */
  lemma {:induction false} SpelledSpells(n: nat, radix: nat, k: nat, digits: string)
    requires (radix == 10 || radix == 16) && (digits == SMALL || digits == LARGE)
    ensures Spells(Zeros(k) + Spelled(n, radix, digits), n, radix)
    decreases n
  {
    hide Spells, SMALL, LARGE, Spelled, Zeros;
    if n < radix {
      OneDigit(n, radix, k, digits);
      ZerosSpell(Zeros(k), radix);
      OneMoreDigit(Zeros(k), n, radix, digits);
    } else {
      MoreDigits(n, radix, k, digits);
      SpelledSpells(n / radix, radix, k, digits);
      OneMoreDigit(Zeros(k) + Spelled(n / radix, radix, digits), n, radix, digits);
    }
  }

  lemma OneDigit(n: nat, radix: nat, k: nat, digits: string)
    requires (radix == 10 || radix == 16) && (digits == SMALL || digits == LARGE) && n < radix
    ensures |digits| == 16 && n / radix == 0 && Zeros(k) + Spelled(n, radix, digits) == Zeros(k) + [digits[n % radix]]
  {
  }

  lemma MoreDigits(n: nat, radix: nat, k: nat, digits: string)
    requires (radix == 10 || radix == 16) && (digits == SMALL || digits == LARGE) && n >= radix
    ensures |digits| == 16 && n / radix < n
    ensures Zeros(k) + Spelled(n, radix, digits)
         == Zeros(k) + Spelled(n / radix, radix, digits) + [digits[n % radix]]
  {
    hide Zeros;
  }

  lemma OneMoreDigit(front: string, n: nat, radix: nat, digits: string)
    requires (radix == 10 || radix == 16) && (digits == SMALL || digits == LARGE)
    requires Spells(front, n / radix, radix)
    ensures |digits| == 16 && Spells(front + [digits[n % radix]], n, radix)
  {
    var w := front + [digits[n % radix]];
    assert w[..|w| - 1] == front;
  }

  lemma {:induction false} ZerosSpell(w: string, radix: nat)
    requires (radix == 10 || radix == 16) && forall c | c in w :: c == '0'
    ensures Spells(w, 0, radix)
    decreases |w|
  {
    if w != "" {
      assert w[|w| - 1] in w && SMALL[0] == '0';
      var front := w[..|w| - 1];
      forall c | c in front ensures c == '0' { assert c in w; }
      ZerosSpell(front, radix);
    }
  }

  /** Whatever spells a number, a reference to it stands for the UTF-8 form of that number modulo 2^32: of
      a hexadecimal number of any length, and of a decimal one that is below 2^32. */
  lemma ReferenceMeaning(w: string, n: nat, hex: bool)
    requires Spells(w, n, if hex then 16 else 10) && (hex || n < 0x1_0000_0000)
    ensures var v, m := Meaning((if hex then "&#x" else "&#") + w + ";", Flags(true, true, false)), n % 0x1_0000_0000;
      && v == UpToNul(ConvertUTF32ToUTF8(m))
      && (0 < m < 0x200000 ==> Utf8Number(v) == Some(m)) && (m == 0 || m >= 0x200000 ==> v == "")
  {
    hide Meaning, Spells, Value, ConvertUTF32ToUTF8, AllDigits, Utf8Number;
    var radix := if hex then 16 else 10;
    ValueSpelled(w, n, radix);
    var t := Reference(radix, "", w);
    OneToken(t);
    Utf8RoundTrip(n % UINT);
    TokenCharacters(t);
    assert t.Source() == (if hex then "&#x" else "&#") + w + ";";
    if n % UINT == 0 {
      UpToNulUnique(t.Text(), "");
    } else {
      UpToNulUnique(t.Text(), t.Text());
    }
  }

  /** A value of one token. */
  lemma OneToken(t: Token)
    requires t.Valid() && t.Before("")
    ensures Meaning(t.Source(), Flags(true, true, false)) == UpToNul(t.Text())
  {
    hide Meaning, Token.Valid, Token.Text, Token.Source;
    assert [t][1..] == [] && SourceAll([]) == "";
    assert SourceAll([t]) == t.Source() + [] == t.Source();
    assert TextAll([t]) == t.Text() + [] == t.Text();
    TokensMeaning([t], false);
  }

  /** In particular the decimal spelling and both hexadecimal ones. */
  lemma SpelledMeaning(n: nat, k: nat)
    requires n < 0x1_0000_0000
    ensures var f := Flags(true, true, false); var bytes := UpToNul(ConvertUTF32ToUTF8(n));
      && Meaning("&#" + (Zeros(k) + Spelled(n, 10, SMALL)) + ";", f) == bytes
      && Meaning("&#x" + (Zeros(k) + Spelled(n, 16, SMALL)) + ";", f) == bytes
      && Meaning("&#x" + (Zeros(k) + Spelled(n, 16, LARGE)) + ";", f) == bytes
  {
    hide Meaning, Spells, ConvertUTF32ToUTF8, Spelled;
    SpelledSpells(n, 10, k, SMALL);
    SpelledSpells(n, 16, k, SMALL);
    SpelledSpells(n, 16, k, LARGE);
    ReferenceMeaning(Zeros(k) + Spelled(n, 10, SMALL), n, false);
    ReferenceMeaning(Zeros(k) + Spelled(n, 16, SMALL), n, true);
    ReferenceMeaning(Zeros(k) + Spelled(n, 16, LARGE), n, true);
  }

  // ---- named entities --------------------------------------------------------------------

  const NAMES: map<string, char> := map["quot" := '"', "amp" := '&', "apos" := '\'', "lt" := '<', "gt" := '>']

  /** The five names of XML 1.0 section 4.6. */
  lemma NamedMeaning(name: string)
    requires name in NAMES
    ensures Meaning("&" + name + ";", Flags(true, true, false)) == [NAMES[name]]
  {
    hide Meaning;
    var k := if name == "quot" then 0 else if name == "amp" then 1 else if name == "apos" then 2
             else if name == "lt" then 3 else 4;
    var t := Named(k);
    assert ENTITIES[k].pattern == name && ENTITIES[k].value == NAMES[name];
    OneToken(t);
    UpToNulUnique([NAMES[name]], [NAMES[name]]);
  }
}
