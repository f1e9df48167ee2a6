/** Numeric character references (XML 1.0 section 4.1) and the UTF-8 bytes they stand for
    (RFC 3629 section 3). A value `v` is the NUL-free content of a C string; reading one past its
    end yields the NUL that terminates it. */
module CharacterRef {
  import opened XmlUtil

  /** The character a C program sees at offset i of the value. */
  function Ch(v: string, i: nat): char {
    if i < |v| then v[i] else NUL
  }

  // ---- UTF-8 -------------------------------------------------------------

  function Utf8Length(ucs: nat): nat {
    if ucs < 0x80 then 1
    else if ucs < 0x800 then 2
    else if ucs < 0x10000 then 3
    else if ucs < 0x200000 then 4
    else 0
  }

  /** (x | 0x80) & 0xBF: the low six bits of x under the continuation marker. */
  function Continuation(x: nat): char {
    (0x80 + x % 0x40) as char
  }

  /** The bytes ConvertUTF32ToUTF8 stores; none above 0x1FFFFF. */
  function ConvertUTF32ToUTF8(ucs: nat): (bytes: string)
    ensures |bytes| == Utf8Length(ucs) <= 4
    ensures forall c | c in bytes :: c as int < 256
  {
    match Utf8Length(ucs)
    case 1 => [ucs as char]
    case 2 => [(0xC0 + ucs / 0x40) as char, Continuation(ucs)]
    case 3 => [(0xE0 + ucs / 0x1000) as char, Continuation(ucs / 0x40), Continuation(ucs)]
    case 4 => [(0xF0 + ucs / 0x40000) as char, Continuation(ucs / 0x1000), Continuation(ucs / 0x40), Continuation(ucs)]
    case _ => []
  }

  predicate IsScalarValue(ucs: nat) {
    ucs < 0xD800 || 0xE000 <= ucs < 0x110000
  }

  predicate IsTail(c: char) {
    0x80 <= c as int < 0xC0
  }

  function Six(c: char): nat {
    c as int % 0x40
  }

  /** The number that one sequence of up to four bytes stands for, in its shortest form only. */
  function Utf8Number(b: string): Option<nat> {
    if |b| == 1 && b[0] as int < 0x80 then Some(b[0] as int)
    else if |b| == 2 && 0xC2 <= b[0] as int < 0xE0 && IsTail(b[1]) then
      Some((b[0] as int - 0xC0) * 0x40 + Six(b[1]))
    else if |b| == 3 && 0xE0 <= b[0] as int < 0xF0 && IsTail(b[1]) && IsTail(b[2]) then
      var u := (b[0] as int - 0xE0) * 0x1000 + Six(b[1]) * 0x40 + Six(b[2]);
      if 0x800 <= u then Some(u) else None
    else if |b| == 4 && 0xF0 <= b[0] as int < 0xF8 && IsTail(b[1]) && IsTail(b[2]) && IsTail(b[3]) then
      var u := (b[0] as int - 0xF0) * 0x40000 + Six(b[1]) * 0x1000 + Six(b[2]) * 0x40 + Six(b[3]);
      if 0x10000 <= u then Some(u) else None
    else None
  }

  /** A strict decoder of UTF-8: scalar values only. */
  function DecodeUtf8(b: string): Option<nat> {
    var u := Utf8Number(b);
    if u.Some? && IsScalarValue(u.value) then u else None
  }

  lemma SixOfContinuation(x: nat)
    ensures Six(Continuation(x)) == x % 0x40 && IsTail(Continuation(x))
  {
  }

  /** The encoder produces the sequence of every number below 0x200000, and nothing for others. That is
      well-formed UTF-8 exactly for the scalar values; surrogates and numbers above 0x10FFFF no strict
      decoder takes back. */
  lemma Utf8RoundTrip(ucs: nat)
    ensures Utf8Number(ConvertUTF32ToUTF8(ucs)) == if ucs < 0x200000 then Some(ucs) else None
    ensures ucs >= 0x200000 ==> ConvertUTF32ToUTF8(ucs) == ""
    ensures DecodeUtf8(ConvertUTF32ToUTF8(ucs)) == if IsScalarValue(ucs) then Some(ucs) else None
  {
    SixOfContinuation(ucs);
    SixOfContinuation(ucs / 0x40);
    SixOfContinuation(ucs / 0x1000);
    hide Continuation, Six, IsTail;
    match Utf8Length(ucs)
    case 2 => TwoBytes(ucs);
    case 3 => ThreeBytes(ucs);
    case 4 => FourBytes(ucs);
    case _ =>
  }

  lemma TwoBytes(ucs: nat)
    requires 0x80 <= ucs < 0x800
    ensures 0xC2 <= 0xC0 + ucs / 0x40 < 0xE0 && ucs / 0x40 * 0x40 + ucs % 0x40 == ucs
  {
  }

  lemma ThreeBytes(ucs: nat)
    requires 0x800 <= ucs < 0x10000
    ensures 0xE0 <= 0xE0 + ucs / 0x1000 < 0xF0
    ensures ucs / 0x1000 * 0x1000 + ucs / 0x40 % 0x40 * 0x40 + ucs % 0x40 == ucs
  {
    assert ucs / 0x1000 == ucs / 0x40 / 0x40;
  }

  lemma FourBytes(ucs: nat)
    requires 0x10000 <= ucs < 0x200000
    ensures 0xF0 <= 0xF0 + ucs / 0x40000 < 0xF8
    ensures ucs / 0x40000 * 0x40000 + ucs / 0x1000 % 0x40 * 0x1000 + ucs / 0x40 % 0x40 * 0x40 + ucs % 0x40 == ucs
  {
    assert ucs / 0x1000 == ucs / 0x40 / 0x40 && ucs / 0x40000 == ucs / 0x1000 / 0x40;
  }

  // ---- digits ------------------------------------------------------------

  const UINT := 0x1_0000_0000
  const ULONG := 0x1_0000_0000_0000_0000

  function Digit(c: char, radix: nat): Option<nat>
    requires radix == 10 || radix == 16
  {
    if '0' <= c <= '9' then Some(c as int - '0' as int)
    else if radix == 16 && 'a' <= c <= 'f' then Some(c as int - 'a' as int + 10)
    else if radix == 16 && 'A' <= c <= 'F' then Some(c as int - 'A' as int + 10)
    else None
  }

  /** The character that ends the backward scan: 'x' of "&#x", '#' of "&#". */
  function Stop(radix: nat): char {
    if radix == 16 then 'x' else '#'
  }

  /** The backward digit loop from q down to the nearest stop character, with the C widths:
      the multiplier and each scaled digit wrap at 32 bits, the sum at 64. */
  function Scan(v: string, lo: nat, q: nat, radix: nat, mult: nat, ucs: nat): Option<nat>
    requires radix == 10 || radix == 16
    requires lo <= q < |v| && v[lo] == Stop(radix)
    decreases q
  {
    if v[q] == Stop(radix) then Some(ucs)
    else match Digit(v[q], radix)
      case None => None
      case Some(d) =>
        Scan(v, lo, q - 1, radix, mult * radix % UINT, (ucs + mult * d % UINT) % ULONG)
  }

  function FindSemicolon(v: string, i: nat): (r: Option<nat>)
    requires i <= |v|
    ensures r.Some? ==> i <= r.value < |v| && v[r.value] == ';'
    ensures r.Some? ==> forall k | i <= k < r.value :: v[k] != ';'
    ensures r.None? ==> forall k | i <= k < |v| :: v[k] != ';'
    decreases |v| - i
  {
    if i == |v| then None else if v[i] == ';' then Some(i) else FindSemicolon(v, i + 1)
  }

  /** `None` for a null return; otherwise where reading goes on and what was stored. */
  datatype Ref = NoRef | Ref(next: nat, bytes: string)

  /** XMLUtil::GetCharacterRef at the '&' of "&#". */
  function GetCharacterRef(v: string, i: nat): (r: Ref)
    requires i + 1 < |v| && v[i] == '&' && v[i + 1] == '#'
    ensures r.Ref? ==> i < r.next <= |v| && |r.bytes| <= r.next - i
  {
    if i + 2 == |v| then Ref(i + 1, [])
    else
      var radix := if v[i + 2] == 'x' then 16 else 10;
      var first := if radix == 16 then i + 3 else i + 2;
      if first == |v| then NoRef
      else match FindSemicolon(v, first)
        case None => NoRef
        case Some(semi) =>
          match Scan(v, first - 1, semi - 1, radix, 1, 0)
          case None => NoRef
          case Some(ucs) =>
            ScanOneDigit(v, first - 1, semi - 1, radix, 1, 0);
            Ref(semi + 1, ConvertUTF32ToUTF8(ucs))
  }

  /** With no digits at all ("&#;" or "&#x;") the number is 0, so even the shortest reference is
      at least as long as what it decodes to. */
  lemma ScanOneDigit(v: string, lo: nat, q: nat, radix: nat, mult: nat, ucs: nat)
    requires radix == 10 || radix == 16
    requires lo <= q < |v| && v[lo] == Stop(radix)
    ensures lo == q ==> Scan(v, lo, q, radix, mult, ucs) == Some(ucs)
  {
  }

  // ---- the number a reference spells ------------------------------------

  predicate AllDigits(ds: string, radix: nat)
    requires radix == 10 || radix == 16
  {
    forall c | c in ds :: Digit(c, radix).Some?
  }

  /** The ordinary positional value of a digit string, most significant digit first. */
  function Value(ds: string, radix: nat): nat
    requires radix == 10 || radix == 16
    requires AllDigits(ds, radix)
  {
    if ds == [] then 0
    else radix * Value(ds[..|ds| - 1], radix) + Digit(ds[|ds| - 1], radix).value
  }

  /** The wrapping scan is exact whenever the number fits in 32 bits, whatever zeros lead it. */
  lemma {:induction false} ScanExact(v: string, lo: nat, q: nat, ds: string, radix: nat, weight: nat, ucs: nat)
    requires radix == 10 || radix == 16
    requires lo <= q < |v| && v[lo] == Stop(radix)
    requires ds == v[lo + 1..q + 1] && AllDigits(ds, radix)
    requires ucs + weight * Value(ds, radix) < UINT
    ensures Scan(v, lo, q, radix, weight % UINT, ucs) == Some(ucs + weight * Value(ds, radix))
    decreases q
  {
    hide Value, AllDigits;
    if q > lo {
      var pre := v[lo + 1..q];
      assert ds == pre + [v[q]];
      var d := DigitOfLast(ds, pre, v[q], radix);
      DigitStep(weight, radix, Value(pre, radix), d, ucs);
      ScanExact(v, lo, q - 1, pre, radix, weight * radix, ucs + weight * d);
    } else {
      NoDigits(ds, radix, weight);
    }
  }

  lemma NoDigits(ds: string, radix: nat, weight: nat)
    requires (radix == 10 || radix == 16) && ds == ""
    ensures AllDigits(ds, radix) && Value(ds, radix) == 0 && weight * Value(ds, radix) == 0
  {
  }

  lemma DigitOfLast(ds: string, pre: string, c: char, radix: nat) returns (d: nat)
    requires radix == 10 || radix == 16
    requires ds == pre + [c] && AllDigits(ds, radix)
    ensures AllDigits(pre, radix) && c != Stop(radix) && Digit(c, radix) == Some(d)
    ensures Value(ds, radix) == radix * Value(pre, radix) + d
  {
    assert c in ds && ds[..|ds| - 1] == pre;
    forall x | x in pre ensures Digit(x, radix).Some? { assert x in ds; }
    d := Digit(c, radix).value;
  }

  /** One round of the scan neither wraps nor changes the running total. */
  lemma DigitStep(weight: nat, radix: nat, rest: nat, d: nat, ucs: nat)
    requires ucs + weight * (radix * rest + d) < UINT
    ensures (weight % UINT) * radix % UINT == weight * radix % UINT
    ensures (weight % UINT) * d % UINT == weight * d
    ensures (ucs + weight * d) % ULONG == ucs + weight * d
    ensures (ucs + weight * d) + weight * radix * rest == ucs + weight * (radix * rest + d)
  {
    ModMul(weight, radix);
    ModMul(weight, d);
    assert weight * (radix * rest + d) == weight * radix * rest + weight * d;
    assert weight * radix * rest >= 0 && weight * d >= 0;
  }

  lemma ModMul(a: nat, b: nat)
    ensures (a % UINT) * b % UINT == a * b % UINT
  {
    var k := a / UINT;
    assert a * b == (a % UINT) * b + (k * b) * UINT;
    ModShift((a % UINT) * b, k * b);
  }

  lemma ModShift(x: nat, k: nat)
    ensures (x + k * UINT) % UINT == x % UINT
  {
  }

  lemma {:induction false} FindSemicolonUnique(v: string, i: nat, semi: nat)
    requires i <= semi < |v| && v[semi] == ';'
    requires forall k | i <= k < semi :: v[k] != ';'
    ensures FindSemicolon(v, i) == Some(semi)
    decreases semi - i
  {
    if i < semi {
      FindSemicolonUnique(v, i + 1, semi);
    }
  }

  /** Where the digits of a reference start: after "&#" or after "&#x". */
  function FirstDigit(i: nat, radix: nat): nat {
    if radix == 16 then i + 3 else i + 2
  }

  /** A character reference as the code takes one. XML 1.0 section 4.1 has "&#", digits, ";" and "&#x",
      hex digits, ";"; here the digits need not be there, and are looked for from the semicolon
      backwards, so that anything may stand before another '#' or 'x' in front of them. */
  ghost predicate IsCharRef(v: string, i: nat, radix: nat, first: nat, semi: nat) {
    && (radix == 10 || radix == 16)
    && At(v, i, if radix == 16 then "&#x" else "&#") && (radix == 10 ==> Ch(v, i + 2) != 'x')
    && FirstDigit(i, radix) <= first <= semi < |v| && v[semi] == ';' && v[first - 1] == Stop(radix)
    && (forall k | FirstDigit(i, radix) <= k < semi :: v[k] != ';')
    && AllDigits(v[first..semi], radix)
  }

  /** The scan does not depend on how far it may go. */
  lemma {:induction false} ScanSame(v: string, lo: nat, lo': nat, q: nat, radix: nat, mult: nat, ucs: nat)
    requires radix == 10 || radix == 16
    requires lo <= lo' <= q < |v| && v[lo] == Stop(radix) && v[lo'] == Stop(radix)
    ensures Scan(v, lo, q, radix, mult, ucs) == Scan(v, lo', q, radix, mult, ucs)
    decreases q
  {
    if v[q] != Stop(radix) && Digit(v[q], radix).Some? {
      var d := Digit(v[q], radix).value;
      ScanSame(v, lo, lo', q - 1, radix, mult * radix % UINT, (ucs + mult * d % UINT) % ULONG);
    }
  }

  /** A scan that succeeds has found the digits behind the last stop character. */
  lemma {:induction false} ScanFinds(v: string, lo: nat, q: nat, radix: nat, mult: nat, ucs: nat) returns (first: nat)
    requires radix == 10 || radix == 16
    requires lo <= q < |v| && v[lo] == Stop(radix) && Scan(v, lo, q, radix, mult, ucs).Some?
    ensures lo < first <= q + 1 && v[first - 1] == Stop(radix) && AllDigits(v[first..q + 1], radix)
    decreases q
  {
    if v[q] == Stop(radix) {
      first := q + 1;
    } else {
      var d := Digit(v[q], radix).value;
      first := ScanFinds(v, lo, q - 1, radix, mult * radix % UINT, (ucs + mult * d % UINT) % ULONG);
      assert v[first..q + 1] == v[first..q] + [v[q]];
    }
  }

  lemma ReferenceBelow(v: string, i: nat, radix: nat, first: nat, semi: nat)
    requires IsCharRef(v, i, radix, first, semi)
    requires Value(v[first..semi], radix) < UINT
    ensures v[i] == '&' && i + 1 < |v| && v[i + 1] == '#'
    ensures GetCharacterRef(v, i) == Ref(semi + 1, ConvertUTF32ToUTF8(Value(v[first..semi], radix)))
  {
    hide ConvertUTF32ToUTF8, Scan, FindSemicolon, At;
    RefHead(v, i, radix, first, semi);
    var f := FirstDigit(i, radix);
    FindSemicolonUnique(v, f, semi);
    ScanExact(v, first - 1, semi - 1, v[first..semi], radix, 1, 0);
    ScanSame(v, f - 1, first - 1, semi - 1, radix, 1, 0);
  }

  lemma RefHead(v: string, i: nat, radix: nat, first: nat, semi: nat)
    requires IsCharRef(v, i, radix, first, semi)
    ensures i + 2 < |v| && v[i] == '&' && v[i + 1] == '#' && (v[i + 2] == 'x' <==> radix == 16)
    ensures v[FirstDigit(i, radix) - 1] == Stop(radix)
  {
    var w := if radix == 16 then "&#x" else "&#";
    AtIndex(v, i, w, 0);
    AtIndex(v, i, w, 1);
    AtIndex(v, i, w, |w| - 1);
  }

  ghost predicate NoReferenceAt(v: string, i: nat) {
    forall radix: nat, first: nat, semi: nat :: !IsCharRef(v, i, radix, first, semi)
  }

  /** Where no reference starts, an ampersand before '#' is left alone. */
  lemma NoCharRef(v: string, i: nat)
    requires i + 2 < |v| && v[i] == '&' && v[i + 1] == '#' && NoReferenceAt(v, i)
    ensures GetCharacterRef(v, i) == NoRef
  {
    hide ConvertUTF32ToUTF8, Scan, IsCharRef;
    var r := GetCharacterRef(v, i);
    if r.Ref? {
      var radix, first, semi := ReferenceTaken(v, i);
    }
  }

  /** What the code takes for a reference is one. */
  lemma ReferenceTaken(v: string, i: nat) returns (radix: nat, first: nat, semi: nat)
    requires i + 2 < |v| && v[i] == '&' && v[i + 1] == '#' && GetCharacterRef(v, i).Ref?
    ensures IsCharRef(v, i, radix, first, semi)
  {
    hide ConvertUTF32ToUTF8, Scan, AllDigits;
    radix := if v[i + 2] == 'x' then 16 else 10;
    var f := FirstDigit(i, radix);
    semi := FindSemicolon(v, f).value;
    first := ScanFinds(v, f - 1, semi - 1, radix, 1, 0);
  }

  /** A reference is where it is whatever stands before it. */
  lemma ReferenceShift(v: string, i: nat)
    requires i <= |v|
    ensures NoReferenceAt(v, i) <==> NoReferenceAt(v[i..], 0)
  {
    hide IsCharRef;
    forall radix, first, semi
      ensures IsCharRef(v[i..], 0, radix, first, semi) <==> IsCharRef(v, i, radix, i + first, i + semi)
    {
      ReferenceMoved(v, i, radix, first, semi);
    }
    forall radix: nat, first: nat, semi: nat | IsCharRef(v, i, radix, first, semi) ensures !NoReferenceAt(v[i..], 0) {
      StartsBehind(v, i, radix, first, semi);
      assert IsCharRef(v[i..], 0, radix, first - i, semi - i);
    }
  }

  lemma StartsBehind(v: string, i: nat, radix: nat, first: nat, semi: nat)
    requires IsCharRef(v, i, radix, first, semi)
    ensures i <= first <= semi
  {
  }

  lemma ReferenceMoved(v: string, i: nat, radix: nat, first: nat, semi: nat)
    requires i <= |v|
    ensures IsCharRef(v[i..], 0, radix, first, semi) <==> IsCharRef(v, i, radix, i + first, i + semi)
  {
    hide AllDigits;
    var w := v[i..];
    AtSlice(v, i, if radix == 16 then "&#x" else "&#");
    AtSlice(w, 0, if radix == 16 then "&#x" else "&#");
    if first <= semi < |w| {
      assert w[first..semi] == v[i + first..i + semi];
      assert forall k :: 0 <= k < semi ==> w[k] == v[i + k];
      assert forall k :: i <= k < i + semi ==> v[k] == w[k - i];
    }
  }

  // ---- numbers of more than 32 bits --------------------------------------------------------

  /** Once the multiplier is 0 the digits before do not count. */
  lemma {:induction false} ScanZero(v: string, lo: nat, q: nat, radix: nat, ucs: nat)
    requires radix == 10 || radix == 16
    requires lo <= q < |v| && v[lo] == Stop(radix) && AllDigits(v[lo + 1..q + 1], radix) && ucs < ULONG
    ensures Scan(v, lo, q, radix, 0, ucs) == Some(ucs)
    decreases q
  {
    hide AllDigits, Digit;
    if q > lo {
      var pre := v[lo + 1..q];
      assert v[lo + 1..q + 1] == pre + [v[q]];
      var d := DigitOfLast(v[lo + 1..q + 1], pre, v[q], radix);
      ZeroStep(radix, d, ucs);
      ScanZero(v, lo, q - 1, radix, ucs);
    }
  }

  lemma ZeroStep(radix: nat, d: nat, ucs: nat)
    requires ucs < ULONG
    ensures 0 * radix % UINT == 0 && (ucs + 0 * d % UINT) % ULONG == ucs
  {
  }

  function Power(radix: nat, n: nat): nat {
    if n == 0 then 1 else radix * Power(radix, n - 1)
  }

  /** Part of the way the scan is exact, with the multiplier it has reached. */
  lemma {:induction false} ScanPart(v: string, lo: nat, r: nat, q: nat, ds: string, radix: nat, weight: nat, ucs: nat)
    requires radix == 10 || radix == 16
    requires lo <= r <= q < |v| && v[lo] == Stop(radix)
    requires ds == v[r + 1..q + 1] && AllDigits(ds, radix)
    requires ucs + weight * Value(ds, radix) < UINT
    ensures Scan(v, lo, q, radix, weight % UINT, ucs)
      == Scan(v, lo, r, radix, weight * Power(radix, |ds|) % UINT, ucs + weight * Value(ds, radix))
    decreases q
  {
    hide Power, Value, AllDigits, Digit;
    if q == r {
      PartDone(ds, radix, weight);
    } else {
      var pre := v[r + 1..q];
      assert ds == pre + [v[q]];
      var d := DigitOfLast(ds, pre, v[q], radix);
      DigitStep(weight, radix, Value(pre, radix), d, ucs);
      ScanPart(v, lo, r, q - 1, pre, radix, weight * radix, ucs + weight * d);
      PartStep(weight, radix, |pre|);
    }
  }

  lemma PartDone(ds: string, radix: nat, weight: nat)
    requires (radix == 10 || radix == 16) && ds == ""
    ensures AllDigits(ds, radix) && weight * Power(radix, |ds|) == weight && weight * Value(ds, radix) == 0
  {
    NoDigits(ds, radix, weight);
  }

  lemma PartStep(weight: nat, radix: nat, n: nat)
    ensures weight * radix * Power(radix, n) == weight * Power(radix, n + 1)
  {
    var p := Power(radix, n);
    assert weight * radix * p == weight * (radix * p);
  }

  lemma {:induction false} ValueBound(ds: string, radix: nat)
    requires (radix == 10 || radix == 16) && AllDigits(ds, radix)
    ensures Value(ds, radix) < Power(radix, |ds|)
  {
    if ds != [] {
      var pre := ds[..|ds| - 1];
      var d := DigitOfLast(ds, pre, ds[|ds| - 1], radix);
      ValueBound(pre, radix);
      assert d < radix;
    }
  }

  lemma {:induction false} ValueSplit(before: string, ds: string, radix: nat)
    requires (radix == 10 || radix == 16) && AllDigits(before, radix) && AllDigits(ds, radix)
    ensures AllDigits(before + ds, radix)
    ensures Value(before + ds, radix) == Value(before, radix) * Power(radix, |ds|) + Value(ds, radix)
  {
    if ds == "" {
      assert before + ds == before;
    } else {
      var pre := ds[..|ds| - 1];
      assert ds == pre + [ds[|ds| - 1]] && before + ds == before + pre + [ds[|ds| - 1]];
      var d := DigitOfLast(ds, pre, ds[|ds| - 1], radix);
      ValueSplit(before, pre, radix);
      var d' := DigitOfLast(before + ds, before + pre, ds[|ds| - 1], radix);
      SplitStep(radix, Value(before, radix), Power(radix, |pre|), Value(pre, radix), d);
    }
  }

  lemma SplitStep(radix: nat, high: nat, power: nat, low: nat, d: nat)
    ensures radix * (high * power + low) + d == high * (radix * power) + (radix * low + d)
  {
    assert high * (radix * power) == radix * (high * power);
  }

  /** Of a hexadecimal reference the scan keeps the last eight digits, which are its number modulo 2^32. */
  lemma HexWraps(v: string, i: nat, first: nat, semi: nat)
    requires IsCharRef(v, i, 16, first, semi) && first + 8 <= semi
    ensures v[i] == '&' && i + 1 < |v| && v[i + 1] == '#'
    ensures GetCharacterRef(v, i) == Ref(semi + 1, ConvertUTF32ToUTF8(Value(v[first..semi], 16) % UINT))
  {
    hide ConvertUTF32ToUTF8, Scan, FindSemicolon, At, Value, Power, AllDigits;
    RefHead(v, i, 16, first, semi);
    var f := FirstDigit(i, 16);
    FindSemicolonUnique(v, f, semi);
    ScanSame(v, f - 1, first - 1, semi - 1, 16, 1, 0);
    HexScan(v, first, semi);
  }

  lemma HexScan(v: string, first: nat, semi: nat)
    requires 0 < first && first + 8 <= semi < |v| && v[first - 1] == Stop(16) && AllDigits(v[first..semi], 16)
    ensures Scan(v, first - 1, semi - 1, 16, 1, 0) == Some(Value(v[first..semi], 16) % UINT)
  {
    hide Scan, Value, Power;
    var r := semi - 9;
    var ds, before := v[semi - 8..semi], v[first..semi - 8];
    assert v[first..semi] == before + ds && r + 1 == semi - 8;
    DigitsApart(before, ds);
    HexValue(before, ds);
    ScanPart(v, first - 1, r, semi - 1, ds, 16, 1, 0);
    ScanZero(v, first - 1, r, 16, Value(ds, 16));
  }

  lemma DigitsApart(before: string, ds: string)
    requires AllDigits(before + ds, 16)
    ensures AllDigits(before, 16) && AllDigits(ds, 16)
  {
    assert forall c | c in before :: c in before + ds;
    assert forall c | c in ds :: c in before + ds;
  }

  lemma HexValue(before: string, ds: string)
    requires AllDigits(before, 16) && AllDigits(ds, 16) && |ds| == 8
    ensures AllDigits(before + ds, 16) && Power(16, |ds|) == UINT && Value(ds, 16) < UINT
    ensures Value(before + ds, 16) % UINT == Value(ds, 16)
  {
    hide Value, Power, AllDigits;
    PowerEight();
    ValueBound(ds, 16);
    ValueSplit(before, ds, 16);
    ModShift(Value(ds, 16), Value(before, 16));
  }

  /** A hexadecimal reference and a decimal one to a number below 2^32 become the UTF-8 of that number,
      modulo 2^32, and reading goes on after the semicolon. */
  lemma CharRefMeaning(v: string, i: nat, radix: nat, first: nat, semi: nat)
    requires IsCharRef(v, i, radix, first, semi)
    requires radix == 16 || Value(v[first..semi], radix) < UINT
    ensures v[i] == '&' && i + 1 < |v| && v[i + 1] == '#'
    ensures GetCharacterRef(v, i) == Ref(semi + 1, ConvertUTF32ToUTF8(Value(v[first..semi], radix) % UINT))
  {
    hide ConvertUTF32ToUTF8, Value, Power, AllDigits, At;
    if Value(v[first..semi], radix) < UINT {
      ReferenceBelow(v, i, radix, first, semi);
    } else {
      ValueBound(v[first..semi], 16);
      FewDigits(semi - first);
      HexWraps(v, i, first, semi);
    }
  }

  lemma FewDigits(n: nat)
    ensures n < 8 ==> Power(16, n) <= UINT
  {
    PowerEight();
    if n < 8 { PowerGrows(16, n, 8); }
  }

  lemma {:induction false} PowerGrows(radix: nat, m: nat, n: nat)
    requires m <= n && radix > 0
    ensures 0 < Power(radix, m) <= Power(radix, n)
    decreases n
  {
    if m < n {
      PowerGrows(radix, m, n - 1);
      TimesGrows(radix, Power(radix, n - 1));
    } else if n > 0 {
      PowerGrows(radix, n - 1, n - 1);
      TimesGrows(radix, Power(radix, n - 1));
    }
  }

  lemma TimesGrows(a: nat, b: nat)
    requires a > 0 && b > 0
    ensures 0 < b <= a * b
  {
    assert a * b == b + (a - 1) * b;
  }

  lemma PowerEight()
    ensures Power(16, 8) == UINT
  {
    assert Power(16, 4) == 0x1_0000;
    assert Power(16, 6) == 0x100 * Power(16, 4);
    assert Power(16, 8) == 0x100 * Power(16, 6);
  }

  // ---- the loops, reading the buffer --------------------------------------

  /** The unread part of a range: from offset i on, `b` still holds the value `v` that started at
      `o`, and the NUL that ends it. */
  ghost predicate Unread(b: array<char>, o: nat, i: nat, v: string)
    reads b
  {
    && o + |v| < b.Length && b[o + |v|] == NUL && NUL !in v && i <= |v|
    && forall k | i <= k < |v| :: b[o + k] == v[k]
  }

  /** Reading at offset k: the character of the value, or its terminator and nothing else as NUL. */
  lemma UnreadAt(b: array<char>, o: nat, i: nat, v: string, k: nat)
    requires Unread(b, o, i, v) && i <= k <= |v|
    ensures b[o + k] == Ch(v, k) && (b[o + k] == NUL <==> k == |v|)
  {
    if k < |v| {
      assert v[k] in v;
    }
  }

  method ReadDigits(b: array<char>, o: nat, lo: nat, semi: nat, radix: nat, ghost v: string) returns (ucs: Option<nat>)
    requires radix == 10 || radix == 16
    requires lo < semi < |v| && v[lo] == Stop(radix) && Unread(b, o, lo, v)
    ensures ucs == Scan(v, lo, semi - 1, radix, 1, 0)
  {
    var q, mult: nat, sum: nat := semi - 1, 1, 0;
    while b[o + q] != Stop(radix)
      invariant lo <= q < semi
      invariant Scan(v, lo, q, radix, mult, sum) == Scan(v, lo, semi - 1, radix, 1, 0)
      decreases q
    {
      var digit := Digit(b[o + q], radix);
      if digit.None? {
        return None;
      }
      sum := (sum + mult * digit.value % UINT) % ULONG;
      mult := mult * radix % UINT;
      q := q - 1;
    }
    return Some(sum);
  }

  method FindSemicolonInBuffer(b: array<char>, o: nat, i: nat, ghost v: string) returns (r: Option<nat>)
    requires Unread(b, o, i, v)
    ensures r == FindSemicolon(v, i)
  {
    var q := i;
    while b[o + q] != NUL
      invariant i <= q <= |v| && FindSemicolon(v, i) == FindSemicolon(v, q)
      decreases |v| - q
    {
      assert q < |v|;
      if b[o + q] == ';' {
        return Some(q);
      }
      q := q + 1;
    }
    UnreadAt(b, o, i, v, q);
    return None;
  }

  method ReadCharacterRef(b: array<char>, o: nat, i: nat, ghost v: string) returns (r: Ref)
    requires Unread(b, o, i, v)
    requires i + 1 < |v| && v[i] == '&' && v[i + 1] == '#'
    ensures r == GetCharacterRef(v, i)
  {
    UnreadAt(b, o, i, v, i + 2);
    if b[o + i + 2] == NUL {
      return Ref(i + 1, []);
    }
    var radix := if b[o + i + 2] == 'x' then 16 else 10;
    var first := if radix == 16 then i + 3 else i + 2;
    UnreadAt(b, o, i, v, first);
    if b[o + first] == NUL {
      return NoRef;
    }
    var semi := FindSemicolonInBuffer(b, o, first, v);
    if semi.None? {
      return NoRef;
    }
    var ucs := ReadDigits(b, o, first - 1, semi.value, radix, v);
    if ucs.None? {
      return NoRef;
    }
    return Ref(semi.value + 1, ConvertUTF32ToUTF8(ucs.value));
  }
}
