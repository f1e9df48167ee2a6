/** The string functions of the Boost algorithms that remaken reads its text files with. */
module Text {
  import opened XmlUtil

  /** boost::split on one separator: a piece more than there are separators, empty ones included. */
  function Split(s: string, sep: char): (r: seq<string>)
    ensures r != [] && forall i | 0 <= i < |r| :: sep !in r[i] && forall c | c in r[i] :: c in s
  {
    if s == [] then [""]
    else
      var rest := Split(s[1..], sep);
      assert forall i, c | 0 <= i < |rest| && c in rest[i] :: c in s[1..] && c in s;
      if s[0] == sep then [""] + rest else [[s[0]] + rest[0]] + rest[1..]
  }

  function Join(pieces: seq<string>, sep: char): string
    requires pieces != []
  {
    if |pieces| == 1 then pieces[0] else pieces[0] + [sep] + Join(pieces[1..], sep)
  }

  lemma {:induction false} SplitJoin(pieces: seq<string>, sep: char)
    requires pieces != [] && forall t | t in pieces :: sep !in t
    ensures Split(Join(pieces, sep), sep) == pieces
  {
    if |pieces| == 1 {
      SplitOne(pieces[0], sep);
    } else {
      SplitJoin(pieces[1..], sep);
      SplitAfter(pieces[0], Join(pieces[1..], sep), sep);
    }
  }

  lemma {:induction false} JoinSplit(s: string, sep: char)
    ensures Join(Split(s, sep), sep) == s
  {
    if s != [] {
      var rest := Split(s[1..], sep);
      JoinSplit(s[1..], sep);
      if s[0] == sep {
        assert ([""] + rest)[1..] == rest;
      } else if |rest| > 1 {
        var pieces := [[s[0]] + rest[0]] + rest[1..];
        assert pieces[1..] == rest[1..];
      }
    }
  }

  lemma {:induction false} SplitOne(t: string, sep: char)
    requires sep !in t
    ensures Split(t, sep) == [t]
  {
    if t != [] {
      assert t[0] in t;
      SplitOne(t[1..], sep);
      assert [t[0]] + t[1..] == t;
    }
  }

  lemma {:induction false} SplitAfter(t: string, s: string, sep: char)
    requires sep !in t
    ensures Split(t + [sep] + s, sep) == [t] + Split(s, sep)
  {
    var all := t + [sep] + s;
    if t == [] {
      assert all[1..] == s;
    } else {
      assert t[0] in t;
      assert all[1..] == t[1..] + [sep] + s;
      SplitAfter(t[1..], s, sep);
      assert [t[0]] + t[1..] == t;
    }
  }

  lemma {:induction false} SplitMore(s: string, sep: char)
    requires sep in s
    ensures |Split(s, sep)| >= 2
  {
    if s[0] != sep {
      SplitMore(s[1..], sep);
    }
  }

  function TrimLeft(s: string): (r: string)
    ensures r != [] ==> !IsWhiteSpace(r[0])
    ensures forall c | c in r :: c in s
    ensures s == [] || !IsWhiteSpace(s[0]) ==> r == s
    ensures r != [] ==> s != [] && r[|r| - 1] == s[|s| - 1]
  {
    if s != [] && IsWhiteSpace(s[0]) then TrimLeft(s[1..]) else s
  }

  function TrimRight(s: string): (r: string)
    ensures r != [] ==> !IsWhiteSpace(r[|r| - 1])
    ensures forall c | c in r :: c in s
    ensures s == [] || !IsWhiteSpace(s[|s| - 1]) ==> r == s
    ensures r != [] ==> s != [] && r[0] == s[0]
  {
    if s != [] && IsWhiteSpace(s[|s| - 1]) then TrimRight(s[..|s| - 1]) else s
  }

  /** boost::trim. */
  function Trim(s: string): (r: string)
    ensures IsTrimmed(r)
    ensures forall c | c in r :: c in s
    ensures IsTrimmed(s) ==> r == s
  {
    TrimLeft(TrimRight(s))
  }

  predicate IsTrimmed(s: string) {
    s == [] || (!IsWhiteSpace(s[0]) && !IsWhiteSpace(s[|s| - 1]))
  }

  lemma {:induction false} TrimRightBlanks(w: string, b: string)
    requires IsBlank(b)
    ensures TrimRight(w + b) == TrimRight(w)
    decreases |b|
  {
    if b == "" {
      assert w + b == w;
    } else {
      var all, front := w + b, b[..|b| - 1];
      assert all[|all| - 1] == b[|b| - 1] && b[|b| - 1] in b && all[..|all| - 1] == w + front;
      forall c | c in front ensures IsWhiteSpace(c) { assert c in b; }
      TrimRightBlanks(w, front);
    }
  }

  lemma {:induction false} TrimLeftBlanks(b: string, w: string)
    requires IsBlank(b)
    ensures TrimLeft(b + w) == TrimLeft(w)
  {
    if b == "" {
      assert b + w == w;
    } else {
      assert b[0] in b && (b + w)[1..] == b[1..] + w && forall c | c in b[1..] :: c in b;
      TrimLeftBlanks(b[1..], w);
    }
  }

  /** Trimming takes the blanks around a word, and nothing else. */
  lemma TrimPadded(before: string, word: string, behind: string)
    requires IsBlank(before) && IsTrimmed(word) && IsBlank(behind)
    ensures Trim(before + word + behind) == word
  {
    hide IsBlank, TrimLeft, TrimRight;
    TrimRightBlanks(before + word, behind);
    if word == "" {
      assert before + word == "" + before;
      TrimRightBlanks("", before);
    } else {
      assert (before + word)[|before + word| - 1] == word[|word| - 1];
      TrimLeftBlanks(before, word);
    }
  }

  /** s.find( w ) != npos. */
  predicate Contains(s: string, w: string) {
    exists i | 0 <= i <= |s| :: At(s, i, w)
  }

  /** getline: up to the next LF, or to the end of the stream. */
  method GetLine(text: string) returns (line: string, rest: string, eof: bool)
    ensures Split(text, LF) == [line] + if eof then [] else Split(rest, LF)
    ensures !eof ==> |rest| < |text|
  {
    var i := 0;
    while i < |text| && text[i] != LF
      invariant i <= |text| && LF !in text[..i]
    {
      i := i + 1;
    }
    line := text[..i];
    if i == |text| {
      assert line == text;
      SplitOne(text, LF);
      return line, "", true;
    }
    rest := text[i + 1..];
    SplitAfter(line, rest, LF);
    assert text == line + [LF] + rest;
    return line, rest, false;
  }
}
