/** Lists of things that occur once. */
module Sequences {

  function Without<T(==)>(s: seq<T>, x: T): (r: seq<T>)
    ensures x !in s ==> r == s
    ensures |r| == |s| - if x in s then 1 else 0
    ensures forall y | y in r :: y in s
  {
    if s == [] then [] else if s[0] == x then s[1..] else [s[0]] + Without(s[1..], x)
  }

  lemma {:induction false} WithoutAt<T>(s: seq<T>, i: nat)
    requires i < |s| && s[i] !in s[..i]
    ensures Without(s, s[i]) == s[..i] + s[i + 1..]
  {
    if i > 0 {
      assert s[0] in s[..i];
      assert s[1..][..i - 1] == s[1..i];
      WithoutAt(s[1..], i - 1);
    }
  }

  function IndexOf<T(==)>(s: seq<T>, x: T): (i: nat)
    requires x in s
    ensures i < |s| && s[i] == x && x !in s[..i]
  {
    if s[0] == x then 0 else 1 + IndexOf(s[1..], x)
  }

  ghost predicate NoRepeats<T>(s: seq<T>) {
    forall i, j | 0 <= i < j < |s| :: s[i] != s[j]
  }

  /** With c taken out, a is the last element when it was, or when only c came behind it. */
  lemma {:induction false} LastWithout<T>(s: seq<T>, a: T, c: T)
    requires a in s && a != c && NoRepeats(s)
    ensures var r := Without(s, c);
      && a in r
      && (IndexOf(r, a) + 1 == |r| <==>
           IndexOf(s, a) + 1 == |s| || (IndexOf(s, a) + 2 == |s| && s[|s| - 1] == c))
  {
    var t := s[1..];
    if s[0] == a {
      assert |s| == 2 ==> t == [s[1]];
    } else if s[0] == c {
      assert c !in t;
    } else {
      LastWithout(t, a, c);
      assert Without(s, c)[1..] == Without(t, c);
    }
  }

  /** b is a, but for x if that is in it; what is left keeps its order. */
  ghost predicate Loses<T>(a: seq<T>, b: seq<T>, x: T) {
    (x !in a && b == a) || exists j | 0 <= j < |a| :: a[j] == x && b == a[..j] + a[j + 1..]
  }

  lemma WithoutLoses<T>(s: seq<T>, x: T)
    ensures Loses(s, Without(s, x), x)
  {
    if x in s {
      WithoutAt(s, IndexOf(s, x));
    }
  }
}
