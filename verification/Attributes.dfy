/** The attributes of an element: a list in insertion order, with one entry a name. */
module Attributes {
  import opened XmlUtil
  import opened XmlTree

  /** The value of the first attribute of this name. */
  function Lookup(attributes: seq<Attr>, name: string): Option<string> {
    if attributes == [] then None
    else if attributes[0].name == name then Some(attributes[0].value)
    else Lookup(attributes[1..], name)
  }

  /** SetAttribute: the value of the attribute of this name, or a new attribute at the end. */
  function Set(attributes: seq<Attr>, name: string, value: string): seq<Attr> {
    if attributes == [] then [Attr(name, value)]
    else if attributes[0].name == name then [Attr(name, value)] + attributes[1..]
    else [attributes[0]] + Set(attributes[1..], name, value)
  }

  function Delete(attributes: seq<Attr>, name: string): seq<Attr> {
    if attributes == [] then []
    else if attributes[0].name == name then attributes[1..]
    else [attributes[0]] + Delete(attributes[1..], name)
  }

  predicate HasName(attributes: seq<Attr>, name: string) {
    exists a | a in attributes :: a.name == name
  }

  lemma DistinctTail(attributes: seq<Attr>)
    requires attributes != []
    ensures DistinctNames(attributes) <==>
      !HasName(attributes[1..], attributes[0].name) && DistinctNames(attributes[1..])
  {
    var rest := attributes[1..];
    if DistinctNames(attributes) {
      forall i | 0 <= i < |rest| ensures rest[i].name != attributes[0].name { assert rest[i] == attributes[i + 1]; }
    }
    if !HasName(rest, attributes[0].name) && DistinctNames(rest) {
      forall i, j | 0 <= i < j < |attributes| ensures attributes[i].name != attributes[j].name {
        assert attributes[j] == rest[j - 1] && rest[j - 1] in rest;
        if i > 0 { assert attributes[i] == rest[i - 1]; }
      }
    }
  }

  lemma {:induction false} LookupNone(attributes: seq<Attr>, name: string)
    ensures Lookup(attributes, name).None? <==> !HasName(attributes, name)
  {
    if attributes != [] {
      LookupNone(attributes[1..], name);
      assert HasName(attributes, name) <==> attributes[0].name == name || HasName(attributes[1..], name);
    }
  }

  lemma HasNameTail(attributes: seq<Attr>, name: string)
    requires attributes != []
    ensures HasName(attributes, name) <==> attributes[0].name == name || HasName(attributes[1..], name)
  {
  }

  /** Setting adds no name but its own, and keeps the names distinct. */
  lemma {:induction false} SetNames(attributes: seq<Attr>, name: string, value: string, other: string)
    ensures HasName(Set(attributes, name, value), other) <==> other == name || HasName(attributes, other)
    ensures !HasName(attributes, name) ==> Set(attributes, name, value) == attributes + [Attr(name, value)]
    decreases attributes
  {
    var after := Set(attributes, name, value);
    HasNameTail(after, other);
    if attributes != [] {
      var rest := attributes[1..];
      HasNameTail(attributes, other);
      HasNameTail(attributes, name);
      SetNames(rest, name, value, other);
      assert after[1..] == if attributes[0].name == name then rest else Set(rest, name, value);
    }
  }

  lemma {:induction false} SetKeepsDistinct(attributes: seq<Attr>, name: string, value: string)
    requires DistinctNames(attributes)
    ensures DistinctNames(Set(attributes, name, value))
  {
    hide DistinctNames, HasName;
    var after := Set(attributes, name, value);
    DistinctTail(after);
    if attributes == [] {
      assert after[1..] == [];
      NoneDistinct();
    } else {
      var rest := attributes[1..];
      DistinctTail(attributes);
      SetNames(rest, name, value, attributes[0].name);
      SetKeepsDistinct(rest, name, value);
      assert after[1..] == if attributes[0].name == name then rest else Set(rest, name, value);
    }
  }

  lemma NoneDistinct()
    ensures DistinctNames([]) && forall name :: !HasName([], name)
  {
  }

  /** Setting works as in a map. */
  lemma {:induction false} SetIsMapUpdate(attributes: seq<Attr>, name: string, value: string, other: string)
    ensures Lookup(Set(attributes, name, value), other)
         == if other == name then Some(value) else Lookup(attributes, other)
    decreases attributes
  {
    var after := Set(attributes, name, value);
    if attributes != [] && attributes[0].name != name {
      assert after[1..] == Set(attributes[1..], name, value);
      SetIsMapUpdate(attributes[1..], name, value, other);
    }
  }

  /** Deleting works as in a map, when names are distinct. */
  lemma {:induction false} DeleteIsMapRemove(attributes: seq<Attr>, name: string, other: string)
    requires DistinctNames(attributes)
    ensures Lookup(Delete(attributes, name), other) == if other == name then None else Lookup(attributes, other)
    ensures DistinctNames(Delete(attributes, name))
    ensures HasName(Delete(attributes, name), other) ==> HasName(attributes, other)
    decreases attributes
  {
    if attributes != [] {
      var rest := attributes[1..];
      DistinctTail(attributes);
      LookupNone(rest, name);
      DeleteIsMapRemove(rest, name, other);
      if attributes[0].name != name {
        DeleteIsMapRemove(rest, name, attributes[0].name);
        var after := Delete(attributes, name);
        assert after[1..] == Delete(rest, name);
        DistinctTail(after);
      }
    }
  }

  /** i is where the first attribute of this name stands. */
  predicate FirstAt(attributes: seq<Attr>, name: string, i: int) {
    0 <= i < |attributes| && attributes[i].name == name && forall j | 0 <= j < i :: attributes[j].name != name
  }

  lemma FirstTail(attributes: seq<Attr>, name: string, i: int)
    requires attributes != [] && attributes[0].name != name && FirstAt(attributes[1..], name, i)
    ensures FirstAt(attributes, name, i + 1)
  {
    forall j | 0 <= j < i + 1 ensures attributes[j].name != name {
      if j > 0 { assert attributes[j] == attributes[1..][j - 1]; }
    }
  }

  /** Setting an attribute that is there changes its value where it stands. */
  lemma {:induction false} SetInPlace(attributes: seq<Attr>, name: string, value: string) returns (i: int)
    requires HasName(attributes, name)
    ensures FirstAt(attributes, name, i) && Set(attributes, name, value) == attributes[i := Attr(name, value)]
  {
    if attributes[0].name == name {
      i := 0;
    } else {
      var k := SetInPlace(attributes[1..], name, value);
      FirstTail(attributes, name, k);
      i := k + 1;
      assert attributes == [attributes[0]] + attributes[1..];
    }
  }

  /** Deleting takes out the first attribute of the name; the others keep their order. */
  lemma {:induction false} DeleteInPlace(attributes: seq<Attr>, name: string) returns (i: int)
    ensures if HasName(attributes, name)
            then FirstAt(attributes, name, i) && Delete(attributes, name) == attributes[..i] + attributes[i + 1..]
            else Delete(attributes, name) == attributes
  {
    i := 0;
    if attributes != [] && attributes[0].name != name {
      HasNameTail(attributes, name);
      var k := DeleteInPlace(attributes[1..], name);
      if HasName(attributes, name) {
        FirstTail(attributes, name, k);
        i := k + 1;
        assert attributes[..i] == [attributes[0]] + attributes[1..][..k];
      }
    }
  }

  /** ShallowClone of an element: its attributes set one by one. */
  function Copied(attributes: seq<Attr>): seq<Attr> {
    if attributes == [] then []
    else
      var last := attributes[|attributes| - 1];
      Set(Copied(attributes[..|attributes| - 1]), last.name, last.value)
  }

  lemma {:induction false} CopiedDistinct(attributes: seq<Attr>)
    ensures DistinctNames(Copied(attributes))
  {
    if attributes != [] {
      var front, last := attributes[..|attributes| - 1], attributes[|attributes| - 1];
      CopiedDistinct(front);
      SetKeepsDistinct(Copied(front), last.name, last.value);
    }
  }

  /** The copy is the same list exactly when the names are distinct. */
  lemma {:induction false} CopyIsSame(attributes: seq<Attr>)
    ensures Copied(attributes) == attributes <==> DistinctNames(attributes)
  {
    CopiedDistinct(attributes);
    if attributes != [] && DistinctNames(attributes) {
      var front, last := attributes[..|attributes| - 1], attributes[|attributes| - 1];
      CopyIsSame(front);
      assert attributes == front + [last];
      SetNames(front, last.name, last.value, last.name);
    }
  }

  /** One more attribute of another name is passed. */
  lemma SetBehind(attributes: seq<Attr>, i: nat, name: string, value: string)
    requires i < |attributes| && attributes[i].name != name
    ensures attributes[..i] + Set(attributes[i..], name, value)
         == attributes[..i + 1] + Set(attributes[i + 1..], name, value)
  {
    assert attributes[i..][1..] == attributes[i + 1..];
    assert attributes[..i + 1] == attributes[..i] + [attributes[i]];
  }

  /** The search ends at the attribute of the name, or behind the last one. */
  lemma SetHere(attributes: seq<Attr>, i: nat, name: string, value: string)
    requires i <= |attributes| && (i < |attributes| ==> attributes[i].name == name)
    ensures attributes[..i] + Set(attributes[i..], name, value)
         == if i == |attributes| then attributes + [Attr(name, value)] else attributes[i := Attr(name, value)]
  {
    hide Set;
    SetFirst(attributes[i..], name, value);
    if i < |attributes| {
      var a := Attr(name, value);
      assert attributes[i..][1..] == attributes[i + 1..];
      assert attributes[i := a] == attributes[..i] + ([a] + attributes[i + 1..]);
    } else {
      assert attributes[..i] == attributes;
    }
  }

  lemma SetFirst(attributes: seq<Attr>, name: string, value: string)
    requires attributes != [] ==> attributes[0].name == name
    ensures Set(attributes, name, value) == [Attr(name, value)] + if attributes == [] then [] else attributes[1..]
  {
  }

  class AttributeList {
    var attributes: seq<Attr>

    constructor ()
      ensures attributes == []
    {
      attributes := [];
    }

    method FindAttribute(name: string) returns (found: Option<string>)
      ensures found == Lookup(attributes, name)
    {
      for i := 0 to |attributes|
        invariant Lookup(attributes[i..], name) == Lookup(attributes, name)
      {
        assert attributes[i..][1..] == attributes[i + 1..];
        if attributes[i].name == name {
          return Some(attributes[i].value);
        }
      }
      return None;
    }

    /** FindOrCreateAttribute, and the attribute's own SetAttribute. */
    method SetAttribute(name: string, value: string)
      modifies this
      ensures attributes == Set(old(attributes), name, value)
    {
      hide Set;
      var i := 0;
      assert attributes[..0] + Set(attributes[0..], name, value) == Set(attributes, name, value);
      while i < |attributes| && attributes[i].name != name
        invariant i <= |attributes| && attributes == old(attributes)
        invariant attributes[..i] + Set(attributes[i..], name, value) == Set(attributes, name, value)
      {
        SetBehind(attributes, i, name, value);
        i := i + 1;
      }
      SetHere(attributes, i, name, value);
      if i == |attributes| {
        attributes := attributes + [Attr(name, value)];
      } else {
        attributes := attributes[i := Attr(name, value)];
      }
    }

    method DeleteAttribute(name: string)
      modifies this
      ensures attributes == Delete(old(attributes), name)
    {
      var i := 0;
      while i < |attributes| && attributes[i].name != name
        invariant i <= |attributes| && attributes == old(attributes)
        invariant attributes[..i] + Delete(attributes[i..], name) == Delete(attributes, name)
      {
        assert attributes[i..][1..] == attributes[i + 1..];
        assert attributes[..i + 1] == attributes[..i] + [attributes[i]];
        i := i + 1;
      }
      if i < |attributes| {
        assert attributes[i..][1..] == attributes[i + 1..];
        attributes := attributes[..i] + attributes[i + 1..];
      }
    }

    /** The attributes of another element, set one by one. */
    method CopyFrom(source: seq<Attr>)
      requires attributes == []
      modifies this
      ensures attributes == Copied(source)
    {
      assert source[..0] == [];
      for i := 0 to |source|
        invariant attributes == Copied(source[..i])
      {
        assert source[..i + 1][..i] == source[..i];
        SetAttribute(source[i].name, source[i].value);
      }
      assert source[..|source|] == source;
    }
  }
}
