/** The document a parsed tree stands for: every range of the buffer replaced by the string that
    reading it gives. */
module TreeMeaning {
  import opened Decode
  import P = ParserSpec
  import X = XmlTree

  function Str(s: string, r: P.Range): string {
    Meaning(P.Raw(s, r), r.flags)
  }

  function AttrOf(s: string, a: P.Attribute): X.Attr {
    X.Attr(Str(s, a.name), Str(s, a.value))
  }

  function AttrsOf(s: string, attributes: seq<P.Attribute>): (r: seq<X.Attr>)
    ensures |r| == |attributes|
    ensures forall i | 0 <= i < |r| :: r[i] == AttrOf(s, attributes[i])
  {
    if attributes == [] then [] else [AttrOf(s, attributes[0])] + AttrsOf(s, attributes[1..])
  }

  function TreeOf(s: string, n: P.Node): X.Tree {
    match n
    case Element(name, attributes, _, children, _) =>
      X.Element(Str(s, name), AttrsOf(s, attributes), TreesOf(s, children))
    case Text(v, cdata, _) => X.Text(Str(s, v), cdata)
    case Comment(v, _) => X.Comment(Str(s, v))
    case Declaration(v, _) => X.Declaration(Str(s, v))
    case Unknown(v, _) => X.Unknown(Str(s, v))
  }

  function TreesOf(s: string, ns: seq<P.Node>): (r: seq<X.Tree>)
    ensures |r| == |ns|
  {
    if ns == [] then [] else [TreeOf(s, ns[0])] + TreesOf(s, ns[1..])
  }

  function DocOf(s: string, d: P.Document): X.Doc {
    X.Doc(d.bom, TreesOf(s, d.children))
  }

  lemma {:induction false} TreesOfIndex(s: string, ns: seq<P.Node>, i: nat)
    requires i < |ns|
    ensures TreesOf(s, ns)[i] == TreeOf(s, ns[i])
  {
    hide TreeOf;
    if i > 0 {
      TreesOfIndex(s, ns[1..], i - 1);
    }
  }
}
