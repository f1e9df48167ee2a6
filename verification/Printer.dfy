/** XMLPrinter printing to memory, and the document visit that drives it. */
module Printer {
  import opened XmlUtil
  import opened Decode
  import opened XmlTree
  import opened PrinterSpec

  class XMLPrinter {
    const compactMode: bool
    var processEntities: bool
    var elementJustOpened: bool
    var firstElement: bool
    var stack: seq<string>
    var depth: int
    var textDepth: int
    /** The text so far and its terminating NUL. */
    var buffer: string

    constructor (compact: bool)
      ensures Valid() && Output() == "" && L() == START && depth == 0 && stack == [] && compactMode == compact
    {
      compactMode := compact;
      processEntities, elementJustOpened, firstElement := true, false, true;
      stack, depth, textDepth := [], 0, -1;
      buffer := [NUL];
    }

    ghost predicate Valid()
      reads this
    {
      buffer != [] && buffer[|buffer| - 1] == NUL && depth >= 0
    }

    ghost function Output(): string
      reads this
      requires Valid()
    {
      buffer[..|buffer| - 1]
    }

    /** The part of the state the specification calls the layout. */
    ghost function L(): Layout
      reads this
    {
      Layout(elementJustOpened, firstElement, textDepth)
    }

    ghost function M(): Mode
      reads this
    {
      Mode(compactMode, processEntities)
    }

    /** Backs up over the terminating NUL. */
    method Write(data: string)
      requires Valid()
      modifies this`buffer
      ensures Valid() && Output() == old(Output()) + data
    {
      buffer := buffer[..|buffer| - 1] + data + [NUL];
    }

    method Putc(ch: char)
      requires Valid()
      modifies this`buffer
      ensures Valid() && Output() == old(Output()) + [ch]
    {
      buffer := buffer[..|buffer| - 1] + [ch] + [NUL];
    }

    method PrintSpace(n: nat)
      requires Valid()
      modifies this`buffer
      ensures Valid() && Output() == old(Output()) + Spaces(n)
    {
      ghost var before := Output();
      assert before + Spaces(0) == before;
      for i := 0 to n
        invariant Valid() && Output() == before + Spaces(i)
      {
        Write("    ");
        SpacesSnoc(i);
        Regroup(before, Spaces(i), "    ");
      }
    }

    /** The loop over runs: [p, q) has been looked at but not written; a flagged character flushes
        the run and is written as an entity. */
    method PrintString(v: string, restricted: bool)
      requires Valid()
      modifies this`buffer
      ensures Valid() && Output() == old(Output()) + PrinterSpec.PrintString(v, restricted, M())
    {
      if processEntities {
        ghost var before := Output();
        var p, q := 0, 0;
        while q < |v|
          invariant 0 <= p <= q <= |v| && Valid() && processEntities
          invariant Output() + v[p..q] == before + Escape(v[..q], restricted)
        {
          EscapeSnoc(v, q, restricted);
          if Flagged(v[q], restricted) {
            Write(v[p..q]);
            PrintEntity(v[q]);
            p := q + 1;
            Regroup(before, Escape(v[..q], restricted), EscapeChar(v[q], restricted));
            assert v[p..q + 1] == "";
          } else {
            Regroup(Output(), v[p..q], [v[q]]);
            Regroup(before, Escape(v[..q], restricted), [v[q]]);
            assert v[p..q + 1] == v[p..q] + [v[q]];
          }
          q := q + 1;
        }
        assert v[..q] == v;
        if p < q {
          Write(v[p..q]);
        } else {
          assert v[p..q] == "";
        }
      } else {
        Write(v);
      }
    }

    /** The loop over the entity table. */
    method PrintEntity(c: char)
      requires Valid() && Flagged(c, false)
      modifies this`buffer
      ensures Valid() && Output() == old(Output()) + EscapeChar(c, false)
    {
      ghost var before := Output();
      ghost var k := EntityListed(c);
      for i := 0 to |ENTITIES|
        invariant Valid() && Output() == before && forall j | 0 <= j < i :: ENTITIES[j].value != c
      {
        if ENTITIES[i].value == c {
          Putc('&');
          Write(ENTITIES[i].pattern);
          Putc(';');
          assert ENTITIES[i].pattern == EntityOf(c);
          Regroup(before, ['&'], EntityOf(c));
          Regroup(before, ['&'] + EntityOf(c), [';']);
          return;
        }
      }
    }

    method SealElementIfJustOpened()
      requires Valid()
      modifies this`buffer, this`elementJustOpened
      ensures Valid() && !elementJustOpened && Output() == old(Output()) + Seal(old(L()))
    {
      if elementJustOpened {
        elementJustOpened := false;
        Putc('>');
      } else {
        assert Output() + "" == Output();
      }
    }

    method PrepareForNewNode()
      requires Valid()
      modifies this`buffer, this`elementJustOpened, this`firstElement
      ensures Valid() && Output() == old(Output()) + Lead(old(L()), depth, M()) && L() == Prepared(old(L()), M())
    {
      ghost var before, l := Output(), L();
      SealElementIfJustOpened();
      ghost var sealed := Output();
      if compactMode {
        assert sealed + "" == sealed;
      } else {
        if firstElement {
          PrintSpace(depth);
        } else if textDepth < 0 {
          Putc('\n');
          PrintSpace(depth);
          Regroup(sealed, "\n", Spaces(depth));
        } else {
          assert sealed + "" == sealed;
        }
        firstElement := false;
      }
      Regroup(before, Seal(l), Space(l, depth, M()));
    }

    method OpenElement(name: string)
      requires Valid()
      modifies this
      ensures Valid() && Output() == old(Output()) + (Lead(old(L()), old(depth), old(M())) + ("<" + name))
      ensures L() == ElementOpened(old(L()), old(M())) && depth == old(depth) + 1 && stack == old(stack) + [name]
      ensures M() == old(M())
    {
      hide Lead;
      ghost var before, lead := Output(), Lead(L(), depth, M());
      PrepareForNewNode();
      stack := stack + [name];
      Write("<");
      Write(name);
      Regroup(before + lead, "<", name);
      Regroup(before, lead, "<" + name);
      elementJustOpened := true;
      depth := depth + 1;
    }

    method PushAttribute(a: Attr)
      requires Valid() && elementJustOpened
      modifies this`buffer
      ensures Valid() && Output() == old(Output()) + PrintAttribute(a, M())
    {
      ghost var before := Output();
      Putc(' ');
      Write(a.name);
      Write("=\"");
      PrintString(a.value, false);
      Putc('"');
      ghost var v := PrinterSpec.PrintString(a.value, false, M());
      Regroup(before, " ", a.name);
      Regroup(before, " " + a.name, "=\"");
      Regroup(before, " " + a.name + "=\"", v);
      Regroup(before, " " + a.name + "=\"" + v, "\"");
    }

    method CloseElement()
      requires Valid() && depth > 0 && stack != []
      modifies this
      ensures Valid() && M() == old(M()) && depth == old(depth) - 1 && stack == old(stack)[..|old(stack)| - 1]
      ensures Output() ==
        old(Output()) + (CloseTag(old(stack)[|old(stack)| - 1], old(L()), depth, M()) + FinalNewline(depth, M()))
      ensures L() == ElementClosed(old(L()), depth)
    {
      hide CloseTag;
      ghost var before, l := Output(), L();
      depth := depth - 1;
      var name := stack[|stack| - 1];
      stack := stack[..|stack| - 1];
      WriteCloseTag(name);
      ghost var close := CloseTag(name, l, depth, M());
      if textDepth == depth {
        textDepth := -1;
      }
      if depth == 0 && !compactMode {
        Putc('\n');
      } else {
        assert Output() + "" == Output();
      }
      Regroup(before, close, FinalNewline(depth, M()));
      elementJustOpened := false;
    }

    method WriteCloseTag(name: string)
      requires Valid()
      modifies this`buffer
      ensures Valid() && Output() == old(Output()) + CloseTag(name, L(), depth, M())
    {
      hide Spaces;
      ghost var before := Output();
      if elementJustOpened {
        Write("/>");
      } else {
        if textDepth < 0 && !compactMode {
          Putc('\n');
          PrintSpace(depth);
          Regroup(before, "\n", Spaces(depth));
        } else {
          assert before + "" == before;
        }
        ghost var blanks := CloseBlanks(L(), depth, M());
        Write("</");
        Write(name);
        Write(">");
        Regroup(before, blanks, "</");
        Regroup(before, blanks + "</", name);
        Regroup(before, blanks + "</" + name, ">");
      }
    }

    method PushText(text: string, cdata: bool)
      requires Valid()
      modifies this`buffer, this`elementJustOpened, this`textDepth
      ensures Valid() && Output() == old(Output()) + (Seal(old(L())) + TextBody(Text(text, cdata), M()))
      ensures L() == old(L()).(justOpened := false, textDepth := depth - 1)
    {
      hide Escape;
      ghost var before, seal := Output(), Seal(L());
      textDepth := depth - 1;
      SealElementIfJustOpened();
      if cdata {
        Write("<![CDATA[");
        Write(text);
        Write("]]>");
        Regroup(before + seal, "<![CDATA[", text);
        Regroup(before + seal, "<![CDATA[" + text, "]]>");
      } else {
        PrintString(text, true);
      }
      Regroup(before, seal, TextBody(Text(text, cdata), M()));
    }

    /** PushComment, PushDeclaration and PushUnknown differ in the brackets they write. */
    method PushLeaf(t: Tree)
      requires Valid() && (t.Comment? || t.Declaration? || t.Unknown?)
      modifies this`buffer, this`elementJustOpened, this`firstElement
      ensures Valid() && Output() == old(Output()) + (Lead(old(L()), depth, M()) + LeafBody(t))
      ensures L() == Prepared(old(L()), M())
    {
      hide Lead;
      ghost var before, lead := Output(), Lead(L(), depth, M());
      PrepareForNewNode();
      match t {
        case Comment(value) => WriteThree("<!--", value, "-->");
        case Declaration(value) => WriteThree("<?", value, "?>");
        case Unknown(value) => WriteThree("<!", value, ">");
      }
      Regroup(before, lead, LeafBody(t));
    }

    method WriteThree(a: string, b: string, c: string)
      requires Valid()
      modifies this`buffer
      ensures Valid() && Output() == old(Output()) + (a + b + c)
    {
      ghost var before := Output();
      Write(a);
      Write(b);
      Write(c);
      Regroup(before, a, b);
      Regroup(before, a + b, c);
    }

    // ---- the visit --------------------------------------------------------------

    /** Accept() of a node: VisitEnter, the children, VisitExit for an element, Visit otherwise. */
    method Accept(t: Tree)
      requires Valid()
      modifies this
      ensures Valid() && depth == old(depth) && stack == old(stack) && M() == old(M())
      ensures var r := PrintNode(t, depth, old(L()), M()); Output() == old(Output()) + r.0 && L() == r.1
      decreases t, 0
    {
      match t {
        case Element(name, attributes, children) =>
          AcceptElement(t);
        case Text(value, cdata) =>
          PushText(value, cdata);
        case Comment(value) => PushLeaf(t);
        case Declaration(value) => PushLeaf(t);
        case Unknown(value) => PushLeaf(t);
      }
    }

    method AcceptElement(t: Tree)
      requires Valid() && t.Element?
      modifies this
      ensures Valid() && depth == old(depth) && stack == old(stack) && M() == old(M())
      ensures var r := PrintNode(t, depth, old(L()), M()); Output() == old(Output()) + r.0 && L() == r.1
      decreases t.children, 2
    {
      hide Lead, CloseTag, FinalNewline, PrintNode, PrintNodes, PrintAttributes;
      ghost var before, l, m, d := Output(), L(), M(), depth;
      OpenElement(t.name);
      PushAttributes(t.attributes);
      AcceptAll(t.children);
      CloseElement();
      ElementPrinted(before, t, d, l, m);
    }

    method PushAttributes(attributes: seq<Attr>)
      requires Valid() && elementJustOpened
      modifies this`buffer
      ensures Valid() && Output() == old(Output()) + PrintAttributes(attributes, M())
    {
      ghost var before := Output();
      for i := 0 to |attributes|
        invariant Valid() && Output() == before + PrintAttributes(attributes[..i], M())
      {
        PushAttribute(attributes[i]);
        AttributesSnoc(attributes, i, M());
        Regroup(before, PrintAttributes(attributes[..i], M()), PrintAttribute(attributes[i], M()));
      }
      assert attributes[..|attributes|] == attributes;
    }

    method AcceptAll(ts: seq<Tree>)
      requires Valid()
      modifies this
      ensures Valid() && depth == old(depth) && stack == old(stack) && M() == old(M())
      ensures var r := PrintNodes(ts, depth, old(L()), M()); Output() == old(Output()) + r.0 && L() == r.1
      decreases ts, 1
    {
      ghost var before, l, m := Output(), L(), M();
      for i := 0 to |ts|
        invariant Valid() && depth == old(depth) && stack == old(stack) && M() == m
        invariant var r := PrintNodes(ts[..i], depth, l, m); Output() == before + r.0 && L() == r.1
      {
        Accept(ts[i]);
        ghost var r := PrintNodes(ts[..i], depth, l, m);
        NodesSnoc(ts, i, depth, l, m);
        Regroup(before, r.0, PrintNode(ts[i], depth, r.1, m).0);
      }
      assert ts[..|ts|] == ts;
    }

    /** XMLDocument::Print: VisitEnter with the document's entity mode and BOM, then the nodes. */
    method PrintDocument(d: Doc, entities: bool)
      requires Valid() && L() == START && depth == 0
      modifies this
      ensures Valid() && processEntities == entities && depth == 0 && stack == old(stack)
      ensures Output() == old(Output()) + PrinterSpec.PrintDocument(d, M())
    {
      hide PrintNodes;
      ghost var before, bom := Output(), if d.bom then BOM else [];
      processEntities := entities;
      if d.bom {
        Write(BOM);
      }
      assert Output() == before + bom && L() == START;
      AcceptAll(d.children);
      Regroup(before, bom, PrintNodes(d.children, 0, START, M()).0);
    }
  }

  lemma EntityListed(c: char) returns (k: nat)
    requires Flagged(c, false)
    ensures k < |ENTITIES| && ENTITIES[k] == Entity(EntityOf(c), c)
  {
    k := if c == '"' then 0 else if c == '&' then 1 else if c == '\'' then 2 else if c == '<' then 3 else 4;
  }

  // ---- the specification, read from the end ------------------------------------------

  lemma {:induction false} SpacesSnoc(n: nat)
    ensures Spaces(n + 1) == Spaces(n) + "    "
  {
    if n > 0 {
      SpacesSnoc(n - 1);
      Regroup("    ", Spaces(n - 1), "    ");
    }
  }

  lemma EscapeSnoc(v: string, q: nat, restricted: bool)
    requires q < |v|
    ensures Escape(v[..q + 1], restricted) == Escape(v[..q], restricted) + EscapeChar(v[q], restricted)
  {
    EscapeAppend(v[..q], v[q], restricted);
    assert v[..q + 1] == v[..q] + [v[q]];
  }

  lemma {:induction false} EscapeAppend(v: string, c: char, restricted: bool)
    ensures Escape(v + [c], restricted) == Escape(v, restricted) + EscapeChar(c, restricted)
  {
    hide EscapeChar;
    if v == [] {
      assert v + [c] == [c];
    } else {
      EscapeAppend(v[1..], c, restricted);
      assert (v + [c])[1..] == v[1..] + [c];
      Regroup(EscapeChar(v[0], restricted), Escape(v[1..], restricted), EscapeChar(c, restricted));
    }
  }

  lemma AttributesSnoc(attributes: seq<Attr>, i: nat, m: Mode)
    requires i < |attributes|
    ensures PrintAttributes(attributes[..i + 1], m)
         == PrintAttributes(attributes[..i], m) + PrintAttribute(attributes[i], m)
  {
    AttributesAppend(attributes[..i], attributes[i], m);
    assert attributes[..i + 1] == attributes[..i] + [attributes[i]];
  }

  lemma {:induction false} AttributesAppend(attributes: seq<Attr>, a: Attr, m: Mode)
    ensures PrintAttributes(attributes + [a], m) == PrintAttributes(attributes, m) + PrintAttribute(a, m)
  {
    hide PrintAttribute;
    if attributes == [] {
      assert attributes + [a] == [a];
    } else {
      AttributesAppend(attributes[1..], a, m);
      assert (attributes + [a])[1..] == attributes[1..] + [a];
      Regroup(PrintAttribute(attributes[0], m), PrintAttributes(attributes[1..], m), PrintAttribute(a, m));
    }
  }

  lemma NodesSnoc(ts: seq<Tree>, i: nat, depth: nat, l: Layout, m: Mode)
    requires i < |ts|
    ensures var r := PrintNodes(ts[..i], depth, l, m); var n := PrintNode(ts[i], depth, r.1, m);
      PrintNodes(ts[..i + 1], depth, l, m) == (r.0 + n.0, n.1)
  {
    NodesAppend(ts[..i], ts[i], depth, l, m);
    assert ts[..i + 1] == ts[..i] + [ts[i]];
  }

  lemma {:induction false} NodesAppend(ts: seq<Tree>, t: Tree, depth: nat, l: Layout, m: Mode)
    ensures var r := PrintNodes(ts, depth, l, m); var n := PrintNode(t, depth, r.1, m);
      PrintNodes(ts + [t], depth, l, m) == (r.0 + n.0, n.1)
    decreases |ts|
  {
    hide PrintNode;
    if ts == [] {
      assert ts + [t] == [t];
      assert [] + PrintNode(t, depth, l, m).0 == PrintNode(t, depth, l, m).0 + [] == PrintNode(t, depth, l, m).0;
    } else {
      var a := PrintNode(ts[0], depth, l, m);
      NodesAppend(ts[1..], t, depth, a.1, m);
      assert (ts + [t])[1..] == ts[1..] + [t];
      var b := PrintNodes(ts[1..], depth, a.1, m);
      Regroup(a.0, b.0, PrintNode(t, depth, b.1, m).0);
    }
  }

  lemma ElementPrinted(before: string, t: Tree, d: nat, l: Layout, m: Mode)
    requires t.Element?
    ensures var body := PrintNodes(t.children, d + 1, ElementOpened(l, m), m); var r := PrintNode(t, d, l, m);
      && before + (Lead(l, d, m) + ("<" + t.name)) + PrintAttributes(t.attributes, m) + body.0
         + (CloseTag(t.name, body.1, d, m) + FinalNewline(d, m)) == before + r.0
      && r.1 == ElementClosed(body.1, d)
  {
    hide Lead, CloseTag, FinalNewline, PrintNodes, PrintAttributes;
    var body := PrintNodes(t.children, d + 1, ElementOpened(l, m), m);
    ElementPieces(before, Lead(l, d, m), t.name, PrintAttributes(t.attributes, m), body.0,
                CloseTag(t.name, body.1, d, m), FinalNewline(d, m));
  }

  lemma ElementPieces(before: string, lead: string, name: string, attrs: string, body: string, close: string,
      nl: string)
    ensures before + (lead + ("<" + name)) + attrs + body + (close + nl)
         == before + (lead + ("<" + name + attrs) + body + close + nl)
  {
    var open := "<" + name;
    Regroup(before, lead + open, attrs);
    Regroup(lead, open, attrs);
    Regroup(before, lead + (open + attrs), body);
    Regroup(before, lead + (open + attrs) + body, close + nl);
    Regroup(lead + (open + attrs) + body, close, nl);
  }
}
