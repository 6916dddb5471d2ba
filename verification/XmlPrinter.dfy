/**
 TiXmlPrinter: a visitor that appends to a buffer, with a depth and a flag for elements that
 hold nothing but one plain text.
 */
module XmlPrinter {
  import opened Xml
  import opened XmlParser

  /** TiXmlAttribute::Print. */
  method PrintedAttribute(a: Attribute) returns (s: string)
    ensures s == PrintAttribute(a)
  {
    var n := EncodeString(a.name);
    var v := EncodeString(a.value);
    if '\"' !in a.value {
      s := n + "=\"" + v + "\"";
    } else {
      s := n + "=\'" + v + "\'";
    }
  }

  lemma AttributesStep(attributes: seq<Attribute>, k: nat)
    requires k < |attributes|
    ensures PrintAttributes(attributes[k..]) == " " + PrintAttribute(attributes[k]) + PrintAttributes(attributes[k + 1..])
  {
    assert attributes[k..][1..] == attributes[k + 1..];
  }

  /** The only child is plain text. */
  predicate Simple(n: Node)
  {
    n.Element? && |n.children| == 1 && n.children[0].Text? && !n.children[0].cdata
  }

  /** What is written before the children, and after them. */
  function Opening(n: Node): string
    requires n.Element?
  {
    "<" + n.name + PrintAttributes(n.attributes) + if n.children == [] then " />" else ">"
  }

  function Closing(n: Node): string
    requires n.Element?
  {
    if n.children == [] then "" else "</" + n.name + ">"
  }

  lemma NothingClosed(n: Node, s: string)
    requires n.Element? && n.children == []
    ensures s + Closing(n) == s
  {
  }

  lemma ClosingText(n: Node, s: string)
    requires n.Element? && n.children != []
    ensures s + Closing(n) == s + "</" + n.name + ">"
  {
  }

  lemma LeafText(n: Node, s: string)
    requires !n.Element?
    ensures s + Print(n) == match n
      case Text(v, cdata) => if cdata then s + "<![CDATA[" + v + "]]>" else s + Encode(v)
      case Comment(v) => s + "<!--" + v + "-->"
      case Unknown(v) => s + "<" + v + ">"
  {
  }

  lemma ElementPrinted(n: Node, buffer: string)
    requires n.Element?
    ensures buffer + Opening(n) + PrintChildren(n, 0) + Closing(n) == buffer + Print(n)
  {
    var start, body := "<" + n.name + PrintAttributes(n.attributes), PrintChildren(n, 0);
    if n.children == [] {
      assert body == "";
      assert buffer + (start + " />") + "" + "" == buffer + (start + " />");
    } else {
      var end := "</" + n.name + ">";
      assert buffer + (start + ">") + body + end == buffer + (start + (">" + body + "</" + n.name + ">"));
      assert Print(n) == start + (">" + body + "</" + n.name + ">");
    }
  }

  class Printer {
    var buffer: string
    var depth: nat
    var simpleTextPrint: bool
    var indent: string
    var lineBreak: string

    constructor ()
      ensures buffer == "" && depth == 0 && !simpleTextPrint && indent == "    " && lineBreak == "\n"
    {
      buffer, depth, simpleTextPrint, indent, lineBreak := "", 0, false, "    ", "\n";
    }

    method SetStreamPrinting()
      modifies this
      ensures Stream() && buffer == old(buffer) && depth == old(depth) && simpleTextPrint == old(simpleTextPrint)
    {
      indent, lineBreak := "", "";
    }

    predicate Stream()
      reads this
    {
      indent == "" && lineBreak == ""
    }

    /** Only the buffer is written to, and in stream mode it grows by `s`. */
    twostate predicate Wrote(s: string)
      reads this
    {
      && depth == old(depth) && simpleTextPrint == old(simpleTextPrint) && indent == old(indent) && lineBreak == old(lineBreak)
      && (old(Stream()) ==> buffer == old(buffer) + s)
    }

    method DoIndent()
      modifies this
      ensures Wrote("")
    {
      for i := 0 to depth
        invariant Wrote("")
        invariant depth == old(depth)
      {
        buffer := buffer + indent;
      }
    }

    method DoLineBreak()
      modifies this
      ensures Wrote("")
    {
      buffer := buffer + lineBreak;
    }

    method VisitEnter(n: Node)
      requires n.Element? && !simpleTextPrint
      modifies this
      ensures indent == old(indent) && lineBreak == old(lineBreak)
      ensures depth == old(depth) + 1 && (simpleTextPrint <==> Simple(n))
      ensures old(Stream()) ==> buffer == old(buffer) + Opening(n)
    {
      hide PrintAttributes, PrintAttribute;
      DoIndent();
      ghost var start := buffer;
      buffer := buffer + "<" + n.name;
      assert n.attributes[0..] == n.attributes;
      for i := 0 to |n.attributes|
        invariant depth == old(depth) && !simpleTextPrint && indent == old(indent) && lineBreak == old(lineBreak)
        invariant start + "<" + n.name + PrintAttributes(n.attributes) == buffer + PrintAttributes(n.attributes[i..])
      {
        AttributesStep(n.attributes, i);
        var a := PrintedAttribute(n.attributes[i]);
        assert buffer + (" " + a + PrintAttributes(n.attributes[i + 1..])) == buffer + " " + a + PrintAttributes(n.attributes[i + 1..]);
        buffer := buffer + " " + a;
      }
      NoAttributes(n.attributes, buffer);
      assert start + ("<" + n.name + PrintAttributes(n.attributes)) == buffer;
      if n.children == [] {
        assert buffer + " />" == start + Opening(n);
        buffer := buffer + " />";
        DoLineBreak();
      } else {
        assert buffer + ">" == start + Opening(n);
        buffer := buffer + ">";
        if n.children[0].Text? && |n.children| == 1 && !n.children[0].cdata {
          simpleTextPrint := true;
        } else {
          DoLineBreak();
        }
      }
      depth := depth + 1;
    }

    lemma NoAttributes(attributes: seq<Attribute>, s: string)
      ensures s + PrintAttributes(attributes[|attributes|..]) == s
    {
    }

    method VisitExit(n: Node)
      requires n.Element? && depth > 0 && (simpleTextPrint <==> Simple(n))
      modifies this
      ensures indent == old(indent) && lineBreak == old(lineBreak)
      ensures depth == old(depth) - 1 && !simpleTextPrint
      ensures old(Stream()) ==> buffer == old(buffer) + Closing(n)
    {
      hide Closing;
      depth := depth - 1;
      if n.children == [] {
        NothingClosed(n, buffer);
      } else {
        if simpleTextPrint {
          simpleTextPrint := false;
        } else {
          DoIndent();
        }
        ClosingText(n, buffer);
        buffer := buffer + "</" + n.name + ">";
        DoLineBreak();
      }
    }

    /** The leaves: text, comments and unknown nodes. */
    method Visit(n: Node)
      requires !n.Element?
      modifies this
      ensures Wrote(Print(n))
    {
      hide Encode, Print;
      LeafText(n, buffer);
      if n.Text? && !n.cdata && simpleTextPrint {
        var str := EncodeString(n.value);
        buffer := buffer + str;
        return;
      }
      DoIndent();
      LeafText(n, buffer);
      match n {
        case Text(v, cdata) =>
          if cdata {
            buffer := buffer + "<![CDATA[" + v + "]]>";
          } else {
            var str := EncodeString(v);
            buffer := buffer + str;
          }
        case Comment(v) =>
          buffer := buffer + "<!--" + v + "-->";
        case Unknown(v) =>
          buffer := buffer + "<" + v + ">";
      }
      DoLineBreak();
    }

    /**
     Accept: visits a node, its children in order, and leaves it. In stream mode the buffer
     grows by exactly what the node prints as, whatever was visited before, and the depth and
     the flag are as they were.
     */
    method Accept(n: Node)
      requires !simpleTextPrint || (n.Text? && !n.cdata)
      modifies this
      ensures Wrote(Print(n))
      decreases n
    {
      hide Print, PrintChildren, PrintAttributes, Opening, Closing;
      if !n.Element? {
        Visit(n);
        return;
      }
      VisitEnter(n);
      ghost var start := buffer;
      ChildrenFrom(n, start);
      for i := 0 to |n.children|
        invariant depth == old(depth) + 1 && (simpleTextPrint <==> Simple(n)) && indent == old(indent) && lineBreak == old(lineBreak)
        invariant old(Stream()) ==> start + PrintChildren(n, 0) == buffer + PrintChildren(n, i)
      {
        ChildrenStep(n, i, buffer);
        Accept(n.children[i]);
      }
      ChildrenFrom(n, buffer);
      VisitExit(n);
      ElementPrinted(n, old(buffer));
    }

    /** TiXmlDocument::Accept. */
    method AcceptDocument(nodes: seq<Node>)
      requires !simpleTextPrint
      modifies this
      ensures Wrote(PrintNodes(nodes))
    {
      hide Print;
      ghost var start := buffer;
      NodesRest(nodes, start);
      for i := 0 to |nodes|
        invariant depth == old(depth) && !simpleTextPrint && indent == old(indent) && lineBreak == old(lineBreak)
        invariant old(Stream()) ==> start + PrintNodes(nodes) == buffer + PrintNodes(nodes[i..])
      {
        NodesNext(nodes, i, buffer);
        Accept(nodes[i]);
      }
      NodesRest(nodes, buffer);
    }
  }

  lemma NodesRest(nodes: seq<Node>, s: string)
    ensures nodes[0..] == nodes && s + PrintNodes(nodes[|nodes|..]) == s
  {
  }

  lemma NodesNext(nodes: seq<Node>, k: nat, s: string)
    requires k < |nodes|
    ensures s + PrintNodes(nodes[k..]) == s + Print(nodes[k]) + PrintNodes(nodes[k + 1..])
  {
    assert nodes[k..][1..] == nodes[k + 1..];
  }

  lemma ChildrenFrom(n: Node, s: string)
    requires n.Element?
    ensures s + PrintChildren(n, |n.children|) == s
  {
  }

  lemma ChildrenStep(n: Node, k: nat, s: string)
    requires n.Element? && k < |n.children|
    ensures s + PrintChildren(n, k) == s + Print(n.children[k]) + PrintChildren(n, k + 1)
  {
  }
}
