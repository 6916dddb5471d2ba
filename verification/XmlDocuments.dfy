/**
 Exactly which documents come back.
 */
module XmlDocuments {
  import opened Wrappers
  import opened Xml
  import opened XmlRoundTrip
  import opened XmlItems
  import opened XmlReading

  // ---------------------------------------------------------------- the items of parsed nodes

  lemma ChainedBoth(a: seq<Item>, b: seq<Item>)
    requires Chained(a) && Chained(b) && (a != [] && b != [] ==> Fits(a[|a| - 1], b[0]))
    ensures Chained(a + b)
  {
    hide Fits, LegalName;
    var xs := a + b;
    forall i | 0 < i < |xs| ensures Fits(xs[i - 1], xs[i]) {
      if i < |a| {
        assert xs[i - 1] == a[i - 1] && xs[i] == a[i];
      } else if i > |a| {
        assert xs[i - 1] == b[i - |a| - 1] && xs[i] == b[i - |a|];
      }
    }
    assert forall i :: 0 <= i < |xs| ==> xs[i] == if i < |a| then a[i] else b[i - |a|];
  }

  lemma TagChained(name: string, attributes: seq<Attribute>)
    requires forall a <- attributes :: LegalName(a.name)
    ensures Chained([Open(name)] + AttrItems(attributes))
  {
    hide LegalName;
    var xs := [Open(name)] + AttrItems(attributes);
    assert forall i :: 0 < i < |xs| ==> xs[i] == Attr(attributes[i - 1]) && attributes[i - 1] in attributes;
  }

  lemma {:induction false} NodeChained(n: Node)
    requires Known(n) && Shape(n)
    ensures Chained(ItemsOf(n))
    decreases n
  {
    hide Chained, LegalName;
    if n.Element? {
      TagChained(n.name, n.attributes);
      if n.children == [] {
        OneChained(EmptyEnd);
      } else {
        SeqChained(n.children);
        SeqEdges(n.children);
        EndChained(n.name, n.children);
      }
      ChainedTag(n);
    } else {
      OneChained(ItemsOf(n)[0]);
      assert ItemsOf(n) == [ItemsOf(n)[0]];
    }
  }

  lemma OneChained(x: Item)
    requires !x.Attr?
    ensures Chained([x])
  {
  }

  lemma ChainedTag(n: Node)
    requires n.Element? && Chained([Open(n.name)] + AttrItems(n.attributes)) && Chained(EndItems(n.name, n.children))
    ensures Chained(ItemsOf(n))
  {
    hide Chained;
    var a, b := [Open(n.name)] + AttrItems(n.attributes), EndItems(n.name, n.children);
    assert a[|a| - 1].Open? || a[|a| - 1].Attr?;
    assert b[0].EmptyEnd? || b[0].StartEnd?;
    ChainedBoth(a, b);
  }

  lemma EndChained(name: string, children: seq<Node>)
    requires children != [] && Chained(SeqItems(children)) && SeqItems(children) != [] && !Spaced(SeqItems(children)[0])
    ensures Chained(EndItems(name, children))
  {
    hide Chained, SeqItems;
    var xs := SeqItems(children);
    OneChained(StartEnd);
    OneChained(Close(name));
    ChainedBoth([StartEnd], xs);
    ChainedBoth([StartEnd] + xs, [Close(name)]);
  }

  lemma SeqEdges(nodes: seq<Node>)
    requires nodes != [] && forall n <- nodes :: Known(n)
    ensures var xs := SeqItems(nodes); xs != [] && (if PlainText(nodes[0]) then xs[0].Plain? else Marked(xs[0]))
  {
    assert nodes[0] in nodes;
    NodeEdges(nodes[0]);
  }

  lemma {:induction false} SeqChained(nodes: seq<Node>)
    requires (forall n <- nodes :: Known(n) && Shape(n)) && NoAdjacentText(nodes)
    ensures Chained(SeqItems(nodes))
    decreases nodes
  {
    hide Chained, Known, Shape, ItemsOf;
    if nodes == [] {
      NothingChained();
    } else {
      var rest := nodes[1..];
      assert nodes[0] in nodes && forall n <- rest :: n in nodes;
      assert forall i :: 0 <= i < |rest| ==> rest[i] == nodes[i + 1];
      NodeChained(nodes[0]);
      SeqChained(rest);
      NodeEdges(nodes[0]);
      if rest != [] {
        SeqEdges(rest);
        assert !(PlainText(nodes[0]) && PlainText(nodes[1]));
      }
      ChainedBoth(ItemsOf(nodes[0]), SeqItems(rest));
    }
  }

  lemma NothingChained()
    ensures Chained([])
  {
  }

  lemma {:induction false} SeqLast(nodes: seq<Node>)
    requires forall n <- nodes :: Known(n) && !PlainText(n)
    ensures var xs := SeqItems(nodes); xs != [] ==> !xs[|xs| - 1].Plain?
    decreases |nodes|
  {
    hide Known, ItemsOf;
    if nodes != [] {
      assert nodes[0] in nodes && forall n <- nodes[1..] :: n in nodes;
      NodeEdges(nodes[0]);
      SeqLast(nodes[1..]);
    }
  }

  lemma {:induction false} ItemsWithin(nodes: seq<Node>, c: Node)
    requires c in nodes
    ensures forall x <- ItemsOf(c) :: x in SeqItems(nodes)
    decreases |nodes|
  {
    hide ItemsOf;
    if nodes[0] != c {
      ItemsWithin(nodes[1..], c);
    }
  }

  lemma {:induction false} LegalFrom(n: Node)
    requires Shape(n) && Known(n) && forall x <- ItemsOf(n) :: Good(x)
    ensures Legal(n)
    decreases n
  {
    match n
    case Text(v, cdata) =>
      assert ItemsOf(n)[0] in ItemsOf(n);
    case Comment(_) =>
    case Element(name, attributes, children) =>
      GoodAttributes(n);
      forall c | c in children ensures Legal(c) {
        GoodChild(n, c);
        LegalFrom(c);
      }
  }

  lemma GoodAttributes(n: Node)
    requires n.Element? && NamedApart(n.attributes) && forall x <- ItemsOf(n) :: Good(x)
    ensures LegalAttributes(n.attributes)
  {
    hide LegalName, NoReference, EndItems;
    var xs := AttrItems(n.attributes);
    forall a | a in n.attributes ensures NoReference(a.value) {
      var i :| 0 <= i < |n.attributes| && n.attributes[i] == a;
      assert xs[i] == Attr(a);
      assert ItemsOf(n)[1 + i] == Attr(a);
      assert Good(Attr(a));
    }
  }

  lemma GoodChild(n: Node, c: Node)
    requires n.Element? && c in n.children && forall x <- ItemsOf(n) :: Good(x)
    ensures forall x <- ItemsOf(c) :: Good(x)
  {
    hide Good, SeqItems;
    ItemsWithin(n.children, c);
    var xs := SeqItems(n.children);
    var ends := EndItems(n.name, n.children);
    forall x | x in xs ensures Good(x) {
      assert x in ends;
    }
  }

  // ---------------------------------------------------------------- the round trip

  lemma {:induction false} DocumentIsLegal(nodes: seq<Node>)
    requires (forall n <- nodes :: Known(n)) && ParseDocument(PrintNodes(nodes)) == Some(nodes)
    ensures LegalDocument(nodes)
  {
    hide Known, ParseNodes, Reads, Ordered, Chained, SeqItems, PrintNodes, PrintItems, CString, Shape, Good, Legal;
    var printed, xs := PrintNodes(nodes), SeqItems(nodes);
    SeqPrinted(nodes);
    var left := CStringCut(printed);
    var s := CString(printed);
    ParsedNodes(s, nodes);
    ReadsMore(s, xs, "", left);
    assert "" + left == left;
    ItemsOrdered(nodes);
    WholeSuffix(printed);
    AllGood(xs, printed, left);
    forall n | n in nodes ensures Legal(n) {
      ItemsWithin(nodes, n);
      LegalFrom(n);
    }
  }

  lemma ItemsOrdered(nodes: seq<Node>)
    requires forall n <- nodes :: Known(n) && Shape(n) && !PlainText(n)
    ensures Ordered(SeqItems(nodes))
  {
    hide Known, Shape, Chained;
    assert NoAdjacentText(nodes) by {
      assert forall i :: 0 <= i < |nodes| ==> nodes[i] in nodes;
    }
    SeqChained(nodes);
    SeqLast(nodes);
  }

  /**
   The round trip: a document of elements, text, comments and CDATA sections comes back from
   parsing what the stream printer wrote if and only if it has at least one node, no text on its
   own at the top, legal names, distinct attribute names, values without `&#x`, tidy text that
   is not blank and not next to other text, and no NUL or end marker in comments and CDATA
   sections.
   */
  lemma DocumentRoundTrip(nodes: seq<Node>)
    requires forall n <- nodes :: Known(n)
    ensures ParseDocument(PrintNodes(nodes)) == Some(nodes) <==> LegalDocument(nodes)
  {
    if LegalDocument(nodes) {
      LegalComesBack(nodes);
    } else if ParseDocument(PrintNodes(nodes)) == Some(nodes) {
      DocumentIsLegal(nodes);
    }
  }
}
