/**
 A document as the items that the printer writes one after the other. A read of those items that
 once gets ahead of what was printed, through a reference that swallows what follows it, stays
 ahead up to the end, where nothing is left to read.
 */
module XmlItems {
  import opened Wrappers
  import opened Sequences
  import opened Xml
  import opened XmlRoundTrip
  import opened XmlRests

  // ---------------------------------------------------------------- a document as items

  /** What the printer writes and the parser reads in one go. */
  datatype Item =
    | Open(name: string)
    | Attr(a: Attribute)
    | EmptyEnd
    | StartEnd
    | Plain(v: string)
    | CData(v: string)
    | Remark(v: string)
    | Close(name: string)

  function Own(x: Item): string
  {
    match x
    case Open(name) => "<" + name
    case Attr(a) => PrintAttribute(a)
    case EmptyEnd => "/>"
    case StartEnd => ">"
    case Plain(v) => Encode(v)
    case CData(v) => "<![CDATA[" + v + "]]>"
    case Remark(v) => "<!--" + v + "-->"
    case Close(name) => "</" + name + ">"
  }

  /** A space is printed in front. */
  predicate Spaced(x: Item)
  {
    x.Attr? || x.EmptyEnd?
  }

  function Lead(xs: seq<Item>): nat
  {
    if xs != [] && Spaced(xs[0]) then 1 else 0
  }

  function PrintItem(x: Item): string
  {
    (if Spaced(x) then " " else "") + Own(x)
  }

  function PrintItems(xs: seq<Item>): string
  {
    if xs == [] then "" else PrintItem(xs[0]) + PrintItems(xs[1..])
  }

  function AttrItems(attributes: seq<Attribute>): (xs: seq<Item>)
    ensures |xs| == |attributes| && forall i :: 0 <= i < |xs| ==> xs[i] == Attr(attributes[i])
  {
    seq(|attributes|, i requires 0 <= i < |attributes| => Attr(attributes[i]))
  }

  function ItemsOf(n: Node): seq<Item>
    decreases n
  {
    match n
    case Text(v, cdata) => [if cdata then CData(v) else Plain(v)]
    case Comment(v) => [Remark(v)]
    case Unknown(_) => []
    case Element(name, attributes, children) => [Open(name)] + AttrItems(attributes) + EndItems(name, children)
  }

  /** The end of a start tag, the children, and the end tag. */
  function EndItems(name: string, children: seq<Node>): seq<Item>
    decreases children, 1
  {
    if children == [] then [EmptyEnd] else [StartEnd] + SeqItems(children) + [Close(name)]
  }

  function SeqItems(nodes: seq<Node>): seq<Item>
    decreases nodes, 0
  {
    if nodes == [] then [] else ItemsOf(nodes[0]) + SeqItems(nodes[1..])
  }

  /** No `<...>` of another kind anywhere. */
  predicate Known(n: Node)
    decreases n
  {
    match n
    case Unknown(_) => false
    case Element(_, _, children) => forall c <- children :: Known(c)
    case _ => true
  }

  lemma {:induction false} PrintBoth(a: seq<Item>, b: seq<Item>)
    ensures PrintItems(a + b) == PrintItems(a) + PrintItems(b)
  {
    hide PrintItem;
    if a == [] {
      assert a + b == b;
      assert "" + PrintItems(b) == PrintItems(b);
    } else {
      PrintBoth(a[1..], b);
      assert (a + b)[1..] == a[1..] + b;
      Associative(PrintItem(a[0]), PrintItems(a[1..]), PrintItems(b));
    }
  }

  lemma PrintOne(x: Item)
    ensures PrintItems([x]) == PrintItem(x)
  {
    assert [x][1..] == [];
    assert PrintItem(x) + "" == PrintItem(x);
  }

  lemma {:induction false} AttributesPrinted(attributes: seq<Attribute>)
    ensures PrintItems(AttrItems(attributes)) == PrintAttributes(attributes)
  {
    if attributes != [] {
      AttributesPrinted(attributes[1..]);
      assert AttrItems(attributes)[1..] == AttrItems(attributes[1..]);
      assert PrintItem(Attr(attributes[0])) == " " + PrintAttribute(attributes[0]);
    }
  }

  lemma {:induction false} NodePrinted(n: Node)
    requires Known(n)
    ensures PrintItems(ItemsOf(n)) == Print(n)
    decreases n
  {
    match n
    case Text(v, cdata) =>
      PrintOne(if cdata then CData(v) else Plain(v));
      assert "" + Print(n) == Print(n);
    case Comment(v) =>
      PrintOne(Remark(v));
      assert "" + Print(n) == Print(n);
    case Element(name, attributes, children) =>
      if children != [] {
        SeqPrinted(children);
        ChildrenPrinted(n, 0);
        assert children[0..] == children;
      }
      ElementPrinted(n);
  }

  lemma TagsPrinted(name: string)
    ensures PrintItem(Open(name)) == "<" + name && PrintItem(EmptyEnd) == " />" && PrintItem(StartEnd) == ">"
    ensures PrintItem(Close(name)) == "</" + name + ">"
  {
  }

  lemma ElementRegroups(name: string, attributes: string, body: string)
    ensures "<" + name + attributes + (">" + body + ("</" + name + ">")) == "<" + name + attributes + (">" + body + "</" + name + ">")
  {
  }

  lemma ElementPrinted(n: Node)
    requires n.Element? && (n.children != [] ==> PrintItems(SeqItems(n.children)) == PrintChildren(n, 0))
    ensures PrintItems(ItemsOf(n)) == Print(n)
  {
    hide SeqItems, PrintChildren, PrintItems, PrintItem, PrintAttributes, AttrItems;
    var name, attrs := n.name, AttrItems(n.attributes);
    AttributesPrinted(n.attributes);
    TagsPrinted(name);
    PrintOne(Open(name));
    PrintBoth([Open(name)], attrs);
    if n.children == [] {
      PrintOne(EmptyEnd);
      PrintBoth([Open(name)] + attrs, [EmptyEnd]);
    } else {
      var body := SeqItems(n.children);
      PrintOne(StartEnd);
      PrintOne(Close(name));
      PrintBoth([StartEnd], body);
      PrintBoth([StartEnd] + body, [Close(name)]);
      PrintBoth([Open(name)] + attrs, [StartEnd] + body + [Close(name)]);
      ElementRegroups(name, PrintAttributes(n.attributes), PrintChildren(n, 0));
    }
  }

  lemma {:induction false} ChildrenPrinted(n: Node, k: nat)
    requires n.Element? && k <= |n.children|
    ensures PrintChildren(n, k) == PrintNodes(n.children[k..])
    decreases |n.children| - k
  {
    if k < |n.children| {
      ChildrenPrinted(n, k + 1);
      assert n.children[k..][1..] == n.children[k + 1..];
    }
  }

  lemma {:induction false} SeqPrinted(nodes: seq<Node>)
    requires forall n <- nodes :: Known(n)
    ensures PrintItems(SeqItems(nodes)) == PrintNodes(nodes)
    decreases nodes
  {
    if nodes != [] {
      assert nodes[0] in nodes && forall n <- nodes[1..] :: n in nodes;
      NodePrinted(nodes[0]);
      SeqPrinted(nodes[1..]);
      PrintBoth(ItemsOf(nodes[0]), SeqItems(nodes[1..]));
    }
  }

  /** The first and the last item of a node. */
  lemma NodeEdges(n: Node)
    requires Known(n)
    ensures var xs := ItemsOf(n);
      && xs != [] && (if PlainText(n) then xs[0].Plain? else Marked(xs[0]))
      && (xs[|xs| - 1].Plain? ==> PlainText(n))
  {
    if n.Element? {
      var xs := ItemsOf(n);
      var ends := EndItems(n.name, n.children);
      assert xs[|xs| - 1] == ends[|ends| - 1];
      assert xs[0] == Open(n.name);
    }
  }

  // ---------------------------------------------------------------- reading items

  /**
   What reading one item does to the text. Markup is read literally, perhaps behind text that is
   dropped; what matters of it is how much is gone.
   */
  predicate Step(s: string, x: Item, rest: string)
  {
    && Suffix(s, rest)
    && match x
       case Open(name) => |rest| + 1 + |name| <= |s| && |rest| < |s| && NameChar(s[|s| - |rest| - 1])
       case Attr(a) => ParseAttribute(Skip(s)) == Some((a, rest)) && rest != ""
       case EmptyEnd => |rest| + 2 <= |Skip(s)|
       case StartEnd => |rest| + 1 <= |s|
       case Plain(v) => Skip(s) != "" && Skip(s)[0] != '<' && ReadCondensed(Skip(s), false) == Some((v, rest)) && rest != ""
       case CData(v) => |rest| + |v| + 12 <= |s|
       case Remark(v) => |rest| + |v| + 7 <= |s|
       case Close(name) => |rest| + |name| + 3 <= |s|
  }

  /** The items are read one after the other, and something is left. */
  ghost predicate Reads(s: string, xs: seq<Item>, left: string)
    decreases |xs|
  {
    if xs == [] then Suffix(s, left) else exists rest :: Step(s, xs[0], rest) && Reads(rest, xs[1..], left)
  }

  /** What comes back only if it was printed right. */
  predicate Good(x: Item)
  {
    match x
    case Attr(a) => NoReference(a.value)
    case Plain(v) => NoReference(v) && Tidy(v)
    case _ => true
  }

  predicate Marked(x: Item)
  {
    x.Open? || x.CData? || x.Remark? || x.Close?
  }

  /** Text is followed by markup, and a printed space by what can be in a tag. */
  predicate Fits(x: Item, y: Item)
  {
    (x.Plain? ==> Marked(y)) && (Spaced(y) ==> x.Open? || x.Attr?)
  }

  predicate Chained(xs: seq<Item>)
  {
    && (forall i :: 0 < i < |xs| ==> Fits(xs[i - 1], xs[i]))
    && forall i :: 0 <= i < |xs| && xs[i].Attr? ==> LegalName(xs[i].a.name)
  }

  predicate Ordered(xs: seq<Item>)
  {
    Chained(xs) && (xs != [] ==> !xs[|xs| - 1].Plain?)
  }

  lemma MarkedStarts(xs: seq<Item>)
    requires xs != [] && Marked(xs[0])
    ensures PrintItems(xs) != "" && PrintItems(xs)[0] == '<'
  {
  }

  lemma SpaceStarts(xs: seq<Item>)
    ensures Lead(xs) == 1 ==> PrintItems(xs) != "" && PrintItems(xs)[0] == ' '
  {
  }

  /** In step with what was printed, or farther, and not only by a space. */
  predicate InStep(s: string, printed: string)
  {
    s == printed
  }

  predicate Ahead(s: string, printed: string, lead: nat)
  {
    |s| + lead < |printed|
  }

  /** One item: in step and well printed, or ahead from then on. */
  ghost predicate Kept(x: Item, s: string, printed: string, rest: string, after: string, lead: nat)
  {
    (InStep(s, printed) && InStep(rest, after) && Good(x)) || Ahead(rest, after, lead)
  }

  lemma SameLength(s: string, r: string, t: string)
    requires Suffix(s, r) && Suffix(s, t) && |r| == |t|
    ensures r == t
  {
  }

  lemma OwnSuffix(x: Item, after: string)
    ensures Suffix(PrintItem(x) + after, after) && Suffix(PrintItem(x) + after, Own(x) + after)
  {
    var lead := if Spaced(x) then " " else "";
    assert PrintItem(x) + after == lead + (Own(x) + after);
  }

  /** Markup that is read literally. */
  lemma LiteralStep(x: Item, s: string, rest: string, after: string, lead: nat)
    requires x.CData? || x.Remark? || x.Close? || x.StartEnd? || x.Open?
    requires Suffix(PrintItem(x) + after, s) && Step(s, x, rest)
    requires lead <= 1 && (lead == 1 ==> x.Open? && after != "" && after[0] == ' ')
    ensures Kept(x, s, PrintItem(x) + after, rest, after, lead)
  {
    hide PrintItem, Suffix;
    var whole := PrintItem(x) + after;
    LiteralLength(x);
    OwnSuffix(x, after);
    SuffixTwice(whole, s, rest);
    SuffixShorter(whole, s);
    if |rest| == |after| {
      SameLength(whole, rest, after);
      SameLength(whole, s, whole) by {
        WholeSuffix(whole);
      }
    } else if x.Open? && lead == 1 && |rest| + 1 == |after| {
      SuffixesNest(whole, s, after);
      SuffixAt(s, after);
    }
  }

  lemma LiteralLength(x: Item)
    ensures match x
      case Open(name) => |PrintItem(x)| == 1 + |name|
      case StartEnd => |PrintItem(x)| == 1
      case CData(v) => |PrintItem(x)| == |v| + 12
      case Remark(v) => |PrintItem(x)| == |v| + 7
      case Close(name) => |PrintItem(x)| == |name| + 3
      case _ => true
  {
  }

  lemma SuffixShorter(s: string, r: string)
    requires Suffix(s, r)
    ensures |r| <= |s|
  {
  }

  lemma WholeSuffix(s: string)
    ensures Suffix(s, s)
  {
  }

  lemma SuffixAt(s: string, r: string)
    requires Suffix(s, r) && r != ""
    ensures |r| <= |s| && s[|s| - |r|] == r[0]
  {
  }

  lemma SkipShrinks(s: string)
    ensures |Skip(s)| <= |s|
  {
  }

  lemma EmptyEndStep(s: string, rest: string, after: string)
    requires Suffix(" />" + after, s) && Step(s, EmptyEnd, rest) && (s == " />" + after || |s| + 1 < |" />" + after|)
    ensures Kept(EmptyEnd, s, " />" + after, rest, after, 0)
  {
    hide Suffix;
    var whole := " />" + after;
    SuffixTwice(whole, s, rest);
    ConcatSuffix(" />", after);
    SkipShrinks(s);
    if s == whole {
      assert whole == " " + ("/>" + after);
      SkipSpace("/>" + after);
      if |rest| == |after| {
        SameLength(whole, rest, after);
      }
    }
  }

  lemma PrintedName(a: Attribute, after: string)
    requires LegalName(a.name)
    ensures PrintAttribute(a) + after != "" && NameStart((PrintAttribute(a) + after)[0])
  {
    hide Encode, PrintAttribute, Quoted;
    var q := QuoteOf(a);
    NameEncoded(a.name);
    QuotedText(q, a.name, Encode(a.value), after);
  }

  lemma AttributeShrinks(s: string)
    ensures ParseAttribute(s).Some? ==> |ParseAttribute(s).value.1| < |s|
  {
  }

  lemma {:induction false} SkipSkips(s: string)
    ensures Skip(s) == "" || !IsWhiteSpace(Skip(s)[0])
    ensures Skip(Skip(s)) == Skip(s)
  {
    SkipNothing(Skip(s));
  }

  lemma AttrStep(a: Attribute, s: string, rest: string, after: string, lead: nat)
    requires LegalName(a.name) && Suffix(" " + PrintAttribute(a) + after, s) && Step(s, Attr(a), rest)
    requires s == " " + PrintAttribute(a) + after || |s| + 1 < |" " + PrintAttribute(a) + after|
    requires lead <= 1 && (lead == 1 ==> after != "" && after[0] == ' ')
    ensures Kept(Attr(a), s, " " + PrintAttribute(a) + after, rest, after, lead)
  {
    hide Suffix, PrintAttribute, ParseAttribute, Skip, NoReference, LegalName, NameStart;
    var own := PrintAttribute(a) + after;
    var whole := " " + PrintAttribute(a) + after;
    assert whole == " " + own;
    if s == whole {
      PrintedName(a, after);
      NamesAreNoSpace();
      SkipSpace(own);
      AttributeAligned(a, after);
    } else {
      var p := Skip(s);
      SkipSkips(s);
      SkipSuffix(s);
      SuffixTwice(whole, s, p);
      SuffixShorter(s, p);
      ConcatSuffix(" ", own);
      SuffixesNest(whole, own, p);
      AttrAheadStep(a, p, rest, after, lead);
    }
  }

  lemma NamesAreNoSpace()
    ensures forall c :: NameStart(c) ==> !IsWhiteSpace(c)
  {
  }

  lemma AttrAheadStep(a: Attribute, p: string, rest: string, after: string, lead: nat)
    requires LegalName(a.name) && Suffix(PrintAttribute(a) + after, p) && |p| < |PrintAttribute(a) + after|
    requires ParseAttribute(p) == Some((a, rest)) && (p == "" || !IsWhiteSpace(p[0]))
    requires lead <= 1 && (lead == 1 ==> after != "" && after[0] == ' ')
    ensures Ahead(rest, after, lead)
  {
    hide Suffix, PrintAttribute, ParseAttribute, NoReference, LegalName;
    AttributeShrinks(p);
    if |p| > |after| {
      AttributeAhead(a, after, p);
    } else if |p| == |after| {
      ConcatSuffix(PrintAttribute(a), after);
      SameLength(PrintAttribute(a) + after, p, after);
    }
  }

  lemma PlainItemStep(v: string, s: string, rest: string, after: string)
    requires after != "" && after[0] == '<' && Suffix(Encode(v) + after, s) && Step(s, Plain(v), rest)
    ensures Kept(Plain(v), s, Encode(v) + after, rest, after, 0)
  {
    hide Suffix, Encode, ReadCondensed, Skip, NoReference;
    var whole := Encode(v) + after;
    var p := Skip(s);
    SkipSkips(s);
    if s == whole {
      TextAligned(v, after);
    } else {
      SuffixShorter(whole, s);
      if |s| == |whole| {
        WholeSuffix(whole);
        SameLength(whole, s, whole);
      }
      SkipSuffix(s);
      SuffixTwice(whole, s, p);
      SuffixShorter(s, p);
      if |p| > |after| {
        TextAhead(v, after, p);
      } else {
        ReadCondensedAdvances(p);
      }
    }
  }

  lemma OrderedTail(xs: seq<Item>)
    requires xs != [] && Ordered(xs)
    ensures Ordered(xs[1..])
  {
  }

  lemma ItemStep(xs: seq<Item>, s: string, rest: string)
    requires xs != [] && Ordered(xs) && Suffix(PrintItems(xs), s) && Step(s, xs[0], rest)
    requires InStep(s, PrintItems(xs)) || Ahead(s, PrintItems(xs), Lead(xs))
    ensures Kept(xs[0], s, PrintItems(xs), rest, PrintItems(xs[1..]), Lead(xs[1..]))
  {
    var x, tail := xs[0], xs[1..];
    var after := PrintItems(tail);
    assert PrintItems(xs) == PrintItem(x) + after;
    SpaceStarts(tail);
    assert tail != [] ==> Fits(xs[0], xs[1]);
    hide PrintItems, Step, Kept, Suffix, LegalName;
    match x
    case Attr(a) =>
      assert PrintItem(x) == " " + PrintAttribute(a);
      AttrStep(a, s, rest, after, Lead(tail));
    case EmptyEnd =>
      assert PrintItem(x) == " />";
      EmptyEndStep(s, rest, after);
    case Plain(v) =>
      assert PrintItem(x) == Encode(v);
      MarkedStarts(tail);
      PlainItemStep(v, s, rest, after);
    case _ =>
      LiteralStep(x, s, rest, after, Lead(tail));
  }

  /**
   A text that reads as the items it was printed from, from the start or from behind, is read
   from the start and to the end, and every item comes back only because it was good.
   */
  lemma {:induction false} AllGood(xs: seq<Item>, s: string, left: string)
    requires Ordered(xs) && Reads(s, xs, left) && Suffix(PrintItems(xs), s)
    requires InStep(s, PrintItems(xs)) || Ahead(s, PrintItems(xs), Lead(xs))
    ensures InStep(s, PrintItems(xs)) && left == "" && forall x <- xs :: Good(x)
    decreases |xs|
  {
    if xs != [] {
      var rest :| Step(s, xs[0], rest) && Reads(rest, xs[1..], left);
      var whole, after := PrintItems(xs), PrintItems(xs[1..]);
      ConcatSuffix(PrintItem(xs[0]), after);
      ItemStep(xs, s, rest);
      OrderedTail(xs);
      hide PrintItems, Step, Ordered, Suffix, Good;
      StepSuffix(s, xs[0], rest);
      SuffixTwice(whole, s, rest);
      SuffixesNest(whole, after, rest);
      AllGood(xs[1..], rest, left);
    }
  }

  lemma StepSuffix(s: string, x: Item, rest: string)
    requires Step(s, x, rest)
    ensures Suffix(s, rest)
  {
  }
}
