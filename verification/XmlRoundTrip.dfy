/**
 Parsing what the stream printer wrote gives back the same tree.
 */
module XmlRoundTrip {
  import opened Wrappers
  import opened Sequences
  import opened Xml

  // ---------------------------------------------------------------- what round-trips

  predicate LegalName(name: string)
  {
    name != "" && NameStart(name[0]) && forall c <- name :: NameChar(c)
  }

  /** No `&#x` anywhere. */
  predicate NoReference(s: string)
  {
    forall i :: 0 <= i < |s| ==> !HexReference(s[i..])
  }

  predicate Contains(s: string, tag: string)
  {
    exists i :: 0 <= i < |s| && StartsWith(s[i..], tag)
  }

  predicate NoNul(s: string)
  {
    '\0' !in s
  }

  /** Spaces only one at a time and between other characters. */
  predicate Tidy(s: string)
  {
    && (s != "" ==> s[0] != ' ' && s[|s| - 1] != ' ')
    && forall i :: 0 < i < |s| ==> s[i - 1] != ' ' || s[i] != ' '
  }

  predicate LegalAttributes(attributes: seq<Attribute>)
  {
    && (forall a <- attributes :: LegalName(a.name) && NoReference(a.value))
    && forall i, j :: 0 <= i < j < |attributes| ==> attributes[i].name != attributes[j].name
  }

  predicate PlainText(n: Node)
  {
    n.Text? && !n.cdata
  }

  predicate NoAdjacentText(nodes: seq<Node>)
  {
    forall i :: 0 < i < |nodes| ==> !(PlainText(nodes[i - 1]) && PlainText(nodes[i]))
  }

  predicate Legal(n: Node)
  {
    match n
    case Text(v, cdata) => if cdata then NoNul(v) && !Contains(v, "]]>") else NoReference(v) && Tidy(v) && !Blank(v)
    case Comment(v) => NoNul(v) && !Contains(v, "-->")
    case Unknown(_) => false
    case Element(name, attributes, children) =>
      LegalName(name) && LegalAttributes(attributes) && NoAdjacentText(children) && forall c <- children :: Legal(c)
  }

  // ---------------------------------------------------------------- entities

  lemma NoReferenceTail(s: string)
    requires NoReference(s) && s != ""
    ensures NoReference(s[1..]) && Encode(s) == EncodeChar(s[0]) + Encode(s[1..])
  {
    assert s[0..] == s;
    forall i | 0 <= i < |s[1..]| ensures !HexReference(s[1..][i..]) {
      assert s[1..][i..] == s[i + 1..];
    }
  }

  lemma HexDigitValue(n: nat)
    requires n < 16
    ensures DigitValue(HexDigit(n), 16) == Some(n) && HexDigit(n) != ';' && HexDigit(n) != 'x'
  {
  }

  lemma LastDigit(s: string, n: nat, mult: nat, sum: nat)
    requires n < 16 && mult < 0x1000 && sum < 0x1000
    ensures Digits(s + [HexDigit(n)], 'x', 16, mult, sum) == Digits(s, 'x', 16, mult * 16, sum + mult * n)
  {
    hide HexDigit, DigitValue;
    HexDigitValue(n);
    var t := s + [HexDigit(n)];
    assert t[..|t| - 1] == s && t[|t| - 1] == HexDigit(n);
    SmallProduct(mult, n);
    NoWrap(mult * 16, sum + mult * n, mult * n);
  }

  lemma SmallProduct(mult: nat, n: nat)
    requires mult < 0x1000 && n < 16
    ensures mult * n < 0x1_0000
  {
    assert mult * n <= mult * 16;
  }

  lemma NoWrap(mult: nat, sum: nat, product: nat)
    requires mult < 0x1_0000 && sum < 0x2_0000 && product < 0x1_0000
    ensures mult % 0x1_0000_0000 == mult && product % 0x1_0000_0000 == product && sum % 0x1_0000_0000_0000_0000 == sum
  {
  }

  lemma TwoDigits(hi: nat, lo: nat)
    requires hi < 16 && lo < 16
    ensures Digits(['x', HexDigit(hi), HexDigit(lo)], 'x', 16, 1, 0) == Some(16 * hi + lo)
  {
    hide HexDigit;
    var h, l := HexDigit(hi), HexDigit(lo);
    LastDigit(['x', h], lo, 1, 0);
    LastDigit(['x'], hi, 16, lo);
    assert ['x', h] + [l] == ['x', h, l] && ['x'] + [h] == ['x', h];
  }

  lemma SemicolonAt(s: string)
    requires |s| > 5 && s[3] != ';' && s[4] != ';' && s[5] == ';'
    ensures Semicolon(s, 3) == Some(5)
  {
    assert Semicolon(s, 5) == Some(5);
    assert Semicolon(s, 4) == Some(5);
  }

  /** A two-digit hexadecimal reference is read back. */
  lemma HexRead(c: char, r: string)
    requires c < ' '
    ensures GetChar(EncodeChar(c) + r) == Some(([c], r))
  {
    hide Digits, Semicolon, HexDigit, DigitValue;
    var hi, lo := c as nat / 16, c as nat % 16;
    var s := EncodeChar(c) + r;
    HexDigitValue(hi);
    HexDigitValue(lo);
    assert s == "&#x" + [HexDigit(hi), HexDigit(lo), ';'] + r;
    assert s[2] == 'x' && s[3] == HexDigit(hi) && s[4] == HexDigit(lo) && s[5] == ';';
    SemicolonAt(s);
    assert s[2..5] == ['x', HexDigit(hi), HexDigit(lo)];
    TwoDigits(hi, lo);
    assert s[6..] == r;
  }

  lemma StartsDiffer(s: string, tag: string)
    requires |s| > 1 && |tag| > 1 && s[1] != tag[1]
    ensures !StartsWith(s, tag)
  {
    assert |tag| <= |s| ==> s[..|tag|][1] == s[1];
  }

  lemma NamedRead(e: string, r: string)
    requires e in ["&amp;", "&lt;", "&gt;", "&quot;", "&apos;"]
    ensures GetEntity(e + r) ==
      Some((if e == "&amp;" then "&" else if e == "&lt;" then "<" else if e == "&gt;" then ">" else if e == "&quot;" then "\"" else "\'", r))
  {
    var s := e + r;
    assert s[..|e|] == e && s[|e|..] == r && s[1] == e[1];
    if e != "&amp;" && e != "&apos;" {
      StartsDiffer(s, "&amp;");
      if e == "&gt;" || e == "&quot;" {
        StartsDiffer(s, "&lt;");
      }
      if e == "&quot;" {
        StartsDiffer(s, "&gt;");
      }
    } else if e == "&apos;" {
      assert s[..5][2] == 'p';
      StartsDiffer(s, "&lt;");
      StartsDiffer(s, "&gt;");
      StartsDiffer(s, "&quot;");
    }
  }

  /** Decoding undoes encoding, character by character. */
  lemma CharRead(c: char, r: string)
    ensures EncodeChar(c) + r != "" && GetChar(EncodeChar(c) + r) == Some(([c], r))
  {
    var e := EncodeChar(c);
    if c < ' ' {
      HexRead(c, r);
    } else if e == [c] {
      assert (e + r)[1..] == r;
    } else {
      NamedRead(e, r);
    }
  }

  /** What an encoded character looks like to the loops that read text. */
  lemma EncodedStart(c: char)
    ensures var e := EncodeChar(c);
      e != "" && e[0] != '<' && e[0] != '\"' && e[0] != '\'' && e[0] != '\0' && (IsWhiteSpace(e[0]) <==> c == ' ')
    ensures NoNul(EncodeChar(c))
  {
  }

  lemma NothingEncoded(r: string)
    ensures Encode("") + r == r
  {
  }

  lemma EncodedNext(v: string, r: string)
    requires NoReference(v) && v != ""
    ensures NoReference(v[1..]) && v == [v[0]] + v[1..] && Encode(v) + r == EncodeChar(v[0]) + (Encode(v[1..]) + r)
  {
    NoReferenceTail(v);
    hide Encode, EncodeChar, NoReference;
    Associative(EncodeChar(v[0]), Encode(v[1..]), r);
    assert v == [v[0]] + v[1..];
  }

  lemma KeptEnds(q: char, r: string)
    ensures ReadKept([q] + r, [q]) == Some(("", r))
  {
    assert ([q] + r)[..1] == [q] && ([q] + r)[1..] == r;
  }

  /** Text between quotes. */
  lemma {:induction false} KeptRead(v: string, q: char, r: string)
    requires NoReference(v) && (q == '\"' || q == '\'')
    ensures ReadKept(Encode(v) + ([q] + r), [q]) == Some((v, r))
    decreases |v|
  {
    hide ReadKept, Encode, EncodeChar, NoReference;
    if v == "" {
      NothingEncoded([q] + r);
      KeptEnds(q, r);
    } else {
      EncodedNext(v, [q] + r);
      KeptRead(v[1..], q, r);
      KeptStep(v[0], Encode(v[1..]) + ([q] + r), q);
    }
  }

  lemma KeptStep(c: char, s: string, q: char)
    requires (q == '\"' || q == '\'') && ReadKept(s, [q]).Some?
    ensures var (text, after) := ReadKept(s, [q]).value;
      ReadKept(EncodeChar(c) + s, [q]) == Some(([c] + text, after))
  {
    EncodedStart(c);
    CharRead(c, s);
    var t := EncodeChar(c) + s;
    assert t[0] == EncodeChar(c)[0] && t[..1] == [t[0]];
  }

  lemma CondensedEnds(r: string)
    requires r == "" || r[0] == '<'
    ensures ReadCondensed(r, false) == Some(("", r))
  {
  }

  /** Text read with a space pending, or not. */
  lemma {:induction false} CondensedRead(v: string, white: bool, r: string)
    requires NoReference(v) && (r == "" || r[0] == '<')
    requires forall i :: 0 < i < |v| ==> v[i - 1] != ' ' || v[i] != ' '
    requires v != "" ==> v[|v| - 1] != ' '
    requires white ==> v != "" && v[0] != ' '
    ensures ReadCondensed(Encode(v) + r, white) == Some((if white then " " + v else v, r))
    decreases |v|
  {
    hide ReadCondensed, Encode, EncodeChar, NoReference;
    if v == "" {
      NothingEncoded(r);
      CondensedEnds(r);
    } else {
      EncodedNext(v, r);
      CondensedRead(v[1..], v[0] == ' ', r);
      CondensedStep(v[0], white, Encode(v[1..]) + r);
      SpaceBefore(v, white);
    }
  }

  lemma SpaceBefore(v: string, white: bool)
    requires v != ""
    ensures v[0] == ' ' ==> " " + v[1..] == v
    ensures (if white then " " else "") + [v[0]] + v[1..] == if white then " " + v else v
  {
    assert v == [v[0]] + v[1..];
  }

  lemma CondensedStep(c: char, white: bool, s: string)
    requires ReadCondensed(s, c == ' ').Some? && (c == ' ' ==> !white)
    ensures var (text, after) := ReadCondensed(s, c == ' ').value;
      ReadCondensed(EncodeChar(c) + s, white) ==
        Some((if c == ' ' then text else (if white then " " else "") + [c] + text, after))
  {
    EncodedStart(c);
    var t := EncodeChar(c) + s;
    assert t[0] == EncodeChar(c)[0];
    if c == ' ' {
      assert t[1..] == s;
    } else {
      CharRead(c, s);
    }
  }

  /** Raw text before an end marker whose last character differs from the others. */
  lemma {:induction false} RawRead(v: string, end: string, r: string)
    requires !Contains(v, end) && |end| == 3 && end[2] != end[0] && end[2] != end[1]
    ensures ReadRaw(v + end + r, end) == Some((v, r))
    decreases |v|
  {
    var s := v + end + r;
    if v == "" {
      assert s == end + r && s[..3] == end && s[3..] == r;
    } else {
      forall i | 0 <= i < |v[1..]| ensures !StartsWith(v[1..][i..], end) {
        assert v[1..][i..] == v[i + 1..];
      }
      RawRead(v[1..], end, r);
      assert v == [v[0]] + v[1..];
      assert s[1..] == v[1..] + end + r;
      assert !StartsWith(s, end) by {
        assert v[0..] == v;
        if |v| >= 3 {
          assert s[..3] == v[..3];
        } else {
          assert s[2] == end[2 - |v|];
        }
      }
    }
  }

  // ---------------------------------------------------------------- names and attributes

  lemma {:induction false} NameRun(name: string, r: string)
    requires (forall c <- name :: NameChar(c)) && (r == "" || !NameChar(r[0]))
    ensures NameLength(name + r) == |name|
    decreases |name|
  {
    if name == "" {
      assert name + r == r;
    } else {
      assert name[0] in name;
      assert forall c <- name[1..] :: c in name;
      NameRun(name[1..], r);
      assert (name + r)[1..] == name[1..] + r;
    }
  }

  lemma NameRead(name: string, r: string)
    requires LegalName(name) && (r == "" || !NameChar(r[0]))
    ensures ReadName(name + r) == Some((name, r))
  {
    NameRun(name, r);
    assert (name + r)[..|name|] == name && (name + r)[|name|..] == r;
  }

  lemma NamesHaveNoReference(name: string)
    requires forall c <- name :: NameChar(c)
    ensures NoReference(name)
  {
    forall i | 0 <= i < |name| ensures !HexReference(name[i..]) {
      assert name[i..][0] == name[i] && name[i] in name;
    }
  }

  lemma NameCharEncoded(c: char)
    requires NameChar(c)
    ensures EncodeChar(c) == [c]
  {
  }

  lemma {:induction false} NameEncoded(name: string)
    requires forall c <- name :: NameChar(c)
    ensures Encode(name) == name
    decreases |name|
  {
    hide Encode, EncodeChar, NameChar, NoReference;
    if name == "" {
      NothingEncoded("");
      assert Encode("") + "" == Encode("");
    } else {
      assert name[0] in name;
      assert forall c <- name[1..] :: c in name;
      NameEncoded(name[1..]);
      NamesHaveNoReference(name);
      NoReferenceTail(name);
      NameCharEncoded(name[0]);
      assert name == [name[0]] + name[1..];
    }
  }

  lemma SkipNothing(s: string)
    requires s == "" || !IsWhiteSpace(s[0])
    ensures Skip(s) == s
  {
  }

  lemma SkipSpace(s: string)
    requires s == "" || !IsWhiteSpace(s[0])
    ensures Skip(" " + s) == s
  {
    assert (" " + s)[1..] == s;
  }

  function Quoted(q: char, n: string, v: string): string
  {
    n + "=" + [q] + v + [q]
  }

  lemma QuoteOf(a: Attribute) returns (q: char)
    ensures (q == '\"' || q == '\'') && PrintAttribute(a) == Quoted(q, Encode(a.name), Encode(a.value))
  {
    hide Encode;
    var n, v := Encode(a.name), Encode(a.value);
    if '\"' in a.value {
      q := '\'';
      assert n + "=\'" + v + "\'" == Quoted(q, n, v);
    } else {
      q := '\"';
      assert n + "=\"" + v + "\"" == Quoted(q, n, v);
    }
  }

  lemma QuotedText(q: char, n: string, v: string, r: string)
    ensures Quoted(q, n, v) + r == n + ("=" + ([q] + (v + ([q] + r))))
  {
  }

  lemma AttributeRead(a: Attribute, r: string)
    requires LegalName(a.name) && NoReference(a.value)
    ensures ParseAttribute(PrintAttribute(a) + r) == Some((a, r))
    ensures PrintAttribute(a) + r != "" && NameStart((PrintAttribute(a) + r)[0])
  {
    hide Encode, PrintAttribute, ReadKept, ReadName, ParseAttribute, NoReference, Quoted;
    var q := QuoteOf(a);
    NameEncoded(a.name);
    QuotedText(q, a.name, Encode(a.value), r);
    var quoted := Encode(a.value) + ([q] + r);
    var s := a.name + ("=" + ([q] + quoted));
    assert s[0] == a.name[0];
    KeptRead(a.value, q, r);
    NameRead(a.name, "=" + ([q] + quoted));
    AttributeSteps(s, a, q, quoted, r);
  }

  lemma AttributeSteps(s: string, a: Attribute, q: char, quoted: string, r: string)
    requires s != "" && NameStart(s[0]) && ReadName(s) == Some((a.name, "=" + ([q] + quoted)))
    requires (q == '\"' || q == '\'') && ReadKept(quoted, [q]) == Some((a.value, r))
    ensures ParseAttribute(s) == Some((a, r))
  {
    hide ReadKept, ReadName;
    SkipNothing(s);
    SkipNothing("=" + ([q] + quoted));
    assert ("=" + ([q] + quoted))[1..] == [q] + quoted;
    SkipNothing([q] + quoted);
    assert ([q] + quoted)[1..] == quoted;
  }

  // ---------------------------------------------------------------- elements

  lemma AttributeNamesDiffer(attributes: seq<Attribute>, k: nat)
    requires LegalAttributes(attributes) && k < |attributes|
    ensures !HasAttribute(attributes[..k], attributes[k].name)
  {
  }

  lemma AttributesText(attributes: seq<Attribute>, k: nat, r: string)
    requires k < |attributes|
    ensures PrintAttributes(attributes[k..]) + r == " " + (PrintAttribute(attributes[k]) + (PrintAttributes(attributes[k + 1..]) + r))
  {
    assert attributes[k..][1..] == attributes[k + 1..];
  }

  /** Reading the printed attributes from position `k` on. */
  lemma {:induction false} AttributesRead(name: string, attributes: seq<Attribute>, k: nat, r: string)
    requires LegalAttributes(attributes) && k <= |attributes| && r != ""
    ensures ParseElement(name, attributes[..k], PrintAttributes(attributes[k..]) + r) == ParseElement(name, attributes, r)
    decreases |attributes| - k
  {
    hide ParseElement, PrintAttribute, ParseAttribute, Encode;
    if k == |attributes| {
      assert attributes[k..] == [] && attributes[..k] == attributes;
      assert "" + r == r;
    } else {
      var a, rest := attributes[k], PrintAttributes(attributes[k + 1..]) + r;
      assert a in attributes;
      AttributesText(attributes, k, r);
      AttributeRead(a, rest);
      AttributesRead(name, attributes, k + 1, r);
      AttributeNamesDiffer(attributes, k);
      assert attributes[..k + 1] == attributes[..k] + [a];
      OneAttributeRead(name, attributes[..k], a, PrintAttribute(a) + rest, rest);
    }
  }

  lemma OneAttributeRead(name: string, before: seq<Attribute>, a: Attribute, s: string, rest: string)
    requires s != "" && NameStart(s[0]) && ParseAttribute(s) == Some((a, rest)) && rest != "" && !HasAttribute(before, a.name)
    ensures ParseElement(name, before, " " + s) == ParseElement(name, before + [a], rest)
  {
    SkipSpace(s);
  }

  lemma EmptyElementRead(name: string, attributes: seq<Attribute>, r: string)
    ensures ParseElement(name, attributes, " />" + r) == Some((Element(name, attributes, []), r))
  {
    assert " />" + r == " " + ("/>" + r);
    SkipSpace("/>" + r);
    assert ("/>" + r)[2..] == r;
  }

  lemma FullElementRead(name: string, attributes: seq<Attribute>, body: string, children: seq<Node>, r: string)
    requires ReadValue(body) == Some((children, "</" + name + ">" + r))
    ensures ParseElement(name, attributes, ">" + body) == Some((Element(name, attributes, children), r))
  {
    SkipNothing(">" + body);
    assert (">" + body)[1..] == body;
    var end := "</" + name + ">";
    assert (end + r)[..|end|] == end && (end + r)[|end|..] == r;
  }

  /** The start of an element. */
  lemma ElementStarts(name: string, s: string)
    requires LegalName(name) && s != "" && !NameChar(s[0])
    ensures ParseNode("<" + name + s) == ParseElement(name, [], s)
  {
    var t := "<" + name + s;
    assert t[1] == name[0] && t[1..] == name + s;
    NameRead(name, s);
    assert !StartsWithIgnoringCase(t, "<?xml") by {
      assert Lower(t[1]) != Lower("<?xml"[1]);
    }
    StartsDiffer(t, "<!--");
    StartsDiffer(t, "<![CDATA[");
    StartsDiffer(t, "<!");
  }

  lemma CommentRead(v: string, r: string)
    requires !Contains(v, "-->")
    ensures ParseNode("<!--" + v + "-->" + r) == Some((Comment(v), r))
  {
    var s := "<!--" + v + "-->" + r;
    assert s[..4] == "<!--" && s[4..] == v + "-->" + r;
    assert !StartsWithIgnoringCase(s, "<?xml") by {
      assert Lower(s[1]) != Lower("<?xml"[1]);
    }
    RawRead(v, "-->", r);
  }

  lemma CDataRead(v: string, r: string)
    requires !Contains(v, "]]>")
    ensures ParseNode("<![CDATA[" + v + "]]>" + r) == Some((Text(v, true), r))
  {
    var s := "<![CDATA[" + v + "]]>" + r;
    assert s[..9] == "<![CDATA[" && s[9..] == v + "]]>" + r;
    assert !StartsWithIgnoringCase(s, "<?xml") by {
      assert Lower(s[1]) != Lower("<?xml"[1]);
    }
    assert s[..4][2] == '[';
    RawRead(v, "]]>", r);
  }

  /** Markup as `ReadValue` meets it. */
  lemma ValueStepMarkup(s: string, n: Node, rest: string)
    requires |s| > 1 && s[0] == '<' && s[1] != '/' && ParseNode(s) == Some((n, rest)) && ReadValue(rest).Some?
    ensures ReadValue(s) == Some(([n] + ReadValue(rest).value.0, ReadValue(rest).value.1))
  {
    SkipNothing(s);
    StartsDiffer(s, "</");
  }

  /** Plain text as `ReadValue` meets it. */
  lemma ValueStepText(v: string, rest: string)
    requires NoReference(v) && Tidy(v) && !Blank(v) && rest != "" && rest[0] == '<' && ReadValue(rest).Some?
    ensures ReadValue(Encode(v) + rest) == Some(([Text(v, false)] + ReadValue(rest).value.0, ReadValue(rest).value.1))
  {
    CondensedRead(v, false, rest);
    assert v != "";
    NoReferenceTail(v);
    EncodedStart(v[0]);
    var s := Encode(v) + rest;
    assert s[0] == EncodeChar(v[0])[0];
    SkipNothing(s);
  }

  lemma ValueEnds(r: string)
    ensures ReadValue("</" + r) == Some(([], "</" + r))
  {
    SkipNothing("</" + r);
    assert ("</" + r)[..2] == "</";
  }

  /** What is printed for a node that is not plain text begins like markup. */
  lemma PrintedStart(n: Node)
    requires Legal(n) && !PlainText(n)
    ensures |Print(n)| > 1 && Print(n)[0] == '<' && Print(n)[1] != '/'
  {
    if n.Element? {
      assert Print(n)[1] == n.name[0];
    }
  }

  lemma {:induction false} NodeRead(n: Node, r: string)
    requires Legal(n) && !PlainText(n)
    ensures ParseNodeOf(Print(n) + r) == Some((n, r))
    decreases n, |if n.Element? then n.children else []| + 1
  {
    if n.Element? {
      if n.children != [] {
        ChildrenRead(n, 0, n.name + ">" + r);
      }
      ElementRead(n, r);
    } else {
      LeafRead(n, r);
    }
  }

  lemma LeafRead(n: Node, r: string)
    requires Legal(n) && !PlainText(n) && !n.Element?
    ensures ParseNodeOf(Print(n) + r) == Some((n, r))
  {
    match n
    case Text(v, _) => CDataRead(v, r);
    case Comment(v) => CommentRead(v, r);
  }

  lemma ElementRead(n: Node, r: string)
    requires Legal(n) && n.Element?
    requires n.children != [] ==> ReadValue(PrintChildren(n, 0) + ("</" + (n.name + ">" + r))) == Some((n.children[0..], "</" + (n.name + ">" + r)))
    ensures ParseNodeOf(Print(n) + r) == Some((n, r))
  {
    hide ParseNodeOf, ParseElement, ReadValue, Print, PrintChildren, PrintAttributes;
    var name, attributes, children, body := n.name, n.attributes, n.children, PrintChildren(n, 0);
    ElementText(n, r);
    if children == [] {
      EmptyElementRead(name, attributes, r);
      ElementBegun(name, attributes, " />" + r);
    } else {
      assert children[0..] == children;
      assert "</" + (name + ">" + r) == "</" + name + ">" + r;
      FullElementRead(name, attributes, body + ("</" + name + ">" + r), children, r);
      ElementBegun(name, attributes, ">" + (body + ("</" + name + ">" + r)));
    }
  }

  function ParseNodeOf(s: string): Option<(Node, string)>
  {
    if s == "" || s[0] != '<' then None else ParseNode(s)
  }

  lemma ElementText(n: Node, r: string)
    requires n.Element?
    ensures var start, body := "<" + n.name + PrintAttributes(n.attributes), PrintChildren(n, 0);
      Print(n) + r == if n.children == [] then start + (" />" + r) else start + (">" + (body + ("</" + n.name + ">" + r)))
  {
  }

  /** The name and the attributes of an element, whatever follows. */
  lemma ElementBegun(name: string, attributes: seq<Attribute>, s: string)
    requires LegalName(name) && LegalAttributes(attributes) && s != "" && !NameChar(s[0])
    ensures ParseNodeOf("<" + name + PrintAttributes(attributes) + s) == ParseElement(name, attributes, s)
  {
    var t := PrintAttributes(attributes) + s;
    assert "<" + name + PrintAttributes(attributes) + s == "<" + name + t;
    assert t != "" && !NameChar(t[0]);
    ElementStarts(name, t);
    AttributesRead(name, attributes, 0, s);
    assert attributes[0..] == attributes && attributes[..0] == [];
  }

  lemma {:induction false} ChildrenRead(n: Node, k: nat, r: string)
    requires Legal(n) && n.Element? && k <= |n.children|
    ensures ReadValue(PrintChildren(n, k) + ("</" + r)) == Some((n.children[k..], "</" + r))
    decreases n, |n.children| - k
  {
    if k == |n.children| {
      ValueEnds(r);
      assert PrintChildren(n, k) + ("</" + r) == "</" + r && n.children[k..] == [];
    } else {
      var c, rest := n.children[k], PrintChildren(n, k + 1) + ("</" + r);
      assert c in n.children;
      ChildrenRead(n, k + 1, r);
      if !PlainText(c) {
        NodeRead(c, rest);
      }
      ChildRead(n, k, r);
    }
  }

  lemma ChildText(n: Node, k: nat, r: string)
    requires n.Element? && k < |n.children|
    ensures PrintChildren(n, k) + ("</" + r) == Print(n.children[k]) + (PrintChildren(n, k + 1) + ("</" + r))
    ensures PlainText(n.children[k]) ==> Print(n.children[k]) == Encode(n.children[k].value)
  {
  }

  lemma ChildRead(n: Node, k: nat, r: string)
    requires Legal(n) && n.Element? && k < |n.children|
    requires ReadValue(PrintChildren(n, k + 1) + ("</" + r)) == Some((n.children[k + 1..], "</" + r))
    requires var c := n.children[k];
      PlainText(c) || ParseNodeOf(Print(c) + (PrintChildren(n, k + 1) + ("</" + r))) == Some((c, PrintChildren(n, k + 1) + ("</" + r)))
    ensures ReadValue(PrintChildren(n, k) + ("</" + r)) == Some((n.children[k..], "</" + r))
  {
    hide ReadValue, Print, PrintChildren, ParseNode, Encode;
    var c, rest := n.children[k], PrintChildren(n, k + 1) + ("</" + r);
    assert c in n.children;
    assert n.children[k..] == [c] + n.children[k + 1..];
    ChildText(n, k, r);
    if PlainText(c) {
      AfterText(n, k, r);
      ValueStepText(c.value, rest);
      assert c == Text(c.value, false);
    } else {
      PrintedStart(c);
      ValueStepMarkup(Print(c) + rest, c, rest);
    }
  }

  /** Plain text is followed by markup. */
  lemma AfterText(n: Node, k: nat, r: string)
    requires Legal(n) && n.Element? && k < |n.children| && PlainText(n.children[k])
    ensures var rest := PrintChildren(n, k + 1) + ("</" + r); rest != "" && rest[0] == '<'
  {
    if k + 1 < |n.children| {
      assert n.children[k + 1] in n.children;
      PrintedStart(n.children[k + 1]);
    }
  }

  // ---------------------------------------------------------------- documents

  /** What a document can hold: anything legal but plain text. */
  predicate LegalDocument(nodes: seq<Node>)
  {
    nodes != [] && forall n <- nodes :: Legal(n) && !PlainText(n)
  }

  lemma {:induction false} NodesRead(nodes: seq<Node>)
    requires forall n <- nodes :: Legal(n) && !PlainText(n)
    ensures ParseNodes(PrintNodes(nodes)) == Some(nodes)
    decreases |nodes|
  {
    hide Print, ParseNode, ParseNodes, Legal;
    if nodes == [] {
      NoNodes();
    } else {
      assert nodes[0] in nodes;
      assert forall n <- nodes[1..] :: n in nodes;
      NodesRead(nodes[1..]);
      NodeRead(nodes[0], PrintNodes(nodes[1..]));
      PrintedStart(nodes[0]);
      NodesStep(PrintNodes(nodes), nodes[0], PrintNodes(nodes[1..]));
      assert nodes == [nodes[0]] + nodes[1..];
    }
  }

  lemma NoNodes()
    ensures ParseNodes("") == Some([])
  {
  }

  lemma NodesStep(s: string, n: Node, rest: string)
    requires s != "" && s[0] == '<' && ParseNode(s) == Some((n, rest)) && ParseNodes(rest).Some?
    ensures ParseNodes(s) == Some([n] + ParseNodes(rest).value)
  {
    SkipNothing(s);
  }

  lemma {:induction false} NoNulIsWhole(s: string)
    requires NoNul(s)
    ensures CString(s) == s
  {
    if s != "" {
      assert s[0] in s;
      assert forall c <- s[1..] :: c in s;
      NoNulIsWhole(s[1..]);
      assert s == [s[0]] + s[1..];
    }
  }

  lemma NoNulConcat(a: string, b: string)
    ensures NoNul(a + b) <==> NoNul(a) && NoNul(b)
  {
  }

  lemma {:induction false} EncodedHasNoNul(v: string)
    requires NoReference(v)
    ensures NoNul(Encode(v))
    decreases |v|
  {
    if v != "" {
      NoReferenceTail(v);
      EncodedHasNoNul(v[1..]);
      EncodedStart(v[0]);
      NoNulConcat(EncodeChar(v[0]), Encode(v[1..]));
    }
  }

  lemma {:induction false} AttributesHaveNoNul(attributes: seq<Attribute>)
    requires forall a <- attributes :: LegalName(a.name) && NoReference(a.value)
    ensures NoNul(PrintAttributes(attributes))
    decreases |attributes|
  {
    if attributes != [] {
      assert attributes[0] in attributes;
      assert forall b <- attributes[1..] :: b in attributes;
      AttributesHaveNoNul(attributes[1..]);
      AttributeHasNoNul(attributes[0]);
    }
  }

  lemma AttributeHasNoNul(a: Attribute)
    requires LegalName(a.name) && NoReference(a.value)
    ensures NoNul(PrintAttribute(a))
  {
    EncodedHasNoNul(a.value);
    NamesHaveNoReference(a.name);
    EncodedHasNoNul(a.name);
    var q := QuoteOf(a);
  }

  lemma {:induction false} PrintedHasNoNul(n: Node)
    requires Legal(n)
    ensures NoNul(Print(n))
    decreases n, |if n.Element? then n.children else []| + 1
  {
    match n
    case Text(v, cdata) => if !cdata { EncodedHasNoNul(v); }
    case Comment(_) =>
    case Element(name, attributes, children) =>
      AttributesHaveNoNul(attributes);
      ChildrenHaveNoNul(n, 0);
      assert NoNul(name);
  }

  lemma {:induction false} ChildrenHaveNoNul(n: Node, k: nat)
    requires n.Element? && Legal(n) && k <= |n.children|
    ensures NoNul(PrintChildren(n, k))
    decreases n, |n.children| - k
  {
    if k < |n.children| {
      assert n.children[k] in n.children;
      PrintedHasNoNul(n.children[k]);
      ChildrenHaveNoNul(n, k + 1);
    }
  }

  lemma {:induction false} NodesHaveNoNul(nodes: seq<Node>)
    requires forall n <- nodes :: Legal(n)
    ensures NoNul(PrintNodes(nodes))
    decreases |nodes|
  {
    if nodes != [] {
      assert nodes[0] in nodes;
      assert forall n <- nodes[1..] :: n in nodes;
      PrintedHasNoNul(nodes[0]);
      NodesHaveNoNul(nodes[1..]);
    }
  }

  /**
   For every document of elements, comments and CDATA sections, with legal
   names, distinct attribute names, values without `&#x`, tidy text that is not blank and not
   next to other text, and no end marker inside comments and CDATA sections, parsing what the
   stream printer wrote gives the same document.
   */
  lemma LegalComesBack(nodes: seq<Node>)
    requires LegalDocument(nodes)
    ensures ParseDocument(PrintNodes(nodes)) == Some(nodes)
  {
    NodesHaveNoNul(nodes);
    NoNulIsWhole(PrintNodes(nodes));
    NodesRead(nodes);
  }

  // ---------------------------------------------------------------- exactly when text survives

  /** Runs of spaces become one space, before the character that follows them. */
  function Condense(v: string, white: bool): string
  {
    if v == "" then ""
    else if v[0] == ' ' then Condense(v[1..], true)
    else (if white then " " else "") + [v[0]] + Condense(v[1..], false)
  }

  /** Whatever the spaces, reading gives the condensed text. */
  lemma {:induction false} TextIsCondensed(v: string, white: bool, r: string)
    requires NoReference(v) && (r == "" || r[0] == '<')
    ensures ReadCondensed(Encode(v) + r, white) == Some((Condense(v, white), r))
    decreases |v|
  {
    hide ReadCondensed, Encode, EncodeChar, NoReference;
    if v == "" {
      NothingEncoded(r);
      CondensedEndsAny(r, white);
    } else {
      EncodedNext(v, r);
      TextIsCondensed(v[1..], v[0] == ' ', r);
      CondensedStepAny(v[0], white, Encode(v[1..]) + r);
    }
  }

  lemma CondensedEndsAny(r: string, white: bool)
    requires r == "" || r[0] == '<'
    ensures ReadCondensed(r, white) == Some(("", r))
  {
  }

  lemma CondensedStepAny(c: char, white: bool, s: string)
    requires ReadCondensed(s, c == ' ').Some?
    ensures var (text, after) := ReadCondensed(s, c == ' ').value;
      ReadCondensed(EncodeChar(c) + s, white) ==
        Some((if c == ' ' then text else (if white then " " else "") + [c] + text, after))
  {
    EncodedStart(c);
    var t := EncodeChar(c) + s;
    assert t[0] == EncodeChar(c)[0];
    if c == ' ' {
      assert t[1..] == s;
    } else {
      CharRead(c, s);
    }
  }

  predicate Single(s: string)
  {
    && (s != "" ==> s[|s| - 1] != ' ')
    && forall i :: 0 < i < |s| ==> s[i - 1] != ' ' || s[i] != ' '
  }

  lemma {:induction false} CondensedIsSingle(v: string, white: bool)
    ensures Single(Condense(v, white))
    ensures Condense(v, white) != "" ==> (Condense(v, white)[0] == ' ' <==> white || v[0] == ' ')
  {
    if v != "" {
      if v[0] == ' ' {
        CondensedIsSingle(v[1..], true);
      } else {
        CondensedIsSingle(v[1..], false);
        var rest := Condense(v[1..], false);
        var r := [v[0]] + rest;
        assert Single(r);
        assert " " + [v[0]] + rest == " " + r && "" + [v[0]] + rest == r;
      }
    }
  }

  lemma {:induction false} SingleStays(v: string, white: bool)
    requires Single(v) && (white ==> v != "" && v[0] != ' ')
    ensures Condense(v, white) == if white then " " + v else v
  {
    if v != "" {
      assert v == [v[0]] + v[1..];
      assert Single(v[1..]) by {
        assert forall i :: 0 < i < |v[1..]| ==> v[1..][i - 1] == v[i] && v[1..][i] == v[i + 1];
      }
      SingleStays(v[1..], v[0] == ' ');
      SpaceBefore(v, white);
    }
  }

  function LeadingSpaces(v: string): (n: nat)
    ensures n <= |v| && (n < |v| ==> v[n] != ' ') && forall i :: 0 <= i < n ==> v[i] == ' '
  {
    if v != "" && v[0] == ' ' then 1 + LeadingSpaces(v[1..]) else 0
  }

  /** Raw text comes back exactly when it does not contain the end marker. */
  lemma {:induction false} RawSurvives(v: string, end: string, r: string)
    requires |end| == 3 && end[2] != end[0] && end[2] != end[1]
    ensures ReadRaw(v + end + r, end) == Some((v, r)) <==> !Contains(v, end)
    ensures Contains(v, end) ==> ReadRaw(v + end + r, end).Some? && |ReadRaw(v + end + r, end).value.0| < |v|
    decreases |v|
  {
    if !Contains(v, end) {
      RawRead(v, end, r);
    } else {
      var s := v + end + r;
      var i :| 0 <= i < |v| && StartsWith(v[i..], end);
      assert s[1..] == v[1..] + end + r;
      if StartsWith(s, end) {
      } else {
        assert i != 0 by {
          assert v[0..] == v && (|v| >= 3 ==> s[..3] == v[..3]);
        }
        assert v[1..][i - 1..] == v[i..];
        RawSurvives(v[1..], end, r);
      }
    }
  }

  // ---------------------------------------------------------------- exactly when a value survives

  lemma SemicolonAfter(s: string, k: nat, m: nat)
    requires k <= m <= |s| && forall i :: k <= i < m ==> s[i] != ';'
    ensures Semicolon(s, k) == Semicolon(s, m)
    decreases m - k
  {
    if k < m {
      SemicolonAfter(s, k + 1, m);
    }
  }

  lemma PassStops(v: string, k: nat)
    requires 1 <= k < |v|
    ensures var p := PassLength(v, k); (v[p] == ';' || p == |v| - 1) && forall i :: k <= i < p ==> v[i] != ';'
    decreases |v| - k
  {
    if v[k] != ';' && k != |v| - 1 {
      PassStops(v, k + 1);
    }
  }

  /** Where passing through stops, and how the encoding goes on from there. */
  lemma ReferenceEncoded(v: string)
    requires HexReference(v)
    ensures var p := PassLength(v, 1);
      && 2 <= p < |v| && (p == 2 ==> v[p] == 'x') && (v[p] == ';' || p == |v| - 1)
      && (forall i :: 0 <= i < p ==> v[i] != ';')
      && Encode(v) == v[..p] + (EncodeChar(v[p]) + Encode(v[p + 1..]))
  {
    PassStops(v, 1);
    var p := PassLength(v, 1);
    assert PassLength(v, 1) == PassLength(v, 2);
    var t := v[p..];
    assert t[0] == v[p] && t[1..] == v[p + 1..];
    assert !HexReference(t);
  }

  lemma EncodedEnd(c: char)
    ensures var e := EncodeChar(c);
      && e != "" && (e[|e| - 1] == ';' || e == [c]) && forall i :: 0 <= i < |e| - 1 ==> e[i] != ';'
  {
  }

  predicate BeginsReference(s: string)
  {
    |s| > 3 && s[0] == '&' && s[1] == '#' && s[2] == 'x'
  }

  /** A reference is read up to its semicolon, ... */
  lemma ClosedReference(s: string, end: nat)
    requires BeginsReference(s) && 3 <= end < |s| && s[end] == ';' && forall i :: 3 <= i < end ==> s[i] != ';'
    ensures GetChar(s).Some? ==> |GetChar(s).value.0| == 1 && GetChar(s).value.1 == s[end + 1..]
  {
    hide Digits, Semicolon;
    SemicolonAfter(s, 3, end);
    SemicolonHere(s, end);
  }

  /** ... however far that is. */
  lemma OpenReference(s: string, end: nat)
    requires BeginsReference(s) && 3 <= end <= |s| && forall i :: 3 <= i < end ==> s[i] != ';'
    ensures GetChar(s).Some? ==> |GetChar(s).value.0| == 1 && |GetChar(s).value.1| + end + 1 <= |s|
  {
    hide Digits, Semicolon;
    SemicolonAfter(s, 3, end);
  }

  /**
   A hexadecimal reference at the start of what is encoded is read as one character, in place of
   at least four when it ends before the text does; or else the read fails, or runs on past
   what follows the text.
   */
  lemma ReferenceStep(v: string, tail: string)
    requires HexReference(v) && tail != "" && tail[0] != ';'
    ensures Encode(v) + tail != "" && (Encode(v) + tail)[0] == '&'
    ensures var g := GetChar(Encode(v) + tail); var w := v[PassLength(v, 1) + 1..];
      g.Some? ==> |g.value.0| == 1 && ((g.value.1 == Encode(w) + tail && |w| + 4 <= |v|) || |g.value.1| + 2 <= |tail|)
  {
    hide Encode, EncodeChar, PassLength, GetChar;
    ReferenceEncoded(v);
    var p := PassLength(v, 1);
    var e, w := EncodeChar(v[p]), v[p + 1..];
    EncodedEnd(v[p]);
    EncodedX();
    NothingEncoded(tail);
    ReferenceText(v[..p], e, Encode(w), tail);
    PassedStart(v, p, e, Encode(w) + tail);
    PassedRead(v[..p], e, Encode(w) + tail);
  }

  lemma ReferenceText(pass: string, e: string, w: string, tail: string)
    ensures pass + (e + w) + tail == pass + e + (w + tail)
  {
  }

  lemma PassedStart(v: string, p: nat, e: string, after: string)
    requires HexReference(v) && 2 <= p < |v| && after != "" && e != "" && (p == 2 ==> e == "x")
    ensures BeginsReference(v[..p] + e + after)
  {
  }

  lemma PassedRead(pass: string, e: string, after: string)
    requires BeginsReference(pass + e + after) && after != "" && e != "" && |pass| >= 2 && (|pass| == 2 ==> e == "x")
    requires (forall i :: 0 <= i < |pass| ==> pass[i] != ';') && forall i :: 0 <= i < |e| - 1 ==> e[i] != ';'
    requires e[|e| - 1] == ';' || after[0] != ';'
    ensures var g := GetChar(pass + e + after);
      g.Some? ==> |g.value.0| == 1 && if e[|e| - 1] == ';' then g.value.1 == after else |g.value.1| + 2 <= |after|
  {
    hide GetChar;
    var s := pass + e + after;
    var end := |pass| + |e| - 1;
    assert forall i :: |pass| <= i <= end ==> s[i] == e[i - |pass|];
    assert forall i :: 0 <= i < |pass| ==> s[i] == pass[i];
    assert s[end + 1..] == after && s[end + 1] == after[0];
    if e[|e| - 1] == ';' {
      ClosedReference(s, end);
    } else {
      OpenReference(s, end + 2);
    }
  }

  lemma EncodedX()
    ensures EncodeChar('x') == "x"
  {
  }

  lemma SemicolonHere(s: string, k: nat)
    requires k < |s| && s[k] == ';'
    ensures Semicolon(s, k) == Some(k)
  {
  }

  lemma FirstReference(v: string)
    requires !NoReference(v)
    ensures v != "" && (HexReference(v) || !NoReference(v[1..]))
  {
    var i :| 0 <= i < |v| && HexReference(v[i..]);
    if i == 0 {
      assert v[0..] == v;
    } else {
      assert v[i..] == v[1..][i - 1..];
    }
  }

  /** A value with a reference does not come back: fewer characters are read, or more of what follows. */
  lemma {:induction false} ReferencesShorten(v: string, q: char, r: string)
    requires (q == '\"' || q == '\'') && !NoReference(v)
    ensures var k := ReadKept(Encode(v) + ([q] + r), [q]); k.Some? ==> |k.value.0| < |v| || |k.value.1| < |r|
    decreases |v|
  {
    hide ReadKept, Encode, EncodeChar, NoReference, PassLength, GetChar;
    var tail := [q] + r;
    FirstReference(v);
    if HexReference(v) {
      ReferenceStep(v, tail);
      var w := v[PassLength(v, 1) + 1..];
      if NoReference(w) {
        KeptRead(w, q, r);
      } else if |w| < |v| {
        ReferencesShorten(w, q, r);
      }
      KeptGoesOn(Encode(v) + tail, q);
    } else {
      ReferencesShorten(v[1..], q, r);
      PlainEncoded(v, tail);
      EncodedStart(v[0]);
      CharRead(v[0], Encode(v[1..]) + tail);
      KeptGoesOn(Encode(v) + tail, q);
    }
  }

  lemma PlainEncoded(v: string, tail: string)
    requires v != "" && !HexReference(v)
    ensures Encode(v) + tail == EncodeChar(v[0]) + (Encode(v[1..]) + tail)
  {
    Associative(EncodeChar(v[0]), Encode(v[1..]), tail);
  }

  lemma KeptGoesOn(s: string, q: char)
    requires s != "" && s[0] != q
    ensures ReadKept(s, [q]).Some? ==> GetChar(s).Some?
    ensures ReadKept(s, [q]).Some? ==> var (c, rest) := GetChar(s).value;
      ReadKept(rest, [q]).Some? && ReadKept(s, [q]).value == (c + ReadKept(rest, [q]).value.0, ReadKept(rest, [q]).value.1)
  {
    hide GetChar;
    assert s[..1] == [s[0]];
  }

  /** A value between quotes comes back exactly when it holds no `&#x`, whatever follows. */
  lemma ValueSurvives(v: string, q: char, r: string)
    requires q == '\"' || q == '\''
    ensures ReadKept(Encode(v) + ([q] + r), [q]) == Some((v, r)) <==> NoReference(v)
  {
    hide ReadKept, Encode, NoReference;
    if NoReference(v) {
      KeptRead(v, q, r);
    } else {
      ReferencesShorten(v, q, r);
    }
  }

  lemma {:induction false} NameRunLegal(s: string)
    ensures forall c <- s[..NameLength(s)] :: NameChar(c)
  {
    if s != "" && NameChar(s[0]) {
      NameRunLegal(s[1..]);
      assert s[..NameLength(s)] == [s[0]] + s[1..][..NameLength(s[1..])];
    }
  }

  lemma ParsedNameIsLegal(s: string)
    ensures ParseAttribute(s).Some? ==> LegalName(ParseAttribute(s).value.0.name)
  {
    NameRunLegal(Skip(s));
  }

  lemma AttributeValueRead(s: string, name: string, q: char, quoted: string)
    requires s != "" && NameStart(s[0]) && ReadName(s) == Some((name, "=" + ([q] + quoted)))
    requires q == '\"' || q == '\''
    ensures ParseAttribute(s) == if ReadKept(quoted, [q]).None? then None
      else Some((Attribute(name, ReadKept(quoted, [q]).value.0), ReadKept(quoted, [q]).value.1))
  {
    hide ReadKept, ReadName;
    SkipNothing(s);
    SkipNothing("=" + ([q] + quoted));
    assert ("=" + ([q] + quoted))[1..] == [q] + quoted;
    SkipNothing([q] + quoted);
    assert ([q] + quoted)[1..] == quoted;
  }

  /** A printed attribute comes back exactly when its name is one and its value holds no `&#x`, whatever follows. */
  lemma AttributeSurvives(a: Attribute, r: string)
    ensures ParseAttribute(PrintAttribute(a) + r) == Some((a, r)) <==> LegalName(a.name) && NoReference(a.value)
  {
    hide Encode, PrintAttribute, ReadKept, ReadName, ParseAttribute, NoReference, Quoted, NameChar, NameStart;
    if !LegalName(a.name) {
      ParsedNameIsLegal(PrintAttribute(a) + r);
    } else if NoReference(a.value) {
      AttributeRead(a, r);
    } else {
      var q := QuoteOf(a);
      NameEncoded(a.name);
      QuotedText(q, a.name, Encode(a.value), r);
      var quoted := Encode(a.value) + ([q] + r);
      var s := a.name + ("=" + ([q] + quoted));
      assert s[0] == a.name[0];
      EqualsEndsName(quoted, q);
      NameRead(a.name, "=" + ([q] + quoted));
      AttributeValueRead(s, a.name, q, quoted);
      ValueSurvives(a.value, q, r);
    }
  }

  lemma EqualsEndsName(quoted: string, q: char)
    ensures !NameChar(("=" + ([q] + quoted))[0])
  {
  }

  /** Reading condensed text, references cost characters too. */
  lemma {:induction false} ReferencesShortenText(v: string, white: bool, r: string)
    requires !NoReference(v) && r != "" && r[0] == '<'
    ensures var k := ReadCondensed(Encode(v) + r, white);
      k.Some? ==> (|k.value.0| < |v| + (if white then 1 else 0) && k.value.1 == r) || |k.value.1| + 2 <= |r|
    decreases |v|
  {
    hide ReadCondensed, Encode, EncodeChar, NoReference, PassLength, GetChar, IsWhiteSpace;
    FirstReference(v);
    if HexReference(v) {
      ReferenceStep(v, r);
      var w := v[PassLength(v, 1) + 1..];
      if NoReference(w) {
        TextIsCondensed(w, false, r);
        CondenseShortens(w, false);
      } else if |w| < |v| {
        ReferencesShortenText(w, false, r);
      }
      AmpersandIsText();
      CondensedGoesOn(Encode(v) + r, white);
    } else {
      var c, s := v[0], Encode(v[1..]) + r;
      ReferencesShortenText(v[1..], c == ' ', r);
      PlainEncoded(v, r);
      EncodedStart(c);
      assert (EncodeChar(c) + s)[0] == EncodeChar(c)[0];
      if c == ' ' {
        SpaceIsEncoded();
        assert (EncodeChar(c) + s)[1..] == s;
      } else {
        CharRead(c, s);
      }
      CondensedGoesOn(Encode(v) + r, white);
    }
  }

  lemma AmpersandIsText()
    ensures !IsWhiteSpace('&')
  {
  }

  lemma SpaceIsEncoded()
    ensures EncodeChar(' ') == " "
  {
  }

  lemma CondenseShortens(v: string, white: bool)
    ensures |Condense(v, white)| <= |v| + if white then 1 else 0
  {
  }

  lemma CondensedGoesOn(s: string, white: bool)
    requires s != "" && s[0] != '<'
    ensures IsWhiteSpace(s[0]) ==> ReadCondensed(s, white) == ReadCondensed(s[1..], true)
    ensures !IsWhiteSpace(s[0]) && ReadCondensed(s, white).Some? ==> GetChar(s).Some?
    ensures !IsWhiteSpace(s[0]) && ReadCondensed(s, white).Some? ==> var (c, rest) := GetChar(s).value;
      var k := ReadCondensed(rest, false);
      k.Some? && ReadCondensed(s, white).value == ((if white then " " else "") + c + k.value.0, k.value.1)
  {
    hide GetChar;
  }

  lemma {:induction false} LeadingSkipped(v: string, r: string)
    requires r != "" && r[0] == '<'
    ensures var u := v[LeadingSpaces(v)..]; (NoReference(u) <==> NoReference(v)) && Skip(Encode(v) + r) == Encode(u) + r
    decreases |v|
  {
    hide Skip, Encode, EncodeChar, NoReference, HexReference;
    if v == "" {
      NothingEncoded(r);
      SkipNothing(r);
    } else if v[0] == ' ' {
      SpaceHoldsNoReference(v);
      PlainEncoded(v, r);
      SpaceIsEncoded();
      LeadingSkipped(v[1..], r);
      assert v[LeadingSpaces(v)..] == v[1..][LeadingSpaces(v[1..])..];
      SkipOneSpace(Encode(v[1..]) + r);
    } else {
      assert v[0..] == v;
      EncodedText(v, r);
      SkipNothing(Encode(v) + r);
    }
  }

  lemma SkipOneSpace(s: string)
    ensures Skip(" " + s) == Skip(s)
  {
    assert (" " + s)[1..] == s;
  }

  lemma SpaceHoldsNoReference(v: string)
    requires v != "" && v[0] == ' '
    ensures !HexReference(v) && (NoReference(v) <==> NoReference(v[1..]))
  {
    if NoReference(v) {
      NoReferenceTail(v);
    } else {
      FirstReference(v);
    }
  }

  lemma EncodedText(v: string, r: string)
    requires v != "" && v[0] != ' ' && r != "" && r[0] == '<'
    ensures var s := Encode(v) + r; s != "" && s[0] != '<' && !IsWhiteSpace(s[0])
  {
    if HexReference(v) {
      ReferenceStep(v, r);
    } else {
      PlainEncoded(v, r);
      EncodedStart(v[0]);
      assert (Encode(v) + r)[0] == EncodeChar(v[0])[0];
    }
  }

  lemma PlainTextSurvives(v: string, r: string)
    requires NoReference(v)
    ensures ReadValue(Encode(v) + ("</" + r)) == Some(([Text(v, false)], "</" + r)) <==> Tidy(v) && !Blank(v)
  {
    var n := LeadingSpaces(v);
    var u, rest := v[n..], "</" + r;
    LeadingSkipped(v, rest);
    TextIsCondensed(u, false, rest);
    CondensedIsSingle(u, false);
    ValueEnds(r);
    var got := Condense(u, false);
    if u == "" {
      NothingEncoded(rest);
      assert forall i :: 0 <= i < |v| ==> v[i] == ' ';
      SkippedEmpty(Encode(v) + rest, rest);
    } else {
      EncodedNext(u, rest);
      EncodedStart(u[0]);
      assert (Encode(u) + rest)[0] == EncodeChar(u[0])[0];
      SkippedText(Encode(v) + rest, Encode(u) + rest, got, rest);
      if Tidy(v) {
        assert n == 0 && v[0..] == v;
        SingleStays(v, false);
      }
    }
  }

  lemma SkippedEmpty(s: string, rest: string)
    requires Skip(s) == rest && StartsWith(rest, "</")
    ensures ReadValue(s) == Some(([], rest))
  {
  }

  lemma SkippedText(s: string, p: string, text: string, rest: string)
    requires Skip(s) == p && p != "" && p[0] != '<' && ReadCondensed(p, false) == Some((text, rest)) && ReadValue(rest) == Some(([], rest))
    ensures ReadValue(s) == Some((if Blank(text) then [] else [Text(text, false)], rest))
  {
    var own := if Blank(text) then [] else [Text(text, false)];
    assert own + [] == own;
  }

  /** Plain text alone in an element comes back exactly when it holds no `&#x`, its spaces are tidy and it is not blank. */
  lemma TextSurvives(v: string, r: string)
    ensures ReadValue(Encode(v) + ("</" + r)) == Some(([Text(v, false)], "</" + r)) <==> NoReference(v) && Tidy(v) && !Blank(v)
  {
    if NoReference(v) {
      PlainTextSurvives(v, r);
    } else {
      ReferencedTextChanges(v, r);
    }
  }

  lemma ReferencedTextChanges(v: string, r: string)
    requires !NoReference(v)
    ensures ReadValue(Encode(v) + ("</" + r)) != Some(([Text(v, false)], "</" + r))
  {
    hide ReadValue, ReadCondensed, Skip, Encode, NoReference, Blank;
    var u, rest := v[LeadingSpaces(v)..], "</" + r;
    var s, p := Encode(v) + rest, Encode(u) + rest;
    LeadingSkipped(v, rest);
    FirstReference(u);
    EncodedText(u, rest);
    ReferencesShortenText(u, false, rest);
    SkippedAny(s, p);
    ValueEnds(r);
    if ReadCondensed(p, false).Some? && ReadCondensed(p, false).value.1 == rest {
      SkippedText(s, p, ReadCondensed(p, false).value.0, rest);
    }
  }

  lemma SkippedAny(s: string, p: string)
    requires Skip(s) == p && p != "" && p[0] != '<'
    ensures ReadValue(s).Some? ==> ReadCondensed(p, false).Some? && |ReadValue(s).value.1| <= |ReadCondensed(p, false).value.1|
  {
  }

  // ---------------------------------------------------------------- what a reference comes back as

  predicate HexDigits(h: string)
  {
    forall c <- h :: DigitValue(c, 16).Some?
  }

  /** The number that hexadecimal digits denote. */
  function HexValue(h: string): nat
    requires HexDigits(h)
  {
    if h == "" then 0 else HexValue(h[..|h| - 1]) * 16 + DigitValue(h[|h| - 1], 16).value
  }

  /** The widths of multiplier and sum do not reach the low byte. */
  lemma LowByte(n: nat)
    ensures n % 0x1_0000_0000 % 256 == n % 256 && n % 0x1_0000_0000_0000_0000 % 256 == n % 256
  {
    WholeBytes(n, n % 0x1_0000_0000, 0x100_0000 * (n / 0x1_0000_0000));
    WholeBytes(n, n % 0x1_0000_0000_0000_0000, 0x100_0000_0000_0000 * (n / 0x1_0000_0000_0000_0000));
  }

  lemma WholeBytes(a: nat, b: nat, d: int)
    requires a == b + 256 * d
    ensures a % 256 == b % 256
  {
  }

  lemma SameLowByte(a: nat, b: nat, k: nat)
    requires a % 256 == b % 256
    ensures a * k % 256 == b * k % 256
  {
    var d := a / 256 - b / 256;
    assert a == b + 256 * d;
    assert a * k == b * k + 256 * (d * k);
    WholeBytes(a * k, b * k, d * k);
  }

  lemma AddLowBytes(a: nat, b: nat, c: nat, d: nat)
    requires a % 256 == b % 256 && c % 256 == d % 256
    ensures (a + c) % 256 == (b + d) % 256
  {
    assert a == b + 256 * (a / 256 - b / 256);
    assert c == d + 256 * (c / 256 - d / 256);
    WholeBytes(a + c, b + d, a / 256 - b / 256 + (c / 256 - d / 256));
  }

  /** However many digits there are, the low byte is that of the number. */
  lemma {:induction false} DigitsRead(h: string, mult: nat, sum: nat)
    requires HexDigits(h)
    ensures var d := Digits("x" + h, 'x', 16, mult, sum); d.Some? && d.value % 256 == (sum + mult * HexValue(h)) % 256
    decreases |h|
  {
    hide DigitValue;
    var s := "x" + h;
    if h == "" {
      assert s[|s| - 1] == 'x';
    } else {
      var front, last := h[..|h| - 1], h[|h| - 1];
      assert last in h && forall c <- front :: c in h;
      assert s[..|s| - 1] == "x" + front && s[|s| - 1] == last;
      XIsNoDigit();
      var v, m := DigitValue(last, 16).value, mult * 16 % 0x1_0000_0000;
      var next := (sum + mult * v % 0x1_0000_0000) % 0x1_0000_0000_0000_0000;
      DigitsRead(front, m, next);
      DigitStep(mult, sum, v, HexValue(front));
    }
  }

  lemma XIsNoDigit()
    ensures DigitValue('x', 16) == None && DigitValue(';', 16) == None
  {
  }

  lemma DigitStep(mult: nat, sum: nat, v: nat, rest: nat)
    ensures var next := (sum + mult * v % 0x1_0000_0000) % 0x1_0000_0000_0000_0000;
      (next + mult * 16 % 0x1_0000_0000 * rest) % 256 == (sum + mult * (rest * 16 + v)) % 256
  {
    var product, m := mult * v, mult * 16;
    LowByte(product);
    LowByte(sum + product % 0x1_0000_0000);
    AddLowBytes(sum, sum, product % 0x1_0000_0000, product);
    LowByte(m);
    SameLowByte(m % 0x1_0000_0000, m, rest);
    AddLowBytes((sum + product % 0x1_0000_0000) % 0x1_0000_0000_0000_0000, sum + product, m % 0x1_0000_0000 * rest, m * rest);
    Distribute(mult, rest, v);
  }

  lemma Distribute(mult: nat, rest: nat, v: nat)
    ensures mult * 16 * rest + mult * v == mult * (rest * 16 + v)
  {
  }

  lemma {:induction false} PassedTo(s: string, k: nat, end: nat)
    requires 1 <= k <= end < |s| && s[end] == ';' && forall i :: k <= i < end ==> s[i] != ';'
    ensures PassLength(s, k) == end
    decreases end - k
  {
    if k < end {
      PassedTo(s, k + 1, end);
    }
  }

  function ReferenceTo(h: string): string
  {
    "&#x" + h + ";"
  }

  /**
   A well-formed hexadecimal reference is printed as it stands, and comes back as the
   character that the low byte of its number names.
   */
  lemma ReferenceIsDecoded(h: string, v: string, r: string)
    requires HexDigits(h)
    ensures Encode(ReferenceTo(h) + v) == ReferenceTo(h) + Encode(v)
    ensures GetChar(ReferenceTo(h) + r) == Some(([(HexValue(h) % 256) as char], r))
  {
    hide Encode, DigitValue, HexValue, HexDigits, Digits, Semicolon;
    NoSemicolon(h);
    var s, end := ReferenceTo(h) + v, 3 + |h|;
    ReferenceCharacters(h, v);
    PassedTo(s, 1, end);
    PassedAndEncoded(s, end);
    assert s[..end] + [';'] == ReferenceTo(h) && s[end + 1..] == v;
    assert s[..end] + ([';'] + Encode(v)) == s[..end] + [';'] + Encode(v);
    var t := ReferenceTo(h) + r;
    ReferenceCharacters(h, r);
    SemicolonAfter(t, 3, end);
    SemicolonHere(t, end);
    assert t[2..end] == "x" + h && t[end + 1..] == r;
    DigitsRead(h, 1, 0);
  }

  lemma NoSemicolon(h: string)
    requires HexDigits(h)
    ensures ';' !in h
  {
    XIsNoDigit();
  }

  lemma ReferenceCharacters(h: string, r: string)
    requires ';' !in h
    ensures var s := ReferenceTo(h) + r;
      BeginsReference(s) && s[3 + |h|] == ';' && forall i :: 0 <= i < 3 + |h| ==> s[i] != ';'
  {
    var s := ReferenceTo(h) + r;
    assert forall i :: 0 <= i < |h| ==> h[i] in h && s[3 + i] == h[i];
  }

  lemma PassedAndEncoded(s: string, end: nat)
    requires HexReference(s) && PassLength(s, 1) == end && s[end] == ';'
    ensures Encode(s) == s[..end] + ([';'] + Encode(s[end + 1..]))
  {
    hide PassLength;
    ReferenceEncoded(s);
    SemicolonEncoded();
  }

  lemma SemicolonEncoded()
    ensures EncodeChar(';') == ";"
  {
  }

  /** An attribute whose value is a reference comes back with the character for its value. */
  lemma ReferenceInAttribute(name: string, h: string, r: string)
    requires LegalName(name) && HexDigits(h)
    ensures ParseAttribute(PrintAttribute(Attribute(name, ReferenceTo(h))) + r) == Some((Attribute(name, [(HexValue(h) % 256) as char]), r))
  {
    hide Encode, PrintAttribute, ReadKept, ReadName, ParseAttribute, Quoted, NameChar, NameStart, GetChar, HexValue, HexDigits, ReferenceTo;
    var a := Attribute(name, ReferenceTo(h));
    var q := QuoteOf(a);
    NameEncoded(name);
    ReferenceIsDecoded(h, "", [q] + r);
    NothingEncoded("");
    assert ReferenceTo(h) + "" == ReferenceTo(h) && Encode("") + "" == Encode("");
    QuotedText(q, name, ReferenceTo(h), r);
    var quoted := ReferenceTo(h) + ([q] + r);
    var s := name + ("=" + ([q] + quoted));
    assert s[0] == name[0];
    EqualsEndsName(quoted, q);
    NameRead(name, "=" + ([q] + quoted));
    AttributeValueRead(s, name, q, quoted);
    KeptEnds(q, r);
    ReferenceBegins(h, [q] + r);
    KeptOne(quoted, q, (HexValue(h) % 256) as char, r);
  }

  lemma ReferenceBegins(h: string, r: string)
    ensures ReferenceTo(h) + r != "" && (ReferenceTo(h) + r)[0] == '&'
  {
  }

  lemma KeptOne(s: string, q: char, c: char, r: string)
    requires s != "" && s[0] != q && GetChar(s) == Some(([c], [q] + r)) && ReadKept([q] + r, [q]) == Some(("", r))
    ensures ReadKept(s, [q]) == Some(([c], r))
  {
    hide GetChar;
    assert s[..1] == [s[0]] && [c] + "" == [c];
  }
}
