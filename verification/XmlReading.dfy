/**
 What the recursive-descent parser makes of a text is read from it item by item, and is of a
 certain shape whatever the text was.
 */
module XmlReading {
  import opened Wrappers
  import opened Sequences
  import opened Xml
  import opened XmlRoundTrip
  import opened XmlRests
  import opened XmlItems

  // ---------------------------------------------------------------- text behind a NUL

  /** Empty, or begins with a NUL. */
  predicate Cut(u: string)
  {
    u == "" || u[0] == '\0'
  }

  lemma {:induction false} CStringCut(s: string) returns (u: string)
    ensures s == CString(s) + u && Cut(u) && NoNul(CString(s))
  {
    if s == "" || s[0] == '\0' {
      u := s;
      assert "" + s == s;
    } else {
      u := CStringCut(s[1..]);
      assert s == [s[0]] + s[1..];
    }
  }

  lemma AddBehind(s: string, n: nat, u: string)
    requires n <= |s|
    ensures (s + u)[..n] == s[..n] && (s + u)[n..] == s[n..] + u
  {
  }

  lemma {:induction false} SkipMore(s: string, u: string)
    requires Skip(s) != ""
    ensures Skip(s + u) == Skip(s) + u
    decreases |s|
  {
    if IsWhiteSpace(s[0]) {
      AddBehind(s, 1, u);
      SkipMore(s[1..], u);
    }
  }

  lemma {:induction false} NameLengthMore(s: string, u: string)
    requires Cut(u)
    ensures NameLength(s + u) == NameLength(s)
    decreases |s|
  {
    if s == "" {
      assert s + u == u;
    } else if NameChar(s[0]) {
      AddBehind(s, 1, u);
      NameLengthMore(s[1..], u);
    }
  }

  lemma NameMore(s: string, u: string)
    requires Cut(u) && ReadName(s).Some?
    ensures ReadName(s + u) == Some((ReadName(s).value.0, ReadName(s).value.1 + u))
  {
    NameLengthMore(s, u);
    AddBehind(s, NameLength(s), u);
  }

  lemma StartsShort(s: string, tag: string, u: string)
    requires Cut(u) && '\0' !in tag && |s| < |tag|
    ensures !StartsWith(s + u, tag)
  {
    if |tag| <= |s + u| {
      assert (s + u)[..|tag|][|s|] == '\0';
      assert tag[|s|] in tag;
    }
  }

  lemma StartsMore(s: string, tag: string, u: string)
    requires Cut(u) && '\0' !in tag
    ensures StartsWith(s + u, tag) <==> StartsWith(s, tag)
  {
    if |tag| <= |s| {
      AddBehind(s, |tag|, u);
    } else {
      StartsShort(s, tag, u);
    }
  }

  lemma {:induction false} SemicolonMore(s: string, k: nat, u: string)
    requires Semicolon(s, k).Some?
    ensures Semicolon(s + u, k) == Semicolon(s, k)
    decreases |s| - k
  {
    if s[k] != ';' {
      SemicolonMore(s, k + 1, u);
    }
  }

  lemma ReferenceMore(s: string, k: nat, base: nat, u: string)
    requires k < |s| && Reference(s, k, base).Some?
    ensures Reference(s + u, k, base) == Some((Reference(s, k, base).value.0, Reference(s, k, base).value.1 + u))
  {
    hide Digits, Semicolon;
    SemicolonMore(s, k + 1, u);
    var end := Semicolon(s, k + 1).value;
    assert (s + u)[k..end] == s[k..end];
    AddBehind(s, end + 1, u);
  }

  lemma GetCharMore(s: string, u: string)
    requires Cut(u) && s != "" && s != "&#" && GetChar(s).Some?
    ensures GetChar(s + u) == Some((GetChar(s).value.0, GetChar(s).value.1 + u))
  {
    hide Reference, StartsWith;
    AddBehind(s, 1, u);
    if s[0] == '&' {
      if |s| > 2 && s[1] == '#' {
        ReferenceMore(s, if s[2] == 'x' then 2 else 1, if s[2] == 'x' then 16 else 10, u);
      } else {
        NamedMore(s, u);
      }
    }
  }

  lemma NamedMore(s: string, u: string)
    requires Cut(u) && s != "" && s[0] == '&' && s != "&#" && !(|s| > 2 && s[1] == '#')
    ensures GetEntity(s).Some? && GetEntity(s + u) == Some((GetEntity(s).value.0, GetEntity(s).value.1 + u))
  {
    hide Reference, StartsWith;
    StartsMore(s, "&amp;", u);
    StartsMore(s, "&lt;", u);
    StartsMore(s, "&gt;", u);
    StartsMore(s, "&quot;", u);
    StartsMore(s, "&apos;", u);
    StartsLong(s);
    NotNumeric(s, u);
    if |s| >= 6 {
      AddBehind(s, 6, u);
    }
    if |s| >= 5 {
      AddBehind(s, 5, u);
    }
    if |s| >= 4 {
      AddBehind(s, 4, u);
    }
    AddBehind(s, 1, u);
  }

  lemma StartsLong(s: string)
    ensures (StartsWith(s, "&amp;") ==> |s| >= 5) && (StartsWith(s, "&lt;") ==> |s| >= 4) && (StartsWith(s, "&gt;") ==> |s| >= 4)
    ensures (StartsWith(s, "&quot;") ==> |s| >= 6) && (StartsWith(s, "&apos;") ==> |s| >= 6)
  {
  }

  lemma NotNumeric(s: string, u: string)
    requires Cut(u) && s != "" && s[0] == '&' && s != "&#" && !(|s| > 2 && s[1] == '#')
    ensures !(|s + u| > 2 && (s + u)[1] == '#')
  {
  }

  lemma {:induction false} KeptMore(s: string, q: char, u: string)
    requires Cut(u) && (q == '\'' || q == '\"') && ReadKept(s, [q]).Some?
    ensures ReadKept(s + u, [q]) == Some((ReadKept(s, [q]).value.0, ReadKept(s, [q]).value.1 + u))
    decreases |s|
  {
    hide ReadKept, GetChar;
    NothingKept(q);
    assert (s + u)[0] == s[0];
    if s[0] == q {
      KeptStops(s, q);
      KeptStops(s + u, q);
      AddBehind(s, 1, u);
    } else {
      KeptGoesOn(s, q);
      GetCharSuffix(s);
      var rest := GetChar(s).value.1;
      KeptMore(rest, q, u);
      GetCharMore(s, u);
      KeptGoes(s + u, q);
    }
  }

  lemma NothingKept(q: char)
    requires q == '\'' || q == '\"'
    ensures ReadKept("", [q]).None? && ReadKept("&#", [q]).None?
  {
    LoneCharacters();
    KeptGoesOn("&#", q);
    KeptGoesOn("#", q);
  }

  lemma LoneCharacters()
    ensures GetChar("&#") == Some(("", "#")) && GetChar("#") == Some(("#", ""))
  {
    assert "&#"[1..] == "#" && "#"[1..] == "";
  }

  lemma KeptGoes(s: string, q: char)
    requires s != "" && s[0] != q && GetChar(s).Some?
    ensures var (c, rest) := GetChar(s).value;
      ReadKept(rest, [q]).Some? ==> ReadKept(s, [q]) == Some((c + ReadKept(rest, [q]).value.0, ReadKept(rest, [q]).value.1))
  {
    hide GetChar;
    assert s[..1] == [s[0]];
  }

  lemma {:induction false} UnquotedMore(s: string, u: string)
    requires ReadUnquoted(s).Some? && ReadUnquoted(s).value.1 != ""
    ensures ReadUnquoted(s + u) == Some((ReadUnquoted(s).value.0, ReadUnquoted(s).value.1 + u))
    decreases |s|
  {
    if !Delimiter(s[0]) {
      AddBehind(s, 1, u);
      UnquotedMore(s[1..], u);
    }
  }

  lemma {:induction false} CondensedMore(s: string, white: bool, u: string)
    requires Cut(u) && ReadCondensed(s, white).Some? && ReadCondensed(s, white).value.1 != ""
    ensures ReadCondensed(s + u, white) == Some((ReadCondensed(s, white).value.0, ReadCondensed(s, white).value.1 + u))
    decreases |s|
  {
    hide ReadCondensed, GetChar;
    NothingCondensed(white);
    assert (s + u)[0] == s[0];
    if s[0] == '<' {
      CondensedEndsAny(s, white);
      CondensedEndsAny(s + u, white);
    } else {
      CondensedGoesOn(s, white);
      AddBehind(s, 1, u);
      CondensedGoes(s + u, white);
      if IsWhiteSpace(s[0]) {
        CondensedMore(s[1..], true, u);
      } else {
        GetCharSuffix(s);
        CondensedMore(GetChar(s).value.1, false, u);
        GetCharMore(s, u);
      }
    }
  }

  lemma NothingCondensed(white: bool)
    ensures ReadCondensed("", white) == Some(("", ""))
    ensures ReadCondensed("&#", white).Some? && ReadCondensed("&#", white).value.1 == ""
  {
    LoneCharacters();
    assert ReadCondensed("#", false).Some? && ReadCondensed("#", false).value.1 == "";
  }

  lemma CondensedGoes(s: string, white: bool)
    requires s != "" && s[0] != '<'
    ensures IsWhiteSpace(s[0]) ==> ReadCondensed(s, white) == ReadCondensed(s[1..], true)
    ensures !IsWhiteSpace(s[0]) && GetChar(s).Some? ==> var (c, rest) := GetChar(s).value; var k := ReadCondensed(rest, false);
      k.Some? ==> ReadCondensed(s, white) == Some(((if white then " " else "") + c + k.value.0, k.value.1))
  {
    hide GetChar;
  }

  lemma ValueMore(value: string, u: string)
    requires Cut(u) && value != "" && ReadAttributeValue(value).Some? && ReadAttributeValue(value).value.1 != ""
    ensures ReadAttributeValue(value + u) == Some((ReadAttributeValue(value).value.0, ReadAttributeValue(value).value.1 + u))
  {
    hide ReadKept, ReadUnquoted;
    AddBehind(value, 1, u);
    if value[0] == '\'' || value[0] == '\"' {
      KeptMore(value[1..], value[0], u);
    } else {
      UnquotedMore(value, u);
    }
  }

  lemma AttributeMore(s: string, u: string)
    requires Cut(u) && ParseAttribute(s).Some? && ParseAttribute(s).value.1 != ""
    ensures ParseAttribute(s + u) == Some((ParseAttribute(s).value.0, ParseAttribute(s).value.1 + u))
  {
    hide Skip, ReadName, ReadAttributeValue, Suffix;
    var named, value := AttributeParts(s);
    NothingNamed();
    SkipMore(s, u);
    NameMore(Skip(s), u);
    SkipMore(named, u);
    AddBehind(Skip(named), 1, u);
    SkipMore(Skip(named)[1..], u);
    ValueMore(value, u);
  }

  lemma NothingNamed()
    ensures ReadName("").None?
  {
  }

  lemma SuffixMore(s: string, r: string, u: string)
    requires Suffix(s, r)
    ensures Suffix(s + u, r + u)
  {
    AddBehind(s, |s| - |r|, u);
  }

  lemma StepMore(s: string, x: Item, rest: string, u: string)
    requires Cut(u) && Step(s, x, rest)
    ensures Step(s + u, x, rest + u)
  {
    hide Skip, ReadCondensed, ParseAttribute, Suffix, NameChar;
    SuffixMore(s, rest, u);
    match x
    case Attr(a) =>
      NoAttributeInNothing();
      SkipMore(s, u);
      AttributeMore(Skip(s), u);
    case EmptyEnd =>
      SkipMore(s, u);
    case Plain(v) =>
      SkipMore(s, u);
      CondensedMore(Skip(s), false, u);
    case Open(name) =>
      assert (s + u)[|s + u| - |rest + u| - 1] == s[|s| - |rest| - 1];
    case _ =>
  }

  lemma NoAttributeInNothing()
    ensures ParseAttribute("").None?
  {
    SkipNothing("");
  }

  lemma {:induction false} ReadsMore(s: string, xs: seq<Item>, left: string, u: string)
    requires Cut(u) && Reads(s, xs, left)
    ensures Reads(s + u, xs, left + u)
    decreases |xs|
  {
    hide Step, Suffix;
    if xs == [] {
      SuffixMore(s, left, u);
    } else {
      var rest :| Step(s, xs[0], rest) && Reads(rest, xs[1..], left);
      StepMore(s, xs[0], rest, u);
      ReadsMore(rest, xs[1..], left, u);
    }
  }

  // ---------------------------------------------------------------- what the parser makes is read as items

  /** What every parsed node is like, whatever the text was. */
  predicate Shape(n: Node)
    decreases n
  {
    match n
    case Text(v, cdata) => if cdata then NoNul(v) && !Contains(v, "]]>") else !Blank(v)
    case Comment(v) => NoNul(v) && !Contains(v, "-->")
    case Unknown(_) => true
    case Element(name, attributes, children) =>
      LegalName(name) && NamedApart(attributes) && NoAdjacentText(children) && forall c <- children :: Shape(c)
  }

  predicate NamedApart(attributes: seq<Attribute>)
  {
    && (forall a <- attributes :: LegalName(a.name))
    && forall i, j :: 0 <= i < j < |attributes| ==> attributes[i].name != attributes[j].name
  }

  lemma ReadsStep(s: string, x: Item, rest: string, xs: seq<Item>)
    requires Step(s, x, rest) && Reads(rest, xs, "")
    ensures Reads(s, [x] + xs, "")
  {
    hide Step;
    assert ([x] + xs)[1..] == xs;
  }

  /** Markup is read as well from farther in front. */
  lemma ReadsLater(s: string, t: string, xs: seq<Item>)
    requires Suffix(s, t) && xs != [] && Marked(xs[0]) && Reads(t, xs, "")
    ensures Reads(s, xs, "")
  {
    var rest :| Step(t, xs[0], rest) && Reads(rest, xs[1..], "");
    StepSuffix(t, xs[0], rest);
    SuffixTwice(s, t, rest);
    if xs[0].Open? {
      assert t == s[|s| - |t|..];
      assert t[|t| - |rest| - 1] == s[|s| - |rest| - 1];
    }
    assert Step(s, xs[0], rest);
  }

  lemma {:induction false} RawShape(s: string, end: string)
    requires end != "" && ReadRaw(s, end).Some?
    ensures var (v, rest) := ReadRaw(s, end).value;
      && Suffix(s, rest) && |s| == |v| + |end| + |rest| && !Contains(v, end) && (NoNul(s) ==> NoNul(v))
    decreases |s|
  {
    if StartsWith(s, end) {
      DropIsSuffix(s, |end|);
    } else {
      RawShape(s[1..], end);
      var (t, rest) := ReadRaw(s[1..], end).value;
      DropIsSuffix(s, 1);
      SuffixTwice(s, s[1..], rest);
      RawText(s[1..], end);
      var v := [s[0]] + t;
      forall i | 0 <= i < |v| ensures !StartsWith(v[i..], end) {
        if i > 0 {
          assert v[i..] == t[i - 1..];
        } else {
          assert v[0..] == v && v == s[..|v|];
          NotAtStart(s, |v|, end);
        }
      }
    }
  }

  lemma NotAtStart(s: string, n: nat, end: string)
    requires n <= |s| && !StartsWith(s, end)
    ensures !StartsWith(s[..n], end)
  {
    if |end| <= n {
      assert s[..n][..|end|] == s[..|end|];
    }
  }

  lemma {:induction false} RawText(s: string, end: string)
    requires end != "" && ReadRaw(s, end).Some?
    ensures var v := ReadRaw(s, end).value.0; |v| <= |s| && v == s[..|v|]
    decreases |s|
  {
    if !StartsWith(s, end) {
      RawText(s[1..], end);
      var t := ReadRaw(s[1..], end).value.0;
      assert s[..|t| + 1] == [s[0]] + s[1..][..|t|];
    }
  }

  lemma SuffixNoNul(s: string, r: string)
    requires Suffix(s, r) && NoNul(s)
    ensures NoNul(r)
  {
    assert forall i :: 0 <= i < |r| ==> r[i] == s[|s| - |r| + i];
  }

  lemma FirstMarked(children: seq<Node>, xs: seq<Item>)
    requires (forall c <- children :: Known(c)) && xs != [] && Marked(xs[0])
    requires children != [] ==> !PlainText(children[0])
    ensures var ys := SeqItems(children) + xs; ys != [] && Marked(ys[0])
  {
    if children != [] {
      assert children[0] in children;
      assert ItemsOf(children[0]) != [] && Marked(ItemsOf(children[0])[0]);
    }
  }

  lemma OpenStep(s: string, name: string, rest: string)
    requires s != "" && s[0] == '<' && ReadName(s[1..]) == Some((name, rest))
    ensures Step(s, Open(name), rest) && LegalName(name)
  {
    var t := s[1..];
    NameRunLegal(t);
    var n := NameLength(t);
    assert name == t[..n] && rest == t[n..];
    assert rest == s[n + 1..];
    assert name[n - 1] in name && name[n - 1] == s[n];
    assert name[0] == t[0];
  }

  lemma AttributeStep(s: string, a: Attribute, rest: string)
    requires ParseAttribute(Skip(s)) == Some((a, rest)) && rest != ""
    ensures Step(s, Attr(a), rest) && LegalName(a.name) && |rest| < |s|
  {
    hide ParseAttribute, Skip, Suffix;
    ParsedNameIsLegal(Skip(s));
    var named, value := AttributeParts(Skip(s));
    SkipSuffix(s);
    SkipShrinks(s);
    AttributeShrinks(Skip(s));
    SuffixTwice(s, Skip(s), rest);
  }

  predicate RawAt(s: string, k: nat, end: string, v: string, rest: string)
    requires end != ""
  {
    k <= |s| && ReadRaw(s[k..], end) == Some((v, rest))
  }

  predicate ElementAt(s: string, n: Node, rest: string)
    requires s != ""
  {
    ReadName(s[1..]).Some? && ParseElement(ReadName(s[1..]).value.0, [], ReadName(s[1..]).value.1) == Some((n, rest))
  }

  lemma NodeKinds(s: string, n: Node, rest: string)
    requires s != "" && s[0] == '<' && ParseNode(s) == Some((n, rest)) && Known(n)
    ensures (n.Comment? && RawAt(s, 4, "-->", n.value, rest)) || (n.Text? && n.cdata && RawAt(s, 9, "]]>", n.value, rest)) || ElementAt(s, n, rest)
  {
    hide ReadRaw, ReadName, ParseElement, StartsWithIgnoringCase;
  }

  lemma {:induction false} ParsedNode(s: string, n: Node, rest: string, xs: seq<Item>)
    requires s != "" && s[0] == '<' && ParseNode(s) == Some((n, rest)) && Known(n) && Reads(rest, xs, "") && NoNul(s)
    ensures Shape(n) && !PlainText(n) && Suffix(s, rest) && Reads(s, ItemsOf(n) + xs, "")
    decreases |s|, 1
  {
    hide Reads, Step, Shape, ReadRaw, ParseNode, ElementAt;
    NodeKinds(s, n, rest);
    if n.Comment? && RawAt(s, 4, "-->", n.value, rest) {
      ParsedRaw(s, 4, "-->", Remark(n.value), rest, xs);
      RawLeaf(n);
    } else if n.Text? && n.cdata && RawAt(s, 9, "]]>", n.value, rest) {
      ParsedRaw(s, 9, "]]>", CData(n.value), rest, xs);
      RawLeaf(n);
    } else {
      ParsedTag(s, n, rest, xs);
    }
  }

  lemma {:induction false} ParsedTag(s: string, n: Node, rest: string, xs: seq<Item>)
    requires s != "" && s[0] == '<' && ElementAt(s, n, rest) && Known(n) && Reads(rest, xs, "") && NoNul(s)
    ensures n.Element? && Shape(n) && Suffix(s, rest) && Reads(s, ItemsOf(n) + xs, "")
    decreases |s|, 0
  {
    var (name, after) := ReadName(s[1..]).value;
    assert |after| < |s|;
    assert ParseElement(name, [], after) == Some((n, rest));
    hide Reads, Step, Shape, ReadName, ParseElement, Known, NamedApart, Suffix, SeqItems, EndItems;
    OpenStep(s, name, after);
    StepSuffix(s, Open(name), after);
    SuffixNoNul(s, after);
    NothingApart();
    ParsedElement(name, [], after, n, rest, xs);
    SuffixTwice(s, after, rest);
    assert n.attributes[0..] == n.attributes;
    var ys := AttrItems(n.attributes) + (EndItems(name, n.children) + xs);
    ReadsStep(s, Open(name), after, ys);
    OpenedItems(n, xs);
  }

  lemma OpenedItems(n: Node, xs: seq<Item>)
    requires n.Element?
    ensures ItemsOf(n) + xs == [Open(n.name)] + (AttrItems(n.attributes) + (EndItems(n.name, n.children) + xs))
  {
    hide SeqItems, EndItems;
  }

  lemma NothingApart()
    ensures NamedApart([])
  {
  }

  lemma RawLeaf(n: Node)
    requires (n.Comment? && NoNul(n.value) && !Contains(n.value, "-->")) || (n.Text? && n.cdata && NoNul(n.value) && !Contains(n.value, "]]>"))
    ensures Shape(n)
  {
  }

  lemma ParsedRaw(s: string, k: nat, end: string, x: Item, rest: string, xs: seq<Item>)
    requires k <= |s| && |end| == 3 && NoNul(s) && ReadRaw(s[k..], end).Some? && ReadRaw(s[k..], end).value.1 == rest && Reads(rest, xs, "")
    requires (x.Remark? && k == 4) || (x.CData? && k == 9)
    requires x.v == ReadRaw(s[k..], end).value.0
    ensures Suffix(s, rest) && Reads(s, [x] + xs, "") && NoNul(x.v) && !Contains(x.v, end)
  {
    hide ReadRaw, Reads;
    RawShape(s[k..], end);
    DropIsSuffix(s, k);
    SuffixNoNul(s, s[k..]);
    SuffixTwice(s, s[k..], rest);
    ReadsStep(s, x, rest, xs);
  }

  lemma ElementCases(name: string, attributes: seq<Attribute>, s: string, n: Node, rest: string)
    requires ParseElement(name, attributes, s) == Some((n, rest))
    ensures var p := Skip(s); p != "" && (p[0] == '/' ==> |p| >= 2 && rest == p[2..] && n == Element(name, attributes, []))
    ensures var p := Skip(s); p[0] != '/' && p[0] != '>' ==> ParseAttribute(p).Some?
    ensures var p := Skip(s); p[0] != '/' && p[0] != '>' ==> var (a, after) := ParseAttribute(p).value;
      after != "" && !HasAttribute(attributes, a.name) && ParseElement(name, attributes + [a], after) == Some((n, rest))
  {
    hide ParseAttribute, Skip, HasAttribute, ReadValue;
  }

  lemma {:induction false} ParsedElement(name: string, attributes: seq<Attribute>, s: string, n: Node, rest: string, xs: seq<Item>)
    requires ParseElement(name, attributes, s) == Some((n, rest)) && Known(n) && Reads(rest, xs, "") && NoNul(s)
    requires NamedApart(attributes) && LegalName(name)
    ensures n.Element? && n.name == name && attributes <= n.attributes && Shape(n) && Suffix(s, rest)
    ensures Reads(s, AttrItems(n.attributes[|attributes|..]) + (EndItems(name, n.children) + xs), "")
    decreases |s|, 5
  {
    hide ParseElement, ParseAttribute, Reads, Step, Shape, NamedApart, Skip, Suffix, EndItems, AttrItems, LegalName, HasAttribute, Known;
    ElementCases(name, attributes, s, n, rest);
    var p := Skip(s);
    if p[0] == '/' {
      EmptyEnds(s, name, attributes, rest, xs);
    } else if p[0] == '>' {
      ParsedFull(name, attributes, s, n, rest, xs);
    } else {
      var (a, after) := ParseAttribute(p).value;
      AttributeStep(s, a, after);
      StepSuffix(s, Attr(a), after);
      SuffixNoNul(s, after);
      ApartMore(attributes, a);
      ParsedElement(name, attributes + [a], after, n, rest, xs);
      SuffixTwice(s, after, rest);
      OneAttributeMore(attributes, a, n.attributes);
      var tail := EndItems(name, n.children) + xs;
      ReadsStep(s, Attr(a), after, AttrItems(n.attributes[|attributes| + 1..]) + tail);
      Associative([Attr(a)], AttrItems(n.attributes[|attributes| + 1..]), tail);
    }
  }

  lemma {:induction false} ParsedFull(name: string, attributes: seq<Attribute>, s: string, n: Node, rest: string, xs: seq<Item>)
    requires ParseElement(name, attributes, s) == Some((n, rest)) && Skip(s) != "" && Skip(s)[0] == '>'
    requires Known(n) && Reads(rest, xs, "") && NoNul(s) && NamedApart(attributes) && LegalName(name)
    ensures n.Element? && n.name == name && attributes <= n.attributes && Shape(n) && Suffix(s, rest)
    ensures Reads(s, AttrItems(n.attributes[|attributes|..]) + (EndItems(name, n.children) + xs), "")
    decreases |s|, 4
  {
    var p := Skip(s);
    var (children, after) := ReadValue(p[1..]).value;
    assert n == Element(name, attributes, children) && StartsWith(after, "</" + name + ">") && rest == after[|name| + 3..];
    assert forall c <- children :: Known(c);
    hide ParseElement, ReadValue, Reads, Step, Shape, NamedApart, Skip, Suffix, EndItems, AttrItems, LegalName, StartsWith, Known;
    SkipSuffix(s);
    SkipShrinks(s);
    SuffixNoNul(s, p);
    DropIsSuffix(p, 1);
    SuffixNoNul(p, p[1..]);
    CloseStep(name, after, rest, xs);
    ParsedValue(p[1..], children, after, [Close(name)] + xs);
    FullEnds(s, name, attributes, children, after, rest, xs);
  }

  lemma OneAttributeMore(attributes: seq<Attribute>, a: Attribute, all: seq<Attribute>)
    requires attributes + [a] <= all
    ensures attributes <= all && AttrItems(all[|attributes|..]) == [Attr(a)] + AttrItems(all[|attributes| + 1..])
  {
    assert all[|attributes|] == (attributes + [a])[|attributes|];
  }

  lemma ApartMore(attributes: seq<Attribute>, a: Attribute)
    requires NamedApart(attributes) && LegalName(a.name) && !HasAttribute(attributes, a.name)
    ensures NamedApart(attributes + [a])
  {
    hide LegalName;
    var all := attributes + [a];
    forall i, j | 0 <= i < j < |all| ensures all[i].name != all[j].name {
      if j == |attributes| {
        assert all[i] == attributes[i] && attributes[i] in attributes;
      }
    }
  }

  lemma EmptyEnds(s: string, name: string, attributes: seq<Attribute>, rest: string, xs: seq<Item>)
    requires |Skip(s)| >= 2 && rest == Skip(s)[2..] && Reads(rest, xs, "") && NamedApart(attributes) && LegalName(name)
    ensures Shape(Element(name, attributes, [])) && Suffix(s, rest)
    ensures Reads(s, AttrItems(attributes[|attributes|..]) + (EndItems(name, []) + xs), "")
  {
    hide Reads;
    SkipSuffix(s);
    DropIsSuffix(Skip(s), 2);
    SuffixTwice(s, Skip(s), rest);
    ReadsStep(s, EmptyEnd, rest, xs);
    assert AttrItems(attributes[|attributes|..]) == [];
    assert [] + ([EmptyEnd] + xs) == [EmptyEnd] + xs;
  }

  lemma CloseStep(name: string, s: string, rest: string, xs: seq<Item>)
    requires StartsWith(s, "</" + name + ">") && rest == s[|name| + 3..] && Reads(rest, xs, "")
    ensures Reads(s, [Close(name)] + xs, "") && Suffix(s, rest)
  {
    hide Reads;
    ReadsStep(s, Close(name), rest, xs);
  }

  lemma FullEnds(s: string, name: string, attributes: seq<Attribute>, children: seq<Node>, after: string, rest: string, xs: seq<Item>)
    requires Skip(s) != "" && Suffix(Skip(s)[1..], after) && Suffix(after, rest) && |rest| < |after| && Reads(rest, xs, "")
    requires NamedApart(attributes) && LegalName(name) && NoAdjacentText(children) && (forall c <- children :: Shape(c))
    requires Reads(Skip(s)[1..], SeqItems(children) + ([Close(name)] + xs), "")
    ensures Shape(Element(name, attributes, children)) && Suffix(s, rest)
    ensures Reads(s, AttrItems(attributes[|attributes|..]) + (EndItems(name, children) + xs), "")
  {
    hide Reads, Shape, SeqItems, Skip, Suffix;
    var p := Skip(s);
    SkipSuffix(s);
    DropIsSuffix(p, 1);
    SuffixTwice(s, p, p[1..]);
    SuffixTwice(s, p[1..], after);
    SuffixTwice(s, after, rest);
    ElementShape(name, attributes, children);
    assert AttrItems(attributes[|attributes|..]) == [];
    if children == [] {
      SuffixShorter(p[1..], after);
      ReadsStep(s, EmptyEnd, rest, xs);
      assert [] + ([EmptyEnd] + xs) == [EmptyEnd] + xs;
    } else {
      SuffixShorter(s, p);
      ReadsStep(s, StartEnd, p[1..], SeqItems(children) + ([Close(name)] + xs));
      assert [] + (EndItems(name, children) + xs) == [StartEnd] + (SeqItems(children) + ([Close(name)] + xs));
    }
  }

  lemma ElementShape(name: string, attributes: seq<Attribute>, children: seq<Node>)
    requires NamedApart(attributes) && LegalName(name) && NoAdjacentText(children) && (forall c <- children :: Shape(c))
    ensures Shape(Element(name, attributes, children))
  {
  }

  lemma {:induction false} ParsedValue(s: string, children: seq<Node>, rest: string, xs: seq<Item>)
    requires ReadValue(s) == Some((children, rest)) && (forall c <- children :: Known(c)) && Reads(rest, xs, "") && NoNul(s)
    requires xs != [] && xs[0].Close?
    ensures Reads(s, SeqItems(children) + xs, "") && Suffix(s, rest)
    ensures NoAdjacentText(children) && forall c <- children :: Shape(c)
    ensures Skip(s) != "" && Skip(s)[0] == '<' && children != [] ==> !PlainText(children[0])
    decreases |s|, 4
  {
    hide Reads, Step, Shape, Skip, ReadCondensed, ParseNode, StartsWith, Known, Suffix, SeqItems;
    var p := Skip(s);
    SkipSuffix(s);
    SkipSkips(s);
    SuffixNoNul(s, p);
    SuffixShorter(s, p);
    if p[0] != '<' {
      var (v, after) := ReadCondensed(p, false).value;
      ReadCondensedAdvances(p);
      CondensedSuffix(p, false);
      CondensedLeaves(p);
      SuffixTwice(s, p, after);
      SuffixNoNul(s, after);
      NothingRead();
      var (more, end) := ReadValue(after).value;
      var own := if Blank(v) then [] else [Text(v, false)];
      assert children == own + more;
      assert forall c <- more :: c in children;
      ParsedValue(after, more, rest, xs);
      SuffixTwice(s, after, rest);
      SkipNothing(after);
      TextRead(s, v, after, more, children, xs);
    } else if StartsWith(p, "</") {
      ReadsLater(s, p, xs);
      NoItems(xs);
    } else {
      var (n, after) := ParseNode(p).value;
      var (more, end) := ReadValue(after).value;
      assert children == [n] + more;
      assert n in children && forall c <- more :: c in children;
      ParsedAdvances(p);
      NodeSuffix(p, n, after, more, rest, xs);
      SuffixTwice(s, p, after);
      SuffixTwice(s, after, rest);
      SeqFirst(n, more, xs);
      FirstMarked(children, xs);
      ReadsLater(s, p, SeqItems(children) + xs);
      TextApart(n, more);
    }
  }

  lemma NothingRead()
    ensures ReadValue("").None?
  {
    SkipNothing("");
  }

  lemma NoItems(xs: seq<Item>)
    ensures SeqItems([]) + xs == xs
  {
  }

  lemma CondensedLeaves(s: string)
    ensures ReadCondensed(s, false).Some? ==> var r := ReadCondensed(s, false).value.1; r == "" || r[0] == '<'
  {
  }

  lemma ParsedAdvances(s: string)
    requires s != "" && s[0] == '<'
    ensures ParseNode(s).Some? ==> |ParseNode(s).value.1| < |s|
  {
  }

  lemma SeqFirst(n: Node, more: seq<Node>, xs: seq<Item>)
    ensures SeqItems([n] + more) + xs == ItemsOf(n) + (SeqItems(more) + xs)
  {
    assert ([n] + more)[1..] == more;
    Associative(ItemsOf(n), SeqItems(more), xs);
  }

  lemma TextApart(n: Node, more: seq<Node>)
    requires NoAdjacentText(more) && (PlainText(n) && more != [] ==> !PlainText(more[0]))
    ensures NoAdjacentText([n] + more)
  {
    var all := [n] + more;
    forall i | 0 < i < |all| ensures !(PlainText(all[i - 1]) && PlainText(all[i])) {
      if i > 1 {
        assert all[i - 1] == more[i - 2] && all[i] == more[i - 1];
      }
    }
  }

  /** A node of a value, and then the rest of it. */
  lemma {:induction false} NodeSuffix(p: string, n: Node, after: string, more: seq<Node>, rest: string, xs: seq<Item>)
    requires p != "" && p[0] == '<' && ParseNode(p) == Some((n, after)) && Known(n) && NoNul(p)
    requires ReadValue(after) == Some((more, rest)) && (forall c <- more :: Known(c)) && Reads(rest, xs, "") && xs != [] && xs[0].Close?
    requires |after| < |p|
    ensures Shape(n) && !PlainText(n) && Suffix(p, after) && Reads(p, ItemsOf(n) + (SeqItems(more) + xs), "")
    ensures Suffix(after, rest) && NoAdjacentText(more) && forall c <- more :: Shape(c)
    decreases |p|, 3
  {
    hide Reads, Step, Shape, ReadValue, ParseNode, Known, SeqItems, ItemsOf;
    ParsedSuffix(p, n, after);
    SuffixNoNul(p, after);
    ParsedValue(after, more, rest, xs);
    ParsedNode(p, n, after, SeqItems(more) + xs);
  }

  /** Where a node is read to. */
  lemma {:induction false} ParsedSuffix(p: string, n: Node, after: string)
    requires p != "" && p[0] == '<' && ParseNode(p) == Some((n, after)) && Known(n) && NoNul(p)
    ensures Suffix(p, after)
    decreases |p|, 2
  {
    NothingLeft(after);
    ParsedNode(p, n, after, []);
  }

  lemma NothingLeft(s: string)
    ensures Reads(s, [], "")
  {
  }

  lemma TextRead(s: string, v: string, after: string, more: seq<Node>, children: seq<Node>, xs: seq<Item>)
    requires var p := Skip(s); p != "" && p[0] != '<' && ReadCondensed(p, false) == Some((v, after)) && after != ""
    requires Suffix(s, after) && children == (if Blank(v) then [] else [Text(v, false)]) + more
    requires xs != [] && xs[0].Close? && Reads(after, SeqItems(more) + xs, "") && (forall c <- more :: Known(c))
    requires NoAdjacentText(more) && (forall c <- more :: Shape(c)) && (more != [] ==> !PlainText(more[0]))
    ensures Reads(s, SeqItems(children) + xs, "") && NoAdjacentText(children) && forall c <- children :: Shape(c)
  {
    hide Reads, Shape, ReadCondensed, Skip, SeqItems, ItemsOf, Suffix, Blank;
    if Blank(v) {
      assert children == more;
      FirstMarked(more, xs);
      ReadsLater(s, after, SeqItems(more) + xs);
    } else {
      var n := Text(v, false);
      ReadsStep(s, Plain(v), after, SeqItems(more) + xs);
      SeqFirst(n, more, xs);
      TextApart(n, more);
      PlainShape(v);
    }
  }

  lemma PlainShape(v: string)
    requires !Blank(v)
    ensures Shape(Text(v, false)) && ItemsOf(Text(v, false)) == [Plain(v)]
  {
  }

  lemma {:induction false} ParsedNodes(s: string, nodes: seq<Node>)
    requires ParseNodes(s) == Some(nodes) && (forall n <- nodes :: Known(n)) && NoNul(s)
    ensures Reads(s, SeqItems(nodes), "") && forall n <- nodes :: Shape(n) && !PlainText(n)
    decreases |s|
  {
    hide Reads, Step, Shape, Skip, ParseNode, Known, Suffix;
    var p := Skip(s);
    SkipSuffix(s);
    SuffixNoNul(s, p);
    SuffixShorter(s, p);
    if nodes == [] {
      NothingLeft(s);
    } else {
      var (n, rest) := ParseNode(p).value;
      var more := ParseNodes(rest).value;
      assert nodes == [n] + more;
      assert n in nodes && forall m <- more :: m in nodes;
      ParsedAdvances(p);
      ParsedSuffix(p, n, rest);
      SuffixNoNul(p, rest);
      ParsedNodes(rest, more);
      ParsedNode(p, n, rest, SeqItems(more));
      NodeEdges(n);
      ReadsLater(s, p, ItemsOf(n) + SeqItems(more));
      assert nodes[0] == n && nodes[1..] == more;
    }
  }
}
