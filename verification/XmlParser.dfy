/**
 TinyXML's parse routines as loops over a position in a buffer, and its printer as a visitor
 with a buffer, each proved to do what the functions of module `Xml` say.
 */
module XmlParser {
  import opened Wrappers
  import opened Sequences
  import opened Xml

  /** A routine that returns a value and a new position does what a function says about the rest of the buffer. */
  predicate Reads<T(==)>(buf: string, r: Option<(T, nat)>, spec: Option<(T, string)>)
  {
    match r
    case None => spec.None?
    case Some((x, p)) => p <= |buf| && spec == Some((x, buf[p..]))
  }

  /** Text read so far, in front of what is still to be read. */
  function Prepend(text: string, r: Option<(string, string)>): Option<(string, string)>
  {
    match r case None => None case Some((more, rest)) => Some((text + more, rest))
  }

  lemma PrependMore(text: string, c: string, r: Option<(string, string)>)
    ensures Prepend(text, Prepend(c, r)) == Prepend(text + c, r)
  {
    if r.Some? {
      assert text + (c + r.value.0) == text + c + r.value.0;
    }
  }

  lemma Next(buf: string, p: nat)
    requires p < |buf|
    ensures buf[p..] != "" && buf[p..][0] == buf[p] && buf[p..][1..] == buf[p + 1..]
  {
  }

  // ---------------------------------------------------------------- characters and names

  method SkipWhiteSpace(buf: string, p: nat) returns (q: nat)
    requires p <= |buf|
    ensures p <= q <= |buf| && buf[q..] == Skip(buf[p..])
  {
    q := p;
    while q < |buf| && IsWhiteSpace(buf[q])
      invariant p <= q <= |buf| && Skip(buf[p..]) == Skip(buf[q..])
    {
      Next(buf, q);
      q := q + 1;
    }
  }

  method StringEqual(buf: string, p: nat, tag: string, ignoreCase: bool) returns (equal: bool)
    requires p <= |buf|
    ensures equal <==> if ignoreCase then StartsWithIgnoringCase(buf[p..], tag) else StartsWith(buf[p..], tag)
  {
    var k := 0;
    if ignoreCase {
      while p + k < |buf| && k < |tag| && Lower(buf[p + k]) == Lower(tag[k])
        invariant k <= |tag| && p + k <= |buf| && forall i :: 0 <= i < k ==> Lower(buf[p + i]) == Lower(tag[i])
      {
        k := k + 1;
      }
    } else {
      while p + k < |buf| && k < |tag| && buf[p + k] == tag[k]
        invariant k <= |tag| && p + k <= |buf| && forall i :: 0 <= i < k ==> buf[p + i] == tag[i]
      {
        k := k + 1;
      }
      if k < |tag| && p + |tag| <= |buf| {
        assert buf[p..][..|tag|][k] == buf[p + k];
      } else if k == |tag| {
        assert buf[p..][..|tag|] == tag;
      }
    }
    equal := k == |tag|;
  }

  lemma NameLengthStep(s: string, k: nat)
    requires k <= |s| && forall i :: 0 <= i < k ==> NameChar(s[i])
    ensures NameLength(s) == k + NameLength(s[k..])
  {
    if k > 0 {
      assert forall i :: 0 <= i < k - 1 ==> s[1..][i] == s[i + 1];
      NameLengthStep(s[1..], k - 1);
      assert s[1..][k - 1..] == s[k..];
    } else {
      assert s[0..] == s;
    }
  }

  method ReadNameAt(buf: string, p: nat) returns (r: Option<(string, nat)>)
    requires p <= |buf|
    ensures Reads(buf, r, ReadName(buf[p..]))
  {
    if p < |buf| && NameStart(buf[p]) {
      var q := p;
      while q < |buf| && NameChar(buf[q])
        invariant p <= q <= |buf| && forall i :: p <= i < q ==> NameChar(buf[i])
      {
        q := q + 1;
      }
      NameLengthStep(buf[p..], q - p);
      assert buf[p..][q - p..] == buf[q..];
      assert buf[p..][..q - p] == buf[p..q];
      r := Some((buf[p..q], q));
    } else {
      r := None;
    }
  }

  // ---------------------------------------------------------------- entities

  lemma SemicolonStep(s: string, k: nat, j: nat)
    requires k <= j <= |s| && forall i :: k <= i < j ==> s[i] != ';'
    ensures Semicolon(s, k) == Semicolon(s, j)
    decreases j - k
  {
    if k < j {
      SemicolonStep(s, k + 1, j);
    }
  }

  /** The digits of a numeric reference, backwards from the semicolon at `end` to the mark. */
  method DigitsBack(buf: string, k: nat, end: nat, base: nat) returns (n: Option<nat>)
    requires k < end <= |buf|
    ensures n == Digits(buf[k..end], buf[k], base, 1, 0)
  {
    var q := end - 1;
    var mult: nat, ucs: nat := 1, 0;
    while buf[q] != buf[k]
      invariant k <= q < end && Digits(buf[k..end], buf[k], base, 1, 0) == Digits(buf[k..q + 1], buf[k], base, mult, ucs)
      decreases q
    {
      var t := buf[k..q + 1];
      assert t[|t| - 1] == buf[q] && t[..|t| - 1] == buf[k..q];
      var v := DigitValue(buf[q], base);
      if v.None? {
        return None;
      }
      ucs := (ucs + mult * v.value % 0x1_0000_0000) % 0x1_0000_0000_0000_0000;
      mult := mult * base % 0x1_0000_0000;
      q := q - 1;
    }
    assert buf[k..q + 1][q - k] == buf[k];
    n := Some(ucs);
  }

  method ReferenceAt(buf: string, p: nat, k: nat, base: nat) returns (r: Option<(string, nat)>)
    requires p + k < |buf|
    ensures Reads(buf, r, Reference(buf[p..], k, base))
  {
    var q := p + k + 1;
    while q < |buf| && buf[q] != ';'
      invariant p + k + 1 <= q <= |buf| && forall i :: p + k + 1 <= i < q ==> buf[i] != ';'
    {
      q := q + 1;
    }
    SemicolonStep(buf[p..], k + 1, q - p);
    if q == |buf| {
      return None;
    }
    assert buf[p..][k..q - p] == buf[p + k..q];
    var n := DigitsBack(buf, p + k, q, base);
    if n.None? {
      return None;
    }
    assert buf[p..][q - p + 1..] == buf[q + 1..];
    r := Some(([(n.value % 256) as char], q + 1));
  }

  const ENTITIES: seq<(string, char)> := [("&amp;", '&'), ("&lt;", '<'), ("&gt;", '>'), ("&quot;", '\"'), ("&apos;", '\'')]

  lemma Ahead(buf: string, p: nat, n: nat)
    requires p + n <= |buf|
    ensures buf[p..][n..] == buf[p + n..]
  {
  }

  method GetEntityAt(buf: string, p: nat) returns (r: Option<(string, nat)>)
    requires p < |buf|
    ensures Reads(buf, r, GetEntity(buf[p..]))
  {
    if p + 2 < |buf| && buf[p + 1] == '#' {
      if buf[p + 2] == 'x' {
        if p + 3 == |buf| {
          return None;
        }
        r := ReferenceAt(buf, p, 2, 16);
      } else {
        r := ReferenceAt(buf, p, 1, 10);
      }
      return;
    }
    for i := 0 to |ENTITIES|
      invariant forall j :: 0 <= j < i ==> !StartsWith(buf[p..], ENTITIES[j].0)
    {
      var same := StringEqual(buf, p, ENTITIES[i].0, false);
      if same {
        Ahead(buf, p, |ENTITIES[i].0|);
        return Some(([ENTITIES[i].1], p + |ENTITIES[i].0|));
      }
    }
    assert !StartsWith(buf[p..], ENTITIES[0].0) && !StartsWith(buf[p..], ENTITIES[1].0) && !StartsWith(buf[p..], ENTITIES[2].0)
      && !StartsWith(buf[p..], ENTITIES[3].0) && !StartsWith(buf[p..], ENTITIES[4].0);
    Next(buf, p);
    r := Some(("", p + 1));
  }

  method GetCharAt(buf: string, p: nat) returns (r: Option<(string, nat)>)
    requires p < |buf|
    ensures Reads(buf, r, GetChar(buf[p..]))
    ensures r.Some? ==> p < r.value.1
  {
    Next(buf, p);
    if buf[p] == '&' {
      r := GetEntityAt(buf, p);
      if r.Some? {
        assert |buf[r.value.1..]| < |buf[p..]|;
      }
    } else {
      r := Some(([buf[p]], p + 1));
    }
  }

  /** The loop that passes a hexadecimal reference through, up to a semicolon or the last character. */
  method PassThrough(str: string, start: nat) returns (passed: string, i: nat)
    requires start + 2 < |str|
    ensures start < i < |str| && i == start + PassLength(str[start..], 1) && passed == str[start..i]
  {
    passed, i := "", start;
    while i + 1 < |str|
      invariant start <= i < |str| && passed == str[start..i]
      invariant i > start ==> PassLength(str[start..], 1) == PassLength(str[start..], i - start) && (i + 1 < |str| ==> str[i] != ';')
    {
      assert str[start..i + 1] == str[start..i] + [str[i]];
      passed := passed + [str[i]];
      if i > start {
        PassStep(str[start..], i - start);
      }
      i := i + 1;
      if str[i] == ';' {
        break;
      }
    }
    PassEnds(str[start..], i - start);
  }

  /** The characters of one entity, or of one character reference, or the character. */
  method EncodeOne(c: char) returns (e: string)
    ensures e == EncodeChar(c)
  {
    if c == '&' || c == '<' || c == '>' || c == '\"' || c == '\'' {
      var k := 0;
      while k < |ENTITIES| && ENTITIES[k].1 != c
        invariant k <= |ENTITIES| && forall j :: 0 <= j < k ==> ENTITIES[j].1 != c
      {
        k := k + 1;
      }
      EntityOf(c, k);
      e := ENTITIES[k].0;
    } else if c < ' ' {
      e := "&#x" + [HexDigit(c as nat / 16), HexDigit(c as nat % 16), ';'];
    } else {
      e := [c];
    }
  }

  /** EncodeString. */
  method EncodeString(str: string) returns (out: string)
    ensures out == Encode(str)
  {
    hide Encode, EncodeChar;
    out := "";
    var i := 0;
    assert str[0..] == str && "" + Encode(str) == Encode(str);
    while i < |str|
      invariant i <= |str| && Encode(str) == out + Encode(str[i..])
    {
      Next(str, i);
      EncodeUnfolds(str, i, out);
      if str[i] == '&' && i + 2 < |str| && str[i + 1] == '#' && str[i + 2] == 'x' {
        var passed, next := PassThrough(str, i);
        out, i := out + passed, next;
      } else {
        var e := EncodeOne(str[i]);
        out, i := out + e, i + 1;
      }
    }
    EncodedAll(str, out);
  }

  lemma EncodedAll(str: string, out: string)
    ensures Encode(str[|str|..]) == "" && out + "" == out
  {
  }

  lemma EncodeUnfolds(str: string, i: nat, out: string)
    requires i < |str|
    ensures out + Encode(str[i..]) ==
      if HexReference(str[i..]) then
        var k := i + PassLength(str[i..], 1);
        out + str[i..k] + Encode(str[k..])
      else out + EncodeChar(str[i]) + Encode(str[i + 1..])
  {
    hide Encode, EncodeChar;
    var s := str[i..];
    EncodeFirst(s);
    Next(str, i);
    if HexReference(s) {
      var n := PassLength(s, 1);
      assert s[..n] == str[i..i + n] && s[n..] == str[i + n..];
      Associative(out, s[..n], Encode(s[n..]));
    } else {
      Associative(out, EncodeChar(s[0]), Encode(s[1..]));
    }
  }

  lemma EncodeFirst(s: string)
    requires s != ""
    ensures Encode(s) ==
      if HexReference(s) then s[..PassLength(s, 1)] + Encode(s[PassLength(s, 1)..]) else EncodeChar(s[0]) + Encode(s[1..])
  {
  }

  lemma PassStep(s: string, k: nat)
    requires 1 <= k < |s|
    ensures k + 1 < |s| && s[k] != ';' ==> PassLength(s, k) == PassLength(s, k + 1)
  {
  }

  lemma PassEnds(s: string, k: nat)
    requires 1 <= k < |s| && (s[k] == ';' || k == |s| - 1)
    ensures PassLength(s, k) == k
  {
  }

  lemma EntityOf(c: char, k: nat)
    requires c == '&' || c == '<' || c == '>' || c == '\"' || c == '\''
    requires k <= |ENTITIES| && (forall j :: 0 <= j < k ==> ENTITIES[j].1 != c) && (k < |ENTITIES| ==> ENTITIES[k].1 == c)
    ensures k < |ENTITIES| && ENTITIES[k].0 == EncodeChar(c)
  {
    var i := if c == '&' then 0 else if c == '<' then 1 else if c == '>' then 2 else if c == '\"' then 3 else 4;
    assert ENTITIES[i].1 == c;
    assert k <= i;
  }

  // ---------------------------------------------------------------- text

  /** ReadText with white space kept. */
  method ReadKeptAt(buf: string, p: nat, end: string) returns (r: Option<(string, nat)>)
    requires p <= |buf| && end != ""
    ensures Reads(buf, r, ReadKept(buf[p..], end))
  {
    hide ReadKept, GetChar;
    var text, q := "", p;
    KeptSame(buf[p..], end);
    while q < |buf|
      invariant p <= q <= |buf| && ReadKept(buf[p..], end) == Prepend(text, ReadKept(buf[q..], end))
    {
      KeptUnfolds(buf[q..], end);
      var done := StringEqual(buf, q, end, false);
      if done {
        Ahead(buf, q, |end|);
        assert text + "" == text;
        return Some((text, q + |end|));
      }
      var c := GetCharAt(buf, q);
      if c.None? {
        return None;
      }
      PrependMore(text, c.value.0, ReadKept(buf[c.value.1..], end));
      text := text + c.value.0;
      q := c.value.1;
    }
    KeptUnfolds(buf[q..], end);
    r := None;
  }

  lemma KeptSame(s: string, end: string)
    requires end != ""
    ensures ReadKept(s, end) == Prepend("", ReadKept(s, end))
  {
    if ReadKept(s, end).Some? {
      assert "" + ReadKept(s, end).value.0 == ReadKept(s, end).value.0;
    }
  }

  function KeptFrom(s: string, end: string): Option<(string, string)>
    requires end != ""
  {
    if s == "" then None
    else if StartsWith(s, end) then Some(("", s[|end|..]))
    else match GetChar(s) case None => None case Some((c, rest)) => Prepend(c, ReadKept(rest, end))
  }

  lemma KeptUnfolds(s: string, end: string)
    requires end != ""
    ensures ReadKept(s, end) == KeptFrom(s, end)
  {
  }

  /** ReadText with white space condensed, up to a `<`. */
  method ReadCondensedAt(buf: string, p: nat) returns (r: Option<(string, nat)>)
    requires p <= |buf|
    ensures Reads(buf, r, ReadCondensed(buf[p..], false))
    ensures r.Some? ==> p <= r.value.1
  {
    hide ReadCondensed, GetChar;
    var text, q, white := "", p, false;
    CondensedSame(buf[p..]);
    while q < |buf| && buf[q] != '<'
      invariant p <= q <= |buf| && ReadCondensed(buf[p..], false) == Prepend(text, ReadCondensed(buf[q..], white))
    {
      Next(buf, q);
      CondensedUnfolds(buf[q..], white);
      if IsWhiteSpace(buf[q]) {
        white := true;
        q := q + 1;
      } else {
        ghost var space := if white then " " else "";
        ghost var was := text;
        if white {
          text := text + " ";
          white := false;
        }
        assert was + "" == was;
        var c := GetCharAt(buf, q);
        if c.None? {
          return None;
        }
        PrependMore(was, space + c.value.0, ReadCondensed(buf[c.value.1..], false));
        assert was + (space + c.value.0) == was + space + c.value.0;
        text := text + c.value.0;
        q := c.value.1;
      }
    }
    CondensedUnfolds(buf[q..], white);
    assert text + "" == text;
    r := Some((text, q));
  }

  lemma CondensedSame(s: string)
    ensures ReadCondensed(s, false) == Prepend("", ReadCondensed(s, false))
  {
    if ReadCondensed(s, false).Some? {
      assert "" + ReadCondensed(s, false).value.0 == ReadCondensed(s, false).value.0;
    }
  }

  function CondensedFrom(s: string, white: bool): Option<(string, string)>
  {
    if s == "" || s[0] == '<' then Some(("", s))
    else if IsWhiteSpace(s[0]) then ReadCondensed(s[1..], true)
    else
      match GetChar(s)
      case None => None
      case Some((c, rest)) => Prepend((if white then " " else "") + c, ReadCondensed(rest, false))
  }

  lemma CondensedUnfolds(s: string, white: bool)
    ensures ReadCondensed(s, white) == CondensedFrom(s, white)
  {
  }

  /** The loops of comments and CDATA sections. */
  method ReadRawAt(buf: string, p: nat, end: string) returns (r: Option<(string, nat)>)
    requires p <= |buf| && end != ""
    ensures Reads(buf, r, ReadRaw(buf[p..], end))
  {
    hide ReadRaw;
    var text, q := "", p;
    RawUnfolds(buf[p..], end);
    while q < |buf|
      invariant p <= q <= |buf| && ReadRaw(buf[p..], end) == Prepend(text, ReadRaw(buf[q..], end))
    {
      RawUnfolds(buf[q..], end);
      var done := StringEqual(buf, q, end, false);
      if done {
        Ahead(buf, q, |end|);
        assert text + "" == text;
        return Some((text, q + |end|));
      }
      Next(buf, q);
      PrependMore(text, [buf[q]], ReadRaw(buf[q + 1..], end));
      text := text + [buf[q]];
      q := q + 1;
    }
    RawUnfolds(buf[q..], end);
    r := None;
  }

  lemma RawUnfolds(s: string, end: string)
    requires end != ""
    ensures ReadRaw(s, end) == Prepend("", ReadRaw(s, end))
    ensures ReadRaw(s, end) ==
      if s == "" then None
      else if StartsWith(s, end) then Some(("", s[|end|..]))
      else Prepend([s[0]], ReadRaw(s[1..], end))
  {
    if ReadRaw(s, end).Some? {
      assert "" + ReadRaw(s, end).value.0 == ReadRaw(s, end).value.0;
    }
  }

  // ---------------------------------------------------------------- attributes

  method ReadUnquotedAt(buf: string, p: nat) returns (r: Option<(string, nat)>)
    requires p <= |buf|
    ensures Reads(buf, r, ReadUnquoted(buf[p..]))
  {
    hide ReadUnquoted;
    var text, q := "", p;
    UnquotedUnfolds(buf[p..]);
    while q < |buf| && !IsWhiteSpace(buf[q]) && buf[q] != '/' && buf[q] != '>'
      invariant p <= q <= |buf| && ReadUnquoted(buf[p..]) == Prepend(text, ReadUnquoted(buf[q..]))
    {
      UnquotedUnfolds(buf[q..]);
      Next(buf, q);
      if buf[q] == '\'' || buf[q] == '\"' {
        return None;
      }
      PrependMore(text, [buf[q]], ReadUnquoted(buf[q + 1..]));
      text := text + [buf[q]];
      q := q + 1;
    }
    UnquotedUnfolds(buf[q..]);
    assert text + "" == text;
    r := Some((text, q));
  }

  lemma UnquotedUnfolds(s: string)
    ensures ReadUnquoted(s) == Prepend("", ReadUnquoted(s))
    ensures ReadUnquoted(s) ==
      if s == "" || IsWhiteSpace(s[0]) || s[0] == '/' || s[0] == '>' then Some(("", s))
      else if s[0] == '\'' || s[0] == '\"' then None
      else Prepend([s[0]], ReadUnquoted(s[1..]))
  {
    if ReadUnquoted(s).Some? {
      assert "" + ReadUnquoted(s).value.0 == ReadUnquoted(s).value.0;
    }
  }

  /** TiXmlAttribute::Parse. */
  method ParseAttributeAt(buf: string, p: nat) returns (r: Option<(Attribute, nat)>)
    requires p <= |buf|
    ensures Reads(buf, r, ParseAttribute(buf[p..]))
  {
    hide Skip, ReadName, ReadKept, ReadUnquoted;
    var q := SkipWhiteSpace(buf, p);
    var name := ReadNameAt(buf, q);
    if name.None? {
      return None;
    }
    q := SkipWhiteSpace(buf, name.value.1);
    if q == |buf| || buf[q] != '=' {
      return None;
    }
    Next(buf, q);
    q := SkipWhiteSpace(buf, q + 1);
    if q == |buf| {
      return None;
    }
    Next(buf, q);
    var value;
    if buf[q] == '\'' {
      value := ReadKeptAt(buf, q + 1, "\'");
    } else if buf[q] == '\"' {
      value := ReadKeptAt(buf, q + 1, "\"");
    } else {
      value := ReadUnquotedAt(buf, q);
    }
    if value.None? {
      return None;
    }
    r := Some((Attribute(name.value.0, value.value.0), value.value.1));
  }

  /** TiXmlAttributeSet::Find. */
  method FindAttribute(attributes: seq<Attribute>, name: string) returns (found: bool)
    ensures found <==> HasAttribute(attributes, name)
  {
    for i := 0 to |attributes|
      invariant forall j :: 0 <= j < i ==> attributes[j].name != name
    {
      if attributes[i].name == name {
        assert attributes[i] in attributes;
        return true;
      }
    }
    found := false;
  }

  // ---------------------------------------------------------------- nodes

  method ReadUnknownAt(buf: string, p: nat) returns (text: string, q: nat)
    requires p <= |buf|
    ensures q <= |buf| && ReadUnknown(buf[p..]) == (text, buf[q..])
  {
    hide ReadUnknown;
    text, q := "", p;
    UnknownUnfolds(buf[p..], "");
    while q < |buf| && buf[q] != '>'
      invariant p <= q <= |buf|
      invariant ReadUnknown(buf[p..]) == (text + ReadUnknown(buf[q..]).0, ReadUnknown(buf[q..]).1)
    {
      UnknownUnfolds(buf[q..], text);
      Next(buf, q);
      text := text + [buf[q]];
      q := q + 1;
    }
    UnknownUnfolds(buf[q..], text);
    if q < |buf| {
      Next(buf, q);
      q := q + 1;
    }
  }

  lemma UnknownUnfolds(s: string, text: string)
    ensures "" + ReadUnknown(s).0 == ReadUnknown(s).0 && text + "" == text
    ensures s == "" ==> ReadUnknown(s) == ("", "")
    ensures s != "" && s[0] == '>' ==> ReadUnknown(s) == ("", s[1..])
    ensures s != "" && s[0] != '>' ==>
      text + ReadUnknown(s).0 == text + [s[0]] + ReadUnknown(s[1..]).0 && ReadUnknown(s).1 == ReadUnknown(s[1..]).1
  {
    if s != "" && s[0] != '>' {
      assert text + ([s[0]] + ReadUnknown(s[1..]).0) == text + [s[0]] + ReadUnknown(s[1..]).0;
    }
  }

  /** Identify, and the Parse of what it identified. */
  method ParseNodeAt(buf: string, p: nat) returns (r: Option<(Node, nat)>)
    requires p < |buf| && buf[p] == '<'
    ensures Reads(buf, r, ParseNode(buf[p..])) && (r.Some? ==> p < r.value.1)
    decreases |buf| - p, 0
  {
    hide ReadRaw, ReadUnknown, ReadName, ParseElement;
    Next(buf, p);
    ghost var s := buf[p..];
    var declaration := StringEqual(buf, p, "<?xml", true);
    if declaration {
      return None;
    }
    var comment := StringEqual(buf, p, "<!--", false);
    var cdata := StringEqual(buf, p, "<![CDATA[", false);
    var dtd := StringEqual(buf, p, "<!", false);
    if comment {
      Ahead(buf, p, 4);
      var text := ReadRawAt(buf, p + 4, "-->");
      if text.Some? {
        r := Some((Comment(text.value.0), text.value.1));
        assert |buf[text.value.1..]| < |s|;
      } else {
        r := None;
      }
    } else if cdata {
      Ahead(buf, p, 9);
      var text := ReadRawAt(buf, p + 9, "]]>");
      if text.Some? {
        r := Some((Text(text.value.0, true), text.value.1));
        assert |buf[text.value.1..]| < |s|;
      } else {
        r := None;
      }
    } else if dtd || p + 1 == |buf| || !NameStart(buf[p + 1]) {
      var text, q := ReadUnknownAt(buf, p + 1);
      r := Some((Unknown(text), q));
      assert |buf[q..]| < |s|;
    } else {
      var name := ReadNameAt(buf, p + 1);
      if name.None? || name.value.1 == |buf| {
        return None;
      }
      assert |buf[name.value.1..]| < |s[1..]|;
      r := ParseElementAt(buf, name.value.1, name.value.0);
    }
  }

  /** The loop of TiXmlElement::Parse behind the name. */
  method ParseElementAt(buf: string, p: nat, name: string) returns (r: Option<(Node, nat)>)
    requires p <= |buf|
    ensures Reads(buf, r, ParseElement(name, [], buf[p..])) && (r.Some? ==> p < r.value.1)
    decreases |buf| - p, 2
  {
    hide ParseElement, ParseAttribute, ReadValue, Skip;
    var attributes: seq<Attribute>, q := [], p;
    while true
      invariant p <= q <= |buf| && ParseElement(name, [], buf[p..]) == ParseElement(name, attributes, buf[q..])
      decreases |buf| - q
    {
      ElementUnfolds(name, attributes, buf[q..]);
      q := SkipWhiteSpace(buf, q);
      if q == |buf| {
        return None;
      }
      Next(buf, q);
      if buf[q] == '/' {
        if q + 1 == |buf| || buf[q + 1] != '>' {
          return None;
        }
        Ahead(buf, q, 2);
        return Some((Element(name, attributes, []), q + 2));
      } else if buf[q] == '>' {
        var value := ReadValueAt(buf, q + 1);
        if value.None? {
          return None;
        }
        var (children, e) := value.value;
        var end := StringEqual(buf, e, "</" + name + ">", false);
        if !end {
          return None;
        }
        Ahead(buf, e, |name| + 3);
        return Some((Element(name, attributes, children), e + |name| + 3));
      } else {
        var a := ParseAttributeAt(buf, q);
        if a.None? || a.value.1 == |buf| {
          return None;
        }
        assert |buf[a.value.1..]| < |buf[q..]|;
        var twice := FindAttribute(attributes, a.value.0.name);
        if twice {
          return None;
        }
        attributes := attributes + [a.value.0];
        q := a.value.1;
      }
    }
  }

  /** One turn of the loop, at `p` behind white space. */
  function ElementFrom(name: string, attributes: seq<Attribute>, p: string): Option<(Node, string)>
  {
    if p == "" then None
    else if p[0] == '/' then
      if |p| > 1 && p[1] == '>' then Some((Element(name, attributes, []), p[2..])) else None
    else if p[0] == '>' then
      match ReadValue(p[1..])
      case None => None
      case Some((children, rest)) =>
        if StartsWith(rest, "</" + name + ">") then Some((Element(name, attributes, children), rest[|name| + 3..])) else None
    else
      match ParseAttribute(p)
      case None => None
      case Some((a, rest)) =>
        if rest == "" || HasAttribute(attributes, a.name) then None else ParseElement(name, attributes + [a], rest)
  }

  lemma ElementUnfolds(name: string, attributes: seq<Attribute>, s: string)
    ensures ParseElement(name, attributes, s) == ElementFrom(name, attributes, Skip(s))
  {
  }

  /** Children read so far, in front of those still to be read. */
  function PrependNodes(nodes: seq<Node>, r: Option<(seq<Node>, string)>): Option<(seq<Node>, string)>
  {
    match r case None => None case Some((more, rest)) => Some((nodes + more, rest))
  }

  /** TiXmlElement::ReadValue. */
  method ReadValueAt(buf: string, p: nat) returns (r: Option<(seq<Node>, nat)>)
    requires p <= |buf|
    ensures Reads(buf, r, ReadValue(buf[p..])) && (r.Some? ==> p <= r.value.1)
    decreases |buf| - p, 1
  {
    hide ReadValue, ReadCondensed, ParseNode, Skip;
    var children: seq<Node> := [];
    ValueSame(buf[p..]);
    ValueUnfolds(buf[p..]);
    var q := SkipWhiteSpace(buf, p);
    SkipTwice(buf[p..]);
    ValueUnfolds(buf[q..]);
    while q < |buf|
      invariant p <= q <= |buf| && Skip(buf[q..]) == buf[q..]
      invariant ReadValue(buf[p..]) == PrependNodes(children, ReadValue(buf[q..]))
      decreases |buf| - q
    {
      ValueUnfolds(buf[q..]);
      Next(buf, q);
      ghost var was := children;
      var next;
      if buf[q] != '<' {
        var text := ReadCondensedAt(buf, q);
        if text.None? {
          return None;
        }
        TextAdvances(buf[q..]);
        assert |buf[text.value.1..]| < |buf[q..]|;
        next := text.value.1;
        if !Blank(text.value.0) {
          children := children + [Text(text.value.0, false)];
        }
        PrependNodesMore(was, if Blank(text.value.0) then [] else [Text(text.value.0, false)], ReadValue(buf[next..]));
      } else {
        var end := StringEqual(buf, q, "</", false);
        if end {
          assert children + [] == children;
          return Some((children, q));
        }
        var node := ParseNodeAt(buf, q);
        if node.None? {
          return None;
        }
        next := node.value.1;
        children := children + [node.value.0];
        PrependNodesMore(was, [node.value.0], ReadValue(buf[next..]));
      }
      assert was + [] == was;
      ValueUnfolds(buf[next..]);
      SkipTwice(buf[next..]);
      q := SkipWhiteSpace(buf, next);
      ValueUnfolds(buf[q..]);
    }
    ValueUnfolds(buf[q..]);
    r := None;
  }

  lemma TextAdvances(s: string)
    requires s != "" && s[0] != '<' && Skip(s) == s
    ensures ReadCondensed(s, false).Some? ==> |ReadCondensed(s, false).value.1| < |s|
  {
    ReadCondensedAdvances(s);
  }

  lemma SkipTwice(s: string)
    ensures Skip(Skip(s)) == Skip(s)
  {
  }

  lemma PrependNodesMore(nodes: seq<Node>, more: seq<Node>, r: Option<(seq<Node>, string)>)
    ensures PrependNodes(nodes, PrependNodes(more, r)) == PrependNodes(nodes + more, r)
  {
    if r.Some? {
      assert nodes + (more + r.value.0) == nodes + more + r.value.0;
    }
  }

  lemma ValueSame(s: string)
    ensures ReadValue(s) == PrependNodes([], ReadValue(s))
  {
    if ReadValue(s).Some? {
      assert [] + ReadValue(s).value.0 == ReadValue(s).value.0;
    }
  }

  function ValueFrom(p: string): Option<(seq<Node>, string)>
  {
    if p == "" then None
    else if p[0] != '<' then
      match ReadCondensed(p, false)
      case None => None
      case Some((v, rest)) => PrependNodes(if Blank(v) then [] else [Text(v, false)], ReadValue(rest))
    else if StartsWith(p, "</") then Some(([], p))
    else match ParseNode(p) case None => None case Some((n, rest)) => PrependNodes([n], ReadValue(rest))
  }

  lemma ValueUnfolds(s: string)
    ensures ReadValue(s) == ValueFrom(Skip(s))
  {
  }

  /** TiXmlDocument::Parse. */
  method Parse(input: string) returns (r: Option<seq<Node>>)
    ensures r == ParseDocument(input)
  {
    hide ParseNodes, ParseNode, Skip, CString;
    var buf := CString(input);
    var nodes: seq<Node>, q := [], 0;
    assert buf[0..] == buf;
    NodesSame(buf);
    q := SkipWhiteSpace(buf, q);
    SkipTwice(buf);
    NodesUnfold(buf);
    NodesUnfold(buf[q..]);
    while q < |buf| && buf[q] == '<'
      invariant q <= |buf| && Skip(buf[q..]) == buf[q..]
      invariant ParseNodes(buf) == PrependAll(nodes, ParseNodes(buf[q..]))
      decreases |buf| - q
    {
      NodesUnfold(buf[q..]);
      ghost var was := nodes;
      var node := ParseNodeAt(buf, q);
      if node.None? {
        return None;
      }
      nodes := nodes + [node.value.0];
      NodesUnfold(buf[node.value.1..]);
      SkipTwice(buf[node.value.1..]);
      PrependAllMore(was, [node.value.0], ParseNodes(buf[node.value.1..]));
      q := SkipWhiteSpace(buf, node.value.1);
      NodesUnfold(buf[q..]);
    }
    NodesUnfold(buf[q..]);
    assert nodes + [] == nodes;
    r := if nodes == [] then None else Some(nodes);
  }

  function PrependAll(nodes: seq<Node>, r: Option<seq<Node>>): Option<seq<Node>>
  {
    match r case None => None case Some(more) => Some(nodes + more)
  }

  lemma PrependAllMore(nodes: seq<Node>, more: seq<Node>, r: Option<seq<Node>>)
    ensures PrependAll(nodes, PrependAll(more, r)) == PrependAll(nodes + more, r)
  {
    if r.Some? {
      assert nodes + (more + r.value) == nodes + more + r.value;
    }
  }

  lemma NodesSame(s: string)
    ensures ParseNodes(s) == PrependAll([], ParseNodes(s))
  {
    if ParseNodes(s).Some? {
      assert [] + ParseNodes(s).value == ParseNodes(s).value;
    }
  }

  function NodesFrom(p: string): Option<seq<Node>>
  {
    if p == "" || p[0] != '<' then Some([])
    else match ParseNode(p) case None => None case Some((n, rest)) => PrependAll([n], ParseNodes(rest))
  }

  lemma NodesUnfold(s: string)
    ensures ParseNodes(s) == NodesFrom(Skip(s))
  {
  }
}
