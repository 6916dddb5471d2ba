/**
 XML syntax character by character: what every numeric reference and entity is read as, what
 white space between nodes does, and what the printer writes, spelled out.
 */
module XmlSyntax {
  import opened Wrappers
  import StructFormat
  import opened Xml
  import opened XmlRoundTrip

  // ---------------------------------------------------------------- numeric references

  predicate AllOf(s: string, base: nat)
  {
    forall c <- s :: DigitValue(c, base).Some?
  }

  /** The number that digits of a base denote. */
  function NumberIn(s: string, base: nat): nat
    requires AllOf(s, base)
  {
    if s == "" then 0 else NumberIn(s[..|s| - 1], base) * base + DigitValue(s[|s| - 1], base).value
  }

  /** What stands behind the last occurrence of a character. */
  function Behind(s: string, mark: char): string
  {
    if s == "" || s[|s| - 1] == mark then "" else Behind(s[..|s| - 1], mark) + [s[|s| - 1]]
  }

  lemma {:induction false} BehindNone(s: string, mark: char)
    requires mark !in s
    ensures Behind(s, mark) == s
  {
    if s != "" {
      BehindNone(s[..|s| - 1], mark);
      assert s == s[..|s| - 1] + [s[|s| - 1]];
    }
  }

  /** The loop over the digits: it fails at the first character from the end that is no digit, unless the mark comes first. */
  lemma {:induction false} DigitsExact(s: string, mark: char, base: nat, mult: nat, sum: nat)
    requires base == 10 || base == 16
    ensures var d, b := Digits([mark] + s, mark, base, mult, sum), Behind(s, mark);
      (d.Some? <==> AllOf(b, base)) && (d.Some? ==> d.value % 256 == (sum + mult * NumberIn(b, base)) % 256)
    decreases |s|
  {
    hide Digits, Behind, AllOf, NumberIn, DigitValue;
    if s == "" || s[|s| - 1] == mark {
      DigitsStop(s, mark, base, mult, sum);
    } else {
      var front, last := s[..|s| - 1], s[|s| - 1];
      DigitsGoOn(front, last, mark, base, mult, sum);
      assert s == front + [last];
      OneDigitMore(Behind(front, mark), last, base);
      if DigitValue(last, base).Some? {
        var v, m := DigitValue(last, base).value, mult * base % 0x1_0000_0000;
        var next := (sum + mult * v % 0x1_0000_0000) % 0x1_0000_0000_0000_0000;
        DigitsExact(front, mark, base, m, next);
        if AllOf(Behind(front, mark), base) {
          BaseStep(base, mult, sum, v, NumberIn(Behind(front, mark), base));
        }
      }
    }
  }

  lemma DigitsStop(s: string, mark: char, base: nat, mult: nat, sum: nat)
    requires s == "" || s[|s| - 1] == mark
    ensures Digits([mark] + s, mark, base, mult, sum) == Some(sum) && Behind(s, mark) == ""
    ensures AllOf("", base) && NumberIn("", base) == 0
  {
    var t := [mark] + s;
    assert t[|t| - 1] == mark;
  }

  lemma DigitsGoOn(front: string, last: char, mark: char, base: nat, mult: nat, sum: nat)
    requires last != mark
    ensures Behind(front + [last], mark) == Behind(front, mark) + [last]
    ensures Digits([mark] + (front + [last]), mark, base, mult, sum) ==
      var d := DigitValue(last, base);
      if d.None? then None
      else Digits([mark] + front, mark, base, mult * base % 0x1_0000_0000,
                  (sum + mult * d.value % 0x1_0000_0000) % 0x1_0000_0000_0000_0000)
  {
    hide DigitValue;
    var s, t := front + [last], [mark] + (front + [last]);
    assert s[..|s| - 1] == front && t[..|t| - 1] == [mark] + front && t[|t| - 1] == last;
  }

  lemma OneDigitMore(b: string, last: char, base: nat)
    ensures AllOf(b + [last], base) <==> AllOf(b, base) && DigitValue(last, base).Some?
    ensures AllOf(b + [last], base) ==>
      NumberIn(b + [last], base) == NumberIn(b, base) * base + DigitValue(last, base).value
  {
    hide DigitValue;
    assert (b + [last])[..|b|] == b;
    assert last in b + [last] && forall c <- b :: c in b + [last];
  }

  lemma BaseStep(base: nat, mult: nat, sum: nat, v: nat, rest: nat)
    ensures var next := (sum + mult * v % 0x1_0000_0000) % 0x1_0000_0000_0000_0000;
      (next + mult * base % 0x1_0000_0000 * rest) % 256 == (sum + mult * (rest * base + v)) % 256
  {
    var product, m := mult * v, mult * base;
    LowByte(product);
    LowByte(sum + product % 0x1_0000_0000);
    AddLowBytes(sum, sum, product % 0x1_0000_0000, product);
    LowByte(m);
    SameLowByte(m % 0x1_0000_0000, m, rest);
    AddLowBytes((sum + product % 0x1_0000_0000) % 0x1_0000_0000_0000_0000, sum + product, m % 0x1_0000_0000 * rest, m * rest);
    MultiplyOut(mult, base, rest, v);
  }

  lemma MultiplyOut(mult: nat, base: nat, rest: nat, v: nat)
    ensures mult * base * rest + mult * v == mult * (rest * base + v)
  {
    assert mult * (rest * base + v) == mult * (rest * base) + mult * v;
    assert mult * base * rest == mult * (rest * base);
  }

  /** In base 10 that is the decimal number, in base 16 the hexadecimal one. */
  lemma {:induction false} NumbersAgree(s: string)
    ensures AllOf(s, 10) <==> forall i :: 0 <= i < |s| ==> '0' <= s[i] <= '9'
    ensures AllOf(s, 10) ==> NumberIn(s, 10) == StructFormat.DecVal(s, 0)
    ensures AllOf(s, 16) <==> HexDigits(s)
    ensures AllOf(s, 16) ==> NumberIn(s, 16) == HexValue(s)
    decreases |s|
  {
    assert forall i :: 0 <= i < |s| ==> s[i] in s;
    if s != "" {
      var front, last := s[..|s| - 1], s[|s| - 1];
      assert s == front + [last];
      NumbersAgree(front);
      OneDigitMore(front, last, 10);
      OneDigitMore(front, last, 16);
      StructFormat.LastDigit(front, last);
      DecimalDigit(last);
      hide NumberIn, StructFormat.DecVal, StructFormat.DigitVal, DigitValue;
    }
  }

  lemma DecimalDigit(c: char)
    ensures DigitValue(c, 10) == if '0' <= c <= '9' then Some(StructFormat.DigitVal(c)) else None
  {
  }

  /** The value of every digit, in both cases of the letters. */
  lemma DigitValues(i: nat)
    requires i < 16
    ensures DigitValue("0123456789abcdef"[i], 16) == DigitValue("0123456789ABCDEF"[i], 16) == Some(i)
    ensures i < 10 ==> DigitValue("0123456789"[i], 10) == Some(i)
  {
  }

  function Delimited(open: string, body: string, after: string): string
  {
    open + body + ";" + after
  }

  lemma DelimitedEnds(open: string, body: string, after: string, k: nat)
    requires k <= |open| && ';' !in open && ';' !in body
    ensures Semicolon(Delimited(open, body, after), k) == Some(|open| + |body|)
  {
    var s, end := Delimited(open, body, after), |open| + |body|;
    forall i | k <= i < end ensures s[i] != ';' {
      assert s[i] in open || s[i] in body;
    }
    SemicolonAfter(s, k, end);
    SemicolonHere(s, end);
  }

  /**
   A decimal reference, `&#` up to a semicolon: the digits behind the last `#` give the
   character, as the low byte of their number; anything else there makes the read fail.
   */
  lemma DecimalReference(body: string, after: string)
    requires ';' !in body && (body == "" || body[0] != 'x')
    ensures var d := Behind(body, '#');
      GetEntity(Delimited("&#", body, after)) ==
        if forall i :: 0 <= i < |d| ==> '0' <= d[i] <= '9' then Some(([(StructFormat.DecVal(d, 0) % 256) as char], after)) else None
  {
    hide DigitValue, Digits, Behind, NumberIn, AllOf, HexValue, HexDigits, Semicolon, StartsWith;
    var s, end := Delimited("&#", body, after), 2 + |body|;
    DelimitedEnds("&#", body, after, 2);
    assert s[1] == '#' && s[2] == (body + ";")[0];
    assert s[1..end] == ['#'] + body && s[end + 1..] == after;
    DigitsExact(body, '#', 10, 1, 0);
    NumbersAgree(Behind(body, '#'));
  }

  /** The same with nothing but digits, and with no second `#`. */
  lemma DecimalDigits(h: string, after: string)
    requires ';' !in h && '#' !in h && (h == "" || h[0] != 'x')
    ensures GetEntity("&#" + h + ";" + after) ==
      if forall i :: 0 <= i < |h| ==> '0' <= h[i] <= '9' then Some(([(StructFormat.DecVal(h, 0) % 256) as char], after)) else None
  {
    BehindNone(h, '#');
    DecimalReference(h, after);
  }

  /** A hexadecimal reference, `&#x` up to a semicolon. */
  lemma HexadecimalReference(body: string, after: string)
    requires ';' !in body
    ensures var d := Behind(body, 'x');
      GetEntity(Delimited("&#x", body, after)) == if HexDigits(d) then Some(([(HexValue(d) % 256) as char], after)) else None
  {
    hide DigitValue, Digits, Behind, NumberIn, AllOf, HexValue, HexDigits, Semicolon, StartsWith;
    var s, end := Delimited("&#x", body, after), 3 + |body|;
    DelimitedEnds("&#x", body, after, 3);
    assert s[1] == '#' && s[2] == 'x';
    assert s[2..end] == ['x'] + body && s[end + 1..] == after;
    DigitsExact(body, 'x', 16, 1, 0);
    NumbersAgree(Behind(body, 'x'));
  }

  /** Without a semicolon there is no reference, and the read fails. */
  lemma {:induction false} OpenReferenceFails(s: string)
    requires |s| > 2 && s[0] == '&' && s[1] == '#' && ';' !in s
    ensures GetEntity(s) == None
  {
    SemicolonAfter(s, 2, |s|);
    SemicolonAfter(s, 3, |s|);
  }

  /** A quoted value that is one decimal reference: the character, or no attribute at all. */
  lemma DecimalInAttribute(name: string, q: char, h: string, r: string)
    requires LegalName(name) && (q == '\"' || q == '\'') && ';' !in h && '#' !in h && (h == "" || h[0] != 'x')
    ensures ParseAttribute(name + ("=" + ([q] + ("&#" + h + ";" + ([q] + r))))) ==
      if forall i :: 0 <= i < |h| ==> '0' <= h[i] <= '9'
      then Some((Attribute(name, [(StructFormat.DecVal(h, 0) % 256) as char]), r)) else None
  {
    hide ReadKept, ReadName, ParseAttribute, NameChar, NameStart, GetEntity;
    var quoted := "&#" + h + ";" + ([q] + r);
    var s := name + ("=" + ([q] + quoted));
    assert s[0] == name[0];
    EqualsEndsName(quoted, q);
    NameRead(name, "=" + ([q] + quoted));
    AttributeValueRead(s, name, q, quoted);
    DecimalDigits(h, [q] + r);
    assert quoted[0] == '&' && GetChar(quoted) == GetEntity(quoted);
    if forall i :: 0 <= i < |h| ==> '0' <= h[i] <= '9' {
      KeptEnds(q, r);
      KeptOne(quoted, q, (StructFormat.DecVal(h, 0) % 256) as char, r);
    } else {
      KeptFails(quoted, q);
    }
  }

  lemma KeptFails(s: string, q: char)
    requires s != "" && s[0] != q && GetChar(s) == None
    ensures ReadKept(s, [q]) == None
  {
    hide GetChar;
    assert s[..1] == [s[0]];
  }

  // ---------------------------------------------------------------- entities

  /** The five named entities, and the ampersand that begins none of them and is dropped. */
  lemma NamedEntities(r: string)
    ensures GetEntity("&amp;" + r) == Some(("&", r)) && GetEntity("&lt;" + r) == Some(("<", r))
    ensures GetEntity("&gt;" + r) == Some((">", r)) && GetEntity("&quot;" + r) == Some(("\"", r))
    ensures GetEntity("&apos;" + r) == Some(("\'", r)) && GetEntity("& " + r) == Some(("", " " + r))
  {
    hide GetEntity;
    AmpersandRead(r);
    LessRead(r);
    GreaterRead(r);
    QuoteRead(r);
    ApostropheRead(r);
    StrayRead(r);
  }

  lemma TagFound(tag: string, r: string)
    ensures StartsWith(tag + r, tag) && (tag + r)[|tag|..] == r
  {
  }

  lemma TagDiffers(s: string, tag: string, i: nat)
    requires i < |s| && i < |tag| && s[i] != tag[i]
    ensures !StartsWith(s, tag)
  {
  }

  lemma AmpersandRead(r: string)
    ensures GetEntity("&amp;" + r) == Some(("&", r))
  {
    TagFound("&amp;", r);
    hide StartsWith;
  }

  lemma LessRead(r: string)
    ensures GetEntity("&lt;" + r) == Some(("<", r))
  {
    var s := "&lt;" + r;
    TagFound("&lt;", r);
    TagDiffers(s, "&amp;", 1);
    hide StartsWith;
  }

  lemma GreaterRead(r: string)
    ensures GetEntity("&gt;" + r) == Some((">", r))
  {
    var s := "&gt;" + r;
    TagFound("&gt;", r);
    TagDiffers(s, "&amp;", 1);
    TagDiffers(s, "&lt;", 1);
    hide StartsWith;
  }

  lemma QuoteRead(r: string)
    ensures GetEntity("&quot;" + r) == Some(("\"", r))
  {
    var s := "&quot;" + r;
    TagFound("&quot;", r);
    TagDiffers(s, "&amp;", 1);
    TagDiffers(s, "&lt;", 1);
    TagDiffers(s, "&gt;", 1);
    hide StartsWith;
  }

  lemma ApostropheRead(r: string)
    ensures GetEntity("&apos;" + r) == Some(("\'", r))
  {
    var s := "&apos;" + r;
    TagFound("&apos;", r);
    TagDiffers(s, "&amp;", 2);
    TagDiffers(s, "&lt;", 1);
    TagDiffers(s, "&gt;", 1);
    TagDiffers(s, "&quot;", 1);
    hide StartsWith;
  }

  lemma StrayRead(r: string)
    ensures GetEntity("& " + r) == Some(("", " " + r))
  {
    var s := "& " + r;
    TagDiffers(s, "&amp;", 1);
    TagDiffers(s, "&lt;", 1);
    TagDiffers(s, "&gt;", 1);
    TagDiffers(s, "&quot;", 1);
    TagDiffers(s, "&apos;", 1);
    hide StartsWith;
    assert s[1..] == " " + r;
  }

  /** What the printer makes of one character on its own. */
  lemma EncodedCharacters(c: char)
    ensures Encode("&") == "&amp;" && Encode("<") == "&lt;" && Encode(">") == "&gt;"
    ensures Encode("\"") == "&quot;" && Encode("\'") == "&apos;"
    ensures c as int < 32 ==>
      Encode([c]) == "&#x" + ["0123456789ABCDEF"[c as int / 16], "0123456789ABCDEF"[c as int % 16]] + ";"
    ensures c as int >= 32 && c !in "&<>\"\'" ==> Encode([c]) == [c]
  {
    OneEncoded('&');
    OneEncoded('<');
    OneEncoded('>');
    OneEncoded('\"');
    OneEncoded('\'');
    OneEncoded(c);
    if c as int < 32 {
      assert HexDigit(c as nat / 16) == "0123456789ABCDEF"[c as int / 16];
      assert HexDigit(c as nat % 16) == "0123456789ABCDEF"[c as int % 16];
    }
  }

  lemma OneEncoded(c: char)
    ensures Encode([c]) == EncodeChar(c)
  {
    assert [c][1..] == "" && EncodeChar(c) + "" == EncodeChar(c);
  }

  // ---------------------------------------------------------------- names, attributes and text as written

  /** Names by character number: letters, an underscore and everything from 127 on; further on also digits, `-`, `.` and `:`. */
  lemma NameCharacters(c: char)
    ensures var n := c as int;
      && (NameStart(c) <==> 97 <= n <= 122 || 65 <= n <= 90 || n == 95 || n >= 127)
      && (NameChar(c) <==> NameStart(c) || 48 <= n <= 57 || n == 45 || n == 46 || n == 58)
  {
  }

  /** No white space, no `/`, no `>` and no quotes. */
  predicate Bare(v: string)
  {
    forall c <- v :: !(c as int == 32 || 9 <= c as int <= 13) && c !in "/>\"\'"
  }

  /** A value without quotes ends at white space, `/` or `>`, and a quote inside it is an error. */
  lemma {:induction false} BareValueRead(v: string, r: string)
    requires Bare(v)
    ensures r == "" || Spaces([r[0]]) || r[0] == '/' || r[0] == '>' ==> ReadUnquoted(v + r) == Some((v, r))
    ensures r != "" && (r[0] == '\"' || r[0] == '\'') ==> ReadUnquoted(v + r) == None
    decreases |v|
  {
    if v == "" {
      assert v + r == r;
      assert r != "" ==> r[0] in [r[0]];
    } else {
      assert v[0] in v && forall c <- v[1..] :: c in v;
      assert (v + r)[1..] == v[1..] + r && (v + r)[0] == v[0];
      BareValueRead(v[1..], r);
      assert v == [v[0]] + v[1..];
    }
  }

  /** White space before a name and around the equals sign of an attribute does not matter. */
  lemma SpacesInAttribute(w: string, name: string, w1: string, w2: string, rest: string)
    requires LegalName(name) && Spaces(w) && Spaces(w1) && Spaces(w2)
    ensures ParseAttribute(w + (name + (w1 + ("=" + (w2 + rest))))) == ParseAttribute(name + ("=" + rest))
  {
    hide ReadAttributeValue, NameChar, NameStart;
    var tail := w1 + ("=" + (w2 + rest));
    SpacesSkipped(w, name + tail);
    NameIsNoSpace(name, tail);
    NameIsNoSpace(name, "=" + rest);
    NameRead(name, tail) by {
      SpaceEndsName(w1, "=" + (w2 + rest));
    }
    NameRead(name, "=" + rest) by {
      SpaceEndsName("", "=" + rest);
    }
    SpacesSkipped(w1, "=" + (w2 + rest));
    SkipNothing("=" + (w2 + rest));
    SkipNothing("=" + rest);
    assert ("=" + (w2 + rest))[1..] == w2 + rest && ("=" + rest)[1..] == rest;
    SpacesSkipped(w2, rest);
  }

  lemma NameIsNoSpace(name: string, r: string)
    requires LegalName(name)
    ensures Skip(name + r) == name + r
  {
    assert (name + r)[0] == name[0];
  }

  lemma SpaceEndsName(w: string, r: string)
    requires Spaces(w) && r != "" && r[0] == '='
    ensures w + r == "" || !NameChar((w + r)[0])
  {
    if w != "" {
      assert w[0] in w;
    }
  }

  /** No white space, no markup and no ampersand. */
  predicate Word(v: string)
  {
    forall c <- v :: !(c as int == 32 || 9 <= c as int <= 13) && c != '<' && c != '&'
  }

  /** Any white space between two words of text is one blank, and white space behind the last word is dropped. */
  lemma {:induction false} WordsRead(v: string, gap: string, s: string, white: bool)
    requires Word(v) && v != "" && Spaces(gap) && gap != ""
    ensures ReadCondensed(v + (gap + s), white) ==
      match ReadCondensed(s, true)
      case None => None
      case Some((text, after)) => Some(((if white then " " else "") + v + text, after))
    decreases |v|
  {
    hide ReadCondensed;
    var t := v + (gap + s);
    assert v[0] in v && t[0] == v[0] && t[1..] == v[1..] + (gap + s);
    assert v == [v[0]] + v[1..];
    OneCharacter(t, white);
    if |v| == 1 {
      assert t[1..] == gap + s && v == [t[0]];
      GapRead(gap, s, false);
    } else {
      assert forall c <- v[1..] :: c in v;
      WordsRead(v[1..], gap, s, false);
      WordJoined(white, v, ReadCondensed(s, true));
    }
  }

  lemma OneCharacter(t: string, white: bool)
    requires t != "" && !IsWhiteSpace(t[0]) && t[0] != '<' && t[0] != '&'
    ensures ReadCondensed(t, white) ==
      match ReadCondensed(t[1..], false)
      case None => None
      case Some((text, after)) => Some(((if white then " " else "") + [t[0]] + text, after))
  {
  }

  lemma WordJoined(white: bool, v: string, r: Option<(string, string)>)
    requires v != ""
    ensures r.Some? ==> (if white then " " else "") + [v[0]] + ("" + v[1..] + r.value.0) == (if white then " " else "") + v + r.value.0
  {
    assert v == [v[0]] + v[1..];
  }

  lemma {:induction false} GapRead(gap: string, s: string, white: bool)
    requires Spaces(gap) && gap != ""
    ensures ReadCondensed(gap + s, white) == ReadCondensed(s, true)
    decreases |gap|
  {
    assert gap[0] in gap && (gap + s)[0] == gap[0] && (gap + s)[1..] == gap[1..] + s;
    if |gap| == 1 {
      assert gap[1..] + s == s;
    } else {
      assert forall c <- gap[1..] :: c in gap;
      GapRead(gap[1..], s, true);
    }
  }

  lemma WordsEnd(r: string, white: bool)
    ensures ReadCondensed("<" + r, white) == Some(("", "<" + r))
  {
  }

  /** Other markup ends at its first `>`, or with the document. */
  lemma {:induction false} UnknownRead(v: string, r: string)
    requires '>' !in v
    ensures ReadUnknown(v + (">" + r)) == (v, r) && ReadUnknown(v) == (v, "")
    decreases |v|
  {
    if v == "" {
      assert v + (">" + r) == ">" + r && (">" + r)[1..] == r;
    } else {
      assert (v + (">" + r))[1..] == v[1..] + (">" + r);
      UnknownRead(v[1..], r);
      assert v == [v[0]] + v[1..];
    }
  }

  /** Nothing the printer has to escape. */
  predicate Printable(v: string)
  {
    forall c <- v :: c as int >= 32 && c !in "&<>\"\'"
  }

  lemma {:induction false} PrintableStays(v: string)
    requires Printable(v)
    ensures Encode(v) == v
    decreases |v|
  {
    if v != "" {
      assert v[0] in v && forall c <- v[1..] :: c in v;
      PrintableStays(v[1..]);
      assert v == [v[0]] + v[1..];
      EncodedFirst(v);
      hide Encode;
    }
  }

  lemma EncodedFirst(v: string)
    requires v != "" && v[0] as int >= 32 && v[0] !in "&<>\"\'"
    ensures Encode(v) == [v[0]] + Encode(v[1..])
  {
    assert EncodeChar(v[0]) == [v[0]] by {
      EncodedCharacters(v[0]);
      OneEncoded(v[0]);
    }
    hide EncodeChar;
  }

  /** Values go between double quotes, or between single ones when they hold a double quote, which is escaped all the same. */
  lemma PrintedQuotes(name: string, v: string)
    requires Printable(name) && Printable(v)
    ensures PrintAttribute(Attribute(name, v)) == name + "=\"" + v + "\""
    ensures PrintAttribute(Attribute(name, "\"" + v)) == name + "=\'&quot;" + v + "\'"
  {
    PrintableStays(name);
    PrintableStays(v);
    assert '\"' !in v;
    var w := "\"" + v;
    assert w[0] == '\"' && w[1..] == v && '\"' in w;
    assert Encode(w) == "&quot;" + v;
    assert name + "=\'" + ("&quot;" + v) == name + "=\'&quot;" + v;
  }

  /** The tags of an element with one attribute, without children and around one text. */
  lemma PrintedElement(name: string, a: string, v: string, text: string)
    requires Printable(a) && Printable(v) && Printable(text)
    ensures Print(Element(name, [Attribute(a, v)], [])) == "<" + name + " " + a + "=\"" + v + "\" />"
    ensures Print(Element(name, [Attribute(a, v)], [Text(text, false)]))
      == "<" + name + " " + a + "=\"" + v + "\">" + text + "</" + name + ">"
  {
    var attributes := [Attribute(a, v)];
    PrintedQuotes(a, v);
    PrintableStays(text);
    OneAttribute(attributes[0]);
    hide PrintAttribute, PrintAttributes, Encode;
    NoText(Element(name, attributes, []));
    OneText(Element(name, attributes, [Text(text, false)]), text);
    hide Print;
    EmptyTag("<" + name, a, v);
    Tags("<" + name, a, v, text, name);
  }

  lemma NoText(n: Node)
    requires n.Element? && n.children == []
    ensures Print(n) == "<" + n.name + PrintAttributes(n.attributes) + " />"
  {
  }

  lemma EmptyTag(start: string, a: string, v: string)
    ensures start + (" " + (a + "=\"" + v + "\"")) + " />" == start + " " + a + "=\"" + v + "\" />"
  {
    assert "\" />" == "\"" + " />";
  }

  lemma OneAttribute(a: Attribute)
    ensures PrintAttributes([a]) == " " + PrintAttribute(a)
  {
    assert [a][1..] == [] && " " + PrintAttribute(a) + "" == " " + PrintAttribute(a);
  }

  lemma OneText(n: Node, text: string)
    requires n.Element? && n.children == [Text(text, false)] && Encode(text) == text
    ensures Print(n) == "<" + n.name + PrintAttributes(n.attributes) + (">" + text + "</" + n.name + ">")
  {
    assert PrintChildren(n, 1) == "" && text + "" == text;
    assert PrintChildren(n, 0) == Print(n.children[0]) + PrintChildren(n, 1);
  }

  lemma Tags(start: string, a: string, v: string, text: string, name: string)
    ensures start + (" " + (a + "=\"" + v + "\"")) + (">" + text + "</" + name + ">")
      == start + " " + a + "=\"" + v + "\">" + text + "</" + name + ">"
  {
    assert "\">" == "\"" + ">";
  }

  // ---------------------------------------------------------------- white space

  /** Blanks, tabs, line feeds, vertical tabs, form feeds and carriage returns. */
  predicate Spaces(w: string)
  {
    forall c <- w :: c as int == 32 || 9 <= c as int <= 13
  }

  lemma {:induction false} SpacesSkipped(w: string, s: string)
    requires Spaces(w)
    ensures Skip(w + s) == Skip(s)
    decreases |w|
  {
    if w == "" {
      assert w + s == s;
    } else {
      assert w[0] in w && (w + s)[1..] == w[1..] + s;
      assert forall c <- w[1..] :: c in w;
      SpacesSkipped(w[1..], s);
    }
  }

  /** White space before a node changes nothing, at the top of a document or inside an element. */
  lemma SpacesBeforeNode(w: string, s: string)
    requires Spaces(w)
    ensures ParseNodes(w + s) == ParseNodes(s) && ReadValue(w + s) == ReadValue(s)
  {
    SpacesSkipped(w, s);
  }

  /** A node printed with `w` before every child and before every end tag, but not behind plain text. */
  function PrintSpaced(n: Node, w: string): string
    decreases n, |if n.Element? then n.children else []| + 1
  {
    if n.Element? && n.children != [] then
      "<" + n.name + PrintAttributes(n.attributes) + (">" + (ChildrenSpaced(n, w, 0) + ("</" + (n.name + ">"))))
    else Print(n)
  }

  function ChildrenSpaced(n: Node, w: string, k: nat): string
    requires n.Element? && k <= |n.children|
    decreases n, |n.children| - k
  {
    (if k > 0 && PlainText(n.children[k - 1]) then "" else w)
    + if k == |n.children| then "" else PrintSpaced(n.children[k], w) + ChildrenSpaced(n, w, k + 1)
  }

  lemma {:induction false} SpacedNodeRead(n: Node, w: string, r: string)
    requires Legal(n) && !PlainText(n) && Spaces(w)
    ensures ParseNodeOf(PrintSpaced(n, w) + r) == Some((n, r))
    decreases n, |if n.Element? then n.children else []| + 1
  {
    hide ParseNodeOf, ParseElement, ReadValue, Print, ChildrenSpaced, PrintAttributes;
    if n.Element? && n.children != [] {
      var name, body := n.name, ChildrenSpaced(n, w, 0);
      SpacedChildrenRead(n, w, 0, name + ">" + r);
      assert n.children[0..] == n.children;
      assert "</" + (name + ">" + r) == "</" + name + ">" + r;
      FullElementRead(name, n.attributes, body + ("</" + name + ">" + r), n.children, r);
      ElementBegun(name, n.attributes, ">" + (body + ("</" + name + ">" + r)));
      SpacedText("<" + name + PrintAttributes(n.attributes), body, name, r);
    } else {
      NodeRead(n, r);
    }
  }

  lemma SpacedText(start: string, body: string, name: string, r: string)
    ensures start + (">" + (body + ("</" + (name + ">")))) + r == start + (">" + (body + ("</" + name + ">" + r)))
  {
  }

  lemma {:induction false} SpacedChildrenRead(n: Node, w: string, k: nat, r: string)
    requires Legal(n) && n.Element? && k <= |n.children| && Spaces(w)
    ensures ReadValue(ChildrenSpaced(n, w, k) + ("</" + r)) == Some((n.children[k..], "</" + r))
    decreases n, |n.children| - k
  {
    hide ReadValue, Print, PrintSpaced, ParseNode, Encode, Spaces;
    var gap := if k > 0 && PlainText(n.children[k - 1]) then "" else w;
    assert Spaces(gap) by { NoSpaces(); }
    if k == |n.children| {
      ValueEnds(r);
      SpacesBeforeNode(gap, "</" + r);
      assert ChildrenSpaced(n, w, k) == gap;
      assert n.children[k..] == [];
    } else {
      var c, rest := n.children[k], ChildrenSpaced(n, w, k + 1) + ("</" + r);
      assert c in n.children;
      SpacedChildrenRead(n, w, k + 1, r);
      assert n.children[k..] == [c] + n.children[k + 1..];
      SpacesBeforeNode(gap, PrintSpaced(c, w) + rest);
      Regrouped(gap, PrintSpaced(c, w), ChildrenSpaced(n, w, k + 1), "</" + r);
      if PlainText(c) {
        TextThenMarkup(n, w, k, r);
        ValueStepText(c.value, rest);
        SpacedLeaf(c, w);
        assert c == Text(c.value, false);
      } else {
        SpacedNodeRead(c, w, rest);
        SpacedStart(c, w);
        ValueStepMarkup(PrintSpaced(c, w) + rest, c, rest);
      }
    }
  }

  lemma NoSpaces()
    ensures Spaces("")
  {
  }

  lemma Regrouped(a: string, b: string, c: string, d: string)
    ensures a + (b + c) + d == a + (b + (c + d))
  {
  }

  lemma SpacedLeaf(n: Node, w: string)
    requires PlainText(n)
    ensures PrintSpaced(n, w) == Encode(n.value)
  {
  }

  lemma SpacedStart(n: Node, w: string)
    requires Legal(n) && !PlainText(n)
    ensures |PrintSpaced(n, w)| > 1 && PrintSpaced(n, w)[0] == '<' && PrintSpaced(n, w)[1] != '/'
  {
    if n.Element? && n.children != [] {
      assert PrintSpaced(n, w)[1] == n.name[0];
    } else {
      PrintedStart(n);
    }
  }

  /** Behind plain text comes markup. */
  lemma TextThenMarkup(n: Node, w: string, k: nat, r: string)
    requires Legal(n) && n.Element? && k < |n.children| && PlainText(n.children[k])
    ensures var rest := ChildrenSpaced(n, w, k + 1) + ("</" + r); rest != "" && rest[0] == '<'
  {
    hide PrintSpaced;
    if k + 1 < |n.children| {
      assert n.children[k + 1] in n.children;
      SpacedStart(n.children[k + 1], w);
    }
  }

  function NodesSpaced(nodes: seq<Node>, w: string): string
  {
    if nodes == [] then w else w + (PrintSpaced(nodes[0], w) + NodesSpaced(nodes[1..], w))
  }

  lemma {:induction false} SpacedNodesRead(nodes: seq<Node>, w: string)
    requires Spaces(w) && forall n <- nodes :: Legal(n) && !PlainText(n)
    ensures ParseNodes(NodesSpaced(nodes, w)) == Some(nodes)
    decreases |nodes|
  {
    hide Print, ParseNode, ParseNodes, Legal, PrintSpaced, Spaces;
    if nodes == [] {
      NoNodes();
      SpacesBeforeNode(w, "");
      assert w + "" == w;
    } else {
      var n, rest := nodes[0], NodesSpaced(nodes[1..], w);
      assert n in nodes && forall m <- nodes[1..] :: m in nodes;
      SpacedNodesRead(nodes[1..], w);
      SpacedNodeRead(n, w, rest);
      SpacedStart(n, w);
      SpacesBeforeNode(w, PrintSpaced(n, w) + rest);
      NodesStep(PrintSpaced(n, w) + rest, n, rest);
      assert nodes == [n] + nodes[1..];
    }
  }

  /**
   A legal document printed with the same white space between its nodes at every level, such
   as line ends and tabs, is read as the same document.
   */
  lemma SpacedDocumentIsRead(nodes: seq<Node>, w: string)
    requires LegalDocument(nodes) && Spaces(w)
    ensures ParseDocument(NodesSpaced(nodes, w)) == Some(nodes)
  {
    hide Legal, PrintSpaced, ParseNodes;
    SpacedHaveNoNul(nodes, w);
    NoNulIsWhole(NodesSpaced(nodes, w));
    SpacedNodesRead(nodes, w);
  }

  lemma {:induction false} SpacedHaveNoNul(nodes: seq<Node>, w: string)
    requires Spaces(w) && forall n <- nodes :: Legal(n)
    ensures NoNul(NodesSpaced(nodes, w))
    decreases |nodes|
  {
    hide Legal, PrintSpaced;
    if nodes != [] {
      assert nodes[0] in nodes && forall m <- nodes[1..] :: m in nodes;
      SpacedHasNoNul(nodes[0], w);
      SpacedHaveNoNul(nodes[1..], w);
    }
  }

  lemma {:induction false} SpacedHasNoNul(n: Node, w: string)
    requires Legal(n) && Spaces(w)
    ensures NoNul(PrintSpaced(n, w))
    decreases n, |if n.Element? then n.children else []| + 1
  {
    if n.Element? && n.children != [] {
      AttributesHaveNoNul(n.attributes);
      SpacedChildrenHaveNoNul(n, w, 0);
      assert NoNul(n.name);
    } else {
      PrintedHasNoNul(n);
    }
  }

  lemma {:induction false} SpacedChildrenHaveNoNul(n: Node, w: string, k: nat)
    requires n.Element? && Legal(n) && k <= |n.children| && Spaces(w)
    ensures NoNul(ChildrenSpaced(n, w, k))
    decreases n, |n.children| - k
  {
    if k < |n.children| {
      assert n.children[k] in n.children;
      SpacedHasNoNul(n.children[k], w);
      SpacedChildrenHaveNoNul(n, w, k + 1);
    }
  }
}
