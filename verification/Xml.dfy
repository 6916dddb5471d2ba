/**
 XML as TinyXML reads and writes it, in an undeclared encoding (a character stands for a
 byte) and the C locale: names, entities, text, and the recursive-descent parser as functions
 on what a pointer points at. The empty string is a pointer at the terminating NUL.
 */
module Xml {
  import opened Wrappers

  datatype Attribute = Attribute(name: string, value: string)

  datatype Node =
    | Element(name: string, attributes: seq<Attribute>, children: seq<Node>)
    | Text(value: string, cdata: bool)
    | Comment(value: string)
    | Unknown(value: string)

  // ---------------------------------------------------------------- characters

  /** isspace in the C locale. */
  predicate IsWhiteSpace(c: char)
  {
    c == ' ' || '\t' <= c <= '\r'
  }

  predicate Letter(c: char)
  {
    'a' <= c <= 'z' || 'A' <= c <= 'Z'
  }

  /** Everything from 127 on counts as a letter. */
  predicate IsAlpha(c: char)
  {
    Letter(c) || c as int >= 127
  }

  predicate IsAlphaNum(c: char)
  {
    IsAlpha(c) || '0' <= c <= '9'
  }

  predicate NameStart(c: char)
  {
    IsAlpha(c) || c == '_'
  }

  predicate NameChar(c: char)
  {
    IsAlphaNum(c) || c == '_' || c == '-' || c == '.' || c == ':'
  }

  predicate StartsWith(s: string, tag: string)
  {
    |tag| <= |s| && s[..|tag|] == tag
  }

  function Lower(c: char): char
  {
    if 'A' <= c <= 'Z' then c - 'A' + 'a' else c
  }

  /** StringEqual with the case ignored. */
  predicate StartsWithIgnoringCase(s: string, tag: string)
  {
    |tag| <= |s| && forall i :: 0 <= i < |tag| ==> Lower(s[i]) == Lower(tag[i])
  }

  /** Past leading white space. */
  function Skip(s: string): (r: string)
    ensures |r| <= |s| && (r == "" || !IsWhiteSpace(r[0]))
  {
    if s != "" && IsWhiteSpace(s[0]) then Skip(s[1..]) else s
  }

  /** The length of the leading run of name characters. */
  function NameLength(s: string): (n: nat)
    ensures n <= |s|
  {
    if s != "" && NameChar(s[0]) then 1 + NameLength(s[1..]) else 0
  }

  /** A name and what follows it. */
  function ReadName(s: string): (r: Option<(string, string)>)
    ensures r.Some? ==> |r.value.1| < |s|
  {
    if s != "" && NameStart(s[0]) then Some((s[..NameLength(s)], s[NameLength(s)..])) else None
  }

  // ---------------------------------------------------------------- entities

  function HexDigit(n: nat): char
    requires n < 16
  {
    if n < 10 then '0' + n as char else 'A' + (n - 10) as char
  }

  /** What EncodeString appends for one character on its own. */
  function EncodeChar(c: char): string
  {
    if c == '&' then "&amp;"
    else if c == '<' then "&lt;"
    else if c == '>' then "&gt;"
    else if c == '\"' then "&quot;"
    else if c == '\'' then "&apos;"
    else if c < ' ' then "&#x" + [HexDigit(c as nat / 16), HexDigit(c as nat % 16), ';']
    else [c]
  }

  /** A hexadecimal character reference, or what looks like one. */
  predicate HexReference(s: string)
  {
    |s| > 2 && s[0] == '&' && s[1] == '#' && s[2] == 'x'
  }

  /** How much of a hexadecimal reference is passed through: up to a semicolon, or all but the last character. */
  function PassLength(s: string, k: nat): (n: nat)
    requires 1 <= k < |s|
    ensures k <= n < |s|
    decreases |s| - k
  {
    if s[k] == ';' || k == |s| - 1 then k else PassLength(s, k + 1)
  }

  function Encode(s: string): string
    decreases |s|
  {
    if s == "" then ""
    else if HexReference(s) then s[..PassLength(s, 1)] + Encode(s[PassLength(s, 1)..])
    else EncodeChar(s[0]) + Encode(s[1..])
  }

  function DigitValue(c: char, base: nat): Option<nat>
  {
    if '0' <= c <= '9' then Some((c - '0') as nat)
    else if base == 16 && 'a' <= c <= 'f' then Some((c - 'a') as nat + 10)
    else if base == 16 && 'A' <= c <= 'F' then Some((c - 'A') as nat + 10)
    else None
  }

  /** The digits from the end back to the mark, the multiplier in 32 bits and the sum in 64. */
  function Digits(s: string, mark: char, base: nat, mult: nat, sum: nat): Option<nat>
  {
    if s == "" || s[|s| - 1] == mark then Some(sum)
    else
      match DigitValue(s[|s| - 1], base)
      case None => None
      case Some(v) =>
        Digits(s[..|s| - 1], mark, base, mult * base % 0x1_0000_0000, (sum + mult * v % 0x1_0000_0000) % 0x1_0000_0000_0000_0000)
  }

  /** The position of the first semicolon from `k` on. */
  function Semicolon(s: string, k: nat): (r: Option<nat>)
    ensures r.Some? ==> k <= r.value < |s|
    decreases |s| - k
  {
    if k >= |s| then None else if s[k] == ';' then Some(k) else Semicolon(s, k + 1)
  }

  /** A numeric reference in the digits between the mark at `k` and a semicolon. */
  function Reference(s: string, k: nat, base: nat): (r: Option<(string, string)>)
    requires k < |s|
    ensures r.Some? ==> |r.value.1| < |s|
  {
    match Semicolon(s, k + 1)
    case None => None
    case Some(end) =>
      match Digits(s[k..end], s[k], base, 1, 0)
      case None => None
      case Some(n) => Some(([(n % 256) as char], s[end + 1..]))
  }

  /**
   GetEntity: the character and what follows; None for a null pointer. An ampersand that
   begins no entity is dropped.
   */
  function GetEntity(s: string): (r: Option<(string, string)>)
    requires s != ""
    ensures r.Some? ==> |r.value.1| < |s|
  {
    if |s| > 2 && s[1] == '#' then
      if s[2] == 'x' then if |s| == 3 then None else Reference(s, 2, 16) else Reference(s, 1, 10)
    else if StartsWith(s, "&amp;") then Some(("&", s[5..]))
    else if StartsWith(s, "&lt;") then Some(("<", s[4..]))
    else if StartsWith(s, "&gt;") then Some((">", s[4..]))
    else if StartsWith(s, "&quot;") then Some(("\"", s[6..]))
    else if StartsWith(s, "&apos;") then Some(("\'", s[6..]))
    else Some(("", s[1..]))
  }

  function GetChar(s: string): (r: Option<(string, string)>)
    requires s != ""
    ensures r.Some? ==> |r.value.1| < |s|
  {
    if s[0] == '&' then GetEntity(s) else Some(([s[0]], s[1..]))
  }

  // ---------------------------------------------------------------- text

  /** ReadText with white space kept: the text before the end marker, and what follows the marker. */
  function ReadKept(s: string, end: string): (r: Option<(string, string)>)
    requires end != ""
    ensures r.Some? ==> |r.value.1| < |s|
  {
    if s == "" then None
    else if StartsWith(s, end) then Some(("", s[|end|..]))
    else
      match GetChar(s)
      case None => None
      case Some((c, rest)) =>
        match ReadKept(rest, end)
        case None => None
        case Some((text, after)) => Some((c + text, after))
  }

  /** ReadText with white space condensed, up to the next `<` or the end; `white` when some was just skipped. */
  function ReadCondensed(s: string, white: bool): (r: Option<(string, string)>)
    ensures r.Some? ==> |r.value.1| <= |s| && (r.value.1 == "" || r.value.1[0] == '<')
  {
    if s == "" || s[0] == '<' then Some(("", s))
    else if IsWhiteSpace(s[0]) then ReadCondensed(s[1..], true)
    else
      match GetChar(s)
      case None => None
      case Some((c, rest)) =>
        match ReadCondensed(rest, false)
        case None => None
        case Some((text, after)) => Some(((if white then " " else "") + c + text, after))
  }

  /** The raw text before the end marker, and what follows the marker. */
  function ReadRaw(s: string, end: string): (r: Option<(string, string)>)
    requires end != ""
    ensures r.Some? ==> |r.value.1| < |s|
  {
    if s == "" then None
    else if StartsWith(s, end) then Some(("", s[|end|..]))
    else
      match ReadRaw(s[1..], end)
      case None => None
      case Some((text, after)) => Some(([s[0]] + text, after))
  }

  predicate Blank(s: string)
  {
    forall c <- s :: IsWhiteSpace(c)
  }

  // ---------------------------------------------------------------- the parser

  /** An attribute value without quotes. */
  function ReadUnquoted(s: string): (r: Option<(string, string)>)
    ensures r.Some? ==> |r.value.1| <= |s|
  {
    if s == "" || IsWhiteSpace(s[0]) || s[0] == '/' || s[0] == '>' then Some(("", s))
    else if s[0] == '\'' || s[0] == '\"' then None
    else
      match ReadUnquoted(s[1..])
      case None => None
      case Some((text, after)) => Some(([s[0]] + text, after))
  }

  function ReadAttributeValue(s: string): (r: Option<(string, string)>)
    requires s != ""
    ensures r.Some? ==> |r.value.1| <= |s|
  {
    if s[0] == '\'' then ReadKept(s[1..], "\'")
    else if s[0] == '\"' then ReadKept(s[1..], "\"")
    else ReadUnquoted(s)
  }

  /** TiXmlAttribute::Parse. */
  function ParseAttribute(s: string): (r: Option<(Attribute, string)>)
    ensures r.Some? ==> |r.value.1| < |s|
  {
    match ReadName(Skip(s))
    case None => None
    case Some((name, rest)) =>
      var eq := Skip(rest);
      if eq == "" || eq[0] != '=' then None
      else
        var value := Skip(eq[1..]);
        if value == "" then None
        else
          match ReadAttributeValue(value)
          case None => None
          case Some((v, after)) => Some((Attribute(name, v), after))
  }

  predicate HasAttribute(attributes: seq<Attribute>, name: string)
  {
    exists a <- attributes :: a.name == name
  }

  /** TiXmlUnknown::Parse behind the `<`. */
  function ReadUnknown(s: string): (r: (string, string))
    ensures |r.1| <= |s|
  {
    if s == "" then ("", "")
    else if s[0] == '>' then ("", s[1..])
    else
      var (text, after) := ReadUnknown(s[1..]);
      ([s[0]] + text, after)
  }

  /** Identify and Parse at a `<`; a declaration is not part of this model. */
  function ParseNode(s: string): (r: Option<(Node, string)>)
    requires s != "" && s[0] == '<'
    ensures r.Some? ==> |r.value.1| < |s|
    decreases |s|, 0
  {
    if StartsWithIgnoringCase(s, "<?xml") then None
    else if StartsWith(s, "<!--") then
      match ReadRaw(s[4..], "-->")
      case None => None
      case Some((v, after)) => Some((Comment(v), after))
    else if StartsWith(s, "<![CDATA[") then
      match ReadRaw(s[9..], "]]>")
      case None => None
      case Some((v, after)) => Some((Text(v, true), after))
    else if StartsWith(s, "<!") || |s| == 1 || !NameStart(s[1]) then
      var (v, after) := ReadUnknown(s[1..]);
      Some((Unknown(v), after))
    else
      match ReadName(s[1..])
      case None => None
      case Some((name, rest)) => if rest == "" then None else ParseElement(name, [], rest)
  }

  /**
   The rest of TiXmlElement::Parse behind the name and some attributes; None for a null
   pointer. That is an error everywhere but for a repeated attribute, which sets none itself:
   inside another element the parent then does, at the top of a document nobody does.
   */
  function ParseElement(name: string, attributes: seq<Attribute>, s: string): (r: Option<(Node, string)>)
    ensures r.Some? ==> |r.value.1| < |s|
    decreases |s|, 2
  {
    var p := Skip(s);
    if p == "" then None
    else if p[0] == '/' then
      if |p| > 1 && p[1] == '>' then Some((Element(name, attributes, []), p[2..])) else None
    else if p[0] == '>' then
      match ReadValue(p[1..])
      case None => None
      case Some((children, rest)) =>
        if StartsWith(rest, "</" + name + ">") then Some((Element(name, attributes, children), rest[|name| + 3..])) else None
    else
      match ParseAttribute(p)
      case None => None
      case Some((a, rest)) =>
        if rest == "" || HasAttribute(attributes, a.name) then None else ParseElement(name, attributes + [a], rest)
  }

  /** TiXmlElement::ReadValue: the children, and what follows, which begins with an end tag. */
  function ReadValue(s: string): (r: Option<(seq<Node>, string)>)
    ensures r.Some? ==> |r.value.1| <= |s|
    decreases |s|, 1
  {
    var p := Skip(s);
    if p == "" then None
    else if p[0] != '<' then
      match ReadCondensed(p, false)
      case None => None
      case Some((v, rest)) =>
        ReadCondensedAdvances(p);
        match ReadValue(rest)
        case None => None
        case Some((children, after)) => Some(((if Blank(v) then [] else [Text(v, false)]) + children, after))
    else if StartsWith(p, "</") then Some(([], p))
    else
      match ParseNode(p)
      case None => None
      case Some((n, rest)) =>
        match ReadValue(rest)
        case None => None
        case Some((children, after)) => Some(([n] + children, after))
  }

  lemma ReadCondensedAdvances(s: string)
    requires s != "" && s[0] != '<' && !IsWhiteSpace(s[0])
    ensures ReadCondensed(s, false).Some? ==> |ReadCondensed(s, false).value.1| < |s|
  {
  }

  /** The nodes of TiXmlDocument::Parse; what follows the last one is ignored. */
  function ParseNodes(s: string): Option<seq<Node>>
    decreases |s|
  {
    var p := Skip(s);
    if p == "" || p[0] != '<' then Some([])
    else
      match ParseNode(p)
      case None => None
      case Some((n, rest)) =>
        match ParseNodes(rest)
        case None => None
        case Some(nodes) => Some([n] + nodes)
  }

  /**
   TiXmlDocument::Parse on a string without byte-order mark; None when it sets an error, and
   also when an element at the top repeats an attribute. In that case the document sets no
   error and keeps the element with the attributes before the repeated one.
   */
  function ParseDocument(s: string): Option<seq<Node>>
  {
    match ParseNodes(CString(s))
    case None => None
    case Some(nodes) => if nodes == [] then None else Some(nodes)
  }

  /** Up to the first NUL. */
  function CString(s: string): string
  {
    if s == "" || s[0] == '\0' then "" else [s[0]] + CString(s[1..])
  }

  // ---------------------------------------------------------------- the stream printer

  function PrintAttribute(a: Attribute): string
  {
    if '\"' in a.value then Encode(a.name) + "=\'" + Encode(a.value) + "\'"
    else Encode(a.name) + "=\"" + Encode(a.value) + "\""
  }

  function PrintAttributes(attributes: seq<Attribute>): string
  {
    if attributes == [] then "" else " " + PrintAttribute(attributes[0]) + PrintAttributes(attributes[1..])
  }

  function Print(n: Node): string
    decreases n, |if n.Element? then n.children else []| + 1
  {
    match n
    case Text(v, cdata) => if cdata then "<![CDATA[" + v + "]]>" else Encode(v)
    case Comment(v) => "<!--" + v + "-->"
    case Unknown(v) => "<" + v + ">"
    case Element(name, attributes, children) =>
      "<" + name + PrintAttributes(attributes)
      + if children == [] then " />" else ">" + PrintChildren(n, 0) + "</" + name + ">"
  }

  /** The children from position `k` on. */
  function PrintChildren(n: Node, k: nat): string
    requires n.Element? && k <= |n.children|
    decreases n, |n.children| - k
  {
    if k == |n.children| then "" else Print(n.children[k]) + PrintChildren(n, k + 1)
  }

  function PrintNodes(nodes: seq<Node>): string
  {
    if nodes == [] then "" else Print(nodes[0]) + PrintNodes(nodes[1..])
  }
}
