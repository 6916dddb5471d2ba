/**
 What TinyXML does to characters on the way in: line ends of a file, and code points of
 numeric references in UTF-8.
 */
module XmlInput {
  import opened Sequences
  import opened Xml

  // ---------------------------------------------------------------- line ends

  /** Section 2.11 of XML 1.0: CR LF, and CR on its own, become LF. */
  function Normalized(s: string): string
  {
    if s == "" then ""
    else if s[0] == '\r' then "\n" + Normalized(if |s| > 1 && s[1] == '\n' then s[2..] else s[1..])
    else [s[0]] + Normalized(s[1..])
  }

  /** No carriage return is left, and normalising again changes nothing. */
  lemma {:induction false} NormalizedOnce(s: string)
    ensures '\r' !in Normalized(s) && Normalized(Normalized(s)) == Normalized(s)
    decreases |s|
  {
    if s != "" {
      var rest := if s[0] != '\r' then s[1..] else if |s| > 1 && s[1] == '\n' then s[2..] else s[1..];
      NormalizedOnce(rest);
      assert Normalized(s)[1..] == Normalized(rest);
    }
  }

  /** Without carriage returns nothing changes, and a part without them can be copied as a block. */
  lemma {:induction false} BlockCopied(block: string, rest: string)
    requires '\r' !in block
    ensures Normalized(block + rest) == block + Normalized(rest)
  {
    if block == "" {
      assert block + rest == rest;
    } else {
      assert block[0] in block && forall c <- block[1..] :: c in block;
      BlockCopied(block[1..], rest);
      assert (block + rest)[1..] == block[1..] + rest;
    }
  }

  lemma LineEnd(s: string)
    requires s != "" && s[0] == '\r'
    ensures Normalized(s) == "\n" + Normalized(if |s| > 1 && s[1] == '\n' then s[2..] else s[1..])
  {
  }

  /** A carriage return with its line feed, or one on its own, is one line feed; nothing else changes. */
  lemma LineEndsBecomeOne(a: string, b: string)
    requires '\r' !in a
    ensures Normalized(a) == a
    ensures Normalized(a + "\r\n" + b) == a + "\n" + Normalized(b)
    ensures b == "" || b[0] != '\n' ==> Normalized(a + "\r" + b) == a + "\n" + Normalized(b)
  {
    BlockCopied(a, "");
    assert a + "" == a && a + Normalized("") == a;
    BlockCopied(a, "\r\n" + b);
    LineEnd("\r\n" + b);
    assert ("\r\n" + b)[2..] == b && a + "\r\n" + b == a + ("\r\n" + b);
    assert a + ("\n" + Normalized(b)) == a + "\n" + Normalized(b);
    BlockCopied(a, "\r" + b);
    LineEnd("\r" + b);
    assert ("\r" + b)[1..] == b && a + "\r" + b == a + ("\r" + b);
  }

  lemma {:induction false} CStringIsPrefix(buf: string)
    ensures var n := |CString(buf)|;
      n <= |buf| && CString(buf) == buf[..n] && '\0' !in buf[..n] && (n < |buf| ==> buf[n] == '\0')
  {
    if buf != "" && buf[0] != '\0' {
      CStringIsPrefix(buf[1..]);
      var n := |CString(buf[1..])|;
      assert buf[..n + 1] == [buf[0]] + buf[1..][..n];
    }
  }

  /** Everything from `lastPos` on, once the block up to a line end at `p` has been copied. */
  lemma LineCopied(s: string, lastPos: nat, p: nat)
    requires lastPos <= p < |s| && '\r' !in s[lastPos..p]
    ensures s[p] != '\r' ==> Normalized(s[lastPos..]) == s[lastPos..p + 1] + Normalized(s[p + 1..])
    ensures s[p] == '\r' ==> Normalized(s[lastPos..]) == s[lastPos..p] + ("\n" + Normalized(s[p + LineEndLength(s, p)..]))
  {
    if s[p] != '\r' {
      assert s[lastPos..p + 1] == s[lastPos..p] + [s[p]];
      assert s[lastPos..] == s[lastPos..p + 1] + s[p + 1..];
      BlockCopied(s[lastPos..p + 1], s[p + 1..]);
    } else {
      assert s[lastPos..] == s[lastPos..p] + s[p..];
      BlockCopied(s[lastPos..p], s[p..]);
      LineEnd(s[p..]);
      assert s[p..][1..] == s[p + 1..];
      assert p + 1 < |s| ==> s[p..][2..] == s[p + 2..];
    }
  }

  /** A carriage return with the line feed behind it, if there is one. */
  function LineEndLength(s: string, p: nat): nat
  {
    if p + 1 < |s| && s[p + 1] == '\n' then 2 else 1
  }

  /** The turns of the loop. */
  lemma BlockStep(data: string, s: string, lastPos: nat, p: nat)
    requires lastPos <= p < |s| && '\r' !in s[lastPos..p]
    ensures s[p] == '\n' ==> data + Normalized(s[lastPos..]) == data + s[lastPos..p + 1] + Normalized(s[p + 1..])
    ensures s[p] == '\r' ==>
      data + Normalized(s[lastPos..]) == data + s[lastPos..p] + "\n" + Normalized(s[p + LineEndLength(s, p)..])
    ensures s[p] != '\r' ==> '\r' !in s[lastPos..p + 1]
    ensures lastPos == p ==> data + s[lastPos..p] == data
  {
    hide Normalized;
    LineCopied(s, lastPos, p);
    if s[p] == '\r' {
      var rest := Normalized(s[p + LineEndLength(s, p)..]);
      Associative(data, s[lastPos..p], "\n" + rest);
      Associative(data + s[lastPos..p], "\n", rest);
    } else {
      assert s[lastPos..p + 1] == s[lastPos..p] + [s[p]];
      Associative(data, s[lastPos..p + 1], Normalized(s[p + 1..]));
    }
  }

  /**
   The loop of LoadFile, which copies blocks between line ends and stops at a NUL, does what
   the rule for single characters says.
   */
  method LoadLines(buf: string) returns (data: string)
    ensures data == Normalized(CString(buf))
  {
    hide Normalized, CString, LineEndLength;
    data := "";
    var lastPos, p := 0, 0;
    ghost var s := CString(buf);
    CStringIsPrefix(buf);
    assert s[0..] == s && "" + Normalized(s) == Normalized(s);
    while p < |buf| && buf[p] != '\0'
      invariant lastPos <= p <= |s| && '\r' !in s[lastPos..p]
      invariant Normalized(s) == data + Normalized(s[lastPos..])
      decreases |s| - p
    {
      BlockStep(data, s, lastPos, p);
      Slices(buf, s, lastPos, p);
      if buf[p] == '\n' {
        data := data + buf[lastPos..p + 1];
        p := p + 1;
        lastPos := p;
      } else if buf[p] == '\r' {
        if p - lastPos > 0 {
          data := data + buf[lastPos..p];
        }
        data := data + "\n";
        if p + 1 < |buf| && buf[p + 1] == '\n' {
          p := p + 2;
        } else {
          p := p + 1;
        }
        lastPos := p;
      } else {
        p := p + 1;
      }
    }
    Remainder(s, lastPos, data);
    assert buf[lastPos..p] == s[lastPos..];
    if p - lastPos > 0 {
      data := data + buf[lastPos..p];
    }
  }

  lemma Slices(buf: string, s: string, lastPos: nat, p: nat)
    requires lastPos <= p < |s| <= |buf| && s == buf[..|s|] && (|s| < |buf| ==> buf[|s|] == '\0')
    ensures buf[lastPos..p] == s[lastPos..p] && buf[lastPos..p + 1] == s[lastPos..p + 1] && buf[p] == s[p]
    ensures LineEndLength(s, p) == if p + 1 < |buf| && buf[p + 1] == '\n' then 2 else 1
  {
    assert forall i :: 0 <= i < |s| ==> buf[..|s|][i] == buf[i];
  }

  lemma Remainder(s: string, lastPos: nat, data: string)
    requires lastPos <= |s| && '\r' !in s[lastPos..|s|]
    ensures Normalized(s[lastPos..]) == s[lastPos..] && (lastPos == |s| ==> data + s[lastPos..] == data)
  {
    BlockCopied(s[lastPos..], "");
    assert s[lastPos..] + "" == s[lastPos..];
  }

  // ---------------------------------------------------------------- UTF-8

  /** The rows of utf8ByteTable: the length of a sequence from its first byte, 1 for bytes that cannot be first. */
  function ByteTable(first: bv8): nat
  {
    if first < 0xC2 then 1
    else if first < 0xE0 then 2
    else if first < 0xF0 then 3
    else if first < 0xF5 then 4
    else 1
  }

  /** The table in section 3 of RFC 3629: the sequence, in binary, for a code point of each range. */
  predicate Layout(c: bv64, s: seq<bv8>)
  {
    if c < 0x80 then |s| == 1 && LeadsOne(s[0])
    else if c < 0x800 then |s| == 2 && LeadsTwo(s[0]) && Continues(s[1])
    else if c < 0x1_0000 then |s| == 3 && LeadsThree(s[0]) && Continues(s[1]) && Continues(s[2])
    else |s| == 4 && LeadsFour(s[0]) && Continues(s[1]) && Continues(s[2]) && Continues(s[3])
  }

  /** 0xxxxxxx */
  predicate LeadsOne(b: bv8) { b & 0x80 == 0 }

  /** 110xxxxx */
  predicate LeadsTwo(b: bv8) { b & 0xE0 == 0xC0 }

  /** 1110xxxx */
  predicate LeadsThree(b: bv8) { b & 0xF0 == 0xE0 }

  /** 11110xxx */
  predicate LeadsFour(b: bv8) { b & 0xF8 == 0xF0 }

  /** 10xxxxxx */
  predicate Continues(b: bv8) { b & 0xC0 == 0x80 }

  /** The bits marked x in the table, in order. */
  function Payload(s: seq<bv8>): bv64
    requires 1 <= |s| <= 4
  {
    if |s| == 1 then Masked(s[0], 0x7F)
    else if |s| == 2 then Two(Masked(s[0], 0x1F), Masked(s[1], 0x3F))
    else if |s| == 3 then Three(Masked(s[0], 0x0F), Masked(s[1], 0x3F), Masked(s[2], 0x3F))
    else Four(Masked(s[0], 0x07), Masked(s[1], 0x3F), Masked(s[2], 0x3F), Masked(s[3], 0x3F))
  }

  function Masked(b: bv8, mask: bv8): bv64
  {
    (b & mask) as bv64
  }

  function Two(a: bv64, b: bv64): bv64
  {
    (a << 6) | b
  }

  function Three(a: bv64, b: bv64, c: bv64): bv64
  {
    (a << 12) | (b << 6) | c
  }

  function Four(a: bv64, b: bv64, c: bv64, d: bv64): bv64
  {
    (a << 18) | (b << 12) | (c << 6) | d
  }

  const FIRST_BYTE_MARK: seq<bv64> := [0x00, 0x00, 0xC0, 0xE0, 0xF0, 0xF8, 0xFC]

  /** `input >>= 6`. */
  function Shifted(input: bv64): bv64
  {
    input >> 6
  }

  /** `(char)((input | BYTE_MARK) & BYTE_MASK)`. */
  function Continuation(input: bv64): bv8
  {
    ((input | 0x80) & 0xBF & 0xFF) as bv8
  }

  /** `(char)(input | FIRST_BYTE_MARK[*length])`. */
  function Lead(input: bv64, mark: bv64): bv8
  {
    ((input | mark) & 0xFF) as bv8
  }

  /**
   ConvertUTF32ToUTF8, which fills the output from its end with falling through cases. Up to
   21 bits, it writes the layout of the table, and the payload is the code point; beyond, it
   writes nothing.
   */
  method ConvertUTF32ToUTF8(input: bv64, output: array<bv8>) returns (length: nat)
    requires output.Length >= 4
    modifies output
    ensures input >= 0x20_0000 ==> length == 0 && output[..] == old(output[..])
    ensures input < 0x20_0000 ==> 1 <= length <= 4
    ensures input < 0x20_0000 ==> Layout(input, output[..length]) && Payload(output[..length]) == input
    ensures input <= 0x10_FFFF ==> length == ByteTable(output[0])
    ensures output[length..] == old(output[length..])
  {
    hide Continuation, Lead, Layout, Payload, ByteTable, Shifted;
    if input < 0x80 {
      length := 1;
    } else if input < 0x800 {
      length := 2;
    } else if input < 0x1_0000 {
      length := 3;
    } else if input < 0x20_0000 {
      length := 4;
    } else {
      length := 0;
      return;
    }
    var at, rest := length, input;
    if length == 4 {
      at := at - 1;
      output[at] := Continuation(rest);
      rest := Shifted(rest);
    }
    if length >= 3 {
      at := at - 1;
      output[at] := Continuation(rest);
      rest := Shifted(rest);
    }
    if length >= 2 {
      at := at - 1;
      output[at] := Continuation(rest);
      rest := Shifted(rest);
    }
    at := at - 1;
    output[at] := Lead(rest, FIRST_BYTE_MARK[length]);
    assert output[..length] ==
      if length == 1 then [output[0]]
      else if length == 2 then [output[0], output[1]]
      else if length == 3 then [output[0], output[1], output[2]]
      else [output[0], output[1], output[2], output[3]];
    Written(input, output[..length]);
  }

  /** The bytes for a code point. */
  predicate Bytes(input: bv64, s: seq<bv8>)
  {
    if input < 0x80 then s == [Lead(input, 0x00)]
    else if input < 0x800 then s == [Lead(Shifted(input), 0xC0), Continuation(input)]
    else if input < 0x1_0000 then
      s == [Lead(Shifted(Shifted(input)), 0xE0), Continuation(Shifted(input)), Continuation(input)]
    else
      s == [Lead(Shifted(Shifted(Shifted(input))), 0xF0), Continuation(Shifted(Shifted(input))), Continuation(Shifted(input)), Continuation(input)]
  }

  /** The lowest six bits. */
  function Low(x: bv64): bv64
  {
    x & 0x3F
  }

  lemma ContinuationBits(x: bv64)
    ensures Continues(Continuation(x)) && Masked(Continuation(x), 0x3F) == Low(x)
  {
  }

  lemma LeadOfOne(x: bv64)
    requires x < 0x80
    ensures var b := Lead(x, 0x00); LeadsOne(b) && Masked(b, 0x7F) == x && ByteTable(b) == 1
  {
  }

  lemma LeadOfTwo(x: bv64)
    requires 0x02 <= x < 0x20
    ensures var b := Lead(x, 0xC0); LeadsTwo(b) && Masked(b, 0x1F) == x && ByteTable(b) == 2
  {
  }

  lemma LeadOfThree(x: bv64)
    requires x < 0x10
    ensures var b := Lead(x, 0xE0); LeadsThree(b) && Masked(b, 0x0F) == x && ByteTable(b) == 3
  {
  }

  lemma LeadOfFour(x: bv64)
    requires x < 0x08
    ensures var b := Lead(x, 0xF0); LeadsFour(b) && Masked(b, 0x07) == x && (x <= 0x04 ==> ByteTable(b) == 4)
  {
  }

  /** Six-bit groups put together again. */
  lemma TwoGroups(x: bv64)
    requires 0x80 <= x < 0x800
    ensures Two(Shifted(x), Low(x)) == x && 0x02 <= Shifted(x) < 0x20
  {
  }

  lemma ThreeGroups(x: bv64)
    requires 0x800 <= x < 0x1_0000
    ensures Three(Shifted(Shifted(x)), Low(Shifted(x)), Low(x)) == x && Shifted(Shifted(x)) < 0x10
  {
  }

  lemma FourGroups(x: bv64)
    requires 0x1_0000 <= x < 0x20_0000
    ensures var y := Shifted(Shifted(x)); Four(Shifted(y), Low(y), Low(Shifted(x)), Low(x)) == x
    ensures var y := Shifted(Shifted(x)); Shifted(y) < 0x08 && (x <= 0x10_FFFF ==> Shifted(y) <= 0x04)
  {
  }

  lemma Written(input: bv64, s: seq<bv8>)
    requires input < 0x20_0000 && Bytes(input, s)
    ensures 1 <= |s| <= 4 && Layout(input, s) && Payload(s) == input
    ensures input <= 0x10_FFFF ==> ByteTable(s[0]) == |s|
  {
    hide ByteTable, Lead, Continuation, Shifted, Low, Masked, Two, Three, Four, LeadsOne, LeadsTwo, LeadsThree, LeadsFour, Continues;
    var x1, x2 := Shifted(input), Shifted(Shifted(input));
    ContinuationBits(input);
    ContinuationBits(x1);
    ContinuationBits(x2);
    if input < 0x80 {
      LeadOfOne(input);
    } else if input < 0x800 {
      TwoGroups(input);
      LeadOfTwo(x1);
    } else if input < 0x1_0000 {
      ThreeGroups(input);
      LeadOfThree(x2);
    } else {
      FourGroups(input);
      LeadOfFour(Shifted(x2));
    }
  }
}
